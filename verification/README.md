# Verified model of the kernel's data structures and file system

The Dafny modules here model the parts of the kernel that keep mutable state, and prove what each of them promises.
Each follows the C code branch by branch in imperative Dafny and ties it to a function on sequences, maps or
histories; the laws are then proved of those functions over every input, every run or every interleaving.

- `Words.dfy`, `Sequences.dfy`, `Blocks.dfy`: 32-bit words and bytes, sequences, and blocks, as the other modules use
  them.
- `Lists.dfy`: circular intrusive lists as any number of disjoint rings of heap nodes, and the iterators.
- `Bitmaps.dfy`, `BitmapAlloc.dfy`: packed bitmaps as sequences of booleans, and runs of block allocation on them.
- `Keyboard.dfy`: the keyboard ring, with interrupts between any two memory accesses of the consumer.
- `KHeap.dfy`: the bump allocator with 32-bit wrap-around.
- `Printing.dfy`: number printing and parsing back.
- `MemString.dfy`: overlapping copies and string comparison.
- `Vnodes.dfy`, `TmpfsFile.dfy`, `TmpfsDir.dfy`: tmpfs files decided by their history of writes, and directories as
  finite maps.
- `VfsPath.dfy`: path walking as a fold over components, and mounts.
- `VfsTmpfs.dfy`: what creating and unlinking a file and mounting a new tmpfs do to path lookup.
- `FsHeap.dfy`, `FileSystem.dfy`: the walk, the mounts and the tmpfs directories on one heap of vnodes and inodes that
  grows as files and roots are made, tied to the trees of the two modules before.
- `FdTable.dfy`: descriptors and reference counts as a table, and runs of opens and closes.
- `Files.dfy`: the same on the heap, and reading and writing through descriptors.

Sizes and offsets are 32 bits wide (the kernel is built with -m32) and wrap where the code lets them. Decisions of the
allocator, of another file system's mount operation and the arrival of interrupts are parameters, so that every outcome
is covered.

Several promises hold only under a condition; the exact one is proved in the members named:

- `kmalloc` keeps its blocks inside the heap, over a whole run, if and only if no sum of address and size wraps to
  below the heap end (`KHeap.MallocKeepsInv`, `KHeap.RunKeepsInv`); it gives no bytes at all for the seven largest sizes
  (`KHeap.RoundIsLeast`), so that such a request can succeed after a smaller one has failed (`KHeap.FailureLasts`,
  `KHeap.FailureEnds`).
- `bitmap_test_range_clear` accepts some ranges that wrap past the end of the address space; `bitmap_test_range` does
  not (`Bitmaps.TestRangeClearExact`, `Bitmaps.TestRangeExact`).
- tmpfs shortens names of 64 bytes or more when it stores them but compares full names, so such entries are never found
  and may repeat (`TmpfsDir.CreateInserts`, `TmpfsDir.LongNameTwice`).
- `create` followed by `unlink` fails for the names `.` and `..` (`TmpfsDir.CreateThenUnlink`).
- A mount on a path that already ends in a mount is not seen, since the walk follows one mount only, two at the root
  (`VfsPath.MountIsVisible`, `VfsPath.SecondMountIsHidden`).
- A read or write that moves 2^31 bytes or more returns a negative number although the data has moved, and the offset
  stays (`Files.WriteReports`, `Files.ReadReports`, `Files.HugeTransfer`).
- A `tmpfs_write` whose end wraps and that no check stops copies outside the block of the file
  (`TmpfsFile.CopyStaysInside`, `TmpfsFile.CopyEscapes`).
- `bitmap_fill` masks a byte before its buffer for the seven largest sizes (`Bitmaps.Bitmap.FillEscapes`).
- What `vfs_open` returns can be used exactly when slot 0 was taken before; the first one of a process returns
  descriptor 0, which `process_get_file` refuses, and the reference it takes is never given back (`FdTable.OpenedIsUsable`,
  `FdTable.FirstOpenLeaks`).
- A transfer of exactly 2^32 - 13 bytes returns the number that -EACCES stands for (`Files.Process.VfsWrite`,
  `Files.Process.VfsRead`).
- Every vnode count is what it started with plus the number of its open files, over a whole run, if and only if no
  close takes the count of a file past the least int and no open that of a vnode past the greatest size_t
  (`FdTable.RunKeepsInv`, `FdTable.ReferencesConserved`); a vnode count that wraps reads 0 (`FdTable.OpenWraps`).
- The close that follows 2^31 closes of one descriptor makes the count of a closed file positive
  (`FdTable.CloseKeepsInv`, `FdTable.CloseOverflows`). C leaves that overflow undefined; the model wraps.

`ENOTEMPTY` is not defined in `include/kernel/errno.h`; the value 39 is assumed.

## Model

| member | source | states |
|---|---|---|
| `Lists.InitListHead` | kernel/lib/list.c:3-7 | a node becomes self-linked |
| `Lists.LinkBetween` | kernel/lib/list.c:9-18 | inserting between two neighbours of ring k turns the rings of the whole memory into those with the node inserted there |
| `Lists.Unlink` | kernel/lib/list.c:20-26 | the node at position i leaves its ring, every other ring stays, and its own links survive unless it was alone |
| `Lists.ListAdd` | kernel/lib/list.c:28-33 | the node comes directly after the head; all other rings are unchanged |
| `Lists.ListAddTail` | kernel/lib/list.c:35-40 | the node comes last; all other rings are unchanged |
| `Lists.ListDel` | kernel/lib/list.c:42-46 | removal at position i of any ring, including a lone node, with both links set to NULL |
| `Lists.InitLoose` | kernel/lib/list.c:48-51 | a node on no ring becomes a ring of its own beside all the others |
| `Lists.ListDelInit` | kernel/lib/list.c:48-51 | removal at position i, and the node is afterwards an empty ring |
| `Lists.ListReplace` | kernel/lib/list.c:53-61 | update at position i; on a one-node ring the new node ends up self-linked |
| `Lists.ListReplaceInit` | kernel/lib/list.c:63-66 | update at position i, and the old node is afterwards an empty ring |
| `Lists.ListMove` | kernel/lib/list.c:68-74 | removal from one ring and insertion after the head of the same or another ring |
| `Lists.ListMoveTail` | kernel/lib/list.c:76-82 | removal from one ring and insertion at the end of the same or another ring |
| `Lists.SpliceBetween` | kernel/lib/list.c:84-97 | the source nodes enter the target ring after position i, and the source head is left as it was |
| `Lists.ListSplice` | kernel/lib/list.c:99-103 | source before target; nothing at all changes when the source is empty |
| `Lists.ListSpliceTail` | kernel/lib/list.c:105-109 | target before source; nothing at all changes when the source is empty |
| `Lists.InitEmptied` | kernel/lib/list.c:111-116 | a head whose ring is gone becomes a valid empty ring beside all the others |
| `Lists.ListSpliceInit` | kernel/lib/list.c:111-116 | source before target, and the source is a valid empty ring in both cases |
| `Lists.QueriesCount` | kernel/lib/list.c:118-124 | list_empty holds exactly for rings of one node, list_is_singular exactly for rings of two |
| `Lists.RingUnique` | kernel/lib/list.c:9-26 | a memory determines its rings: two rings with one head are the same sequence |
| `Lists.RotateRings` | kernel/lib/list.c:28-40 | any node of a ring may be taken for its head, so that stating operations at the head loses nothing |
| `Lists.MoveConserves` | kernel/lib/list.c:68-82 | a move within one ring or between two, to any position, neither loses nor duplicates any node |
| `Lists.SpliceConserves` | kernel/lib/list.c:84-116 | a splice takes out the source head only; with reinitialisation not even that |
| `Lists.RoundTrips` | kernel/lib/list.c:28-66 | add then delete, replace then replace back, and delete then add restore the rings |
| `Lists.ForEach` | include/lib/list.h:86-87 | list_for_each visits every entry once, in order, and ends |
| `Lists.ForEachPrev` | include/lib/list.h:89-90 | list_for_each_prev visits the entries in the reverse order |
| `Lists.ReverseTwice` | include/lib/list.h:86-90 | the two orders are reverses of each other |
| `Lists.ForEachSafeDel` | include/lib/list.h:92-95 | deleting the current entry in list_for_each_safe visits every original entry, leaves each with NULL links, the head empty and all other rings alone |
| `Lists.DelAll` | include/lib/list.h:92-95 | the same on one ring, with its loop |
| `Bitmaps.ByteUpdates` | kernel/lib/bitmap.c:46-77 | or, and-not and exclusive-or with 1 << (index % 8) change exactly bit index of all bits of all bytes |
| `Bitmaps.Bitmap.Init` | kernel/lib/bitmap.c:10-19 | the two fields are set |
| `Bitmaps.Bitmap.Zero` | kernel/lib/bitmap.c:21-29 | exactly the bits of the first bitmap_size bytes are cleared, padding included; none when bits + 7 wraps |
| `Bitmaps.Bitmap.Fill` | kernel/lib/bitmap.c:31-44 | bits below the size are set, the padding of the last byte is clear, later bytes are untouched |
| `Bitmaps.Bitmap.FillEscapes` | kernel/lib/bitmap.c:31-44 | the byte count is 0 and there is a byte to mask exactly for the seven sizes for which bits + 7 wraps |
| `Bitmaps.Bitmap.Set` | kernel/lib/bitmap.c:46-50 | exactly the one in-range bit becomes true; out of range nothing changes |
| `Bitmaps.Bitmap.Clear` | kernel/lib/bitmap.c:52-56 | exactly the one in-range bit becomes false; out of range nothing changes |
| `Bitmaps.Bitmap.Test` | kernel/lib/bitmap.c:58-62 | the in-range bit; out of range, or without data, false |
| `Bitmaps.Bitmap.Assign` | kernel/lib/bitmap.c:64-70 | the in-range bit becomes whether the value is non-zero |
| `Bitmaps.Bitmap.Toggle` | kernel/lib/bitmap.c:72-77 | exactly the one in-range bit is negated |
| `Bitmaps.Bitmap.TestClear` | kernel/lib/bitmap.c:79-83 | the old bit is returned and cleared |
| `Bitmaps.Bitmap.SetRange` | kernel/lib/bitmap.c:85-89 | exactly the in-range positions start + i modulo 2^32 become true |
| `Bitmaps.Bitmap.ClearRange` | kernel/lib/bitmap.c:91-95 | exactly the in-range positions start + i modulo 2^32 become false |
| `Bitmaps.CoveredInterval` | kernel/lib/bitmap.c:85-95 | without wrap-around those positions are the interval from start |
| `Bitmaps.CoveredWraps` | kernel/lib/bitmap.c:85-95 | with it they are those from the start on and those below the wrapped end |
| `Bitmaps.FirstIs` | kernel/lib/bitmap.c:97-139 | what the four searches answer is the size exactly when no bit from the start on has the value; otherwise it has it and no bit between the start and it has |
| `Bitmaps.Bitmap.FindFirstClear` | kernel/lib/bitmap.c:97-106 | the least clear position, or the size when there is none |
| `Bitmaps.Bitmap.FindFirstSet` | kernel/lib/bitmap.c:108-117 | the least set position, or the size when there is none |
| `Bitmaps.Bitmap.FindNextClear` | kernel/lib/bitmap.c:119-128 | the least clear position from start on, or the size when there is none |
| `Bitmaps.Bitmap.FindNextSet` | kernel/lib/bitmap.c:130-139 | the least set position from start on, or the size when there is none |
| `Bitmaps.Bitmap.FindZeroArea` | kernel/lib/bitmap.c:141-164 | the least start of count consecutive clear bits, the size exactly when no such run exists, and the error value for a bad count |
| `Bitmaps.Bitmap.CountSet` | kernel/lib/bitmap.c:166-175 | the number of true bits |
| `Bitmaps.CountSetByBytes` | kernel/lib/bitmap.c:166-175 | with clear padding that number is the sum of the byte populations |
| `Bitmaps.Bitmap.TestRange` | kernel/lib/bitmap.c:177-185 | the loop answers as its wrapping size_t sums say |
| `Bitmaps.TestRangeExact` | kernel/lib/bitmap.c:177-185 | that answer is right for every start and count |
| `Bitmaps.Bitmap.TestRangeClear` | kernel/lib/bitmap.c:187-195 | the loop answers as its wrapping size_t sums say |
| `Bitmaps.TestRangeClearExact` | kernel/lib/bitmap.c:187-195 | that answer is right when start + count does not wrap; when it does, exactly when the wrong answer is given |
| `Bitmaps.TestRangeClearWraps` | kernel/lib/bitmap.c:187-195 | an 8-bit bitmap for which a range past the end of the address space is called clear |
| `Bitmaps.Bitmap.CountClear` | kernel/lib/bitmap.c:197-200 | the number of false bits; without data, bits + 1 modulo 2^32 |
| `Bitmaps.Bitmap.Empty` | kernel/lib/bitmap.c:202-205 | true exactly when no bit is set |
| `Bitmaps.Bitmap.Full` | kernel/lib/bitmap.c:207-210 | true exactly when every bit is set |
| `BitmapAlloc.RunKeepsInv` | kernel/lib/bitmap.c:85-175 | over every run of allocations and frees on a clear bitmap the blocks are in bounds and disjoint, the set bits are their union, and the count is the sum of their lengths |
| `BitmapAlloc.AllocGrants` | kernel/lib/bitmap.c:141-164 | an allocation is refused exactly when no run of that many clear bits is left |
| `BitmapAlloc.Allocate` | kernel/lib/bitmap.c:85-89 | bitmap_find_zero_area then bitmap_set_range on the packed bytes is the allocation step, padding untouched |
| `BitmapAlloc.Release` | kernel/lib/bitmap.c:91-95 | bitmap_clear_range of a block is the free step, padding untouched |
| `Keyboard.RunKeepsInv` | kernel/dev/keyboard.c:52-111 | in every interleaving of pushes with single accesses of keyboard_getchar, what was delivered is a prefix of what was accepted and the rest is intact in the buffer |
| `Keyboard.RunDropsWhenFull` | kernel/dev/keyboard.c:52-61 | after any run at most 127 characters are pending, and a push is dropped exactly when 127 are; emptiness is found exactly when everything accepted by the read of the head was delivered |
| `Keyboard.PushKeepsInv` | kernel/dev/keyboard.c:52-61 | a push appends to the accepted history or, with 127 pending, changes nothing |
| `Keyboard.ConsumeKeepsInv` | kernel/dev/keyboard.c:102-111 | each single access keeps the ring sound |
| `Keyboard.CallDelivers` | kernel/dev/keyboard.c:102-111 | a call delivers the oldest undelivered character if one was accepted when it read the head, and otherwise nothing, whatever is pushed meanwhile |
| `Keyboard.KeyBuffer.constructor` | kernel/dev/keyboard.c:94-96 | keyboard_init starts empty |
| `Keyboard.KeyBuffer.BufferPush` | kernel/dev/keyboard.c:52-61 | the code performs the push step |
| `Keyboard.KeyBuffer.Interrupts` | kernel/dev/keyboard.c:79-92 | any number of interrupts in one gap performs that many pushes |
| `Keyboard.KeyBuffer.ReadIndices` | kernel/dev/keyboard.c:103-103 | the two reads of the emptiness test, in either order |
| `Keyboard.KeyBuffer.TakeChar` | kernel/dev/keyboard.c:107-110 | reading the character and advancing the tail, with pushes between all accesses |
| `Keyboard.KeyBuffer.GetChar` | kernel/dev/keyboard.c:102-111 | the code performs exactly the steps of the call, and returns what it appends to the delivered history, or -1 |
| `KHeap.RoundWord` | kernel/mm/heap.c:15-15 | on 32-bit words (n + 7) & ~7 is a multiple of 8 at most 7 above n, or 0 for the seven largest words |
| `KHeap.RoundIsLeast` | kernel/mm/heap.c:15-15 | the rounded size is the least multiple of 8 not below n exactly for n up to 2^32 - 8, and 0 above |
| `KHeap.MallocKeepsInv` | kernel/mm/heap.c:14-24 | an allocation keeps aligned, packed, in-bounds blocks if and only if its sum does not wrap to an address below the heap end |
| `KHeap.MallocGrants` | kernel/mm/heap.c:14-24 | a request is granted, with a block at heap_current as large as the size rounded up to a multiple of 8, exactly when the sum of the two, which may wrap, lies below the end of the heap |
| `KHeap.WrapExample` | kernel/mm/heap.c:17-21 | a request for which it does wrap and heap_current moves back |
| `KHeap.RunKeepsInv` | kernel/mm/heap.c:14-24 | a whole run keeps aligned, packed, in-bounds blocks if and only if none of its requests wraps into the heap |
| `KHeap.RunBlocks` | kernel/mm/heap.c:7-24 | over every run without such a request, from a heap of any size, the blocks are aligned, inside the heap, pairwise disjoint, and their sizes sum to heap_current - heap_start |
| `KHeap.RunGrants` | kernel/mm/heap.c:7-24 | a run on a fresh heap is granted in full exactly when its rounded sizes add up to less than the heap, as long as none wraps into it |
| `KHeap.FailureLasts` | kernel/mm/heap.c:15-17 | after a failed request and any further ones that do not wrap into the heap, a request of at least the failed size fails if and only if its sum does not wrap into the heap and either its size is none of the seven that round to 0 or the heap has not one byte left |
| `KHeap.FailureEnds` | kernel/mm/heap.c:15-17 | a heap that refuses 0x8000 bytes and then grants a request of 0xFFFFFFFF with an empty block |
| `KHeap.Heap.Init` | kernel/mm/heap.c:7-11 | the heap starts empty, for every start and size; the end is their sum, which may wrap |
| `KHeap.Heap.KMalloc` | kernel/mm/heap.c:14-24 | the code performs the allocation step, with both sums wrapping |
| `Printing.DigitsParse` | kernel/lib/print.c:3-20 | the digits are lower-case, parse back to the value and have no leading zero |
| `Printing.DigitsUnique` | kernel/lib/print.c:3-20 | they are the only such representation |
| `Printing.PrintUnsigned` | kernel/lib/print.c:3-20 | the digits of the value are emitted, never writing past the 32-byte buffer |
| `Printing.Emit` | kernel/lib/print.c:18-19 | the buffered characters are emitted last one first |
| `Printing.PrintSigned` | kernel/lib/print.c:22-30 | the sign and the digits of the magnitude are emitted, also for the least int, without signed overflow |
| `Printing.SignedRoundTrip` | kernel/lib/print.c:22-30 | that text parses back to the signed value |
| `Printing.SignedUnique` | kernel/lib/print.c:22-30 | it is the only text that does so with digits without a leading zero, after a minus sign if the value is negative |
| `Printing.WriteDec` | kernel/arch/x86/interrupts.c:15-32 | write_dec emits the same digits as print_unsigned in base 10 |
| `Printing.TenDigits` | kernel/arch/x86/interrupts.c:24-27 | the cutoff after ten digits never loses any |
| `Printing.WriteHex32` | kernel/arch/x86/interrupts.c:6-13 | 0x and the eight hexadecimal digits of the value are emitted |
| `Printing.HexParses` | kernel/arch/x86/interrupts.c:6-13 | the n digits parse back to any value below 16^n, and letters are capitals |
| `Printing.HexAgrees` | kernel/arch/x86/interrupts.c:6-13 | they are the digits of print_unsigned in base 16, in capitals and padded with zeros |
| `MemString.MemCpy` | kernel/lib/string.c:7-16 | the ascending copy, for separate memories and for overlapping ranges of one memory |
| `MemString.MemMove` | kernel/lib/string.c:18-36 | the destination holds the original source range and every other byte is unchanged, whatever the overlap |
| `MemString.AscendingIsRight` | kernel/lib/string.c:25-33 | copying upwards is right for every content exactly when the destination does not start inside the source range |
| `MemString.MemSet` | kernel/lib/string.c:38-47 | exactly the n bytes hold the value converted to unsigned char |
| `MemString.StrCmp` | kernel/lib/string.c:121-127 | zero exactly for equal strings, otherwise the sign of the first differing unsigned character |
| `MemString.OrderNegative` | kernel/lib/string.c:121-127 | the result is negative exactly when the strings agree up to a position where the first one ends or has the smaller character; swapped arguments give the opposite sign |
| `TmpfsFile.KRealloc` | tests/test_tmpfs.c:16-18 | the standard contract: a fresh block with the common prefix preserved, or NULL and no change |
| `TmpfsFile.TmpfsRead` | kernel/fs/tmpfs/tmpfs.c:152-169 | the buffer receives the bytes from the offset up to the count or the end, and nothing else of it changes |
| `TmpfsFile.TmpfsWrite` | kernel/fs/tmpfs/tmpfs.c:171-201 | the contents become the old ones overwritten at the offset with a hole filled by zeros; on any failure, also of a write whose end wraps, they are unchanged |
| `TmpfsFile.MakeRoom` | kernel/fs/tmpfs/tmpfs.c:178-196 | growing the file keeps its bytes and zeroes the hole; without memory nothing changes |
| `TmpfsFile.CopyStaysInside` | kernel/fs/tmpfs/tmpfs.c:178-198 | the bytes copied lie inside the block of the file exactly when offset + count does not wrap |
| `TmpfsFile.CopyEscapes` | kernel/fs/tmpfs/tmpfs.c:178-198 | two bytes written at offset 2^32 - 1 of an empty file ask for a block of one byte and end outside it |
| `TmpfsFile.WriteOnce` | kernel/fs/tmpfs/tmpfs.c:171-201 | one write from its caller's side: when its bytes move, and what it is told |
| `TmpfsFile.RunWrites` | kernel/fs/tmpfs/tmpfs.c:171-201 | after any run of writes to an empty file whose ends do not overflow, some of them refused by the allocator, the contents are those of the history of the writes that moved; all of them when none is refused |
| `TmpfsFile.SizeIsLargestEnd` | kernel/fs/tmpfs/tmpfs.c:178-196 | over every history of writes the size is the largest end of a non-empty write |
| `TmpfsFile.ByteIsOfLastWrite` | kernel/fs/tmpfs/tmpfs.c:171-201 | a byte is the one of the last write that covers it |
| `TmpfsFile.ByteIsZero` | kernel/fs/tmpfs/tmpfs.c:188-193 | a byte that no write covers is zero |
| `TmpfsDir.CreateInserts` | kernel/fs/tmpfs/tmpfs.c:128-150 | a creation is an insertion into the map of names; names stay distinct exactly when the stored name is new, and the entry is found again exactly when the name has at most 63 bytes |
| `TmpfsDir.LongNameTwice` | kernel/fs/tmpfs/tmpfs.c:36-43 | two creations of one longer name both succeed and leave equal stored names |
| `TmpfsDir.UnlinkRemoves` | kernel/fs/tmpfs/tmpfs.c:203-247 | -EPERM exactly for . and .., -ENOENT exactly for another name that is not there, -ENOTEMPTY exactly for a directory with children, and then nothing changes; otherwise the entry of that name is taken out of the map and the chain, and the others stay in order |
| `TmpfsDir.CreateThenUnlink` | kernel/fs/tmpfs/tmpfs.c:128-247 | create then unlink restores the chain exactly for names of at most 63 bytes other than . and .. |
| `TmpfsDir.RunRefinesMap` | kernel/fs/tmpfs/tmpfs.c:69-247 | over every run that creates names of at most 63 bytes the chain has distinct names and answers every call, also for longer names, as a finite map does |
| `TmpfsDir.LookupAnswers` | kernel/fs/tmpfs/tmpfs.c:105-126 | tmpfs_lookup answers as one finite map that includes . and .. |
| `TmpfsDir.ChainAcyclic` | kernel/fs/tmpfs/tmpfs.c:64-79 | a sibling chain that reaches NULL repeats no inode |
| `TmpfsDir.TmpfsAllocInode` | kernel/fs/tmpfs/tmpfs.c:22-46 | a zeroed inode with at most 63 bytes of the name, or NULL |
| `TmpfsDir.TmpfsCreateVnode` | kernel/fs/tmpfs/tmpfs.c:48-62 | a vnode with the type and name of the inode, linked to it both ways |
| `TmpfsDir.TmpfsAddChild` | kernel/fs/tmpfs/tmpfs.c:64-67 | the child comes first in the chain |
| `TmpfsDir.TmpfsFindChild` | kernel/fs/tmpfs/tmpfs.c:69-79 | the first inode of that name, or NULL |
| `TmpfsDir.TmpfsMount` | kernel/fs/tmpfs/tmpfs.c:85-103 | a root directory without entries that is its own parent, or -ENOMEM |
| `TmpfsDir.TmpfsLookup` | kernel/fs/tmpfs/tmpfs.c:105-126 | the code answers as the sequence of entries does, . and .. first |
| `TmpfsDir.TmpfsCreate` | kernel/fs/tmpfs/tmpfs.c:128-150 | the code performs the creation on the chain; failed calls leave the chain as it was |
| `TmpfsDir.UnlinkChild` | kernel/fs/tmpfs/tmpfs.c:230-234 | bypassing the inode leaves the chain of the others in order |
| `TmpfsDir.TmpfsUnlink` | kernel/fs/tmpfs/tmpfs.c:203-247 | the code performs the removal on the chain, with its errors in order |
| `VfsPath.ComponentsJoin` | kernel/fs/vfs.c:6-26 | any names that fit are the components of the path that lists them |
| `VfsPath.ComponentsAppend` | kernel/fs/vfs.c:6-26 | the components of two paths joined by a slash are those of the first and then of the second |
| `VfsPath.SlashesDoNotMatter` | kernel/fs/vfs.c:110-139 | repeated, leading and trailing slashes do not change what vfs_lookup returns |
| `VfsPath.LookupComposes` | kernel/fs/vfs.c:110-139 | the lookup of the joined path asks the result for p for the first component of q, whatever is mounted on that result, and walks on from there; an error for p stays |
| `VfsPath.LookupDecides` | kernel/fs/vfs.c:110-139 | -EINVAL exactly for a path that does not start with /; for the others -ENOTDIR exactly when the vnodes that a proper prefix of the components leads through end in one without a lookup operation, -ENOENT exactly when they end in a directory without the next name, and success exactly when they lead through all components |
| `VfsPath.LookupFollows` | kernel/fs/vfs.c:110-139 | what a path resolves to is the last of those vnodes, or the root mounted on it |
| `VfsPath.LongNameIsCut` | kernel/fs/vfs.c:6-26 | a component counts with its first 255 characters only |
| `VfsPath.WalkAppend` | kernel/fs/vfs.c:122-135 | the fold over components composes |
| `VfsPath.NextComponent` | kernel/fs/vfs.c:6-26 | the next component, cut to 255 characters, is left in the buffer and the rest of the path is strictly shorter |
| `VfsPath.MountIsVisible` | kernel/fs/vfs.c:160-194 | a fresh root mounted on what p resolves to is what p resolves to afterwards, exactly when the mountpoint was not itself reached by following a mount |
| `VfsPath.MountIsEntered` | kernel/fs/vfs.c:160-194 | then everything below p resolves inside the new root |
| `VfsPath.MountIsLocal` | kernel/fs/vfs.c:160-194 | a path whose walk does not meet the mountpoint resolves as before |
| `VfsPath.SecondMountIsHidden` | kernel/fs/vfs.c:28-34 | a second mount on one path is not seen |
| `VfsTmpfs.EntryIsFound` | kernel/fs/vfs.c:122-138 | one more name after p is asked of the directory that p resolves to, also under a stacked mount |
| `VfsTmpfs.CreatedIsFound` | kernel/fs/tmpfs/tmpfs.c:128-150 | after a creation in the directory p resolves to, p/name resolves to the new vnode; every path that resolved before, or whose walk does not look that name up there, resolves as before |
| `VfsTmpfs.CreatedDots` | kernel/fs/tmpfs/tmpfs.c:105-150 | below the new file . is the file and .. is the directory it was created in, or the root mounted on that |
| `VfsTmpfs.UnlinkedIsGone` | kernel/fs/tmpfs/tmpfs.c:203-247 | after an unlink p/name is -ENOENT, and every path whose walk does not look that name up there resolves as before |
| `VfsTmpfs.CreateUnlinkRestores` | kernel/fs/tmpfs/tmpfs.c:128-247 | creating a file and unlinking it again leaves every lookup as it was |
| `VfsTmpfs.TmpfsIsMounted` | kernel/fs/vfs.c:160-194 | a new tmpfs mounted on what p resolves to is what p resolves to afterwards, exactly when that was not itself reached by following a mount; it is empty then, and .. does not leave it |
| `VfsTmpfs.TmpfsMountIsLocal` | kernel/fs/vfs.c:160-194 | paths that do not meet the mountpoint resolve as before such a mount |
| `FsHeap.LookupFacts` | kernel/fs/tmpfs/tmpfs.c:105-126 | what tmpfs_lookup computes on the inodes is what the tree answers |
| `FsHeap.CreateFile` | kernel/fs/tmpfs/tmpfs.c:128-150 | tmpfs_create on a directory of the heap puts a new, empty regular file into the tree; a failure leaves the tree |
| `FsHeap.UnlinkFile` | kernel/fs/tmpfs/tmpfs.c:203-247 | tmpfs_unlink on a directory of the heap takes exactly that name out of the tree; a failure leaves the tree |
| `FileSystem.Vfs.constructor` | kernel/fs/vfs.c:57-71 | root_vnode is its own parent, without operations or a mount |
| `FileSystem.Vfs.MountedRoot` | kernel/fs/vfs.c:28-34 | one mount is followed |
| `FileSystem.Vfs.LookupIn` | kernel/fs/vfs.c:130-132 | tmpfs_lookup on the directory answers as the tree does |
| `FileSystem.Vfs.LookupChild` | kernel/fs/vfs.c:125-134 | one step of the walk, through tmpfs_lookup on a tmpfs vnode or what another file system answers just then, and its two errors |
| `FileSystem.Vfs.ForeignChange` | kernel/fs/vfs.c:130-132 | between any two calls other file systems may answer differently and bring vnodes along: tmpfs directories and all mounts stay in the tree as they were |
| `FileSystem.Vfs.WalkFrom` | kernel/fs/vfs.c:122-135 | the loop computes the fold of the mount-then-lookup step over the components, and ends |
| `FileSystem.Vfs.VfsLookup` | kernel/fs/vfs.c:110-139 | the result is that of the fold from the mounted root, with the mount on it followed; -EINVAL exactly for a path that does not start with / |
| `FileSystem.Vfs.Create` | kernel/fs/tmpfs/tmpfs.c:128-150 | the create operation changes the tree that is walked as the directory changes, and makes the new vnode, an empty regular file, known |
| `FileSystem.Vfs.Unlink` | kernel/fs/tmpfs/tmpfs.c:203-247 | the unlink operation changes the tree that is walked as the directory changes |
| `FileSystem.Vfs.Attach` | kernel/fs/vfs.c:190-191 | the two assignments add exactly that mount |
| `FileSystem.Vfs.MountOn` | kernel/fs/vfs.c:175-193 | the mount operation, with a root made by it or known before, its errors in order, and the mount |
| `FileSystem.Vfs.VfsMount` | kernel/fs/vfs.c:160-194 | the code mounts what the file system makes on what the path resolves to, or changes nothing and returns, in this order, -ENODEV, the error of the lookup, that of the file system, and -ENOMEM |
| `FileSystem.Vfs.CreateAt` | kernel/fs/tmpfs/tmpfs.c:128-150 | a file created in the directory a path resolves to is what its own path resolves to afterwards; a creation fails with -EINVAL exactly in what is no directory, then with -EEXIST exactly when that path resolved before, then with -ENOMEM exactly when an allocation is refused, and then leaves the tree |
| `FileSystem.Vfs.CreateAndFind` | tests/test_tmpfs.c:58-66 | such a file is found by the next lookup of its path |
| `FileSystem.Vfs.UnlinkAt` | kernel/fs/tmpfs/tmpfs.c:203-247 | after an unlink the path of the name does not resolve, when the path of its directory does not use it; it fails with -EINVAL exactly in what is no directory, then with -EPERM exactly for . and .., then with -ENOENT exactly when the path did not resolve, then with -ENOTEMPTY exactly for a directory with children, and then leaves the tree |
| `FileSystem.Vfs.MissingIsRefused` | kernel/fs/vfs.c:130-132 | below a tmpfs directory a name that no child has resolves to -ENOENT |
| `FileSystem.Vfs.MountAndFind` | tests/test_tmpfs.c:28-50 | a tmpfs mounted on a path without a mount is found by the next lookup of it, is empty, and is its own . and .. |
| `FileSystem.RootUnmounted` | kernel/fs/vfs.c:119-137 | / is such a path until two mounts are stacked on it |
| `FdTable.RunKeepsInv` | kernel/fs/vfs.c:196-222 | over every run of open, close, process_close_fd and vnode creation, each vnode count is, after every call, the one it started with plus the number of files on it still open, files have count 1 or less than 0, and distinct slots name distinct files, if and only if no call takes a count past its width |
| `FdTable.ReferencesConserved` | kernel/fs/vfs.c:196-222 | from a new process, after every run in which no call takes a count past its width, each vnode count is the one it started with plus the number of files on it still open, and distinct slots name distinct files |
| `FdTable.FewCallsFit` | kernel/fs/vfs.c:196-222 | from a new process, no call takes a count past its width in a run with at most 2^31 closes and no more opens than every vnode count has room for |
| `FdTable.OpenKeepsInv` | kernel/fs/vfs.c:196-212 | an open keeps this if and only if it fails or the vnode count does not wrap; a failed open changes nothing |
| `FdTable.OpenWraps` | kernel/fs/file.c:17-20 | an open of a vnode whose count is 2^32 - 1 makes it 0 |
| `FdTable.CloseKeepsInv` | kernel/fs/vfs.c:214-222 | a close keeps this, and clears no slot, if and only if the count of the file is not the least int |
| `FdTable.CloseAnswers` | kernel/fs/vfs.c:214-222 | a close returns 0 exactly when the descriptor names a file, closed already or not, and otherwise -ENOENT without any change |
| `FdTable.ClosedTimes` | kernel/fs/vfs.c:214-222 | n closes of one descriptor take the count of its file to -n |
| `FdTable.CloseOverflows` | kernel/fs/vfs.c:218-219 | after 2^31 closes of one descriptor the next makes the count of the closed file positive |
| `FdTable.DropKeepsInv` | kernel/proc/process.c:30-40 | process_close_fd keeps this and changes no count |
| `FdTable.DropFrees` | kernel/proc/process.c:30-40 | a successful process_close_fd frees exactly that slot; -EINVAL exactly for descriptor 0 and those outside the table, -EBADF exactly for a free slot |
| `FdTable.CloseTwice` | kernel/fs/vfs.c:214-222 | a second close of one descriptor changes no count, no slot and no open file, and returns what the first one did |
| `FdTable.CloseReleases` | kernel/fs/vfs.c:214-222 | the first close of an open file takes its vnode count down by one |
| `FdTable.OpenedIsUsable` | kernel/proc/process.c:22-28 | what an open returns is accepted exactly when slot 0 was taken; otherwise it is descriptor 0, which close and process_close_fd refuse |
| `FdTable.SlotZeroStays` | kernel/proc/process.c:22-40 | the file in slot 0 stays there with its count, over every run of any length |
| `FdTable.FirstOpenLeaks` | kernel/fs/vfs.c:196-222 | the file that the first open of a process makes stays open whatever is called afterwards, and as long as no call takes a count past its width that of its vnode never comes back to what it was |
| `Files.Process.constructor` | kernel/proc/process.c:4-10 | a new process has only free slots |
| `Files.Process.AllocFd` | kernel/proc/process.c:12-20 | the lowest free descriptor, or -EMFILE |
| `Files.Process.GetFile` | kernel/proc/process.c:22-28 | the file of the slot, and NULL for descriptor 0 |
| `Files.Process.CloseFd` | kernel/proc/process.c:30-40 | the slot becomes free, and nothing else changes; or -EINVAL or -EBADF and no change |
| `Files.Process.FileCreate` | kernel/fs/file.c:3-23 | a file at offset 0 with count 1, and the vnode count one up; or NULL and no change |
| `Files.Process.FileDestroy` | kernel/fs/file.c:26-41 | both counts go down by one, that of the file as an int, the vnode count not below zero |
| `Files.Process.FillSlot` | kernel/fs/vfs.c:206-211 | file_create and the slot assignment are the open step of the table |
| `Files.Process.OpenNode` | kernel/fs/vfs.c:203-211 | the error of the lookup as it is, then -EMFILE exactly when no slot is free, then -ENOMEM when the file is refused, with no change; otherwise the file is in the least free slot |
| `Files.Process.VfsOpen` | kernel/fs/vfs.c:196-212 | the same for what the path resolves to |
| `Files.Process.OpenMissing` | kernel/fs/vfs.c:200-201 | opening a name that its tmpfs directory does not hold returns -ENOENT and changes nothing |
| `Files.Process.VfsClose` | kernel/fs/vfs.c:214-222 | the code performs the close step |
| `Files.Process.VfsRead` | kernel/fs/vfs.c:224-246 | 0, -EINVAL, -EBADF and -EACCES in this order, the last exactly for the access modes 1 and 3, each without any change; otherwise the chunk at the offset of the file is in the buffer, and the offset and the result are those of the read step |
| `Files.Process.VfsWrite` | kernel/fs/vfs.c:248-272 | 0, -EINVAL, -EBADF, -EACCES and -ENOSYS in this order, -EACCES exactly for the access modes 0 and 3 and -ENOSYS for a vnode without a write operation, each without any change; otherwise the write step on contents, offset and result |
| `Files.WriteReports` | kernel/fs/vfs.c:266-271 | a write that moves its bytes reports their number and advances the offset by it if and only if there are fewer than 2^31; otherwise it returns that number less 2^32 and the offset stays |
| `Files.ReadReports` | kernel/fs/vfs.c:240-245 | the same of a read, whose length is the smaller one of the count and what is left |
| `Files.HugeTransfer` | kernel/fs/vfs.c:240-271 | 2^31 bytes are written and read although -2^31 is returned each time, and the offset is still 0 |
| `Files.ReadsConcatenate` | kernel/fs/vfs.c:224-246 | consecutive reads concatenate to the contents from the starting offset |
| `Files.WritesAppend` | kernel/fs/vfs.c:248-272 | consecutive writes at the end append their buffers |
| `Files.ReadsInvertWrites` | kernel/fs/vfs.c:224-272 | reads from the start of a file give back what was written from offset 0 of an empty one, however either is cut up |
| `Files.Process.ReadAll` | user/commands.c:124-126 | reading until 0 or an error comes back collects the contents from the starting offset to the end, and nothing from beyond it, with size minus offset as its measure; it stops at once, with nothing, exactly when the first read moves 2^31 bytes or more |
| `Files.Process.ReadChunk` | kernel/fs/vfs.c:224-246 | one such read from its caller's side, with the exact condition for a negative result |
| `Files.Process.WriteAll` | kernel/fs/vfs.c:248-272 | any run of fully successful writes at the end of a file below 2^32 bytes appends their bytes in order; a run is one when the allocator grants all and each is below 2^31 bytes |
| `Files.Process.WriteChunk` | kernel/fs/vfs.c:248-272 | one such write from its caller's side |
| `Files.Process.WriteThenRead` | kernel/fs/vfs.c:224-272 | what a run of successful writes of less than 2^32 bytes in all puts into an empty file through one descriptor comes back through another, under the same condition on the reads |
| `Files.Process.OpenPair` | kernel/fs/vfs.c:196-212 | with slot 0 taken, a path is opened twice, with any flags, giving two usable descriptors for two files on its vnode, exactly when two slots are free and both allocations succeed |
| `Files.Process.CreateWriteRead` | tests/test_tmpfs.c:70-92 | a file is created in the directory a path resolves to, opened twice through its own path with slot 0 taken, once with O_WRONLY or O_RDWR and once with O_RDONLY or O_RDWR, and what a run of successful writes through the one puts into it comes back through the other, unless the first read moves 2^31 bytes or more; only an existing name, a refused allocation, too few slots or a write of 2^31 bytes or more can stop it |

## Left out

- TmpfsFile.TmpfsWrite: leaves out the calls whose offset + count wraps and that no check or failing allocation stops: they write outside the block, which arrays cannot express (`TmpfsFile.CopyStaysInside`).
- Files.Process.VfsWrite: leaves out the same calls; a vnode that is not of tmpfs has no write operation.
- Files.Process.VfsRead: a vnode that is not of tmpfs is left out where the checks let the call pass, because `vfs_read` follows its `ops`, which may be NULL, without the check that `vfs_write` makes (kernel/fs/vfs.c:240).
- Files.Process.GetFile: excludes descriptor 32, which the code reads one past the end of the slots; so do `VfsClose`, `VfsRead`, `VfsWrite` and `CloseFd`.
- Bitmaps.Bitmap.Fill: requires bits + 7 below 2^32, because the code would otherwise write before the buffer.
- Lists.ListMove: requires an entry other than the head, and the splices two different rings, because the C operations make no sense otherwise.
- Printing.PrintUnsigned: bases 2 to 36 only; the callers use 10 and 16.
- FileSystem.Vfs.ForeignChange: what the directories of other file systems answer is a finite map, which they may change between calls but not during one, since their lookup is a function pointer; those of tmpfs are the inodes themselves.
- TmpfsDir.TmpfsFindChild: names are strings without NUL compared by equality, which is what `MemString.StrCmp` proves of `strcmp`; only the path buffer of `next_component` is modelled byte by byte.
- The memory of a freed inode, vnode or file: `kfree` does nothing, so the objects stay known; what a lookup through an unlinked vnode means is not stated.
- NULL arguments, except for buffers and bitmap data.
- `krealloc` of the kernel heap: it reads a size that `kmalloc` never writes; the standard contract stands in for it.
- `vfs_register_fs` and `vfs_find_fs`: a table of names with little to prove; what `vfs_find_fs` finds is a parameter of mounting.
- The entry forms of the list iterators, which only add pointer offsets.
- The scancode table, interrupt dispatch, system calls, terminal, VGA and GDT code, and the user shell.
- The remaining string functions.
