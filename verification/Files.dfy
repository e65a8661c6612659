/** Open files: kernel/fs/file.c, kernel/proc/process.c and vfs_open, vfs_close, vfs_read, vfs_write of
    kernel/fs/vfs.c. */
module Files {
  import opened Vnodes
  import opened MemString
  import opened Sequences
  import opened Words
  import opened TmpfsFile
  import opened FdTable
  import FileSystem
  import FsHeap
  import TmpfsDir
  import VfsPath
  import VfsTmpfs

  // ----- sequences of reads and writes through one descriptor -----

  function Flatten(chunks: seq<seq<Byte>>): seq<Byte> {
    if chunks == [] then [] else chunks[0] + Flatten(chunks[1..])
  }

  function Sum(counts: seq<nat>): nat {
    if counts == [] then 0 else counts[0] + Sum(counts[1..])
  }

  // Each read starts where the one before stopped.
  function ReadRun(content: seq<Byte>, offset: nat, counts: seq<nat>): seq<seq<Byte>>
    decreases |counts|
  {
    if counts == [] then []
    else var c := Chunk(content, offset, counts[0]); [c] + ReadRun(content, offset + |c|, counts[1..])
  }

  function WriteRun(content: seq<Byte>, offset: nat, buffers: seq<seq<Byte>>): seq<Byte>
    decreases |buffers|
  {
    if buffers == [] then content
    else WriteRun(Written(content, offset, buffers[0]), offset + |buffers[0]|, buffers[1..])
  }

  // The chunks read add up to the contents from the starting offset, up to what was asked for.
  lemma {:induction false} ReadsConcatenate(content: seq<Byte>, offset: nat, counts: seq<nat>)
    requires offset <= |content|
    ensures Flatten(ReadRun(content, offset, counts)) == content[offset..offset + Min(Sum(counts), |content| - offset)]
    decreases |counts|
  {
    if counts != [] {
      var c := Chunk(content, offset, counts[0]);
      ReadsConcatenate(content, offset + |c|, counts[1..]);
      var rest := ReadRun(content, offset + |c|, counts[1..]);
      assert ([c] + rest)[0] == c && ([c] + rest)[1..] == rest;
    }
  }

  lemma {:induction false} WritesAppend(content: seq<Byte>, buffers: seq<seq<Byte>>)
    ensures WriteRun(content, |content|, buffers) == content + Flatten(buffers)
    decreases |buffers|
  {
    if buffers != [] {
      var c := Written(content, |content|, buffers[0]);
      assert c == content + buffers[0];
      WritesAppend(c, buffers[1..]);
      Assoc(content, buffers[0], Flatten(buffers[1..]));
    }
  }

  // Reading from the start gives back what was written from the start of an empty file, however either is cut up.
  lemma ReadsInvertWrites(buffers: seq<seq<Byte>>, counts: seq<nat>)
    requires Sum(counts) >= |Flatten(buffers)|
    ensures Flatten(ReadRun(WriteRun([], 0, buffers), 0, counts)) == Flatten(buffers)
  {
    WritesAppend([], buffers);
    var content := WriteRun([], 0, buffers);
    assert content == Flatten(buffers);
    ReadsConcatenate(content, 0, counts);
  }

  // ----- the code -----

  class File {
    const node: Vnode
    var offset: nat
    const flags: nat
    var refcount: int

    constructor (node: Vnode, flags: nat)
      ensures this.node == node && this.flags == flags && offset == 0 && refcount == 1
    {
      this.node, this.flags, offset, refcount := node, flags, 0, 1;
    }
  }

  // The access modes, the low two bits of the flags.
  const O_RDONLY := 0
  const O_WRONLY := 1
  const O_RDWR := 2

  predicate MayRead(flags: nat) {
    flags % 4 == 0 || flags % 4 == 2
  }

  predicate MayWrite(flags: nat) {
    flags % 4 == 1 || flags % 4 == 2
  }

  // What a call of vfs_write or vfs_read that passes its checks does to the contents and the offset of the file, and
  // the bytes it moves.
  datatype Transfer = Transfer(content: seq<Byte>, moved: seq<Byte>, r: int, offset: nat)

  function WriteCall(content: seq<Byte>, offset: nat, bs: seq<Byte>, isDir: bool, grow: bool): Transfer {
    if isDir then Transfer(content, [], -EINVAL, offset)
    else if AddSize(offset, |bs|) > |content| && !grow then Transfer(content, [], -ENOSPC, offset)
    else Transfer(Written(content, offset, bs), bs, ToSsize(|bs|), Advance(offset, ToSsize(|bs|)))
  }

  function ReadCall(content: seq<Byte>, offset: nat, count: nat, isDir: bool): Transfer {
    if isDir then Transfer(content, [], -EINVAL, offset)
    else
      var chunk := Chunk(content, offset, count);
      Transfer(content, chunk, ToSsize(|chunk|), Advance(offset, ToSsize(|chunk|)))
  }

  // The offset is a uint32_t and moves by what was transferred, not on an error.
  function Advance(offset: nat, r: int): nat {
    if r < 0 then offset else (offset + r) % SIZE_LIMIT
  }

  // A length is reported, and the offset moved by it, exactly when it is below 2^31.
  lemma Reports(offset: nat, n: nat)
    requires n < SIZE_LIMIT && offset + n < SIZE_LIMIT
    ensures ToSsize(n) == n && Advance(offset, ToSsize(n)) == offset + n <==> n < 0x8000_0000
    ensures n >= 0x8000_0000 ==> ToSsize(n) == n - 0x1_0000_0000 && Advance(offset, ToSsize(n)) == offset
  {
  }

  // A write that moves its bytes reports them exactly when there are fewer than 2^31; otherwise it returns a negative
  // number and the offset stays, although the bytes are in the file.
  lemma WriteReports(content: seq<Byte>, offset: nat, bs: seq<Byte>, grow: bool)
    requires bs != [] && offset + |bs| < SIZE_LIMIT && (grow || offset + |bs| <= |content|)
    ensures var w := WriteCall(content, offset, bs, false, grow);
      && w.moved == bs && w.content[offset..offset + |bs|] == bs
      && (w.r == |bs| && w.offset == offset + |bs| <==> |bs| < 0x8000_0000)
      && (|bs| >= 0x8000_0000 ==> w.r == |bs| - 0x1_0000_0000 && w.offset == offset)
  {
    Reports(offset, |bs|);
    hide ToSsize, Advance;
    WrittenThere(content, offset, bs);
  }

  lemma WrittenThere(content: seq<Byte>, offset: nat, bs: seq<Byte>)
    requires bs != []
    ensures var w := Written(content, offset, bs);
      offset + |bs| <= |w| && w[offset..offset + |bs|] == bs
  {
  }

  // A call that passes the access check never answers -EACCES, but for the one length that reads so as a ssize_t.
  lemma WriteNotRefused(content: seq<Byte>, offset: nat, bs: seq<Byte>, isDir: bool, grow: bool)
    requires |bs| < SIZE_LIMIT
    ensures WriteCall(content, offset, bs, isDir, grow).r == -EACCES ==> |bs| == 0xFFFF_FFF3
  {
  }

  lemma ReadNotRefused(content: seq<Byte>, offset: nat, count: nat, isDir: bool)
    requires count < 0xFFFF_FFF3
    ensures ReadCall(content, offset, count, isDir).r != -EACCES
  {
  }

  // What is left of a file from an offset on.
  function Left(size: nat, offset: nat): nat {
    if offset < size then size - offset else 0
  }

  // The same of a read, whose length is the smaller one of what is asked for and what is left.
  lemma ReadReports(content: seq<Byte>, offset: nat, count: nat)
    requires offset < SIZE_LIMIT && |content| < SIZE_LIMIT
    ensures var c := ReadCall(content, offset, count, false);
      var n := Min(count, Left(|content|, offset));
      && |c.moved| == n && (n > 0 ==> c.moved == content[offset..offset + n])
      && (c.r == n && c.offset == offset + n <==> n < 0x8000_0000)
      && (n >= 0x8000_0000 ==> c.r == n - 0x1_0000_0000 && c.offset == offset)
  {
    Reports(offset, |Chunk(content, offset, count)|);
    hide ToSsize, Advance;
  }

  // Half of the address space: the write is made, and -2^31 is returned with the offset where it was; the same write
  // again overwrites it, and reading it back fails in the same way.
  lemma HugeTransfer(bs: seq<Byte>)
    requires |bs| == 0x8000_0000
    ensures WriteCall([], 0, bs, false, true) == Transfer(bs, bs, -0x8000_0000, 0)
    ensures WriteCall(bs, 0, bs, false, true) == Transfer(bs, bs, -0x8000_0000, 0)
    ensures ReadCall(bs, 0, |bs|, false) == Transfer(bs, bs, -0x8000_0000, 0)
  {
    assert Written([], 0, bs) == bs && Written(bs, 0, bs) == bs;
    assert bs[0..|bs|] == bs;
  }

  function SlotOf(f: File?): Slot<File> {
    if f == null then Free else var g: File := f; Used(g)
  }

  ghost function SlotsOf(files: array<File?>): (s: seq<Slot<File>>)
    reads files
    ensures |s| == files.Length && forall i :: 0 <= i < |s| ==> s[i] == SlotOf(files[i])
  {
    seq(files.Length, i requires 0 <= i < files.Length reads files => SlotOf(files[i]))
  }

  ghost function RecsOf(all: set<File>): map<File, Rec<Vnode>>
    reads all`refcount
  {
    map f | f in all :: Rec(f.node, f.refcount)
  }

  ghost function CountsOf(nodes: set<Vnode>): map<Vnode, nat>
    reads nodes`refcount
  {
    map v | v in nodes :: v.refcount
  }

  lemma RecsAdded(all: set<File>, f: File)
    ensures RecsOf(all + {f}) == RecsOf(all)[f := Rec(f.node, f.refcount)]
  {
  }

  // m gives the counts of all files but one.
  ghost predicate RecsBut(all: set<File>, m: map<File, Rec<Vnode>>, f: File)
    reads (all - {f})`refcount
  {
    m.Keys == all && forall g :: g in all - {f} ==> m[g] == Rec(g.node, g.refcount)
  }

  lemma RecsAre(all: set<File>, f: File)
    ensures RecsBut(all, RecsOf(all), f)
  {
  }

  lemma RecsUpdated(all: set<File>, m: map<File, Rec<Vnode>>, f: File)
    requires RecsBut(all, m, f) && f in all
    ensures RecsOf(all) == m[f := Rec(f.node, f.refcount)]
  {
  }

  // ... and of all vnodes but one.
  ghost predicate CountsBut(nodes: set<Vnode>, m: map<Vnode, nat>, v: Vnode)
    reads (nodes - {v})`refcount
  {
    m.Keys == nodes && forall w :: w in nodes - {v} ==> m[w] == w.refcount
  }

  lemma CountsAre(nodes: set<Vnode>, v: Vnode)
    ensures CountsBut(nodes, CountsOf(nodes), v)
  {
  }

  lemma CountsUpdated(nodes: set<Vnode>, m: map<Vnode, nat>, v: Vnode)
    requires CountsBut(nodes, m, v) && v in nodes
    ensures CountsOf(nodes) == m[v := v.refcount]
  {
  }

  lemma RecsHas(all: set<File>, f: File)
    requires f in all
    ensures f in RecsOf(all) && RecsOf(all)[f] == Rec(f.node, f.refcount)
  {
  }

  lemma CountsHas(nodes: set<Vnode>, v: Vnode)
    requires v in nodes
    ensures v in CountsOf(nodes) && CountsOf(nodes)[v] == v.refcount
  {
  }

  ghost predicate TwoFree(s: seq<File?>) {
    exists i, j :: 0 <= i < j < |s| && s[i] == null && s[j] == null
  }

  class Process {
    const vfs: FileSystem.Vfs
    const files: array<File?>
    ghost var all: set<File>

    // Occupied slots name known files, on known vnodes.
    ghost predicate Valid()
      reads this, files, vfs`nodes
    {
      && files.Length == OPEN_MAX
      && (forall i :: 0 <= i < OPEN_MAX && files[i] != null ==> files[i] in all)
      && (forall f :: f in all ==> f.node in vfs.nodes)
    }

    ghost function View(): Table<Vnode, File>
      requires files.Length == OPEN_MAX
      reads this, files, all`refcount, vfs`nodes, vfs.nodes`refcount
    {
      Table(SlotsOf(files), RecsOf(all), CountsOf(vfs.nodes))
    }

    // process_init
    constructor (vfs: FileSystem.Vfs)
      ensures Valid() && this.vfs == vfs && fresh(files)
      ensures View() == Table(seq(OPEN_MAX, _ => Free), map[], CountsOf(vfs.nodes))
    {
      this.vfs := vfs;
      files := new File?[OPEN_MAX](_ => null);
      all := {};
    }

    method AllocFd() returns (fd: int)
      requires Valid()
      ensures var i := FirstFree(View().slots); fd == if i < OPEN_MAX then i else -EMFILE
      ensures null !in files[..] ==> fd == -EMFILE
      ensures null in files[..] ==> 0 <= fd < OPEN_MAX && files[fd] == null && null !in files[..fd]
    {
      ghost var slots := View().slots;
      for i := 0 to OPEN_MAX
        invariant forall j :: 0 <= j < i ==> slots[j].Used? && files[j] != null
      {
        if files[i] == null {
          FirstFreeIs(slots, i);
          return i;
        }
      }
      FirstFreeIs(slots, OPEN_MAX);
      return -EMFILE;
    }

    // Descriptor 32 would be read past the end of the array.
    method GetFile(fd: int) returns (f: File?)
      requires Valid() && fd != OPEN_MAX
      ensures SlotOf(f) == Get(View(), fd) && (f != null ==> f in all)
    {
      if fd <= 0 || fd > OPEN_MAX { return null; }
      return files[fd];
    }

    method CloseFd(fd: int) returns (code: int)
      requires Valid() && fd != OPEN_MAX
      modifies files
      ensures Valid() && (View(), code) == Drop(old(View()), fd)
      ensures code == if fd <= 0 || fd > OPEN_MAX then -EINVAL else if old(files[fd]) == null then -EBADF else 0
      ensures files[..] == if code == 0 then old(files[..])[fd := null] else old(files[..])
    {
      if fd <= 0 || fd > OPEN_MAX { return -EINVAL; }
      if files[fd] == null { return -EBADF; }
      ghost var t := View();
      files[fd] := null;
      assert View().slots == t.slots[fd := Free];
      return 0;
    }

    method FileCreate(node: Vnode, flags: nat, grant: bool) returns (f: File?)
      modifies node`refcount
      ensures f == null <==> !grant
      ensures f != null ==> fresh(f) && f.node == node && f.flags == flags && f.offset == 0 && f.refcount == 1
      ensures node.refcount == if grant then (old(node.refcount) + 1) % SIZE_LIMIT else old(node.refcount)
    {
      if !grant { return null; }
      f := new File(node, flags);
      node.refcount := (node.refcount + 1) % SIZE_LIMIT;
    }

    method FileDestroy(f: File)
      modifies f`refcount, f.node`refcount
      ensures f.refcount == Dec(old(f.refcount))
      ensures f.node.refcount ==
        if f.refcount <= 0 && old(f.node.refcount) > 0 then old(f.node.refcount) - 1 else old(f.node.refcount)
    {
      f.refcount := Dec(f.refcount);
      if f.refcount > 0 { return; }
      if f.node.refcount > 0 {
        f.node.refcount := f.node.refcount - 1;
      }
    }

    // The end of vfs_open: made is the file created, or null; grant is the allocator's decision.
    method FillSlot(fd: nat, node: Vnode, flags: nat, grant: bool) returns (made: File?)
      requires Valid() && fd < OPEN_MAX && node in vfs.nodes
      modifies this`all, files, node`refcount
      ensures Valid() && (made == null <==> !grant)
      ensures made == null ==> View() == old(View())
      ensures made != null ==> fresh(made) && made.node == node && made.flags == flags && made.offset == 0
      ensures files[..] == if made != null then old(files[..])[fd := made] else old(files[..])
      ensures made != null ==> View() == Opened(old(View()), fd, made, node)
    {
      hide RecsOf, CountsOf, RecsBut, CountsBut;
      ghost var t := View();
      CountsAre(vfs.nodes, node);
      CountsHas(vfs.nodes, node);
      made := FileCreate(node, flags, grant);
      CountsUpdated(vfs.nodes, t.counts, node);
      if made == null {
        assert t.counts[node := t.counts[node]] == t.counts;
        return;
      }
      files[fd] := made;
      RecsAdded(all, made);
      all := all + {made};
      assert View().slots == t.slots[fd := Used(made)];
    }

    // vfs_open after the lookup.
    method OpenNode(found: VfsPath.Result<Vnode>, flags: nat, grant: bool) returns (fd: int, made: File?)
      requires Valid() && (if found.Ok? then found.value in vfs.nodes else found.code < 0)
      modifies this`all, files, vfs.nodes`refcount
      ensures Valid() && fd == OpenCode(old(View()), found, grant)
      ensures View() == if fd < 0 || made == null then old(View()) else Opened(old(View()), fd, made, found.value)
      ensures found.Err? ==> fd == found.code
      ensures found.Ok? && null !in old(files[..]) ==> fd == -EMFILE
      ensures found.Ok? && null in old(files[..]) ==>
        if grant then 0 <= fd < OPEN_MAX && old(files[fd]) == null && null !in old(files[..fd]) else fd == -ENOMEM
      ensures files[..] == if fd >= 0 then old(files[..])[fd := made] else old(files[..])
      ensures if fd < 0 then made == null else made != null && fresh(made) && made.flags == flags && made.offset == 0
      ensures fd >= 0 ==> made.node == found.value
    {
      made := null;
      if found.Err? { return found.code, null; }
      hide FirstFree, Opened;
      fd := AllocFd();
      if fd < 0 { return fd, null; }
      made := FillSlot(fd, found.value, flags, grant);
      if made == null { fd := -ENOMEM; }
    }

    // Neither this nor the other calls change anything that vfs.Valid and vfs.View depend on.
    method VfsOpen(path: string, flags: nat, grant: bool)
      returns (fd: int, made: File?, ghost found: VfsPath.Result<Vnode>)
      requires Valid() && vfs.Valid() && '\0' !in path
      modifies this`all, files, vfs.nodes`refcount
      ensures Valid() && found == VfsPath.Lookup(old(vfs.View()), path)
      ensures (found.Err? ==> found.code < 0) && fd == OpenCode(old(View()), found, grant)
      ensures View() == if fd < 0 || made == null then old(View()) else Opened(old(View()), fd, made, found.value)
      ensures found.Err? ==> fd == found.code
      ensures found.Ok? && null !in old(files[..]) ==> fd == -EMFILE
      ensures found.Ok? && null in old(files[..]) ==>
        if grant then 0 <= fd < OPEN_MAX && old(files[fd]) == null && null !in old(files[..fd]) else fd == -ENOMEM
      ensures files[..] == if fd >= 0 then old(files[..])[fd := made] else old(files[..])
      ensures if fd < 0 then made == null else made != null && fresh(made) && made.flags == flags && made.offset == 0
      ensures fd >= 0 ==> made.node == found.value
    {
      hide *;
      var node := vfs.VfsLookup(path);
      found := node;
      assert Valid();
      FoundCode(vfs.View(), path);
      fd, made := OpenNode(node, flags, grant);
    }

    lemma FoundCode(t: VfsPath.Tree<Vnode>, path: string)
      ensures VfsPath.Lookup(t, path).Err? ==> VfsPath.Lookup(t, path).code < 0
    {
    }

    // A name that its tmpfs directory does not hold.
    method OpenMissing(p: string, name: string, flags: nat, grant: bool, ghost d: Vnode) returns (fd: int)
      requires Valid() && vfs.Valid() && '\0' !in p && '\0' !in name && VfsTmpfs.SimpleName(name)
      requires VfsPath.Lookup(vfs.View(), p) == VfsPath.Ok(d) && d in vfs.nodes && d.tmpfsOps
      requires name != "." && name != ".." && forall c :: c in FsHeap.ChainOf(vfs.K(), d) ==> c.name != name
      modifies this`all, files, vfs.nodes`refcount
      ensures Valid() && fd == -ENOENT && View() == old(View())
    {
      hide *;
      vfs.MissingIsRefused(p, d, name);
      var made;
      ghost var found;
      fd, made, found := VfsOpen(p + "/" + name, flags, grant);
      NotFound();
    }

    static lemma NotFound()
      ensures -ENOENT < 0
    {
    }

    method VfsClose(fd: int) returns (code: int)
      requires Valid() && fd != OPEN_MAX
      modifies all`refcount, vfs.nodes`refcount
      ensures Valid() && (View(), code) == Close(old(View()), fd)
    {
      hide RecsOf, CountsOf, RecsBut, CountsBut;
      ghost var t := View();
      var f := GetFile(fd);
      if f == null { return -ENOENT; }
      RecsAre(all, f);
      RecsHas(all, f);
      CountsAre(vfs.nodes, f.node);
      CountsHas(vfs.nodes, f.node);
      f.refcount := Dec(f.refcount);
      if f.refcount == 0 { FileDestroy(f); }
      RecsUpdated(all, t.files, f);
      CountsUpdated(vfs.nodes, t.counts, f.node);
      assert t.counts[f.node := t.counts[f.node]] == t.counts;
      return 0;
    }

    method VfsRead(fd: int, buf: array?<Byte>, count: nat, ghost f: File?) returns (r: int)
      requires Valid() && fd != OPEN_MAX && SlotOf(f) == Get(View(), fd)
      requires count < SIZE_LIMIT && (buf != null ==> count <= buf.Length) && (f != null ==> Ready(f, buf))
      requires count > 0 && buf != null && f != null && (f.flags % 4 == 0 || f.flags % 4 == 2) ==> f.node.tmpfsOps
      modifies buf, (if f != null then {f} else {})`offset
      ensures count == 0 ==> r == 0
      ensures count > 0 && buf == null ==> r == -EINVAL
      ensures count > 0 && buf != null && f == null ==> r == -EBADF
      ensures count > 0 && buf != null && f != null ==>
        if f.flags % 4 == 0 || f.flags % 4 == 2 then
          var c := ReadCall(Content(f.node.inode), old(f.offset), count, f.node.inode.isDir);
          r == c.r && f.offset == c.offset && buf[..] == Stored(old(buf[..]), 0, c.moved)
        else r == -EACCES && f.offset == old(f.offset) && buf[..] == old(buf[..])
      ensures 0 < count < 0xFFFF_FFF3 && buf != null && f != null ==>
        (r == -EACCES <==> f.flags % 4 == 1 || f.flags % 4 == 3)
      ensures (count == 0 || buf == null) && f != null ==> f.offset == old(f.offset)
      ensures (count == 0 || f == null) && buf != null ==> buf[..] == old(buf[..])
    {
      hide ToSsize, Stored, Chunk, View, Get, Valid;
      if count == 0 { return 0; }
      if buf == null { return -EINVAL; }
      var file := GetFile(fd);
      if file == null { return -EBADF; }
      var mode := file.flags % 4;
      if mode != O_RDONLY && mode != O_RDWR { return -EACCES; }
      if count < 0xFFFF_FFF3 {
        ReadNotRefused(Content(file.node.inode), file.offset, count, file.node.inode.isDir);
      }
      r := TmpfsRead(file.node, file.offset, buf, count);
      if r < 0 { return r; }
      file.offset := (file.offset + r) % SIZE_LIMIT;
    }

    // grow is the decision of the krealloc that the write may need.
    method VfsWrite(fd: int, buf: array?<Byte>, count: nat, grow: bool, ghost f: File?) returns (r: int)
      requires Valid() && fd != OPEN_MAX && SlotOf(f) == Get(View(), fd) && count < SIZE_LIMIT
      requires (buf != null ==> count <= buf.Length) && (f != null ==> Ready(f, buf))
      requires count > 0 && buf != null && f != null && (f.flags % 4 == 1 || f.flags % 4 == 2) && f.node.tmpfsOps ==>
        !Escapes(f.node.inode, f.offset, buf, count, grow)
      modifies (if f != null then {f} else {})`offset
      modifies (if f != null && f.node.tmpfsOps then {f.node.inode} else {})`data
      modifies (if f != null && f.node.tmpfsOps then {f.node.inode} else {})`size
      modifies if f != null && f.node.tmpfsOps then {f.node.inode.data} else {}
      ensures f != null && f.node.tmpfsOps ==> ValidFile(f.node.inode)
      ensures f != null && f.node.tmpfsOps ==>
        || f.node.inode.data == old(if f == null || !f.node.tmpfsOps then null else f.node.inode.data)
        || fresh(f.node.inode.data)
      ensures count == 0 ==> r == 0
      ensures count > 0 && buf == null ==> r == -EINVAL
      ensures count > 0 && buf != null && f == null ==> r == -EBADF
      ensures count > 0 && buf != null && f != null && f.flags % 4 != 1 && f.flags % 4 != 2 ==> r == -EACCES
      ensures count > 0 && buf != null && f != null && (f.flags % 4 == 1 || f.flags % 4 == 2) ==>
        if f.node.tmpfsOps then
          var w := WriteCall(old(Content(f.node.inode)), old(f.offset), buf[..count], f.node.inode.isDir, grow);
          r == w.r && f.offset == w.offset && Content(f.node.inode) == w.content
        else r == -ENOSYS && f.offset == old(f.offset)
      ensures 0 < count && count != 0xFFFF_FFF3 && buf != null && f != null ==>
        (r == -EACCES <==> f.flags % 4 == 0 || f.flags % 4 == 3)
      ensures f != null && (count == 0 || buf == null || (f.flags % 4 != 1 && f.flags % 4 != 2)) ==>
        f.offset == old(f.offset) && (f.node.tmpfsOps ==> Content(f.node.inode) == old(Content(f.node.inode)))
    {
      hide ToSsize, Written, View, Get, Valid;
      if count == 0 { return 0; }
      if buf == null { return -EINVAL; }
      var file := GetFile(fd);
      if file == null { return -EBADF; }
      var mode := file.flags % 4;
      if mode != O_WRONLY && mode != O_RDWR { return -EACCES; }
      if !file.node.tmpfsOps { return -ENOSYS; }
      WriteNotRefused(Content(file.node.inode), file.offset, buf[..count], file.node.inode.isDir, grow);
      r := TmpfsWrite(file.node, file.offset, buf, count, grow);
      if r < 0 { return r; }
      file.offset := (file.offset + r) % SIZE_LIMIT;
    }

    // The loop of cmd_cat (user/commands.c): read through one descriptor until nothing more comes.  It collects the
    // contents from the starting offset on, unless the first read moves 2^31 bytes or more and so looks like an error.
    method ReadAll(fd: int, buf: array<Byte>, ghost f: File) returns (out: seq<Byte>)
      requires Valid() && 0 < fd < OPEN_MAX && files[fd] == f && f.node.tmpfsOps && Ready(f, buf) && MayRead(f.flags)
      requires !f.node.inode.isDir && 0 < buf.Length < SIZE_LIMIT
      modifies buf, f`offset
      ensures var size := f.node.inode.size; var start := Min(old(f.offset), size);
        if buf.Length < 0x8000_0000 || size - start < 0x8000_0000
        then out == Content(f.node.inode)[start..] && f.offset == Max(old(f.offset), size)
        else out == [] && f.offset == old(f.offset)
    {
      out := [];
      ghost var content, start := Content(f.node.inode), Min(f.offset, f.node.inode.size);
      ghost var small := buf.Length < 0x8000_0000 || |content| - start < 0x8000_0000;
      assert |content| == f.node.inode.size;
      hide Valid, Content, MayRead;
      ghost var before := start;
      var bytes := ReadChunk(fd, buf, f);
      while bytes > 0
        invariant Valid() && Ready(f, buf) && Content(f.node.inode) == content && old(f.offset) <= f.offset
        invariant |content| == f.node.inode.size
        invariant start <= before <= |content| && out == content[start..before]
        invariant bytes > 0 ==> before < f.offset <= |content| && bytes == f.offset - before <= buf.Length
        invariant bytes > 0 ==> buf[..bytes] == content[before..f.offset]
        invariant bytes == 0 ==> before == |content| && f.offset == Max(old(f.offset), |content|)
        invariant if small then bytes >= 0 else bytes < 0 && before == start && f.offset == old(f.offset)
        decreases |content| - before
      {
        Slices(content, start, before, f.offset);
        out := out + buf[..bytes];
        before := f.offset;
        bytes := ReadChunk(fd, buf, f);
      }
    }

    // A run of writes that append to a file, each through a buffer of the caller's; grow decides on each krealloc.
    method WriteAll(fd: int, chunks: seq<seq<Byte>>, grow: seq<bool>, ghost f: File) returns (ok: bool)
      requires Valid() && 0 < fd < OPEN_MAX && files[fd] == f && f.node.tmpfsOps && Ready(f, null) && |grow| == |chunks|
      requires MayWrite(f.flags) && !f.node.inode.isDir && f.offset == f.node.inode.size
      requires f.offset + |Flatten(chunks)| < SIZE_LIMIT
      modifies f`offset, f.node.inode`data, f.node.inode`size, f.node.inode.data
      ensures Valid() && Ready(f, null)
      ensures f.node.inode.data == old(f.node.inode.data) || fresh(f.node.inode.data)
      ensures ok ==> Content(f.node.inode) == old(Content(f.node.inode)) + Flatten(chunks)
      ensures (forall i :: 0 <= i < |grow| ==> grow[i] && |chunks[i]| < 0x8000_0000) ==> ok
    {
      ghost var content := Content(f.node.inode);
      assert content == content + Flatten(chunks[..0]);
      for i := 0 to |chunks|
        invariant Valid() && Ready(f, null) && f.offset == f.node.inode.size
        invariant f.node.inode.data == old(f.node.inode.data) || fresh(f.node.inode.data)
        invariant Content(f.node.inode) == content + Flatten(chunks[..i])
      {
        FlattenSplit(chunks, i);
        ok := WriteChunk(fd, chunks[i], grow[i], f);
        if !ok { return false; }
        Assoc(content, Flatten(chunks[..i]), chunks[i]);
      }
      assert chunks[..|chunks|] == chunks;
      ok := true;
    }

    // What is written through one descriptor from offset 0 of an empty file is read back through another.
    method WriteThenRead(fdw: int, fdr: int, chunks: seq<seq<Byte>>, grow: seq<bool>, buf: array<Byte>,
                         ghost fw: File, ghost fr: File)
      returns (ok: bool, out: seq<Byte>)
      requires Valid() && 0 < fdw < OPEN_MAX && 0 < fdr < OPEN_MAX && files[fdw] == fw && files[fdr] == fr && fw != fr
      requires fw.node == fr.node && fw.node.tmpfsOps && Ready(fw, buf) && Ready(fr, buf) && |grow| == |chunks|
      requires MayWrite(fw.flags) && MayRead(fr.flags) && !fw.node.inode.isDir
      requires fw.offset == fr.offset == fw.node.inode.size == 0 && |Flatten(chunks)| < SIZE_LIMIT
      requires 0 < buf.Length < SIZE_LIMIT
      modifies buf, fw`offset, fr`offset, fw.node.inode`data, fw.node.inode`size, fw.node.inode.data
      ensures ok ==>
        out == if buf.Length < 0x8000_0000 || |Flatten(chunks)| < 0x8000_0000 then Flatten(chunks) else []
      ensures (forall i :: 0 <= i < |grow| ==> grow[i] && |chunks[i]| < 0x8000_0000) ==> ok
    {
      out := [];
      assert Content(fw.node.inode) == [];
      ok := WriteAll(fdw, chunks, grow, fw);
      if !ok { return; }
      out := ReadAll(fdr, buf, fr);
    }

    // Open a path twice, in a process whose slot 0 is taken.
    method OpenPair(path: string, v: Vnode, flagsW: nat, flagsR: nat, grantW: bool, grantR: bool)
      returns (fdw: int, fdr: int, fw: File?, fr: File?)
      requires Valid() && vfs.Valid() && '\0' !in path && VfsPath.Lookup(vfs.View(), path) == VfsPath.Ok(v)
      requires files[0] != null
      modifies this`all, files, vfs.nodes`refcount
      ensures Valid() && (fdr >= 0 <==> grantW && grantR && TwoFree(old(files[..])))
      ensures fdr >= 0 ==>
        && 0 < fdw < OPEN_MAX && 0 < fdr < OPEN_MAX && fw != null && fr != null && fw != fr && fresh(fw) && fresh(fr)
        && files[fdw] == fw && files[fdr] == fr && fw.node == v && fr.node == v
        && fw.flags == flagsW && fr.flags == flagsR && fw.offset == 0 && fr.offset == 0
    {
      hide *;
      FilesLength();
      Codes();
      fw, fr, fdr := null, null, -1;
      ghost var found;
      fdw, fw, found := VfsOpen(path, flagsW, grantW);
      if fdw < 0 {
        if grantW { NoTwo(old(files[..])); }
        return;
      }
      ghost var between := files[..];
      TwoFreeIs(old(files[..]), fdw, fw);
      assert vfs.View() == old(vfs.View());
      assert between[0] == old(files[..])[0] && between[fdw] == fw;
      fdr, fr, found := VfsOpen(path, flagsR, grantR);
      assert fdr >= 0 ==> files[..] == between[fdr := fr];
    }

    lemma NoTwo(s: seq<File?>)
      requires null !in s
      ensures !TwoFree(s)
    {
    }

    lemma TwoFreeIs(s: seq<File?>, i: nat, f: File)
      requires i < |s| && s[i] == null
      ensures TwoFree(s) <==> null in s[i := f]
    {
      if TwoFree(s) {
        var j, k :| 0 <= j < k < |s| && s[j] == null && s[k] == null;
        assert s[i := f][if j == i then k else j] == null;
      }
    }

    lemma FilesLength()
      requires Valid()
      ensures files.Length == OPEN_MAX
    {
    }

    // Valid, for vnodes that may grow.
    ghost predicate ValidOn(nodes: set<Vnode>)
      reads this, files
    {
      && files.Length == OPEN_MAX
      && (forall i :: 0 <= i < OPEN_MAX && files[i] != null ==> files[i] in all)
      && (forall f :: f in all ==> f.node in nodes)
    }

    lemma ValidGrows(nodes: set<Vnode>)
      requires nodes <= vfs.nodes && ValidOn(nodes)
      ensures Valid()
    {
    }

    lemma ValidNow()
      requires Valid()
      ensures ValidOn(vfs.nodes) && files.Length == OPEN_MAX
    {
    }

    // Create a file, open it twice, write through one descriptor and read through the other; grants decides on the
    // inode, the vnode and the two open files.
    method CreateWriteRead(p: string, name: string, flagsW: nat, flagsR: nat, chunks: seq<seq<Byte>>,
                           grants: seq<bool>, grow: seq<bool>, buf: array<Byte>, ghost d: Vnode,
                           ghost before: VfsPath.Result<Vnode>)
      returns (ok: bool, out: seq<Byte>)
      requires Valid() && vfs.Valid() && before == VfsPath.Lookup(vfs.View(), p + "/" + name)
      requires '\0' !in p && '\0' !in name && VfsTmpfs.SimpleName(name)
      requires |name| < TMPFS_MAX_NAME && !TmpfsDir.Special(name)
      requires VfsPath.Lookup(vfs.View(), p) == VfsPath.Ok(d)
      requires d in vfs.nodes && d.tmpfsOps && d.inode != null && d.isDir
      requires files[0] != null && |grants| == 4 && |grow| == |chunks|
      requires (flagsW % 4 == 1 || flagsW % 4 == 2) && (flagsR % 4 == 0 || flagsR % 4 == 2)
      requires |Flatten(chunks)| < SIZE_LIMIT && 0 < buf.Length < SIZE_LIMIT
      modifies vfs`nodes, vfs`chains, d.inode`firstChild, this`all, files, vfs.nodes`refcount, buf
      ensures ok ==>
        out == if buf.Length < 0x8000_0000 || |Flatten(chunks)| < 0x8000_0000 then Flatten(chunks) else []
      ensures ok ==> before.Err? && grants[2] && grants[3] && TwoFree(old(files[..]))
      ensures (forall i :: 0 <= i < |grow| ==> grow[i] && |chunks[i]| < 0x8000_0000) ==>
        before.Err? && TwoFree(old(files[..])) && (forall i :: 0 <= i < 4 ==> grants[i]) ==> ok
    {
      hide *;
      ok, out := false, [];
      ValidNow();
      ghost var ns := vfs.nodes;
      Codes();
      var code, made, found := vfs.CreateAndFind(p, name, grants[0], grants[1], d);
      if code != 0 { return; }
      ValidGrows(ns);
      NewIsEmpty(made, d.inode);
      var fdw, fdr, fw, fr := OpenPair(p + "/" + name, made, flagsW, flagsR, grants[2], grants[3]);
      if fdr < 0 { return; }
      MayBoth(flagsW, flagsR);
      EmptyReady(made, fw, buf);
      EmptyReady(made, fr, buf);
      ok, out := WriteThenRead(fdw, fdr, chunks, grow, buf, fw, fr);
    }

    // One write at the end of a file, seen from its caller.
    method WriteChunk(fd: int, chunk: seq<Byte>, grow: bool, ghost f: File) returns (ok: bool)
      requires Valid() && 0 < fd < OPEN_MAX && files[fd] == f && f.node.tmpfsOps && Ready(f, null)
      requires MayWrite(f.flags) && !f.node.inode.isDir && f.offset == f.node.inode.size
      requires f.offset + |chunk| < SIZE_LIMIT
      modifies f`offset, f.node.inode`data, f.node.inode`size, f.node.inode.data
      ensures Valid() && Ready(f, null) && (grow && |chunk| < 0x8000_0000 ==> ok)
      ensures f.node.inode.data == old(f.node.inode.data) || fresh(f.node.inode.data)
      ensures ok ==> Content(f.node.inode) == old(Content(f.node.inode)) + chunk && f.offset == f.node.inode.size
    {
      ghost var content, start := Content(f.node.inode), f.offset;
      assert |content| == start && SlotOf(f) == Get(View(), fd);
      hide View, Content, Valid, WriteCall;
      var buf := BufferOf(chunk);
      assert f.node.inode.data != buf;
      AppendCall(content, chunk, grow);
      var r := VfsWrite(fd, buf, |chunk|, grow, f);
      ok := r == |chunk|;
      ContentSize(f.node.inode);
    }

    static method BufferOf(bs: seq<Byte>) returns (buf: array<Byte>)
      ensures fresh(buf) && buf.Length == |bs| && buf[..|bs|] == bs
    {
      buf := new Byte[|bs|](i requires 0 <= i < |bs| => bs[i]);
    }

    lemma ContentSize(inode: Inode)
      requires ValidFile(inode)
      ensures |Content(inode)| == inode.size
    {
    }

    // One read, seen from its caller.
    method ReadChunk(fd: int, buf: array<Byte>, ghost f: File) returns (bytes: int)
      requires Valid() && 0 < fd < OPEN_MAX && files[fd] == f && f.node.tmpfsOps && Ready(f, buf) && MayRead(f.flags)
      requires !f.node.inode.isDir && 0 < buf.Length < SIZE_LIMIT
      modifies buf, f`offset
      ensures Valid() && Ready(f, buf) && Content(f.node.inode) == old(Content(f.node.inode))
      ensures bytes < 0 <==> Min(buf.Length, Left(f.node.inode.size, old(f.offset))) >= 0x8000_0000
      ensures bytes >= 0 ==> bytes == Min(buf.Length, Left(f.node.inode.size, old(f.offset)))
      ensures f.offset == if bytes < 0 then old(f.offset) else old(f.offset) + bytes
      ensures bytes > 0 ==>
        f.offset <= f.node.inode.size && buf[..bytes] == Content(f.node.inode)[old(f.offset)..f.offset]
    {
      ghost var content, start := Content(f.node.inode), f.offset;
      ghost var c := ReadCall(content, start, buf.Length, false);
      hide *;
      ReadyIs(f, buf);
      ReadFacts(fd, buf, f);
      bytes := VfsRead(fd, buf, buf.Length, f);
      ReadyIs(f, buf);
      StoredPrefix(old(buf[..]), buf[..], c.moved);
    }

    lemma ReadFacts(fd: int, buf: array<Byte>, f: File)
      requires Valid() && 0 < fd < OPEN_MAX && files[fd] == f && f.node.tmpfsOps && Ready(f, buf) && MayRead(f.flags)
      requires !f.node.inode.isDir && 0 < buf.Length < SIZE_LIMIT
      ensures OPEN_MAX == 32 && SlotOf(f) == Get(View(), fd)
      ensures f.flags % 4 == 0 || f.flags % 4 == 2
      ensures var size := f.node.inode.size; var n := Min(buf.Length, Left(size, f.offset));
        var c := ReadCall(Content(f.node.inode), f.offset, buf.Length, false);
        && |Content(f.node.inode)| == size && |c.moved| == n
        && f.offset + (if c.r < 0 then 0 else n) == c.offset < SIZE_LIMIT
        && (c.r < 0 <==> n >= 0x8000_0000) && (c.r >= 0 ==> c.r == n) && n <= buf.Length
        && (n > 0 ==> f.offset + n <= size && c.moved == Content(f.node.inode)[f.offset..f.offset + n])
    {
      ReadReports(Content(f.node.inode), f.offset, buf.Length);
      hide ReadCall;
    }
  }

  lemma ReadyIs(f: File, buf: array?<Byte>)
    requires f.node.tmpfsOps
    ensures Ready(f, buf) <==>
      && f.node.inode != null && ValidFile(f.node.inode)
      && f.node.inode.size < SIZE_LIMIT && f.offset < SIZE_LIMIT
      && (buf != null ==> buf != f.node.inode.data)
  {
  }

  // A write at the end of a file: it is told apart from a failed one by its result.
  lemma AppendCall(content: seq<Byte>, bs: seq<Byte>, grow: bool)
    requires |content| + |bs| < SIZE_LIMIT
    ensures var w := WriteCall(content, |content|, bs, false, grow);
      && (w.r == |bs| ==> w.content == content + bs && w.offset == |content| + |bs|)
      && (w.r != |bs| ==> w.offset == |content|) && |w.content| < SIZE_LIMIT
      && (grow && |bs| < 0x8000_0000 ==> w.r == |bs|)
  {
    Reports(|content|, |bs|);
    assert Written(content, |content|, bs) == content + bs;
  }

  lemma {:induction false} FlattenSplit(chunks: seq<seq<Byte>>, i: nat)
    requires i < |chunks|
    ensures Flatten(chunks[..i+1]) == Flatten(chunks[..i]) + chunks[i]
    ensures |Flatten(chunks[..i])| + |chunks[i]| <= |Flatten(chunks)|
  {
    if i > 0 {
      FlattenSplit(chunks[1..], i - 1);
      assert chunks[..i+1][1..] == chunks[1..][..i] && chunks[..i][1..] == chunks[1..][..i-1];
      Assoc(chunks[0], Flatten(chunks[1..][..i-1]), chunks[i]);
    } else {
      assert chunks[..1][1..] == [] && chunks[..0] == [];
    }
  }

  lemma Slices(s: seq<Byte>, a: nat, b: nat, c: nat)
    requires a <= b <= c <= |s|
    ensures s[a..b] + s[b..c] == s[a..c]
  {
  }

  lemma StoredPrefix(before: seq<Byte>, after: seq<Byte>, chunk: seq<Byte>)
    requires |chunk| <= |before| && after == Stored(before, 0, chunk)
    ensures |after| == |before| && after[..|chunk|] == chunk
  {
  }

  // What the caller of read and write owes of a tmpfs file: a buffer that is not the file's own memory.
  ghost predicate Ready(f: File, buf: array?<Byte>)
    reads f, f.node, if f.node.inode != null then {f.node.inode} else {}
  {
    f.node.tmpfsOps ==>
      && f.node.inode != null && ValidFile(f.node.inode)
      && f.node.inode.size < SIZE_LIMIT && f.offset < SIZE_LIMIT
      && (buf != null ==> buf != f.node.inode.data)
  }

  lemma Codes()
    ensures 0 < ENOMEM < EEXIST && 0 < EMFILE && 0 < EINVAL
  {
  }

  ghost predicate EmptyFile(v: Vnode)
    reads v`tmpfsOps, v`inode
    reads (if v.inode != null then {v.inode} else {})`isDir
    reads (if v.inode != null then {v.inode} else {})`size
    reads (if v.inode != null then {v.inode} else {})`data
  {
    v.tmpfsOps && v.inode != null && !v.inode.isDir && v.inode.size == 0 && v.inode.data == null
  }

  lemma NewIsEmpty(v: Vnode, dir: Inode?)
    requires v.inode != null && TmpfsDir.NewFile(v, v.inode, dir)
    ensures EmptyFile(v)
  {
  }

  lemma MayBoth(flagsW: nat, flagsR: nat)
    requires (flagsW % 4 == 1 || flagsW % 4 == 2) && (flagsR % 4 == 0 || flagsR % 4 == 2)
    ensures MayWrite(flagsW) && MayRead(flagsR)
  {
  }

  lemma EmptyReady(v: Vnode, f: File, buf: array<Byte>)
    requires EmptyFile(v) && f.node == v && f.offset == 0
    ensures v.tmpfsOps && Ready(f, buf) && v.inode.size == 0 && !v.inode.isDir && v.inode.data == null
  {
  }
}
