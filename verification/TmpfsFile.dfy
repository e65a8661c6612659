/** File contents in tmpfs: tmpfs_read and tmpfs_write of kernel/fs/tmpfs/tmpfs.c. */
module TmpfsFile {
  import opened Vnodes
  import opened MemString
  import opened Words

  // ----- contents as a sequence of bytes -----

  function Max(x: nat, y: nat): nat {
    if x < y then y else x
  }

  function Min(x: nat, y: nat): nat {
    if x < y then x else y
  }

  // Bytes from offset on replaced by bs, with zeros between the old end and the offset.
  function Written(content: seq<Byte>, offset: nat, bs: seq<Byte>): (r: seq<Byte>)
    ensures |r| == if bs == [] then |content| else Max(|content|, offset + |bs|)
  {
    if bs == [] then content
    else
      var n := Max(|content|, offset + |bs|);
      seq(n, i requires 0 <= i < n =>
        if offset <= i < offset + |bs| then bs[i - offset] else if i < |content| then content[i] else 0)
  }

  // What a read of count bytes at offset delivers.
  function Chunk(content: seq<Byte>, offset: nat, count: nat): seq<Byte> {
    if offset >= |content| then [] else content[offset..offset + Min(count, |content| - offset)]
  }

  // ----- contents decided by the history of writes -----

  datatype Write = Write(offset: nat, bytes: seq<Byte>)

  function Replay(history: seq<Write>): seq<Byte> {
    if history == [] then []
    else var w := history[|history|-1]; Written(Replay(history[..|history|-1]), w.offset, w.bytes)
  }

  function End(w: Write): nat {
    if w.bytes == [] then 0 else w.offset + |w.bytes|
  }

  predicate Covers(w: Write, i: nat) {
    w.offset <= i < w.offset + |w.bytes|
  }

  // The size is the largest end of a non-empty write.
  lemma {:induction false} SizeIsLargestEnd(history: seq<Write>)
    ensures forall k :: 0 <= k < |history| ==> End(history[k]) <= |Replay(history)|
    ensures |Replay(history)| == 0 || exists k :: 0 <= k < |history| && |Replay(history)| == End(history[k])
  {
    if history != [] {
      var n := |history| - 1;
      var h := history[..n];
      SizeIsLargestEnd(h);
      if |Replay(history)| != End(history[n]) && |Replay(history)| != 0 {
        var k :| 0 <= k < n && |Replay(h)| == End(h[k]);
        assert history[k] == h[k];
      }
      forall k | 0 <= k < n ensures End(history[k]) <= |Replay(history)| { assert history[k] == h[k]; }
    }
  }

  // Byte i is the one of the last write that covers it.
  lemma {:induction false} ByteIsOfLastWrite(history: seq<Write>, k: nat, i: nat)
    requires k < |history| && Covers(history[k], i)
    requires forall m :: k < m < |history| ==> !Covers(history[m], i)
    ensures i < |Replay(history)| && Replay(history)[i] == history[k].bytes[i - history[k].offset]
  {
    var n := |history| - 1;
    if k < n {
      assert history[..n][k] == history[k];
      ByteIsOfLastWrite(history[..n], k, i);
      assert !Covers(history[n], i);
    }
  }

  // ... and zero where none does.
  lemma {:induction false} ByteIsZero(history: seq<Write>, i: nat)
    requires i < |Replay(history)| && forall m :: 0 <= m < |history| ==> !Covers(history[m], i)
    ensures Replay(history)[i] == 0
  {
    var n := |history| - 1;
    assert !Covers(history[n], i);
    if i < |Replay(history[..n])| { ByteIsZero(history[..n], i); }
  }

  // ----- the code -----

  ghost predicate ValidFile(inode: Inode)
    reads inode
  {
    if inode.data == null then inode.size == 0 else inode.size == inode.data.Length
  }

  ghost function Content(inode: Inode): seq<Byte>
    requires ValidFile(inode)
    reads inode, inode.data
  {
    if inode.data == null then [] else inode.data[..]
  }

  // The standard contract (ISO/IEC 9899:1999, section 7.20.3.4); grant is the allocator's decision.
  method KRealloc(ptr: array?<Byte>, size: nat, grant: bool) returns (r: array?<Byte>)
    ensures r == null <==> !grant
    ensures r != null ==> fresh(r) && r.Length == size
    ensures r != null && ptr != null ==> forall i :: 0 <= i < Min(ptr.Length, size) ==> r[i] == ptr[i]
  {
    if !grant { return null; }
    r := new Byte[size];
    if ptr != null {
      for i := 0 to Min(ptr.Length, size)
        invariant forall j :: 0 <= j < i ==> r[j] == ptr[j]
      {
        r[i] := ptr[i];
      }
    }
  }

  method TmpfsRead(vn: Vnode, offset: nat, buf: array?<Byte>, count: nat) returns (r: int)
    requires vn.inode != null && ValidFile(vn.inode)
    requires buf != null ==> count <= buf.Length && buf != vn.inode.data
    requires offset < SIZE_LIMIT && count < SIZE_LIMIT && vn.inode.size < SIZE_LIMIT
    modifies buf
    ensures r == if buf == null then -EINVAL else if count == 0 then 0 else if vn.inode.isDir then -EINVAL
                 else ToSsize(|Chunk(Content(vn.inode), offset, count)|)
    ensures buf != null ==>
      buf[..] == Stored(old(buf[..]), 0, if vn.inode.isDir then [] else Chunk(Content(vn.inode), offset, count))
  {
    if buf == null { return -EINVAL; }
    if count == 0 { return 0; }
    var inode := vn.inode;
    if inode.isDir { return -EINVAL; }
    if offset >= inode.size { return 0; }
    var available := inode.size - offset;
    var toRead := if count > available then available else count;
    MemCpy(buf, 0, inode.data, offset, toRead);
    assert inode.data[offset..offset+toRead] == Chunk(Content(inode), offset, count);
    return ToSsize(toRead);
  }

  // The write goes ahead although offset + count wraps.
  ghost predicate Escapes(inode: Inode, offset: nat, buf: array?<Byte>, count: nat, grant: bool)
    reads inode
  {
    && buf != null && count > 0 && !inode.isDir && offset + count >= SIZE_LIMIT
    && (AddSize(offset, count) <= inode.size || grant)
  }

  // Why that is left out: the bytes copied lie inside the block of the file, which is as large as the old or the
  // required size, exactly when the sum, which is the required size, does not wrap.
  lemma CopyStaysInside(size: nat, offset: nat, count: nat)
    requires size < SIZE_LIMIT && offset < SIZE_LIMIT && 0 < count < SIZE_LIMIT
    ensures offset + count <= Max(size, AddSize(offset, count)) <==> offset + count < SIZE_LIMIT
  {
    SumWraps(offset, count);
  }

  // Two bytes at the greatest offset of an empty file ask for a block of one byte, and end far outside it.
  lemma CopyEscapes()
    ensures AddSize(0xFFFF_FFFF, 2) == 1 && 0xFFFF_FFFF + 2 > Max(0, AddSize(0xFFFF_FFFF, 2))
  {
  }

  // The part of tmpfs_write that makes room: the old bytes stay, and the hole up to the offset is filled with zeros.
  method MakeRoom(inode: Inode, offset: nat, required: nat, grant: bool) returns (ok: bool)
    requires ValidFile(inode) && (offset <= required || (required > inode.size && !grant))
    modifies inode`data, inode`size
    ensures ValidFile(inode) && (inode.data == old(inode.data) || fresh(inode.data))
    ensures ok == (required <= old(inode.size) || grant)
    ensures !ok ==> inode.data == old(inode.data) && inode.size == old(inode.size)
    ensures ok ==> |Content(inode)| == inode.size == Max(old(inode.size), required)
    ensures ok && inode.size > 0 ==> inode.data != null
    ensures ok ==> forall i :: 0 <= i < inode.size && (i < offset || i < old(inode.size)) ==>
      Content(inode)[i] == if i < old(inode.size) then old(Content(inode))[i] else 0
  {
    if required > inode.size {
      var newData := KRealloc(inode.data, required, grant);
      if newData == null { return false; }
      inode.data := newData;
      if offset > inode.size {
        MemSet(inode.data, inode.size, 0, offset - inode.size);
      }
      inode.size := required;
    }
    return true;
  }

  method TmpfsWrite(vn: Vnode, offset: nat, buf: array?<Byte>, count: nat, grant: bool) returns (r: int)
    requires vn.inode != null && ValidFile(vn.inode)
    requires buf != null ==> count <= buf.Length && buf != vn.inode.data
    requires offset < SIZE_LIMIT && count < SIZE_LIMIT && !Escapes(vn.inode, offset, buf, count, grant)
    modifies vn.inode`data, vn.inode`size, vn.inode.data
    ensures ValidFile(vn.inode) && (vn.inode.data == old(vn.inode.data) || fresh(vn.inode.data))
    ensures var fits := AddSize(offset, count) <= old(vn.inode.size) || grant;
      && r == (if buf == null then -EINVAL else if count == 0 then 0 else if vn.inode.isDir then -EINVAL
               else if fits then ToSsize(count) else -ENOSPC)
      && Content(vn.inode) ==
          if buf == null || count == 0 || vn.inode.isDir || !fits then old(Content(vn.inode))
          else Written(old(Content(vn.inode)), offset, buf[..count])
  {
    hide Ascending, Source, Written, Stored, ToSsize;
    if buf == null { return -EINVAL; }
    if count == 0 { return 0; }
    var inode := vn.inode;
    if inode.isDir { return -EINVAL; }
    ghost var before := Content(inode);
    var required := AddSize(offset, count);
    var ok := MakeRoom(inode, offset, required, grant);
    if !ok { return -ENOSPC; }
    ghost var memory := Content(inode);
    MemCpy(inode.data, offset, buf, 0, count);
    assert buf[0..count] == buf[..count];
    WrittenIs(before, offset, buf[..count], memory, inode.data[..], inode.size);
    assert inode.data[..inode.size] == inode.data[..];
    return ToSsize(count);
  }

  // The writes that moved, in order.
  function Kept(writes: seq<Write>, moved: seq<bool>): seq<Write>
    requires |moved| == |writes|
  {
    if writes == [] then []
    else
      var n := |writes| - 1;
      Kept(writes[..n], moved[..n]) + if moved[n] then [writes[n]] else []
  }

  lemma {:induction false} KeptAll(writes: seq<Write>, moved: seq<bool>)
    requires |moved| == |writes|
    ensures (forall k :: 0 <= k < |moved| ==> moved[k]) ==> Kept(writes, moved) == writes
  {
    if writes != [] {
      var n := |writes| - 1;
      KeptAll(writes[..n], moved[..n]);
      assert writes == writes[..n] + [writes[n]];
    }
  }

  // The contents after the first i writes.
  function After(writes: seq<Write>, i: nat, moved: seq<bool>): seq<Byte>
    requires i <= |writes| && |moved| == i
  {
    Replay(Kept(writes[..i], moved))
  }

  lemma AfterStep(writes: seq<Write>, i: nat, moved: seq<bool>, m: bool)
    requires i < |writes| && |moved| == i
    ensures After(writes, i + 1, moved + [m]) ==
      if m then Written(After(writes, i, moved), writes[i].offset, writes[i].bytes) else After(writes, i, moved)
  {
    assert writes[..i+1][..i] == writes[..i] && (moved + [m])[..i] == moved;
    var h, w := Kept(writes[..i], moved), writes[i];
    assert (h + [w])[..|h|] == h && h + [] == h;
  }

  lemma AfterEnds(writes: seq<Write>, moved: seq<bool>)
    ensures After(writes, 0, []) == []
    ensures |moved| == |writes| ==> After(writes, |writes|, moved) == Replay(Kept(writes, moved))
  {
    assert writes[..|writes|] == writes;
  }

  // What the caller of a write is told.
  function Reported(w: Write, moved: bool): int {
    if w.bytes == [] then 0 else if moved then ToSsize(|w.bytes|) else -ENOSPC
  }

  // The first writes moved or not and were answered accordingly; what the allocator grants moves.
  ghost predicate Answered(writes: seq<Write>, grants: seq<bool>, moved: seq<bool>, results: seq<int>) {
    && |moved| == |results| <= |writes| == |grants|
    && forall k :: 0 <= k < |moved| ==> (grants[k] ==> moved[k]) && results[k] == Reported(writes[k], moved[k])
  }

  lemma AnsweredStep(writes: seq<Write>, grants: seq<bool>, moved: seq<bool>, results: seq<int>, m: bool, r: int)
    requires Answered(writes, grants, moved, results) && |moved| < |writes|
    requires (grants[|moved|] ==> m) && r == Reported(writes[|moved|], m)
    ensures Answered(writes, grants, moved + [m], results + [r])
  {
  }

  lemma AllGranted(writes: seq<Write>, grants: seq<bool>, moved: seq<bool>, results: seq<int>)
    requires Answered(writes, grants, moved, results) && |moved| == |writes|
    ensures (forall k :: 0 <= k < |grants| ==> grants[k]) ==> Kept(writes, moved) == writes
  {
    KeptAll(writes, moved);
  }

  // Any run of writes to an empty file whose ends do not overflow: the contents are decided by the history of the
  // writes that moved.
  method RunWrites(vn: Vnode, writes: seq<Write>, grants: seq<bool>) returns (moved: seq<bool>, results: seq<int>)
    requires vn.inode != null && ValidFile(vn.inode) && vn.inode.size == 0 && !vn.inode.isDir
    requires |grants| == |writes| && forall k :: 0 <= k < |writes| ==> writes[k].offset + |writes[k].bytes| < SIZE_LIMIT
    modifies vn.inode`data, vn.inode`size, vn.inode.data
    ensures |moved| == |writes| && Answered(writes, grants, moved, results)
    ensures ValidFile(vn.inode) && Content(vn.inode) == Replay(Kept(writes, moved))
    ensures (forall k :: 0 <= k < |grants| ==> grants[k]) ==> Content(vn.inode) == Replay(writes)
  {
    moved, results := [], [];
    AfterEnds(writes, []);
    assert Content(vn.inode) == [] && Answered(writes, grants, [], []);
    hide Replay, Written, Kept, Content, ValidFile, After, Reported, Answered;
    for i := 0 to |writes|
      invariant ValidFile(vn.inode) && (vn.inode.data == old(vn.inode.data) || fresh(vn.inode.data))
      invariant |moved| == i && Content(vn.inode) == After(writes, i, moved)
      invariant Answered(writes, grants, moved, results)
    {
      var m, r := WriteOnce(vn, writes[i], grants[i]);
      AfterStep(writes, i, moved, m);
      AnsweredStep(writes, grants, moved, results, m, r);
      moved, results := moved + [m], results + [r];
    }
    AfterEnds(writes, moved);
    AllGranted(writes, grants, moved, results);
  }

  method WriteOnce(vn: Vnode, w: Write, grant: bool) returns (moved: bool, r: int)
    requires vn.inode != null && ValidFile(vn.inode) && !vn.inode.isDir && w.offset + |w.bytes| < SIZE_LIMIT
    modifies vn.inode`data, vn.inode`size, vn.inode.data
    ensures ValidFile(vn.inode) && (vn.inode.data == old(vn.inode.data) || fresh(vn.inode.data))
    ensures moved == (grant || w.offset + |w.bytes| <= old(vn.inode.size)) && r == Reported(w, moved)
    ensures Content(vn.inode) ==
      if moved then Written(old(Content(vn.inode)), w.offset, w.bytes) else old(Content(vn.inode))
  {
    var buf := new Byte[|w.bytes|](j requires 0 <= j < |w.bytes| => w.bytes[j]);
    assert buf[..|w.bytes|] == w.bytes;
    WrittenNothing(Content(vn.inode), w.offset);
    hide ToSsize, Written, Content;
    moved := grant || w.offset + |w.bytes| <= vn.inode.size;
    r := TmpfsWrite(vn, w.offset, buf, |w.bytes|, grant);
  }

  lemma WrittenNothing(content: seq<Byte>, offset: nat)
    ensures Written(content, offset, []) == content
  {
  }

  // The memory after the copy, up to the size, holds the written contents.
  lemma WrittenIs(before: seq<Byte>, offset: nat, bs: seq<Byte>, memory: seq<Byte>, after: seq<Byte>, size: nat)
    requires bs != [] && size == Max(|before|, offset + |bs|) <= |memory| && after == Stored(memory, offset, bs)
    requires forall i :: 0 <= i < offset && i < size ==> memory[i] == if i < |before| then before[i] else 0
    requires forall i :: offset + |bs| <= i < size ==> i < |before| && memory[i] == before[i]
    ensures after[..size] == Written(before, offset, bs)
  {
  }
}
