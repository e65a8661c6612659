/** Directories in tmpfs: the sibling chain of kernel/fs/tmpfs/tmpfs.c. */
module TmpfsDir {
  import opened Vnodes

  // ----- the directory as a sequence of entries -----

  // busy: a directory that still has children.
  datatype Entry = Entry(name: string, vnode: Vnode, busy: bool)

  // tmpfs_alloc_inode stores at most 63 bytes of a name.
  function Stored63(name: string): string {
    if |name| <= TMPFS_MAX_NAME - 1 then name else name[..TMPFS_MAX_NAME - 1]
  }

  // The position of the first entry of that name, or the length.
  function Find(es: seq<Entry>, name: string): (i: nat)
    ensures i <= |es| && (i < |es| ==> es[i].name == name)
    ensures forall j :: 0 <= j < i ==> es[j].name != name
  {
    if es == [] || es[0].name == name then 0 else 1 + Find(es[1..], name)
  }

  predicate Special(name: string) {
    name == "." || name == ".."
  }

  // Result and entries of tmpfs_create, given the vnode it would allocate, or None when an allocation fails.
  datatype Option<+T> = None | Some(value: T)

  function Create(es: seq<Entry>, name: string, made: Option<Vnode>): (int, seq<Entry>) {
    if Find(es, name) < |es| then (-EEXIST, es)
    else if made == None then (-ENOMEM, es)
    else (0, [Entry(Stored63(name), made.value, false)] + es)
  }

  function Unlink(es: seq<Entry>, name: string): (int, seq<Entry>) {
    var i := Find(es, name);
    if Special(name) then (-EPERM, es)
    else if i == |es| then (-ENOENT, es)
    else if es[i].busy then (-ENOTEMPTY, es)
    else (0, Without(es, i))
  }

  // ----- distinct names: the directory as a finite map -----

  ghost predicate DistinctNames(es: seq<Entry>) {
    forall i, j :: 0 <= i < j < |es| ==> es[i].name != es[j].name
  }

  function ToMap(es: seq<Entry>): map<string, Vnode> {
    if es == [] then map[] else ToMap(es[1..])[es[0].name := es[0].vnode]
  }

  lemma {:induction false} FindIsMap(es: seq<Entry>, name: string)
    ensures name in ToMap(es) <==> Find(es, name) < |es|
    ensures name in ToMap(es) ==> ToMap(es)[name] == es[Find(es, name)].vnode
  {
    if es != [] { FindIsMap(es[1..], name); }
  }

  lemma DistinctTail(es: seq<Entry>)
    requires DistinctNames(es) && es != []
    ensures DistinctNames(es[1..]) && es[0].name !in ToMap(es[1..])
  {
    FindIsMap(es[1..], es[0].name);
    assert forall i :: 0 <= i < |es[1..]| ==> es[1..][i] == es[i+1] && es[i+1].name != es[0].name;
  }

  // A creation that succeeds is an insertion into the map; the names stay distinct exactly when the stored, perhaps
  // shortened, name is new, and the new entry is found under its own name exactly when it was not shortened.
  lemma CreateInserts(es: seq<Entry>, name: string, made: Option<Vnode>)
    requires DistinctNames(es)
    ensures var (code, t) := Create(es, name, made);
      && (code == -EEXIST <==> name in ToMap(es))
      && (code != 0 ==> t == es)
      && (code == 0 ==>
          && made.Some?
          && ToMap(t) == ToMap(es)[Stored63(name) := made.value]
          && (DistinctNames(t) <==> Stored63(name) !in ToMap(es))
          && (Find(t, name) < |t| <==> |name| < TMPFS_MAX_NAME)
          && (|name| < TMPFS_MAX_NAME ==> DistinctNames(t)))
  {
    FindIsMap(es, name);
    var (code, t) := Create(es, name, made);
    if code == 0 {
      assert t[1..] == es;
      FindIsMap(es, Stored63(name));
      if DistinctNames(t) { DistinctTail(t); }
    }
  }

  // Every stored name is at most 63 bytes long.
  predicate Short(es: seq<Entry>) {
    forall i :: 0 <= i < |es| ==> |es[i].name| < TMPFS_MAX_NAME
  }

  // Two creations of one name of 64 bytes or more both succeed.
  lemma LongNameTwice(es: seq<Entry>, name: string, v: Vnode, w: Vnode)
    requires Short(es) && |name| >= TMPFS_MAX_NAME
    ensures var (c1, t1) := Create(es, name, Some(v)); var (c2, t2) := Create(t1, name, Some(w));
      c1 == 0 && c2 == 0 && t2[0].name == t2[1].name
  {
  }

  lemma UnlinkRemoves(es: seq<Entry>, name: string)
    requires DistinctNames(es)
    ensures var (code, t) := Unlink(es, name);
      && (code != 0 ==> t == es)
      && (code == -EPERM <==> name == "." || name == "..")
      && (code == -ENOENT <==> name != "." && name != ".." && name !in ToMap(es))
      && (code == -ENOTEMPTY <==> name != "." && name != ".." && exists e :: e in es && e.name == name && e.busy)
      && code in {0, -EPERM, -ENOENT, -ENOTEMPTY}
      && (code == 0 ==>
          && name in ToMap(es) && t == Without(es, Find(es, name))
          && DistinctNames(t) && ToMap(t) == ToMap(es) - {name})
  {
    FindIsMap(es, name);
    var i := Find(es, name);
    if i < |es| { RemoveFromMap(es, i); }
    forall e | e in es && e.name == name ensures i < |es| && e == es[i] { OnlyOne(es, e, name); }
  }

  lemma OnlyOne(es: seq<Entry>, e: Entry, name: string)
    requires DistinctNames(es) && e in es && e.name == name
    ensures Find(es, name) < |es| && es[Find(es, name)] == e
  {
    var j :| 0 <= j < |es| && es[j] == e;
  }

  function Without(es: seq<Entry>, i: nat): seq<Entry>
    requires i < |es|
  {
    es[..i] + es[i+1..]
  }

  lemma {:induction false} RemoveFromMap(es: seq<Entry>, i: nat)
    requires DistinctNames(es) && i < |es|
    ensures DistinctNames(Without(es, i)) && ToMap(Without(es, i)) == ToMap(es) - {es[i].name}
  {
    var e, t := es[0], es[1..];
    DistinctTail(es);
    WithoutDistinct(es, i);
    assert ToMap(es) == ToMap(t)[e.name := e.vnode] && (i > 0 ==> t[i-1] == es[i]);
    hide DistinctNames, ToMap;
    if i == 0 {
      assert Without(es, 0) == t;
      UpdateMinusSame(ToMap(t), e.name, e.vnode);
    } else {
      RemoveFromMap(t, i - 1);
      WithoutCons(es, i);
      hide Without;
      ToMapCons(e, Without(t, i - 1));
      UpdateMinus(ToMap(t), e.name, e.vnode, es[i].name);
    }
  }

  lemma WithoutDistinct(es: seq<Entry>, i: nat)
    requires DistinctNames(es) && i < |es|
    ensures DistinctNames(Without(es, i)) && es[i].name !in ToMap(Without(es, i))
    ensures i > 0 ==> es[0].name != es[i].name
  {
    var t := Without(es, i);
    forall j | 0 <= j < |t| ensures t[j] == es[if j < i then j else j + 1] && t[j].name != es[i].name {}
    FindIsMap(t, es[i].name);
  }

  lemma WithoutCons(es: seq<Entry>, i: nat)
    requires 0 < i < |es|
    ensures Without(es, i) == [es[0]] + Without(es[1..], i - 1)
  {
  }

  lemma ToMapCons(e: Entry, es: seq<Entry>)
    ensures ToMap([e] + es) == ToMap(es)[e.name := e.vnode]
  {
    assert ([e] + es)[1..] == es;
  }

  lemma UpdateMinusSame(m: map<string, Vnode>, x: string, v: Vnode)
    requires x !in m
    ensures m[x := v] - {x} == m
  {
  }

  lemma UpdateMinus(m: map<string, Vnode>, x: string, v: Vnode, y: string)
    requires x != y
    ensures (m - {y})[x := v] == m[x := v] - {y}
  {
  }

  // Create and then unlink restores the chain exactly when the name was stored whole and is not "." or "..".
  lemma CreateThenUnlink(es: seq<Entry>, name: string, v: Vnode)
    requires Create(es, name, Some(v)).0 == 0
    ensures Unlink(Create(es, name, Some(v)).1, name) == (0, es) <==> |name| < TMPFS_MAX_NAME && !Special(name)
  {
    var t := Create(es, name, Some(v)).1;
    assert t[1..] == es && Without(t, 0) == es;
    assert Find(t, name) == if Stored63(name) == name then 0 else 1 + |es|;
  }

  // What a tmpfs directory answers to any name, as the finite map that path walking works with.
  function Answers(es: seq<Entry>, dot: Vnode, dotdot: Vnode): map<string, Vnode> {
    ToMap(es)["." := dot][".." := dotdot]
  }

  lemma LookupAnswers(es: seq<Entry>, dot: Vnode, dotdot: Vnode, name: string)
    ensures var m := Answers(es, dot, dotdot);
      Lookup(es, dot, dotdot, name) == if name in m then Outcome(0, Some(m[name])) else Outcome(-ENOENT, None)
  {
    FindIsMap(es, name);
  }

  // ----- runs -----

  datatype Op = DoCreate(name: string, made: Option<Vnode>) | DoUnlink(name: string) | DoLookup(name: string)

  datatype Outcome = Outcome(code: int, result: Option<Vnode>)

  // dot and dotdot are what "." and ".." resolve to.
  function StepList(es: seq<Entry>, dot: Vnode, dotdot: Vnode, op: Op): (seq<Entry>, Outcome) {
    match op
    case DoCreate(name, made) =>
      var (code, t) := Create(es, name, made);
      (t, Outcome(code, if code == 0 then made else None))
    case DoUnlink(name) => var (code, t) := Unlink(es, name); (t, Outcome(code, None))
    case DoLookup(name) => (es, Lookup(es, dot, dotdot, name))
  }

  function Lookup(es: seq<Entry>, dot: Vnode, dotdot: Vnode, name: string): Outcome {
    if name == "." then Outcome(0, Some(dot))
    else if name == ".." then Outcome(0, Some(dotdot))
    else if Find(es, name) < |es| then Outcome(0, Some(es[Find(es, name)].vnode))
    else Outcome(-ENOENT, None)
  }

  // The same operations on a finite map.
  function StepMap(m: map<string, Vnode>, dot: Vnode, dotdot: Vnode, op: Op): (map<string, Vnode>, Outcome) {
    match op
    case DoCreate(name, made) =>
      if name in m then (m, Outcome(-EEXIST, None))
      else if made == None then (m, Outcome(-ENOMEM, None))
      else (m[name := made.value], Outcome(0, made))
    case DoUnlink(name) =>
      if Special(name) then (m, Outcome(-EPERM, None))
      else if name !in m then (m, Outcome(-ENOENT, None))
      else (m - {name}, Outcome(0, None))
    case DoLookup(name) =>
      if name == "." then (m, Outcome(0, Some(dot)))
      else if name == ".." then (m, Outcome(0, Some(dotdot)))
      else if name in m then (m, Outcome(0, Some(m[name])))
      else (m, Outcome(-ENOENT, None))
  }

  function RunList(dot: Vnode, dotdot: Vnode, ops: seq<Op>): (seq<Entry>, seq<Outcome>) {
    if ops == [] then ([], [])
    else
      var (es, os) := RunList(dot, dotdot, ops[..|ops|-1]);
      var (t, o) := StepList(es, dot, dotdot, ops[|ops|-1]);
      (t, os + [o])
  }

  function RunMap(dot: Vnode, dotdot: Vnode, ops: seq<Op>): (map<string, Vnode>, seq<Outcome>) {
    if ops == [] then (map[], [])
    else
      var (m, os) := RunMap(dot, dotdot, ops[..|ops|-1]);
      var (t, o) := StepMap(m, dot, dotdot, ops[|ops|-1]);
      (t, os + [o])
  }

  lemma UnlinkRefines(es: seq<Entry>, dot: Vnode, dotdot: Vnode, name: string)
    requires DistinctNames(es) && forall i :: 0 <= i < |es| ==> !es[i].busy
    ensures var (t, o) := StepList(es, dot, dotdot, DoUnlink(name));
      DistinctNames(t) && StepMap(ToMap(es), dot, dotdot, DoUnlink(name)) == (ToMap(t), o)
    ensures forall i :: 0 <= i < |Unlink(es, name).1| ==> !Unlink(es, name).1[i].busy
  {
    UnlinkRemoves(es, name);
    FindIsMap(es, name);
    hide DistinctNames, ToMap, Find;
  }

  // Over every run on an initially empty directory that creates names of at most 63 bytes, the chain keeps distinct
  // names and answers every call, for names of any length, as a finite map from names to vnodes does.
  lemma {:induction false} RunRefinesMap(dot: Vnode, dotdot: Vnode, ops: seq<Op>)
    requires forall i :: 0 <= i < |ops| && ops[i].DoCreate? ==> |ops[i].name| < TMPFS_MAX_NAME
    ensures var (es, os) := RunList(dot, dotdot, ops);
      DistinctNames(es) && RunMap(dot, dotdot, ops) == (ToMap(es), os) && forall i :: 0 <= i < |es| ==> !es[i].busy
  {
    if ops != [] {
      RunRefinesMap(dot, dotdot, ops[..|ops|-1]);
      var es := RunList(dot, dotdot, ops[..|ops|-1]).0;
      match ops[|ops|-1]
      case DoCreate(name, made) => CreateInserts(es, name, made);
      case DoUnlink(name) => UnlinkRefines(es, dot, dotdot, name);
      case DoLookup(name) => FindIsMap(es, name);
    }
  }

  // ----- the sibling chain -----

  // cs are the inodes met from first along next_sibling, up to NULL.
  ghost predicate Chain(first: Inode?, cs: seq<Inode>)
    reads cs`nextSibling
  {
    && first == At(cs, 0)
    && forall i {:trigger cs[i].nextSibling} :: 0 <= i < |cs| ==> cs[i].nextSibling == At(cs, i + 1)
  }

  ghost function At(cs: seq<Inode>, i: nat): Inode? {
    if i < |cs| then cs[i] else null
  }

  // A chain that reaches NULL has no cycle: no inode occurs twice.
  lemma ChainAcyclic(first: Inode?, cs: seq<Inode>)
    requires Chain(first, cs)
    ensures forall i, j :: 0 <= i < j < |cs| ==> cs[i] != cs[j]
  {
    forall i, j | 0 <= i < j < |cs| ensures cs[i] != cs[j] { NoRepeat(first, cs, i, j); }
  }

  lemma {:induction false} NoRepeat(first: Inode?, cs: seq<Inode>, i: nat, j: nat)
    requires Chain(first, cs) && i < j < |cs|
    ensures cs[i] != cs[j]
    decreases |cs| - j
  {
    if j + 1 < |cs| {
      NoRepeat(first, cs, i + 1, j + 1);
      assert cs[i].nextSibling == cs[i+1] && cs[j].nextSibling == cs[j+1];
    } else {
      assert cs[i].nextSibling == cs[i+1] && cs[j].nextSibling == null;
    }
  }

  ghost predicate ValidDir(dir: Inode, cs: seq<Inode>)
    reads dir`firstChild, cs`nextSibling, cs`vnode
  {
    Chain(dir.firstChild, cs) && dir !in cs && forall i :: 0 <= i < |cs| ==> cs[i].vnode != null
  }

  ghost function EntryOf(c: Inode): Entry
    requires c.vnode != null
    reads c
  {
    Entry(c.name, c.vnode, c.isDir && c.firstChild != null)
  }

  ghost function Entries(cs: seq<Inode>): seq<Entry>
    requires forall i :: 0 <= i < |cs| ==> cs[i].vnode != null
    reads cs
  {
    seq(|cs|, i requires 0 <= i < |cs| && cs[i].vnode != null reads cs => EntryOf(cs[i]))
  }

  // The names and vnodes along a chain; unlike Entries it does not look at the children of the inodes.
  ghost function Named(cs: seq<Inode>): map<string, Vnode>
    requires forall i :: 0 <= i < |cs| ==> cs[i].vnode != null
    reads cs`name, cs`vnode
  {
    if cs == [] then map[] else Named(cs[1..])[cs[0].name := cs[0].vnode]
  }

  lemma {:induction false} NamedIs(cs: seq<Inode>)
    requires forall i :: 0 <= i < |cs| ==> cs[i].vnode != null
    ensures Named(cs) == ToMap(Entries(cs))
  {
    if cs != [] {
      NamedIs(cs[1..]);
      assert Entries(cs)[1..] == Entries(cs[1..]);
    }
  }

  lemma NotNamed(cs: seq<Inode>, name: string)
    requires forall i :: 0 <= i < |cs| ==> cs[i].vnode != null
    requires forall c :: c in cs ==> c.name != name
    ensures name !in ToMap(Entries(cs))
  {
    FindIsMap(Entries(cs), name);
    assert forall i :: 0 <= i < |cs| ==> cs[i] in cs && Entries(cs)[i].name == cs[i].name;
  }

  // ----- the code -----

  // The buffer of 64 bytes is zeroed first, so the copy is always terminated.
  method TmpfsAllocInode(isDir: bool, name: string, parent: Inode?, grant: bool) returns (inode: Inode?)
    ensures inode == null <==> !grant
    ensures inode != null ==> fresh(inode) && inode.isDir == isDir && inode.parent == parent
    ensures inode != null ==> inode.name == if |name| < 64 then name else name[..63]
    ensures inode != null ==> inode.name == Stored63(name) && inode.size == 0 && inode.data == null
    ensures inode != null ==> inode.firstChild == null && inode.nextSibling == null && inode.vnode == null
  {
    if !grant { return null; }
    inode := new Inode(isDir, parent);
    var i := 0;
    while i < |name| && i < TMPFS_MAX_NAME - 1
      invariant 0 <= i <= |name| && i <= TMPFS_MAX_NAME - 1 && inode.name == name[..i]
      invariant inode.isDir == isDir && inode.parent == parent && inode.size == 0 && inode.data == null
      invariant inode.firstChild == null && inode.nextSibling == null && inode.vnode == null
    {
      inode.name := inode.name + [name[i]];
      i := i + 1;
    }
    assert name[..|name|] == name;
  }

  method TmpfsCreateVnode(inode: Inode, grant: bool) returns (vn: Vnode?)
    requires |inode.name| < TMPFS_MAX_NAME
    modifies inode`vnode
    ensures vn == null <==> !grant
    ensures inode.vnode == if grant then vn else old(inode.vnode)
    ensures vn != null ==> fresh(vn) && vn.tmpfsOps && vn.inode == inode
    ensures vn != null ==> vn.isDir == inode.isDir && vn.name == inode.name
    ensures vn != null ==> vn.refcount == 1 && vn.mountedHere == null && vn.parent == null
  {
    if !grant { return null; }
    vn := new Vnode();
    vn.tmpfsOps := true;
    vn.inode := inode;
    vn.isDir := inode.isDir;
    var i := 0;
    while i < |inode.name| && i < VFS_MAX_NAME
      invariant 0 <= i <= |inode.name| && vn.name == inode.name[..i]
      invariant vn.tmpfsOps && vn.inode == inode && vn.isDir == inode.isDir
      invariant vn.refcount == 1 && vn.mountedHere == null && vn.parent == null
    {
      vn.name := vn.name + [inode.name[i]];
      i := i + 1;
    }
    inode.vnode := vn;
  }

  // A chain with one more inode in front.
  lemma Prepended(dir: Inode, child: Inode, cs: seq<Inode>)
    requires dir.firstChild == child && Chain(child.nextSibling, cs) && child != dir && dir !in cs
    requires child.vnode != null && forall i :: 0 <= i < |cs| ==> cs[i].vnode != null
    ensures ValidDir(dir, [child] + cs) && Entries([child] + cs) == [EntryOf(child)] + Entries(cs)
  {
    var t := [child] + cs;
    forall i | 0 <= i < |t| ensures t[i].nextSibling == At(t, i + 1) {
      if i > 0 { assert t[i] == cs[i-1]; }
    }
  }

  method TmpfsAddChild(dir: Inode, child: Inode, ghost cs: seq<Inode>)
    requires ValidDir(dir, cs) && child !in cs && child != dir && child.vnode != null
    modifies dir`firstChild, child`nextSibling
    ensures ValidDir(dir, [child] + cs) && Entries([child] + cs) == [EntryOf(child)] + old(Entries(cs))
    ensures child.nextSibling == old(dir.firstChild)
  {
    hide At, Chain;
    child.nextSibling := dir.firstChild;
    dir.firstChild := child;
    assert Entries(cs) == old(Entries(cs));
    Prepended(dir, child, cs);
  }

  // strcmp(child->name, name) == 0 on NUL-free names is equality.
  method TmpfsFindChild(dir: Inode, name: string, ghost cs: seq<Inode>) returns (child: Inode?)
    requires ValidDir(dir, cs)
    ensures child == At(cs, Find(Entries(cs), name))
  {
    child := dir.firstChild;
    ghost var i := 0;
    while child != null
      invariant 0 <= i <= |cs| && child == At(cs, i)
      invariant forall j :: 0 <= j < i ==> cs[j].name != name
      decreases |cs| - i
    {
      if child.name == name {
        FindAt(Entries(cs), name, i);
        return;
      }
      child := child.nextSibling;
      i := i + 1;
    }
    FindAt(Entries(cs), name, i);
  }

  lemma FindAt(es: seq<Entry>, name: string, i: nat)
    requires i <= |es| && (i < |es| ==> es[i].name == name) && forall j :: 0 <= j < i ==> es[j].name != name
    ensures Find(es, name) == i
  {
    var k := Find(es, name);
  }

  // What ".." names.
  ghost function DotDot(dirv: Vnode): Vnode
    requires dirv.inode != null && (dirv.inode.parent != null ==> dirv.inode.parent.vnode != null)
    reads dirv`inode, dirv.inode`parent, (if dirv.inode != null then {dirv.inode.parent} else {})`vnode
  {
    if dirv.inode.parent != null then dirv.inode.parent.vnode else dirv
  }

  method TmpfsLookup(dirv: Vnode, name: string, ghost cs: seq<Inode>) returns (code: int, result: Vnode?)
    requires dirv.inode != null ==>
      ValidDir(dirv.inode, cs) && (dirv.inode.parent != null ==> dirv.inode.parent.vnode != null)
    ensures dirv.inode == null ==> code == -EINVAL && result == null
    ensures dirv.inode != null ==>
      var o := Lookup(Entries(cs), dirv, DotDot(dirv), name);
      code == o.code && (code < 0 <==> o.result.None?) && result == if o.result.Some? then o.result.value else null
  {
    var dir := dirv.inode;
    if dir == null { return -EINVAL, null; }
    if name == "." { return 0, dirv; }
    if name == ".." { return 0, if dir.parent != null then dir.parent.vnode else dirv; }
    var child := TmpfsFindChild(dir, name, cs);
    if child == null { return -ENOENT, null; }
    return 0, child.vnode;
  }

  ghost function Made(v: Vnode?): Option<Vnode> {
    if v == null then None else var w: Vnode := v; Some(w)
  }

  // An empty file in the directory of inode dir.
  ghost predicate NewFile(v: Vnode, c: Inode, dir: Inode?)
    reads v, c
  {
    && v.inode == c && c.vnode == v && v.tmpfsOps && v.mountedHere == null && v.refcount == 1
    && !c.isDir && c.parent == dir && c.firstChild == null && c.data == null && c.size == 0
  }

  // The chain cs with that file and name in front.
  ghost predicate InFront(after: seq<Inode>, cs: seq<Inode>, v: Vnode, dir: Inode?, name: string)
    reads v, after
  {
    after != [] && after == [after[0]] + cs && NewFile(v, after[0], dir) && after[0].name == Stored63(name)
  }

  // The two allocations of tmpfs_create.
  method MakeFile(dir: Inode, name: string, grantInode: bool, grantVnode: bool) returns (v: Vnode?, c: Inode?)
    ensures v != null <==> grantInode && grantVnode
    ensures v != null ==> c != null && fresh(v) && fresh(c) && NewFile(v, c, dir)
    ensures v != null ==> EntryOf(c) == Entry(Stored63(name), v, false)
  {
    v := null;
    c := TmpfsAllocInode(false, name, dir, grantInode);
    if c == null { return; }
    v := TmpfsCreateVnode(c, grantVnode);
  }

  // A new file in front of the chain, unless an allocation fails.
  method AddFile(dir: Inode, name: string, grantInode: bool, grantVnode: bool, ghost cs: seq<Inode>)
    returns (v: Vnode?, ghost after: seq<Inode>)
    requires ValidDir(dir, cs)
    modifies dir`firstChild
    ensures ValidDir(dir, after) && (v != null <==> grantInode && grantVnode)
    ensures v == null ==> after == cs && dir.firstChild == old(dir.firstChild) && Entries(cs) == old(Entries(cs))
    ensures v != null ==> InFront(after, cs, v, dir, name) && fresh(v) && fresh(after[0])
    ensures v != null ==> Entries(after) == [Entry(Stored63(name), v, false)] + old(Entries(cs))
  {
    ghost var es := Entries(cs);
    hide Chain, At, Stored63;
    after := cs;
    var c;
    v, c := MakeFile(dir, name, grantInode, grantVnode);
    assert Entries(cs) == es;
    if v == null { return; }
    TmpfsAddChild(dir, c, cs);
    after := [c] + cs;
  }

  method TmpfsCreate(dirv: Vnode, name: string, grantInode: bool, grantVnode: bool, ghost cs: seq<Inode>)
    returns (code: int, result: Vnode?, ghost after: seq<Inode>)
    requires dirv.inode != null ==> ValidDir(dirv.inode, cs)
    modifies (if dirv.inode != null then {dirv.inode} else {})`firstChild
    ensures dirv.inode == null || !dirv.isDir ==> code == -EINVAL && after == cs
    ensures dirv.inode != null ==> ValidDir(dirv.inode, after)
    ensures dirv.inode != null && !dirv.isDir ==> Entries(after) == old(Entries(cs))
    ensures dirv.inode != null && dirv.isDir ==> (code, Entries(after)) == Create(old(Entries(cs)), name, Made(result))
    ensures (code == -ENOMEM ==> !(grantInode && grantVnode)) && (code == 0 ==> grantInode && grantVnode)
    ensures code == 0 <==> result != null
    ensures code != 0 ==> after == cs
    ensures code != 0 && dirv.inode != null ==>
      dirv.inode.firstChild == old(if dirv.inode == null then null else dirv.inode.firstChild)
    ensures code == 0 ==> InFront(after, cs, result, dirv.inode, name) && fresh(result) && fresh(after[0])
  {
    result, after := null, cs;
    var inode := dirv.inode;
    if inode == null { return -EINVAL, null, cs; }
    if !dirv.isDir { return -EINVAL, null, cs; }
    var existing := TmpfsFindChild(inode, name, cs);
    assert existing != null <==> Find(Entries(cs), name) < |Entries(cs)|;
    hide Find, Chain, At, Stored63, InFront;
    if existing != null { return -EEXIST, null, cs; }
    result, after := AddFile(inode, name, grantInode, grantVnode, cs);
    code := if result == null then -ENOMEM else 0;
  }

  // A chain whose inode i is bypassed is the chain of the others.
  lemma Bypassed(dir: Inode, cs: seq<Inode>, i: nat, after: seq<Inode>)
    requires i < |cs| && after == cs[..i] + cs[i+1..] && dir !in cs
    requires dir.firstChild == At(cs, if i == 0 then 1 else 0)
    requires forall j {:trigger cs[j].nextSibling} :: 0 <= j < |cs| ==>
      cs[j].nextSibling == At(cs, if j + 1 == i then i + 1 else j + 1)
    requires forall j :: 0 <= j < |cs| ==> cs[j].vnode != null
    ensures ValidDir(dir, after) && Entries(after) == Without(Entries(cs), i)
  {
    forall j | 0 <= j < |after|
      ensures after[j].nextSibling == At(after, j + 1) && after[j] == cs[if j < i then j else j + 1]
    {
      assert after[j] == cs[if j < i then j else j + 1];
    }
  }

  // The removal itself: curr is the inode after prev, or the first.
  method UnlinkChild(dir: Inode, prev: Inode?, curr: Inode, ghost cs: seq<Inode>, ghost i: nat)
    requires ValidDir(dir, cs) && i < |cs| && curr == cs[i] && prev == if i == 0 then null else cs[i-1]
    modifies dir`firstChild, (set c | c in cs)`nextSibling
    ensures ValidDir(dir, cs[..i] + cs[i+1..]) && Entries(cs[..i] + cs[i+1..]) == Without(old(Entries(cs)), i)
  {
    ChainAcyclic(dir.firstChild, cs);
    assert forall j {:trigger cs[j].nextSibling} :: 0 <= j < |cs| ==> cs[j].nextSibling == At(cs, j + 1);
    hide Chain;
    if prev != null {
      prev.nextSibling := curr.nextSibling;
    } else {
      dir.firstChild := curr.nextSibling;
    }
    assert Entries(cs) == old(Entries(cs));
    Bypassed(dir, cs, i, cs[..i] + cs[i+1..]);
  }

  // after is cs without one inode.
  ghost predicate OneLess(after: seq<Inode>, cs: seq<Inode>) {
    exists i :: 0 <= i < |cs| && after == cs[..i] + cs[i+1..]
  }

  method TmpfsUnlink(dirv: Vnode, name: string, ghost cs: seq<Inode>) returns (code: int, ghost after: seq<Inode>)
    requires dirv.inode != null ==> ValidDir(dirv.inode, cs)
    modifies (if dirv.inode != null then {dirv.inode} else {})`firstChild, (set c | c in cs)`nextSibling
    ensures dirv.inode == null || !dirv.isDir ==> code == -EINVAL && after == cs
    ensures dirv.inode != null ==> ValidDir(dirv.inode, after)
    ensures dirv.inode != null && !dirv.isDir ==> Entries(after) == old(Entries(cs))
    ensures dirv.inode != null && dirv.isDir ==> (code, Entries(after)) == Unlink(old(Entries(cs)), name)
    ensures code != 0 ==> after == cs
    ensures code == 0 ==> OneLess(after, cs)
    ensures forall c :: c in after ==> c in cs
  {
    after := cs;
    var dir := dirv.inode;
    if dir == null || !dirv.isDir { return -EINVAL, cs; }
    if name == "." || name == ".." { return -EPERM, cs; }
    ghost var es := Entries(cs);
    ghost var i := 0;
    var prev: Inode? := null;
    var curr := dir.firstChild;
    while curr != null
      invariant 0 <= i <= |cs| && curr == At(cs, i) && prev == if i == 0 then null else cs[i-1]
      invariant forall j :: 0 <= j < i ==> cs[j].name != name
      decreases |cs| - i
    {
      if curr.name == name { break; }
      prev := curr;
      curr := curr.nextSibling;
      i := i + 1;
    }
    FindAt(es, name, i);
    hide Find, Chain, At;
    if curr == null { return -ENOENT, cs; }
    if curr.isDir && curr.firstChild != null { return -ENOTEMPTY, cs; }
    UnlinkChild(dir, prev, curr, cs, i);
    after := cs[..i] + cs[i+1..];
    return 0, after;
  }

  // The root inode of a new tmpfs is its own parent's vnode.
  method TmpfsMount(grantInode: bool, grantVnode: bool) returns (code: int, root: Vnode?)
    ensures code == (if grantInode && grantVnode then 0 else -ENOMEM) && (code == 0 <==> root != null)
    ensures root != null ==> fresh(root) && root.isDir && root.tmpfsOps && root.name == "/"
    ensures root != null ==> root.parent == root && root.mountedHere == null && root.refcount == 1
    ensures root != null ==> root.inode != null && fresh(root.inode) && root.inode.vnode == root
    ensures root != null ==> root.inode.parent == null && root.inode.isDir && root.inode.firstChild == null
  {
    root := null;
    var inode := TmpfsAllocInode(true, "/", null, grantInode);
    if inode == null { return -ENOMEM, null; }
    root := TmpfsCreateVnode(inode, grantVnode);
    if root == null { return -ENOMEM, null; }
    root.parent := root;
    code := 0;
  }
}
