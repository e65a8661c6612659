/** Path walking over tmpfs: what creating and unlinking a file and mounting a new tmpfs do to vfs_lookup. */
module VfsTmpfs {
  import opened Vnodes
  import TmpfsDir
  import opened VfsPath

  type VTree = Tree<Vnode>

  function SetDir(t: VTree, d: Vnode, es: seq<TmpfsDir.Entry>, dotdot: Vnode): VTree {
    t.(dirs := t.dirs[d := TmpfsDir.Answers(es, d, dotdot)])
  }

  // Directory d of the tree is a tmpfs directory with these entries, dotdot being its "..".
  ghost predicate Shows(t: VTree, d: Vnode, es: seq<TmpfsDir.Entry>, dotdot: Vnode) {
    d in t.dirs && t.dirs[d] == TmpfsDir.Answers(es, d, dotdot)
  }

  // tmpfs_create: the directory gains an entry, and the vnode of the new file answers to "." and ".." only.
  function Created(t: VTree, d: Vnode, es: seq<TmpfsDir.Entry>, dotdot: Vnode, name: string, v: Vnode): VTree {
    SetDir(SetDir(t, v, [], d), d, TmpfsDir.Create(es, name, TmpfsDir.Some(v)).1, dotdot)
  }

  // A new tmpfs mounted on m: its root is empty and its own "..".
  function MountedTmpfs(t: VTree, m: Vnode, root: Vnode): VTree {
    AddMount(SetDir(t, root, [], root), m, root)
  }

  predicate SimpleName(name: string) {
    name != "" && NoSlash(name) && |name| <= VFS_MAX_NAME
  }

  lemma OneComponent(name: string)
    requires SimpleName(name)
    ensures Components(name) == [name]
  {
    assert name + "" == name;
    NameFirst(name, "");
  }

  // Looking up one more name asks the directory that the path before it resolves to.
  lemma EntryIsFound(t: VTree, p: string, d: Vnode, name: string)
    requires Lookup(t, p) == Ok(d) && SimpleName(name)
    ensures Lookup(t, p + "/" + name) ==
      var r := Ask(t, d, name); if r.Err? then r else Ok(Mounted(t, r.value))
  {
    OneComponent(name);
    LookupComposes(t, p, name);
  }

  // ----- a vnode that the tree does not know yet -----

  ghost predicate Unknown(t: VTree, v: Vnode) {
    && t.root != v && v !in t.dirs && v !in t.mounts
    && (forall m :: m in t.mounts ==> t.mounts[m] != v)
    && (forall d, n :: d in t.dirs && n in t.dirs[d] ==> t.dirs[d][n] != v)
  }

  // u is t with the answers of that vnode.
  ghost predicate NewDir(t: VTree, u: VTree, v: Vnode) {
    Unknown(t, v) && u == t.(dirs := u.dirs) && v in u.dirs && u.dirs == t.dirs[v := u.dirs[v]]
  }

  lemma StepIgnores(t: VTree, u: VTree, v: Vnode, current: Vnode, name: string)
    requires NewDir(t, u, v) && current != v
    ensures Step(u, current, name) == Step(t, current, name)
    ensures Step(t, current, name).Ok? ==> Step(t, current, name).value != v
  {
  }

  lemma {:induction false} WalkIgnores(t: VTree, u: VTree, v: Vnode, current: Vnode, names: seq<string>)
    requires NewDir(t, u, v) && current != v
    ensures Walk(u, current, names) == Walk(t, current, names)
    ensures Walk(t, current, names).Ok? ==> Walk(t, current, names).value != v
  {
    if names != [] {
      StepIgnores(t, u, v, current, names[0]);
      hide NewDir, Step;
      if Step(t, current, names[0]).Ok? { WalkIgnores(t, u, v, Step(t, current, names[0]).value, names[1..]); }
    }
  }

  lemma {:induction false} VisitsIgnores(t: VTree, u: VTree, v: Vnode, current: Vnode, names: seq<string>, m: Vnode)
    requires NewDir(t, u, v) && current != v
    ensures Visits(u, current, names, m) <==> Visits(t, current, names, m)
    ensures VisitsEarly(u, current, names, m) <==> VisitsEarly(t, current, names, m)
  {
    if names != [] {
      StepIgnores(t, u, v, current, names[0]);
      hide NewDir, Step;
      if Step(t, current, names[0]).Ok? { VisitsIgnores(t, u, v, Step(t, current, names[0]).value, names[1..], m); }
    }
  }

  lemma {:induction false} UsesIgnores(t: VTree, u: VTree, v: Vnode, current: Vnode, names: seq<string>, d: Vnode,
                                       name: string)
    requires NewDir(t, u, v) && current != v
    ensures Uses(u, current, names, d, name) <==> Uses(t, current, names, d, name)
  {
    if names != [] {
      StepIgnores(t, u, v, current, names[0]);
      assert Mounted(u, current) == Mounted(t, current);
      hide NewDir, Step, Mounted;
      if Step(t, current, names[0]).Ok? { UsesIgnores(t, u, v, Step(t, current, names[0]).value, names[1..], d, name); }
    }
  }

  lemma StartIgnores(t: VTree, u: VTree, v: Vnode)
    requires NewDir(t, u, v)
    ensures Mounted(u, u.root) == Mounted(t, t.root) != v
  {
  }

  lemma LookupIgnores(t: VTree, u: VTree, v: Vnode, q: string)
    requires NewDir(t, u, v)
    ensures Lookup(u, q) == Lookup(t, q) && (Lookup(t, q).Ok? ==> Lookup(t, q).value != v)
  {
    StartIgnores(t, u, v);
    WalkIgnores(t, u, v, Mounted(t, t.root), Components(q));
    hide Components, Walk;
  }

  // ----- trees that differ in one name of one directory -----

  // The walk looks name up in directory d at some step.
  predicate Uses(t: VTree, current: Vnode, names: seq<string>, d: Vnode, name: string) {
    names != [] && (
      || (Mounted(t, current) == d && names[0] == name)
      || (Step(t, current, names[0]).Ok? && Uses(t, Step(t, current, names[0]).value, names[1..], d, name)))
  }

  predicate SameAnswer(m: map<string, Vnode>, k: map<string, Vnode>, name: string) {
    (name in m <==> name in k) && (name in m ==> k[name] == m[name])
  }

  ghost predicate DiffersAt(t: VTree, u: VTree, d: Vnode, name: string) {
    && t.root == u.root && t.mounts == u.mounts && t.dirs.Keys == u.dirs.Keys
    && forall e, n :: e in t.dirs && (e != d || n != name) ==> SameAnswer(t.dirs[e], u.dirs[e], n)
  }

  lemma {:induction false} WalkAvoids(t: VTree, u: VTree, current: Vnode, names: seq<string>, d: Vnode, name: string)
    requires DiffersAt(t, u, d, name) && !Uses(t, current, names, d, name)
    ensures Walk(u, current, names) == Walk(t, current, names)
  {
    if names != [] {
      assert SameAnswer(map[], map[], name);
      var e := Mounted(t, current);
      if e in t.dirs { assert SameAnswer(t.dirs[e], u.dirs[e], names[0]); }
      assert Step(u, current, names[0]) == Step(t, current, names[0]);
      if Step(t, current, names[0]).Ok? {
        WalkAvoids(t, u, Step(t, current, names[0]).value, names[1..], d, name);
      }
    }
  }

  lemma LookupAvoids(t: VTree, u: VTree, q: string, d: Vnode, name: string)
    requires DiffersAt(t, u, d, name) && !Uses(t, Mounted(t, t.root), Components(q), d, name)
    ensures Lookup(u, q) == Lookup(t, q)
  {
    WalkAvoids(t, u, Mounted(t, t.root), Components(q), d, name);
  }

  // A path that resolves is not disturbed by a name that did not exist.
  lemma {:induction false} WalkExtends(t: VTree, u: VTree, current: Vnode, names: seq<string>, d: Vnode, name: string)
    requires DiffersAt(t, u, d, name) && d in t.dirs && name !in t.dirs[d] && Walk(t, current, names).Ok?
    ensures !Uses(t, current, names, d, name)
  {
    if names != [] {
      WalkExtends(t, u, Step(t, current, names[0]).value, names[1..], d, name);
    }
  }

  // ----- tmpfs_create -----

  lemma CreateDiffers(t: VTree, d: Vnode, dotdot: Vnode, es: seq<TmpfsDir.Entry>, name: string, v: Vnode)
    requires Shows(t, d, es, dotdot) && TmpfsDir.Create(es, name, TmpfsDir.Some(v)).0 == 0
    requires |name| < TMPFS_MAX_NAME && !TmpfsDir.Special(name)
    ensures var u := SetDir(t, d, TmpfsDir.Create(es, name, TmpfsDir.Some(v)).1, dotdot);
      DiffersAt(t, u, d, name) && name !in t.dirs[d] && Ask(u, d, name) == Ok(v)
  {
    TmpfsDir.FindIsMap(es, name);
    TmpfsDir.ToMapCons(TmpfsDir.Entry(name, v, false), es);
  }

  // After a creation in the directory that p resolves to, the new vnode is found under p/name, every path that resolved
  // before still resolves to the same vnode, and so does every path whose walk does not look that name up there.
  lemma CreatedIsFound(t: VTree, p: string, d: Vnode, dotdot: Vnode, es: seq<TmpfsDir.Entry>, name: string, v: Vnode,
                       q: string)
    requires Lookup(t, p) == Ok(d) && Shows(t, d, es, dotdot) && Unknown(t, v)
    requires TmpfsDir.Create(es, name, TmpfsDir.Some(v)).0 == 0
    requires SimpleName(name) && |name| < TMPFS_MAX_NAME && !TmpfsDir.Special(name)
    ensures var u := Created(t, d, es, dotdot, name, v);
      && Lookup(u, p + "/" + name) == Ok(v)
      && (Lookup(t, q).Ok? || !Uses(t, Mounted(t, t.root), Components(q), d, name) ==> Lookup(u, q) == Lookup(t, q))
  {
    var t1 := SetDir(t, v, [], d);
    var u := Created(t, d, es, dotdot, name, v);
    CreateDiffers(t1, d, dotdot, es, name, v);
    NewFileIsLocal(t, t1, u, d, name, v, p);
    NewFileIsLocal(t, t1, u, d, name, v, q);
    hide Created, SetDir, Lookup, Ask;
    EntryIsFound(u, p, d, name);
    assert v !in u.mounts;
  }

  // "." below the new file is the file, and ".." leads back to the directory, or to the mount on it.
  lemma CreatedDots(t: VTree, p: string, d: Vnode, dotdot: Vnode, es: seq<TmpfsDir.Entry>, name: string, v: Vnode)
    requires Lookup(t, p) == Ok(d) && Shows(t, d, es, dotdot) && Unknown(t, v)
    requires TmpfsDir.Create(es, name, TmpfsDir.Some(v)).0 == 0
    requires SimpleName(name) && |name| < TMPFS_MAX_NAME && !TmpfsDir.Special(name)
    ensures var u, file := Created(t, d, es, dotdot, name, v), p + "/" + name;
      Lookup(u, file + "/" + ".") == Ok(v) && Lookup(u, file + "/" + "..") == Ok(Mounted(t, d))
  {
    var u, file := Created(t, d, es, dotdot, name, v), p + "/" + name;
    CreatedIsFound(t, p, d, dotdot, es, name, v, p);
    NewFileAnswers(t, d, es, dotdot, name, v);
    hide Created, Lookup, Ask;
    EntryIsFound(u, file, v, ".");
    EntryIsFound(u, file, v, "..");
  }

  lemma NewFileAnswers(t: VTree, d: Vnode, es: seq<TmpfsDir.Entry>, dotdot: Vnode, name: string, v: Vnode)
    requires d != v
    ensures var u := Created(t, d, es, dotdot, name, v);
      u.mounts == t.mounts && Ask(u, v, ".") == Ok(v) && Ask(u, v, "..") == Ok(d)
  {
  }

  lemma NewFileIsLocal(t: VTree, t1: VTree, u: VTree, d: Vnode, name: string, v: Vnode, q: string)
    requires NewDir(t, t1, v) && DiffersAt(t1, u, d, name) && d in t1.dirs && name !in t1.dirs[d]
    ensures Lookup(t, q).Ok? || !Uses(t, Mounted(t, t.root), Components(q), d, name) ==> Lookup(u, q) == Lookup(t, q)
  {
    var start, names := Mounted(t, t.root), Components(q);
    StartIgnores(t, t1, v);
    WalkIgnores(t, t1, v, start, names);
    UsesIgnores(t, t1, v, start, names, d, name);
    LookupIgnores(t, t1, v, q);
    if Walk(t, start, names).Ok? { WalkExtends(t1, u, start, names, d, name); }
    hide NewDir, DiffersAt, Walk, Components, Uses;
    if Lookup(t, q).Ok? || !Uses(t, start, names, d, name) { LookupAvoids(t1, u, q, d, name); }
  }

  // ----- tmpfs_unlink -----

  lemma UnlinkDiffers(t: VTree, d: Vnode, dotdot: Vnode, es: seq<TmpfsDir.Entry>, name: string)
    requires Shows(t, d, es, dotdot) && TmpfsDir.DistinctNames(es) && TmpfsDir.Unlink(es, name).0 == 0
    ensures var u := SetDir(t, d, TmpfsDir.Unlink(es, name).1, dotdot);
      DiffersAt(t, u, d, name) && Ask(u, d, name) == Err(-ENOENT)
  {
    TmpfsDir.UnlinkRemoves(es, name);
  }

  // After an unlink in the directory that p resolves to without passing through the file itself, p/name is gone; every
  // path whose walk does not look that name up there resolves as before.
  lemma UnlinkedIsGone(t: VTree, p: string, d: Vnode, dotdot: Vnode, es: seq<TmpfsDir.Entry>, name: string, q: string)
    requires Lookup(t, p) == Ok(d) && Shows(t, d, es, dotdot) && TmpfsDir.DistinctNames(es)
    requires SimpleName(name) && TmpfsDir.Unlink(es, name).0 == 0
    requires !Uses(t, Mounted(t, t.root), Components(p), d, name)
    ensures var u := SetDir(t, d, TmpfsDir.Unlink(es, name).1, dotdot);
      && Lookup(u, p + "/" + name) == Err(-ENOENT)
      && (!Uses(t, Mounted(t, t.root), Components(q), d, name) ==> Lookup(u, q) == Lookup(t, q))
  {
    var u := SetDir(t, d, TmpfsDir.Unlink(es, name).1, dotdot);
    UnlinkDiffers(t, d, dotdot, es, name);
    LookupAvoids(t, u, p, d, name);
    EntryIsFound(u, p, d, name);
    if !Uses(t, Mounted(t, t.root), Components(q), d, name) { LookupAvoids(t, u, q, d, name); }
  }

  // Creating a file and unlinking it again leaves every lookup as it was.
  lemma CreateUnlinkRestores(t: VTree, d: Vnode, dotdot: Vnode, es: seq<TmpfsDir.Entry>, name: string, v: Vnode,
                             q: string)
    requires Shows(t, d, es, dotdot) && Unknown(t, v) && TmpfsDir.Create(es, name, TmpfsDir.Some(v)).0 == 0
    requires |name| < TMPFS_MAX_NAME && !TmpfsDir.Special(name)
    ensures var es' := TmpfsDir.Create(es, name, TmpfsDir.Some(v)).1;
      Lookup(SetDir(Created(t, d, es, dotdot, name, v), d, TmpfsDir.Unlink(es', name).1, dotdot), q) == Lookup(t, q)
  {
    TmpfsDir.CreateThenUnlink(es, name, v);
    hide TmpfsDir.Create, TmpfsDir.Unlink, Lookup, TmpfsDir.Answers;
    var es', t1 := TmpfsDir.Create(es, name, TmpfsDir.Some(v)).1, SetDir(t, v, [], d);
    LookupIgnores(t, t1, v, q);
    hide Unknown;
    SetBack(t1, d, es', es, dotdot);
  }

  lemma SetBack(t: VTree, d: Vnode, es': seq<TmpfsDir.Entry>, es: seq<TmpfsDir.Entry>, dotdot: Vnode)
    requires Shows(t, d, es, dotdot)
    ensures SetDir(SetDir(t, d, es', dotdot), d, es, dotdot) == t
  {
    hide TmpfsDir.Answers;
    var u := SetDir(SetDir(t, d, es', dotdot), d, es, dotdot);
    assert u.dirs == t.dirs;
  }

  // ----- mounting a new tmpfs -----

  // The walk of p meets the vnode it resolves to only at its end.
  predicate MetLast(t: VTree, p: string)
    requires Lookup(t, p).Ok?
  {
    var m := Lookup(t, p).value;
    && !VisitsEarly(t, Mounted(t, t.root), Components(p), m)
    && (m == t.root ==> Components(p) == [] && t.root !in t.mounts)
  }

  lemma NewRootKeepsMetLast(t: VTree, t1: VTree, root: Vnode, p: string)
    requires NewDir(t, t1, root) && Lookup(t, p).Ok? && MetLast(t, p)
    ensures Lookup(t1, p) == Lookup(t, p) && MetLast(t1, p) && Lookup(t, p).value != root
  {
    LookupIgnores(t, t1, root, p);
    StartIgnores(t, t1, root);
    VisitsIgnores(t, t1, root, Mounted(t, t.root), Components(p), Lookup(t, p).value);
    hide Lookup, Components, VisitsEarly;
  }

  // A new tmpfs mounted on what p resolves to is what p resolves to afterwards, exactly when that was not itself
  // reached by following a mount.  It is empty then, and ".." does not leave it.
  lemma TmpfsIsMounted(t: VTree, p: string, root: Vnode, name: string)
    requires Lookup(t, p).Ok? && MetLast(t, p) && Unknown(t, root) && SimpleName(name)
    ensures var m := Lookup(t, p).value; var u := MountedTmpfs(t, m, root);
      && (Lookup(u, p) == Ok(root) <==> Walk(t, Mounted(t, t.root), Components(p)) == Ok(m))
      && (Lookup(u, p) == Ok(root) ==>
          Lookup(u, p + "/" + name) == if TmpfsDir.Special(name) then Ok(root) else Err(-ENOENT))
  {
    var t1 := SetDir(t, root, [], root);
    var u := MountedTmpfs(t, Lookup(t, p).value, root);
    NewRootKeepsMetLast(t, t1, root, p);
    StartIgnores(t, t1, root);
    WalkIgnores(t, t1, root, Mounted(t, t.root), Components(p));
    MountIsVisible(t1, p, root);
    EmptyAnswers(u, root, name);
    hide Lookup, Walk, Components, VisitsEarly, Ask;
    if Lookup(u, p) == Ok(root) { EntryIsFound(u, p, root, name); }
  }

  lemma EmptyAnswers(u: VTree, root: Vnode, name: string)
    requires Shows(u, root, [], root)
    ensures Ask(u, root, name) == if TmpfsDir.Special(name) then Ok(root) else Err(-ENOENT)
  {
  }

  // Paths that do not meet the mountpoint resolve as before.
  lemma TmpfsMountIsLocal(t: VTree, m: Vnode, root: Vnode, q: string)
    requires Unknown(t, root) && m != t.root && !Visits(t, Mounted(t, t.root), Components(q), m)
    ensures Lookup(MountedTmpfs(t, m, root), q) == Lookup(t, q)
  {
    var t1 := SetDir(t, root, [], root);
    StartIgnores(t, t1, root);
    VisitsIgnores(t, t1, root, Mounted(t, t.root), Components(q), m);
    LookupIgnores(t, t1, root, q);
    MountIsLocal(t1, m, root, q);
  }
}
