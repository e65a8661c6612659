/** The file system as a whole: mounted_root, vfs_lookup and vfs_mount of kernel/fs/vfs.c on vnodes whose directory
    operations are those of tmpfs. */
module FileSystem {
  import opened Vnodes
  import opened MemString
  import opened VfsPath
  import opened VfsTmpfs
  import opened FsHeap
  import TmpfsDir

  // What vfs_find_fs finds: nothing, tmpfs with the allocator's decisions on its root, or another file system with the
  // outcome of its mount operation.
  datatype Fs =
    | Absent
    | Tmpfs(grantInode: bool, grantVnode: bool)
    | Foreign(err: int, made: TmpfsDir.Option<Vnode>)

  function FsCode(fs: Fs): int
    requires !fs.Absent?
  {
    match fs
    case Tmpfs(grantInode, grantVnode) => if grantInode && grantVnode then 0 else -ENOMEM
    case Foreign(err, made) => if err < 0 then err else if made.None? then -EINVAL else 0
  }

  function MountCode(t: VTree, path: string, fs: Fs, granted: bool): int {
    if fs.Absent? then -ENODEV
    else if Lookup(t, path).Err? then Lookup(t, path).code
    else AttachCode(fs, granted)
  }

  function AttachCode(fs: Fs, granted: bool): int
    requires !fs.Absent?
  {
    if FsCode(fs) != 0 then FsCode(fs) else if granted then 0 else -ENOMEM
  }

  // The tree with root, if any, mounted on m.
  function Attached(t: VTree, foreign: map<Vnode, map<string, Vnode>>, m: Vnode, fs: Fs,
                    root: TmpfsDir.Option<Vnode>): VTree {
    if root.None? then t
    else if fs.Tmpfs? then MountedTmpfs(t, m, root.value)
    else AddMount(WithRoot(t, foreign, root.value), m, root.value)
  }

  lemma MountCodes(t: VTree, path: string, fs: Fs, granted: bool)
    ensures MountCode(t, path, fs, granted) ==
      if fs.Absent? then -ENODEV
      else if Lookup(t, path).Err? then Lookup(t, path).code
      else AttachCode(fs, granted)
    ensures -ENODEV != 0 && (Lookup(t, path).Err? ==> Lookup(t, path).code < 0)
    ensures fs.Absent? ==> MountCode(t, path, fs, granted) == -ENODEV
    ensures !fs.Absent? && Lookup(t, path).Err? ==> MountCode(t, path, fs, granted) == Lookup(t, path).code
    ensures Lookup(t, path).Ok? && fs.Tmpfs? ==>
      MountCode(t, path, fs, granted) == if fs.grantInode && fs.grantVnode && granted then 0 else -ENOMEM
    ensures Lookup(t, path).Ok? && fs.Foreign? ==>
      MountCode(t, path, fs, granted) ==
        if fs.err < 0 then fs.err else if fs.made.None? then -EINVAL else if granted then 0 else -ENOMEM
  {
  }

  lemma MadeNone()
    ensures TmpfsDir.Made(null) == TmpfsDir.None
    ensures forall t, foreign, m, fs :: Attached(t, foreign, m, fs, TmpfsDir.None) == t
  {
  }

  // fs->mount
  method FsMount(fs: Fs) returns (err: int, made: Vnode?)
    requires !fs.Absent?
    ensures FsCode(fs) == if err < 0 then err else if made == null then -EINVAL else 0
    ensures fs.Foreign? ==> err == fs.err && made == if fs.made.Some? then fs.made.value else null
    ensures fs.Tmpfs? && err >= 0 ==> made != null && fresh(made) && made.inode != null && fresh(made.inode)
    ensures fs.Tmpfs? && err >= 0 ==> made.tmpfsOps && made.mountedHere == null
    ensures fs.Tmpfs? && err >= 0 ==>
      made.inode.vnode == made && made.inode.parent == null && made.inode.firstChild == null
  {
    match fs
    case Tmpfs(grantInode, grantVnode) => err, made := TmpfsDir.TmpfsMount(grantInode, grantVnode);
    case Foreign(e, v) =>
      err := e;
      made := if v.Some? then v.value else null;
  }

  // ----- the code -----

  class Vfs {
    const root: Vnode
    var foreign: map<Vnode, map<string, Vnode>>
    ghost var nodes: set<Vnode>
    ghost var chains: map<Inode, seq<Inode>>

    ghost function K(): Known
      reads this
    {
      Known(root, foreign, nodes, chains)
    }

    ghost predicate Valid()
      reads this, nodes`mountedHere, nodes`inode, nodes`tmpfsOps
      reads chains.Keys`vnode, chains.Keys`parent, chains.Keys`firstChild, chains.Keys`nextSibling
    {
      Linked(K()) && MountsKnown(K()) && Chained(K())
    }

    ghost function View(): VTree
      requires Valid()
      reads this, nodes`mountedHere, nodes`inode, nodes`tmpfsOps
      reads chains.Keys`vnode, chains.Keys`parent, chains.Keys`firstChild, chains.Keys`nextSibling, chains.Keys`name
    {
      ViewOf(K())
    }

    // vfs_init, before any mount; other file systems bring their vnodes.
    constructor (foreign: map<Vnode, map<string, Vnode>>, nodes: set<Vnode>)
      requires forall v :: v in nodes ==> v.inode == null && v.mountedHere == null && !v.tmpfsOps
      requires forall v, n :: v in foreign && n in foreign[v] ==> foreign[v][n] in nodes
      ensures Valid() && fresh(root) && this.nodes == nodes + {root} && this.foreign == foreign && chains == map[]
      ensures root.parent == root && root.mountedHere == null && !root.tmpfsOps
    {
      var r := new Vnode();
      root := r;
      this.foreign := foreign;
      this.nodes := nodes + {r};
      chains := map[];
      new;
      root.name := "/";
      root.parent := root;
    }

    method MountedRoot(v: Vnode) returns (r: Vnode)
      requires Valid() && v in nodes
      ensures r == Mounted(View(), v) && r in nodes
    {
      if v.mountedHere != null { return v.mountedHere.root; }
      return v;
    }

    // tmpfs_lookup on a vnode with tmpfs operations.
    method LookupIn(dir: Vnode, name: string) returns (r: Result<Vnode>)
      requires Valid() && dir in nodes && dir.tmpfsOps
      ensures r == Ask(View(), dir, name) && (r.Ok? ==> r.value in nodes)
    {
      hide Linked, Chained, ViewOf, Ask, ChainOf, TmpfsDir.DotDot, TmpfsDir.Lookup;
      LookupFacts(K(), dir, name);
      ghost var cs, t := ChainOf(K(), dir), View();
      ghost var es, dotdot := TmpfsDir.Entries(cs), TmpfsDir.DotDot(dir);
      var code, child := TmpfsDir.TmpfsLookup(dir, name, cs);
      assert TmpfsDir.Entries(cs) == es && TmpfsDir.DotDot(dir) == dotdot && View() == t;
      if code < 0 { return Err(-ENOENT); }
      return Ok(child);
    }

    // The body of the loop of vfs_lookup.
    method LookupChild(current: Vnode, name: string) returns (r: Result<Vnode>)
      requires Valid() && current in nodes
      ensures r == Step(View(), current, name) && (r.Ok? ==> r.value in nodes)
    {
      var dir := MountedRoot(current);
      if dir.tmpfsOps {
        r := LookupIn(dir, name);
        return;
      }
      if dir !in foreign { return Err(-ENOTDIR); }
      if name !in foreign[dir] { return Err(-ENOENT); }
      return Ok(foreign[dir][name]);
    }

    // Between two calls other file systems may change what their directories answer; tmpfs and mounts stay.
    method ForeignChange(now: map<Vnode, map<string, Vnode>>, ghost more: set<Vnode>)
      requires Valid() && ForeignChanges(K(), K().(foreign := now, nodes := nodes + more))
      modifies this`foreign, this`nodes
      ensures Valid() && foreign == now && nodes == old(nodes) + more
      ensures View() == old(View()).(dirs := View().dirs)
      ensures forall v :: v in nodes ==>
        if v.tmpfsOps then v in old(View()).dirs && v in View().dirs && View().dirs[v] == old(View()).dirs[v]
        else (v in View().dirs <==> v in now) && (v in now ==> View().dirs[v] == now[v])
    {
      hide Linked, Chained, MountsKnown, ViewOf, ForeignChanges;
      ForeignChanged(K(), K().(foreign := now, nodes := nodes + more));
      foreign, nodes := now, nodes + more;
    }

    lemma RootKnown()
      requires Valid()
      ensures root in nodes && View().root == root
    {
    }

    method VfsLookup(path: string) returns (r: Result<Vnode>)
      requires Valid() && '\0' !in path
      ensures r == Lookup(View(), path) && (r.Ok? ==> r.value in nodes)
      ensures r == Err(-EINVAL) <==> path == "" || path[0] != '/'
    {
      hide Components, Walk, Mounted, View, Valid, Trail, TrailTo;
      LookupDecides(View(), path);
      if path == "" || path[0] != '/' { return Err(-EINVAL); }
      RootKnown();
      var current := MountedRoot(root);
      r := WalkFrom(current, path);
      if r.Err? { return; }
      current := MountedRoot(r.value);
      return Ok(current);
    }

    // The loop: name holds the component that ends at next.
    method WalkFrom(start: Vnode, path: string) returns (r: Result<Vnode>)
      requires Valid() && start in nodes && '\0' !in path
      ensures r == Walk(View(), start, Components(path)) && (r.Ok? ==> r.value in nodes)
    {
      hide Components, CString, Walk, Step, View, Valid, Parsed;
      var name := new char[VFS_MAX_NAME + 1];
      ghost var t := View();
      var current := start;
      var pos := 0;
      var next := ParseNext(path, pos, name);
      assert path[0..] == path;
      while next != -1
        invariant 0 <= pos <= |path| && current in nodes && Valid() && View() == t
        invariant Parsed(path, pos, next, name[..])
        invariant Walk(t, start, Components(path)) == Walk(t, current, Components(path[pos..]))
        decreases |path| - pos
      {
        ParsedWalk(t, current, path, pos, next, name[..]);
        var child := LookupChild(current, CString(name[..]));
        if child.Err? { return child; }
        current := child.value;
        pos := next;
        next := ParseNext(path, pos, name);
      }
      ParsedEnd(t, current, path, pos, name[..]);
      return Ok(current);
    }

    // ----- changing the tree -----

    // The create operation of a tmpfs vnode.
    method Create(dirv: Vnode, name: string, grantInode: bool, grantVnode: bool) returns (code: int, made: Vnode?)
      requires Valid() && dirv in nodes && dirv.tmpfsOps
      modifies this`nodes, this`chains, dirv.inode`firstChild
      ensures Valid()
      ensures var s := old(At(K(), dirv));
        && code == CreateCode(s, dirv.isDir, name, TmpfsDir.Made(made))
        && View() == CreateTree(s, dirv, dirv.isDir, name, TmpfsDir.Made(made))
      ensures (code == -ENOMEM ==> !(grantInode && grantVnode)) && (code == 0 ==> grantInode && grantVnode)
      ensures if code == 0 then made != null && fresh(made) && nodes == old(nodes) + {made}
              else made == null && nodes == old(nodes) && chains == old(chains)
      ensures code == 0 ==> made.inode != null && fresh(made.inode) && TmpfsDir.NewFile(made, made.inode, dirv.inode)
    {
      hide Linked, Chained, At, CreateCode, CreateTree, ViewOf;
      ghost var l;
      code, made, l := CreateFile(dirv, name, grantInode, grantVnode, K());
      nodes, chains := l.nodes, l.chains;
    }

    // The unlink operation of a tmpfs vnode; what is freed stays known.
    method Unlink(dirv: Vnode, name: string) returns (code: int)
      requires Valid() && dirv in nodes && dirv.tmpfsOps
      modifies this`chains, dirv.inode`firstChild, (set c | c in ChainOf(K(), dirv))`nextSibling
      ensures Valid() && nodes == old(nodes)
      ensures var s := old(At(K(), dirv));
        code == UnlinkCode(s, dirv.isDir, name) && View() == UnlinkTree(s, dirv, dirv.isDir, name)
    {
      hide Linked, Chained, At, UnlinkCode, UnlinkTree, ViewOf;
      ghost var l;
      code, l := UnlinkFile(dirv, name, K());
      chains := l.chains;
    }

    // What a successful mount changes.
    method Attach(mountpoint: Vnode, root: Vnode)
      requires Valid() && mountpoint in nodes && root in nodes
      modifies mountpoint`mountedHere, root`parent
      ensures Valid() && View() == AddMount(old(View()), mountpoint, root) && root.parent == mountpoint
    {
      hide Linked, Chained, DirsOf, MountsOf, MountsKnown, MountsBut, Into;
      ghost var mounts := MountsOf(K());
      MountsAre(K(), mountpoint);
      var mnt := new Mount(mountpoint, root);
      root.parent := mountpoint;
      SetMount(mountpoint, mnt, K());
      MountsUpdated(K(), mounts, mountpoint, root);
      MountsClosed(K(), mounts, mountpoint, root);
    }

    // The root of a new tmpfs becomes known.
    ghost method AddRoot(v: Vnode)
      requires Valid() && IsNew(K(), v) && v.inode != null && v.inode.parent == null
      modifies this`nodes, this`chains
      ensures Valid() && View() == SetDir(old(View()), v, [], v) && nodes == old(nodes) + {v}
    {
      hide Linked, Chained, ViewOf, SetDir, MountsKnown, IsNew;
      RootAdded(K(), v);
      nodes, chains := nodes + {v}, chains[v.inode := []];
    }

    // So does that of another file system.
    ghost method AddForeignRoot(v: Vnode)
      requires Valid() && (v in nodes || IsForeignNew(K(), v))
      modifies this`nodes
      ensures Valid() && View() == WithRoot(old(View()), foreign, v) && nodes == old(nodes) + {v}
    {
      hide Linked, Chained, ViewOf, WithRoot, MountsKnown, IsForeignNew;
      ForeignRootAdded(K(), v);
      nodes := nodes + {v};
    }

    // The second half of vfs_mount: fs->mount, alloc_mount and the two assignments.
    method MountOn(mountpoint: Vnode, fs: Fs, granted: bool) returns (code: int, root: Vnode?)
      requires Valid() && mountpoint in nodes && !fs.Absent?
      requires fs.Foreign? && fs.made.Some? ==> fs.made.value in nodes || IsForeignNew(K(), fs.made.value)
      modifies this`nodes, this`chains, mountpoint`mountedHere
      modifies (if fs.Foreign? && fs.made.Some? then {fs.made.value} else {})`parent
      ensures Valid() && code == AttachCode(fs, granted)
      ensures View() == Attached(old(View()), foreign, mountpoint, fs, TmpfsDir.Made(root))
      ensures code == 0 <==> root != null
      ensures code == 0 ==> root.parent == mountpoint
      ensures code == 0 ==> if fs.Tmpfs? then fresh(root) else fs.made == TmpfsDir.Some(root)
      ensures nodes == old(nodes) + if code == 0 then {root} else {}
    {
      hide Linked, Chained, MountsKnown, View, Valid, AddMount, SetDir;
      root := null;
      var err, made := FsMount(fs);
      if err < 0 { return err, null; }
      if made == null { return -EINVAL, null; }
      if !granted { return -ENOMEM, null; }
      if fs.Tmpfs? { AddRoot(made); } else { AddForeignRoot(made); }
      Attach(mountpoint, made);
      return 0, made;
    }

    // vfs_mount; granted is the allocator's decision on the mount.
    method VfsMount(path: string, fs: Fs, granted: bool) returns (code: int, root: Vnode?)
      requires Valid() && '\0' !in path
      requires fs.Foreign? && fs.made.Some? ==> fs.made.value in nodes || IsForeignNew(K(), fs.made.value)
      modifies this`nodes, this`chains, nodes`mountedHere
      modifies (if fs.Foreign? && fs.made.Some? then {fs.made.value} else {})`parent
      ensures Valid() && code == MountCode(old(View()), path, fs, granted)
      ensures fs.Absent? ==> code == -ENODEV
      ensures !fs.Absent? && Lookup(old(View()), path).Err? ==> code == Lookup(old(View()), path).code
      ensures Lookup(old(View()), path).Ok? && fs.Tmpfs? ==>
        code == if fs.grantInode && fs.grantVnode && granted then 0 else -ENOMEM
      ensures Lookup(old(View()), path).Ok? && fs.Foreign? ==>
        code == if fs.err < 0 then fs.err else if fs.made.None? then -EINVAL else if granted then 0 else -ENOMEM
      ensures code == 0 <==> root != null
      ensures code != 0 ==> View() == old(View())
      ensures code == 0 ==>
        var m := Lookup(old(View()), path).value;
        root.parent == m && View() == Attached(old(View()), foreign, m, fs, TmpfsDir.Made(root))
      ensures code == 0 ==> if fs.Tmpfs? then fresh(root) else fs.made == TmpfsDir.Some(root)
      ensures nodes == old(nodes) + if code == 0 then {root} else {}
    {
      hide *;
      MountCodes(View(), path, fs, granted);
      if fs.Absent? { return -ENODEV, null; }
      var found := VfsLookup(path);
      if found.Err? { return found.code, null; }
      MadeNone();
      code, root := MountOn(found.value, fs, granted);
    }

    // Create a file in the directory that p resolves to.
    method CreateAt(p: string, name: string, grantInode: bool, grantVnode: bool, ghost d: Vnode)
      returns (code: int, made: Vnode?)
      requires Valid() && '\0' !in p && SimpleName(name) && |name| < TMPFS_MAX_NAME && !TmpfsDir.Special(name)
      requires Lookup(View(), p) == Ok(d) && d in nodes && d.tmpfsOps && d.inode != null
      modifies this`nodes, this`chains, d.inode`firstChild
      ensures Valid() && nodes == old(nodes) + if code == 0 then {made} else {}
      ensures code == if !d.isDir then -EINVAL
                      else if Lookup(old(View()), p + "/" + name).Ok? then -EEXIST
                      else if grantInode && grantVnode then 0 else -ENOMEM
      ensures code == 0 ==> made != null && fresh(made) && made.inode != null && fresh(made.inode)
      ensures code == 0 ==> TmpfsDir.NewFile(made, made.inode, d.inode)
      ensures code == 0 ==> var r := Lookup(View(), p + "/" + name); r.Ok? && r.value == made
      ensures code != 0 ==> View() == old(View())
    {
      hide *;
      var dir := VfsLookup(p);
      AtFacts(d);
      ghost var s, ns := At(K(), d), nodes;
      code, made := Create(dir.value, name, grantInode, grantVnode);
      CreateOutcome(s, d, d.isDir, name, made);
      ExistingFound(s, p, d, name, made);
      if code == 0 { CreatedAppears(s, ns, p, d, name, made); }
    }

    // ... and look it up again, as tests/test_tmpfs.c does.
    method CreateAndFind(p: string, name: string, grantInode: bool, grantVnode: bool, ghost d: Vnode)
      returns (code: int, made: Vnode?, found: Result<Vnode>)
      requires Valid() && '\0' !in p && '\0' !in name
      requires SimpleName(name) && |name| < TMPFS_MAX_NAME && !TmpfsDir.Special(name)
      requires Lookup(View(), p) == Ok(d) && d in nodes && d.tmpfsOps && d.inode != null
      modifies this`nodes, this`chains, d.inode`firstChild
      ensures Valid() && nodes == old(nodes) + if code == 0 then {made} else {}
      ensures code == if !d.isDir then -EINVAL
                      else if Lookup(old(View()), p + "/" + name).Ok? then -EEXIST
                      else if grantInode && grantVnode then 0 else -ENOMEM
      ensures found == Lookup(View(), p + "/" + name) && (code != 0 ==> View() == old(View()))
      ensures code == 0 ==> found.Ok? && found.value == made && fresh(made)
      ensures code == 0 ==> made.inode != null && fresh(made.inode) && TmpfsDir.NewFile(made, made.inode, d.inode)
    {
      hide *;
      code, made := CreateAt(p, name, grantInode, grantVnode, d);
      found := VfsLookup(p + "/" + name);
    }

    // Unlink name in d, which p resolves to and whose entries are es.
    method UnlinkAt(d: Vnode, name: string, ghost p: string, ghost es: seq<TmpfsDir.Entry>, ghost t: VTree)
      returns (code: int)
      requires Valid() && t == View() && SimpleName(name)
      requires Lookup(t, p) == Ok(d) && d in nodes && d.tmpfsOps && d.inode != null
      requires es == EntriesOf(K(), d) && TmpfsDir.DistinctNames(es)
      modifies this`chains, d.inode`firstChild, (set c | c in ChainOf(K(), d))`nextSibling
      ensures Valid() && nodes == old(nodes) && (code != 0 ==> View() == t)
      ensures code == if !d.isDir then -EINVAL
                      else if name == "." || name == ".." then -EPERM
                      else if Lookup(t, p + "/" + name).Err? then -ENOENT
                      else if HasBusy(es, name) then -ENOTEMPTY else 0
      ensures code == 0 && !Uses(t, Mounted(t, t.root), Components(p), d, name) ==>
        Lookup(View(), p + "/" + name) == Err(-ENOENT)
    {
      hide *;
      AtFacts(d);
      ghost var s := At(K(), d);
      assert s.entries == es;
      code := Unlink(d, name);
      UnlinkOutcome(s, p, d, d.isDir, name);
    }

    // Mount a tmpfs on p, which no mount covers yet, and look p and one more name up: the new root is found, and it is
    // empty.
    method MountAndFind(p: string, name: string, grantInode: bool, grantVnode: bool, granted: bool)
      returns (code: int, root: Vnode?, found: Result<Vnode>, inside: Result<Vnode>)
      requires Valid() && '\0' !in p && '\0' !in name && SimpleName(name) && Unmounted(View(), p)
      modifies this`nodes, this`chains, nodes`mountedHere
      ensures Valid() && code == if grantInode && grantVnode && granted then 0 else -ENOMEM
      ensures code == 0 ==> found.Ok? && found.value == root
      ensures code == 0 ==> if TmpfsDir.Special(name) then inside == found else inside == Err(-ENOENT)
    {
      hide *;
      KnownNodes();
      ghost var t, ns, fs := View(), nodes, Tmpfs(grantInode, grantVnode);
      MountCodeIs(t, p, grantInode, grantVnode, granted);
      code, root := VfsMount(p, Tmpfs(grantInode, grantVnode), granted);
      if code == 0 { MountAppears(t, foreign, ns, p, grantInode, grantVnode, root, name); }
      found := VfsLookup(p);
      inside := VfsLookup(p + "/" + name);
    }

    lemma KnownNodes()
      requires Valid()
      ensures Closed(View(), nodes)
    {
      ViewClosed(K());
    }

    lemma MissingIsRefused(p: string, d: Vnode, name: string)
      requires Valid() && Lookup(View(), p) == Ok(d) && d in nodes && d.tmpfsOps
      requires SimpleName(name) && name != "." && name != ".." && forall c :: c in ChainOf(K(), d) ==> c.name != name
      ensures Lookup(View(), p + "/" + name) == Err(-ENOENT)
    {
      NotHeld(K(), d, name);
      hide Lookup, Ask, Linked, MountsKnown, Chained, ViewOf, SimpleName;
      EntryIsFound(View(), p, d, name);
    }

    lemma AtFacts(d: Vnode)
      requires Valid() && d in nodes && d.tmpfsOps
      ensures Linked(K()) && K().nodes == nodes && At(K(), d).tree == View() && Closed(View(), nodes)
      ensures Shows(View(), d, At(K(), d).entries, At(K(), d).dotdot) && At(K(), d).entries == EntriesOf(K(), d)
    {
      AtShows(K(), d);
      ViewClosed(K());
    }
  }

  // p resolves, without following a mount at its end or meeting its result before.
  predicate Unmounted(t: VTree, p: string) {
    Lookup(t, p).Ok? && MetLast(t, p) && Walk(t, Mounted(t, t.root), Components(p)) == Lookup(t, p)
  }

  // The root is such a path until two mounts are stacked on it.
  lemma RootUnmounted(t: VTree)
    requires Mounted(t, t.root) !in t.mounts
    ensures Unmounted(t, "/")
  {
    assert Components("/") == [] by { assert "/"[1..] == ""; }
  }

  lemma MountCodeIs(t: VTree, p: string, grantInode: bool, grantVnode: bool, granted: bool)
    requires Unmounted(t, p)
    ensures MountCode(t, p, Tmpfs(grantInode, grantVnode), granted) ==
      if grantInode && grantVnode && granted then 0 else -ENOMEM
    ensures Lookup(t, p).Ok?
  {
  }

  lemma MountAppears(t: VTree, foreign: map<Vnode, map<string, Vnode>>, ns: set<Vnode>, p: string, grantInode: bool,
                     grantVnode: bool, v: Vnode, name: string)
    requires Closed(t, ns) && v !in ns && Unmounted(t, p) && SimpleName(name) && Lookup(t, p).Ok?
    ensures var u := Attached(t, foreign, Lookup(t, p).value, Tmpfs(grantInode, grantVnode), TmpfsDir.Made(v));
      && Lookup(u, p) == Ok(v)
      && Lookup(u, p + "/" + name) == if TmpfsDir.Special(name) then Ok(v) else Err(-ENOENT)
  {
    ClosedUnknown(t, ns, v);
    TmpfsIsMounted(t, p, v, name);
  }

  predicate HasBusy(es: seq<TmpfsDir.Entry>, name: string) {
    exists i :: 0 <= i < |es| && es[i].name == name && es[i].busy
  }

  lemma UnlinkOutcome(s: Snapshot, p: string, d: Vnode, isDir: bool, name: string)
    requires Lookup(s.tree, p) == Ok(d) && Shows(s.tree, d, s.entries, s.dotdot) && SimpleName(name)
    requires TmpfsDir.DistinctNames(s.entries)
    ensures var code, t := UnlinkCode(s, isDir, name), UnlinkTree(s, d, isDir, name);
      var before := Lookup(s.tree, p + "/" + name);
      && (code != 0 ==> t == s.tree)
      && code == (if !isDir then -EINVAL
                  else if name == "." || name == ".." then -EPERM
                  else if before.Err? then -ENOENT
                  else if HasBusy(s.entries, name) then -ENOTEMPTY else 0)
      && (code == 0 && !Uses(s.tree, Mounted(s.tree, s.tree.root), Components(p), d, name) ==>
          Lookup(t, p + "/" + name) == Err(-ENOENT))
  {
    EntryIsFound(s.tree, p, d, name);
    TmpfsDir.FindIsMap(s.entries, name);
    TmpfsDir.UnlinkRemoves(s.entries, name);
    assert HasBusy(s.entries, name) <==> exists e :: e in s.entries && e.name == name && e.busy;
    hide Lookup, SimpleName, TmpfsDir.DistinctNames, Uses, Components, TmpfsDir.Find, TmpfsDir.ToMap;
    if UnlinkCode(s, isDir, name) == 0 && !Uses(s.tree, Mounted(s.tree, s.tree.root), Components(p), d, name) {
      UnlinkedIsGone(s.tree, p, d, s.dotdot, s.entries, name, p);
    }
  }

  lemma CreateOutcome(s: Snapshot, d: Vnode, isDir: bool, name: string, v: Vnode?)
    ensures var made := TmpfsDir.Made(v); var code := CreateCode(s, isDir, name, made);
      && (if isDir then code in {0, -EEXIST, -ENOMEM} else code == -EINVAL)
      && 0 < ENOMEM < EEXIST < EINVAL && EINVAL != ENOMEM
      && (code != 0 ==> CreateTree(s, d, isDir, name, made) == s.tree)
      && (v != null ==> made == TmpfsDir.Some(v))
  {
  }

  lemma ExistingFound(s: Snapshot, p: string, d: Vnode, name: string, v: Vnode?)
    requires Lookup(s.tree, p) == Ok(d) && Shows(s.tree, d, s.entries, s.dotdot)
    requires SimpleName(name) && !TmpfsDir.Special(name)
    ensures CreateCode(s, true, name, TmpfsDir.Made(v)) == -EEXIST <==> Lookup(s.tree, p + "/" + name).Ok?
  {
    EntryIsFound(s.tree, p, d, name);
    TmpfsDir.FindIsMap(s.entries, name);
    hide Lookup, SimpleName;
  }

  lemma CreatedAppears(s: Snapshot, ns: set<Vnode>, p: string, d: Vnode, name: string, v: Vnode)
    requires Closed(s.tree, ns) && v !in ns && Lookup(s.tree, p) == Ok(d) && Shows(s.tree, d, s.entries, s.dotdot)
    requires SimpleName(name) && |name| < TMPFS_MAX_NAME && !TmpfsDir.Special(name)
    requires CreateCode(s, true, name, TmpfsDir.Some(v)) == 0
    ensures Lookup(CreateTree(s, d, true, name, TmpfsDir.Some(v)), p + "/" + name) == Ok(v)
  {
    ClosedUnknown(s.tree, ns, v);
    hide Lookup, Created, Shows, Closed, SimpleName;
    CreatedIsFound(s.tree, p, d, s.dotdot, s.entries, name, v, p);
  }

  ghost predicate Parsed(path: string, pos: nat, next: int, name: string)
    requires pos <= |path|
  {
    && (next == -1 ==> Components(path[pos..]) == [])
    && (next != -1 ==> pos < next <= |path| && Components(path[pos..]) == [CString(name)] + Components(path[next..]))
  }

  method ParseNext(path: string, pos: nat, name: array<char>) returns (next: int)
    requires pos <= |path| && '\0' !in path && name.Length == VFS_MAX_NAME + 1
    modifies name
    ensures Parsed(path, pos, next, name[..])
  {
    hide Components, CString;
    next := NextComponent(path, pos, name);
  }

  lemma ParsedWalk<V>(t: Tree<V>, current: V, path: string, pos: nat, next: int, name: string)
    requires pos <= |path| && Parsed(path, pos, next, name) && next != -1
    ensures pos < next <= |path|
    ensures Walk(t, current, Components(path[pos..])) ==
      var r := Step(t, current, CString(name)); if r.Err? then r else Walk(t, r.value, Components(path[next..]))
  {
    hide Components, CString;
    WalkCons(t, current, CString(name), Components(path[next..]));
  }

  lemma ParsedEnd<V>(t: Tree<V>, current: V, path: string, pos: nat, name: string)
    requires pos <= |path| && Parsed(path, pos, -1, name)
    ensures Walk(t, current, Components(path[pos..])) == Ok(current)
  {
  }
}
