/** Path walking and mounting: next_component, mounted_root, vfs_lookup and vfs_mount of kernel/fs/vfs.c. */
module VfsPath {
  import opened Vnodes
  import opened MemString
  import opened Sequences
  import opened Words

  // ----- a path as its components -----

  // The length of the leading run of characters other than '/'.
  function NameLength(path: string): (n: nat)
    ensures n <= |path| && (n < |path| ==> path[n] == '/')
    ensures forall i :: 0 <= i < n ==> path[i] != '/'
  {
    if path == "" || path[0] == '/' then 0 else 1 + NameLength(path[1..])
  }

  // name[] holds 255 characters.
  function Cut(name: string): string {
    if |name| <= VFS_MAX_NAME then name else name[..VFS_MAX_NAME]
  }

  // The non-empty '/'-separated components, each cut to 255 characters.
  function Components(path: string): seq<string>
    decreases |path|
  {
    if path == "" then []
    else if path[0] == '/' then Components(path[1..])
    else var n := NameLength(path); [Cut(path[..n])] + Components(path[n..])
  }

  predicate NoSlash(s: string) {
    '/' !in s
  }

  // ----- walking -----

  datatype Result<V> = Ok(value: V) | Err(code: int)

  // root_vnode, the mounted root of each vnode that has one, and the answers of each directory's lookup operation.
  datatype Tree<V(==)> = Tree(root: V, mounts: map<V, V>, dirs: map<V, map<string, V>>)

  function Mounted<V>(t: Tree<V>, v: V): V {
    if v in t.mounts then t.mounts[v] else v
  }

  // What directory d answers to one name.
  function Ask<V>(t: Tree<V>, d: V, name: string): (r: Result<V>)
    ensures r.Err? ==> r.code < 0
  {
    if d !in t.dirs then Err(-ENOTDIR)
    else if name !in t.dirs[d] then Err(-ENOENT)
    else Ok(t.dirs[d][name])
  }

  function Step<V>(t: Tree<V>, current: V, name: string): (r: Result<V>)
    ensures r.Err? ==> r.code < 0
  {
    Ask(t, Mounted(t, current), name)
  }

  function Walk<V>(t: Tree<V>, current: V, names: seq<string>): (r: Result<V>)
    ensures r.Err? ==> r.code < 0
  {
    if names == [] then Ok(current)
    else
      var r := Step(t, current, names[0]);
      if r.Err? then r else Walk(t, r.value, names[1..])
  }

  // vfs_lookup
  function Lookup<V>(t: Tree<V>, path: string): (r: Result<V>)
    ensures r.Err? ==> r.code < 0
  {
    if path == "" || path[0] != '/' then Err(-EINVAL)
    else Finish(t, Walk(t, Mounted(t, t.root), Components(path)))
  }

  function Finish<V>(t: Tree<V>, r: Result<V>): Result<V> {
    if r.Err? then r else Ok(Mounted(t, r.value))
  }

  // ----- laws of components -----

  lemma SkipSlash(path: string, p: nat)
    requires p < |path| && path[p] == '/'
    ensures Components(path[p..]) == Components(path[p+1..])
  {
    assert path[p..][1..] == path[p+1..];
  }

  lemma TakeName(path: string, p: nat, q: nat)
    requires p < q <= |path| && (q < |path| ==> path[q] == '/') && forall i :: p <= i < q ==> path[i] != '/'
    ensures Components(path[p..]) == [Cut(path[p..q])] + Components(path[q..])
  {
    NameLengthIs(path[p..], q - p);
    hide NameLength;
    assert path[p..][..q - p] == path[p..q] && path[p..][q - p..] == path[q..];
  }

  lemma SlashFirst(rest: string)
    ensures Components("/" + rest) == Components(rest)
  {
    assert ("/" + rest)[1..] == rest;
  }

  lemma NameFirst(name: string, rest: string)
    requires name != "" && NoSlash(name) && (rest != "" ==> rest[0] == '/')
    ensures Components(name + rest) == [Cut(name)] + Components(rest)
  {
    var path, n := name + rest, |name|;
    assert path[0..] == path && path[0..n] == name && path[n..] == rest;
    forall i | 0 <= i < n ensures path[i] != '/' { assert path[i] == name[i]; }
    hide Components, Cut;
    TakeName(path, 0, n);
  }

  lemma AppendSlash(p: string, q: string)
    requires Components(p + "/" + q) == Components(p) + Components(q)
    ensures Components(("/" + p) + "/" + q) == Components("/" + p) + Components(q)
  {
    hide Components;
    assert ("/" + p) + "/" + q == "/" + (p + "/" + q);
    SlashFirst(p);
    SlashFirst(p + "/" + q);
  }

  lemma AppendName(name: string, p: string, q: string)
    requires name != "" && NoSlash(name) && (p != "" ==> p[0] == '/')
    requires Components(p + "/" + q) == Components(p) + Components(q)
    ensures Components((name + p) + "/" + q) == Components(name + p) + Components(q)
  {
    hide Components, Cut;
    assert (name + p) + "/" + q == name + (p + "/" + q);
    NameFirst(name, p);
    NameFirst(name, p + "/" + q);
    Assoc([Cut(name)], Components(p), Components(q));
  }

  lemma {:induction false} ComponentsAppend(p: string, q: string)
    ensures Components(p + "/" + q) == Components(p) + Components(q)
    decreases |p|
  {
    var n := NameLength(p);
    assert Components("") == [] && (p != "" && p[0] != '/' ==> n > 0);
    hide Components, NameLength, Cut;
    if p == "" {
      assert "" + "/" + q == "/" + q;
      SlashFirst(q);
    } else if p[0] == '/' {
      ComponentsAppend(p[1..], q);
      AppendSlash(p[1..], q);
      assert "/" + p[1..] == p;
    } else {
      ComponentsAppend(p[n..], q);
      assert NoSlash(p[..n]) && (p[n..] != "" ==> p[n..][0] == '/');
      AppendName(p[..n], p[n..], q);
      assert p[..n] + p[n..] == p;
    }
  }

  lemma {:induction false} NameLengthIs(s: string, n: nat)
    requires n <= |s| && (n < |s| ==> s[n] == '/') && forall i :: 0 <= i < n ==> s[i] != '/'
    ensures NameLength(s) == n
  {
    if n > 0 { NameLengthIs(s[1..], n - 1); }
  }

  // Repeated and trailing slashes change nothing.
  lemma ComponentsSlashes(p: string, q: string)
    ensures Components(p + "/") == Components(p) && Components("/" + p) == Components(p)
    ensures Components(p + "//" + q) == Components(p + "/" + q)
  {
    assert Components("") == [];
    hide Components;
    ComponentsAppend(p, "");
    assert p + "/" + "" == p + "/";
    ComponentsAppend("", p);
    assert "" + "/" + p == "/" + p;
    DoubleSlash(p, q);
  }

  lemma DoubleSlash(p: string, q: string)
    ensures Components(p + "//" + q) == Components(p + "/" + q)
  {
    assert Components("") == [];
    hide Components;
    ComponentsAppend(p, "/" + q);
    assert p + "/" + ("/" + q) == p + "//" + q;
    ComponentsAppend("", q);
    assert "" + "/" + q == "/" + q;
    ComponentsAppend(p, q);
  }

  lemma SlashesDoNotMatter<V>(t: Tree<V>, p: string, q: string)
    requires p != "" && p[0] == '/'
    ensures Lookup(t, p + "/") == Lookup(t, p) && Lookup(t, "/" + p) == Lookup(t, p)
    ensures Lookup(t, p + "//" + q) == Lookup(t, p + "/" + q)
  {
    ComponentsSlashes(p, q);
    hide Components;
  }

  function Join(names: seq<string>): string {
    if names == [] then "" else "/" + names[0] + Join(names[1..])
  }

  // Every sequence of names that fit is the component sequence of the path that lists them.
  lemma {:induction false} ComponentsJoin(names: seq<string>)
    requires forall i :: 0 <= i < |names| ==> names[i] != "" && NoSlash(names[i]) && |names[i]| <= VFS_MAX_NAME
    ensures Components(Join(names)) == names
  {
    if names != [] {
      var name, rest := names[0], Join(names[1..]);
      ComponentsJoin(names[1..]);
      assert (rest != "" ==> rest[0] == '/') && Cut(name) == name;
      assert Join(names) == "/" + (name + rest) by { Assoc("/", name, rest); }
      hide Components, Join, Cut;
      SlashFirst(name + rest);
      NameFirst(name, rest);
    }
  }

  // ----- walking composes -----

  lemma {:induction false} WalkAppend<V>(t: Tree<V>, current: V, a: seq<string>, b: seq<string>)
    ensures Walk(t, current, a + b) == (var r := Walk(t, current, a); if r.Err? then r else Walk(t, r.value, b))
  {
    if a == [] {
      assert a + b == b;
    } else {
      var r := Step(t, current, a[0]);
      assert (a + b)[1..] == a[1..] + b;
      if r.Ok? { WalkAppend(t, r.value, a[1..], b); }
    }
  }

  // vs are the vnodes that the names lead through, from the mounted root on: the mount on each, if any, is a directory
  // that has the next one under the next name.
  ghost predicate Trail<V>(t: Tree<V>, names: seq<string>, vs: seq<V>) {
    && |vs| == |names| + 1 && vs[0] == (if t.root in t.mounts then t.mounts[t.root] else t.root)
    && forall k :: 0 <= k < |names| ==> Leads(t, vs[k], names[k], vs[k+1])
  }

  predicate Leads<V(==)>(t: Tree<V>, v: V, name: string, w: V) {
    var d := if v in t.mounts then t.mounts[v] else v;
    d in t.dirs && name in t.dirs[d] && t.dirs[d][name] == w
  }

  // The walk gets to the last of vs, which is then asked for the next name.
  ghost predicate TrailTo<V>(t: Tree<V>, names: seq<string>, vs: seq<V>) {
    0 < |vs| <= |names| && Trail(t, names[..|vs|-1], vs)
  }

  lemma {:induction false} WalkFollows<V>(t: Tree<V>, names: seq<string>, vs: seq<V>)
    requires Trail(t, names, vs)
    ensures Walk(t, Mounted(t, t.root), names) == Ok(vs[|names|])
  {
    if names != [] {
      var k := |names| - 1;
      WalkFollows(t, names[..k], vs[..k+1]);
      WalkOne(t, names, k);
      assert Leads(t, vs[k], names[k], vs[k+1]);
    }
  }

  lemma WalkOne<V>(t: Tree<V>, names: seq<string>, k: nat)
    requires |names| == k + 1
    ensures var r := Walk(t, Mounted(t, t.root), names[..k]);
      Walk(t, Mounted(t, t.root), names) == if r.Err? then r else Step(t, r.value, names[k])
  {
    assert names == names[..k] + [names[k]];
    WalkAppend(t, Mounted(t, t.root), names[..k], [names[k]]);
  }

  // Either there is a trail to the end, or one to a vnode that does not have the next name.
  lemma {:induction false} WalkTrail<V>(t: Tree<V>, names: seq<string>) returns (vs: seq<V>)
    ensures var r := Walk(t, Mounted(t, t.root), names);
      if r.Ok? then Trail(t, names, vs) && vs[|names|] == r.value
      else TrailTo(t, names, vs) && r == Step(t, vs[|vs|-1], names[|vs|-1])
  {
    if names == [] {
      vs := [Mounted(t, t.root)];
    } else {
      var k := |names| - 1;
      vs := WalkTrail(t, names[..k]);
      WalkOne(t, names, k);
      var r, q := Walk(t, Mounted(t, t.root), names), Walk(t, Mounted(t, t.root), names[..k]);
      if r.Ok? {
        assert Leads(t, q.value, names[k], r.value);
        vs := vs + [r.value];
      } else if q.Err? {
        assert names[..k][..|vs|-1] == names[..|vs|-1];
      }
    }
  }

  // A walk that gets stuck there fails as that step does.
  lemma StuckFails<V>(t: Tree<V>, names: seq<string>, vs: seq<V>)
    requires TrailTo(t, names, vs) && Step(t, vs[|vs|-1], names[|vs|-1]).Err?
    ensures Walk(t, Mounted(t, t.root), names) == Step(t, vs[|vs|-1], names[|vs|-1])
  {
    var k := |vs| - 1;
    WalkFollows(t, names[..k], vs);
    assert names == names[..k] + names[k..] && names[k..][0] == names[k];
    WalkAppend(t, Mounted(t, t.root), names[..k], names[k..]);
  }

  // Which paths resolve, and to what, and which of the three errors the others get.
  lemma LookupDecides<V>(t: Tree<V>, path: string)
    ensures var names, r := Components(path), Lookup(t, path);
      && (r == Err(-EINVAL) <==> !(path != "" && path[0] == '/'))
      && (path != "" && path[0] == '/' ==>
          && (r == Err(-ENOTDIR) <==> exists vs :: TrailTo(t, names, vs) && NoDirectory(t, vs[|vs|-1]))
          && (r == Err(-ENOENT) <==> exists vs :: TrailTo(t, names, vs) && NoEntry(t, vs[|vs|-1], names[|vs|-1]))
          && (r.Ok? <==> exists vs :: Trail(t, names, vs)))
  {
    var names := Components(path);
    hide Components;
    var vs := WalkTrail(t, names);
    forall us | TrailTo(t, names, us) && NoDirectory(t, us[|us|-1])
      ensures Walk(t, Mounted(t, t.root), names) == Err(-ENOTDIR)
    {
      StuckFails(t, names, us);
    }
    forall us | TrailTo(t, names, us) && NoEntry(t, us[|us|-1], names[|us|-1])
      ensures Walk(t, Mounted(t, t.root), names) == Err(-ENOENT)
    {
      StuckFails(t, names, us);
    }
    forall us | Trail(t, names, us) ensures Walk(t, Mounted(t, t.root), names).Ok? { WalkFollows(t, names, us); }
    hide Walk, Trail, TrailTo;
  }

  // ... and a path that resolves leads to the end of its trail, or to the mount there.
  lemma LookupFollows<V>(t: Tree<V>, path: string, vs: seq<V>)
    requires path != "" && path[0] == '/' && Trail(t, Components(path), vs)
    ensures var v := vs[|vs|-1]; Lookup(t, path) == Ok(if v in t.mounts then t.mounts[v] else v)
  {
    WalkFollows(t, Components(path), vs);
  }

  predicate NoDirectory<V>(t: Tree<V>, v: V) {
    (if v in t.mounts then t.mounts[v] else v) !in t.dirs
  }

  predicate NoEntry<V>(t: Tree<V>, v: V, name: string) {
    var d := if v in t.mounts then t.mounts[v] else v;
    d in t.dirs && name !in t.dirs[d]
  }

  // A component counts with its first 255 characters only.
  lemma LongNameIsCut<V>(t: Tree<V>, p: string, name: string)
    requires p != "" && p[0] == '/' && NoSlash(name) && |name| > 255
    ensures Lookup(t, p + "/" + name) == Lookup(t, p + "/" + name[..255])
  {
    ComponentsAppend(p, name);
    ComponentsAppend(p, name[..255]);
    NameFirst(name, "");
    NameFirst(name[..255], "");
    assert name + "" == name && name[..255] + "" == name[..255];
  }

  // What names resolve to below a vnode that vfs_lookup has returned: the first one is asked of that vnode itself,
  // whatever is mounted on it.
  function Below<V>(t: Tree<V>, d: V, names: seq<string>): Result<V> {
    if names == [] then Ok(d)
    else
      var r := Ask(t, d, names[0]);
      if r.Err? then r else Finish(t, Walk(t, r.value, names[1..]))
  }

  // Walking p and then q: vfs_lookup of the joined path goes on below the result for p.
  lemma LookupComposes<V>(t: Tree<V>, p: string, q: string)
    requires p != "" && p[0] == '/'
    ensures Lookup(t, p + "/" + q) ==
      if Lookup(t, p).Err? then Lookup(t, p) else Below(t, Lookup(t, p).value, Components(q))
  {
    ComponentsAppend(p, q);
    hide Components, Ask;
    WalkAppend(t, Mounted(t, t.root), Components(p), Components(q));
  }

  // Where nothing is mounted on that vnode this is the walk itself.
  lemma BelowIsWalk<V>(t: Tree<V>, d: V, names: seq<string>)
    requires d !in t.mounts
    ensures Below(t, d, names) == Finish(t, Walk(t, d, names))
  {
  }

  // ----- mounting -----

  function AddMount<V>(t: Tree<V>, m: V, root: V): Tree<V> {
    t.(mounts := t.mounts[m := root])
  }

  // The walk asks for the mount of m at some point, or at some point before its end.
  predicate Visits<V(==)>(t: Tree<V>, current: V, names: seq<string>, m: V) {
    || current == m
    || (names != [] && Step(t, current, names[0]).Ok?
        && Visits(t, Step(t, current, names[0]).value, names[1..], m))
  }

  predicate VisitsEarly<V(==)>(t: Tree<V>, current: V, names: seq<string>, m: V) {
    names != [] && (
      || current == m
      || (Step(t, current, names[0]).Ok? && VisitsEarly(t, Step(t, current, names[0]).value, names[1..], m)))
  }

  lemma {:induction false} WalkUnaffected<V>(t: Tree<V>, current: V, names: seq<string>, m: V, root: V)
    requires !VisitsEarly(t, current, names, m)
    ensures Walk(AddMount(t, m, root), current, names) == Walk(t, current, names)
  {
    if names != [] && Step(t, current, names[0]).Ok? {
      WalkUnaffected(t, Step(t, current, names[0]).value, names[1..], m, root);
    }
  }

  lemma {:induction false} EarlyOrLast<V>(t: Tree<V>, current: V, names: seq<string>, m: V)
    requires !Visits(t, current, names, m)
    ensures !VisitsEarly(t, current, names, m) && (Walk(t, current, names).Ok? ==> Walk(t, current, names).value != m)
  {
    if names != [] && Step(t, current, names[0]).Ok? {
      EarlyOrLast(t, Step(t, current, names[0]).value, names[1..], m);
    }
  }

  // Locality: a path whose walk never meets the mountpoint resolves as before.
  lemma MountIsLocal<V>(t: Tree<V>, m: V, root: V, path: string)
    requires t.root != m && !Visits(t, Mounted(t, t.root), Components(path), m)
    ensures Lookup(AddMount(t, m, root), path) == Lookup(t, path)
  {
    var start, names := Mounted(t, t.root), Components(path);
    EarlyOrLast(t, start, names, m);
    WalkUnaffected(t, start, names, m, root);
  }

  // Visibility: mounting a fresh root on what p resolves to, met only at the end of the walk, makes p resolve to that
  // root exactly when the mountpoint was not itself reached by following a mount.
  lemma MountIsVisible<V>(t: Tree<V>, p: string, root: V)
    requires Lookup(t, p).Ok?
    requires var m := Lookup(t, p).value;
      && root !in t.mounts && root != m
      && !VisitsEarly(t, Mounted(t, t.root), Components(p), m)
      && (m == t.root ==> Components(p) == [] && t.root !in t.mounts)
    ensures var m := Lookup(t, p).value;
      Lookup(AddMount(t, m, root), p) == Ok(root) <==> Walk(t, Mounted(t, t.root), Components(p)) == Ok(m)
  {
    var m, start := Lookup(t, p).value, Mounted(t, t.root);
    WalkUnaffected(t, start, Components(p), m, root);
  }

  // ... and then everything below p resolves inside the new root.
  lemma MountIsEntered<V>(t: Tree<V>, p: string, root: V, q: string)
    requires Lookup(t, p).Ok?
    requires var m := Lookup(t, p).value;
      && root !in t.mounts && root != m
      && !VisitsEarly(t, Mounted(t, t.root), Components(p), m)
      && (m == t.root ==> Components(p) == [] && t.root !in t.mounts)
      && Walk(t, Mounted(t, t.root), Components(p)) == Ok(m)
    ensures var t' := AddMount(t, Lookup(t, p).value, root);
      Lookup(t', p + "/" + q) == Finish(t', Walk(t', root, Components(q)))
  {
    MountIsVisible(t, p, root);
    LookupComposes(AddMount(t, Lookup(t, p).value, root), p, q);
    BelowIsWalk(AddMount(t, Lookup(t, p).value, root), root, Components(q));
  }

  // A second mount on the same path is not seen: the walk follows one mount only.
  lemma SecondMountIsHidden<V>(t: Tree<V>, p: string, root: V)
    requires Lookup(t, p).Ok? && Components(p) != []
    requires var m := Lookup(t, p).value;
      root != m && m != t.root && !VisitsEarly(t, Mounted(t, t.root), Components(p), m)
    requires Walk(t, Mounted(t, t.root), Components(p)).value != Lookup(t, p).value
    ensures Lookup(AddMount(t, Lookup(t, p).value, root), p) == Lookup(t, p)
  {
    WalkUnaffected(t, Mounted(t, t.root), Components(p), Lookup(t, p).value, root);
  }

  // ----- the code -----

  // path is a C string: its end stands for the terminating NUL.  The result is the position after the component, or
  // -1 for NULL; the component is left in name as a C string.
  method NextComponent(path: string, pos: nat, name: array<char>) returns (next: int)
    requires pos <= |path| && '\0' !in path && name.Length == VFS_MAX_NAME + 1
    modifies name
    ensures next == -1 <==> Components(path[pos..]) == []
    ensures next != -1 ==> pos < next <= |path| && Terminated(name[..])
    ensures next != -1 ==> Components(path[pos..]) == [CString(name[..])] + Components(path[next..])
  {
    var p := pos;
    assert Components("") == [] && path[|path|..] == "";
    hide Components, Cut, CString;
    while p < |path| && path[p] == '/'
      invariant pos <= p <= |path| && Components(path[pos..]) == Components(path[p..])
    {
      SkipSlash(path, p);
      p := p + 1;
    }
    if p == |path| { return -1; }
    next := CopyName(path, p, name);
    TakeName(path, p, next);
  }

  // The second loop: the characters up to the next slash, as many as fit.
  method CopyName(path: string, start: nat, name: array<char>) returns (p: nat)
    requires start < |path| && path[start] != '/' && '\0' !in path && name.Length == VFS_MAX_NAME + 1
    modifies name
    ensures start < p <= |path| && (p < |path| ==> path[p] == '/') && forall i :: start <= i < p ==> path[i] != '/'
    ensures Terminated(name[..]) && CString(name[..]) == Cut(path[start..p])
  {
    var len := 0;
    p := start;
    while p < |path| && path[p] != '/'
      invariant start <= p <= |path| && forall i :: start <= i < p ==> path[i] != '/'
      invariant len == if p - start < VFS_MAX_NAME then p - start else VFS_MAX_NAME
      invariant forall i :: 0 <= i < len ==> name[i] == path[start + i]
    {
      if len < VFS_MAX_NAME {
        name[len] := path[p];
        len := len + 1;
      }
      p := p + 1;
    }
    name[len] := '\0';
    hide CString, Cut;
    CutIs(path, start, p, name[..], len);
  }

  // The buffer holds the component, cut where it is full.
  lemma CutIs(path: string, p: nat, q: nat, b: string, len: nat)
    requires p <= q <= |path| && '\0' !in path && len == (if q - p < VFS_MAX_NAME then q - p else VFS_MAX_NAME) < |b|
    requires b[len] == '\0' && forall i :: 0 <= i < len ==> b[i] == path[p + i]
    ensures Terminated(b) && CString(b) == Cut(path[p..q])
  {
    CStringLength(b);
    assert |CString(b)| == len;
    hide CString;
    var name := path[p..q];
    assert Cut(name) == name[..len];
    forall i | 0 <= i < len ensures b[..len][i] == name[..len][i] {}
    assert b[..len] == name[..len];
  }

  lemma WalkCons<V>(t: Tree<V>, current: V, name: string, rest: seq<string>)
    ensures Walk(t, current, [name] + rest) ==
      var r := Step(t, current, name); if r.Err? then r else Walk(t, r.value, rest)
  {
    assert ([name] + rest)[1..] == rest;
  }
}
