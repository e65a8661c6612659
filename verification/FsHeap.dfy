/** The heap behind the tree that paths are walked in: which vnodes and tmpfs inodes are known, and what creating a
    file, unlinking one and mounting do to it. */
module FsHeap {
  import opened Vnodes
  import opened VfsPath
  import opened VfsTmpfs
  import TmpfsDir

  // The vnodes known so far, and the tmpfs inodes, each with its children; foreign is what the directories of other
  // file systems answer.
  datatype Known = Known(
    root: Vnode, foreign: map<Vnode, map<string, Vnode>>, nodes: set<Vnode>, chains: map<Inode, seq<Inode>>)

  // Vnodes and inodes name each other, and lead to known ones only.
  ghost predicate Linked(k: Known)
    reads k.nodes`inode, k.nodes`tmpfsOps, k.chains.Keys`vnode, k.chains.Keys`parent
  {
    && k.root in k.nodes
    && (forall v :: v in k.nodes && v.tmpfsOps ==> v.inode != null)
    && (forall v, n :: v in k.foreign && n in k.foreign[v] ==> k.foreign[v][n] in k.nodes)
    && (forall v :: v in k.nodes && v.inode != null ==> v.inode in k.chains && v.inode.vnode == v)
    && (forall i :: i in k.chains ==> i.vnode != null && i.vnode in k.nodes && i.vnode.inode == i)
    && (forall i :: i in k.chains && i.parent != null ==> i.parent in k.chains)
    && (forall i, c :: i in k.chains && c in k.chains[i] ==> c in k.chains && c.parent == i)
  }

  // So do mounts.
  ghost predicate MountsKnown(k: Known)
    reads k.nodes`mountedHere
  {
    forall v :: v in k.nodes && v.mountedHere != null ==> v.mountedHere.root in k.nodes
  }

  // The sibling chains are those sequences.
  ghost predicate Chained(k: Known)
    reads k.chains.Keys`firstChild, k.chains.Keys`nextSibling, k.chains.Keys`vnode
  {
    && (forall i, c :: i in k.chains && c in k.chains[i] ==> c in k.chains)
    && (forall i :: i in k.chains ==> TmpfsDir.ValidDir(i, k.chains[i]))
  }

  ghost function ChainOf(k: Known, v: Vnode): seq<Inode>
    reads v`inode
  {
    if v.inode != null && v.inode in k.chains then k.chains[v.inode] else []
  }

  // What tmpfs_lookup answers on v.
  ghost function AnswersOf(k: Known, v: Vnode): map<string, Vnode>
    requires Linked(k) && v in k.nodes && v.tmpfsOps
    reads k.nodes`inode, k.nodes`tmpfsOps
    reads k.chains.Keys`vnode, k.chains.Keys`parent, k.chains.Keys`name
  {
    TmpfsDir.Named(ChainOf(k, v))["." := v][".." := TmpfsDir.DotDot(v)]
  }

  ghost predicate IsDir(k: Known, v: Vnode)
    reads v`tmpfsOps
  {
    v in k.nodes && (v.tmpfsOps || v in k.foreign)
  }

  // What the lookup operation of v answers.
  ghost function DirOf(k: Known, v: Vnode): map<string, Vnode>
    requires Linked(k) && IsDir(k, v)
    reads k.nodes`inode, k.nodes`tmpfsOps
    reads k.chains.Keys`vnode, k.chains.Keys`parent, k.chains.Keys`name
  {
    if v.tmpfsOps then AnswersOf(k, v) else k.foreign[v]
  }

  ghost function MountsOf(k: Known): map<Vnode, Vnode>
    reads k.nodes`mountedHere
  {
    map v | v in k.nodes && v.mountedHere != null :: v.mountedHere.root
  }

  ghost function DirsOf(k: Known): map<Vnode, map<string, Vnode>>
    requires Linked(k)
    reads k.nodes`inode, k.nodes`tmpfsOps
    reads k.chains.Keys`vnode, k.chains.Keys`parent, k.chains.Keys`name
  {
    map v | v in k.nodes && IsDir(k, v) :: DirOf(k, v)
  }

  ghost function ViewOf(k: Known): VTree
    requires Linked(k)
    reads k.nodes`mountedHere, k.nodes`inode, k.nodes`tmpfsOps
    reads k.chains.Keys`vnode, k.chains.Keys`parent, k.chains.Keys`name
  {
    Tree(k.root, MountsOf(k), DirsOf(k))
  }

  ghost function EntriesOf(k: Known, v: Vnode): seq<TmpfsDir.Entry>
    requires Linked(k)
    reads v`inode, k.nodes`mountedHere, k.nodes`inode, k.nodes`tmpfsOps
    reads k.chains.Keys`vnode, k.chains.Keys`parent, ChainOf(k, v)
  {
    TmpfsDir.Entries(ChainOf(k, v))
  }

  ghost function DotDotOf(k: Known, v: Vnode): Vnode
    requires Linked(k) && v in k.nodes && v.tmpfsOps
    reads k.nodes`inode, k.nodes`tmpfsOps, k.chains.Keys`vnode, k.chains.Keys`parent
  {
    TmpfsDir.DotDot(v)
  }

  // A tmpfs directory answers as its entries do.
  lemma AnswersAre(k: Known, v: Vnode)
    requires Linked(k) && v in k.nodes && v.tmpfsOps
    ensures AnswersOf(k, v) == TmpfsDir.Answers(EntriesOf(k, v), v, DotDotOf(k, v))
    ensures DotDotOf(k, v) in k.nodes && forall c :: c in ChainOf(k, v) ==> c.vnode != null && c.vnode in k.nodes
  {
    TmpfsDir.NamedIs(ChainOf(k, v));
  }

  lemma AnswersAsked(k: Known, d: Vnode, n: string)
    requires Linked(k) && d in k.nodes && d.tmpfsOps
    ensures var m := TmpfsDir.Answers(EntriesOf(k, d), d, DotDotOf(k, d));
      Ask(ViewOf(k), d, n) == (if n in m then Ok(m[n]) else Err(-ENOENT)) && (n in m ==> m[n] in k.nodes)
  {
    AnswersAre(k, d);
    AnswerKnown(k, d, n);
    hide Linked, AnswersOf, TmpfsDir.Answers, EntriesOf, DotDotOf, MountsOf;
    assert DirsOf(k)[d] == AnswersOf(k, d);
  }

  // A name that no child has.
  lemma NotHeld(k: Known, d: Vnode, n: string)
    requires Linked(k) && d in k.nodes && d.tmpfsOps
    requires n != "." && n != ".." && forall c :: c in ChainOf(k, d) ==> c.name != n
    ensures Ask(ViewOf(k), d, n) == Err(-ENOENT)
  {
    AnswersAre(k, d);
    TmpfsDir.NotNamed(ChainOf(k, d), n);
    hide Linked, Ask, ViewOf, TmpfsDir.Entries, TmpfsDir.ToMap, DotDotOf, ChainOf;
    AnswersAsked(k, d, n);
  }

  // What tmpfs_lookup computes is what the tree answers.
  lemma LookupFacts(k: Known, d: Vnode, n: string)
    requires Linked(k) && Chained(k) && d in k.nodes && d.tmpfsOps
    ensures d.inode != null && TmpfsDir.ValidDir(d.inode, ChainOf(k, d))
    ensures d.inode.parent != null ==> d.inode.parent.vnode != null
    ensures var o := TmpfsDir.Lookup(TmpfsDir.Entries(ChainOf(k, d)), d, TmpfsDir.DotDot(d), n).result;
      && Ask(ViewOf(k), d, n) == (if o.Some? then Ok(o.value) else Err(-ENOENT))
      && (o.Some? ==> o.value in k.nodes)
  {
    AnswersAsked(k, d, n);
    TmpfsDir.LookupAnswers(EntriesOf(k, d), d, DotDotOf(k, d), n);
    hide Ask, ViewOf, TmpfsDir.Answers, TmpfsDir.Lookup;
  }

  // The tree speaks of known vnodes only.
  ghost predicate Closed(t: VTree, ns: set<Vnode>) {
    && t.root in ns && t.dirs.Keys <= ns && t.mounts.Keys <= ns
    && (forall m :: m in t.mounts ==> t.mounts[m] in ns)
    && (forall d, n :: d in t.dirs && n in t.dirs[d] ==> t.dirs[d][n] in ns)
  }

  lemma ClosedUnknown(t: VTree, ns: set<Vnode>, v: Vnode)
    requires Closed(t, ns) && v !in ns
    ensures Unknown(t, v)
  {
  }

  lemma AnswerKnown(k: Known, d: Vnode, n: string)
    requires Linked(k) && d in k.nodes && d.tmpfsOps
    ensures n in AnswersOf(k, d) ==> AnswersOf(k, d)[n] in k.nodes
  {
    AnswersAre(k, d);
    var es := EntriesOf(k, d);
    TmpfsDir.FindIsMap(es, n);
    if TmpfsDir.Find(es, n) < |es| { assert ChainOf(k, d)[TmpfsDir.Find(es, n)] in ChainOf(k, d); }
  }

  lemma ViewClosed(k: Known)
    requires Linked(k) && MountsKnown(k)
    ensures Closed(ViewOf(k), k.nodes)
  {
    var t := ViewOf(k);
    forall d, n | d in t.dirs && n in t.dirs[d] ensures t.dirs[d][n] in k.nodes {
      if d.tmpfsOps { AnswerKnown(k, d, n); }
    }
  }

  // ----- what stays -----

  // Answers depend on the chain only.
  lemma SameDir(k: Known, l: Known, w: Vnode)
    requires Linked(k) && Linked(l) && w in k.nodes && w in l.nodes
    requires ChainOf(l, w) == ChainOf(k, w) && l.foreign == k.foreign
    ensures IsDir(l, w) <==> IsDir(k, w)
    ensures IsDir(k, w) ==> DirOf(l, w) == DirOf(k, w)
  {
  }

  ghost predicate SameChains(k: Known, l: Known, v: Vnode)
    reads k.nodes`inode
  {
    && k.nodes <= l.nodes && l.foreign == k.foreign
    && forall w :: w in k.nodes && w != v ==> ChainOf(l, w) == ChainOf(k, w)
  }

  lemma SameDirs(k: Known, l: Known, v: Vnode)
    requires Linked(k) && Linked(l) && SameChains(k, l, v)
    ensures forall x :: x in k.nodes && x != v ==>
      (IsDir(l, x) <==> IsDir(k, x)) && (IsDir(k, x) ==> DirOf(l, x) == DirOf(k, x))
  {
    hide Linked, IsDir, DirOf, ChainOf;
    forall x | x in k.nodes && x != v
      ensures (IsDir(l, x) <==> IsDir(k, x)) && (IsDir(k, x) ==> DirOf(l, x) == DirOf(k, x))
    {
      SameDir(k, l, x);
    }
  }

  lemma MountsSame(k: Known, l: Known, v: Vnode)
    requires l.nodes == k.nodes + {v} && (v in k.nodes || v.mountedHere == null)
    ensures MountsOf(l) == MountsOf(k)
  {
  }

  lemma DirsUpdated(k: Known, l: Known, v: Vnode)
    requires Linked(k) && Linked(l) && SameChains(k, l, v) && l.nodes == k.nodes + {v} && v.tmpfsOps
    ensures IsDir(l, v) && DirsOf(l) == DirsOf(k)[v := DirOf(l, v)]
  {
    SameDirs(k, l, v);
    assert IsDir(l, v) && (v in k.nodes ==> IsDir(k, v));
    hide Linked, SameChains, DirOf, IsDir;
  }

  // One tmpfs directory answers something else, or is new.
  lemma ViewUpdated(k: Known, l: Known, v: Vnode)
    requires Linked(k) && Linked(l) && SameChains(k, l, v) && l.root == k.root && l.nodes == k.nodes + {v}
    requires v.tmpfsOps && (v in k.nodes || v.mountedHere == null)
    ensures ViewOf(l) == SetDir(ViewOf(k), v, EntriesOf(l, v), DotDotOf(l, v))
  {
    MountsSame(k, l, v);
    DirsUpdated(k, l, v);
    AnswersAre(l, v);
    assert DirOf(l, v) == AnswersOf(l, v);
    hide Linked, SameChains, DirOf, IsDir, AnswersOf, EntriesOf, DotDotOf, TmpfsDir.Answers, MountsOf, DirsOf;
  }

  // ----- a vnode more -----

  // v is a new tmpfs vnode without children.
  ghost predicate IsNew(k: Known, v: Vnode)
    reads v, v.inode
  {
    && v !in k.nodes && v.tmpfsOps && v.mountedHere == null
    && v.inode != null && v.inode !in k.chains && v.inode.vnode == v && v.inode.firstChild == null
    && (v.inode.parent != null ==> v.inode.parent in k.chains)
  }

  ghost function WithNew(k: Known, v: Vnode): Known
    requires v.inode != null
    reads v`inode
  {
    k.(nodes := k.nodes + {v}, chains := k.chains[v.inode := []])
  }

  lemma NewLinked(k: Known, v: Vnode)
    requires Linked(k) && IsNew(k, v)
    ensures Linked(WithNew(k, v)) && SameChains(k, WithNew(k, v), v) && ChainOf(WithNew(k, v), v) == []
  {
  }

  lemma NewAdded(k: Known, v: Vnode)
    requires Linked(k) && IsNew(k, v)
    ensures Linked(WithNew(k, v))
    ensures ViewOf(WithNew(k, v)) == SetDir(ViewOf(k), v, [], DotDotOf(WithNew(k, v), v))
  {
    NewLinked(k, v);
    assert EntriesOf(WithNew(k, v), v) == [];
    hide Linked, SameChains, EntriesOf, DotDotOf, ViewOf, SetDir;
    ViewUpdated(k, WithNew(k, v), v);
  }

  // ----- another chain -----

  // after are children of dirv.
  ghost predicate Children(k: Known, dirv: Vnode, after: seq<Inode>)
    reads dirv`inode, dirv`tmpfsOps, after`parent
  {
    && dirv in k.nodes && dirv.tmpfsOps && dirv.inode != null
    && forall c :: c in after ==> c in k.chains && c.parent == dirv.inode
  }

  ghost function WithChain(k: Known, dirv: Vnode, after: seq<Inode>): Known
    requires dirv.inode != null
    reads dirv`inode
  {
    k.(chains := k.chains[dirv.inode := after])
  }

  lemma ChainLinked(k: Known, dirv: Vnode, after: seq<Inode>)
    requires Linked(k) && Children(k, dirv, after)
    ensures Linked(WithChain(k, dirv, after)) && SameChains(k, WithChain(k, dirv, after), dirv)
    ensures ChainOf(WithChain(k, dirv, after), dirv) == after && forall c :: c in after ==> c.vnode != null
  {
  }

  lemma ChainReplaced(k: Known, dirv: Vnode, after: seq<Inode>)
    requires Linked(k) && Children(k, dirv, after)
    ensures Linked(WithChain(k, dirv, after)) && forall c :: c in after ==> c.vnode != null
    ensures ViewOf(WithChain(k, dirv, after)) ==
      SetDir(ViewOf(k), dirv, TmpfsDir.Entries(after), DotDotOf(k, dirv))
  {
    var l := WithChain(k, dirv, after);
    ChainLinked(k, dirv, after);
    assert EntriesOf(l, dirv) == TmpfsDir.Entries(after) && DotDotOf(l, dirv) == DotDotOf(k, dirv);
    assert l.nodes == k.nodes + {dirv};
    hide Linked, SameChains, EntriesOf, DotDotOf, ViewOf, SetDir;
    ViewUpdated(k, l, dirv);
  }

  // ----- what an operation on one directory leaves in order -----

  ghost function Others(k: Known, dir: Inode?): set<Inode> {
    set i | i in k.chains && i != dir
  }

  ghost function Elsewhere(k: Known, dir: Inode?): set<Inode> {
    set c | c in k.chains && (dir != null && dir in k.chains ==> c !in k.chains[dir])
  }

  lemma OthersElsewhere(k: Known, v: Vnode)
    requires Linked(k) && v in k.nodes && v.tmpfsOps
    ensures forall i, c :: i in Others(k, v.inode) && c in k.chains[i] ==> c in Elsewhere(k, v.inode)
  {
    forall i, c | i in Others(k, v.inode) && c in k.chains[i] ensures c !in k.chains[v.inode] {
      assert c.parent == i;
    }
  }

  lemma FrameFacts(k: Known, dirv: Vnode)
    requires Linked(k) && dirv in k.nodes && dirv.tmpfsOps
    ensures dirv.inode != null && dirv.inode !in Others(k, dirv.inode)
    ensures forall c :: c in Elsewhere(k, dirv.inode) ==> c !in ChainOf(k, dirv)
    ensures Others(k, dirv.inode) <= k.chains.Keys && Elsewhere(k, dirv.inode) <= k.chains.Keys
  {
  }

  // The inodes other than that of v have the children they should.
  ghost predicate ChainsOk(k: Known, v: Vnode)
    requires Linked(k) && v in k.nodes && v.tmpfsOps
    reads k.nodes`inode, k.nodes`tmpfsOps, k.chains.Keys`vnode, k.chains.Keys`parent
    reads Others(k, v.inode)`firstChild, Elsewhere(k, v.inode)`nextSibling
  {
    OthersElsewhere(k, v);
    forall i :: i in Others(k, v.inode) ==> TmpfsDir.ValidDir(i, k.chains[i])
  }

  lemma ChainedIs(k: Known, v: Vnode)
    requires Linked(k) && v in k.nodes && v.tmpfsOps
    ensures Chained(k) <==> TmpfsDir.ValidDir(v.inode, ChainOf(k, v)) && ChainsOk(k, v)
  {
  }

  lemma ChainChained(k: Known, dirv: Vnode, after: seq<Inode>)
    requires Linked(k) && Children(k, dirv, after) && TmpfsDir.ValidDir(dirv.inode, after) && ChainsOk(k, dirv)
    ensures Chained(WithChain(k, dirv, after))
  {
    ChainLinked(k, dirv, after);
  }

  lemma NewChained(k: Known, v: Vnode)
    requires Linked(k) && IsNew(k, v)
    ensures Linked(WithNew(k, v)) && (Chained(k) ==> Chained(WithNew(k, v)))
    ensures forall d :: d in k.nodes && d.tmpfsOps && ChainsOk(k, d) ==> ChainsOk(WithNew(k, v), d)
  {
    NewLinked(k, v);
    assert TmpfsDir.ValidDir(v.inode, []);
  }

  // The tree, and the entries and ".." of one directory in it.
  datatype Snapshot = Snapshot(tree: VTree, entries: seq<TmpfsDir.Entry>, dotdot: Vnode)

  ghost function At(k: Known, v: Vnode): Snapshot
    requires Linked(k) && v in k.nodes && v.tmpfsOps
    reads k.nodes`mountedHere, k.nodes`inode, k.nodes`tmpfsOps
    reads k.chains.Keys`vnode, k.chains.Keys`parent, k.chains.Keys`name, ChainOf(k, v)
  {
    Snapshot(ViewOf(k), EntriesOf(k, v), DotDotOf(k, v))
  }

  lemma AtShows(k: Known, v: Vnode)
    requires Linked(k) && v in k.nodes && v.tmpfsOps
    ensures Shows(At(k, v).tree, v, At(k, v).entries, At(k, v).dotdot)
  {
    AnswersAre(k, v);
  }

  // cs are the children of dir, with these entries.
  ghost predicate Holds(dir: Inode, cs: seq<Inode>, entries: seq<TmpfsDir.Entry>)
    reads dir, cs
  {
    TmpfsDir.ValidDir(dir, cs) && TmpfsDir.Entries(cs) == entries
  }

  // What an operation on the chain of dirv alone leaves as it was.
  ghost predicate Keeps(k: Known, dirv: Vnode, s: Snapshot)
    reads k.nodes`mountedHere, k.nodes`inode, k.nodes`tmpfsOps, dirv`inode, dirv`tmpfsOps
    reads k.chains.Keys`vnode, k.chains.Keys`parent, k.chains.Keys`name
    reads Others(k, dirv.inode)`firstChild, Elsewhere(k, dirv.inode)`nextSibling
  {
    && Linked(k) && dirv in k.nodes && dirv.tmpfsOps
    && ViewOf(k) == s.tree && DotDotOf(k, dirv) == s.dotdot && ChainsOk(k, dirv)
  }

  lemma ChainedKeeps(k: Known, dirv: Vnode)
    requires Linked(k) && Chained(k) && dirv in k.nodes && dirv.tmpfsOps
    ensures dirv.inode != null && Keeps(k, dirv, At(k, dirv))
    ensures Holds(dirv.inode, ChainOf(k, dirv), At(k, dirv).entries)
  {
    ChainedIs(k, dirv);
  }

  lemma HoldsIs(dir: Inode, cs: seq<Inode>, entries: seq<TmpfsDir.Entry>)
    requires TmpfsDir.ValidDir(dir, cs) || Holds(dir, cs, entries)
    ensures TmpfsDir.ValidDir(dir, cs) && forall i :: 0 <= i < |cs| ==> cs[i].vnode != null
    ensures Holds(dir, cs, entries) <==> TmpfsDir.Entries(cs) == entries
  {
  }

  // ----- tmpfs_create -----

  // Result of tmpfs_create on d, and the tree afterwards.
  function CreateCode(s: Snapshot, isDir: bool, name: string, made: TmpfsDir.Option<Vnode>): int {
    if isDir then TmpfsDir.Create(s.entries, name, made).0 else -EINVAL
  }

  function CreateTree(s: Snapshot, d: Vnode, isDir: bool, name: string, made: TmpfsDir.Option<Vnode>): VTree {
    if CreateCode(s, isDir, name, made) != 0 then s.tree
    else Created(s.tree, d, s.entries, s.dotdot, name, made.value)
  }

  // after is the chain of dirv with the new file v in front.
  ghost predicate Entered(k: Known, dirv: Vnode, after: seq<Inode>, v: Vnode, name: string)
    reads dirv`inode, after, v
  {
    TmpfsDir.InFront(after, ChainOf(k, dirv), v, dirv.inode, name) && v !in k.nodes && after[0] !in k.chains
  }

  lemma CreateCodeIs(s: Snapshot, isDir: bool, name: string, made: TmpfsDir.Option<Vnode>)
    ensures CreateCode(s, isDir, name, made) == if isDir then TmpfsDir.Create(s.entries, name, made).0 else -EINVAL
    ensures -EINVAL != 0
    ensures TmpfsDir.Create(s.entries, name, made).0 != 0 ==> TmpfsDir.Create(s.entries, name, made).1 == s.entries
  {
  }

  lemma EnteredIs(k: Known, dirv: Vnode, after: seq<Inode>, v: Vnode, name: string)
    requires TmpfsDir.InFront(after, ChainOf(k, dirv), v, dirv.inode, name) && v !in k.nodes && after[0] !in k.chains
    ensures Entered(k, dirv, after, v, name) && v.inode == after[0] && TmpfsDir.NewFile(v, after[0], dirv.inode)
  {
  }

  lemma EnteredNew(k: Known, dirv: Vnode, after: seq<Inode>, v: Vnode, name: string)
    requires Linked(k) && dirv in k.nodes && dirv.tmpfsOps && Entered(k, dirv, after, v, name)
    ensures IsNew(k, v) && Linked(WithNew(k, v)) && DotDotOf(WithNew(k, v), v) == dirv
    ensures DotDotOf(WithNew(k, v), dirv) == DotDotOf(k, dirv) && Children(WithNew(k, v), dirv, after)
  {
    NewLinked(k, v);
  }

  lemma FileDone(k: Known, dirv: Vnode, after: seq<Inode>, v: Vnode, name: string, s: Snapshot)
    requires Keeps(k, dirv, s) && Entered(k, dirv, after, v, name)
    requires dirv.inode != null && TmpfsDir.ValidDir(dirv.inode, after)
    requires TmpfsDir.Create(s.entries, name, TmpfsDir.Some(v)) == (0, TmpfsDir.Entries(after))
    ensures v.inode != null && var l := WithChain(WithNew(k, v), dirv, after);
      Linked(l) && Chained(l) && ViewOf(l) == CreateTree(s, dirv, true, name, TmpfsDir.Some(v))
  {
    EnteredNew(k, dirv, after, v, name);
    hide Linked, Chained, ChainsOk, Children, IsNew, Entered, ViewOf, DotDotOf, TmpfsDir.Create, TmpfsDir.ValidDir;
    NewChained(k, v);
    NewAdded(k, v);
    ChainChained(WithNew(k, v), dirv, after);
    ChainReplaced(WithNew(k, v), dirv, after);
  }

  // The create operation of a tmpfs vnode, before what is known is brought up to date.
  method CreateEntry(dirv: Vnode, name: string, grantInode: bool, grantVnode: bool, ghost k: Known, ghost s: Snapshot)
    returns (code: int, made: Vnode?, ghost after: seq<Inode>)
    requires Linked(k) && Chained(k) && dirv in k.nodes && dirv.tmpfsOps && s == At(k, dirv)
    modifies dirv.inode`firstChild
    ensures Keeps(k, dirv, s) && code == CreateCode(s, dirv.isDir, name, TmpfsDir.Made(made))
    ensures (code == -ENOMEM ==> !(grantInode && grantVnode)) && (code == 0 ==> grantInode && grantVnode)
    ensures if code == 0 then made != null && fresh(made) else made == null && after == ChainOf(k, dirv)
    ensures code == 0 ==> made.inode != null && fresh(made.inode) && TmpfsDir.NewFile(made, made.inode, dirv.inode)
    ensures Holds(dirv.inode, after,
      if code == 0 then TmpfsDir.Create(s.entries, name, TmpfsDir.Made(made)).1 else s.entries)
    ensures code == 0 ==> dirv.isDir && Entered(k, dirv, after, made, name)
  {
    hide *;
    ghost var cs := ChainOf(k, dirv);
    ChainedKeeps(k, dirv);
    FrameFacts(k, dirv);
    HoldsIs(dirv.inode, cs, s.entries);
    code, made, after := TmpfsDir.TmpfsCreate(dirv, name, grantInode, grantVnode, cs);
    assert Keeps(k, dirv, s);
    CreateCodeIs(s, dirv.isDir, name, TmpfsDir.Made(made));
    HoldsIs(dirv.inode, after,
      if code == 0 then TmpfsDir.Create(s.entries, name, TmpfsDir.Made(made)).1 else s.entries);
    if code == 0 { EnteredIs(k, dirv, after, made, name); }
  }

  // ... and afterwards.
  method CreateFile(dirv: Vnode, name: string, grantInode: bool, grantVnode: bool, ghost k: Known)
    returns (code: int, made: Vnode?, ghost l: Known)
    requires Linked(k) && Chained(k) && dirv in k.nodes && dirv.tmpfsOps
    modifies dirv.inode`firstChild
    ensures Linked(l) && Chained(l) && l.root == k.root && l.foreign == k.foreign
    ensures var s := old(At(k, dirv));
      && code == CreateCode(s, dirv.isDir, name, TmpfsDir.Made(made))
      && ViewOf(l) == CreateTree(s, dirv, dirv.isDir, name, TmpfsDir.Made(made))
    ensures (code == -ENOMEM ==> !(grantInode && grantVnode)) && (code == 0 ==> grantInode && grantVnode)
    ensures if code == 0 then made != null && fresh(made) && l.nodes == k.nodes + {made} else made == null && l == k
    ensures code == 0 ==> made.inode != null && fresh(made.inode) && TmpfsDir.NewFile(made, made.inode, dirv.inode)
  {
    assert dirv.inode != null;
    ghost var after, s := ChainOf(k, dirv), At(k, dirv);
    hide Linked, Chained, ChainsOk, ViewOf, DotDotOf, At, TmpfsDir.ValidDir;
    code, made, after := CreateEntry(dirv, name, grantInode, grantVnode, k, s);
    l := k;
    if code == 0 {
      FileDone(k, dirv, after, made, name, s);
      l := WithChain(WithNew(k, made), dirv, after);
    } else {
      ChainedIs(k, dirv);
    }
  }

  // ----- tmpfs_unlink -----

  // Result of tmpfs_unlink on d, and the tree afterwards.
  function UnlinkCode(s: Snapshot, isDir: bool, name: string): int {
    if isDir then TmpfsDir.Unlink(s.entries, name).0 else -EINVAL
  }

  function UnlinkTree(s: Snapshot, d: Vnode, isDir: bool, name: string): VTree {
    if UnlinkCode(s, isDir, name) != 0 then s.tree
    else SetDir(s.tree, d, TmpfsDir.Unlink(s.entries, name).1, s.dotdot)
  }

  // The unlink operation of a tmpfs vnode, before what is known is brought up to date.
  method UnlinkEntry(dirv: Vnode, name: string, ghost k: Known, ghost s: Snapshot)
    returns (code: int, ghost after: seq<Inode>)
    requires Linked(k) && Chained(k) && dirv in k.nodes && dirv.tmpfsOps && s == At(k, dirv)
    modifies dirv.inode`firstChild, (set c | c in ChainOf(k, dirv))`nextSibling
    ensures Keeps(k, dirv, s) && code == UnlinkCode(s, dirv.isDir, name)
    ensures Holds(dirv.inode, after, if code == 0 then TmpfsDir.Unlink(s.entries, name).1 else s.entries)
    ensures (forall c :: c in after ==> c in ChainOf(k, dirv)) && (code != 0 ==> after == ChainOf(k, dirv))
  {
    hide *;
    ghost var cs := ChainOf(k, dirv);
    ChainedKeeps(k, dirv);
    FrameFacts(k, dirv);
    HoldsIs(dirv.inode, cs, s.entries);
    code, after := TmpfsDir.TmpfsUnlink(dirv, name, cs);
    assert Keeps(k, dirv, s);
    UnlinkCodeIs(s, dirv.isDir, name);
    HoldsIs(dirv.inode, after, if code == 0 then TmpfsDir.Unlink(s.entries, name).1 else s.entries);
  }

  lemma UnlinkCodeIs(s: Snapshot, isDir: bool, name: string)
    ensures UnlinkCode(s, isDir, name) == if isDir then TmpfsDir.Unlink(s.entries, name).0 else -EINVAL
    ensures -EINVAL != 0
    ensures TmpfsDir.Unlink(s.entries, name).0 != 0 ==> TmpfsDir.Unlink(s.entries, name).1 == s.entries
  {
  }

  lemma StillChildren(k: Known, dirv: Vnode, after: seq<Inode>)
    requires Linked(k) && dirv in k.nodes && dirv.tmpfsOps && forall c :: c in after ==> c in ChainOf(k, dirv)
    ensures Children(k, dirv, after)
  {
  }

  // ... and afterwards.
  method UnlinkFile(dirv: Vnode, name: string, ghost k: Known) returns (code: int, ghost l: Known)
    requires Linked(k) && Chained(k) && dirv in k.nodes && dirv.tmpfsOps
    modifies dirv.inode`firstChild, (set c | c in ChainOf(k, dirv))`nextSibling
    ensures Linked(l) && Chained(l) && l == k.(chains := l.chains) && (code != 0 ==> l == k)
    ensures var s := old(At(k, dirv));
      code == UnlinkCode(s, dirv.isDir, name) && ViewOf(l) == UnlinkTree(s, dirv, dirv.isDir, name)
  {
    assert dirv.inode != null;
    ghost var after, s := ChainOf(k, dirv), At(k, dirv);
    hide Linked, Chained, ChainsOk, ViewOf, DotDotOf, At, TmpfsDir.ValidDir;
    code, after := UnlinkEntry(dirv, name, k, s);
    l := k;
    if code == 0 {
      StillChildren(k, dirv, after);
      ChainReplaced(k, dirv, after);
      ChainChained(k, dirv, after);
      l := WithChain(k, dirv, after);
    } else {
      ChainedIs(k, dirv);
    }
  }

  // ----- vfs_mount -----

  // m gives the mounts of all vnodes but one.
  ghost predicate MountsBut(k: Known, m: map<Vnode, Vnode>, v: Vnode)
    reads (k.nodes - {v})`mountedHere
  {
    m.Keys <= k.nodes && forall w :: w in k.nodes - {v} ==>
      (w in m <==> w.mountedHere != null) && (w in m ==> m[w] == w.mountedHere.root)
  }

  predicate Into(m: map<Vnode, Vnode>, ns: set<Vnode>) {
    forall w :: w in m ==> m[w] in ns
  }

  lemma MountsAre(k: Known, v: Vnode)
    ensures MountsBut(k, MountsOf(k), v) && (MountsKnown(k) ==> Into(MountsOf(k), k.nodes))
  {
  }

  lemma MountsUpdated(k: Known, m: map<Vnode, Vnode>, v: Vnode, root: Vnode)
    requires MountsBut(k, m, v) && v in k.nodes && v.mountedHere != null && v.mountedHere.root == root
    ensures MountsOf(k) == m[v := root]
  {
  }

  lemma MountsClosed(k: Known, m: map<Vnode, Vnode>, v: Vnode, root: Vnode)
    requires v in k.nodes && root in k.nodes && MountsOf(k) == m[v := root]
    requires Into(m, k.nodes)
    ensures MountsKnown(k)
  {
    forall w | w in k.nodes && w.mountedHere != null ensures w.mountedHere.root in k.nodes {
      assert MountsOf(k)[w] == w.mountedHere.root;
    }
  }

  // The assignment of mounted_here.
  method SetMount(mountpoint: Vnode, mnt: Mount, ghost k: Known)
    requires Linked(k) && Chained(k) && mountpoint in k.nodes
    modifies mountpoint`mountedHere
    ensures Linked(k) && Chained(k) && DirsOf(k) == old(DirsOf(k))
    ensures mountpoint.mountedHere == mnt && MountsBut(k, old(MountsOf(k)), mountpoint)
  {
    MountsAre(k, mountpoint);
    hide Linked, Chained, DirsOf, MountsOf, MountsBut;
    mountpoint.mountedHere := mnt;
  }

  // A vnode that another file system has allocated just now.
  ghost predicate IsForeignNew(k: Known, v: Vnode)
    reads v`tmpfsOps, v`inode, v`mountedHere
  {
    v !in k.nodes && !v.tmpfsOps && v.inode == null && v.mountedHere == null
  }

  // The tree with the answers of v, if it had none.
  function WithRoot(t: VTree, foreign: map<Vnode, map<string, Vnode>>, v: Vnode): VTree {
    if v in foreign && v !in t.dirs then t.(dirs := t.dirs[v := foreign[v]]) else t
  }

  lemma ForeignLinked(k: Known, l: Known, v: Vnode)
    requires Linked(k) && IsForeignNew(k, v) && l == k.(nodes := k.nodes + {v})
    ensures v !in k.nodes && Linked(l) && SameChains(k, l, v) && (IsDir(l, v) <==> v in k.foreign)
    ensures v in k.foreign ==> DirOf(l, v) == k.foreign[v]
  {
  }

  lemma ForeignDirs(k: Known, l: Known, v: Vnode)
    requires Linked(k) && IsForeignNew(k, v) && l == k.(nodes := k.nodes + {v})
    ensures Linked(l) && v !in DirsOf(k)
    ensures DirsOf(l) == if v in k.foreign then DirsOf(k)[v := k.foreign[v]] else DirsOf(k)
  {
    hide Linked, SameChains, DirOf, IsDir, IsForeignNew;
    ForeignLinked(k, l, v);
    SameDirs(k, l, v);
  }

  lemma ForeignRootAdded(k: Known, v: Vnode)
    requires Linked(k) && Chained(k) && MountsKnown(k) && (v in k.nodes || IsForeignNew(k, v))
    ensures var l := k.(nodes := k.nodes + {v});
      Linked(l) && Chained(l) && MountsKnown(l) && ViewOf(l) == WithRoot(ViewOf(k), k.foreign, v)
  {
    var l := k.(nodes := k.nodes + {v});
    if v in k.nodes {
      assert l == k && (v in k.foreign ==> IsDir(k, v));
      hide Linked, Chained, DirOf, IsDir;
    } else {
      assert MountsKnown(l) && Chained(l);
      hide Linked, Chained, MountsKnown, DirsOf;
      ForeignDirs(k, l, v);
      MountsSame(k, l, v);
    }
  }

  // Other file systems answer differently, and bring new vnodes along.
  ghost predicate ForeignChanges(k: Known, l: Known)
    reads (l.nodes - k.nodes)`tmpfsOps, (l.nodes - k.nodes)`inode, (l.nodes - k.nodes)`mountedHere
  {
    && l == k.(foreign := l.foreign, nodes := l.nodes) && k.nodes <= l.nodes
    && (forall v :: v in l.nodes && v !in k.nodes ==> IsForeignNew(k, v))
    && (forall v, n :: v in l.foreign && n in l.foreign[v] ==> l.foreign[v][n] in l.nodes)
  }

  lemma ForeignChanged(k: Known, l: Known)
    requires Linked(k) && Chained(k) && MountsKnown(k) && ForeignChanges(k, l)
    ensures Linked(l) && Chained(l) && MountsKnown(l) && ViewOf(l) == ViewOf(k).(dirs := ViewOf(l).dirs)
    ensures forall v :: v in l.nodes ==>
      if v.tmpfsOps then v in ViewOf(k).dirs && v in ViewOf(l).dirs && ViewOf(l).dirs[v] == ViewOf(k).dirs[v]
      else (v in ViewOf(l).dirs <==> v in l.foreign) && (v in l.foreign ==> ViewOf(l).dirs[v] == l.foreign[v])
  {
    assert forall v :: v in l.nodes && (v.tmpfsOps || v.inode != null || v.mountedHere != null) ==> v in k.nodes;
    assert MountsOf(l) == MountsOf(k);
  }

  lemma RootAdded(k: Known, v: Vnode)
    requires Linked(k) && Chained(k) && MountsKnown(k) && IsNew(k, v) && v.inode != null && v.inode.parent == null
    ensures var l := WithNew(k, v);
      Linked(l) && Chained(l) && MountsKnown(l) && ViewOf(l) == SetDir(ViewOf(k), v, [], v)
  {
    NewChained(k, v);
    assert MountsKnown(WithNew(k, v)) && DotDotOf(WithNew(k, v), v) == v;
    hide Linked, Chained, ViewOf, SetDir, MountsKnown, IsNew, DotDotOf, WithNew;
    NewAdded(k, v);
  }
}
