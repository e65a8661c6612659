/** Circular doubly linked intrusive lists: kernel/lib/list.c and the iterators of include/lib/list.h.

    A memory is described by a sequence of rings; ring k is the sequence of its nodes in `next` order,
    starting with the list head.  Each operation is proved to turn the rings described before the call
    into those given by a function on sequences, for the whole memory at once, so that every other ring
    is untouched whatever aliasing there is between the nodes named in the call. */
module Lists {
  import opened Sequences

  class ListHead {
    var next: ListHead?
    var prev: ListHead?
  }

  type Ring = seq<ListHead>

  // The positions after and before i in a ring of n nodes, wrapping round.
  function Succ(i: nat, n: nat): nat
    requires i < n
  {
    if i + 1 < n then i + 1 else 0
  }

  function Pred(i: nat, n: nat): nat
    requires i < n
  {
    if i > 0 then i - 1 else n - 1
  }

  ghost predicate Distinct(s: Ring) {
    forall i, j :: 0 <= i < j < |s| ==> s[i] != s[j]
  }

  // Along s, next leads to the following node and prev leads back.
  ghost predicate Linked(s: Ring)
    reads s
  {
    && (forall i {:trigger s[i].next} :: 0 <= i < |s| ==> s[i].next == s[Succ(i, |s|)])
    && (forall i {:trigger s[i].prev} :: 0 <= i < |s| ==> s[i].prev == s[Pred(i, |s|)])
  }

  ghost predicate IsRing(s: Ring)
    reads s
  {
    Distinct(s) && Linked(s)
  }

  ghost predicate Apart(s: Ring, t: Ring) {
    forall i, j :: 0 <= i < |s| && 0 <= j < |t| ==> s[i] != t[j]
  }

  ghost predicate Disjoint(h: seq<Ring>) {
    forall k, m :: 0 <= k < |h| && 0 <= m < |h| && k != m ==> Apart(h[k], h[m])
  }

  // Node x lies on no ring.
  ghost predicate Loose(x: ListHead, h: seq<Ring>) {
    forall k :: 0 <= k < |h| ==> x !in h[k]
  }

  // Any number of pairwise disjoint rings; an empty sequence stands for a ring that is gone.
  ghost predicate Rings(h: seq<Ring>)
    reads set k, i | 0 <= k < |h| && 0 <= i < |h[k]| :: h[k][i]
  {
    Disjoint(h) && forall k :: 0 <= k < |h| ==> IsRing(h[k])
  }

  // ----- the operations on sequences -----

  function InsertAfter(h: seq<Ring>, k: nat, i: nat, x: ListHead): seq<Ring>
    requires k < |h| && i < |h[k]|
  {
    h[k := h[k][..i+1] + [x] + h[k][i+1..]]
  }

  function Remove(h: seq<Ring>, k: nat, i: nat): seq<Ring>
    requires k < |h| && i < |h[k]|
  {
    h[k := h[k][..i] + h[k][i+1..]]
  }

  function Replace(h: seq<Ring>, k: nat, i: nat, x: ListHead): seq<Ring>
    requires k < |h| && i < |h[k]|
  {
    h[k := h[k][i := x]]
  }

  // Ring a without its head goes into ring b after position i.
  function Splice(h: seq<Ring>, a: nat, b: nat, i: nat): seq<Ring>
    requires a < |h| && b < |h| && a != b && |h[a]| > 0 && i < |h[b]|
  {
    h[a := []][b := h[b][..i+1] + h[a][1..] + h[b][i+1..]]
  }

  // Each of them keeps the rings apart and free of repetition.
  ghost predicate Shape(h: seq<Ring>) {
    Disjoint(h) && forall k :: 0 <= k < |h| ==> Distinct(h[k])
  }

  lemma InsertShape(h: seq<Ring>, k: nat, i: nat, x: ListHead)
    requires Shape(h) && k < |h| && i < |h[k]| && Loose(x, h)
    ensures Shape(InsertAfter(h, k, i, x))
  {
  }

  lemma RemoveShape(h: seq<Ring>, k: nat, i: nat)
    requires Shape(h) && k < |h| && i < |h[k]|
    ensures Shape(Remove(h, k, i)) && Loose(h[k][i], Remove(h, k, i))
    ensures forall m, x :: 0 <= m < |h| && x in Remove(h, k, i)[m] ==> x in h[m]
  {
    forall m | 0 <= m < |h| && m != k ensures h[k][i] !in h[m] { assert Apart(h[k], h[m]); }
  }

  lemma ReplaceShape(h: seq<Ring>, k: nat, i: nat, x: ListHead)
    requires Shape(h) && k < |h| && i < |h[k]| && Loose(x, h)
    ensures Shape(Replace(h, k, i, x)) && Loose(h[k][i], Replace(h, k, i, x))
  {
    forall m | 0 <= m < |h| && m != k ensures h[k][i] !in h[m] { assert Apart(h[k], h[m]); }
  }

  lemma SpliceShape(h: seq<Ring>, a: nat, b: nat, i: nat)
    requires Shape(h) && a < |h| && b < |h| && a != b && |h[a]| > 0 && i < |h[b]|
    ensures Shape(Splice(h, a, b, i)) && Loose(h[a][0], Splice(h, a, b, i))
  {
    forall m | 0 <= m < |h| && m != a ensures h[a][0] !in h[m] { assert Apart(h[a], h[m]); }
  }

  // ----- list.c -----

  method InitListHead(list: ListHead)
    modifies list
    ensures list.next == list && list.prev == list
  {
    list.next := list;
    list.prev := list;
  }

  // Where each node of the longer ring comes from, and its neighbours.
  lemma InsertNeighbours(r: Ring, i: nat, x: ListHead, j: nat)
    requires i < |r| && j <= |r|
    ensures var n, s := |r|, r[..i+1] + [x] + r[i+1..];
      if j == i + 1 then
        s[j] == x && s[Succ(j, n + 1)] == r[Succ(i, n)] && s[Pred(j, n + 1)] == r[i]
      else
        var p := if j <= i then j else j - 1;
        && s[j] == r[p]
        && s[Succ(j, n + 1)] == (if p == i then x else r[Succ(p, n)])
        && s[Pred(j, n + 1)] == (if p == Succ(i, n) then x else r[Pred(p, n)])
  {
  }

  method LinkBetween(node: ListHead, prev: ListHead, next: ListHead, ghost h: seq<Ring>, ghost k: nat, ghost i: nat)
    requires Rings(h) && k < |h| && i < |h[k]| && Loose(node, h)
    requires prev == h[k][i] && next == h[k][Succ(i, |h[k]|)]
    modifies node, prev`next, next`prev
    ensures Rings(InsertAfter(h, k, i, node))
  {
    next.prev := node;
    node.next := next;
    node.prev := prev;
    prev.next := node;

    ghost var h' := InsertAfter(h, k, i, node);
    InsertShape(h, k, i, node);
    ghost var r, s := h[k], h'[k];
    forall j | 0 <= j < |s|
      ensures s[j].next == s[Succ(j, |s|)] && s[j].prev == s[Pred(j, |s|)]
    {
      InsertNeighbours(r, i, node, j);
    }
    forall m | 0 <= m < |h| && m != k ensures IsRing(h'[m]) { assert IsRing(h[m]); }
  }

  // Where each remaining node comes from, and its neighbours.
  lemma RemoveNeighbours(r: Ring, i: nat, j: nat)
    requires i < |r| && j < |r| - 1
    ensures var n, s, p := |r|, r[..i] + r[i+1..], if j < i then j else j + 1;
      && s[j] == r[p] && p != i
      && s[Succ(j, n - 1)] == r[if Succ(p, n) == i then Succ(i, n) else Succ(p, n)]
      && s[Pred(j, n - 1)] == r[if Pred(p, n) == i then Pred(i, n) else Pred(p, n)]
  {
  }

  // Takes the node at position i out of its ring; its own links stay as they are unless it was alone.
  method Unlink(prev: ListHead, next: ListHead, ghost h: seq<Ring>, ghost k: nat, ghost i: nat)
    requires Rings(h) && k < |h| && i < |h[k]|
    requires prev == h[k][i].prev && next == h[k][i].next
    modifies prev`next, next`prev
    ensures Rings(Remove(h, k, i)) && Loose(h[k][i], Remove(h, k, i))
    ensures |h[k]| > 1 ==> h[k][i].prev == old(h[k][i].prev) && h[k][i].next == old(h[k][i].next)
  {
    ghost var h' := Remove(h, k, i);
    RemoveShape(h, k, i);
    ghost var r, s := h[k], h'[k];

    prev.next := next;
    next.prev := prev;

    forall j | 0 <= j < |s| ensures s[j].next == s[Succ(j, |s|)] && s[j].prev == s[Pred(j, |s|)] {
      RemoveNeighbours(r, i, j);
    }
    forall m | 0 <= m < |h| && m != k ensures IsRing(h'[m]) { assert IsRing(h[m]); }
  }

  method ListAdd(node: ListHead, head: ListHead, ghost h: seq<Ring>, ghost k: nat)
    requires Rings(h) && k < |h| && |h[k]| > 0 && h[k][0] == head && Loose(node, h)
    modifies node, head`next, head.next`prev
    ensures Rings(h[k := [head, node] + h[k][1..]])
  {
    LinkBetween(node, head, head.next, h, k, 0);
    assert InsertAfter(h, k, 0, node)[k] == [head, node] + h[k][1..];
  }

  method ListAddTail(node: ListHead, head: ListHead, ghost h: seq<Ring>, ghost k: nat)
    requires Rings(h) && k < |h| && |h[k]| > 0 && h[k][0] == head && Loose(node, h)
    modifies node, head`prev, head.prev`next
    ensures Rings(h[k := h[k] + [node]])
  {
    assert Succ(|h[k]| - 1, |h[k]|) == 0;
    LinkBetween(node, head.prev, head, h, k, |h[k]| - 1);
    assert InsertAfter(h, k, |h[k]| - 1, node)[k] == h[k] + [node];
  }

  method ListDel(entry: ListHead, ghost h: seq<Ring>, ghost k: nat, ghost i: nat)
    requires Rings(h) && k < |h| && i < |h[k]| && h[k][i] == entry
    modifies entry, entry.prev`next, entry.next`prev
    ensures Rings(Remove(h, k, i)) && entry.prev == null && entry.next == null
  {
    Unlink(entry.prev, entry.next, h, k, i);
    entry.prev := null;
    entry.next := null;
  }

  // A node on no ring may be made a ring of its own.
  method InitLoose(entry: ListHead, ghost h: seq<Ring>)
    requires Rings(h) && Loose(entry, h)
    modifies entry
    ensures Rings(h + [[entry]])
    ensures entry.next == entry && entry.prev == entry
  {
    InitListHead(entry);
    ghost var g := h + [[entry]];
    forall k | 0 <= k < |h| ensures IsRing(h[k]) { assert entry !in h[k]; }
    assert IsRing([entry]);
    forall k, m | 0 <= k < |g| && 0 <= m < |g| && k != m ensures Apart(g[k], g[m]) {
      if k < |h| && m < |h| { assert Apart(h[k], h[m]); } else { assert entry !in h[if k < |h| then k else m]; }
    }
  }

  method ListDelInit(entry: ListHead, ghost h: seq<Ring>, ghost k: nat, ghost i: nat)
    requires Rings(h) && k < |h| && i < |h[k]| && h[k][i] == entry
    modifies entry, entry.prev`next, entry.next`prev
    ensures Rings(Remove(h, k, i) + [[entry]])
  {
    Unlink(entry.prev, entry.next, h, k, i);
    hide Rings, Loose, Remove;
    InitLoose(entry, Remove(h, k, i));
  }

  method ListReplace(target: ListHead, node: ListHead, ghost h: seq<Ring>, ghost k: nat, ghost i: nat)
    requires Rings(h) && k < |h| && i < |h[k]| && h[k][i] == target && Loose(node, h)
    modifies node, target.next`prev, target.prev`next
    ensures Rings(Replace(h, k, i, node)) && Loose(target, Replace(h, k, i, node))
    ensures |h[k]| > 1 ==> target.next == old(target.next) && target.prev == old(target.prev)
    ensures |h[k]| == 1 ==> node.next == node && node.prev == node
  {
    ghost var h' := Replace(h, k, i, node);
    ReplaceShape(h, k, i, node);
    ghost var r, s := h[k], h'[k];

    node.next := target.next;
    node.next.prev := node;
    node.prev := target.prev;
    node.prev.next := node;

    forall j | 0 <= j < |s|
      ensures s[j].next == s[Succ(j, |s|)] && s[j].prev == s[Pred(j, |s|)]
    {
      if j != i { assert s[j] == r[j]; }
    }
    forall m | 0 <= m < |h| && m != k ensures IsRing(h'[m]) { assert IsRing(h[m]); }
  }

  method ListReplaceInit(target: ListHead, node: ListHead, ghost h: seq<Ring>, ghost k: nat, ghost i: nat)
    requires Rings(h) && k < |h| && i < |h[k]| && h[k][i] == target && Loose(node, h)
    modifies node, target, target.next`prev, target.prev`next
    ensures Rings(Replace(h, k, i, node) + [[target]])
  {
    ListReplace(target, node, h, k, i);
    hide Rings, Loose, Replace;
    InitLoose(target, Replace(h, k, i, node));
  }

  // What is left of the target ring when an entry other than its head has been taken out.
  lemma MoveTarget(h: seq<Ring>, k: nat, i: nat, m: nat)
    requires k < |h| && i < |h[k]| && m < |h| && |h[m]| > 0 && h[m][0] != h[k][i]
    ensures var s := Remove(h, k, i)[m];
      |s| > 0 && s[0] == h[m][0] && forall x :: x in s ==> x in h[m]
  {
  }

  lemma HeadLinks(h: seq<Ring>, m: nat)
    requires Rings(h) && m < |h| && |h[m]| > 0
    ensures h[m][0].next == h[m][Succ(0, |h[m]|)] && h[m][0].prev == h[m][Pred(0, |h[m]|)]
    ensures h[m][0].next in h[m] && h[m][0].prev in h[m]
  {
    assert IsRing(h[m]);
  }

  lemma RingLinks(h: seq<Ring>, k: nat, i: nat)
    requires Rings(h) && k < |h| && i < |h[k]|
    ensures h[k][i].next == h[k][Succ(i, |h[k]|)] && h[k][i].prev == h[k][Pred(i, |h[k]|)]
    ensures h[k][i].next in h[k] && h[k][i].prev in h[k]
  {
    assert IsRing(h[k]);
  }

  lemma InsertFirst(h: seq<Ring>, m: nat, x: ListHead)
    requires m < |h| && |h[m]| > 0
    ensures InsertAfter(h, m, 0, x) == h[m := [h[m][0], x] + h[m][1..]]
  {
    assert InsertAfter(h, m, 0, x)[m] == [h[m][0], x] + h[m][1..];
  }

  // entry may be on the same ring as head, on another one, or alone; it may not be head itself.
  method ListMove(entry: ListHead, head: ListHead, ghost h: seq<Ring>, ghost k: nat, ghost i: nat, ghost m: nat)
    requires Rings(h) && k < |h| && i < |h[k]| && h[k][i] == entry
    requires m < |h| && |h[m]| > 0 && h[m][0] == head && entry != head
    modifies h[k], h[m]
    ensures Rings(InsertAfter(Remove(h, k, i), m, 0, entry))
  {
    assert entry.prev in h[k] && entry.next in h[k] by { RingLinks(h, k, i); }
    hide *;
    MoveTarget(h, k, i, m);
    Unlink(entry.prev, entry.next, h, k, i);
    ghost var g := Remove(h, k, i);
    RemoveLength(h, k, i);
    HeadLinks(g, m);
    ListAdd(entry, head, g, m);
    InsertFirst(g, m, entry);
  }

  lemma RemoveLength(h: seq<Ring>, k: nat, i: nat)
    requires k < |h| && i < |h[k]|
    ensures |Remove(h, k, i)| == |h|
  {
  }

  method ListMoveTail(entry: ListHead, head: ListHead, ghost h: seq<Ring>, ghost k: nat, ghost i: nat, ghost m: nat)
    requires Rings(h) && k < |h| && i < |h[k]| && h[k][i] == entry
    requires m < |h| && |h[m]| > 0 && h[m][0] == head && entry != head
    modifies h[k], h[m]
    ensures var g := Remove(h, k, i); Rings(g[m := g[m] + [entry]])
  {
    assert entry.prev in h[k] && entry.next in h[k] by { RingLinks(h, k, i); }
    hide *;
    MoveTarget(h, k, i, m);
    Unlink(entry.prev, entry.next, h, k, i);
    ghost var g := Remove(h, k, i);
    RemoveLength(h, k, i);
    HeadLinks(g, m);
    ListAddTail(entry, head, g, m);
  }

  // Where each node of the spliced ring comes from, and its neighbours.
  lemma SpliceNeighbours(q: Ring, r: Ring, i: nat, j: nat)
    requires |q| > 1 && i < |r| && j < |r| + |q| - 1
    ensures var n, s := |q| - 1, r[..i+1] + q[1..] + r[i+1..];
      if i < j <= i + n then
        && s[j] == q[j-i]
        && s[Succ(j, |s|)] == (if j == i + n then r[Succ(i, |r|)] else q[Succ(j - i, |q|)])
        && s[Pred(j, |s|)] == (if j == i + 1 then r[i] else q[Pred(j - i, |q|)])
      else
        var p := if j <= i then j else j - n;
        && s[j] == r[p]
        && s[Succ(j, |s|)] == (if p == i then q[1] else r[Succ(p, |r|)])
        && s[Pred(j, |s|)] == (if p == Succ(i, |r|) then q[n] else r[Pred(p, |r|)])
  {
  }

  method SpliceBetween(list: ListHead, prev: ListHead, next: ListHead,
                       ghost h: seq<Ring>, ghost a: nat, ghost b: nat, ghost i: nat)
    requires Rings(h) && a < |h| && b < |h| && a != b && |h[a]| > 1 && h[a][0] == list
    requires i < |h[b]| && prev == h[b][i] && next == h[b][Succ(i, |h[b]|)]
    modifies list.next`prev, list.prev`next, prev`next, next`prev
    ensures Rings(Splice(h, a, b, i)) && Loose(list, Splice(h, a, b, i))
    ensures list.next == old(list.next) && list.prev == old(list.prev)
  {
    var first := list.next;
    var last := list.prev;
    ghost var h' := Splice(h, a, b, i);
    SpliceShape(h, a, b, i);
    ghost var q, r, s, n := h[a], h[b], h'[b], |h[a]| - 1;
    assert first == q[1] && last == q[n] && Apart(q, r);

    first.prev := prev;
    prev.next := first;

    last.next := next;
    next.prev := last;

    forall j | 0 <= j < |s| ensures s[j].next == s[Succ(j, |s|)] && s[j].prev == s[Pred(j, |s|)] {
      SpliceNeighbours(q, r, i, j);
    }
    forall m | 0 <= m < |h| && m != a && m != b ensures IsRing(h'[m]) { assert IsRing(h[m]); }
  }

  // The source's nodes come before the target's; the source head is left pointing into the target.
  method ListSplice(list: ListHead, head: ListHead, ghost h: seq<Ring>, ghost a: nat, ghost b: nat)
    requires Rings(h) && a < |h| && b < |h| && a != b
    requires |h[a]| > 0 && h[a][0] == list && |h[b]| > 0 && h[b][0] == head
    modifies h[a], h[b]
    ensures |h[a]| == 1 ==> Rings(h) && forall x :: x in h[a] + h[b] ==> x.next == old(x.next) && x.prev == old(x.prev)
    ensures |h[a]| > 1 ==> Rings(h[a := []][b := [head] + h[a][1..] + h[b][1..]])
    ensures list.next == old(list.next) && list.prev == old(list.prev)
  {
    if !ListEmpty(list) {
      SpliceBetween(list, head, head.next, h, a, b, 0);
      assert Splice(h, a, b, 0)[b] == [head] + h[a][1..] + h[b][1..];
    }
  }

  // The target's nodes come before the source's.
  method ListSpliceTail(list: ListHead, head: ListHead, ghost h: seq<Ring>, ghost a: nat, ghost b: nat)
    requires Rings(h) && a < |h| && b < |h| && a != b
    requires |h[a]| > 0 && h[a][0] == list && |h[b]| > 0 && h[b][0] == head
    modifies h[a], h[b]
    ensures |h[a]| == 1 ==> Rings(h) && forall x :: x in h[a] + h[b] ==> x.next == old(x.next) && x.prev == old(x.prev)
    ensures |h[a]| > 1 ==> Rings(h[a := []][b := h[b] + h[a][1..]])
    ensures list.next == old(list.next) && list.prev == old(list.prev)
  {
    if !ListEmpty(list) {
      assert Succ(|h[b]| - 1, |h[b]|) == 0;
      SpliceBetween(list, head.prev, head, h, a, b, |h[b]| - 1);
      assert Splice(h, a, b, |h[b]| - 1)[b] == h[b] + h[a][1..];
    }
  }

  // As ListSplice, and the source is afterwards a valid empty ring, whether or not it was empty before.
  method ListSpliceInit(list: ListHead, head: ListHead, ghost h: seq<Ring>, ghost a: nat, ghost b: nat)
    requires Rings(h) && a < |h| && b < |h| && a != b
    requires |h[a]| > 0 && h[a][0] == list && |h[b]| > 0 && h[b][0] == head
    modifies h[a], h[b]
    ensures Rings(h[a := [list]][b := [head] + h[a][1..] + h[b][1..]])
  {
    if !ListEmpty(list) {
      SpliceBetween(list, head, head.next, h, a, b, 0);
      SpliceThenInit(h, a, b);
      hide Rings, Loose, Splice;
      InitEmptied(list, Splice(h, a, b, 0), a);
    } else {
      assert |h[a]| == 1 by { assert list.next == h[a][Succ(0, |h[a]|)]; }
      assert h[a] == [list] && h[b] == [head] + h[a][1..] + h[b][1..];
    }
  }

  lemma SpliceThenInit(h: seq<Ring>, a: nat, b: nat)
    requires a < |h| && b < |h| && a != b && |h[a]| > 0 && |h[b]| > 0
    ensures var g := Splice(h, a, b, 0);
      |g| == |h| && g[a] == [] && g[a := [h[a][0]]] == h[a := [h[a][0]]][b := [h[b][0]] + h[a][1..] + h[b][1..]]
  {
    assert h[b][..1] == [h[b][0]];
  }

  // A head whose ring is gone becomes an empty ring in its place.
  method InitEmptied(list: ListHead, ghost h: seq<Ring>, ghost a: nat)
    requires Rings(h) && Loose(list, h) && a < |h| && h[a] == []
    modifies list
    ensures Rings(h[a := [list]])
  {
    InitListHead(list);
    ghost var g := h[a := [list]];
    forall k | 0 <= k < |h| ensures IsRing(h[k]) { assert list !in h[k]; }
    assert IsRing([list]);
    forall k, m | 0 <= k < |g| && 0 <= m < |g| && k != m ensures Apart(g[k], g[m]) {
      if k != a && m != a { assert Apart(h[k], h[m]); } else { assert list !in h[if k != a then k else m]; }
    }
  }

  predicate ListEmpty(head: ListHead)
    reads head
  {
    head.next == head
  }

  predicate ListIsSingular(head: ListHead)
    reads head
  {
    !ListEmpty(head) && head.next == head.prev
  }

  // The two queries read the length of the ring off two links.
  lemma QueriesCount(r: Ring)
    requires IsRing(r) && r != []
    ensures ListEmpty(r[0]) <==> |r| == 1
    ensures ListIsSingular(r[0]) <==> |r| == 2
  {
    assert r[0].next == r[Succ(0, |r|)] && r[0].prev == r[Pred(0, |r|)];
  }

  // ----- rings as descriptions of memory -----

  // A memory determines its rings: two rings with the same head are the same sequence.
  lemma {:induction false} RingUnique(s: Ring, t: Ring)
    requires IsRing(s) && IsRing(t) && s != [] && t != [] && s[0] == t[0]
    ensures s == t
  {
    if |s| <= |t| { SamePrefix(s, t, |s|); } else { SamePrefix(t, s, |t|); }
  }

  lemma {:induction false} SamePrefix(s: Ring, t: Ring, n: nat)
    requires IsRing(s) && IsRing(t) && s != [] && t != [] && s[0] == t[0]
    requires 0 < n <= |s| <= |t|
    ensures s[..n] == t[..n] && (n == |s| ==> |s| == |t|)
  {
    if n > 1 { SamePrefix(s, t, n - 1); }
    if n > 1 { assert s[n-2].next == s[n-1] && t[n-2] == s[n-2] && t[n-2].next == t[n-1]; }
    assert s[n-1].next == s[Succ(n - 1, |s|)] && t[n-1].next == t[Succ(n - 1, |t|)];
  }

  // Any node may be taken for the head.
  lemma RotateRing(r: Ring, i: nat)
    requires IsRing(r) && i < |r|
    ensures IsRing(r[i..] + r[..i])
  {
    var s, n := r[i..] + r[..i], |r|;
    forall j | 0 <= j < n ensures s[j].next == s[Succ(j, n)] && s[j].prev == s[Pred(j, n)] {
      RotateNeighbours(r, i, j);
    }
  }

  lemma RotateNeighbours(r: Ring, i: nat, j: nat)
    requires i < |r| && j < |r|
    ensures var n, s, p := |r|, r[i..] + r[..i], if i + j < |r| then i + j else i + j - |r|;
      s[j] == r[p] && s[Succ(j, n)] == r[Succ(p, n)] && s[Pred(j, n)] == r[Pred(p, n)]
  {
  }

  lemma RotateRings(h: seq<Ring>, k: nat, i: nat)
    requires Rings(h) && k < |h| && i < |h[k]|
    ensures Rings(h[k := h[k][i..] + h[k][..i]])
  {
    RotateRing(h[k], i);
    var s := h[k][i..] + h[k][..i];
    assert forall x :: x in s ==> x in h[k];
    hide Linked;
    forall m | 0 <= m < |h| && m != k ensures Apart(h[m], s) && Apart(s, h[m]) {
      assert Apart(h[m], h[k]);
    }
  }

  // ----- conservation and round trips -----

  // How often a node occurs on the rings.
  ghost function Occurs(x: ListHead, h: seq<Ring>): nat {
    if h == [] then 0 else multiset(h[0])[x] + Occurs(x, h[1..])
  }

  lemma {:induction false} OccursUpdate(x: ListHead, h: seq<Ring>, k: nat, s: Ring)
    requires k < |h|
    ensures Occurs(x, h[k := s]) + multiset(h[k])[x] == Occurs(x, h) + multiset(s)[x]
  {
    if k == 0 {
      assert h[0 := s][1..] == h[1..];
    } else {
      assert h[k := s][1..] == h[1..][k - 1 := s];
      OccursUpdate(x, h[1..], k - 1, s);
    }
  }

  lemma OccursSplit(x: ListHead, s: Ring, i: nat, t: Ring)
    requires i <= |s|
    ensures multiset(s[..i] + t + s[i..])[x] == multiset(s)[x] + multiset(t)[x]
  {
    assert s == s[..i] + s[i..];
  }

  lemma InsertOccurs(x: ListHead, h: seq<Ring>, m: nat, i: nat, e: ListHead)
    requires m < |h| && i < |h[m]|
    ensures Occurs(x, InsertAfter(h, m, i, e)) == Occurs(x, h) + multiset([e])[x]
  {
    hide Occurs;
    OccursUpdate(x, h, m, h[m][..i+1] + [e] + h[m][i+1..]);
    OccursSplit(x, h[m], i + 1, [e]);
  }

  lemma RemoveOccurs(x: ListHead, h: seq<Ring>, k: nat, i: nat)
    requires k < |h| && i < |h[k]|
    ensures Occurs(x, h) == Occurs(x, Remove(h, k, i)) + multiset([h[k][i]])[x]
  {
    hide Occurs;
    var s := h[k][..i] + h[k][i+1..];
    OccursUpdate(x, h, k, s);
    OccursSplit(x, s, i, [h[k][i]]);
    assert s[..i] + [h[k][i]] + s[i..] == h[k];
  }

  // A move within one ring or between two, to any position, loses and duplicates nothing.
  lemma MoveConserves(x: ListHead, h: seq<Ring>, k: nat, i: nat, m: nat, j: nat)
    requires k < |h| && i < |h[k]| && m < |h| && j < |Remove(h, k, i)[m]|
    ensures Occurs(x, InsertAfter(Remove(h, k, i), m, j, h[k][i])) == Occurs(x, h)
  {
    hide *;
    RemoveLength(h, k, i);
    RemoveOccurs(x, h, k, i);
    InsertOccurs(x, Remove(h, k, i), m, j, h[k][i]);
  }

  // A splice takes out the source head and nothing else; list_splice_init keeps even that.
  lemma SpliceConserves(x: ListHead, h: seq<Ring>, a: nat, b: nat, i: nat)
    requires a < |h| && b < |h| && a != b && |h[a]| > 0 && i < |h[b]|
    ensures Occurs(x, Splice(h, a, b, i)) + (if x == h[a][0] then 1 else 0) == Occurs(x, h)
    ensures Occurs(x, Splice(h, a, b, i)[a := [h[a][0]]]) == Occurs(x, h)
  {
    hide Occurs;
    var g, t := h[a := []], Splice(h, a, b, i);
    OccursUpdate(x, h, a, []);
    OccursUpdate(x, g, b, t[b]);
    OccursUpdate(x, t, a, [h[a][0]]);
    OccursSplit(x, h[b], i + 1, h[a][1..]);
    assert h[a] == [h[a][0]] + h[a][1..];
  }

  lemma RoundTrips(h: seq<Ring>, k: nat, i: nat, x: ListHead)
    requires k < |h| && i < |h[k]|
    ensures Remove(InsertAfter(h, k, i, x), k, i + 1) == h
    ensures Replace(Replace(h, k, i, x), k, i, h[k][i]) == h
    ensures i > 0 ==> InsertAfter(Remove(h, k, i), k, i - 1, h[k][i]) == h
  {
    UpdateBack(h, k, InsertAfter(h, k, i, x)[k]);
    UpdateBack(h, k, Replace(h, k, i, x)[k]);
    UpdateBack(h, k, Remove(h, k, i)[k]);
    assert Remove(InsertAfter(h, k, i, x), k, i + 1)[k] == h[k];
    assert Replace(Replace(h, k, i, x), k, i, h[k][i])[k] == h[k];
    if i > 0 { assert InsertAfter(Remove(h, k, i), k, i - 1, h[k][i])[k] == h[k]; }
  }

  lemma UpdateBack(h: seq<Ring>, k: nat, s: Ring)
    requires k < |h|
    ensures h[k := s][k := h[k]] == h
  {
  }

  // ----- the iterators of list.h -----

  lemma {:induction false} ReverseAt(s: Ring, i: nat)
    requires i < |s|
    ensures |Reverse(s)| == |s| && Reverse(s)[i] == s[|s| - 1 - i]
  {
    if |s| > 1 { ReverseAt(s[1..], if i < |s| - 1 then i else 0); }
  }

  lemma {:induction false} ReverseTwice(s: Ring)
    ensures |Reverse(s)| == |s| && Reverse(Reverse(s)) == s
  {
    if s != [] {
      ReverseAt(s, 0);
      ReverseAt(Reverse(s), 0);
      forall i | 0 <= i < |s| ensures Reverse(Reverse(s))[i] == s[i] {
        ReverseAt(Reverse(s), i);
        ReverseAt(s, |s| - 1 - i);
      }
    }
  }

  method ForEach(head: ListHead, ghost r: Ring) returns (visited: Ring)
    requires IsRing(r) && r != [] && r[0] == head
    ensures visited == r[1..]
  {
    visited := [];
    assert head.next == r[Succ(0, |r|)];
    var pos: ListHead := head.next;
    while pos != head
      invariant |visited| < |r| && visited == r[1..][..|visited|]
      invariant pos == r[Succ(|visited|, |r|)]
      decreases |r| - |visited|
    {
      visited := visited + [pos];
      assert pos.next == r[Succ(|visited|, |r|)];
      pos := pos.next;
    }
  }

  method ForEachPrev(head: ListHead, ghost r: Ring) returns (visited: Ring)
    requires IsRing(r) && r != [] && r[0] == head
    ensures visited == Reverse(r[1..])
  {
    visited := [];
    assert head.prev == r[Pred(0, |r|)];
    var pos: ListHead := head.prev;
    ghost var i := Pred(0, |r|);
    while pos != head
      invariant 0 <= i < |r| && pos == r[i]
      invariant visited == Reverse(r[i+1..])
      decreases i
    {
      visited := visited + [pos];
      assert r[i..][1..] == r[i+1..];
      assert pos.prev == r[Pred(i, |r|)];
      i := i - 1;
      pos := pos.prev;
    }
    assert i == 0 by { assert r[0] == r[i]; }
  }

  // Ring r once its first n entries have been deleted.
  ghost function Rest(r: Ring, n: nat): Ring
    requires n < |r|
  {
    [r[0]] + r[n+1..]
  }

  // The node at position i, or the head after the last one.
  ghost function NodeAt(r: Ring, i: nat): ListHead
    requires r != []
  {
    if i < |r| then r[i] else r[0]
  }

  lemma RestLinks(r: Ring, n: nat)
    requires n < |r| && IsRing(Rest(r, n))
    ensures r[0].next == NodeAt(r, n + 1)
    ensures n + 1 < |r| ==> r[n+1].next == NodeAt(r, n + 2) && r[n+1].prev == r[0]
  {
    var s := Rest(r, n);
    assert s[0].next == s[Succ(0, |s|)];
    if |s| > 1 { assert s[1].next == s[Succ(1, |s|)] && s[1].prev == s[0]; }
  }

  lemma HeadOnce(r: Ring, n: nat)
    requires Distinct(r) && n < |r|
    ensures NodeAt(r, n + 1) == r[0] <==> n + 1 == |r|
  {
  }

  lemma RestEnd(r: Ring)
    requires r != []
    ensures Rest(r, |r| - 1) == [r[0]]
  {
  }

  // The first n entries have been unlinked to NULL.
  ghost predicate Cleared(r: Ring, n: nat)
    requires n < |r|
    reads r
  {
    forall i :: 1 <= i <= n ==> r[i].next == null && r[i].prev == null
  }

  // One round of the loop below: delete the entry after the first n.
  method DelNext(pos: ListHead, ghost r: Ring, ghost n: nat)
    requires n + 1 < |r| && IsRing(Rest(r, n)) && Distinct(r) && pos == r[n+1]
    requires Cleared(r, n)
    modifies r
    ensures IsRing(Rest(r, n + 1)) && Cleared(r, n + 1)
  {
    ghost var s := Rest(r, n);
    RestLinks(r, n);
    assert s[1] == pos && s[..1] + s[2..] == Rest(r, n + 1);
    ListDel(pos, [s], 0, 1);
    assert Remove([s], 0, 1)[0] == Rest(r, n + 1);
  }

  // list_for_each_safe whose body is list_del(pos).
  method ForEachSafeDel(head: ListHead, ghost h: seq<Ring>, ghost k: nat) returns (visited: Ring)
    requires Rings(h) && k < |h| && |h[k]| > 0 && h[k][0] == head
    modifies h[k]
    ensures visited == h[k][1..]
    ensures forall i :: 1 <= i < |h[k]| ==> h[k][i].next == null && h[k][i].prev == null
    ensures Rings(h[k := [head]]) && ListEmpty(head)
  {
    visited := DelAll(head, h[k]);
    forall m | 0 <= m < |h| && m != k ensures IsRing(h[m]) { assert Apart(h[m], h[k]); }
  }

  method DelAll(head: ListHead, ghost r: Ring) returns (visited: Ring)
    requires IsRing(r) && r != [] && r[0] == head
    modifies r
    ensures visited == r[1..] && Cleared(r, |r| - 1)
    ensures IsRing([head]) && ListEmpty(head)
  {
    ghost var n := 0;
    visited := [];
    assert Rest(r, 0) == r;
    RestLinks(r, 0);
    RestEnd(r);
    HeadOnce(r, 0);
    var pos: ListHead := head.next;
    var tmp: ListHead := pos.next;
    assert Cleared(r, 0);
    VisitStep(r, 0);
    hide IsRing, Rest, Distinct, NodeAt, Cleared;
    while pos != head
      invariant n < |r| && IsRing(Rest(r, n)) && (pos == head <==> n + 1 == |r|)
      invariant visited == r[1..n+1] && Cleared(r, n)
      invariant pos == NodeAt(r, n + 1) && (n + 1 < |r| ==> pos == r[n+1] && tmp == NodeAt(r, n + 2))
      decreases |r| - n
    {
      DelNext(pos, r, n);
      VisitStep(r, n);
      visited, n := visited + [pos], n + 1;
      pos := tmp;
      RestLinks(r, n);
      HeadOnce(r, n);
      assert n + 1 < |r| ==> pos == r[n+1] by { NodeAtIs(r, n + 1); }
      NodeAtIs(r, n + 1);
      tmp := pos.next;
    }
    VisitStep(r, n);
    RestLinks(r, n);
    NodeAtIs(r, n + 1);
  }

  lemma VisitStep(r: Ring, n: nat)
    requires n < |r|
    ensures r[1..1] == [] && r[1..|r|] == r[1..]
    ensures n + 1 < |r| ==> r[1..n+1] + [r[n+1]] == r[1..n+2]
  {
  }

  lemma NodeAtIs(r: Ring, i: nat)
    requires r != []
    ensures NodeAt(r, i) == if i < |r| then r[i] else r[0]
  {
  }
}
