/** The bump allocator: kernel/mm/heap.c, heap_init and kmalloc; kfree does nothing, so no block ever comes back.

    Addresses and sizes are 32 bits wide, and both the rounding of the size and the sum with the current
    address wrap. */
module KHeap {
  import opened Blocks
  import opened Words

  // (n + 7) & ~(size_t)7: clearing the low three bits takes off the remainder modulo 8.
  function Round(n: nat): nat {
    var m := AddSize(n, 7);
    m - m % 8
  }

  // On the 32-bit words themselves.
  lemma RoundWord(n: bv32)
    ensures var r := (n + 7) & !7;
      r & 7 == 0 && if n <= 0xFFFF_FFF8 then n <= r && r - n < 8 else r == 0
  {
  }

  lemma RoundRange(n: nat)
    ensures Round(n) % 8 == 0 && Round(n) < SIZE_LIMIT
  {
  }

  // The least multiple of 8 not below n; for the last seven sizes the sum wraps and the result is 0.
  lemma RoundIsLeast(n: nat, m: nat)
    requires n < SIZE_LIMIT
    ensures Round(n) >= n <==> n <= 0xFFFF_FFF8
    ensures Round(n) % 8 == 0 && (n > 0xFFFF_FFF8 ==> Round(n) == 0)
    ensures n <= 0xFFFF_FFF8 && m % 8 == 0 && n <= m ==> Round(n) <= m
  {
  }

  lemma RoundMonotone(n: nat, m: nat)
    requires n <= m <= 0xFFFF_FFF8
    ensures Round(n) <= Round(m)
  {
  }

  datatype Ptr = Null | At(addr: nat)

  datatype State = State(start: nat, current: nat, end: nat, blocks: seq<Block>)

  function Malloc(st: State, n: nat): (State, Ptr) {
    var size := Round(n);
    if AddSize(st.current, size) >= st.end then (st, Null)
    else (st.(current := AddSize(st.current, size), blocks := st.blocks + [Block(st.current, size)]), At(st.current))
  }

  function Run(st: State, ns: seq<nat>): State {
    if ns == [] then st else Malloc(Run(st, ns[..|ns|-1]), ns[|ns|-1]).0
  }

  // Where block i begins when the blocks follow each other from `from`.
  ghost predicate Packed(blocks: seq<Block>, from: nat, to: nat) {
    if blocks == [] then from == to
    else
      var b := blocks[|blocks|-1];
      b.start + b.size == to && b.size % 8 == 0 && Packed(blocks[..|blocks|-1], from, b.start)
  }

  ghost predicate Inv(st: State) {
    && st.start <= st.current < SIZE_LIMIT && st.end < SIZE_LIMIT
    && st.start % 8 == 0
    && (st.blocks != [] ==> st.current < st.end)
    && Packed(st.blocks, st.start, st.current)
  }

  // What the invariant says of the blocks handed out: aligned, in bounds, and as large in all as the distance
  // travelled; each one ends before the later ones begin.
  lemma {:induction false} PackedBlocks(blocks: seq<Block>, from: nat, to: nat)
    requires Packed(blocks, from, to) && from % 8 == 0
    ensures from <= to && Sizes(blocks) == to - from && to % 8 == 0
    ensures forall i :: 0 <= i < |blocks| ==> Within(blocks[i], from, to)
  {
    if blocks != [] {
      PackedBlocks(blocks[..|blocks|-1], from, blocks[|blocks|-1].start);
    }
  }

  predicate Within(b: Block, from: nat, to: nat) {
    b.start % 8 == 0 && from <= b.start && b.start + b.size <= to
  }

  lemma {:induction false} PackedOrder(blocks: seq<Block>, from: nat, to: nat, i: nat, k: nat)
    requires Packed(blocks, from, to) && from % 8 == 0 && i < k < |blocks|
    ensures blocks[i].start + blocks[i].size <= blocks[k].start
  {
    var n := |blocks| - 1;
    if k < n {
      PackedOrder(blocks[..n], from, blocks[n].start, i, k);
    } else {
      PackedBlocks(blocks[..n], from, blocks[n].start);
      assert Within(blocks[..n][i], from, blocks[n].start);
    }
  }

  // The one way to go wrong: the sum wraps round to an address below the end of the heap.
  predicate WrapsIntoHeap(st: State, n: nat) {
    st.current + Round(n) >= SIZE_LIMIT && AddSize(st.current, Round(n)) < st.end
  }

  lemma MallocKeepsInv(st: State, n: nat)
    requires Inv(st)
    ensures Inv(Malloc(st, n).0) <==> !WrapsIntoHeap(st, n)
  {
    RoundRange(n);
    SumWraps(st.current, Round(n));
    hide Round, AddSize;
    var t := Malloc(st, n).0;
    if t != st { assert t.blocks[..|t.blocks|-1] == st.blocks; }
  }

  lemma WrapExample()
    ensures var st := State(0x1000, 0x1008, 0x8000_0000, [Block(0x1000, 8)]);
      && Inv(st) && WrapsIntoHeap(st, 0xFFFF_F000)
      && Malloc(st, 0xFFFF_F000).1 == At(0x1008) && Malloc(st, 0xFFFF_F000).0.current == 8
  {
    var st := State(0x1000, 0x1008, 0x8000_0000, [Block(0x1000, 8)]);
    assert st.blocks[..0] == [] && Packed([], 0x1000, 0x1000);
    assert Packed(st.blocks, st.start, st.current);
  }

  // No request of the run wraps into the heap.
  ghost predicate Safe(st: State, ns: seq<nat>) {
    forall i :: 0 <= i < |ns| ==> !WrapsIntoHeap(Run(st, ns[..i]), ns[i])
  }

  // A broken invariant stays broken.
  lemma InvBefore(st: State, n: nat)
    requires Inv(Malloc(st, n).0)
    ensures Inv(st)
  {
    hide Round, AddSize;
    var t := Malloc(st, n).0;
    if t != st {
      assert t.blocks[..|t.blocks|-1] == st.blocks;
      PackedBlocks(st.blocks, st.start, st.current);
    }
  }

  lemma {:induction false} SafePrefix(st: State, ns: seq<nat>)
    requires ns != []
    ensures Safe(st, ns) <==> Safe(st, ns[..|ns|-1]) && !WrapsIntoHeap(Run(st, ns[..|ns|-1]), ns[|ns|-1])
  {
    var k := |ns| - 1;
    hide WrapsIntoHeap, Run;
    assert forall i :: 0 <= i < k ==> ns[..k][..i] == ns[..i] && ns[..k][i] == ns[i];
  }

  // A whole run keeps the invariant if and only if none of its requests wraps into the heap.
  lemma {:induction false} RunKeepsInv(st: State, ns: seq<nat>)
    requires Inv(st)
    ensures Inv(Run(st, ns)) <==> Safe(st, ns)
    ensures Safe(st, ns) ==>
      Run(st, ns).start == st.start && Run(st, ns).end == st.end && st.current <= Run(st, ns).current
  {
    if ns != [] {
      var k := |ns| - 1;
      var t := Run(st, ns[..k]);
      RunKeepsInv(st, ns[..k]);
      SafePrefix(st, ns);
      if Inv(t) { MallocKeepsInv(t, ns[k]); } else if Inv(Malloc(t, ns[k]).0) { InvBefore(t, ns[k]); }
      hide Inv, Safe, WrapsIntoHeap, Round, AddSize;
      MallocMoves(t, ns[k]);
    }
  }

  lemma MallocMoves(st: State, n: nat)
    ensures Malloc(st, n).0.start == st.start && Malloc(st, n).0.end == st.end
    ensures Inv(Malloc(st, n).0) ==> st.current <= Malloc(st, n).0.current
  {
    var t := Malloc(st, n).0;
    if t != st && Inv(t) { assert t.blocks[|t.blocks|-1] == Block(st.current, Round(n)); }
    hide Round, AddSize;
  }

  // Every run of kmalloc on a fresh heap: the blocks are aligned, inside the heap, pairwise disjoint when not empty,
  // and their rounded sizes add up to the distance heap_current has moved.
  lemma RunBlocks(start: nat, size: nat, ns: seq<nat>)
    requires start % 8 == 0 && start < SIZE_LIMIT && Safe(State(start, start, AddSize(start, size), []), ns)
    ensures var st := Run(State(start, start, AddSize(start, size), []), ns);
      && Sizes(st.blocks) == st.current - start && (st.blocks != [] ==> st.current < AddSize(start, size))
      && (forall i :: 0 <= i < |st.blocks| ==> Within(st.blocks[i], start, st.current))
      && (forall i, k, a :: 0 <= i < k < |st.blocks| && In(st.blocks[i], a) ==> !In(st.blocks[k], a))
  {
    var st0 := State(start, start, AddSize(start, size), []);
    RunKeepsInv(st0, ns);
    var st := Run(st0, ns);
    PackedBlocks(st.blocks, start, st.current);
    forall i, k, a | 0 <= i < k < |st.blocks| && In(st.blocks[i], a) ensures !In(st.blocks[k], a) {
      PackedOrder(st.blocks, start, st.current, i, k);
    }
  }

  // What a request gets, r being its size rounded up: a block at heap_current exactly when the sum, which may wrap,
  // lies below the end of the heap.
  lemma MallocGrants(st: State, n: nat, r: nat)
    requires Inv(st) && n < SIZE_LIMIT && if n <= 0xFFFF_FFF8 then r % 8 == 0 && n <= r < n + 8 else r == 0
    ensures var (t, p) := Malloc(st, n); var sum := st.current + r;
      && (p == At(st.current) <==> if sum < 0x1_0000_0000 then sum < st.end else sum - 0x1_0000_0000 < st.end)
      && (p == Null ==> t == st) && (p != Null ==> p == At(st.current))
      && (p != Null ==> t.blocks == st.blocks + [Block(st.current, r)] && t.end == st.end)
      && (p != Null && sum < 0x1_0000_0000 ==> t.current == sum)
  {
    RoundIsLeast(n, r);
    SumWraps(st.current, r);
    assert Round(n) == r;
    hide Round, AddSize;
  }

  function RoundUp(n: nat): (r: nat)
    ensures r % 8 == 0 && n <= r < n + 8
  {
    n + (8 - n % 8) % 8
  }

  function Asked(ns: seq<nat>): nat {
    if ns == [] then 0 else Asked(ns[..|ns|-1]) + RoundUp(ns[|ns|-1])
  }

  // One more request after a run that was granted in full, or not.
  lemma StepGrants(st: State, n: nat)
    requires Inv(st) && n <= 0xFFFF_FFF8 && !WrapsIntoHeap(st, n)
    ensures var t := Malloc(st, n).0;
      if st.current + RoundUp(n) < st.end
      then |t.blocks| == |st.blocks| + 1 && t.current == st.current + RoundUp(n)
      else t == st
  {
    hide Malloc, Inv, RoundUp, WrapsIntoHeap;
    MallocGrants(st, n, RoundUp(n));
    WrapsIs(st, n);
  }

  lemma WrapsIs(st: State, n: nat)
    requires Inv(st) && n <= 0xFFFF_FFF8
    ensures WrapsIntoHeap(st, n) <==>
      st.current + RoundUp(n) >= SIZE_LIMIT && st.current + RoundUp(n) - SIZE_LIMIT < st.end
    ensures st.end < SIZE_LIMIT
  {
    RoundIs(n);
    SumWraps(st.current, RoundUp(n));
    hide Round, RoundUp, AddSize, Packed;
  }

  lemma RoundIs(n: nat)
    requires n <= 0xFFFF_FFF8
    ensures Round(n) == RoundUp(n) < SIZE_LIMIT
  {
    RoundIsLeast(n, RoundUp(n));
    RoundRange(n);
    hide Round, RoundUp;
  }

  // A run on a fresh heap is granted in full exactly when its sizes, each rounded up to a multiple of 8, add up to less
  // than the heap.
  lemma {:induction false} RunGrants(start: nat, size: nat, ns: seq<nat>)
    requires start % 8 == 0 && start + size < SIZE_LIMIT && Safe(State(start, start, start + size, []), ns)
    requires forall i :: 0 <= i < |ns| ==> ns[i] <= 0xFFFF_FFF8
    ensures var st := Run(State(start, start, start + size, []), ns);
      && |st.blocks| <= |ns| && (|st.blocks| == |ns| <==> ns == [] || Asked(ns) < size)
      && (|st.blocks| == |ns| ==> st.current == start + Asked(ns))
  {
    if ns != [] {
      var st0, k := State(start, start, start + size, []), |ns| - 1;
      SafePrefix(st0, ns);
      RunKeepsInv(st0, ns[..k]);
      RunGrants(start, size, ns[..k]);
      hide Inv, Safe, Malloc, RoundUp, WrapsIntoHeap;
      StepGrants(Run(st0, ns[..k]), ns[k]);
    }
  }

  // After a request has failed, a later request of at least that size fails too, exactly when its sum does not wrap
  // into the heap and its size is not one of the seven that round to 0.
  lemma FailureLasts(st: State, n: nat, ns: seq<nat>, m: nat)
    requires Inv(st) && Malloc(st, n).1 == Null && Safe(st, ns) && n <= m < SIZE_LIMIT
    ensures var t := Run(st, ns);
      Malloc(t, m).1 == Null <==> !WrapsIntoHeap(t, m) && (m <= 0xFFFF_FFF8 || t.current >= t.end)
  {
    RunKeepsInv(st, ns);
    RoundIsLeast(m, m);
    if m <= 0xFFFF_FFF8 { RoundMonotone(n, m); }
    RoundRange(n);
    RoundRange(m);
    SumWraps(st.current, Round(n));
    SumWraps(Run(st, ns).current, Round(m));
    hide Round, AddSize, Packed;
  }

  // Such a size: it is granted, with a block of no bytes, where 0x8000 bytes were refused.
  lemma FailureEnds()
    ensures var st := State(0x1000, 0x1000, 0x2000, []);
      Inv(st) && Malloc(st, 0x8000) == (st, Null) && Malloc(st, 0xFFFF_FFFF).1 == At(0x1000)
        && Malloc(st, 0xFFFF_FFFF).0.blocks == [Block(0x1000, 0)]
  {
  }

  // ----- the code -----

  class Heap {
    var start: nat
    var current: nat
    var end: nat
    ghost var blocks: seq<Block>

    ghost function View(): State
      reads this
    {
      State(start, current, end, blocks)
    }

    method Init(start: nat, size: nat)
      requires start < SIZE_LIMIT && size < SIZE_LIMIT
      modifies this
      ensures View() == State(start, start, AddSize(start, size), [])
    {
      this.start := start;
      end := AddSize(this.start, size);
      current := this.start;
      blocks := [];
    }

    method KMalloc(size: nat) returns (ptr: Ptr)
      requires size < SIZE_LIMIT
      modifies this
      ensures (View(), ptr) == Malloc(old(View()), size)
    {
      var rounded := AddSize(size, 7);
      rounded := rounded - rounded % 8;
      if AddSize(current, rounded) >= end { return Null; }
      ptr := At(current);
      blocks := blocks + [Block(current, rounded)];
      current := AddSize(current, rounded);
    }
  }
}
