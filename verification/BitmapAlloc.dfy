/** Blocks handed out of a bitmap: bitmap_find_zero_area followed by bitmap_set_range takes a block,
    bitmap_clear_range of an outstanding block gives it back (kernel/lib/bitmap.c:85-95, 141-175). */
module BitmapAlloc {
  import opened Bitmaps
  import opened Blocks
  import opened Words

  datatype State = State(bits: seq<bool>, blocks: seq<Block>)

  datatype Op = Alloc(count: nat) | Free(i: nat)

  // The least start of a free run from p on.
  function FitFrom(s: seq<bool>, count: nat, p: nat): (r: nat)
    requires p <= |s|
    decreases |s| - p
  {
    if p + count > |s| then |s|
    else if forall j :: p <= j < p + count ==> !s[j] then p
    else FitFrom(s, count, p + 1)
  }

  lemma {:induction false} FitIsLeast(s: seq<bool>, count: nat, p: nat, r: nat)
    requires p <= |s| && 0 < count
    requires r == |s| || (p <= r && FreeRun(s, r, count))
    requires forall q :: p <= q < r ==> !FreeRun(s, q, count)
    ensures r == FitFrom(s, count, p)
    decreases |s| - p
  {
    if p + count <= |s| {
      if FreeRun(s, p, count) { assert p >= r; } else { FitIsLeast(s, count, p + 1, r); }
    }
  }

  function Assigned(s: seq<bool>, b: Block, v: bool): seq<bool> {
    seq(|s|, j requires 0 <= j < |s| => if b.start <= j < b.start + b.size then v else s[j])
  }

  function Step(st: State, op: Op): State {
    match op
    case Alloc(count) =>
      if count == 0 || count > |st.bits| then st
      else
        var r := FitFrom(st.bits, count, 0);
        if r == |st.bits| then st
        else State(Assigned(st.bits, Block(r, count), true), st.blocks + [Block(r, count)])
    case Free(i) =>
      if i >= |st.blocks| then st
      else State(Assigned(st.bits, st.blocks[i], false), st.blocks[..i] + st.blocks[i+1..])
  }

  function Run(st: State, ops: seq<Op>): State {
    if ops == [] then st else Step(Run(st, ops[..|ops|-1]), ops[|ops|-1])
  }

  ghost predicate Covers(blocks: seq<Block>, j: nat) {
    exists i :: 0 <= i < |blocks| && In(blocks[i], j)
  }

  ghost predicate InBounds(blocks: seq<Block>, n: nat) {
    forall i :: 0 <= i < |blocks| ==> 0 < blocks[i].size && blocks[i].start + blocks[i].size <= n
  }

  ghost predicate Apart(blocks: seq<Block>) {
    forall i, k, j :: 0 <= i < k < |blocks| && In(blocks[i], j) ==> !In(blocks[k], j)
  }

  // Blocks in bounds and pairwise disjoint, the set bits exactly their union, and as many as their lengths add up to.
  ghost predicate Inv(st: State) {
    && InBounds(st.blocks, |st.bits|)
    && Apart(st.blocks)
    && (forall j :: 0 <= j < |st.bits| ==> st.bits[j] == Covers(st.blocks, j))
    && CountTrue(st.bits) == Sizes(st.blocks)
  }

  lemma {:induction false} RunKeepsInv(bits: seq<bool>, ops: seq<Op>)
    requires forall j :: 0 <= j < |bits| ==> !bits[j]
    ensures Inv(Run(State(bits, []), ops))
  {
    if ops == [] {
      CountZero(bits);
    } else {
      RunKeepsInv(bits, ops[..|ops|-1]);
      StepKeepsInv(Run(State(bits, []), ops[..|ops|-1]), ops[|ops|-1]);
    }
  }

  lemma {:induction false} FitFromFits(s: seq<bool>, count: nat, p: nat)
    requires p <= |s| && 0 < count
    ensures FitFrom(s, count, p) == |s| || FreeRun(s, FitFrom(s, count, p), count)
    decreases |s| - p
  {
    if p + count <= |s| && !FreeRun(s, p, count) { FitFromFits(s, count, p + 1); }
  }

  lemma StepKeepsInv(st: State, op: Op)
    requires Inv(st)
    ensures Inv(Step(st, op))
  {
    match op
    case Alloc(count) =>
      if 0 < count <= |st.bits| {
        var r := FitFrom(st.bits, count, 0);
        FitFromFits(st.bits, count, 0);
        if r < |st.bits| { AllocKeepsInv(st, Block(r, count)); }
      }
    case Free(i) =>
      if i < |st.blocks| { FreeKeepsInv(st, i); }
  }

  lemma CoversAdded(blocks: seq<Block>, b: Block, j: nat)
    ensures Covers(blocks + [b], j) <==> Covers(blocks, j) || In(b, j)
  {
    if Covers(blocks, j) {
      var i :| 0 <= i < |blocks| && In(blocks[i], j);
      assert (blocks + [b])[i] == blocks[i];
    }
    assert (blocks + [b])[|blocks|] == b;
  }

  lemma CoversWithout(blocks: seq<Block>, i: nat, j: nat)
    requires i < |blocks| && Apart(blocks)
    ensures Covers(blocks[..i] + blocks[i+1..], j) <==> Covers(blocks, j) && !In(blocks[i], j)
  {
    var rest := blocks[..i] + blocks[i+1..];
    if Covers(rest, j) {
      var k :| 0 <= k < |rest| && In(rest[k], j);
      assert rest[k] == blocks[if k < i then k else k + 1];
    }
    if Covers(blocks, j) && !In(blocks[i], j) {
      var k :| 0 <= k < |blocks| && In(blocks[k], j);
      assert blocks[k] == rest[if k < i then k else k - 1];
    }
  }

  lemma AllocKeepsInv(st: State, b: Block)
    requires Inv(st) && 0 < b.size && FreeRun(st.bits, b.start, b.size)
    ensures Inv(State(Assigned(st.bits, b, true), st.blocks + [b]))
  {
    hide CountTrue, Sizes, Covers;
    var t := State(Assigned(st.bits, b, true), st.blocks + [b]);
    assert Apart(t.blocks) by {
      forall i, j | 0 <= i < |st.blocks| && In(st.blocks[i], j) ensures !In(b, j) { BlockCovers(st.blocks, i, j); }
    }
    forall j | 0 <= j < |t.bits| ensures t.bits[j] == Covers(t.blocks, j) { CoversAdded(st.blocks, b, j); }
    CountAssigned(st.bits, b, true);
    SizesAdded(st.blocks, b);
  }

  lemma BlockCovers(blocks: seq<Block>, i: nat, j: nat)
    requires i < |blocks| && In(blocks[i], j)
    ensures Covers(blocks, j)
  {
  }

  lemma SizesAdded(blocks: seq<Block>, b: Block)
    ensures Sizes(blocks + [b]) == Sizes(blocks) + b.size
  {
    assert (blocks + [b])[..|blocks|] == blocks;
  }

  lemma FreeKeepsInv(st: State, i: nat)
    requires Inv(st) && i < |st.blocks|
    ensures Inv(State(Assigned(st.bits, st.blocks[i], false), st.blocks[..i] + st.blocks[i+1..]))
  {
    hide CountTrue, Sizes, Covers;
    var b := st.blocks[i];
    var t := State(Assigned(st.bits, b, false), st.blocks[..i] + st.blocks[i+1..]);
    forall j | 0 <= j < |t.bits| ensures t.bits[j] == Covers(t.blocks, j) { CoversWithout(st.blocks, i, j); }
    forall j | In(b, j) ensures st.bits[j] { BlockCovers(st.blocks, i, j); }
    CountAssigned(st.bits, b, false);
    SizesWithout(st.blocks, i);
  }

  lemma {:induction false} SizesWithout(blocks: seq<Block>, i: nat)
    requires i < |blocks|
    ensures Sizes(blocks) == Sizes(blocks[..i] + blocks[i+1..]) + blocks[i].size
  {
    var n, first, b := |blocks| - 1, blocks[..|blocks|-1], blocks[|blocks|-1];
    assert blocks == first + [b];
    if i == n {
      assert blocks[..i] + blocks[i+1..] == first;
      SizesAdded(first, b);
    } else {
      assert blocks[..i] + blocks[i+1..] == (first[..i] + first[i+1..]) + [b];
      hide Sizes;
      SizesWithout(first, i);
      SizesAdded(first, b);
      SizesAdded(first[..i] + first[i+1..], b);
    }
  }

  // Turning over a run of b.size equal bits changes the count by that many.
  lemma {:induction false} CountAssigned(s: seq<bool>, b: Block, v: bool)
    requires b.start + b.size <= |s| && forall j :: In(b, j) ==> s[j] == !v
    ensures v ==> CountTrue(Assigned(s, b, v)) == CountTrue(s) + b.size
    ensures !v ==> CountTrue(Assigned(s, b, v)) + b.size == CountTrue(s)
  {
    hide CountTrue;
    var lo, hi := b.start, b.start + b.size;
    var t := Assigned(s, b, v);
    CountSplit(s, lo, hi);
    CountSplit(t, lo, hi);
    assert t[..lo] == s[..lo] && t[hi..] == s[hi..];
    CountConstant(s[lo..hi], !v);
    CountConstant(t[lo..hi], v);
  }

  lemma CountSplit(s: seq<bool>, lo: nat, hi: nat)
    requires lo <= hi <= |s|
    ensures CountTrue(s) == CountTrue(s[..lo]) + CountTrue(s[lo..hi]) + CountTrue(s[hi..])
  {
    hide CountTrue;
    assert s == s[..hi] + s[hi..] && s[..hi] == s[..lo] + s[lo..hi];
    CountAppend(s[..hi], s[hi..]);
    CountAppend(s[..lo], s[lo..hi]);
  }

  lemma {:induction false} CountConstant(s: seq<bool>, v: bool)
    requires forall j :: 0 <= j < |s| ==> s[j] == v
    ensures CountTrue(s) == if v then |s| else 0
  {
    if s != [] { CountConstant(s[..|s|-1], v); }
  }

  // ----- the same steps on a packed bitmap -----

  lemma RangeIsBlock(s: seq<bool>, bits: nat, b: Block, v: bool)
    requires bits <= |s| && bits < SIZE_LIMIT && b.start + b.size <= bits
    ensures RangeAssigned(s, bits, b.start, b.size, v)[..bits] == Assigned(s[..bits], b, v)
    ensures RangeAssigned(s, bits, b.start, b.size, v)[bits..] == s[bits..]
  {
    forall j | 0 <= j < bits ensures Covered(b.start, b.size, j) <==> In(b, j) {
      CoveredInterval(b.start, b.size, j);
    }
  }

  // The caller's protocol: ask for an area, take it when there is one.
  method Allocate(b: Bitmap, count: nat, ghost blocks: seq<Block>) returns (r: nat, ghost after: seq<Block>)
    requires b.Valid() && b.data != null && count < SIZE_LIMIT
    modifies b.data
    ensures State(b.Bits(), after) == Step(State(old(b.Bits()), blocks), Alloc(count))
    ensures b.AllBits()[b.bits..] == old(b.AllBits()[b.bits..])
    ensures r < b.bits <==> after != blocks
  {
    r := b.FindZeroArea(count);
    after := blocks;
    AreaIsFit(b.Bits(), count, r);
    hide Bit, View, FreeRun, FitFrom;
    if r < b.bits {
      b.SetRange(r, count);
      RangeIsBlock(old(b.AllBits()), b.bits, Block(r, count), true);
      after := blocks + [Block(r, count)];
      assert |after| == |blocks| + 1;
    }
  }

  // What bitmap_find_zero_area promises decides what it returns.
  lemma AreaIsFit(s: seq<bool>, count: nat, r: nat)
    requires if 0 < count <= |s| then
        (r == |s| || FreeRun(s, r, count)) && forall p :: 0 <= p < r ==> !FreeRun(s, p, count)
      else r == BITMAP_ERROR
    ensures 0 < count <= |s| ==> r == FitFrom(s, count, 0) && r <= |s| && (r < |s| ==> r + count <= |s|)
  {
    hide FitFrom;
    if 0 < count <= |s| { FitIsLeast(s, count, 0, r); }
  }

  method Release(b: Bitmap, ghost blocks: seq<Block>, ghost i: nat, start: nat, size: nat)
    requires b.Valid() && b.data != null
    requires i < |blocks| && blocks[i] == Block(start, size) && start + size <= b.bits
    modifies b.data
    ensures State(b.Bits(), blocks[..i] + blocks[i+1..]) == Step(State(old(b.Bits()), blocks), Free(i))
    ensures b.AllBits()[b.bits..] == old(b.AllBits()[b.bits..])
  {
    hide Bit, View;
    b.ClearRange(start, size);
    RangeIsBlock(old(b.AllBits()), b.bits, Block(start, size), false);
  }

  // A request is refused exactly when no run of that many clear bits is left.
  lemma AllocGrants(st: State, count: nat)
    requires 0 < count <= |st.bits|
    ensures Step(st, Alloc(count)) != st <==> exists p :: FreeRun(st.bits, p, count)
  {
    var r := FitFrom(st.bits, count, 0);
    FitFromFits(st.bits, count, 0);
    if r < |st.bits| { assert |Step(st, Alloc(count)).blocks| == |st.blocks| + 1; }
    if exists p :: FreeRun(st.bits, p, count) {
      var p :| FreeRun(st.bits, p, count);
      FitFromFinds(st.bits, count, 0, p);
    }
  }

  lemma {:induction false} FitFromFinds(s: seq<bool>, count: nat, p: nat, q: nat)
    requires p <= q && 0 < count && FreeRun(s, q, count)
    ensures FitFrom(s, count, p) <= q
    decreases q - p
  {
    if p < q { FitFromFinds(s, count, p + 1, q); }
  }
}
