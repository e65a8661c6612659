/** Packed bitmaps: kernel/lib/bitmap.c.

    A bitmap keeps `bits` bits in bytes, low bit first.  Everything is proved against the plain sequence
    of booleans `Bits()`, which has one entry for every bit of every byte, padding included. */
module Bitmaps {
  import opened Words

  const BITMAP_ERROR: nat := 0xFFFF_FFFF

  // ----- bits of a byte -----

  // 1 << k
  function Mask(k: nat): bv8
    requires k < 8
  {
    if k == 0 then 1 else if k == 1 then 2 else if k == 2 then 4 else if k == 3 then 8
    else if k == 4 then 16 else if k == 5 then 32 else if k == 6 then 64 else 128
  }

  predicate Bit(b: bv8, k: nat)
    requires k < 8
  {
    b & Mask(k) != 0
  }

  // b | (1 << k), b & ~(1 << k), b ^ (1 << k) and b & ((1 << k) - 1)
  function OrBit(b: bv8, k: nat): bv8
    requires k < 8
  {
    b | Mask(k)
  }

  function AndNotBit(b: bv8, k: nat): bv8
    requires k < 8
  {
    b & !Mask(k)
  }

  function XorBit(b: bv8, k: nat): bv8
    requires k < 8
  {
    b ^ Mask(k)
  }

  function LowBits(b: bv8, k: nat): bv8
    requires k < 8
  {
    b & (Mask(k) - 1)
  }

  lemma OrBitAt(b: bv8, k: nat, j: nat)
    requires k < 8 && j < 8
    ensures Bit(OrBit(b, k), j) == (j == k || Bit(b, j))
  {
  }

  lemma AndNotBitAt(b: bv8, k: nat, j: nat)
    requires k < 8 && j < 8
    ensures Bit(AndNotBit(b, k), j) == (j != k && Bit(b, j))
  {
  }

  lemma XorBitAt(b: bv8, k: nat, j: nat)
    requires k < 8 && j < 8
    ensures Bit(XorBit(b, k), j) == if j == k then !Bit(b, j) else Bit(b, j)
  {
  }

  lemma LowBitsAt(b: bv8, k: nat, j: nat)
    requires k < 8 && j < 8
    ensures Bit(LowBits(b, k), j) == (j < k && Bit(b, j))
  {
  }

  lemma ConstantByteAt(j: nat)
    requires j < 8
    ensures Bit(0xFF, j) && !Bit(0, j)
  {
  }

  // ----- bytes as a sequence of booleans -----

  function View(bytes: seq<bv8>): (s: seq<bool>)
    ensures |s| == 8 * |bytes|
  {
    seq(8 * |bytes|, i requires 0 <= i < 8 * |bytes| => Bit(bytes[i / 8], i % 8))
  }

  lemma ViewUpdate(bytes: seq<bv8>, i: nat, b: bv8, v: bool)
    requires i < 8 * |bytes|
    requires forall j :: 0 <= j < 8 ==> Bit(b, j) == if j == i % 8 then v else Bit(bytes[i / 8], j)
    ensures View(bytes[i / 8 := b]) == View(bytes)[i := v]
  {
    hide Bit;
  }

  lemma ZeroedView(b: seq<bv8>, c: seq<bv8>, n: nat)
    requires |c| == |b| && forall j :: 0 <= j < |b| ==> c[j] == if j < n then 0 else b[j]
    ensures forall i :: 0 <= i < 8 * |b| ==> View(c)[i] == (i >= 8 * n && View(b)[i])
  {
    hide Bit;
    forall i | 0 <= i < 8 * |b| ensures View(c)[i] == (i >= 8 * n && View(b)[i]) { ConstantByteAt(i % 8); }
  }

  // n bytes hold the bits, and r of them are in the last one when it is not full.
  lemma FilledView(b: seq<bv8>, c: seq<bv8>, bits: nat, n: nat, r: nat)
    requires |c| == |b| && n <= |b| && 8 * n - 8 < bits <= 8 * n && r == bits % 8
    requires forall j :: 0 <= j < |b| ==>
      c[j] == if j >= n then b[j] else if j == n - 1 && r != 0 then LowBits(0xFF, r) else 0xFF
    ensures forall i :: 0 <= i < 8 * |b| ==> View(c)[i] == (i < bits || (i >= 8 * n && View(b)[i]))
  {
    hide Bit, LowBits;
    forall i | 0 <= i < 8 * |b| ensures View(c)[i] == (i < bits || (i >= 8 * n && View(b)[i])) {
      ConstantByteAt(i % 8);
      LowBitsAt(0xFF, r, i % 8);
    }
  }

  // What the three byte updates do to the sequence of booleans.
  lemma ByteUpdates(bytes: seq<bv8>, i: nat)
    requires i < 8 * |bytes|
    ensures View(bytes[i / 8 := OrBit(bytes[i / 8], i % 8)]) == View(bytes)[i := true]
    ensures View(bytes[i / 8 := AndNotBit(bytes[i / 8], i % 8)]) == View(bytes)[i := false]
    ensures View(bytes[i / 8 := XorBit(bytes[i / 8], i % 8)]) == View(bytes)[i := !View(bytes)[i]]
  {
    hide Bit, OrBit, AndNotBit, XorBit;
    var b, k := bytes[i / 8], i % 8;
    forall j | 0 <= j < 8 ensures Bit(OrBit(b, k), j) == (j == k || Bit(b, j)) { OrBitAt(b, k, j); }
    forall j | 0 <= j < 8 ensures Bit(AndNotBit(b, k), j) == (j != k && Bit(b, j)) { AndNotBitAt(b, k, j); }
    forall j | 0 <= j < 8 ensures Bit(XorBit(b, k), j) == (if j == k then !Bit(b, j) else Bit(b, j)) {
      XorBitAt(b, k, j);
    }
    ViewUpdate(bytes, i, OrBit(b, k), true);
    ViewUpdate(bytes, i, AndNotBit(b, k), false);
    ViewUpdate(bytes, i, XorBit(b, k), !View(bytes)[i]);
  }

  // Position j is start + i modulo 2^32 for some i < count.
  predicate Covered(start: nat, count: nat, j: nat) {
    (j - start) % SIZE_LIMIT < count
  }

  // s with its covered positions below bits set to v.
  function RangeAssigned(s: seq<bool>, bits: nat, start: nat, count: nat, v: bool): seq<bool> {
    seq(|s|, j requires 0 <= j < |s| => if j < bits && Covered(start, count, j) then v else s[j])
  }

  lemma RangeStep(s: seq<bool>, bits: nat, start: nat, i: nat, v: bool)
    requires bits <= |s| && bits < SIZE_LIMIT && start < SIZE_LIMIT && i < SIZE_LIMIT
    ensures var p, t := AddSize(start, i), RangeAssigned(s, bits, start, i, v);
      RangeAssigned(s, bits, start, i + 1, v) == if p < bits then t[p := v] else t
  {
    var p := AddSize(start, i);
    forall j | 0 <= j < bits ensures Covered(start, i + 1, j) <==> Covered(start, i, j) || j == p {
      CoveredStep(start, i, j);
    }
  }

  lemma CoveredStep(start: nat, i: nat, j: nat)
    requires start < SIZE_LIMIT && i < SIZE_LIMIT && j < SIZE_LIMIT
    ensures Covered(start, i + 1, j) <==> Covered(start, i, j) || j == AddSize(start, i)
  {
  }

  // Without wrap-around the covered positions are an interval.
  lemma CoveredInterval(start: nat, count: nat, j: nat)
    requires start + count <= SIZE_LIMIT && j < SIZE_LIMIT
    ensures Covered(start, count, j) <==> start <= j < start + count
  {
  }

  // With it they are those from the start on and those below the wrapped end.
  lemma CoveredWraps(start: nat, count: nat, j: nat)
    requires start < SIZE_LIMIT && count < SIZE_LIMIT && start + count > SIZE_LIMIT && j < SIZE_LIMIT
    ensures Covered(start, count, j) <==> start <= j || j < start + count - SIZE_LIMIT
  {
  }

  // r is the first position from start on that holds v, or bits when there is none.
  ghost predicate IsFirst(s: seq<bool>, start: nat, v: bool, r: nat) {
    && r <= |s|
    && (r < |s| ==> start <= r && s[r] == v)
    && forall j :: start <= j < |s| && j < r ==> s[j] != v
  }

  lemma FirstIs(s: seq<bool>, start: nat, v: bool, r: nat)
    requires IsFirst(s, start, v, r)
    ensures r < |s| <==> v in s[if start < |s| then start else |s|..]
    ensures r < |s| ==> s[r] == v && start <= r && v !in s[start..r]
  {
    if start < |s| && v in s[start..] {
      var i :| 0 <= i < |s[start..]| && s[start..][i] == v;
      assert s[start + i] == v;
    }
    if r < |s| { assert s[start..][r - start] == v; }
  }

  ghost predicate FreeRun(s: seq<bool>, start: nat, count: nat) {
    start + count <= |s| && forall j :: start <= j < start + count ==> !s[j]
  }

  // bitmap_test on the bits of a bitmap.
  predicate TestAt(s: seq<bool>, index: nat) {
    index < |s| && s[index]
  }

  // What the two range tests answer: their size_t sums wrap.
  ghost predicate RangeAnswer(s: seq<bool>, start: nat, count: nat, v: bool) {
    AddSize(start, count) <= |s| && forall i :: 0 <= i < count ==> TestAt(s, AddSize(start, i)) == v
  }

  lemma Unwrapped(s: seq<bool>, start: nat, count: nat, v: bool)
    requires |s| < SIZE_LIMIT && start + count < SIZE_LIMIT
    ensures RangeAnswer(s, start, count, v) <==>
      start + count <= |s| && forall j :: start <= j < start + count ==> s[j] == v
  {
    SumWraps(start, count);
    forall i | 0 <= i < count ensures AddSize(start, i) == start + i { SumWraps(start, i); }
    hide AddSize;
    if RangeAnswer(s, start, count, v) {
      forall j | start <= j < start + count ensures s[j] == v { assert TestAt(s, AddSize(start, j - start)) == v; }
    }
  }

  // bitmap_test_range is right for every argument, even those whose end wraps.
  lemma TestRangeExact(s: seq<bool>, start: nat, count: nat)
    requires |s| < SIZE_LIMIT && start < SIZE_LIMIT && count < SIZE_LIMIT
    ensures RangeAnswer(s, start, count, true) <==>
      start + count <= |s| && forall j :: start <= j < start + count ==> s[j]
  {
    if start + count >= SIZE_LIMIT {
      var i := SIZE_LIMIT - 1 - start;
      SumWraps(start, i);
      hide AddSize;
      assert !TestAt(s, AddSize(start, i));
    } else {
      Unwrapped(s, start, count, true);
    }
  }

  // bitmap_test_range_clear also accepts a range that wraps past the end of the address space, when its
  // wrapped end is within the bitmap and the bits it does meet are clear.
  lemma TestRangeClearExact(s: seq<bool>, start: nat, count: nat)
    requires |s| < SIZE_LIMIT && start < SIZE_LIMIT && count < SIZE_LIMIT
    ensures start + count < SIZE_LIMIT ==> (RangeAnswer(s, start, count, false) <==> FreeRun(s, start, count))
    ensures start + count >= SIZE_LIMIT ==>
      && !FreeRun(s, start, count)
      && (RangeAnswer(s, start, count, false) <==> WrappedClear(s, start, start + count - SIZE_LIMIT))
  {
    if start + count < SIZE_LIMIT { Unwrapped(s, start, count, false); } else { WrappedAnswer(s, start, count); }
  }

  // The bits from start to the end are clear, and those below w, which lies inside.
  ghost predicate WrappedClear(s: seq<bool>, start: nat, w: nat) {
    && w <= |s|
    && (forall j :: start <= j < |s| ==> !s[j])
    && (forall j :: 0 <= j < w ==> !s[j])
  }

  lemma WrappedAnswer(s: seq<bool>, start: nat, count: nat)
    requires |s| < SIZE_LIMIT && start < SIZE_LIMIT && count < SIZE_LIMIT && start + count >= SIZE_LIMIT
    ensures RangeAnswer(s, start, count, false) <==> WrappedClear(s, start, start + count - SIZE_LIMIT)
  {
    var w := start + count - SIZE_LIMIT;
    SumWraps(start, count);
    forall i | 0 <= i < count
      ensures AddSize(start, i) == if start + i < SIZE_LIMIT then start + i else start + i - SIZE_LIMIT
    {
      SumWraps(start, i);
    }
    hide AddSize;
    if RangeAnswer(s, start, count, false) {
      forall j | start <= j < |s| ensures !s[j] { assert !TestAt(s, AddSize(start, j - start)); }
      forall j | 0 <= j < w ensures !s[j] { assert !TestAt(s, AddSize(start, j + SIZE_LIMIT - start)); }
    }
  }

  lemma TestRangeClearWraps(s: seq<bool>)
    requires |s| == 8 && forall j :: 0 <= j < 8 ==> !s[j]
    ensures RangeAnswer(s, 0xFFFF_FFFF, 2, false) && !FreeRun(s, 0xFFFF_FFFF, 2)
  {
    TestRangeClearExact(s, 0xFFFF_FFFF, 2);
  }

  function CountTrue(s: seq<bool>): (n: nat)
    ensures n <= |s|
  {
    if s == [] then 0 else CountTrue(s[..|s|-1]) + if s[|s|-1] then 1 else 0
  }

  class Bitmap {
    var data: array?<bv8>
    var bits: nat

    // What the caller of bitmap_init promises: the bytes are there.
    ghost predicate Valid()
      reads this
    {
      bits < SIZE_LIMIT && (data != null ==> bits <= 8 * data.Length)
    }

    // Every bit of every byte.
    ghost function AllBits(): seq<bool>
      reads this, data
    {
      if data == null then [] else View(data[..])
    }

    // The bits proper, without padding.
    ghost function Bits(): seq<bool>
      requires Valid() && data != null
      reads this, data
    {
      AllBits()[..bits]
    }

    method Init(data: array?<bv8>, bits: nat)
      modifies this
      ensures this.data == data && this.bits == bits
    {
      this.data := data;
      this.bits := bits;
    }

    static function Size(bits: nat): nat {
      AddSize(bits, 7) / 8
    }

    method Zero()
      requires Valid()
      modifies data
      ensures |AllBits()| == |old(AllBits())|
      ensures forall i :: 0 <= i < |AllBits()| ==> AllBits()[i] == (i >= 8 * Size(bits) && old(AllBits())[i])
    {
      hide Bit, View;
      if data == null || bits == 0 { return; }
      ghost var b := data[..];
      var bytes := Size(bits);
      for i := 0 to bytes
        invariant forall j :: 0 <= j < data.Length ==> data[j] == if j < i then 0 else b[j]
      {
        data[i] := 0;
      }
      ZeroedView(b, data[..], bytes);
    }

    static lemma SizeIs(bits: nat)
      requires bits + 7 < SIZE_LIMIT
      ensures 8 * Size(bits) - 8 < bits <= 8 * Size(bits) || bits == Size(bits) == 0
    {
    }

    // The last byte is masked although there is none, exactly for the seven sizes whose byte count wraps to 0.
    static lemma FillEscapes(bits: nat)
      requires 0 < bits < SIZE_LIMIT
      ensures Size(bits) == 0 && bits % 8 != 0 <==> bits + 7 >= SIZE_LIMIT
    {
      SumWraps(bits, 7);
    }

    method Fill()
      requires Valid() && bits + 7 < SIZE_LIMIT
      modifies data
      ensures |AllBits()| == |old(AllBits())|
      ensures forall i :: 0 <= i < |AllBits()| ==>
        AllBits()[i] == (i < bits || (i >= 8 * Size(bits) && old(AllBits())[i]))
    {
      hide Bit, View, LowBits, Size;
      SizeIs(bits);
      if data == null || bits == 0 { return; }
      ghost var b := data[..];
      var bytes := Size(bits);
      for i := 0 to bytes
        invariant forall j :: 0 <= j < data.Length ==> data[j] == if j < i then 0xFF else b[j]
      {
        data[i] := 0xFF;
      }
      var remainder := bits % 8;
      if remainder != 0 {
        data[bytes-1] := LowBits(data[bytes-1], remainder);
      }
      FilledView(b, data[..], bits, bytes, remainder);
    }

    method Set(index: nat)
      requires Valid()
      modifies data
      ensures AllBits() == if data != null && index < bits then old(AllBits())[index := true] else old(AllBits())
    {
      hide Bit, OrBit, AndNotBit, XorBit, View;
      if data == null || bits == 0 { return; }
      if bits <= index { return; }
      ghost var b := data[..];
      ByteUpdates(b, index);
      data[index / 8] := OrBit(data[index / 8], index % 8);
      assert data[..] == b[index / 8 := OrBit(b[index / 8], index % 8)];
    }

    method Clear(index: nat)
      requires Valid()
      modifies data
      ensures AllBits() == if data != null && index < bits then old(AllBits())[index := false] else old(AllBits())
    {
      hide Bit, OrBit, AndNotBit, XorBit, View;
      if data == null || bits == 0 { return; }
      if bits <= index { return; }
      ghost var b := data[..];
      ByteUpdates(b, index);
      data[index / 8] := AndNotBit(data[index / 8], index % 8);
      assert data[..] == b[index / 8 := AndNotBit(b[index / 8], index % 8)];
    }

    method Toggle(index: nat)
      requires Valid()
      modifies data
      ensures AllBits() ==
        if data != null && index < bits then old(AllBits())[index := !old(AllBits())[index]] else old(AllBits())
    {
      hide Bit, OrBit, AndNotBit, XorBit, View;
      if data == null || bits == 0 { return; }
      if index >= bits { return; }
      ghost var b := data[..];
      ByteUpdates(b, index);
      data[index / 8] := XorBit(data[index / 8], index % 8);
      assert data[..] == b[index / 8 := XorBit(b[index / 8], index % 8)];
    }

    predicate Test(index: nat)
      requires Valid()
      reads this, data
      ensures Test(index) == (data != null && index < bits && AllBits()[index])
    {
      if data == null || bits == 0 then false
      else if bits <= index then false
      else Bit(data[index / 8], index % 8)
    }

    method Assign(index: nat, value: int)
      requires Valid()
      modifies data
      ensures AllBits() == if data != null && index < bits then old(AllBits())[index := value != 0] else old(AllBits())
    {
      if value != 0 { Set(index); } else { Clear(index); }
    }

    method TestClear(index: nat) returns (val: bool)
      requires Valid()
      modifies data
      ensures val == old(Test(index))
      ensures AllBits() == if data != null && index < bits then old(AllBits())[index := false] else old(AllBits())
    {
      val := Test(index);
      Clear(index);
    }

    method SetRange(start: nat, count: nat)
      requires Valid() && start < SIZE_LIMIT && count < SIZE_LIMIT
      modifies data
      ensures AllBits() == RangeAssigned(old(AllBits()), bits, start, count, true)
    {
      for i := 0 to count
        invariant AllBits() == RangeAssigned(old(AllBits()), bits, start, i, true)
      {
        if data != null { RangeStep(old(AllBits()), bits, start, i, true); }
        Set(AddSize(start, i));
      }
    }

    method ClearRange(start: nat, count: nat)
      requires Valid() && start < SIZE_LIMIT && count < SIZE_LIMIT
      modifies data
      ensures AllBits() == RangeAssigned(old(AllBits()), bits, start, count, false)
    {
      for i := 0 to count
        invariant AllBits() == RangeAssigned(old(AllBits()), bits, start, i, false)
      {
        if data != null { RangeStep(old(AllBits()), bits, start, i, false); }
        Clear(AddSize(start, i));
      }
    }

    method FindFirstClear() returns (r: nat)
      requires Valid()
      ensures if data == null then r == BITMAP_ERROR else IsFirst(Bits(), 0, false, r)
    {
      hide Bit, View;
      if data == null { return BITMAP_ERROR; }
      ghost var s := Bits();
      for i := 0 to bits
        invariant forall j :: 0 <= j < i ==> s[j]
      {
        if !Test(i) { return i; }
      }
      return bits;
    }

    method FindFirstSet() returns (r: nat)
      requires Valid()
      ensures if data == null then r == BITMAP_ERROR else IsFirst(Bits(), 0, true, r)
    {
      hide Bit, View;
      if data == null { return BITMAP_ERROR; }
      ghost var s := Bits();
      for i := 0 to bits
        invariant forall j :: 0 <= j < i ==> !s[j]
      {
        if Test(i) { return i; }
      }
      return bits;
    }

    method FindNextClear(start: nat) returns (r: nat)
      requires Valid()
      ensures if data == null then r == BITMAP_ERROR else IsFirst(Bits(), start, false, r)
    {
      hide Bit, View;
      if data == null { return BITMAP_ERROR; }
      ghost var s := Bits();
      var i := start;
      while i < bits
        invariant start <= i && forall j :: start <= j < i && j < bits ==> s[j]
      {
        if !Test(i) { return i; }
        i := i + 1;
      }
      return bits;
    }

    method FindNextSet(start: nat) returns (r: nat)
      requires Valid()
      ensures if data == null then r == BITMAP_ERROR else IsFirst(Bits(), start, true, r)
    {
      hide Bit, View;
      if data == null { return BITMAP_ERROR; }
      ghost var s := Bits();
      var i := start;
      while i < bits
        invariant start <= i && forall j :: start <= j < i && j < bits ==> !s[j]
      {
        if Test(i) { return i; }
        i := i + 1;
      }
      return bits;
    }

    method FindZeroArea(count: nat) returns (r: nat)
      requires Valid()
      ensures data == null || count == 0 || count > bits ==> r == BITMAP_ERROR
      ensures data != null && 0 < count <= bits ==>
        && (r == bits || FreeRun(Bits(), r, count))
        && forall p :: 0 <= p < r ==> !FreeRun(Bits(), p, count)
    {
      hide Bit, View;
      if data == null || count == 0 || count > bits { return BITMAP_ERROR; }
      ghost var s := Bits();
      var currentZeros := 0;
      var startIdx := 0;
      for i := 0 to bits
        invariant currentZeros < count && currentZeros <= i
        invariant currentZeros > 0 ==> startIdx == i - currentZeros
        invariant forall j :: i - currentZeros <= j < i ==> !s[j]
        invariant i > currentZeros ==> s[i - currentZeros - 1]
        invariant forall p :: 0 <= p && p + count <= i ==> !FreeRun(s, p, count)
      {
        if !Test(i) {
          if currentZeros == 0 { startIdx := i; }
          currentZeros := currentZeros + 1;
          if currentZeros == count {
            return startIdx;
          }
        } else {
          currentZeros := 0;
        }
      }
      return bits;
    }

    method CountSet() returns (count: nat)
      requires Valid()
      ensures count == if data == null then BITMAP_ERROR else CountTrue(Bits())
    {
      hide Bit, View;
      if data == null { return BITMAP_ERROR; }
      count := 0;
      for i := 0 to bits
        invariant count == CountTrue(Bits()[..i])
      {
        assert Bits()[..i+1][..i] == Bits()[..i];
        if Test(i) { count := count + 1; }
      }
      assert Bits()[..bits] == Bits();
    }

    method TestRange(start: nat, count: nat) returns (r: bool)
      requires Valid() && start < SIZE_LIMIT && count < SIZE_LIMIT
      ensures data != null ==> (r <==> RangeAnswer(Bits(), start, count, true))
      ensures data == null ==> (r <==> AddSize(start, count) <= bits && count == 0)
    {
      hide Bit, View, AddSize;
      if AddSize(start, count) > bits { return false; }
      for i := 0 to count
        invariant forall j :: 0 <= j < i ==> Test(AddSize(start, j))
      {
        if !Test(AddSize(start, i)) { return false; }
      }
      assert count > 0 ==> Test(AddSize(start, 0));
      return true;
    }

    method TestRangeClear(start: nat, count: nat) returns (r: bool)
      requires Valid() && start < SIZE_LIMIT && count < SIZE_LIMIT
      ensures data != null ==> (r <==> RangeAnswer(Bits(), start, count, false))
      ensures data == null ==> (r <==> AddSize(start, count) <= bits)
    {
      hide Bit, View, AddSize;
      if AddSize(start, count) > bits { return false; }
      for i := 0 to count
        invariant forall j :: 0 <= j < i ==> !Test(AddSize(start, j))
      {
        if Test(AddSize(start, i)) { return false; }
      }
      return true;
    }

    method CountClear() returns (count: nat)
      requires Valid()
      ensures count == if data == null then AddSize(bits, 1) else CountTrue(Negated(Bits()))
    {
      hide Bit, View;
      var ones := CountSet();
      count := (bits - ones) % SIZE_LIMIT;
      if data != null { CountNegated(Bits()); }
    }

    method Empty() returns (r: bool)
      requires Valid()
      ensures r <==> data != null && forall i :: 0 <= i < bits ==> !Bits()[i]
    {
      hide Bit, View;
      var ones := CountSet();
      if data != null { CountZero(Bits()); }
      r := ones == 0;
    }

    method Full() returns (r: bool)
      requires Valid()
      ensures r <==> if data == null then bits == BITMAP_ERROR else forall i :: 0 <= i < bits ==> Bits()[i]
    {
      hide Bit, View;
      var clear := CountClear();
      if data != null {
        CountZero(Negated(Bits()));
        assert forall i :: 0 <= i < bits ==> Negated(Bits())[i] == !Bits()[i];
      }
      r := clear == 0;
    }
  }

  function Negated(s: seq<bool>): seq<bool> {
    seq(|s|, i requires 0 <= i < |s| => !s[i])
  }

  lemma {:induction false} CountNegated(s: seq<bool>)
    ensures CountTrue(Negated(s)) == |s| - CountTrue(s)
  {
    if s != [] {
      CountNegated(s[..|s|-1]);
      assert Negated(s)[..|s|-1] == Negated(s[..|s|-1]);
    }
  }

  lemma {:induction false} CountZero(s: seq<bool>)
    ensures CountTrue(s) == 0 <==> forall i :: 0 <= i < |s| ==> !s[i]
  {
    if s != [] { CountZero(s[..|s|-1]); }
  }

  // ----- counting by bytes -----

  // The number of ones among the low n bits.
  function OnesBelow(b: bv8, n: nat): nat
    requires n <= 8
  {
    if n == 0 then 0 else OnesBelow(b, n - 1) + if Bit(b, n - 1) then 1 else 0
  }

  function Popcount(b: bv8): nat {
    OnesBelow(b, 8)
  }

  function Popcounts(bytes: seq<bv8>): nat {
    if bytes == [] then 0 else Popcount(bytes[0]) + Popcounts(bytes[1..])
  }

  lemma {:induction false} CountAppend(s: seq<bool>, t: seq<bool>)
    ensures CountTrue(s + t) == CountTrue(s) + CountTrue(t)
  {
    if t == [] {
      assert s + t == s;
    } else {
      assert (s + t)[..|s + t| - 1] == s + t[..|t|-1];
      CountAppend(s, t[..|t|-1]);
    }
  }

  lemma {:induction false} CountByte(b: bv8, n: nat)
    requires n <= 8
    ensures CountTrue(View([b])[..n]) == OnesBelow(b, n)
  {
    hide Bit;
    if n > 0 {
      CountByte(b, n - 1);
      assert View([b])[..n][..n-1] == View([b])[..n-1];
    }
  }

  lemma {:induction false} CountBytes(bytes: seq<bv8>)
    ensures CountTrue(View(bytes)) == Popcounts(bytes)
  {
    hide Bit;
    if bytes != [] {
      assert View(bytes) == View([bytes[0]]) + View(bytes[1..]);
      CountAppend(View([bytes[0]]), View(bytes[1..]));
      CountByte(bytes[0], 8);
      assert View([bytes[0]])[..8] == View([bytes[0]]);
      CountBytes(bytes[1..]);
    }
  }

  // With the padding clear, what bitmap_count_set counts bit by bit is the sum of the byte populations.
  lemma CountSetByBytes(bytes: seq<bv8>, bits: nat)
    requires bits <= 8 * |bytes| && forall i :: bits <= i < 8 * |bytes| ==> !View(bytes)[i]
    ensures CountTrue(View(bytes)[..bits]) == Popcounts(bytes)
  {
    hide Bit, View, CountTrue, Popcounts;
    var v := View(bytes);
    assert v == v[..bits] + v[bits..];
    CountAppend(v[..bits], v[bits..]);
    CountZero(v[bits..]);
    CountBytes(bytes);
  }
}
