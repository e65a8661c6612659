/** Number printing: print_unsigned and print_signed of kernel/lib/print.c, write_dec and write_hex32 of
    kernel/arch/x86/interrupts.c.  The terminal is the sequence of characters sent to it. */
module Printing {
  import opened Sequences
  import opened Words

  // ----- the number written by a string -----

  function DigitChar(d: nat): char
    requires d < 36
  {
    if d < 10 then '0' + d as char else 'a' + (d - 10) as char
  }

  // 36 stands for a character that is no digit.
  function DigitValue(c: char): nat {
    if '0' <= c <= '9' then (c - '0') as nat
    else if 'a' <= c <= 'z' then (c - 'a') as nat + 10
    else if 'A' <= c <= 'Z' then (c - 'A') as nat + 10
    else 36
  }

  function Parse(s: string, base: nat): nat {
    if s == "" then 0 else Parse(s[..|s|-1], base) * base + DigitValue(s[|s|-1])
  }

  // Lower-case digits of the base without a leading zero, except for "0" itself.
  predicate Canonical(s: string, base: nat) {
    && s != ""
    && (forall i :: 0 <= i < |s| ==> DigitValue(s[i]) < base && !('A' <= s[i] <= 'Z'))
    && (|s| > 1 ==> s[0] != '0')
  }

  // Unsigned division, with the facts used of it.
  function Quot(v: nat, base: nat): (q: nat)
    requires 2 <= base
    ensures if v < base then q == 0 else 0 < q <= v / 2
  {
    QuotFacts(v, base);
    v / base
  }

  function Rem(v: nat, base: nat): (r: nat)
    requires 2 <= base
    ensures r < base
  {
    v % base
  }

  lemma QuotRem(v: nat, base: nat)
    requires 2 <= base
    ensures v == Quot(v, base) * base + Rem(v, base)
    ensures Quot(v, base) * base <= v
  {
  }

  lemma QuotFacts(v: nat, base: nat)
    requires 2 <= base
    ensures if v < base then v / base == 0 else 0 < v / base <= v / 2
  {
    var q := v / base;
    assert v == q * base + v % base;
    if v < base && q > 0 { MulAtLeast(q, 1, base); }
    MulAtLeast(base, 2, q);
  }

  lemma MulAtLeast(x: nat, y: nat, z: nat)
    requires x >= y
    ensures x * z >= y * z && z * x >= z * y
  {
  }

  // The digits of v, most significant first.
  function Digits(v: nat, base: nat): string
    requires 2 <= base <= 36
  {
    if v < base then [DigitChar(v)] else Digits(Quot(v, base), base) + [DigitChar(Rem(v, base))]
  }

  lemma DigitRoundTrip(d: nat)
    requires d < 36
    ensures DigitValue(DigitChar(d)) == d && (DigitChar(d) == '0' <==> d == 0) && !('A' <= DigitChar(d) <= 'Z')
  {
  }

  lemma LowerDigit(c: char)
    requires DigitValue(c) < 36 && !('A' <= c <= 'Z')
    ensures c == DigitChar(DigitValue(c))
  {
  }

  lemma QuotRemUnique(q: nat, d: nat, base: nat)
    requires d < base && 2 <= base
    ensures Quot(q * base + d, base) == q && Rem(q * base + d, base) == d
    ensures q > 0 ==> q * base + d >= base
  {
    hide Quot, Rem;
    var x := q * base + d;
    var k := Quot(x, base);
    QuotRem(x, base);
    assert (k + 1) * base == k * base + base && (q + 1) * base == q * base + base;
    if k < q { MulAtLeast(q, k + 1, base); }
    if k > q { MulAtLeast(k, q + 1, base); }
    if q > 0 { MulAtLeast(q, 1, base); }
  }

  lemma ParseStep(s: string, c: char, base: nat)
    ensures Parse(s + [c], base) == Parse(s, base) * base + DigitValue(c)
  {
    assert (s + [c])[..|s|] == s;
  }

  lemma ParseDigit(c: char, base: nat)
    ensures Parse([c], base) == DigitValue(c)
  {
    assert [c] == "" + [c];
    ParseStep("", c, base);
  }

  lemma {:induction false} DigitsParse(v: nat, base: nat)
    requires 2 <= base <= 36
    ensures Parse(Digits(v, base), base) == v && Canonical(Digits(v, base), base)
    ensures v > 0 ==> Digits(v, base)[0] != '0'
    decreases v
  {
    QuotRem(v, base);
    hide Parse, DigitChar, DigitValue, Quot, Rem;
    if v < base {
      DigitRoundTrip(v);
      ParseDigit(DigitChar(v), base);
    } else {
      DigitRoundTrip(Rem(v, base));
      DigitsParse(Quot(v, base), base);
      ParseStep(Digits(Quot(v, base), base), DigitChar(Rem(v, base)), base);
    }
  }

  // The printed form is the only canonical one.
  lemma {:induction false} DigitsUnique(s: string, base: nat)
    requires 2 <= base <= 36 && Canonical(s, base)
    ensures s == Digits(Parse(s, base), base) && (s[0] != '0' ==> Parse(s, base) > 0)
  {
    hide Parse, DigitChar, DigitValue, Quot, Rem;
    var n := |s| - 1;
    var d := DigitValue(s[n]);
    assert s == s[..n] + [s[n]];
    DigitRoundTrip(d);
    LowerDigit(s[n]);
    if n == 0 {
      ParseDigit(s[0], base);
    } else {
      var q := Parse(s[..n], base);
      DigitsUnique(s[..n], base);
      ParseStep(s[..n], s[n], base);
      QuotRemUnique(q, d, base);
    }
  }

  // ----- the code -----

  class Tty {
    var out: string

    method PutChar(c: char)
      modifies this
      ensures out == old(out) + [c]
    {
      out := out + [c];
    }

    method Write(s: string)
      modifies this
      ensures out == old(out) + s
    {
      out := out + s;
    }
  }

  function Pow(base: nat, n: nat): (p: nat)
    ensures base > 0 ==> p > 0
  {
    if n == 0 then 1 else base * Pow(base, n - 1)
  }

  method PrintUnsigned(value: nat, base: nat, tty: Tty)
    requires value < SIZE_LIMIT && 2 <= base <= 36
    modifies tty
    ensures tty.out == old(tty.out) + Digits(value, base)
  {
    var buffer := new char[32];
    var i := 0;
    var v: nat := value;
    var more := true;
    assert buffer[..0] == "" && Room(v, 2, 0) && Buffered(value, base, true, v, "");
    hide Digits, DigitChar, Reverse, Room, Quot, Rem, Buffered;
    while more
      invariant 0 <= i <= 32
      invariant more ==> Room(v, 2, i) && (i == 0 || v > 0)
      invariant Buffered(value, base, more, v, buffer[..i]) && tty.out == old(tty.out)
      decreases more, v
    {
      ghost var before := buffer[..i];
      FitsIn32(v, i, Quot(v, base));
      BufferOne(value, base, v, before);
      var digit := Rem(v, base);
      buffer[i] := DigitChar(digit);
      i := i + 1;
      assert buffer[..i] == before + [DigitChar(digit)];
      v := Quot(v, base);
      more := v > 0;
    }
    BufferedAll(value, base, v, buffer[..i]);
    Emit(buffer, i, tty);
  }

  // The second loop: the buffered characters, last one first.
  method Emit(buffer: array<char>, n: nat, tty: Tty)
    requires n <= buffer.Length
    modifies tty
    ensures tty.out == old(tty.out) + Reverse(buffer[..n])
  {
    var i := n;
    while i > 0
      invariant 0 <= i <= n
      invariant tty.out + Reverse(buffer[..i]) == old(tty.out) + Reverse(buffer[..n])
    {
      i := i - 1;
      assert buffer[..i+1] == buffer[..i] + [buffer[i]];
      ReverseSnoc(buffer[..i], buffer[i]);
      tty.PutChar(buffer[i]);
    }
    assert buffer[..0] == "";
  }

  // The digits of value are those of v, if any are to come, and then the buffered ones, last one first.
  ghost predicate Buffered(value: nat, base: nat, more: bool, v: nat, buffer: string)
    requires 2 <= base <= 36
  {
    Digits(value, base) == (if more then Digits(v, base) else "") + Reverse(buffer)
  }

  lemma BufferOne(value: nat, base: nat, v: nat, buffer: string)
    requires 2 <= base <= 36 && Buffered(value, base, true, v, buffer)
    ensures Buffered(value, base, Quot(v, base) > 0, Quot(v, base), buffer + [DigitChar(Rem(v, base))])
  {
    var q, c := Quot(v, base), DigitChar(Rem(v, base));
    DigitsStep(v, base);
    ReverseSnoc(buffer, c);
    hide Digits, Reverse, DigitChar;
    Assoc(if q > 0 then Digits(q, base) else "", [c], Reverse(buffer));
  }

  lemma BufferedAll(value: nat, base: nat, v: nat, buffer: string)
    requires 2 <= base <= 36 && Buffered(value, base, false, v, buffer)
    ensures Digits(value, base) == Reverse(buffer)
  {
  }

  ghost predicate Room(v: nat, base: nat, i: nat) {
    v * Pow(base, i) < SIZE_LIMIT
  }

  // A value that has been halved at least i times still leaves room for its digit.
  lemma FitsIn32(v: nat, i: nat, w: nat)
    requires Room(v, 2, i) && (i == 0 || v > 0) && i <= 32 && w <= v / 2
    ensures i < 32 && Room(w, 2, i + 1)
  {
    if i == 32 {
      Pow2At32();
      MulAtLeast(v, 1, SIZE_LIMIT);
    }
    RoomStep(v, 2, i, w);
  }

  lemma RoomStep(v: nat, base: nat, i: nat, w: nat)
    requires Room(v, base, i) && w * base <= v
    ensures Room(w, base, i + 1)
  {
    MulAtLeast(v, w * base, Pow(base, i));
    assert w * (base * Pow(base, i)) == (w * base) * Pow(base, i);
  }

  lemma RoomQuot(v: nat, base: nat, i: nat)
    requires 2 <= base && Room(v, base, i)
    ensures Room(Quot(v, base), base, i + 1)
  {
    QuotRem(v, base);
    RoomStep(v, base, i, Quot(v, base));
  }

  lemma RemSmall(v: nat, base: nat)
    requires v < base && 2 <= base
    ensures Rem(v, base) == v
  {
    QuotRem(v, base);
  }

  lemma DigitsStep(v: nat, base: nat)
    requires 2 <= base <= 36
    ensures Digits(v, base) ==
      (if Quot(v, base) > 0 then Digits(Quot(v, base), base) else "") + [DigitChar(Rem(v, base))]
  {
    if v < base { RemSmall(v, base); }
    hide Quot, Rem, DigitChar;
  }

  lemma Pow2At32()
    ensures Pow(2, 32) == SIZE_LIMIT
  {
    assert Pow(2, 8) == 256;
    assert Pow(2, 16) == 65536;
    assert Pow(2, 24) == 16777216;
  }

  // ----- signed numbers -----

  function SignedDigits(value: int): string {
    if value < 0 then "-" + Digits(-value, 10) else Digits(value, 10)
  }

  function ParseSigned(s: string): int {
    var n: int := if s != "" && s[0] == '-' then Parse(s[1..], 10) else Parse(s, 10);
    if s != "" && s[0] == '-' then -n else n
  }

  lemma CanonicalStart(s: string)
    requires Canonical(s, 10)
    ensures s != "" && s[0] != '-'
  {
    assert DigitValue(s[0]) < 10;
  }

  lemma SignedRoundTrip(value: int)
    ensures ParseSigned(SignedDigits(value)) == value
  {
    hide Digits, Parse, Canonical;
    DigitsParse(if value < 0 then -value else value, 10);
    if value < 0 {
      assert SignedDigits(value)[1..] == Digits(-value, 10);
    } else {
      CanonicalStart(Digits(value, 10));
    }
  }

  // The text is the only one: digits without a leading zero, after a minus sign if the value is negative.
  lemma SignedUnique(s: string, value: int)
    ensures s == SignedDigits(value) <==>
      && ParseSigned(s) == value
      && (Canonical(s, 10) || (s != "" && s[0] == '-' && Canonical(s[1..], 10) && s[1..] != "0"))
  {
    hide Digits, Parse, Canonical;
    ParseDigit('0', 10);
    assert DigitValue('0') == 0;
    hide DigitValue;
    if s == SignedDigits(value) {
      SignedRoundTrip(value);
      DigitsParse(if value < 0 then -value else value, 10);
      if value < 0 { assert s[1..] == Digits(-value, 10); }
    } else if Canonical(s, 10) {
      CanonicalStart(s);
      DigitsUnique(s, 10);
    } else if s != "" && s[0] == '-' && Canonical(s[1..], 10) && s[1..] != "0" {
      DigitsUnique(s[1..], 10);
      DigitsZero();
      assert s == "-" + s[1..];
    }
  }

  lemma DigitsZero()
    ensures Digits(0, 10) == "0"
  {
  }

  // Negation goes through value + 1, so that the least int does not overflow.
  method PrintSigned(value: int, tty: Tty)
    requires -0x8000_0000 <= value < 0x8000_0000
    modifies tty
    ensures tty.out == old(tty.out) + SignedDigits(value)
  {
    hide Digits;
    if value < 0 {
      Assoc(tty.out, "-", Digits(-value, 10));
      tty.PutChar('-');
      var negated := -(value + 1);
      assert 0 <= negated < 0x8000_0000;
      PrintUnsigned((negated + 1) % SIZE_LIMIT, 10, tty);
    } else {
      PrintUnsigned(value, 10, tty);
    }
  }

  // ----- write_dec -----

  lemma Pow10At10()
    ensures Pow(10, 10) == 10_000_000_000
  {
    assert Pow(10, 4) == 10_000;
    assert Pow(10, 8) == 100_000_000;
  }

  // Ten digits are enough for any 32-bit value.
  lemma TenDigits(v: nat)
    requires Room(v, 10, 10)
    ensures v == 0
  {
    Pow10At10();
  }

  method WriteDec(value: nat, tty: Tty)
    requires value < SIZE_LIMIT
    modifies tty
    ensures tty.out == old(tty.out) + Digits(value, 10)
  {
    if value == 0 {
      tty.PutChar('0');
      return;
    }
    var buf := new char[11];
    var pos := 0;
    var v: nat := value;
    assert buf[..0] == "" && Room(v, 10, 0) && Buffered(value, 10, true, v, "");
    hide Digits, DigitChar, Reverse, Room, Quot, Rem, Buffered;
    while v > 0 && pos < 10
      invariant 0 <= pos <= 10 && Room(v, 10, pos)
      invariant Buffered(value, 10, v > 0, v, buf[..pos]) && tty.out == old(tty.out)
      decreases v
    {
      ghost var before := buf[..pos];
      RoomQuot(v, 10, pos);
      BufferOne(value, 10, v, before);
      buf[pos] := DigitChar(Rem(v, 10));
      pos := pos + 1;
      assert buf[..pos] == before + [DigitChar(Rem(v, 10))];
      v := Quot(v, 10);
    }
    if pos == 10 { TenDigits(v); }
    BufferedAll(value, 10, v, buf[..pos]);
    Emit(buf, pos, tty);
  }

  // ----- write_hex32 -----

  function HexChar(d: nat): char
    requires d < 16
  {
    "0123456789ABCDEF"[d]
  }

  // The low n hexadecimal digits.
  function HexFixed(v: nat, n: nat): string {
    if n == 0 then "" else HexFixed(Quot(v, 16), n - 1) + [HexChar(Rem(v, 16))]
  }

  // v >> i for the shifts of the loop
  function Shr(v: nat, i: nat): nat {
    v / Pow(2, i)
  }

  lemma ShrNibble(v: nat, k: nat)
    requires k <= 7
    ensures Quot(Shr(v, 4 * k), 16) == Shr(v, 4 * k + 4)
  {
    NibblePow(k);
    NibblePow(k + 1);
  }

  lemma NibblePow(k: nat)
    requires k <= 8
    ensures Pow(2, 4 * k) == [1, 0x10, 0x100, 0x1000, 0x1_0000, 0x10_0000, 0x100_0000, 0x1000_0000, 0x1_0000_0000][k]
  {
    if k > 0 {
      NibblePow(k - 1);
      assert Pow(2, 4 * k) == 2 * Pow(2, 4 * k - 1) == 4 * Pow(2, 4 * k - 2);
      assert Pow(2, 4 * k - 2) == 2 * Pow(2, 4 * k - 3) == 4 * Pow(2, 4 * k - 4);
    }
  }

  method WriteHex32(value: nat, tty: Tty)
    requires value < SIZE_LIMIT
    modifies tty
    ensures tty.out == old(tty.out) + "0x" + HexFixed(value, 8)
  {
    hide *;
    tty.Write("0x");
    ghost var done, before := 0, tty.out;
    var i := 28;
    HexEnds(value);
    while i >= 0
      invariant 0 <= done <= 8 && i == 28 - 4 * done
      invariant tty.out == before + HexFixed(Shr(value, i + 4), done)
    {
      HexStep(value, done);
      Assoc(before, HexFixed(Shr(value, i + 4), done), [HexChar(Rem(Shr(value, i), 16))]);
      tty.PutChar(HexChar(Rem(Shr(value, i), 16)));
      i := i - 4;
      done := done + 1;
    }
  }

  lemma HexEnds(v: nat)
    ensures HexFixed(Shr(v, 32), 0) == "" && Shr(v, 0) == v
  {
  }

  // The next nibble from the top.
  lemma HexStep(v: nat, done: nat)
    requires done < 8
    ensures var i := 28 - 4 * done;
      HexFixed(Shr(v, i), done + 1) == HexFixed(Shr(v, i + 4), done) + [HexChar(Rem(Shr(v, i), 16))]
  {
    hide Shr, Quot, Rem, HexChar, Pow;
    ShrNibble(v, 7 - done);
    var i := 28 - 4 * done;
    assert 4 * (7 - done) == i && Quot(Shr(v, i), 16) == Shr(v, i + 4);
  }

  lemma HexCharValue(d: nat)
    requires d < 16
    ensures DigitValue(HexChar(d)) == d == DigitValue(DigitChar(d)) && (d == 0 ==> HexChar(d) == '0')
    ensures '0' <= HexChar(d) <= '9' || 'A' <= HexChar(d) <= 'F'
  {
  }

  lemma HexShift(v: nat, n: nat)
    requires v < Pow(16, n) && n > 0
    ensures Quot(v, 16) < Pow(16, n - 1)
  {
  }

  lemma {:induction false} HexParses(v: nat, n: nat)
    requires v < Pow(16, n)
    ensures |HexFixed(v, n)| == n && Parse(HexFixed(v, n), 16) == v
    ensures forall c :: c in HexFixed(v, n) ==> '0' <= c <= '9' || 'A' <= c <= 'F'
  {
    if n > 0 {
      HexShift(v, n);
      HexCharValue(Rem(v, 16));
      QuotRem(v, 16);
      hide Parse, HexChar, DigitValue, Pow, Quot, Rem;
      HexParses(Quot(v, 16), n - 1);
      ParseStep(HexFixed(Quot(v, 16), n - 1), HexChar(Rem(v, 16)), 16);
    }
  }

  function Upper(s: string): string {
    if s == "" then "" else Upper(s[..|s|-1]) + [HexChar(if DigitValue(s[|s|-1]) < 16 then DigitValue(s[|s|-1]) else 0)]
  }

  function Zeros(n: nat): string {
    seq(n, _ => '0')
  }

  lemma HexOne(v: nat)
    requires v < Pow(16, 1)
    ensures v < 16
  {
    assert Pow(16, 1) == 16 * Pow(16, 0) == 16;
  }

  // The two printers agree: write_hex32 shows the digits of print_unsigned in base 16, padded with zeros and in
  // capitals.
  lemma {:induction false} HexAgrees(v: nat, n: nat)
    requires v < Pow(16, n) && n > 0
    ensures |Digits(v, 16)| <= n && HexFixed(v, n) == Zeros(n - |Digits(v, 16)|) + Upper(Digits(v, 16))
  {
    hide HexChar, DigitChar, DigitValue, Pow, Quot, Rem, Zeros, Upper;
    HexShift(v, n);
    HexCharValue(Rem(v, 16));
    if n == 1 { HexOne(v); }
    DigitsStep(v, 16);
    if v < 16 { RemSmall(v, 16); }
    hide Digits;
    var d, c := Digits(v, 16), HexChar(Rem(v, 16));
    if v < 16 {
      HexZero(n - 1);
      UpperDigit(v);
      assert HexFixed(v, n) == Zeros(n - 1) + [c];
    } else {
      var q := Digits(Quot(v, 16), 16);
      HexAgrees(Quot(v, 16), n - 1);
      UpperStep(q, DigitChar(Rem(v, 16)));
      Assoc(Zeros(n - |d|), Upper(q), [c]);
    }
  }

  lemma UpperDigit(v: nat)
    requires v < 16
    ensures Upper([DigitChar(v)]) == [HexChar(v)]
  {
    HexCharValue(v);
    hide HexChar, DigitChar, DigitValue;
    assert "" + [DigitChar(v)] == [DigitChar(v)];
    UpperStep("", DigitChar(v));
  }

  lemma UpperStep(s: string, c: char)
    ensures Upper(s + [c]) == Upper(s) + [HexChar(if DigitValue(c) < 16 then DigitValue(c) else 0)]
  {
    assert (s + [c])[..|s|] == s;
  }

  lemma {:induction false} HexZero(n: nat)
    ensures HexFixed(0, n) == Zeros(n)
  {
    if n > 0 { HexZero(n - 1); }
  }
}
