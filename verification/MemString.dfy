/** Byte and string operations: memcpy, memmove, memset and strcmp of kernel/lib/string.c. */
module MemString {
  import opened Words

  // ----- memory -----

  // m with the n bytes from d on replaced by those of src.
  function Stored(m: seq<Byte>, d: nat, src: seq<Byte>): seq<Byte>
    requires d + |src| <= |m|
  {
    seq(|m|, j requires 0 <= j < |m| => if d <= j < d + |src| then src[j - d] else m[j])
  }

  // The byte that ends up at offset i of the destination when n bytes are copied upwards from s to d inside one
  // memory: where the destination starts inside the source range, the first d - s bytes are repeated.
  function Source(d: nat, s: nat, n: nat, i: nat): (p: nat)
    requires i < n
    ensures s <= p < s + n
  {
    if s < d < s + n then Wrapped(i, d - s); s + i % (d - s) else s + i
  }

  lemma Wrapped(i: nat, k: nat)
    requires k > 0
    ensures i % k <= i
  {
    if i < k { SmallMod(i, k); }
  }

  // What the ascending loop leaves.
  function Ascending(m: seq<Byte>, d: nat, s: nat, n: nat): (r: seq<Byte>)
    requires d + n <= |m| && s + n <= |m|
  {
    Stored(m, d, seq(n, i requires 0 <= i < n => m[Source(d, s, n, i)]))
  }

  method MemCpy(dest: array<Byte>, d: nat, src: array<Byte>, s: nat, n: nat)
    requires d + n <= dest.Length && s + n <= src.Length
    modifies dest
    ensures dest != src ==> dest[..] == Stored(old(dest[..]), d, src[s..s+n])
    ensures dest == src ==> dest[..] == Ascending(old(dest[..]), d, s, n)
  {
    hide Source;
    ghost var m := dest[..];
    ghost var goal := if dest == src then Ascending(m, d, s, n) else Stored(m, d, src[s..s+n]);
    for i := 0 to n
      invariant forall j :: 0 <= j < dest.Length ==> dest[j] == if d <= j < d + i then goal[j] else m[j]
    {
      if dest == src { AscendingStep(m, d, s, n, i); }
      dest[d + i] := src[s + i];
    }
  }

  // The byte that step i of the ascending loop reads is the one Ascending wants.
  lemma AscendingStep(m: seq<Byte>, d: nat, s: nat, n: nat, i: nat)
    requires d + n <= |m| && s + n <= |m| && i < n
    ensures Ascending(m, d, s, n)[d + i] == if d <= s + i < d + i then Ascending(m, d, s, n)[s + i] else m[s + i]
  {
    SourceStep(d, s, n, i);
    hide Source;
  }

  lemma SourceStep(d: nat, s: nat, n: nat, i: nat)
    requires i < n
    ensures Source(d, s, n, i) == if d <= s + i < d + i then Source(d, s, n, s + i - d) else s + i
  {
    if s < d < s + n {
      if i >= d - s { ModStep(i, d - s); } else { SmallMod(i, d - s); }
    }
  }

  lemma ModStep(i: nat, k: nat)
    requires 0 < k <= i
    ensures (i - k) % k == i % k
  {
    var q, r := (i - k) / k, (i - k) % k;
    assert i == (q + 1) * k + r;
    ModUnique(q + 1, r, i, k);
  }

  lemma SmallMod(i: nat, k: nat)
    requires i < k
    ensures i % k == i
  {
  }

  lemma ModUnique(q: nat, r: nat, i: nat, k: nat)
    requires r < k && i == q * k + r
    ensures i % k == r
  {
    SameQuotient(q, r, i / k, i % k, k);
  }

  lemma SameQuotient(q: nat, r: nat, p: nat, t: nat, k: nat)
    requires r < k && t < k && q * k + r == p * k + t
    ensures r == t
  {
    if q < p { Times(q + 1, p, k); }
    if p < q { Times(p + 1, q, k); }
  }

  lemma Times(x: nat, y: nat, k: nat)
    requires x <= y
    ensures x * k <= y * k && x * k == (x - 1) * k + k
  {
  }

  method MemMove(m: array<Byte>, d: nat, s: nat, n: nat)
    requires d + n <= m.Length && s + n <= m.Length
    modifies m
    ensures m[..] == Stored(old(m[..]), d, old(m[s..s+n]))
  {
    ghost var b := m[..];
    ghost var goal := Stored(b, d, b[s..s+n]);
    if d == s || n == 0 { return; }
    if d < s {
      for i := 0 to n
        invariant forall j :: 0 <= j < m.Length ==> m[j] == if d <= j < d + i then goal[j] else b[j]
      {
        m[d + i] := m[s + i];
      }
    } else {
      for i := n downto 0
        invariant forall j :: 0 <= j < m.Length ==> m[j] == if d + i <= j < d + n then goal[j] else b[j]
      {
        m[d + i] := m[s + i];
      }
    }
  }

  // The direction argument: copying upwards is right for every content of memory exactly when the destination does not
  // start inside the source range.
  lemma AscendingIsRight(len: nat, d: nat, s: nat, n: nat)
    requires d + n <= len && s + n <= len
    ensures (forall m: seq<Byte> :: |m| == len ==> Ascending(m, d, s, n) == Stored(m, d, m[s..s+n])) <==>
      !(s < d < s + n)
  {
    if s < d < s + n {
      RepeatsByte(len, d, s, n);
    } else {
      assert forall i :: 0 <= i < n ==> Source(d, s, n, i) == s + i;
      hide Source;
      forall m: seq<Byte> | |m| == len ensures Ascending(m, d, s, n) == Stored(m, d, m[s..s+n]) {
        var t := Ascending(m, d, s, n);
        forall j | 0 <= j < len ensures t[j] == Stored(m, d, m[s..s+n])[j] {}
      }
    }
  }

  // Where the ranges overlap upwards, byte d of the source is replaced by byte s before it is read.
  lemma RepeatsByte(len: nat, d: nat, s: nat, n: nat)
    requires d + n <= len && s + n <= len && s < d < s + n
    ensures exists m: seq<Byte> :: |m| == len && Ascending(m, d, s, n) != Stored(m, d, m[s..s+n])
  {
    var m: seq<Byte> := seq(len, i => if i == d then 1 else 0);
    var k := d - s;
    assert Source(d, s, n, k) == s by { ModUnique(1, 0, k, k); }
    hide Source;
    assert Ascending(m, d, s, n)[d + k] == m[s];
    assert Stored(m, d, m[s..s+n])[d + k] == m[s..s+n][k] == m[d];
  }

  method MemSet(dest: array<Byte>, d: nat, c: int, n: nat)
    requires d + n <= dest.Length
    modifies dest
    ensures dest[..] == Stored(old(dest[..]), d, seq(n, _ => c % 256))
  {
    ghost var m := dest[..];
    var ch: Byte := c % 256;
    for i := 0 to n
      invariant forall j :: 0 <= j < dest.Length ==> dest[j] == if d <= j < d + i then ch else m[j]
    {
      dest[d + i] := ch;
    }
  }

  // ----- strings -----

  // The string held by a buffer: its characters up to the first NUL.
  function CString(b: string): string {
    if b == "" || b[0] == '\0' then "" else [b[0]] + CString(b[1..])
  }

  predicate Terminated(b: string) {
    '\0' in b
  }

  lemma {:induction false} CStringLength(b: string)
    requires Terminated(b)
    ensures |CString(b)| < |b| && b[|CString(b)|] == '\0' && CString(b) == b[..|CString(b)|]
    ensures forall i :: 0 <= i < |CString(b)| ==> b[i] != '\0'
  {
    if b[0] != '\0' { CStringLength(b[1..]); }
  }

  // The order of two strings by their unsigned characters: -1, 0 or 1.
  function Order(s: string, t: string): int {
    if s == "" && t == "" then 0
    else if s == "" then -1
    else if t == "" then 1
    else if s[0] < t[0] then -1
    else if s[0] > t[0] then 1
    else Order(s[1..], t[1..])
  }

  lemma {:induction false} OrderZero(s: string, t: string)
    ensures Order(s, t) == 0 <==> s == t
  {
    if s != "" && t != "" {
      OrderZero(s[1..], t[1..]);
      assert s == [s[0]] + s[1..] && t == [t[0]] + t[1..];
    }
  }

  // Up to position i they are the same, and there s ends or has the smaller character.
  ghost predicate LessAt(s: string, t: string, i: nat) {
    i <= |s| && i < |t| && s[..i] == t[..i] && (i == |s| || s[i] < t[i])
  }

  // Which of the two is less is decided at their first difference, or by which one ends first.
  lemma {:induction false} OrderNegative(s: string, t: string)
    ensures Order(s, t) < 0 <==> exists i :: LessAt(s, t, i)
    ensures Order(t, s) == -Order(s, t)
  {
    if s != "" && t != "" && s[0] == t[0] {
      OrderNegative(s[1..], t[1..]);
      LessAtTail(s, t);
      hide LessAt;
    } else if t != "" {
      assert s[..0] == t[..0];
      assert (s == "" || s[0] < t[0]) ==> LessAt(s, t, 0);
    }
  }

  lemma LessAtTail(s: string, t: string)
    requires s != "" && t != "" && s[0] == t[0]
    ensures (exists i :: LessAt(s, t, i)) <==> exists i :: LessAt(s[1..], t[1..], i)
  {
    forall i: nat | LessAt(s[1..], t[1..], i) ensures LessAt(s, t, i + 1) {
      assert s[..i+1] == [s[0]] + s[1..][..i] && t[..i+1] == [t[0]] + t[1..][..i];
    }
    forall i: nat | LessAt(s, t, i) ensures i > 0 && LessAt(s[1..], t[1..], i - 1) {
      assert i > 0;
      assert s[1..][..i-1] == s[..i][1..] && t[1..][..i-1] == t[..i][1..];
    }
  }

  function Sign(x: int): int {
    if x < 0 then -1 else if x > 0 then 1 else 0
  }

  method StrCmp(lhs: string, rhs: string) returns (r: int)
    requires Terminated(lhs) && Terminated(rhs)
    ensures Sign(r) == Order(CString(lhs), CString(rhs))
    ensures r == 0 <==> CString(lhs) == CString(rhs)
  {
    CStringLength(lhs);
    CStringLength(rhs);
    ghost var s, t := CString(lhs), CString(rhs);
    var i := 0;
    assert s[0..] == s && t[0..] == t;
    while lhs[i] == rhs[i] && lhs[i] != '\0'
      invariant 0 <= i <= |s| && i <= |t| && s[..i] == t[..i]
      invariant Order(s, t) == Order(s[i..], t[i..])
      decreases |s| - i
    {
      assert s[i..][1..] == s[i+1..] && t[i..][1..] == t[i+1..];
      i := i + 1;
    }
    OrderZero(s, t);
    r := lhs[i] as int - rhs[i] as int;
  }
}
