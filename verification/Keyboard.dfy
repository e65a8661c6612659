/** The keyboard ring: kernel/dev/keyboard.c.

    keyboard_buffer_push runs in the interrupt handler, to completion, between any two memory accesses of
    keyboard_getchar.  The consumer is therefore a sequence of atomic steps, one volatile access each, and
    a run is any interleaving of those steps with pushes. */
module Keyboard {
  import opened Words

  const BUFFER_SIZE: nat := 128

  // Where keyboard_getchar stands between two of its accesses.  C leaves open which operand of the
  // emptiness test is read first; both orders are modelled.
  datatype Pc =
    | Idle
    | HeadRead(head: nat)
    | TailRead(tail: nat)
    | Compared(head: nat, tail: nat)
    | IndexRead(index: nat)
    | CharRead(c: Byte)
    | Advancing(c: Byte, tail: nat)

  // Histories: accepted is what push stored, delivered what getchar returned, and seen is the length of
  // accepted when getchar last read the head.
  datatype State = State(
    buffer: seq<Byte>, head: nat, tail: nat, pc: Pc,
    accepted: seq<Byte>, delivered: seq<Byte>, seen: nat)

  datatype Event = Irq(c: Byte) | Access(headFirst: bool)

  predicate WellFormed(s: State) {
    && |s.buffer| == BUFFER_SIZE && s.head < BUFFER_SIZE && s.tail < BUFFER_SIZE
    && (s.pc.IndexRead? ==> s.pc.index < BUFFER_SIZE)
  }

  predicate Initial(s: State) {
    WellFormed(s) && s.head == 0 && s.tail == 0 && s.pc == Idle && s.accepted == [] && s.delivered == []
  }

  function Push(s: State, c: Byte): (t: State)
    requires WellFormed(s)
    ensures WellFormed(t)
  {
    var next := (s.head + 1) % BUFFER_SIZE;
    if next == s.tail then s
    else s.(buffer := s.buffer[s.head := c], head := next, accepted := s.accepted + [c])
  }

  // The next access of keyboard_getchar.
  function Consume(s: State, headFirst: bool): (t: State)
    requires WellFormed(s)
    ensures WellFormed(t)
  {
    match s.pc
    case Idle => if headFirst then s.(pc := HeadRead(s.head), seen := |s.accepted|) else s.(pc := TailRead(s.tail))
    case HeadRead(h) => s.(pc := Compared(h, s.tail))
    case TailRead(t) => s.(pc := Compared(s.head, t), seen := |s.accepted|)
    case Compared(h, t) => if h == t then s.(pc := Idle) else s.(pc := IndexRead(s.tail))
    case IndexRead(i) => s.(pc := CharRead(s.buffer[i]))
    case CharRead(c) => s.(pc := Advancing(c, s.tail))
    case Advancing(c, t) => s.(pc := Idle, tail := (t + 1) % BUFFER_SIZE, delivered := s.delivered + [c])
  }

  function Next(s: State, e: Event): (t: State)
    requires WellFormed(s)
    ensures WellFormed(t)
  {
    match e
    case Irq(c) => Push(s, c)
    case Access(headFirst) => Consume(s, headFirst)
  }

  function Run(s: State, events: seq<Event>): (t: State)
    requires WellFormed(s)
    ensures WellFormed(t)
  {
    if events == [] then s else Next(Run(s, events[..|events|-1]), events[|events|-1])
  }

  // Characters pending in the indices.
  function Pending(s: State): nat {
    (s.head - s.tail) % BUFFER_SIZE
  }

  ghost predicate Inv(s: State) {
    var n, d := |s.accepted|, |s.delivered|;
    && WellFormed(s)
    && d <= n < d + BUFFER_SIZE
    && s.head == n % BUFFER_SIZE && s.tail == d % BUFFER_SIZE
    && s.delivered == s.accepted[..d]
    && (forall i :: d <= i < n ==> s.buffer[i % BUFFER_SIZE] == s.accepted[i])
    && match s.pc
       case Idle => true
       case HeadRead(h) => d <= s.seen <= n && h == s.seen % BUFFER_SIZE
       case TailRead(t) => t == s.tail
       case Compared(h, t) => d <= s.seen <= n && h == s.seen % BUFFER_SIZE && t == s.tail
       case IndexRead(i) => d < n && i == s.tail
       case CharRead(c) => d < n && c == s.accepted[d]
       case Advancing(c, t) => d < n && c == s.accepted[d] && t == s.tail
  }

  lemma ModStep(n: nat)
    ensures (n % BUFFER_SIZE + 1) % BUFFER_SIZE == (n + 1) % BUFFER_SIZE
  {
  }

  lemma ModDistinct(i: nat, j: nat)
    requires i <= j < i + BUFFER_SIZE
    ensures i % BUFFER_SIZE == j % BUFFER_SIZE <==> i == j
  {
  }

  lemma ModDiff(d: nat, n: nat)
    requires d <= n < d + BUFFER_SIZE
    ensures (n % BUFFER_SIZE - d % BUFFER_SIZE) % BUFFER_SIZE == n - d
  {
  }

  lemma PushKeepsInv(s: State, c: Byte)
    requires Inv(s)
    ensures Inv(Push(s, c))
    ensures Pending(s) == |s.accepted| - |s.delivered|
    ensures Push(s, c).accepted == if Pending(s) == BUFFER_SIZE - 1 then s.accepted else s.accepted + [c]
    ensures Pending(s) == BUFFER_SIZE - 1 ==> Push(s, c) == s
  {
    var n, d := |s.accepted|, |s.delivered|;
    ModDiff(d, n);
    FullTest(d, n);
    if n + 1 < d + BUFFER_SIZE { PushAccepts(s, c); }
    hide Inv;
  }

  // The test of keyboard_buffer_push.
  lemma FullTest(d: nat, n: nat)
    requires d <= n < d + BUFFER_SIZE
    ensures (n % BUFFER_SIZE + 1) % BUFFER_SIZE == d % BUFFER_SIZE <==> n + 1 == d + BUFFER_SIZE
  {
    ModStep(n);
    if n + 1 < d + BUFFER_SIZE { ModDistinct(d, n + 1); }
  }

  lemma PushAccepts(s: State, c: Byte)
    requires Inv(s) && |s.accepted| + 1 < |s.delivered| + BUFFER_SIZE
    ensures Inv(Push(s, c)) && Push(s, c).accepted == s.accepted + [c]
  {
    FullTest(|s.delivered|, |s.accepted|);
    ModStep(|s.accepted|);
    StoreKeeps(s.buffer, s.accepted, |s.delivered|, c);
  }

  // Storing at the head leaves every pending character where it is.
  lemma StoreKeeps(buffer: seq<Byte>, accepted: seq<Byte>, d: nat, c: Byte)
    requires |buffer| == BUFFER_SIZE && d <= |accepted| < d + BUFFER_SIZE
    requires forall i :: d <= i < |accepted| ==> buffer[i % BUFFER_SIZE] == accepted[i]
    ensures var b, a := buffer[|accepted| % BUFFER_SIZE := c], accepted + [c];
      forall i :: d <= i < |a| ==> b[i % BUFFER_SIZE] == a[i]
  {
    forall i | d <= i < |accepted| ensures i % BUFFER_SIZE != |accepted| % BUFFER_SIZE { ModDistinct(i, |accepted|); }
  }

  lemma ConsumeKeepsInv(s: State, headFirst: bool)
    requires Inv(s)
    ensures Inv(Consume(s, headFirst))
  {
    var n, d := |s.accepted|, |s.delivered|;
    match s.pc
    case Compared(h, t) => ModDistinct(d, s.seen);
    case Advancing(c, t) => ModStep(d);
    case _ =>
  }

  // Every interleaving keeps the ring sound: what has been delivered is a prefix of what was accepted, and
  // the rest is still in the buffer.
  lemma {:induction false} RunKeepsInv(s: State, events: seq<Event>)
    requires Initial(s)
    ensures Inv(Run(s, events)) && Run(s, events).delivered <= Run(s, events).accepted
  {
    if events != [] {
      RunKeepsInv(s, events[..|events|-1]);
      var t, e := Run(s, events[..|events|-1]), events[|events|-1];
      match e
      case Irq(c) => PushKeepsInv(t, c);
      case Access(headFirst) => ConsumeKeepsInv(t, headFirst);
    }
  }

  // After any run, a push is dropped exactly when 127 characters are pending in the indices, and a test
  // that finds the ring empty does so exactly when all characters accepted by the read of the head were delivered.
  lemma RunDropsWhenFull(s: State, events: seq<Event>, c: Byte)
    requires Initial(s)
    ensures var t := Run(s, events);
      && Pending(t) == |t.accepted| - |t.delivered| <= 127
      && (Push(t, c) == t <==> Pending(t) == 127)
      && (Pending(t) < 127 ==> Push(t, c).accepted == t.accepted + [c])
      && (t.pc.Compared? ==> (t.pc.head == t.pc.tail <==> t.seen == |t.delivered|))
  {
    RunKeepsInv(s, events);
    var t := Run(s, events);
    PushKeepsInv(t, c);
    if t.pc.Compared? { ModDistinct(|t.delivered|, t.seen); }
  }

  // ----- a whole call -----

  function Pushes(s: State, cs: seq<Byte>): (t: State)
    requires WellFormed(s)
    ensures WellFormed(t)
  {
    if cs == [] then s else Push(Pushes(s, cs[..|cs|-1]), cs[|cs|-1])
  }

  // An access with those pushes before it.
  function AccessWith(s: State, headFirst: bool, irqs: seq<Byte>): (t: State)
    requires WellFormed(s)
    ensures WellFormed(t)
  {
    Consume(Pushes(s, irqs), headFirst)
  }

  // The test for emptiness, and what follows when it fails.
  function Tested(s: State, headFirst: bool, irqs: seq<seq<Byte>>): (t: State)
    requires WellFormed(s) && |irqs| == 6
    ensures WellFormed(t)
  {
    AccessWith(AccessWith(AccessWith(s, headFirst, irqs[0]), headFirst, irqs[1]), headFirst, irqs[2])
  }

  function Fetched(s: State, headFirst: bool, irqs: seq<seq<Byte>>): (t: State)
    requires WellFormed(s) && |irqs| == 6
    ensures WellFormed(t)
  {
    AccessWith(AccessWith(AccessWith(s, headFirst, irqs[3]), headFirst, irqs[4]), headFirst, irqs[5])
  }

  // One call of keyboard_getchar with the pushes irqs[k] arriving before its access number k.
  function Call(s: State, headFirst: bool, irqs: seq<seq<Byte>>): (t: State)
    requires WellFormed(s) && |irqs| == 6
    ensures WellFormed(t)
  {
    var t := Tested(s, headFirst, irqs);
    if t.pc == Idle then t else Fetched(t, headFirst, irqs)
  }

  lemma {:induction false} PushesKeep(s: State, cs: seq<Byte>)
    requires Inv(s)
    ensures Inv(Pushes(s, cs)) && s.accepted <= Pushes(s, cs).accepted
    ensures var t := Pushes(s, cs); t == s.(buffer := t.buffer, head := t.head, accepted := t.accepted)
  {
    if cs != [] {
      PushesKeep(s, cs[..|cs|-1]);
      PushKeepsInv(Pushes(s, cs[..|cs|-1]), cs[|cs|-1]);
    }
  }

  // Pushes followed by one access: what is needed of the invariant for a whole call.
  lemma AccessAfter(s: State, headFirst: bool, cs: seq<Byte>)
    requires Inv(s)
    ensures var p, t := Pushes(s, cs), AccessWith(s, headFirst, cs);
      && Inv(t) && |s.delivered| <= |s.accepted| && s.accepted <= p.accepted == t.accepted
      && p.pc == s.pc && p.delivered == s.delivered && p.seen == s.seen
    ensures s.pc.Compared? ==>
      (s.pc.head == s.pc.tail <==> s.seen == |s.delivered|) && |s.delivered| <= s.seen <= |s.accepted|
    ensures s.pc.Advancing? ==> |s.delivered| < |s.accepted| && s.pc.c == s.accepted[|s.delivered|]
  {
    PushesKeep(s, cs);
    ConsumeKeepsInv(Pushes(s, cs), headFirst);
    if s.pc.Compared? { ModDistinct(|s.delivered|, s.seen); }
  }

  lemma TestDecides(s: State, headFirst: bool, irqs: seq<seq<Byte>>)
    requires Inv(s) && s.pc == Idle && |irqs| == 6
    ensures var t, d := Tested(s, headFirst, irqs), |s.delivered|;
      && Inv(t) && s.accepted <= t.accepted && t.delivered == s.delivered && d <= t.seen <= |t.accepted|
      && (if t.seen > d then t.pc.IndexRead? else t.pc == Idle)
  {
    assert WellFormed(s);
    hide Inv, Pushes;
    AccessAfter(s, headFirst, irqs[0]);
    var s1 := AccessWith(s, headFirst, irqs[0]);
    AccessAfter(s1, headFirst, irqs[1]);
    AccessAfter(AccessWith(s1, headFirst, irqs[1]), headFirst, irqs[2]);
  }

  lemma FetchDelivers(s: State, headFirst: bool, irqs: seq<seq<Byte>>)
    requires Inv(s) && s.pc.IndexRead? && |irqs| == 6
    ensures var t, d := Fetched(s, headFirst, irqs), |s.delivered|;
      && Inv(t) && t.pc == Idle && s.accepted <= t.accepted && t.seen == s.seen
      && d < |t.accepted| && t.delivered == s.delivered + [t.accepted[d]]
  {
    assert WellFormed(s);
    hide Inv, Pushes;
    AccessAfter(s, headFirst, irqs[3]);
    var s4 := AccessWith(s, headFirst, irqs[3]);
    AccessAfter(s4, headFirst, irqs[4]);
    AccessAfter(AccessWith(s4, headFirst, irqs[4]), headFirst, irqs[5]);
  }

  // Whatever arrives meanwhile, a call delivers the oldest undelivered character if one had been accepted when
  // it read the head, and otherwise delivers nothing; either way it finishes.
  lemma CallDelivers(s: State, headFirst: bool, irqs: seq<seq<Byte>>)
    requires Inv(s) && s.pc == Idle && |irqs| == 6
    ensures var t, d := Call(s, headFirst, irqs), |s.delivered|;
      && Inv(t) && t.pc == Idle && d <= t.seen <= |t.accepted| && s.accepted <= t.accepted
      && t.delivered == if t.seen > d then s.delivered + [t.accepted[d]] else s.delivered
  {
    assert WellFormed(s);
    hide Inv, Tested, Fetched;
    TestDecides(s, headFirst, irqs);
    var t := Tested(s, headFirst, irqs);
    if t.pc != Idle { FetchDelivers(t, headFirst, irqs); }
  }

  // ----- the code -----

  class KeyBuffer {
    const buffer: array<Byte>
    var head: nat
    var tail: nat
    ghost var accepted: seq<Byte>
    ghost var delivered: seq<Byte>
    ghost var seen: nat

    ghost predicate Valid()
      reads this
    {
      buffer.Length == BUFFER_SIZE && head < BUFFER_SIZE && tail < BUFFER_SIZE
    }

    ghost function View(pc: Pc): (s: State)
      reads this, buffer
    {
      State(buffer[..], head, tail, pc, accepted, delivered, seen)
    }

    // keyboard_init
    constructor ()
      ensures Valid() && Initial(View(Idle)) && fresh(buffer)
    {
      buffer := new Byte[BUFFER_SIZE];
      head, tail := 0, 0;
      accepted, delivered, seen := [], [], 0;
    }

    method BufferPush(c: Byte, ghost pc: Pc)
      requires Valid() && WellFormed(View(pc))
      modifies this, buffer
      ensures Valid() && View(pc) == Push(old(View(pc)), c)
      ensures tail == old(tail) && delivered == old(delivered) && seen == old(seen)
    {
      var next := (head + 1) % BUFFER_SIZE;
      if next == tail { return; }
      buffer[head] := c;
      head := next;
      accepted := accepted + [c];
    }

    method Interrupts(cs: seq<Byte>, ghost pc: Pc)
      requires Valid() && WellFormed(View(pc))
      modifies this, buffer
      ensures Valid() && View(pc) == Pushes(old(View(pc)), cs)
      ensures tail == old(tail) && delivered == old(delivered) && seen == old(seen)
    {
      for i := 0 to |cs|
        invariant tail == old(tail) && delivered == old(delivered) && seen == old(seen)
        invariant Valid() && View(pc) == Pushes(old(View(pc)), cs[..i])
      {
        BufferPush(cs[i], pc);
        assert cs[..i+1][..i] == cs[..i];
      }
      assert cs[..|cs|] == cs;
    }

    // The two reads of the emptiness test.
    method ReadIndices(headFirst: bool, irqs: seq<seq<Byte>>) returns (h: nat, t: nat)
      requires Valid() && |irqs| == 6
      modifies this, buffer
      ensures Valid() && delivered == old(delivered)
      ensures View(Compared(h, t)) == AccessWith(AccessWith(old(View(Idle)), headFirst, irqs[0]), headFirst, irqs[1])
    {
      hide Push, Pushes;
      ghost var s1 := Consume(Pushes(View(Idle), irqs[0]), headFirst);
      Interrupts(irqs[0], Idle);
      if headFirst {
        h := head;
        seen := |accepted|;
        assert View(HeadRead(h)) == s1;
        Interrupts(irqs[1], HeadRead(h));
        t := tail;
      } else {
        t := tail;
        assert View(TailRead(t)) == s1;
        Interrupts(irqs[1], TailRead(t));
        h := head;
        seen := |accepted|;
      }
    }

    method GetChar(headFirst: bool, irqs: seq<seq<Byte>>) returns (r: int)
      requires Valid() && |irqs| == 6
      modifies this, buffer
      ensures Valid() && View(Idle) == Call(old(View(Idle)), headFirst, irqs)
      ensures r == -1 || 0 <= r < 256
      ensures delivered == if r == -1 then old(delivered) else old(delivered) + [r]
    {
      hide Push, Pushes;
      var h, t := ReadIndices(headFirst, irqs);
      ghost var s2 := View(Compared(h, t));
      Interrupts(irqs[2], Compared(h, t));
      ghost var s3 := Consume(Pushes(s2, irqs[2]), headFirst);
      if h == t {
        assert View(Idle) == s3;
        return -1;
      }
      var i := tail;
      assert View(IndexRead(i)) == s3;
      r := TakeChar(i, headFirst, irqs);
    }

    method TakeChar(i: nat, headFirst: bool, irqs: seq<seq<Byte>>) returns (c: Byte)
      requires Valid() && |irqs| == 6 && i < BUFFER_SIZE
      modifies this, buffer
      ensures Valid() && delivered == old(delivered) + [c]
      ensures View(Idle) == Fetched(old(View(IndexRead(i))), headFirst, irqs)
    {
      hide Push, Pushes;
      ghost var s3 := View(IndexRead(i));
      Interrupts(irqs[3], IndexRead(i));
      c := buffer[i];
      ghost var s4 := Consume(Pushes(s3, irqs[3]), headFirst);
      assert View(CharRead(c)) == s4;
      Interrupts(irqs[4], CharRead(c));
      var t := tail;
      ghost var s5 := Consume(Pushes(s4, irqs[4]), headFirst);
      assert View(Advancing(c, t)) == s5;
      Interrupts(irqs[5], Advancing(c, t));
      tail := (t + 1) % BUFFER_SIZE;
      delivered := delivered + [c];
    }
  }
}
