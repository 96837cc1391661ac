/** The ring buffers of hardware/arduino/cores/arduino/HardwareSerial.cpp as sequences. */
module Ring {
  function Next(i: nat, n: nat): (r: nat)
    requires i < n
    ensures r == if i + 1 == n then 0 else i + 1
  {
    (i + 1) % n
  }

  /** The bytes from `tail` up to, and without, `head`. */
  function Pending(b: seq<bv8>, head: nat, tail: nat): seq<bv8>
    requires head < |b| && tail < |b|
  {
    if tail <= head then b[tail..head] else b[tail..] + b[..head]
  }

  lemma UsedMod(n: nat, head: nat, tail: nat)
    requires head < n && tail < n
    ensures (n + head - tail) % n == if tail <= head then head - tail else n + head - tail
  {
    if tail <= head {
      assert (n + (head - tail)) % n == (head - tail) % n;
    }
  }

  /** What available() computes is the number of pending bytes; N-1 is full, 0 is empty. */
  lemma PendingLength(b: seq<bv8>, head: nat, tail: nat)
    requires head < |b| && tail < |b|
    ensures |Pending(b, head, tail)| == (|b| + head - tail) % |b|
    ensures |Pending(b, head, tail)| == |b| - 1 <==> Next(head, |b|) == tail
    ensures Pending(b, head, tail) == [] <==> head == tail
  {
    UsedMod(|b|, head, tail);
    assert |Pending(b, head, tail)| == if tail <= head then head - tail else |b| + head - tail;
  }

  /** The slot at `head` is not pending. */
  lemma StoreKeeps(b: seq<bv8>, head: nat, tail: nat, c: bv8)
    requires head < |b| && tail < |b|
    ensures Pending(b[head := c], head, tail) == Pending(b, head, tail)
  {
  }

  lemma Push(b: seq<bv8>, head: nat, tail: nat)
    requires head < |b| && tail < |b| && Next(head, |b|) != tail
    ensures Pending(b, Next(head, |b|), tail) == Pending(b, head, tail) + [b[head]]
  {
  }

  lemma Pop(b: seq<bv8>, head: nat, tail: nat)
    requires head < |b| && tail < |b| && head != tail
    ensures Pending(b, head, tail) == [b[tail]] + Pending(b, head, Next(tail, |b|))
  {
  }
}

/** Transmission: `write` in its single steps, the data-register-empty interrupt anywhere
    in between. */
module SerialTx {
  import opened Ring

  /** Where the main line is inside write(c); `i` is the local of that name. */
  datatype Writer =
    | Idle
    | Waiting(c: bv8, i: nat)
    | Room(c: bv8, i: nat)
    | Stored(c: bv8, i: nat)
    | Published

  /** `written` is what write() has queued so far, `sent` what went to the UART. */
  datatype Port = Port(buffer: seq<bv8>, head: nat, tail: nat, udrie: bool, writer: Writer,
                       written: seq<bv8>, sent: seq<bv8>)

  datatype Event = Call(c: bv8) | Look | Store | Publish | Enable | Interrupt | End

  ghost predicate Shape(s: Port) {
    |s.buffer| >= 2 && s.head < |s.buffer| && s.tail < |s.buffer|
  }

  /** An event that cannot happen in `s` leaves it as it is. */
  function Step(s: Port, e: Event): Port
    requires |s.buffer| >= 2 && s.head < |s.buffer| && s.tail < |s.buffer|
  {
    match (e, s.writer)
    case (Call(c), Idle) => s.(writer := Waiting(c, Next(s.head, |s.buffer|)))
    case (Look, Waiting(c, i)) => if i == s.tail then s else s.(writer := Room(c, i))
    case (Store, Room(c, i)) => s.(buffer := s.buffer[s.head := c], writer := Stored(c, i))
    case (Publish, Stored(c, i)) =>
      if i < |s.buffer| then s.(head := i, writer := Published, written := s.written + [c]) else s
    case (Enable, Published) => s.(udrie := true, writer := Idle)
    case (Interrupt, _) =>
      if !s.udrie then s
      else if s.head == s.tail then s.(udrie := false)
      else s.(sent := s.sent + [s.buffer[s.tail]], tail := Next(s.tail, |s.buffer|))
    case (End, Idle) => if s.head == s.tail then s.(udrie := false) else s
    case _ => s
  }

  function Run(s: Port, es: seq<Event>): (t: Port)
    requires |s.buffer| >= 2 && s.head < |s.buffer| && s.tail < |s.buffer|
    ensures |t.buffer| >= 2 && t.head < |t.buffer| && t.tail < |t.buffer|
  {
    if es == [] then s else Step(Run(s, es[..|es| - 1]), es[|es| - 1])
  }

  ghost predicate Started(s: Port) {
    Shape(s) && s.head == s.tail && !s.udrie && s.writer == Idle && s.written == [] && s.sent == []
  }

  /** First in, first out, nothing lost and nothing sent twice. */
  ghost predicate Fifo(s: Port) {
    Shape(s) && s.sent + Pending(s.buffer, s.head, s.tail) == s.written
  }

  /** The queue is never left waiting with the interrupt off, except by a writer that is
      just about to turn it on. */
  ghost predicate NoLostWakeup(s: Port) {
    s.head != s.tail ==> s.udrie || s.writer == Published
  }

  ghost predicate WriterKnows(s: Port) {
    Shape(s) &&
    match s.writer
    case Waiting(_, i) => i == Next(s.head, |s.buffer|)
    case Room(_, i) => i == Next(s.head, |s.buffer|) && i != s.tail
    case Stored(c, i) => i == Next(s.head, |s.buffer|) && i != s.tail && s.buffer[s.head] == c
    case _ => true
  }

  ghost predicate Inv(s: Port) {
    Fifo(s) && NoLostWakeup(s) && WriterKnows(s)
  }

  /** What a step of the main line keeps. */
  lemma WriterKeepsInv(s: Port, e: Event)
    requires Inv(s) && e != Interrupt
    ensures Inv(Step(s, e))
  {
    match (e, s.writer)
    case (Store, Room(c, i)) => StoreKeeps(s.buffer, s.head, s.tail, c);
    case (Publish, Stored(c, i)) => Push(s.buffer, s.head, s.tail);
    case _ =>
  }

  lemma InterruptKeepsInv(s: Port)
    requires Inv(s)
    ensures Inv(Step(s, Interrupt))
  {
    hide Fifo, WriterKnows;
    InterruptStep(s);
    if s.udrie && s.head != s.tail {
      SendKeepsFifo(s);
      SendKeepsWriter(s);
    } else if s.udrie {
      OffKeeps(s);
    }
  }

  /** The interrupt with a byte to send. */
  function Sent(s: Port): Port
    requires |s.buffer| >= 2 && s.head < |s.buffer| && s.tail < |s.buffer|
  {
    s.(sent := s.sent + [s.buffer[s.tail]], tail := Next(s.tail, |s.buffer|))
  }

  lemma InterruptStep(s: Port)
    requires Inv(s)
    ensures Step(s, Interrupt) ==
      if !s.udrie then s else if s.head == s.tail then s.(udrie := false) else Sent(s)
  {
  }

  lemma SendKeepsFifo(s: Port)
    requires Fifo(s) && s.head != s.tail
    ensures Fifo(Sent(s))
  {
    hide Pending, Next;
    Pop(s.buffer, s.head, s.tail);
    var rest := Pending(s.buffer, s.head, Next(s.tail, |s.buffer|));
    assert s.sent + [s.buffer[s.tail]] + rest == s.sent + ([s.buffer[s.tail]] + rest);
  }

  lemma SendKeepsWriter(s: Port)
    requires WriterKnows(s) && s.head != s.tail
    ensures WriterKnows(Sent(s))
  {
    hide Next;
  }

  lemma OffKeeps(s: Port)
    requires Fifo(s) && WriterKnows(s)
    ensures Fifo(s.(udrie := false)) && WriterKnows(s.(udrie := false))
  {
    hide Pending, Next;
  }

  /** Every interleaving, from start-up on. */
  lemma {:induction false} RunKeepsInv(s: Port, es: seq<Event>)
    requires Started(s)
    ensures Inv(Run(s, es))
    decreases |es|
  {
    if es != [] {
      RunKeepsInv(s, es[..|es| - 1]);
      var t, e := Run(s, es[..|es| - 1]), es[|es| - 1];
      if e == Interrupt { InterruptKeepsInv(t); } else { WriterKeepsInv(t, e); }
    }
  }

  /** On every run, what was sent is a prefix of what was written, in order, and the rest
      is exactly what the buffer holds; once the ring is empty nothing is left unsent. */
  lemma SentInOrder(s: Port, es: seq<Event>)
    requires Started(s)
    ensures var t := Run(s, es);
            && t.sent <= t.written && t.written[|t.sent|..] == Pending(t.buffer, t.head, t.tail)
            && (t.head == t.tail ==> t.sent == t.written)
  {
    RunKeepsInv(s, es);
    var t := Run(s, es);
    PendingLength(t.buffer, t.head, t.tail);
  }

  /** A writer that waits for room is woken: the interrupt is on and one of it is enough. */
  lemma WaitingIsWoken(s: Port)
    requires Inv(s) && s.writer.Waiting? && s.writer.i == s.tail
    ensures s.udrie && |Pending(s.buffer, s.head, s.tail)| == |s.buffer| - 1
    ensures Step(Step(s, Interrupt), Look).writer.Room?
  {
    PendingLength(s.buffer, s.head, s.tail);
  }

  /** `n` interrupts in a row. */
  function Interrupted(s: Port, n: nat): (t: Port)
    requires |s.buffer| >= 2 && s.head < |s.buffer| && s.tail < |s.buffer|
    ensures |t.buffer| == |s.buffer| && t.head == s.head && t.tail < |t.buffer|
  {
    if n == 0 then s else Step(Interrupted(s, n - 1), Interrupt)
  }

  function Queued(s: Port): nat
    requires s.head < |s.buffer| && s.tail < |s.buffer|
  {
    |Pending(s.buffer, s.head, s.tail)|
  }

  /** Left alone, the interrupt sends all that is pending and then turns itself off. */
  lemma {:induction false} Drains(s: Port, n: nat)
    requires Inv(s) && s.writer == Idle && n <= Queued(s) + 1
    ensures var t, k := Interrupted(s, n), Queued(s);
            && Inv(t) && t.writer == Idle && t.written == s.written
            && Queued(t) == (if n <= k then k - n else 0)
            && (n == k + 1 ==> t.sent == t.written && !t.udrie)
    decreases n
  {
    hide Queued, Inv, Step;
    InvShape(s);
    if n > 0 {
      Drains(s, n - 1);
      InterruptKeepsInv(Interrupted(s, n - 1));
      InterruptSends(Interrupted(s, n - 1));
    }
  }

  lemma InvShape(s: Port)
    requires Inv(s)
    ensures Shape(s)
  {
  }

  lemma InterruptSends(t: Port)
    requires Inv(t) && t.writer == Idle
    ensures var u := Step(t, Interrupt);
            && Shape(u) && u.writer == Idle && u.written == t.written
            && Queued(u) == (if Queued(t) > 0 then Queued(t) - 1 else 0)
            && (Queued(t) == 0 ==> !u.udrie && u.sent == t.written)
  {
    PendingLength(t.buffer, t.head, t.tail);
    if t.head != t.tail { Pop(t.buffer, t.head, t.tail); }
  }

  lemma RunMore(s: Port, es: seq<Event>, e: Event)
    requires Shape(s)
    ensures Run(s, es + [e]) == Step(Run(s, es), e)
  {
    assert (es + [e])[..|es|] == es;
  }

  /** The static initialisation of a transmit buffer. */
  function StartUp(size: nat): Port {
    Port(seq(size, _ => 0), 0, 0, false, Idle, [], [])
  }

  /** The port in the form of its source: shared fields, a handler and a method. The ghost
      trace records the steps since start-up; a valid port has got where it is by them. */
  class TxPort {
    const buffer: array<bv8>
    var head: nat
    var tail: nat
    var udrie: bool
    var sent: seq<bv8>
    ghost var writer: Writer
    ghost var written: seq<bv8>
    ghost var trace: seq<Event>

    ghost function View(): Port
      reads this, buffer
    {
      Port(buffer[..], head, tail, udrie, writer, written, sent)
    }

    ghost predicate Valid()
      reads this, buffer
      ensures Valid() ==> Shape(View())
    {
      buffer.Length >= 2 && View() == Run(StartUp(buffer.Length), trace)
    }

    constructor (size: nat)
      requires size >= 2
      ensures Valid() && fresh(buffer) && buffer.Length == size && writer == Idle && trace == []
    {
      buffer := new bv8[size](_ => 0);
      head, tail, udrie, sent := 0, 0, false, [];
      writer, written, trace := Idle, [], [];
      new;
      assert buffer[..] == StartUp(size).buffer;
    }

    /** Appending what happened keeps the record right. */
    lemma Recorded(before: Port, past: seq<Event>, e: Event)
      requires buffer.Length >= 2 && before == Run(StartUp(buffer.Length), past) && Shape(before)
      requires View() == Step(before, e) && trace == past + [e]
      ensures Valid() && Inv(View())
    {
      RunMore(StartUp(buffer.Length), past, e);
      RunKeepsInv(StartUp(buffer.Length), trace);
    }

    /** ISR(USART_UDRE_vect), which the hardware runs only while the interrupt is on. */
    method UdreIsr()
      requires Valid()
      modifies this`tail, this`udrie, this`sent, this`trace
      ensures Valid() && Inv(View()) && trace == old(trace) + [Interrupt]
      ensures View() == Step(old(View()), Interrupt)
    {
      hide Run, Inv;
      ghost var before := View();
      if udrie {
        if head == tail {
          udrie := false;
        } else {
          var c := buffer[tail];
          tail := Next(tail, buffer.Length);
          sent := sent + [c];
        }
      }
      trace := trace + [Interrupt];
      Recorded(before, old(trace), Interrupt);
    }

    method Strike(fire: bool)
      requires Valid() && Inv(View())
      modifies this`tail, this`udrie, this`sent, this`trace
      ensures Valid() && Inv(View()) && old(trace) <= trace
    {
      hide Run, Inv, Step;
      if fire { UdreIsr(); }
    }

    method BeginWrite(c: bv8) returns (i: nat)
      requires Valid() && writer == Idle
      modifies this`writer, this`trace
      ensures Valid() && Inv(View()) && trace == old(trace) + [Call(c)]
      ensures writer == Waiting(c, i) && i < buffer.Length
    {
      hide Run, Inv;
      ghost var before := View();
      i := Next(head, buffer.Length);
      writer, trace := Waiting(c, i), trace + [Call(c)];
      Recorded(before, old(trace), Call(c));
    }

    /** The busy loop: nothing but the interrupt can end it, and one interrupt does. */
    method AwaitRoom(c: bv8, i: nat)
      requires Valid() && Inv(View()) && writer == Waiting(c, i)
      modifies this`tail, this`udrie, this`sent, this`trace, this`writer
      ensures Valid() && Inv(View()) && writer == Room(c, i) && old(trace) <= trace
    {
      hide Run, Inv;
      while i == tail
        invariant Valid() && Inv(View()) && writer == Waiting(c, i) && old(trace) <= trace
        decreases i == tail
      {
        WaitingIsWoken(View());
        UdreIsr();
      }
      ghost var before, past := View(), trace;
      writer, trace := Room(c, i), trace + [Look];
      Recorded(before, past, Look);
    }

    method StoreByte(c: bv8, i: nat)
      requires Valid() && writer == Room(c, i)
      modifies this`writer, this`trace, buffer
      ensures Valid() && Inv(View()) && trace == old(trace) + [Store] && writer == Stored(c, i)
    {
      hide Run, Inv;
      ghost var before := View();
      buffer[head] := c;
      writer, trace := Stored(c, i), trace + [Store];
      Recorded(before, old(trace), Store);
    }

    method PublishHead(c: bv8, i: nat)
      requires Valid() && writer == Stored(c, i) && i < buffer.Length
      modifies this`writer, this`head, this`written, this`trace
      ensures Valid() && Inv(View()) && trace == old(trace) + [Publish]
      ensures writer == Published && written == old(written) + [c]
    {
      hide Run, Inv;
      ghost var before := View();
      head := i;
      writer, written, trace := Published, written + [c], trace + [Publish];
      Recorded(before, old(trace), Publish);
    }

    method EnableInterrupt()
      requires Valid() && writer == Published
      modifies this`writer, this`udrie, this`trace
      ensures Valid() && Inv(View()) && trace == old(trace) + [Enable] && writer == Idle
    {
      hide Run, Inv;
      ghost var before := View();
      udrie := true;
      writer, trace := Idle, trace + [Enable];
      Recorded(before, old(trace), Enable);
    }

    /** write(c), with the interrupt striking between any two of its steps as `fire` says
        and as often as it takes while the method waits. */
    method Write(c: bv8, fire: seq<bool>)
      requires Valid() && writer == Idle && |fire| == 4
      modifies this, buffer
      ensures Valid() && Inv(View()) && old(trace) <= trace && writer == Idle
      ensures written == old(written) + [c]
    {
      hide Run, Inv, Step, Valid;
      var i := BeginWrite(c);
      Strike(fire[0]);
      AwaitRoom(c, i);
      Strike(fire[1]);
      StoreByte(c, i);
      Strike(fire[2]);
      PublishHead(c, i);
      Strike(fire[3]);
      EnableInterrupt();
    }
  }
}

/** Reception: store_char from the receive interrupt, read from the main line. */
module SerialRx {
  import opened Ring

  /** What a queue of `room` bytes holds after `cs` arrived: full means dropped. */
  function Arrived(q: seq<bv8>, cs: seq<bv8>, room: nat): seq<bv8> {
    if cs == [] then q
    else
      var r := Arrived(q, cs[..|cs| - 1], room);
      if |r| < room then r + [cs[|cs| - 1]] else r
  }

  /** Taking the first byte before or after the arrivals gives the same bytes as long as
      there was room for all of them. */
  lemma {:induction false} ArrivedFits(q: seq<bv8>, cs: seq<bv8>, room: nat)
    requires |q| + |cs| <= room
    ensures Arrived(q, cs, room) == q + cs
  {
    if cs != [] {
      ArrivedFits(q, cs[..|cs| - 1], room);
      assert q + cs == q + cs[..|cs| - 1] + [cs[|cs| - 1]];
    }
  }

  lemma {:induction false} ArrivedPrefix(q: seq<bv8>, cs: seq<bv8>, room: nat)
    ensures q <= Arrived(q, cs, room)
  {
    if cs != [] {
      ArrivedPrefix(q, cs[..|cs| - 1], room);
    }
  }

  class RxPort {
    const buffer: array<bv8>
    var head: nat
    var tail: nat
    ghost var accepted: seq<bv8>
    ghost var taken: seq<bv8>

    ghost function Contents(): seq<bv8>
      reads this, buffer
      requires head < buffer.Length && tail < buffer.Length
    {
      Pending(buffer[..], head, tail)
    }

    /** Bytes are read in the order in which they were accepted, none twice. */
    ghost predicate Valid()
      reads this, buffer
    {
      && buffer.Length >= 2 && head < buffer.Length && tail < buffer.Length
      && taken + Contents() == accepted
    }

    constructor (size: nat)
      requires size >= 2
      ensures Valid() && fresh(buffer) && buffer.Length == size && accepted == [] && Contents() == []
    {
      buffer := new bv8[size](_ => 0);
      head, tail, accepted, taken := 0, 0, [], [];
    }

    /** store_char: a byte is dropped only when size - 1 bytes are pending. */
    method StoreChar(c: bv8)
      requires Valid()
      modifies this`head, this`accepted, buffer
      ensures Valid()
      ensures Contents() == if |old(Contents())| < buffer.Length - 1 then old(Contents()) + [c] else old(Contents())
      ensures accepted == if |old(Contents())| < buffer.Length - 1 then old(accepted) + [c] else old(accepted)
    {
      ghost var b, q := buffer[..], Contents();
      PendingLength(b, head, tail);
      var i := Next(head, buffer.Length);
      if i != tail {
        StoreKeeps(b, head, tail, c);
        Push(b[head := c], head, tail);
        buffer[head] := c;
        assert buffer[..] == b[head := c];
        head := i;
        accepted := accepted + [c];
        assert taken + (q + [c]) == taken + q + [c];
      }
    }

    /** The interrupt runs once for each byte of `cs`. */
    method Arrive(cs: seq<bv8>)
      requires Valid()
      modifies this`head, this`accepted, buffer
      ensures Valid() && Contents() == Arrived(old(Contents()), cs, buffer.Length - 1)
    {
      for k := 0 to |cs|
        invariant Valid() && Contents() == Arrived(old(Contents()), cs[..k], buffer.Length - 1)
      {
        StoreChar(cs[k]);
        assert cs[..k + 1][..k] == cs[..k];
      }
      assert cs[..|cs|] == cs;
    }

    method Available() returns (n: nat)
      requires Valid()
      ensures n == |Contents()|
    {
      PendingLength(buffer[..], head, tail);
      n := (buffer.Length + head - tail) % buffer.Length;
    }

    method Peek() returns (r: int)
      requires Valid()
      ensures r == if Contents() == [] then -1 else Contents()[0] as int
    {
      PendingLength(buffer[..], head, tail);
      if head == tail {
        r := -1;
      } else {
        r := buffer[tail] as int;
      }
    }

    method Load() returns (c: bv8)
      requires Valid() && Contents() != []
      ensures c == Contents()[0]
    {
      PendingLength(buffer[..], head, tail);
      c := buffer[tail];
    }

    method Release(ghost c: bv8)
      requires Valid() && Contents() != [] && Contents()[0] == c
      modifies this`tail, this`taken
      ensures Valid() && Contents() == old(Contents())[1..] && taken == old(taken) + [c]
    {
      hide Next, Pending;
      PendingLength(buffer[..], head, tail);
      Pop(buffer[..], head, tail);
      ghost var q := Contents();
      tail := Next(tail, buffer.Length);
      taken := taken + [c];
      assert q == [c] + Contents();
    }

    /** read(), with bytes arriving between its test, its load and its update of the tail. */
    method Read(early: seq<bv8>, late: seq<bv8>) returns (r: int)
      requires Valid()
      modifies this, buffer
      ensures Valid()
      ensures old(Contents()) == [] ==> r == -1 && Contents() == [] && taken == old(taken)
      ensures old(Contents()) != [] ==>
                && r == old(Contents())[0] as int && taken == old(taken) + [old(Contents())[0]]
                && var q := Arrived(Arrived(old(Contents()), early, buffer.Length - 1), late, buffer.Length - 1);
                   q != [] && Contents() == q[1..]
    {
      hide Pending, Arrived;
      PendingLength(buffer[..], head, tail);
      if head == tail {
        return -1;
      }
      ArrivedPrefix(Contents(), early, buffer.Length - 1);
      Arrive(early);
      var c := Load();
      ArrivedPrefix(Contents(), late, buffer.Length - 1);
      Arrive(late);
      Release(c);
      r := c as int;
    }
  }
}
