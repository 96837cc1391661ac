/** The receive state machine and the answer encoder of
    hardware/arduino/bootloaders/stk500v2/stk500boot.c, built without the '!' monitor
    (Atmel AVR068, "Message format"). */
module Stk500Frames {
  import opened AvrFlash
  import opened Sequences

  const MESSAGE_START: bv8 := 0x1B
  const TOKEN: bv8 := 0x0E

  const MSG_BUFFER := 285

  /** The checksum step. */
  function Mix(sum: bv8, c: bv8): bv8 {
    sum ^ c
  }

  /** `msgLength |= c` */
  function WithLow(w: bv16, c: bv8): bv16 {
    w | (c as bv16)
  }

  /** The length as a number. */
  function Len(w: bv16): (n: nat)
    ensures n < 0x1_0000
  {
    w as nat
  }

  lemma MixZero(c: bv8)
    ensures Mix(0, c) == c && Mix(c, 0) == c
  {
  }

  datatype ParseState = Start | GetSeqNum | MsgSize1 | MsgSize2 | GetToken | GetData | GetCheck | Process

  /** `overrun` marks a write past the end of the message buffer; what comes after is unknown. */
  datatype Parser = Parser(state: ParseState, seqNum: bv8, msgLength: bv16, ii: nat,
                           checksum: bv8, msgBuffer: seq<bv8>, overrun: bool)

  ghost predicate Shape(p: Parser) {
    |p.msgBuffer| == MSG_BUFFER && p.ii <= MSG_BUFFER
  }

  /** One received byte. */
  function Feed(p: Parser, c: bv8): (q: Parser)
    requires Shape(p)
    ensures Shape(q)
  {
    if p.overrun then p
    else match p.state
      case Start => if c == MESSAGE_START then p.(state := GetSeqNum, checksum := Mix(MESSAGE_START, 0)) else p
      case GetSeqNum =>
        if c == 1 || c == p.seqNum then p.(seqNum := c, state := MsgSize1, checksum := Mix(p.checksum, c))
        else p.(state := Start)
      case MsgSize1 => p.(msgLength := Word(0, c), state := MsgSize2, checksum := Mix(p.checksum, c))
      case MsgSize2 => p.(msgLength := WithLow(p.msgLength, c), state := GetToken, checksum := Mix(p.checksum, c))
      case GetToken =>
        if c == TOKEN then p.(state := GetData, checksum := Mix(p.checksum, c), ii := 0) else p.(state := Start)
      case GetData => Store(p, c)
      case GetCheck => p.(state := if c == p.checksum then Process else Start)
      case Process => p
  }

  /** One byte of the body; the counter is 16 bits wide and the buffer far shorter. */
  function Store(p: Parser, c: bv8): (q: Parser)
    requires Shape(p)
    ensures Shape(q)
  {
    if p.ii == MSG_BUFFER then p.(overrun := true)
    else p.(msgBuffer := p.msgBuffer[p.ii := c], ii := p.ii + 1, checksum := Mix(p.checksum, c),
            state := if p.ii + 1 == Len(p.msgLength) then GetCheck else GetData)
  }

  /** Bytes are taken until a message is complete or none is left. */
  function FeedAll(p: Parser, bs: seq<bv8>): (q: Parser)
    requires Shape(p)
    ensures Shape(q)
  {
    if bs == [] then p else Feed(FeedAll(p, bs[..|bs| - 1]), bs[|bs| - 1])
  }

  function Xor(bs: seq<bv8>): bv8 {
    if bs == [] then 0 else Mix(Xor(bs[..|bs| - 1]), bs[|bs| - 1])
  }

  function Header(seqNum: bv8, length: bv16): seq<bv8> {
    [MESSAGE_START, seqNum, High(length), Low(length), TOKEN]
  }

  /** A message with its checksum. */
  function Frame(seqNum: bv8, length: bv16, body: seq<bv8>): seq<bv8> {
    Header(seqNum, length) + body + [Xor(Header(seqNum, length) + body)]
  }

  // ---------------------------------------------------------------- what the checksum says

  predicate OneBit(bit: bv8) { bit != 0 && bit & (bit - 1) == 0 }

  /** How many of the bytes have the bit set. */
  function Ones(bs: seq<bv8>, bit: bv8): nat {
    if bs == [] then 0 else Ones(bs[..|bs| - 1], bit) + if bs[|bs| - 1] & bit != 0 then 1 else 0
  }

  /** Every bit is set in an even number of the bytes. */
  ghost predicate Balanced(bs: seq<bv8>) {
    forall bit | OneBit(bit) :: Ones(bs, bit) % 2 == 0
  }

  lemma OnesMore(t: seq<bv8>, c: bv8, bit: bv8)
    ensures Ones(t + [c], bit) == Ones(t, bit) + if c & bit != 0 then 1 else 0
  {
    assert (t + [c])[..|t|] == t;
  }

  lemma MixBit(a: bv8, c: bv8, bit: bv8)
    requires OneBit(bit)
    ensures Mix(a, c) & bit != 0 <==> (a & bit != 0) != (c & bit != 0)
  {
  }

  lemma {:induction false} XorOnes(bs: seq<bv8>, bit: bv8)
    requires OneBit(bit)
    ensures Xor(bs) & bit != 0 <==> Ones(bs, bit) % 2 == 1
  {
    hide Mix, OneBit, Xor, Ones;
    if bs == [] {
      XorNothing(bit);
    } else {
      var front, c := bs[..|bs| - 1], bs[|bs| - 1];
      assert bs == front + [c];
      XorOnes(front, bit);
      XorMore(front, c);
      OnesMore(front, c, bit);
      MixBit(Xor(front), c, bit);
      OddMore(Ones(front, bit));
    }
  }

  lemma XorNothing(bit: bv8)
    ensures Xor([]) & bit == 0 && Ones([], bit) == 0
  {
  }

  lemma OddMore(n: nat)
    ensures (n + 1) % 2 == 1 <==> n % 2 == 0
  {
  }

  lemma SameBits(a: bv8, c: bv8)
    requires forall bit | OneBit(bit) :: a & bit != 0 <==> c & bit != 0
    ensures a == c
  {
    assert OneBit(1) && OneBit(2) && OneBit(4) && OneBit(8) && OneBit(16) && OneBit(32) && OneBit(64) && OneBit(128);
    EightBits(a, c);
  }

  lemma EightBits(a: bv8, c: bv8)
    requires (a & 1 != 0 <==> c & 1 != 0) && (a & 2 != 0 <==> c & 2 != 0)
    requires (a & 4 != 0 <==> c & 4 != 0) && (a & 8 != 0 <==> c & 8 != 0)
    requires (a & 16 != 0 <==> c & 16 != 0) && (a & 32 != 0 <==> c & 32 != 0)
    requires (a & 64 != 0 <==> c & 64 != 0) && (a & 128 != 0 <==> c & 128 != 0)
    ensures a == c
  {
  }

  /** The one byte that balances the others. */
  lemma BalancedExact(t: seq<bv8>, c: bv8)
    ensures Balanced(t + [c]) <==> c == Xor(t)
  {
    hide Xor, OneBit, Ones;
    forall bit | OneBit(bit) ensures Ones(t + [c], bit) % 2 == 0 <==> (c & bit != 0 <==> Xor(t) & bit != 0) {
      XorOnes(t, bit);
      OnesMore(t, c, bit);
    }
    if Balanced(t + [c]) { SameBits(c, Xor(t)); }
  }

  lemma FrameBalanced(seqNum: bv8, length: bv16, body: seq<bv8>)
    ensures Balanced(Frame(seqNum, length, body))
  {
    hide Xor, Balanced;
    BalancedExact(Header(seqNum, length) + body, Xor(Header(seqNum, length) + body));
  }

  /** The request for load-address 0 and its answer, as bytes on the wire. */
  lemma LoadAddressOnWire()
    ensures Frame(1, 5, [0x06, 0, 0, 0, 0]) == [0x1B, 0x01, 0x00, 0x05, 0x0E, 0x06, 0x00, 0x00, 0x00, 0x00, 0x17]
    ensures Frame(1, 2, [0x06, 0]) == [0x1B, 0x01, 0x00, 0x02, 0x0E, 0x06, 0x00, 0x10]
  {
    hide Mix, Xor, Low, High;
    HeaderBytes();
    MixedSums();
    var start: seq<bv8> := [0x1B];
    var head := start + [0x01, 0x00];
    XorOne(0x1B);
    XorTwo(start, 0x01, 0x00);
    var ask := head + [0x05, 0x0E];
    XorTwo(head, 0x05, 0x0E);
    XorTwo(ask, 0x06, 0x00);
    XorTwo(ask + [0x06, 0x00], 0x00, 0x00);
    XorMore(ask + [0x06, 0x00] + [0x00, 0x00], 0x00);
    assert Header(1, 5) + [0x06, 0, 0, 0, 0] == ask + [0x06, 0x00] + [0x00, 0x00] + [0x00];
    var reply := head + [0x02, 0x0E];
    XorTwo(head, 0x02, 0x0E);
    XorTwo(reply, 0x06, 0x00);
    assert Header(1, 2) + [0x06, 0] == reply + [0x06, 0x00];
  }

  lemma HeaderBytes()
    ensures Header(1, 5) == [0x1B, 0x01, 0x00, 0x05, 0x0E] && Header(1, 2) == [0x1B, 0x01, 0x00, 0x02, 0x0E]
  {
  }

  lemma XorTwo(t: seq<bv8>, c: bv8, d: bv8)
    ensures Xor(t + [c, d]) == Mix(Mix(Xor(t), c), d)
  {
    hide Mix, Xor;
    XorMore(t, c);
    XorMore(t + [c], d);
    assert t + [c, d] == t + [c] + [d];
  }

  lemma MixedSums()
    ensures Mix(Mix(0x1B, 0x01), 0x00) == 0x1A && Mix(Mix(0x1A, 0x05), 0x0E) == 0x11 && Mix(Mix(0x1A, 0x02), 0x0E) == 0x16
    ensures Mix(Mix(0x11, 0x06), 0x00) == 0x17 && Mix(Mix(0x17, 0x00), 0x00) == 0x17 && Mix(0x17, 0x00) == 0x17
    ensures Mix(Mix(0x16, 0x06), 0x00) == 0x10
  {
  }

  // ---------------------------------------------------------------- soundness

  /** What the parser has accepted of the message it is in. */
  ghost function Taken(p: Parser): seq<bv8>
    requires Shape(p)
  {
    match p.state
    case Start => []
    case GetSeqNum => [MESSAGE_START]
    case MsgSize1 => [MESSAGE_START, p.seqNum]
    case MsgSize2 => [MESSAGE_START, p.seqNum, High(p.msgLength)]
    case GetToken => [MESSAGE_START, p.seqNum, High(p.msgLength), Low(p.msgLength)]
    case GetData => Header(p.seqNum, p.msgLength) + p.msgBuffer[..p.ii]
    case GetCheck => Header(p.seqNum, p.msgLength) + p.msgBuffer[..p.ii]
    case Process => Frame(p.seqNum, p.msgLength, p.msgBuffer[..p.ii])
  }

  /** The input ends with what was accepted, and the running checksum is its exclusive or. The
      body is complete at its declared length; a length of 0 is never reached. */
  ghost predicate Tracks(p: Parser, bs: seq<bv8>) {
    && Shape(p) && !p.overrun
    && (p.state == MsgSize2 ==> Low(p.msgLength) == 0)
    && EndsWith(bs, Taken(p))
    && (p.state != Start && p.state != Process ==> p.checksum == Xor(Taken(p)))
    && (p.state == GetData ==> Len(p.msgLength) == 0 || p.ii < Len(p.msgLength))
    && (p.state == GetCheck || p.state == Process ==> 0 < p.ii == Len(p.msgLength))
  }

  lemma EndsWithMore(bs: seq<bv8>, t: seq<bv8>, c: bv8)
    requires EndsWith(bs, t)
    ensures EndsWith(bs + [c], t + [c])
  {
  }

  lemma XorMore(t: seq<bv8>, c: bv8)
    ensures Xor(t + [c]) == Mix(Xor(t), c)
  {
    assert (t + [c])[..|t|] == t;
  }

  lemma SizeBytes(w: bv16, c: bv8)
    ensures High(Word(0, c)) == c && Low(Word(0, c)) == 0
    ensures Low(w) == 0 ==> High(WithLow(w, c)) == High(w) && Low(WithLow(w, c)) == c
  {
  }

  /** A byte that extends what was accepted and goes into the checksum. */
  lemma Extends(p: Parser, q: Parser, bs: seq<bv8>, c: bv8)
    requires Tracks(p, bs) && p.state != Start && p.state != Process && Shape(q)
    requires Taken(q) == Taken(p) + [c] && q.checksum == Mix(p.checksum, c)
    ensures EndsWith(bs + [c], Taken(q)) && q.checksum == Xor(Taken(q))
  {
    hide Xor;
    XorMore(Taken(p), c);
    EndsWithMore(bs, Taken(p), c);
  }

  lemma SequenceTracks(p: Parser, bs: seq<bv8>, c: bv8)
    requires Tracks(p, bs) && p.state == GetSeqNum
    ensures Tracks(Feed(p, c), bs + [c])
  {
    hide Xor;
    if c == 1 || c == p.seqNum {
      Extends(p, Feed(p, c), bs, c);
    }
  }

  lemma SizeTracks(p: Parser, bs: seq<bv8>, c: bv8)
    requires Tracks(p, bs) && (p.state == MsgSize1 || p.state == MsgSize2)
    ensures Tracks(Feed(p, c), bs + [c])
  {
    hide Low, High, Word, WithLow, Len, Mix, Xor;
    SizeBytes(p.msgLength, c);
    Extends(p, Feed(p, c), bs, c);
  }

  lemma TokenTracks(p: Parser, bs: seq<bv8>, c: bv8)
    requires Tracks(p, bs) && p.state == GetToken
    ensures Tracks(Feed(p, c), bs + [c])
  {
    hide Low, High, Word, WithLow, Len, Mix, Xor, EndsWith;
    if c == TOKEN {
      var q := Feed(p, c);
      assert Header(p.seqNum, p.msgLength) + p.msgBuffer[..0] == Header(p.seqNum, p.msgLength);
      Extends(p, q, bs, c);
    } else {
      EndsWithMore(bs, Taken(p), c);
      EndsWithNothing(bs + [c]);
    }
  }

  lemma DataTracks(p: Parser, bs: seq<bv8>, c: bv8)
    requires Tracks(p, bs) && p.state == GetData && p.ii < MSG_BUFFER
    ensures Tracks(Feed(p, c), bs + [c])
  {
    hide Low, High, Word, WithLow, Len, Mix, Xor, EndsWith, Header;
    var q := Feed(p, c);
    StoreExtends(p.msgBuffer, p.ii, c);
    Grouped(Header(p.seqNum, p.msgLength), p.msgBuffer[..p.ii], [c]);
    Extends(p, q, bs, c);
  }

  lemma StoreExtends(b: seq<bv8>, i: nat, c: bv8)
    requires i < |b|
    ensures b[i := c][..i + 1] == b[..i] + [c]
  {
  }

  lemma Grouped(a: seq<bv8>, b: seq<bv8>, c: seq<bv8>)
    ensures a + (b + c) == a + b + c
  {
  }

  lemma CheckTracks(p: Parser, bs: seq<bv8>, c: bv8)
    requires Tracks(p, bs) && p.state == GetCheck
    ensures Tracks(Feed(p, c), bs + [c])
  {
    hide Low, High, Word, WithLow, Len, Mix, Xor;
    if c == p.checksum {
      EndsWithMore(bs, Taken(p), c);
    } else {
      EndsWithNothing(bs + [c]);
    }
  }

  lemma StartTracks(p: Parser, bs: seq<bv8>, c: bv8)
    requires Tracks(p, bs) && p.state == Start
    ensures Tracks(Feed(p, c), bs + [c])
  {
    hide Mix;
    EndsWithMore(bs, [], c);
    XorMore([], MESSAGE_START);
    MixZero(MESSAGE_START);
  }

  lemma StepTracks(m: Parser, bs: seq<bv8>, c: bv8)
    requires Tracks(m, bs) && m.state != Process && !(m.state == GetData && m.ii == MSG_BUFFER)
    ensures Tracks(Feed(m, c), bs + [c])
  {
    hide Tracks;
    TracksShape(m, bs);
    match m.state
    case Start => StartTracks(m, bs, c);
    case GetData => DataTracks(m, bs, c);
    case GetCheck => CheckTracks(m, bs, c);
    case GetSeqNum => SequenceTracks(m, bs, c);
    case GetToken => TokenTracks(m, bs, c);
    case _ => SizeTracks(m, bs, c);
  }

  lemma TracksShape(m: Parser, bs: seq<bv8>)
    requires Tracks(m, bs)
    ensures Shape(m) && !m.overrun
  {
  }

  /** Once the buffer is overrun, or a message complete, nothing moves any more. */
  lemma {:induction false} Stuck(p: Parser, bs: seq<bv8>)
    requires Shape(p) && (p.overrun || p.state == Process)
    ensures FeedAll(p, bs) == p
    decreases |bs|
  {
    if bs != [] { Stuck(p, bs[..|bs| - 1]); }
  }

  /** No message is complete before the last byte. */
  ghost predicate Fresh(p: Parser, bs: seq<bv8>)
    requires Shape(p)
  {
    bs == [] || FeedAll(p, bs[..|bs| - 1]).state != Process
  }

  /** Whatever the stream was, up to the first complete message and as long as the buffer is not
      overrun the parser's state is a true account of how the stream ends. */
  lemma {:induction false} FeedAllTracks(p: Parser, bs: seq<bv8>)
    requires Shape(p) && p.state == Start && !p.overrun && Fresh(p, bs)
    ensures FeedAll(p, bs).overrun || Tracks(FeedAll(p, bs), bs)
    decreases |bs|
  {
    hide Tracks, FeedAll, Feed;
    if bs == [] {
      StartsTracked(p);
    } else {
      var front, c := bs[..|bs| - 1], bs[|bs| - 1];
      FreshFront(p, bs);
      FeedAllTracks(p, front);
      assert front + [c] == bs;
      FeedMore(p, front, c);
      Onward(FeedAll(p, front), front, c);
    }
  }

  lemma StartsTracked(p: Parser)
    requires Shape(p) && p.state == Start && !p.overrun
    ensures Tracks(FeedAll(p, []), [])
  {
    hide Low, High, Word, WithLow, Len, Mix, Xor, Header, Frame;
    assert FeedAll(p, []) == p && Taken(p) == [];
  }

  lemma Onward(m: Parser, bs: seq<bv8>, c: bv8)
    requires Shape(m) && (m.overrun || Tracks(m, bs)) && m.state != Process
    ensures Feed(m, c).overrun || Tracks(Feed(m, c), bs + [c])
  {
    hide Tracks;
    if !m.overrun && !(m.state == GetData && m.ii == MSG_BUFFER) { StepTracks(m, bs, c); }
  }

  lemma FreshFront(p: Parser, bs: seq<bv8>)
    requires Shape(p) && bs != [] && Fresh(p, bs)
    ensures Fresh(p, bs[..|bs| - 1])
  {
    var front := bs[..|bs| - 1];
    if front != [] {
      var m := FeedAll(p, front[..|front| - 1]);
      ProcessStays(m, front[|front| - 1]);
    }
  }

  lemma ProcessStays(m: Parser, c: bv8)
    requires Shape(m)
    ensures m.state == Process ==> Feed(m, c).state == Process
  {
  }

  lemma SequenceStep(p: Parser, c: bv8)
    requires Shape(p)
    ensures Feed(p, c).seqNum == 1 || Feed(p, c).seqNum == p.seqNum
  {
    hide Mix, Word, WithLow, Len;
  }

  lemma {:induction false} SequenceKept(p: Parser, bs: seq<bv8>)
    requires Shape(p)
    ensures FeedAll(p, bs).seqNum == 1 || FeedAll(p, bs).seqNum == p.seqNum
    decreases |bs|
  {
    if bs != [] {
      SequenceKept(p, bs[..|bs| - 1]);
      SequenceStep(FeedAll(p, bs[..|bs| - 1]), bs[|bs| - 1]);
    }
  }

  /** Soundness: when a message is complete, the last length + 6 bytes are a message with a
      right checksum, its body is in the buffer, and its sequence number was acceptable. */
  lemma CompleteIsFrame(p: Parser, bs: seq<bv8>)
    requires Shape(p) && p.state == Start && !p.overrun && bs != [] && Fresh(p, bs)
    requires FeedAll(p, bs).state == Process
    ensures var q := FeedAll(p, bs); var n := Len(q.msgLength);
            && 1 <= n <= MSG_BUFFER && n + 6 <= |bs| && !q.overrun
            && bs[|bs| - (n + 6)..] == Frame(q.seqNum, q.msgLength, q.msgBuffer[..n])
            && Balanced(bs[|bs| - (n + 6)..])
            && (q.seqNum == 1 || q.seqNum == p.seqNum)
  {
    hide FeedAll, Fresh, Xor, Len, Header, Balanced;
    var end := FeedAll(p, bs);
    FrameBalanced(end.seqNum, end.msgLength, end.msgBuffer[..end.ii]);
    ProcessIntact(p, bs);
    FeedAllTracks(p, bs);
    SequenceKept(p, bs);
    FrameLength(FeedAll(p, bs));
  }

  lemma FrameLength(q: Parser)
    requires Shape(q)
    ensures |Frame(q.seqNum, q.msgLength, q.msgBuffer[..q.ii])| == q.ii + 6
  {
  }

  /** A parser that has overrun its buffer does not complete a message. */
  lemma {:induction false} ProcessIntact(p: Parser, bs: seq<bv8>)
    requires Shape(p) && !p.overrun
    ensures FeedAll(p, bs).overrun ==> FeedAll(p, bs).state == GetData
    decreases |bs|
  {
    if bs != [] {
      ProcessIntact(p, bs[..|bs| - 1]);
      OverrunState(FeedAll(p, bs[..|bs| - 1]), bs[|bs| - 1]);
    }
  }

  lemma OverrunState(m: Parser, c: bv8)
    requires Shape(m) && (m.overrun ==> m.state == GetData)
    ensures Feed(m, c).overrun ==> Feed(m, c).state == GetData
    ensures Feed(m, c).overrun && !m.overrun ==> m.state == GetData && m.ii == MSG_BUFFER
  {
  }

  // ---------------------------------------------------------------- completeness

  lemma {:induction false} FeedAllAppend(p: Parser, a: seq<bv8>, b: seq<bv8>)
    requires Shape(p)
    ensures FeedAll(p, a + b) == FeedAll(FeedAll(p, a), b)
    decreases |b|
  {
    if b == [] {
      assert a + b == a;
    } else {
      assert (a + b)[..|a + b| - 1] == a + b[..|b| - 1];
      FeedAllAppend(p, a, b[..|b| - 1]);
    }
  }

  lemma FeedOne(p: Parser, c: bv8)
    requires Shape(p)
    ensures FeedAll(p, [c]) == Feed(p, c)
  {
    assert [c][..0] == [];
    assert FeedAll(p, [c][..0]) == p;
  }

  lemma FeedMore(p: Parser, a: seq<bv8>, c: bv8)
    requires Shape(p)
    ensures FeedAll(p, a + [c]) == Feed(FeedAll(p, a), c)
  {
    assert (a + [c])[..|a|] == a;
  }

  /** An acceptable header starts the body. */
  lemma HeaderAccepted(p: Parser, seqNum: bv8, length: bv16)
    requires Shape(p) && p.state == Start && !p.overrun && (seqNum == 1 || seqNum == p.seqNum)
    ensures FeedAll(p, Header(seqNum, length)) ==
            p.(state := GetData, seqNum := seqNum, msgLength := length, ii := 0,
               checksum := Xor(Header(seqNum, length)))
  {
    hide Mix, WithLow, FeedAll, Xor, Low, High, Word;
    var h1 := [MESSAGE_START];
    var h2 := h1 + [seqNum];
    var h3 := h2 + [High(length)];
    var h4 := h3 + [Low(length)];
    assert Header(seqNum, length) == h4 + [TOKEN];
    FeedOne(p, MESSAGE_START);
    XorOne(MESSAGE_START);
    MixZero(MESSAGE_START);
    assert FeedAll(p, h1) == p.(state := GetSeqNum, checksum := Xor(h1));
    FeedMore(p, h1, seqNum);
    XorMore(h1, seqNum);
    assert FeedAll(p, h2) == p.(state := MsgSize1, seqNum := seqNum, checksum := Xor(h2));
    FeedMore(p, h2, High(length));
    XorMore(h2, High(length));
    var w := Word(0, High(length));
    assert FeedAll(p, h3) == p.(state := MsgSize2, seqNum := seqNum, msgLength := w, checksum := Xor(h3));
    FeedMore(p, h3, Low(length));
    XorMore(h3, Low(length));
    WordOr(length);
    assert FeedAll(p, h4) == p.(state := GetToken, seqNum := seqNum, msgLength := length, checksum := Xor(h4));
    FeedMore(p, h4, TOKEN);
    XorMore(h4, TOKEN);
  }

  lemma XorOne(c: bv8)
    ensures Xor([c]) == c
  {
    assert Xor([c][..0]) == 0;
    MixZero(c);
  }

  lemma WordOr(w: bv16)
    ensures WithLow(Word(0, High(w)), Low(w)) == w
  {
  }

  /** `body` is in the buffer of a parser that started it at `p`. */
  ghost predicate Body(p: Parser, q: Parser, head: seq<bv8>, body: seq<bv8>) {
    && Shape(q) && !q.overrun && q.seqNum == p.seqNum && q.msgLength == p.msgLength
    && q.state == (if 0 < |body| == Len(p.msgLength) then GetCheck else GetData)
    && q.ii == |body| && q.msgBuffer[..|body|] == body && q.checksum == Xor(head + body)
  }

  /** Up to its length, or the end of the buffer, the body is stored. */
  lemma {:induction false} BodyAccepted(p: Parser, head: seq<bv8>, body: seq<bv8>)
    requires Shape(p) && p.state == GetData && p.ii == 0 && !p.overrun && p.checksum == Xor(head)
    requires |body| <= MSG_BUFFER && (Len(p.msgLength) == 0 || |body| <= Len(p.msgLength))
    ensures Body(p, FeedAll(p, body), head, body)
    decreases |body|
  {
    if body == [] {
      assert head + body == head;
    } else {
      var front, c := body[..|body| - 1], body[|body| - 1];
      BodyAccepted(p, head, front);
      BodyStep(p, FeedAll(p, front), head, front, c);
      assert front + [c] == body;
    }
  }

  lemma BodyStep(p: Parser, m: Parser, head: seq<bv8>, front: seq<bv8>, c: bv8)
    requires Body(p, m, head, front) && |front| < MSG_BUFFER
    requires Len(p.msgLength) == 0 || |front| < Len(p.msgLength)
    ensures Body(p, Feed(m, c), head, front + [c])
  {
    hide Mix, Xor, Len;
    Grouped(head, front, [c]);
    XorMore(head + front, c);
    StoreExtends(m.msgBuffer, m.ii, c);
  }

  /** A header that declares no body or one that is too long makes the parser write past its
      buffer 286 bytes later. */
  lemma LongBodyOverruns(p: Parser, seqNum: bv8, length: bv16, more: seq<bv8>)
    requires Shape(p) && p.state == Start && !p.overrun && (seqNum == 1 || seqNum == p.seqNum)
    requires (Len(length) == 0 || Len(length) > MSG_BUFFER) && |more| > MSG_BUFFER
    ensures FeedAll(p, Header(seqNum, length) + more).overrun
  {
    hide Mix, Xor, Header, FeedAll, Len;
    var h, body, c, rest := Header(seqNum, length), more[..MSG_BUFFER], more[MSG_BUFFER], more[MSG_BUFFER + 1..];
    HeaderAccepted(p, seqNum, length);
    var m := FeedAll(p, h);
    BodyAccepted(m, h, body);
    assert more == body + ([c] + rest);
    FeedAllAppend(p, h, more);
    FeedAllAppend(m, body, [c] + rest);
    FeedAllAppend(FeedAll(m, body), [c], rest);
    FeedOne(FeedAll(m, body), c);
    Stuck(Feed(FeedAll(m, body), c), rest);
  }

  /** Behind a body that fits, the last byte completes the message exactly when it balances all
      the bits. */
  lemma ChecksumExact(p: Parser, seqNum: bv8, length: bv16, body: seq<bv8>, c: bv8)
    requires Shape(p) && p.state == Start && !p.overrun && (seqNum == 1 || seqNum == p.seqNum)
    requires 1 <= |body| == Len(length) <= MSG_BUFFER
    ensures FeedAll(p, Header(seqNum, length) + body + [c]).state == Process <==>
      Balanced(Header(seqNum, length) + body + [c])
  {
    hide Mix, Xor, Header, FeedAll, Len, Balanced;
    var h := Header(seqNum, length);
    HeaderAccepted(p, seqNum, length);
    BodyAccepted(FeedAll(p, h), h, body);
    FeedAllAppend(p, h, body);
    FeedMore(p, h + body, c);
    BalancedExact(h + body, c);
  }

  /** Completeness, and its limits: a message is accepted exactly if its body is not empty and
      fits the buffer, and the buffer is overrun exactly if it does not fit. */
  lemma FrameAccepted(p: Parser, seqNum: bv8, length: bv16, body: seq<bv8>)
    requires Shape(p) && p.state == Start && !p.overrun && (seqNum == 1 || seqNum == p.seqNum)
    requires |body| == Len(length)
    ensures var f := Frame(seqNum, length, body); var q := FeedAll(p, f);
            && Balanced(f)
            && (q.state == Process <==> 1 <= |body| <= 285)
            && (q.overrun <==> |body| > 285)
            && (q.state == Process ==>
                  && Fresh(p, f) && q.seqNum == seqNum && q.msgLength == length && q.msgBuffer[..|body|] == body)
  {
    hide Mix, Xor, Header, FeedAll, Len, Balanced;
    FrameBalanced(seqNum, length, body);
    var h := Header(seqNum, length);
    var sum := Xor(h + body);
    if |body| > MSG_BUFFER {
      LongBodyOverruns(p, seqNum, length, body + [sum]);
      assert h + body + [sum] == h + (body + [sum]);
      ProcessIntact(p, h + body + [sum]);
    } else {
      HeaderAccepted(p, seqNum, length);
      BodyAccepted(FeedAll(p, h), h, body);
      FeedAllAppend(p, h, body);
      FeedMore(p, h + body, sum);
      assert (h + body + [sum])[..|h + body + [sum]| - 1] == h + body;
    }
  }

  /** Bytes between messages are skipped. */
  lemma {:induction false} JunkSkipped(p: Parser, junk: seq<bv8>)
    requires Shape(p) && p.state == Start && MESSAGE_START !in junk
    ensures FeedAll(p, junk) == p
    decreases |junk|
  {
    if junk != [] {
      JunkSkipped(p, junk[..|junk| - 1]);
      assert junk[|junk| - 1] in junk;
    }
  }

  // ---------------------------------------------------------------- which streams overrun

  /** The sequence number against the one expected when the message began. */
  ghost predicate Follows(q: Parser, expected: bv8) {
    if q.state == Start || q.state == GetSeqNum then q.seqNum == expected else q.seqNum == 1 || q.seqNum == expected
  }

  /** The parser began what it has taken at a start byte, with an acceptable sequence number. */
  ghost predicate Since(p: Parser, bs: seq<bv8>)
    requires Shape(p)
  {
    var q := FeedAll(p, bs);
    var n := |Taken(q)|;
    n <= |bs| && var r := FeedAll(p, bs[..|bs| - n]); r.state == Start && !r.overrun && Follows(q, r.seqNum)
  }

  lemma {:induction false} SinceStart(p: Parser, bs: seq<bv8>)
    requires Shape(p) && p.state == Start && !p.overrun
    requires !FeedAll(p, bs).overrun && FeedAll(p, bs).state != Process
    ensures Since(p, bs)
    decreases |bs|
  {
    hide Since, Feed, FeedAll;
    if bs == [] {
      SinceNothing(p);
    } else {
      var front, c := bs[..|bs| - 1], bs[|bs| - 1];
      assert front + [c] == bs;
      FeedMore(p, front, c);
      StepBack(FeedAll(p, front), c);
      SinceStart(p, front);
      SinceStep(p, front, c);
    }
  }

  lemma SinceNothing(p: Parser)
    requires Shape(p) && p.state == Start && !p.overrun
    ensures Since(p, [])
  {
    var none: seq<bv8> := [];
    assert none[..0] == none;
  }

  lemma StepBack(m: Parser, c: bv8)
    requires Shape(m) && !Feed(m, c).overrun && Feed(m, c).state != Process
    ensures !m.overrun && m.state != Process
  {
  }

  lemma SinceStep(p: Parser, front: seq<bv8>, c: bv8)
    requires Shape(p) && Since(p, front)
    requires var m := FeedAll(p, front); !m.overrun && m.state != Process
    requires var q := FeedAll(p, front + [c]); !q.overrun && q.state != Process
    ensures Since(p, front + [c])
  {
    hide FeedAll, Feed, Follows, Taken;
    FeedMore(p, front, c);
    TakenGrows(FeedAll(p, front), c);
    if FeedAll(p, front + [c]).state == Start {
      SinceRestart(p, front + [c]);
    } else {
      var m := FeedAll(p, front);
      var r := FeedAll(p, front[..|front| - |Taken(m)|]);
      FollowsOn(m, c, r.seqNum);
      assert (front + [c])[..|front| - |Taken(m)|] == front[..|front| - |Taken(m)|];
    }
  }

  lemma SinceRestart(p: Parser, bs: seq<bv8>)
    requires Shape(p) && FeedAll(p, bs).state == Start && !FeedAll(p, bs).overrun
    ensures Since(p, bs)
  {
    hide FeedAll, Follows;
    assert bs[..|bs|] == bs;
    FollowsItself(FeedAll(p, bs));
  }

  lemma FollowsItself(q: Parser)
    ensures Follows(q, q.seqNum)
  {
  }

  lemma FollowsOn(m: Parser, c: bv8, expected: bv8)
    requires Shape(m) && Follows(m, expected) && Feed(m, c).state != Start
    ensures Follows(Feed(m, c), expected)
  {
    hide Mix, WithLow, Word, Low, High, Store;
    if m.state == GetData { StoreGoesOn(m, c); }
  }

  lemma StoreGoesOn(m: Parser, c: bv8)
    requires Shape(m) && m.state == GetData
    ensures Store(m, c).seqNum == m.seqNum && (Store(m, c).state == GetData || Store(m, c).state == GetCheck)
  {
    hide Mix, Len;
  }

  lemma TakenGrows(m: Parser, c: bv8)
    requires Shape(m) && !m.overrun && m.state != Process
    requires !Feed(m, c).overrun && Feed(m, c).state != Process
    ensures var q := Feed(m, c);
      if q.state == Start then Taken(q) == [] else |Taken(q)| == |Taken(m)| + 1
  {
    hide Mix, WithLow, Word, Taken;
    TakenLength(m);
    TakenLength(Feed(m, c));
  }

  /** How many bytes there are in every state of a message that is not complete. */
  lemma TakenLength(m: Parser)
    requires Shape(m)
    ensures m.state == Start ==> |Taken(m)| == 0
    ensures m.state == GetSeqNum ==> |Taken(m)| == 1
    ensures m.state == MsgSize1 ==> |Taken(m)| == 2
    ensures m.state == MsgSize2 ==> |Taken(m)| == 3
    ensures m.state == GetToken ==> |Taken(m)| == 4
    ensures m.state == GetData || m.state == GetCheck ==> |Taken(m)| == 5 + m.ii
  {
    hide Low, High;
  }

  /** At byte `k` the parser is between messages and reads a header with a length that the
      buffer cannot hold, and 286 more bytes follow. */
  ghost predicate LongAt(p: Parser, bs: seq<bv8>, k: nat)
    requires Shape(p)
  {
    && k + 5 + MSG_BUFFER < |bs|
    && var q := FeedAll(p, bs[..k]); var length := Word(bs[k + 3], bs[k + 2]);
    && q.state == Start && !q.overrun && bs[k..k + 5] == Header(bs[k + 1], length)
    && (bs[k + 1] == 1 || bs[k + 1] == q.seqNum) && (Len(length) == 0 || Len(length) > MSG_BUFFER)
  }

  /** The streams that overrun the buffer are exactly those with such a header. */
  lemma OverrunExact(p: Parser, bs: seq<bv8>)
    requires Shape(p) && p.state == Start && !p.overrun
    ensures FeedAll(p, bs).overrun <==> exists k :: LongAt(p, bs, k)
  {
    hide LongAt, FeedAll;
    if FeedAll(p, bs).overrun {
      var k := OverrunBegins(p, bs);
    } else if k :| LongAt(p, bs, k) {
      LongOverruns(p, bs, k);
    }
  }

  lemma LongOverruns(p: Parser, bs: seq<bv8>, k: nat)
    requires Shape(p) && LongAt(p, bs, k)
    ensures FeedAll(p, bs).overrun
  {
    hide FeedAll, Header;
    assert bs == bs[..k] + (bs[k..k + 5] + bs[k + 5..]);
    FeedAllAppend(p, bs[..k], bs[k..k + 5] + bs[k + 5..]);
    LongBodyOverruns(FeedAll(p, bs[..k]), bs[k + 1], Word(bs[k + 3], bs[k + 2]), bs[k + 5..]);
  }

  lemma {:induction false} OverrunBegins(p: Parser, bs: seq<bv8>) returns (k: nat)
    requires Shape(p) && p.state == Start && !p.overrun && FeedAll(p, bs).overrun
    ensures LongAt(p, bs, k)
    decreases |bs|
  {
    var front, c := bs[..|bs| - 1], bs[|bs| - 1];
    if FeedAll(p, front).overrun {
      k := OverrunBegins(p, front);
      LongEarlier(p, bs, k);
    } else {
      var m := FeedAll(p, front);
      ProcessIntact(p, front);
      OverrunState(m, c);
      SinceStart(p, front);
      FreshRun(p, front);
      FeedAllTracks(p, front);
      k := |front| - |Taken(m)|;
      BeginsHere(p, bs, k);
    }
  }

  lemma LongEarlier(p: Parser, bs: seq<bv8>, k: nat)
    requires Shape(p) && bs != [] && LongAt(p, bs[..|bs| - 1], k)
    ensures LongAt(p, bs, k)
  {
    var front := bs[..|bs| - 1];
    assert front[..k] == bs[..k] && front[k..k + 5] == bs[k..k + 5];
  }

  lemma FreshRun(p: Parser, bs: seq<bv8>)
    requires Shape(p) && FeedAll(p, bs).state != Process
    ensures Fresh(p, bs)
  {
    if bs != [] { ProcessStays(FeedAll(p, bs[..|bs| - 1]), bs[|bs| - 1]); }
  }

  lemma BeginsHere(p: Parser, bs: seq<bv8>, k: nat)
    requires Shape(p) && bs != []
    requires var front := bs[..|bs| - 1]; var m := FeedAll(p, front);
      Since(p, front) && Tracks(m, front) && m.state == GetData && m.ii == MSG_BUFFER && k == |front| - |Taken(m)|
    ensures LongAt(p, bs, k)
  {
    hide FeedAll, Xor, Mix;
    var front := bs[..|bs| - 1];
    var m := FeedAll(p, front);
    assert front[k..] == Header(m.seqNum, m.msgLength) + m.msgBuffer[..m.ii];
    assert bs[k..k + 5] == front[k..][..5] == Header(m.seqNum, m.msgLength);
    assert bs[k + 1] == bs[k..k + 5][1] && bs[k + 2] == bs[k..k + 5][2] && bs[k + 3] == bs[k..k + 5][3];
    BytesWord(m.msgLength);
    assert front[..k] == bs[..k];
  }
}

/** Erase, program and read commands of the same bootloader, after a message was taken. */
module Stk500Session {
  import opened Arithmetic
  import opened AvrFlash

  const CMD_LOAD_ADDRESS: bv8 := 0x06
  const CMD_CHIP_ERASE_ISP: bv8 := 0x12
  const CMD_PROGRAM_FLASH_ISP: bv8 := 0x13
  const CMD_READ_FLASH_ISP: bv8 := 0x14

  /** `wrap` is the range of address_t: 2^16, or 2^32 on parts with RAMPZ. */
  datatype Session = Session(device: Device, address: nat, eraseAddress: nat, appEnd: nat, wrap: nat)

  datatype Cmd =
    | ChipErase
    | LoadAddress(byteAddress: nat)
    | Program(data: seq<bv8>)
    | ReadFlash(size: nat)
    | Other

  ghost predicate Valid(s: Session) {
    && s.wrap > 0 && s.device.Valid() && s.device.temp == Blank(s.device.page)
    && s.appEnd % s.device.page == 0 && s.appEnd < |s.device.cells| <= s.wrap
    && s.eraseAddress % s.device.page == 0 && s.eraseAddress <= s.appEnd
  }

  /** What the message format and the size of the flash leave possible. */
  ghost predicate Fits(s: Session, c: Cmd) {
    match c
    case Program(data) => |data| > 0 && |data| % 2 == 0 && s.address + |data| <= |s.device.cells|
    case ReadFlash(n) => n > 0 && n % 2 == 0 && s.address + n <= |s.device.cells|
    case _ => true
  }

  /** The page under the erase cursor goes, not the page that is about to be written. */
  function EraseNext(s: Session): (t: Session)
    requires s.device.Valid() && s.appEnd <= |s.device.cells|
    ensures t.device.Valid() && t.device.page == s.device.page && |t.device.cells| == |s.device.cells|
    ensures t == s.(device := t.device, eraseAddress := t.eraseAddress) && t.device.temp == s.device.temp
  {
    if s.eraseAddress < s.appEnd then
      s.(device := s.device.Erase(s.eraseAddress), eraseAddress := s.eraseAddress + s.device.page)
    else s
  }

  function Step(s: Session, c: Cmd): (t: Session)
    requires Valid(s) && Fits(s, c)
    ensures t.device.Valid() && |t.device.cells| == |s.device.cells|
  {
    match c
    case ChipErase => s.(eraseAddress := 0)
    case LoadAddress(a) => s.(address := a)
    case Program(data) =>
      var t := EraseNext(s);
      t.(device := FillAll(t.device, t.address, data, |data|, t.wrap).Write(t.address),
         address := (t.address + |data|) % t.wrap)
    case ReadFlash(n) => s.(address := (s.address + n) % s.wrap)
    case Other => s
  }

  // ---------------------------------------------------------------- every run

  lemma EraseNextValid(s: Session)
    requires Valid(s)
    ensures Valid(EraseNext(s))
  {
    if s.eraseAddress < s.appEnd {
      NextPage(s.eraseAddress, s.device.page);
      PageFits(s.eraseAddress, s.appEnd, s.device.page);
    }
  }

  lemma StepValid(s: Session, c: Cmd)
    requires Valid(s) && Fits(s, c)
    ensures Valid(Step(s, c))
  {
    if c.Program? {
      EraseNextValid(s);
      ProgramValid(EraseNext(s), c.data);
    }
  }

  lemma ProgramValid(t: Session, data: seq<bv8>)
    requires Valid(t) && t.address < |t.device.cells|
    ensures Valid(t.(device := FillAll(t.device, t.address, data, |data|, t.wrap).Write(t.address),
                     address := (t.address + |data|) % t.wrap))
  {
    hide FillAll, Device.Write;
  }

  /** No bit of `y` is set that was not set in `x`. */
  predicate Below(y: bv8, x: bv8) {
    y & x == y
  }

  /** No bit at or above `from` went from 0 to 1, as only an erase could make it. */
  ghost predicate OnlyCleared(x: seq<bv8>, y: seq<bv8>, from: nat) {
    |x| == |y| && forall i | from <= i < |x| :: Below(y[i], x[i])
  }

  lemma EraseBelow(s: Session)
    requires Valid(s)
    ensures forall i | s.appEnd <= i < |s.device.cells| :: EraseNext(s).device.cells[i] == s.device.cells[i]
  {
    if s.eraseAddress < s.appEnd {
      PageFits(s.eraseAddress, s.appEnd, s.device.page);
      EraseAligned(s.device, s.eraseAddress, s.eraseAddress);
    }
  }

  lemma AndBelow(a: bv8, t: bv8)
    ensures Below(a, a) && Below(a & t, a)
  {
  }

  lemma BelowTransitive(a: bv8, b: bv8, c: bv8)
    requires Below(b, a) && Below(c, b)
    ensures Below(c, a)
  {
  }

  lemma AndCellsBelow(x: seq<bv8>, t: seq<bv8>)
    requires |x| == |t|
    ensures OnlyCleared(x, And(x, t), 0)
  {
    forall i | 0 <= i < |x| ensures Below(And(x, t)[i], x[i]) {
      AndBelow(x[i], t[i]);
    }
  }

  lemma SameBelow(x: seq<bv8>, from: nat)
    ensures OnlyCleared(x, x, from)
  {
    forall i | from <= i < |x| ensures Below(x[i], x[i]) {
      AndBelow(x[i], 0);
    }
  }

  lemma PlaceBelow(x: seq<bv8>, b: nat, y: seq<bv8>)
    requires b + |y| <= |x| && OnlyCleared(x[b..b + |y|], y, 0)
    ensures OnlyCleared(x, Place(x, b, y), 0)
  {
    hide Below;
    SameBelow(x, 0);
    forall i | 0 <= i < |x| ensures Below(Place(x, b, y)[i], x[i]) {
      if b <= i < b + |y| {
        assert Below(y[i - b], x[b..b + |y|][i - b]);
      }
    }
  }

  lemma WriteClears(d: Device, a: nat)
    requires d.Valid() && a < |d.cells|
    ensures OnlyCleared(d.cells, d.Write(a).cells, 0)
  {
    hide And, OnlyCleared, Place;
    PageFits(a, |d.cells|, d.page);
    var b := a - a % d.page;
    AndCellsBelow(d.cells[b..b + d.page], d.temp);
    PlaceBelow(d.cells, b, And(d.cells[b..b + d.page], d.temp));
  }

  lemma StepSparesBoot(s: Session, c: Cmd)
    requires Valid(s) && Fits(s, c)
    ensures OnlyCleared(s.device.cells, Step(s, c).device.cells, s.appEnd)
    ensures Step(s, c).appEnd == s.appEnd
  {
    hide Below, FillAll, EraseNext, Device.Write;
    if c.Program? {
      var t := EraseNext(s);
      EraseNextValid(s);
      EraseBelow(s);
      WriteClears(FillAll(t.device, t.address, c.data, |c.data|, t.wrap), t.address);
    } else {
      SameBelow(s.device.cells, s.appEnd);
    }
  }

  ghost predicate FitsAll(s: Session, cs: seq<Cmd>)
    requires Valid(s)
    decreases |cs|
  {
    cs == [] || (Fits(s, cs[0]) && Valid(Step(s, cs[0])) && FitsAll(Step(s, cs[0]), cs[1..]))
  }

  ghost function Run(s: Session, cs: seq<Cmd>): (t: Session)
    requires Valid(s) && FitsAll(s, cs)
    ensures Valid(t)
    decreases |cs|
  {
    if cs == [] then s else Run(Step(s, cs[0]), cs[1..])
  }

  /** In every run no page at or above APP_END is erased: no bit there ever goes up. */
  lemma {:induction false} RunSparesBoot(s: Session, cs: seq<Cmd>)
    requires Valid(s) && FitsAll(s, cs)
    ensures OnlyCleared(s.device.cells, Run(s, cs).device.cells, s.appEnd)
    ensures Run(s, cs).appEnd == s.appEnd && Run(s, cs).eraseAddress <= s.appEnd
    decreases |cs|
  {
    if cs == [] {
      SameBelow(s.device.cells, s.appEnd);
    } else {
      var t := Step(s, cs[0]);
      StepSparesBoot(s, cs[0]);
      RunSparesBoot(t, cs[1..]);
      ClearedJoin(s.device.cells, t.device.cells, Run(s, cs).device.cells, s.appEnd);
    }
  }

  lemma ClearedJoin(x: seq<bv8>, y: seq<bv8>, z: seq<bv8>, from: nat)
    requires OnlyCleared(x, y, from) && OnlyCleared(y, z, from)
    ensures OnlyCleared(x, z, from)
  {
    forall i | from <= i < |x| ensures Below(z[i], x[i]) {
      BelowTransitive(x[i], y[i], z[i]);
    }
  }

  // ---------------------------------------------------------------- a programming session

  lemma BurnInStep(d: Device, a: nat, data: seq<bv8>, wrap: nat)
    requires d.Valid() && d.temp == Blank(d.page) && a % d.page == 0 && a + d.page <= |d.cells| <= wrap
    requires |data| == d.page
    ensures FillAll(d.Erase(a), a, data, |data|, wrap).Write(a) == d.(cells := Place(d.cells, a, data))
  {
    hide FillAll, Place, Device.Erase, Device.Write;
    assert |data| / 2 * 2 == |data|;
    BurnAligned(d, a, data, wrap);
    assert data[..|data|] == data;
  }

  /** A full page, programmed where the erase cursor stands. */
  lemma ProgramInStep(s: Session, data: seq<bv8>)
    requires Valid(s) && s.address == s.eraseAddress < s.appEnd && |data| == s.device.page
    ensures Fits(s, Program(data))
    ensures Step(s, Program(data)) ==
            s.(device := s.device.(cells := Place(s.device.cells, s.address, data)),
               address := (s.address + s.device.page) % s.wrap, eraseAddress := s.eraseAddress + s.device.page)
  {
    PageFits(s.eraseAddress, s.appEnd, s.device.page);
    BurnInStep(s.device, s.address, data, s.wrap);
    hide FillAll, Place, Device.Erase, Device.Write;
    assert EraseNext(s) == s.(device := s.device.Erase(s.address), eraseAddress := s.eraseAddress + s.device.page);
  }

  function Concat(pages: seq<seq<bv8>>): seq<bv8> {
    if pages == [] then [] else pages[0] + Concat(pages[1..])
  }

  /** One program command for each page, in order. */
  function Programs(pages: seq<seq<bv8>>): seq<Cmd> {
    if pages == [] then [] else [Program(pages[0])] + Programs(pages[1..])
  }

  ghost predicate AllFull(pages: seq<seq<bv8>>, page: nat) {
    forall i | 0 <= i < |pages| :: |pages[i]| == page
  }

  lemma AllFullTail(pages: seq<seq<bv8>>, page: nat)
    requires AllFull(pages, page) && pages != []
    ensures |pages[0]| == page && AllFull(pages[1..], page)
  {
  }

  lemma PlaceBehind(cells: seq<bv8>, a: nat, x: seq<bv8>, y: seq<bv8>)
    requires a + |x| + |y| <= |cells|
    ensures Place(Place(cells, a, x), a + |x|, y) == Place(cells, a, x + y)
  {
  }

  /** The session with `data` stored at the cursors and both cursors behind it. */
  function Stored(s: Session, data: seq<bv8>): Session
    requires s.address + |data| <= |s.device.cells|
  {
    s.(device := s.device.(cells := Place(s.device.cells, s.address, data)),
       address := s.address + |data|, eraseAddress := s.address + |data|)
  }

  lemma StoredTwice(s: Session, x: seq<bv8>, y: seq<bv8>)
    requires s.address + |x| + |y| <= |s.device.cells|
    ensures Stored(Stored(s, x), y) == Stored(s, x + y)
  {
    hide Place;
    PlaceBehind(s.device.cells, s.address, x, y);
  }

  lemma StoredNothing(s: Session)
    requires s.address == s.eraseAddress <= |s.device.cells|
    ensures Stored(s, []) == s
  {
    assert Place(s.device.cells, s.address, []) == s.device.cells;
  }

  /** After any number of full pages both addresses stand behind them and the flash holds
      their concatenation; every other byte is as before. */
  lemma {:induction false} ProgramPages(s: Session, pages: seq<seq<bv8>>)
    requires Valid(s) && s.address == s.eraseAddress
    requires AllFull(pages, s.device.page)
    requires s.address + |Concat(pages)| <= s.appEnd
    ensures FitsAll(s, Programs(pages))
    ensures Run(s, Programs(pages)) == Stored(s, Concat(pages))
    decreases |pages|
  {
    if pages == [] {
      StoredNothing(s);
    } else {
      AllFullTail(pages, s.device.page);
      hide Step, Valid, Fits, Place, Run, FitsAll, AllFull, Stored;
      InSection(s, |Concat(pages)|);
      ProgramFirst(s, pages[0]);
      ProgramPages(Step(s, Program(pages[0])), pages[1..]);
      RunHead(s, Program(pages[0]), Programs(pages[1..]));
      StoredTwice(s, pages[0], Concat(pages[1..]));
    }
  }

  lemma InSection(s: Session, n: nat)
    requires Valid(s) && s.address + n <= s.appEnd
    ensures s.address + n <= |s.device.cells|
  {
  }

  lemma ProgramFirst(s: Session, data: seq<bv8>)
    requires Valid(s) && s.address == s.eraseAddress && |data| == s.device.page
    requires s.address + |data| <= s.appEnd
    ensures Fits(s, Program(data)) && Valid(Step(s, Program(data)))
    ensures s.address + |data| <= |s.device.cells| && Step(s, Program(data)) == Stored(s, data)
    ensures var t := Stored(s, data);
      && t.device.page == s.device.page && |t.device.cells| == |s.device.cells| && t.appEnd == s.appEnd
      && t.address == t.eraseAddress == s.address + |data|
  {
    hide Step, Place;
    SmallMod(s.address + |data|, s.wrap);
    ProgramInStep(s, data);
    StepValid(s, Program(data));
  }

  lemma RunHead(s: Session, c: Cmd, cs: seq<Cmd>)
    requires Valid(s) && Fits(s, c) && Valid(Step(s, c)) && FitsAll(Step(s, c), cs)
    ensures FitsAll(s, [c] + cs) && Run(s, [c] + cs) == Run(Step(s, c), cs)
  {
    assert ([c] + cs)[1..] == cs;
  }

  /** Chip erase, load address 0 and any number of full pages inside the application
      section: the flash starts with their concatenation, whatever went on before. */
  lemma SessionStoresPages(s: Session, pages: seq<seq<bv8>>)
    requires Valid(s)
    requires AllFull(pages, s.device.page)
    requires |Concat(pages)| <= s.appEnd
    ensures var cs := Upload(pages);
            && FitsAll(s, cs)
            && var t := Run(s, cs);
               && t.device.cells == Place(s.device.cells, 0, Concat(pages))
               && t.address == t.eraseAddress == |Concat(pages)| && t.wrap == s.wrap
  {
    hide Place, AllFull;
    var s1 := Step(s, ChipErase);
    var s2 := Step(s1, LoadAddress(0));
    StepValid(s, ChipErase);
    StepValid(s1, LoadAddress(0));
    ProgramPages(s2, pages);
    RunHead(s1, LoadAddress(0), Programs(pages));
    RunHead(s, ChipErase, [LoadAddress(0)] + Programs(pages));
  }

  function Upload(pages: seq<seq<bv8>>): seq<Cmd> {
    [ChipErase] + ([LoadAddress(0)] + Programs(pages))
  }

  // ---------------------------------------------------------------- reading back

  /** The bytes of a read-flash answer. */
  function ReadBytes(s: Session, n: nat): seq<bv8> {
    if s.address + n <= |s.device.cells| then s.device.cells[s.address..s.address + n] else []
  }

  function Output(s: Session, c: Cmd): seq<bv8> {
    if c.ReadFlash? then ReadBytes(s, c.size) else []
  }

  /** All flash bytes that a run of commands answers with. */
  ghost function Outputs(s: Session, cs: seq<Cmd>): seq<bv8>
    requires Valid(s) && FitsAll(s, cs)
    decreases |cs|
  {
    if cs == [] then [] else Output(s, cs[0]) + Outputs(Step(s, cs[0]), cs[1..])
  }

  function Reads(sizes: seq<nat>): seq<Cmd> {
    if sizes == [] then [] else [ReadFlash(sizes[0])] + Reads(sizes[1..])
  }

  function Total(sizes: seq<nat>): nat {
    if sizes == [] then 0 else sizes[0] + Total(sizes[1..])
  }

  ghost predicate ReadSizes(sizes: seq<nat>) {
    forall i | 0 <= i < |sizes| :: sizes[i] > 0 && sizes[i] % 2 == 0
  }

  lemma OutputsHead(s: Session, c: Cmd, cs: seq<Cmd>)
    requires Valid(s) && Fits(s, c) && Valid(Step(s, c)) && FitsAll(Step(s, c), cs)
    ensures FitsAll(s, [c] + cs) && Outputs(s, [c] + cs) == Output(s, c) + Outputs(Step(s, c), cs)
    ensures Run(s, [c] + cs) == Run(Step(s, c), cs)
  {
    assert ([c] + cs)[1..] == cs;
  }

  lemma ReadStep(s: Session, n: nat)
    requires Valid(s) && n > 0 && n % 2 == 0 && s.address + n <= |s.device.cells| && s.address + n < s.wrap
    ensures Fits(s, ReadFlash(n)) && Valid(Step(s, ReadFlash(n)))
    ensures Step(s, ReadFlash(n)) == s.(address := s.address + n)
    ensures Output(s, ReadFlash(n)) == s.device.cells[s.address..s.address + n]
  {
    SmallMod(s.address + n, s.wrap);
  }

  /** Reads of any sizes give the stretch of flash they cover, in order. */
  lemma {:induction false} ReadsReturn(s: Session, sizes: seq<nat>)
    requires Valid(s) && ReadSizes(sizes)
    requires s.address + Total(sizes) <= |s.device.cells| && s.address + Total(sizes) < s.wrap
    ensures FitsAll(s, Reads(sizes))
    ensures Outputs(s, Reads(sizes)) == s.device.cells[s.address..s.address + Total(sizes)]
    ensures Run(s, Reads(sizes)).device == s.device
    decreases |sizes|
  {
    hide Step, Valid, Fits, Output, FitsAll, Outputs, Run, ReadSizes, Total, Reads;
    if sizes == [] {
      ReadNothing(s);
    } else {
      var n, rest := sizes[0], sizes[1..];
      FirstSize(sizes);
      ReadStep(s, n);
      var t := Step(s, ReadFlash(n));
      ReadsReturn(t, rest);
      OutputsHead(s, ReadFlash(n), Reads(rest));
      SlicesJoin(s.device.cells, s.address, n, Total(rest));
    }
  }

  lemma FirstSize(sizes: seq<nat>)
    requires ReadSizes(sizes) && sizes != []
    ensures sizes[0] > 0 && sizes[0] % 2 == 0 && ReadSizes(sizes[1..])
    ensures Total(sizes) == sizes[0] + Total(sizes[1..])
    ensures Reads(sizes) == [ReadFlash(sizes[0])] + Reads(sizes[1..])
  {
  }

  lemma ReadNothing(s: Session)
    requires Valid(s)
    ensures FitsAll(s, []) && Outputs(s, []) == [] && Run(s, []) == s && Total([]) == 0 && Reads([]) == []
  {
  }

  /** A read behind load-address `a` gives the flash from byte `a` on. */
  lemma ReadFromAddress(s: Session, a: nat, n: nat)
    requires Valid(s) && n > 0 && n % 2 == 0 && a + n <= |s.device.cells| && a + n < s.wrap
    ensures FitsAll(s, [LoadAddress(a), ReadFlash(n)])
    ensures Outputs(s, [LoadAddress(a), ReadFlash(n)]) == s.device.cells[a..a + n]
  {
    hide Outputs, FitsAll, Run;
    var t := s.(address := a);
    ReadStep(t, n);
    ReadNothing(Step(t, ReadFlash(n)));
    OutputsHead(t, ReadFlash(n), []);
    OutputsHead(s, LoadAddress(a), [ReadFlash(n)] + []);
    assert [LoadAddress(a)] + ([ReadFlash(n)] + []) == [LoadAddress(a), ReadFlash(n)];
  }

  lemma SlicesJoin(cells: seq<bv8>, a: nat, n: nat, m: nat)
    requires a + n + m <= |cells|
    ensures cells[a..a + n] + cells[a + n..a + n + m] == cells[a..a + (n + m)]
  {
  }

  lemma {:induction false} RunJoin(s: Session, a: seq<Cmd>, b: seq<Cmd>)
    requires Valid(s) && FitsAll(s, a) && FitsAll(Run(s, a), b)
    ensures FitsAll(s, a + b) && Run(s, a + b) == Run(Run(s, a), b)
    ensures Outputs(s, a + b) == Outputs(s, a) + Outputs(Run(s, a), b)
    decreases |a|
  {
    hide Step, Valid, Fits, Output;
    if a == [] {
      assert a + b == b;
    } else {
      RunJoin(Step(s, a[0]), a[1..], b);
      assert a + b == [a[0]] + (a[1..] + b);
      OutputsHead(s, a[0], a[1..] + b);
    }
  }

  /** Commands that read nothing answer with no flash bytes. */
  lemma {:induction false} NoOutputs(s: Session, cs: seq<Cmd>)
    requires Valid(s) && FitsAll(s, cs) && forall i | 0 <= i < |cs| :: !cs[i].ReadFlash?
    ensures Outputs(s, cs) == []
    decreases |cs|
  {
    if cs != [] { NoOutputs(Step(s, cs[0]), cs[1..]); }
  }

  lemma {:induction false} ProgramsReadNothing(pages: seq<seq<bv8>>)
    ensures forall i | 0 <= i < |Programs(pages)| :: Programs(pages)[i].Program?
    decreases |pages|
  {
    if pages != [] { ProgramsReadNothing(pages[1..]); }
  }

  /** After an upload, load address 0 and read commands of any sizes that add up to the length
      of the data give the data back, whatever the flash held before. */
  lemma SessionReadsBack(s: Session, pages: seq<seq<bv8>>, sizes: seq<nat>)
    requires Valid(s) && AllFull(pages, s.device.page) && |Concat(pages)| <= s.appEnd
    requires ReadSizes(sizes) && Total(sizes) == |Concat(pages)|
    ensures var cs := Upload(pages) + ([LoadAddress(0)] + Reads(sizes));
      FitsAll(s, cs) && Outputs(s, cs) == Concat(pages)
  {
    hide Step, AllFull, Place, Fits, Run, Outputs, FitsAll, Valid;
    var data := Concat(pages);
    SessionStoresPages(s, pages);
    var t := Run(s, Upload(pages));
    LoadStep(t);
    var u := Step(t, LoadAddress(0));
    StoredFront(s.device.cells, data);
    InApplication(s, |data|);
    ReadsReturn(u, sizes);
    OutputsHead(t, LoadAddress(0), Reads(sizes));
    ProgramsReadNothing(pages);
    NoOutputs(s, Upload(pages));
    RunJoin(s, Upload(pages), [LoadAddress(0)] + Reads(sizes));
  }

  lemma LoadStep(t: Session)
    requires Valid(t)
    ensures Fits(t, LoadAddress(0)) && Valid(Step(t, LoadAddress(0)))
    ensures Step(t, LoadAddress(0)) == t.(address := 0) && Output(t, LoadAddress(0)) == []
  {
  }

  lemma StoredFront(cells: seq<bv8>, data: seq<bv8>)
    requires |data| <= |cells|
    ensures Place(cells, 0, data)[..|data|] == data
  {
  }

  lemma InApplication(s: Session, n: nat)
    requires Valid(s) && n <= s.appEnd
    ensures n < |s.device.cells| <= s.wrap
  {
  }

  // ---------------------------------------------------------------- out of step

  lemma AlignedApart(a: nat, b: nat, p: nat)
    requires p > 0 && a % p == 0 && b % p == 0 && a < b
    ensures a + p <= b
  {
    PageFits(a, b, p);
  }

  /** The flash after a full page was programmed at an aligned address. */
  lemma ProgramAnds(s: Session, data: seq<bv8>)
    requires Valid(s) && |data| == s.device.page && s.address % s.device.page == 0
    requires s.address + s.device.page <= |s.device.cells|
    ensures Fits(s, Program(data))
    ensures var e := EraseNext(s).device.cells;
            Step(s, Program(data)).device.cells
            == Place(e, s.address, And(e[s.address..s.address + s.device.page], data))
  {
    hide Place, And, Device.Erase;
    var t := EraseNext(s);
    FillAligned(t.device, s.address, data, |data|, s.wrap);
    assert FillAll(t.device, s.address, data, |data|, s.wrap).temp == data;
  }

  /** The page at the address lets `data` through without an erase. */
  ghost predicate Clears(s: Session, data: seq<bv8>)
    requires s.address + |data| <= |s.device.cells|
  {
    OnlyCleared(s.device.cells[s.address..s.address + |data|], data, 0)
  }

  ghost predicate BlankAt(cells: seq<bv8>, a: nat, n: nat)
    requires a + n <= |cells|
  {
    forall i | a <= i < a + n :: cells[i] == 0xFF
  }

  lemma AndIsData(x: seq<bv8>, y: seq<bv8>)
    requires |x| == |y|
    ensures And(x, y) == y <==> OnlyCleared(x, y, 0)
  {
    forall i | 0 <= i < |x| ensures And(x, y)[i] == y[i] <==> Below(y[i], x[i]) {
      AndCommutes(x[i], y[i]);
    }
  }

  lemma AndCommutes(x: bv8, y: bv8)
    ensures x & y == y & x
  {
  }

  ghost predicate PageAt(s: Session, data: seq<bv8>) {
    && Valid(s) && |data| == s.device.page && s.address % s.device.page == 0
    && s.address + s.device.page <= |s.device.cells|
  }

  lemma ProgramBehindCursor(s: Session, data: seq<bv8>)
    requires PageAt(s, data) && s.eraseAddress == s.appEnd
    ensures Fits(s, Program(data))
    ensures Step(s, Program(data)).device.cells == Place(s.device.cells, s.address, data) <==> Clears(s, data)
  {
    hide Place, And, Device.Erase, OnlyCleared;
    ProgramAnds(s, data);
    AndIsData(s.device.cells[s.address..s.address + s.device.page], data);
    SamePage(s.device.cells, s.address, s.device.page, data);
  }

  lemma ProgramOtherPage(s: Session, data: seq<bv8>)
    requires PageAt(s, data) && s.eraseAddress < s.appEnd && s.eraseAddress != s.address
    ensures Fits(s, Program(data)) && s.eraseAddress + s.device.page <= |s.device.cells|
    ensures Step(s, Program(data)).device.cells == Place(s.device.cells, s.address, data) <==>
            Clears(s, data) && BlankAt(s.device.cells, s.eraseAddress, s.device.page)
  {
    hide Place, And, Device.Erase, OnlyCleared, BlankAt, Step;
    var a, e, p := s.address, s.eraseAddress, s.device.page;
    PageFits(e, s.appEnd, p);
    EraseAligned(s.device, e, e);
    ProgramAnds(s, data);
    AndIsData(s.device.cells[a..a + p], data);
    if a < e { AlignedApart(a, e, p); } else { AlignedApart(e, a, p); }
    OtherPage(s.device.cells, e, a, p, data);
  }

  /** A page is stored as sent, and nothing else changes, exactly if the erase cursor is on
      it, or if it needed no erase and the erase hits nothing but a blank page. */
  lemma ProgramExact(s: Session, data: seq<bv8>)
    requires PageAt(s, data)
    ensures Fits(s, Program(data))
    ensures Step(s, Program(data)).device.cells == Place(s.device.cells, s.address, data) <==>
            s.eraseAddress == s.address < s.appEnd
            || (Clears(s, data) && (s.eraseAddress < s.appEnd ==>
                  s.eraseAddress + s.device.page <= |s.device.cells|
                  && BlankAt(s.device.cells, s.eraseAddress, s.device.page)))
  {
    hide Place, Step, Clears, BlankAt;
    if s.eraseAddress == s.appEnd {
      ProgramBehindCursor(s, data);
    } else if s.eraseAddress == s.address {
      ProgramInStep(s, data);
    } else {
      ProgramOtherPage(s, data);
    }
  }

  lemma SamePage(c: seq<bv8>, a: nat, p: nat, data: seq<bv8>)
    requires a + p <= |c| && |data| == p
    ensures Place(c, a, And(c[a..a + p], data)) == Place(c, a, data) <==> And(c[a..a + p], data) == data
  {
    hide And;
    var x := And(c[a..a + p], data);
    assert Place(c, a, x)[a..a + p] == x && Place(c, a, data)[a..a + p] == data;
  }

  lemma OtherPage(c: seq<bv8>, e: nat, a: nat, p: nat, data: seq<bv8>)
    requires a + p <= |c| && e + p <= |c| && |data| == p && (a + p <= e || e + p <= a)
    ensures var x := Place(c, e, Blank(p));
            Place(x, a, And(x[a..a + p], data)) == Place(c, a, data) <==>
            And(c[a..a + p], data) == data && BlankAt(c, e, p)
  {
    hide And;
    var x := Place(c, e, Blank(p));
    assert x[a..a + p] == c[a..a + p];
    var y := And(c[a..a + p], data);
    assert Place(x, a, y)[a..a + p] == y && Place(c, a, data)[a..a + p] == data;
    assert Place(x, a, y)[e..e + p] == Blank(p) && Place(c, a, data)[e..e + p] == c[e..e + p];
    if Place(x, a, y) == Place(c, a, data) {
      assert c[e..e + p] == Blank(p);
      forall i | e <= i < e + p ensures c[i] == 0xFF { assert c[i] == c[e..e + p][i - e]; }
    }
  }
}
