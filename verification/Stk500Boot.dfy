/** hardware/arduino/bootloaders/stk500v2/stk500boot.c in the form of its source: the
    locals of main() as fields, its loops as methods. */
module Stk500Boot {
  import opened Arithmetic
  import opened AvrFlash
  import Frames = Stk500Frames
  import Session = Stk500Session

  const STATUS_CMD_OK: bv8 := 0x00
  const STATUS_CMD_FAILED: bv8 := 0xC0

  /** size = (b1 << 8) | b2 */
  function Size(b: seq<bv8>): nat
    requires |b| >= 3
  {
    Frames.Len(Word(b[2], b[1]))
  }

  /** The word address of a load-address message, doubled in address_t. */
  function ByteAddress(rampz: bool, b: seq<bv8>): nat
    requires |b| >= 5
  {
    var low := Frames.Len(Word(b[4], b[3]));
    if rampz then ((Frames.Len(Word(b[2], b[1])) * 0x1_0000 + low) * 2) % 0x1_0000_0000
    else (low * 2) % 0x1_0000
  }

  // Commands that answer from constants, fuses or EEPROM; they are not part of the model.
  const OTHER_COMMANDS: set<bv8> := {0x01, 0x02, 0x03, 0x10, 0x11, 0x15, 0x16, 0x18, 0x19, 0x1A, 0x1B, 0x1D}

  /** What a message body asks for. */
  function Decoded(rampz: bool, b: seq<bv8>): Session.Cmd
    requires |b| == Frames.MSG_BUFFER
  {
    if b[0] == Session.CMD_CHIP_ERASE_ISP then Session.ChipErase
    else if b[0] == Session.CMD_LOAD_ADDRESS then Session.LoadAddress(ByteAddress(rampz, b))
    else if b[0] == Session.CMD_PROGRAM_FLASH_ISP then
      Session.Program(b[10..if 10 + Size(b) <= |b| then 10 + Size(b) else 10])
    else if b[0] == Session.CMD_READ_FLASH_ISP then Session.ReadFlash(Size(b))
    else Session.Other
  }

  /** `hi` and `lo` are the 16-bit words that say the address or the size of the command. Doubling
      a word address drops its top bit, which hosts set for memories above 64 KB. */
  ghost predicate Words(rampz: bool, c: Session.Cmd, hi: bv16, lo: bv16) {
    match c
    case LoadAddress(a) =>
      if rampz then a == 2 * (Frames.Len(hi) * 0x1_0000 + Frames.Len(lo)) % 0x1_0000_0000
      else a == 2 * Frames.Len(lo) % 0x1_0000
    case Program(data) => Frames.Len(lo) == |data| && 10 + |data| <= Frames.MSG_BUFFER
    case ReadFlash(n) => Frames.Len(lo) == n
    case _ => true
  }

  /** On parts with RAMPZ the top bit of the word address makes no difference. */
  lemma TopBitDropped(a: nat, hi: bv16, lo: bv16)
    ensures Words(true, Session.LoadAddress(a), hi | 0x8000, lo) <==> Words(true, Session.LoadAddress(a), hi & 0x7FFF, lo)
  {
    hide Frames.Len;
    TopBitSplit(hi);
    TopBit(hi & 0x7FFF);
    Doubled32(Frames.Len(hi & 0x7FFF) * 0x1_0000 + Frames.Len(lo));
  }

  lemma TopBitSplit(hi: bv16)
    ensures hi | 0x8000 == (hi & 0x7FFF) + 0x8000 && hi & 0x7FFF <= 0x7FFF
  {
  }

  lemma TopBit(w: bv16)
    requires w <= 0x7FFF
    ensures Frames.Len(w + 0x8000) == Frames.Len(w) + 0x8000
  {
  }

  lemma Doubled32(n: nat)
    ensures 2 * (n + 0x8000_0000) % 0x1_0000_0000 == 2 * n % 0x1_0000_0000
  {
  }

  /** The body with which a host asks for a command. */
  function BodyOf(c: Session.Cmd, hi: bv16, lo: bv16): seq<bv8> {
    match c
    case ChipErase => [Session.CMD_CHIP_ERASE_ISP, 0, 0, 0, 0, 0, 0]
    case LoadAddress(_) => [Session.CMD_LOAD_ADDRESS, High(hi), Low(hi), High(lo), Low(lo)]
    case Program(data) => [Session.CMD_PROGRAM_FLASH_ISP, High(lo), Low(lo), 0, 0, 0, 0, 0, 0, 0] + data
    case ReadFlash(_) => [Session.CMD_READ_FLASH_ISP, High(lo), Low(lo), 0]
    case Other => [0xFF]
  }

  lemma AddressDecodes(rampz: bool, a: nat, hi: bv16, lo: bv16, b: seq<bv8>)
    requires Words(rampz, Session.LoadAddress(a), hi, lo) && |b| >= 5
    requires b[1] == High(hi) && b[2] == Low(hi) && b[3] == High(lo) && b[4] == Low(lo)
    ensures ByteAddress(rampz, b) == a
  {
    hide Word, Low, High, Frames.Len;
    BytesWord(hi);
    BytesWord(lo);
  }

  /** The bootloader reads a command out of its body, whatever follows in the buffer. */
  lemma BodyDecodes(rampz: bool, c: Session.Cmd, hi: bv16, lo: bv16, b: seq<bv8>)
    requires Words(rampz, c, hi, lo) && |b| == Frames.MSG_BUFFER && BodyOf(c, hi, lo) <= b
    ensures Decoded(rampz, b) == c
  {
    hide Word, Low, High, Frames.Len, ByteAddress;
    var body := BodyOf(c, hi, lo);
    assert b[..|body|] == body;
    BytesWord(lo);
    match c
    case LoadAddress(a) =>
      assert b[1] == body[1] && b[2] == body[2] && b[3] == body[3] && b[4] == body[4];
      AddressDecodes(rampz, a, hi, lo, b);
    case Program(data) =>
      assert b[1] == body[1] && b[2] == body[2];
      assert b[10..10 + |data|] == body[10..] == data;
    case ReadFlash(n) => assert b[1] == body[1] && b[2] == body[2];
    case _ =>
  }

  /** The length of an answer that carries `w` bytes. */
  function Longer(w: bv16): bv16 { w + 3 }

  // ---------------------------------------------------------------- what a host sends and gets

  /** A framed command, behind bytes that start no frame. `hi`, `lo` and `length` are the words
      in its bytes. */
  datatype Request = Request(junk: seq<bv8>, seqNum: bv8, length: bv16, cmd: Session.Cmd, hi: bv16, lo: bv16) {
    function Body(): seq<bv8> { BodyOf(cmd, hi, lo) }

    function Sent(): seq<bv8> { junk + Frames.Frame(seqNum, length, Body()) }

    /** The body of the answer: the command, a status and what was read. */
    function AnswerBody(s: Session.Session): seq<bv8> {
      match cmd
      case ReadFlash(n) => [Body()[0], STATUS_CMD_OK] + Session.ReadBytes(s, n) + [STATUS_CMD_OK]
      case Other => [Body()[0], STATUS_CMD_FAILED]
      case _ => [Body()[0], STATUS_CMD_OK]
    }

    function AnswerLength(): bv16 { if cmd.ReadFlash? then Longer(lo) else 2 }

    function Answer(s: Session.Session): seq<bv8> {
      Frames.Frame(seqNum, AnswerLength(), AnswerBody(s))
    }

    /** The frame is well formed and expected, and fits the buffer. */
    ghost predicate Framed(expected: bv8) {
      && Frames.MESSAGE_START !in junk && (seqNum == 1 || seqNum == expected)
      && Frames.Len(length) == |Body()| <= Frames.MSG_BUFFER
    }

    /** The body asks for a command that the memory allows and whose answer fits the buffer. */
    ghost predicate Asks(rampz: bool, s: Session.Session) {
      && Words(rampz, cmd, hi, lo) && Session.Fits(s, cmd)
      && (cmd.ReadFlash? ==> Frames.Len(lo) == cmd.size && cmd.size + 3 <= Frames.MSG_BUFFER)
    }

    ghost predicate Legal(rampz: bool, s: Session.Session, expected: bv8) {
      Framed(expected) && Asks(rampz, s)
    }
  }

  ghost predicate LegalRun(rampz: bool, s: Session.Session, expected: bv8, rs: seq<Request>)
    requires Session.Valid(s)
    decreases |rs|
  {
    rs == [] || (rs[0].Legal(rampz, s, expected) && Session.Valid(Session.Step(s, rs[0].cmd))
                 && LegalRun(rampz, Session.Step(s, rs[0].cmd), rs[0].seqNum + 1, rs[1..]))
  }

  function SentAll(rs: seq<Request>): seq<bv8> {
    if rs == [] then [] else rs[0].Sent() + SentAll(rs[1..])
  }

  /** The answers of the memory, each framed with the number of its request. */
  ghost function Answers(rampz: bool, s: Session.Session, expected: bv8, rs: seq<Request>): seq<bv8>
    requires Session.Valid(s) && LegalRun(rampz, s, expected, rs)
    decreases |rs|
  {
    if rs == [] then []
    else rs[0].Answer(s) + Answers(rampz, Session.Step(s, rs[0].cmd), rs[0].seqNum + 1, rs[1..])
  }

  ghost function After(rampz: bool, s: Session.Session, expected: bv8, rs: seq<Request>): Session.Session
    requires Session.Valid(s) && LegalRun(rampz, s, expected, rs)
    decreases |rs|
  {
    if rs == [] then s else After(rampz, Session.Step(s, rs[0].cmd), rs[0].seqNum + 1, rs[1..])
  }

  function Commands(rs: seq<Request>): (cs: seq<Session.Cmd>)
    ensures |cs| == |rs|
  {
    if rs == [] then [] else [rs[0].cmd] + Commands(rs[1..])
  }

  /** A legal run of requests is a run of its commands. */
  lemma {:induction false} AfterIsRun(rampz: bool, s: Session.Session, expected: bv8, rs: seq<Request>)
    requires Session.Valid(s) && LegalRun(rampz, s, expected, rs)
    ensures Session.FitsAll(s, Commands(rs)) && After(rampz, s, expected, rs) == Session.Run(s, Commands(rs))
    decreases |rs|
  {
    hide Session.Step, Session.Valid, Session.Fits;
    if rs != [] {
      AfterIsRun(rampz, Session.Step(s, rs[0].cmd), rs[0].seqNum + 1, rs[1..]);
      Session.RunHead(s, rs[0].cmd, Commands(rs[1..]));
    }
  }

  /** The flash bytes inside the answers. */
  ghost function Payloads(rampz: bool, s: Session.Session, expected: bv8, rs: seq<Request>): seq<bv8>
    requires Session.Valid(s) && LegalRun(rampz, s, expected, rs)
    decreases |rs|
  {
    if rs == [] then []
    else
      var body := rs[0].AnswerBody(s);
      (if rs[0].cmd.ReadFlash? then body[2..|body| - 1] else [])
        + Payloads(rampz, Session.Step(s, rs[0].cmd), rs[0].seqNum + 1, rs[1..])
  }

  lemma {:induction false} PayloadsAreOutputs(rampz: bool, s: Session.Session, expected: bv8, rs: seq<Request>)
    requires Session.Valid(s) && LegalRun(rampz, s, expected, rs)
    ensures Session.FitsAll(s, Commands(rs)) && Payloads(rampz, s, expected, rs) == Session.Outputs(s, Commands(rs))
    decreases |rs|
  {
    hide Session.Step, Session.Valid, Session.Fits, Session.ReadBytes, BodyOf;
    if rs != [] {
      PayloadsAreOutputs(rampz, Session.Step(s, rs[0].cmd), rs[0].seqNum + 1, rs[1..]);
      Session.OutputsHead(s, rs[0].cmd, Commands(rs[1..]));
      PayloadOfAnswer(rs[0], s);
    }
  }

  lemma PayloadOfAnswer(r: Request, s: Session.Session)
    ensures r.cmd.ReadFlash? ==>
      var body := r.AnswerBody(s); |body| >= 3 && body[2..|body| - 1] == Session.Output(s, r.cmd)
  {
    hide Session.ReadBytes, BodyOf;
  }

  /** Over the wire: after chip erase, full pages and reads that cover them, however they are
      framed and whatever lies between the frames, the answers carry the data of the pages. */
  lemma UploadComesBack(rampz: bool, s: Session.Session, expected: bv8, rs: seq<Request>,
                        pages: seq<seq<bv8>>, sizes: seq<nat>)
    requires Session.Valid(s) && LegalRun(rampz, s, expected, rs)
    requires Commands(rs) == Session.Upload(pages) + ([Session.LoadAddress(0)] + Session.Reads(sizes))
    requires Session.AllFull(pages, s.device.page) && |Session.Concat(pages)| <= s.appEnd
    requires Session.ReadSizes(sizes) && Session.Total(sizes) == |Session.Concat(pages)|
    ensures Payloads(rampz, s, expected, rs) == Session.Concat(pages)
  {
    hide *;
    PayloadsAreOutputs(rampz, s, expected, rs);
    Session.SessionReadsBack(s, pages, sizes);
  }

  /** The receiver takes exactly the junk and the frame of a request. */
  lemma RequestTaken(p: Frames.Parser, r: Request, rest: seq<bv8>, taken: seq<bv8>, left: seq<bv8>)
    requires Frames.Shape(p) && p.state == Frames.Start && !p.overrun && Frames.Fresh(p, taken)
    requires r.Framed(p.seqNum)
    requires r.Sent() + rest == taken + left && (Frames.FeedAll(p, taken).state == Frames.Process || left == [])
    ensures taken == r.Sent() && left == rest
    ensures var q := Frames.FeedAll(p, taken);
      && q.state == Frames.Process && !q.overrun && q.seqNum == r.seqNum && |r.Body()| <= Frames.MSG_BUFFER
      && q.msgBuffer[..|r.Body()|] == r.Body()
  {
    hide Frames.FeedAll, Frames.Feed, Frames.Xor, Frames.Header, BodyOf, Frames.Len, High, Low;
    BodyNotEmpty(r.cmd, r.hi, r.lo);
    var f := Frames.Frame(r.seqNum, r.length, r.Body());
    Frames.JunkSkipped(p, r.junk);
    Frames.FrameAccepted(p, r.seqNum, r.length, r.Body());
    Frames.FeedAllAppend(p, r.junk, f);
    JunkFresh(p, r.junk, f);
    FirstComplete(p, r.Sent(), rest, taken, left);
  }

  /** Requests and answers as bytes: load-address 0, and what the others begin with. */
  lemma OnWire(s: Session.Session, data: seq<bv8>)
    requires |data| == 2
    ensures Request([], 1, 5, Session.LoadAddress(0), 0, 0).Sent() ==
      [0x1B, 0x01, 0x00, 0x05, 0x0E, 0x06, 0x00, 0x00, 0x00, 0x00, 0x17]
    ensures Request([], 1, 5, Session.LoadAddress(0), 0, 0).Answer(s) == [0x1B, 0x01, 0x00, 0x02, 0x0E, 0x06, 0x00, 0x10]
    ensures BodyOf(Session.ChipErase, 0, 0)[0] == 0x12 && BodyOf(Session.ReadFlash(0x10), 0, 0x10)[..3] == [0x14, 0x00, 0x10]
    ensures BodyOf(Session.Program(data), 0, 2)[..3] == [0x13, 0x00, 0x02] && BodyOf(Session.Program(data), 0, 2)[10..] == data
    ensures Request([], 1, 5, Session.Other, 0, 0).AnswerBody(s)[1] == 0xC0
  {
    hide Frames.Frame;
    Frames.LoadAddressOnWire();
    var r := Request([], 1, 5, Session.LoadAddress(0), 0, 0);
    assert r.Body() == [0x06, 0, 0, 0, 0] && r.AnswerBody(s) == [0x06, 0];
  }

  lemma BodyNotEmpty(c: Session.Cmd, hi: bv16, lo: bv16)
    ensures BodyOf(c, hi, lo) != []
  {
  }

  lemma JunkFresh(p: Frames.Parser, junk: seq<bv8>, f: seq<bv8>)
    requires Frames.Shape(p) && Frames.FeedAll(p, junk) == p && f != [] && Frames.Fresh(p, f)
    ensures Frames.Fresh(p, junk + f)
  {
    hide Frames.FeedAll;
    Frames.FeedAllAppend(p, junk, f[..|f| - 1]);
    assert (junk + f)[..|junk + f| - 1] == junk + f[..|f| - 1];
  }

  /** Two beginnings of one stream that both end with its first complete message are the same. */
  lemma FirstComplete(p: Frames.Parser, a: seq<bv8>, x: seq<bv8>, b: seq<bv8>, y: seq<bv8>)
    requires Frames.Shape(p) && a + x == b + y && a != [] && Frames.Fresh(p, a) && Frames.Fresh(p, b)
    requires Frames.FeedAll(p, a).state == Frames.Process
    requires Frames.FeedAll(p, b).state == Frames.Process || y == []
    ensures a == b && x == y
  {
    hide Frames.FeedAll;
    var all := a + x;
    assert all[..|a|] == a && all[..|b|] == b;
    if |a| < |b| {
      CompleteBefore(p, a, b);
    } else if |b| < |a| {
      assert y != [];
      CompleteBefore(p, b, a);
    }
    assert all[|a|..] == x && all[|b|..] == y;
  }

  /** A message that is complete stays so, so nothing that goes on is fresh. */
  lemma CompleteBefore(p: Frames.Parser, a: seq<bv8>, b: seq<bv8>)
    requires Frames.Shape(p) && |a| < |b| && b[..|a|] == a
    ensures Frames.FeedAll(p, a).state == Frames.Process ==> !Frames.Fresh(p, b)
  {
    if Frames.FeedAll(p, a).state == Frames.Process {
      var front := b[..|b| - 1];
      assert front == a + front[|a|..];
      Frames.FeedAllAppend(p, a, front[|a|..]);
      Frames.Stuck(Frames.FeedAll(p, a), front[|a|..]);
    }
  }

  lemma PlusThree(w: bv16)
    requires Frames.Len(w) + 3 <= Frames.MSG_BUFFER
    ensures Frames.Len(Longer(w)) == Frames.Len(w) + 3
  {
    SmallWord(w);
    SmallSum(w);
  }

  lemma SmallWord(w: bv16)
    requires w as nat <= 0x200
    ensures w <= 0x200
  {
  }

  lemma SmallSum(w: bv16)
    requires w <= 0x200
    ensures (w + 3) as nat == w as nat + 3
  {
  }

  lemma Two()
    ensures Frames.Len(2) == 2
  {
  }

  class Bootloader {
    const msgBuffer: array<bv8>
    const rampz: bool
    const appEnd: nat
    var msgParseState: Frames.ParseState
    var seqNum: bv8
    var msgLength: bv16
    var ii: nat
    var checksum: bv8
    var overrun: bool
    var device: Device
    var address: nat
    var eraseAddress: nat
    var rx: seq<bv8>
    var tx: seq<bv8>

    /** A bootloader at start-up, with the input still to come. */
    constructor (device: Device, rampz: bool, appEnd: nat, input: seq<bv8>)
      requires device.Valid() && device.temp == Blank(device.page)
      requires appEnd % device.page == 0 && appEnd < |device.cells| <= (if rampz then 0x1_0000_0000 else 0x1_0000)
      ensures Frames.Shape(Parse()) && !overrun && Session.Valid(Memory()) && fresh(msgBuffer)
      ensures seqNum == 0 && rx == input && tx == [] && this.rampz == rampz
      ensures Memory() == Session.Session(device, 0, 0, appEnd, if rampz then 0x1_0000_0000 else 0x1_0000)
    {
      this.device, this.rampz, this.appEnd := device, rampz, appEnd;
      msgBuffer := new bv8[Frames.MSG_BUFFER](_ => 0);
      msgParseState, seqNum, msgLength, ii, checksum, overrun := Frames.Start, 0, 0, 0, 0, false;
      address, eraseAddress, rx, tx := 0, 0, input, [];
      new;
      hide Blank, Device.Valid;
      StartValid(Memory());
    }

    lemma StartValid(s: Session.Session)
      requires s.device.Valid() && s.device.temp == Blank(s.device.page) && s.wrap > 0
      requires s.appEnd % s.device.page == 0 && s.appEnd < |s.device.cells| <= s.wrap && s.eraseAddress == 0
      ensures Session.Valid(s)
    {
    }

    function Wrap(): nat { if rampz then 0x1_0000_0000 else 0x1_0000 }

    lemma WrapStep(x: nat)
      ensures Wrap() >= 0x1_0000 && (x % Wrap() + 2) % Wrap() == (x + 2) % Wrap()
    {
      AddMod(x, 2, Wrap());
    }

    ghost function Parse(): Frames.Parser
      reads this, msgBuffer
    {
      Frames.Parser(msgParseState, seqNum, msgLength, ii, checksum, msgBuffer[..], overrun)
    }

    ghost function Memory(): Session.Session
      reads this
    {
      Session.Session(device, address, eraseAddress, appEnd, Wrap())
    }

    /** The switch over the parse state. A write past the buffer is undefined behaviour; the
        model notes it and stops. */
    method FeedByte(c: bv8)
      requires Frames.Shape(Parse())
      modifies this`msgParseState, this`seqNum, this`msgLength, this`ii, this`checksum, this`overrun, msgBuffer
      ensures Parse() == Frames.Feed(old(Parse()), c)
    {
      hide Word, Frames.WithLow, Frames.Mix, Frames.Len;
      if overrun { return; }
      match msgParseState
      case Start =>
        if c == Frames.MESSAGE_START {
          msgParseState := Frames.GetSeqNum;
          checksum := Frames.Mix(Frames.MESSAGE_START, 0);
        }
      case GetSeqNum =>
        if c == 1 || c == seqNum {
          seqNum := c;
          msgParseState := Frames.MsgSize1;
          checksum := Frames.Mix(checksum, c);
        } else {
          msgParseState := Frames.Start;
        }
      case MsgSize1 =>
        msgLength := Word(0, c);
        msgParseState := Frames.MsgSize2;
        checksum := Frames.Mix(checksum, c);
      case MsgSize2 =>
        msgLength := Frames.WithLow(msgLength, c);
        msgParseState := Frames.GetToken;
        checksum := Frames.Mix(checksum, c);
      case GetToken =>
        if c == Frames.TOKEN {
          msgParseState := Frames.GetData;
          checksum := Frames.Mix(checksum, c);
          ii := 0;
        } else {
          msgParseState := Frames.Start;
        }
      case GetData => StoreByte(c);
      case GetCheck =>
        msgParseState := if c == checksum then Frames.Process else Frames.Start;
      case Process =>
    }

    method StoreByte(c: bv8)
      requires Frames.Shape(Parse()) && !overrun && msgParseState == Frames.GetData
      modifies this`msgParseState, this`ii, this`checksum, this`overrun, msgBuffer
      ensures Parse() == Frames.Store(old(Parse()), c)
    {
      hide Frames.Mix, Frames.Len;
      if ii == Frames.MSG_BUFFER {
        overrun := true;
      } else {
        msgBuffer[ii] := c;
        ii := ii + 1;
        checksum := Frames.Mix(checksum, c);
        if ii == Frames.Len(msgLength) {
          msgParseState := Frames.GetCheck;
        }
      }
    }

    /** Collect received bytes to a complete message, as far as the input goes. */
    method Collect() returns (ghost taken: seq<bv8>)
      requires Frames.Shape(Parse()) && !overrun
      modifies this`msgParseState, this`seqNum, this`msgLength, this`ii, this`checksum, this`overrun, this`rx, msgBuffer
      ensures old(rx) == taken + rx && Frames.Shape(Parse())
      ensures Parse() == Frames.FeedAll(old(Parse()).(state := Frames.Start), taken)
      ensures Frames.Fresh(old(Parse()).(state := Frames.Start), taken)
      ensures msgParseState == Frames.Process || rx == []
      ensures msgParseState == Frames.Process ==>
                var n := Frames.Len(msgLength);
                && 1 <= n <= Frames.MSG_BUFFER && !overrun
                && n + 6 <= |taken| && (seqNum == 1 || seqNum == old(seqNum))
                && taken[|taken| - (n + 6)..] == Frames.Frame(seqNum, msgLength, msgBuffer[..][..n])
    {
      hide Frames.Feed, Frames.FeedAll, Frames.Len, Frames.Frame;
      ghost var p := Parse().(state := Frames.Start);
      taken := [];
      msgParseState := Frames.Start;
      FeedNothing(p);
      while msgParseState != Frames.Process && rx != []
        invariant old(rx) == taken + rx && Frames.Shape(Parse())
        invariant Parse() == Frames.FeedAll(p, taken) && Frames.Fresh(p, taken)
        invariant taken == [] ==> msgParseState == Frames.Start
        decreases |rx|
      {
        var c := rx[0];
        rx := rx[1..];
        FeedByte(c);
        Frames.FeedMore(p, taken, c);
        assert (taken + [c])[..|taken|] == taken;
        taken := taken + [c];
      }
      if msgParseState == Frames.Process {
        Frames.CompleteIsFrame(p, taken);
      }
    }

    lemma FeedNothing(p: Frames.Parser)
      requires Frames.Shape(p)
      ensures Frames.FeedAll(p, []) == p
    {
    }

    method SendChar(c: bv8)
      modifies this`tx
      ensures tx == old(tx) + [c]
    {
      tx := tx + [c];
    }

    /** The answer goes out as a message, and the next sequence number is expected. */
    method SendAnswer()
      requires Frames.Shape(Parse()) && Frames.Len(msgLength) <= Frames.MSG_BUFFER
      modifies this`tx, this`checksum, this`msgLength, this`seqNum
      ensures tx == old(tx) + Frames.Frame(old(seqNum), old(msgLength), msgBuffer[..Frames.Len(old(msgLength))])
      ensures Frames.Balanced(tx[|old(tx)|..])
      ensures seqNum == old(seqNum) + 1
    {
      hide Frames.Mix, Frames.Len, Frames.Xor, Frames.Header, Frames.Balanced;
      ghost var was := tx;
      ghost var f := Frames.Frame(seqNum, msgLength, msgBuffer[..Frames.Len(msgLength)]);
      Frames.FrameBalanced(seqNum, msgLength, msgBuffer[..Frames.Len(msgLength)]);
      ghost var n, h := Frames.Len(msgLength), Frames.Header(seqNum, msgLength);
      SendHeader();
      SendBody(h);
      SendChar(checksum);
      assert tx == old(tx) + (h + msgBuffer[..n] + [Frames.Xor(h + msgBuffer[..n])]);
      seqNum := seqNum + 1;
      assert tx[|was|..] == f;
    }

    method SendHeader()
      modifies this`tx, this`checksum
      ensures tx == old(tx) + Frames.Header(seqNum, msgLength) && checksum == Frames.Xor(Frames.Header(seqNum, msgLength))
    {
      hide Frames.Mix, Frames.Xor, Low, High;
      SendChar(Frames.MESSAGE_START);
      SendChar(seqNum);
      SendChar(High(msgLength));
      SendChar(Low(msgLength));
      SendChar(Frames.TOKEN);
      checksum := Frames.Mix(Frames.MESSAGE_START, 0);
      checksum := Frames.Mix(checksum, seqNum);
      checksum := Frames.Mix(checksum, High(msgLength));
      checksum := Frames.Mix(checksum, Low(msgLength));
      checksum := Frames.Mix(checksum, Frames.TOKEN);
      HeaderSum(seqNum, msgLength);
    }

    method SendBody(ghost head: seq<bv8>)
      requires msgBuffer.Length == Frames.MSG_BUFFER && checksum == Frames.Xor(head)
      requires Frames.Len(msgLength) <= Frames.MSG_BUFFER
      modifies this`tx, this`checksum, this`msgLength
      ensures tx == old(tx) + msgBuffer[..Frames.Len(old(msgLength))]
      ensures checksum == Frames.Xor(head + msgBuffer[..Frames.Len(old(msgLength))])
    {
      hide Frames.Mix, Frames.Len, Frames.Xor;
      var p, left := 0, Frames.Len(msgLength);
      ghost var n := left;
      assert head + msgBuffer[..0] == head;
      while left != 0
        invariant p + left == n
        invariant tx == old(tx) + msgBuffer[..p] && checksum == Frames.Xor(head + msgBuffer[..p])
        decreases left
      {
        var c := msgBuffer[p];
        SendChar(c);
        checksum := Frames.Mix(checksum, c);
        Frames.XorMore(head + msgBuffer[..p], c);
        assert head + msgBuffer[..p] + [c] == head + msgBuffer[..p + 1];
        p := p + 1;
        left := left - 1;
      }
      msgLength := 0;
    }

    lemma HeaderSum(s: bv8, w: bv16)
      ensures Frames.Xor(Frames.Header(s, w)) ==
              Frames.Mix(Frames.Mix(Frames.Mix(Frames.Mix(Frames.Mix(Frames.MESSAGE_START, 0), s), High(w)), Low(w)), Frames.TOKEN)
    {
      hide Frames.Mix, Low, High;
      var h1 := [Frames.MESSAGE_START];
      var h2, h3 := h1 + [s], h1 + [s] + [High(w)];
      var h4 := h3 + [Low(w)];
      Frames.XorOne(Frames.MESSAGE_START);
      Frames.MixZero(Frames.MESSAGE_START);
      hide Frames.Xor;
      Frames.XorMore(h1, s);
      Frames.XorMore(h2, High(w));
      Frames.XorMore(h3, Low(w));
      Frames.XorMore(h4, Frames.TOKEN);
      assert Frames.Header(s, w) == h4 + [Frames.TOKEN];
    }

    // ---------------------------------------------------------------- commands

    /** CMD_PROGRAM_FLASH_ISP: erase under the cursor, fill, write. */
    method ProgramFlash()
      requires msgBuffer.Length == Frames.MSG_BUFFER && Session.Valid(Memory())
      requires 10 + Size(msgBuffer[..]) <= Frames.MSG_BUFFER
      requires Session.Fits(Memory(), Session.Program(msgBuffer[10..10 + Size(msgBuffer[..])]))
      modifies this`device, this`address, this`eraseAddress, this`msgLength, msgBuffer
      ensures Memory() == Session.Step(old(Memory()), Session.Program(old(msgBuffer[10..10 + Size(msgBuffer[..])])))
      ensures msgLength == 2 && msgBuffer[1] == STATUS_CMD_OK && msgBuffer[0] == old(msgBuffer[0])
    {
      hide Word, FillAll, Frames.Len, Device.Erase, Device.Write, Device.Valid;
      ghost var data := msgBuffer[10..10 + Size(msgBuffer[..])];
      var size := Size(msgBuffer[..]);
      var tempaddress := address;
      if eraseAddress < appEnd {
        device := device.Erase(eraseAddress);
        eraseAddress := eraseAddress + device.page;
      }
      assert Memory() == Session.EraseNext(old(Memory()));
      FillPage(size, data);
      device := device.Write(tempaddress);
      msgLength := 2;
      msgBuffer[1] := STATUS_CMD_OK;
    }

    /** The do-while loop over the words of the body. */
    method FillPage(size0: nat, ghost data: seq<bv8>)
      requires msgBuffer.Length == Frames.MSG_BUFFER && device.Valid()
      requires 0 < size0 && size0 % 2 == 0 && 10 + size0 <= Frames.MSG_BUFFER && data == msgBuffer[10..10 + size0]
      requires address < Wrap()
      modifies this`device, this`address
      ensures device == FillAll(old(device), old(address), data, size0, Wrap())
      ensures address == (old(address) + size0) % Wrap()
    {
      hide Word, FillAll, Wrap, Device.Fill, Device.Valid;
      WrapStep(address);
      SmallMod(address, Wrap());
      ghost var d, a, words, k := device, address, size0 / 2, 0;
      var p, size := 10, size0;
      FillNone(d, a, data, Wrap());
      while true
        invariant 0 <= k < words && size == 2 * (words - k) && p == 10 + 2 * k
        invariant address == (a + 2 * k) % Wrap()
        invariant device == FillAll(d, a, data, 2 * k, Wrap())
        decreases words - k
      {
        var lowByte := msgBuffer[p];
        var highByte := msgBuffer[p + 1];
        assert lowByte == data[2 * k] && highByte == data[2 * k + 1];
        FillMore(d, a, data, 2 * k, Wrap());
        WrapStep(a + 2 * k);
        device := device.Fill(address, Word(lowByte, highByte));
        p := p + 2;
        address := (address + 2) % Wrap();
        size := size - 2;
        k := k + 1;
        if size == 0 { break; }
      }
    }

    /** CMD_READ_FLASH_ISP: status, the bytes from the address on, status. */
    method ReadFlash()
      requires msgBuffer.Length == Frames.MSG_BUFFER && Session.Valid(Memory())
      requires Size(msgBuffer[..]) + 3 <= Frames.MSG_BUFFER
      requires Session.Fits(Memory(), Session.ReadFlash(Size(msgBuffer[..])))
      modifies this`address, this`msgLength, msgBuffer
      ensures var n := old(Size(msgBuffer[..]));
              && Memory() == Session.Step(old(Memory()), Session.ReadFlash(n))
              && msgLength == Longer(old(Word(msgBuffer[2], msgBuffer[1])))
              && msgBuffer[1] == STATUS_CMD_OK && msgBuffer[2 + n] == STATUS_CMD_OK && msgBuffer[0] == old(msgBuffer[0])
              && msgBuffer[2..2 + n] == Session.ReadBytes(old(Memory()), n)
    {
      hide Word, Frames.Len, Wrap, Copying;
      var size := Size(msgBuffer[..]);
      ghost var n := size;
      msgLength := Longer(Word(msgBuffer[2], msgBuffer[1]));
      msgBuffer[1] := STATUS_CMD_OK;
      ghost var before, a := msgBuffer[..], address;
      CopyOut(size);
      CopyEnds(before, msgBuffer[..], device.cells, a, 2 + n);
      assert msgBuffer[0] == before[0] && msgBuffer[1] == before[1];
      ghost var part := msgBuffer[2..2 + n];
      msgBuffer[2 + size] := STATUS_CMD_OK;
      assert msgBuffer[2..2 + n] == part;
    }

    /** From index 2 up to `p` the buffer holds the flash from `a` on, the rest is as it was. */
    ghost predicate Copying(was: seq<bv8>, now: seq<bv8>, cells: seq<bv8>, a: nat, p: nat) {
      && 2 <= p <= |was| == |now| && a + (p - 2) <= |cells| && now[2..p] == cells[a..a + (p - 2)]
      && now[..2] == was[..2] && now[p..] == was[p..]
    }

    lemma Copied(was: seq<bv8>, now: seq<bv8>, cells: seq<bv8>, a: nat, p: nat)
      requires Copying(was, now, cells, a, p) && p + 2 <= |was| && a + p <= |cells|
      ensures Copying(was, now[p := cells[a + (p - 2)]][p + 1 := cells[a + (p - 1)]], cells, a, p + 2)
    {
      var next := now[p := cells[a + (p - 2)]][p + 1 := cells[a + (p - 1)]];
      assert cells[a..a + p] == cells[a..a + (p - 2)] + [cells[a + (p - 2)], cells[a + (p - 1)]];
      assert next[2..p + 2] == now[2..p] + [next[p], next[p + 1]];
      assert next[..2] == now[..2];
      assert next[p + 2..] == now[p..][2..];
    }

    lemma CopyStarts(b: seq<bv8>, cells: seq<bv8>, a: nat)
      requires |b| >= 2 && a <= |cells|
      ensures Copying(b, b, cells, a, 2)
    {
    }

    lemma CopyEnds(was: seq<bv8>, now: seq<bv8>, cells: seq<bv8>, a: nat, p: nat)
      requires Copying(was, now, cells, a, p)
      ensures now[2..p] == cells[a..a + (p - 2)] && now[0] == was[0] && now[1] == was[1]
    {
      assert now[0] == now[..2][0] && now[1] == now[..2][1];
    }

    /** The do-while loop that reads the flash word by word. */
    method CopyOut(size0: nat)
      requires msgBuffer.Length == Frames.MSG_BUFFER && 0 < size0 && size0 + 3 <= Frames.MSG_BUFFER && size0 % 2 == 0
      requires address + size0 <= |device.cells| <= Wrap()
      modifies this`address, msgBuffer
      ensures address == (old(address) + size0) % Wrap()
      ensures Copying(old(msgBuffer[..]), msgBuffer[..], device.cells, old(address), 2 + size0)
    {
      hide Wrap, Copying;
      var p, size := 2, size0;
      ghost var a, before := address, msgBuffer[..];
      CopyStarts(before, device.cells, a);
      while true
        invariant 0 < size <= size0 && size % 2 == 0 && p == 2 + (size0 - size)
        invariant address == a + (p - 2)
        invariant Copying(before, msgBuffer[..], device.cells, a, p)
        decreases size
      {
        ghost var was := msgBuffer[..];
        msgBuffer[p] := device.cells[address];
        msgBuffer[p + 1] := device.cells[address + 1];
        Copied(before, was, device.cells, a, p);
        assert msgBuffer[..] == was[p := device.cells[a + (p - 2)]][p + 1 := device.cells[a + (p - 1)]];
        p := p + 2;
        address := (address + 2) % Wrap();
        size := size - 2;
        if size == 0 { break; }
        SmallMod(a + (p - 2), Wrap());
      }
    }

    /** The switch over the command byte; anything unknown is refused. */
    method ProcessMessage()
      requires msgBuffer.Length == Frames.MSG_BUFFER && Session.Valid(Memory())
      requires msgBuffer[0] !in OTHER_COMMANDS
      requires 10 + Size(msgBuffer[..]) <= Frames.MSG_BUFFER || msgBuffer[0] != Session.CMD_PROGRAM_FLASH_ISP
      requires Size(msgBuffer[..]) + 3 <= Frames.MSG_BUFFER || msgBuffer[0] != Session.CMD_READ_FLASH_ISP
      requires Session.Fits(Memory(), Decoded(rampz, msgBuffer[..]))
      modifies this`device, this`address, this`eraseAddress, this`msgLength, msgBuffer
      ensures Memory() == Session.Step(old(Memory()), Decoded(rampz, old(msgBuffer[..])))
      ensures Session.Valid(Memory()) && msgBuffer[0] == old(msgBuffer[0])
      ensures var c := Decoded(rampz, old(msgBuffer[..]));
              && msgBuffer[1] == (if c.Other? then STATUS_CMD_FAILED else STATUS_CMD_OK)
              && msgLength == (if c.ReadFlash? then Longer(old(Word(msgBuffer[2], msgBuffer[1]))) else 2)
              && (c.ReadFlash? ==> msgBuffer[2..2 + c.size] == Session.ReadBytes(old(Memory()), c.size)
                                   && msgBuffer[2 + c.size] == STATUS_CMD_OK)
    {
      hide Word, Frames.Len, Session.Step, Session.Valid, Session.ReadBytes, Longer;
      Session.StepValid(Memory(), Decoded(rampz, msgBuffer[..]));
      if msgBuffer[0] == Session.CMD_CHIP_ERASE_ISP {
        ChipErase();
      } else if msgBuffer[0] == Session.CMD_LOAD_ADDRESS {
        LoadAddress();
      } else if msgBuffer[0] == Session.CMD_PROGRAM_FLASH_ISP {
        ProgramFlash();
      } else if msgBuffer[0] == Session.CMD_READ_FLASH_ISP {
        ReadFlash();
      } else {
        msgLength := 2;
        msgBuffer[1] := STATUS_CMD_FAILED;
        Idle(Memory());
      }
    }

    lemma Idle(s: Session.Session)
      requires Session.Valid(s)
      ensures Session.Step(s, Session.Other) == s
    {
    }

    method ChipErase()
      requires msgBuffer.Length == Frames.MSG_BUFFER && Session.Valid(Memory())
      modifies this`eraseAddress, this`msgLength, msgBuffer
      ensures Memory() == Session.Step(old(Memory()), Session.ChipErase)
      ensures msgLength == 2 && msgBuffer[1] == STATUS_CMD_OK && msgBuffer[0] == old(msgBuffer[0])
    {
      eraseAddress := 0;
      msgLength := 2;
      msgBuffer[1] := STATUS_CMD_OK;
    }

    method LoadAddress()
      requires msgBuffer.Length == Frames.MSG_BUFFER && Session.Valid(Memory())
      modifies this`address, this`msgLength, msgBuffer
      ensures Memory() == Session.Step(old(Memory()), Session.LoadAddress(ByteAddress(rampz, old(msgBuffer[..]))))
      ensures msgLength == 2 && msgBuffer[1] == STATUS_CMD_OK && msgBuffer[0] == old(msgBuffer[0])
    {
      hide Word, Frames.Len;
      address := ByteAddress(rampz, msgBuffer[..]);
      msgLength := 2;
      msgBuffer[1] := STATUS_CMD_OK;
    }

    // ---------------------------------------------------------------- the main loop

    /** One message: collect, process, answer. */
    method Round(ghost r: Request, ghost rest: seq<bv8>)
      requires Frames.Shape(Parse()) && !overrun && Session.Valid(Memory())
      requires r.Legal(rampz, Memory(), seqNum) && rx == r.Sent() + rest
      modifies this, msgBuffer
      ensures Frames.Shape(Parse()) && !overrun && Session.Valid(Memory()) && rx == rest
      ensures Memory() == Session.Step(old(Memory()), r.cmd) && seqNum == r.seqNum + 1
      ensures tx == old(tx) + r.Answer(old(Memory()))
    {
      hide Session.Valid, Session.Step, Session.Fits, Frames.Len, Frames.Frame, Request.Legal, Request.Framed, Request.Asks,
           Request.Sent, Request.Answer, Request.AnswerBody, Request.AnswerLength, Request.Body;
      ghost var s := Memory();
      LegalParts(r, rampz, s, seqNum);
      Receive(r, rest);
      ProcessRequest(r);
      SendAnswer();
      AnswerFramed(r, s);
    }

    /** The junk and the frame of a request are taken, and its body is in the buffer. */
    method Receive(ghost r: Request, ghost rest: seq<bv8>)
      requires Frames.Shape(Parse()) && !overrun
      requires r.Framed(seqNum) && rx == r.Sent() + rest
      modifies this`msgParseState, this`seqNum, this`msgLength, this`ii, this`checksum, this`overrun, this`rx, msgBuffer
      ensures Frames.Shape(Parse()) && !overrun && rx == rest && seqNum == r.seqNum
      ensures |r.Body()| <= Frames.MSG_BUFFER && msgBuffer[..|r.Body()|] == r.Body()
    {
      hide Frames.Feed, Frames.FeedAll, Frames.Frame, Frames.Len, BodyOf, Frames.Fresh, Request.Sent;
      ghost var p := Parse().(state := Frames.Start);
      ghost var taken := Collect();
      RequestTaken(p, r, rest, taken, rx);
    }

    method ProcessRequest(ghost r: Request)
      requires Frames.Shape(Parse()) && !overrun && Session.Valid(Memory()) && r.Asks(rampz, Memory())
      requires |r.Body()| <= Frames.MSG_BUFFER && msgBuffer[..|r.Body()|] == r.Body()
      modifies this`device, this`address, this`eraseAddress, this`msgLength, msgBuffer
      ensures Frames.Shape(Parse()) && !overrun && Session.Valid(Memory())
      ensures Memory() == Session.Step(old(Memory()), r.cmd)
      ensures Frames.Len(msgLength) <= Frames.MSG_BUFFER && msgLength == r.AnswerLength()
      ensures msgBuffer[..Frames.Len(msgLength)] == r.AnswerBody(old(Memory()))
    {
      hide Session.Valid, Session.Step, Session.Fits, Frames.Len, BodyOf, Decoded, Words, Word, Longer, Session.ReadBytes, Size;
      ghost var s, b := Memory(), msgBuffer[..];
      assert b[..|r.Body()|] == r.Body();
      BodyDecodes(rampz, r.cmd, r.hi, r.lo, b);
      BodyFits(rampz, r, b);
      assert b[0] == msgBuffer[0] && b[1] == msgBuffer[1] && b[2] == msgBuffer[2];
      ProcessMessage();
      AnswerInBuffer(r, s, msgBuffer[..], msgLength);
    }

    /** The main loop answers every request with what the memory gives. */
    method Serve(ghost rs: seq<Request>)
      requires Frames.Shape(Parse()) && !overrun && Session.Valid(Memory())
      requires LegalRun(rampz, Memory(), seqNum, rs) && rx == SentAll(rs)
      modifies this, msgBuffer
      ensures tx == old(tx) + old(Answers(rampz, Memory(), seqNum, rs))
      ensures Session.Valid(Memory()) && Memory() == old(After(rampz, Memory(), seqNum, rs))
    {
      hide Session.Valid, Session.Step, Session.Fits, Frames.Shape, Request.Sent, Request.Answer, Request.Legal;
      ghost var left := rs;
      ghost var all, end := tx + Answers(rampz, Memory(), seqNum, rs), After(rampz, Memory(), seqNum, rs);
      while rx != []
        invariant Frames.Shape(Parse()) && !overrun && Session.Valid(Memory())
        invariant LegalRun(rampz, Memory(), seqNum, left) && rx == SentAll(left)
        invariant tx + Answers(rampz, Memory(), seqNum, left) == all && After(rampz, Memory(), seqNum, left) == end
        decreases |left|
      {
        ghost var t, r := tx, left[0];
        ghost var s, n := Memory(), seqNum;
        Round(r, SentAll(left[1..]));
        AnswersJoin(t, r.Answer(s), Answers(rampz, Memory(), seqNum, left[1..]));
        left := left[1..];
      }
      SentNone(left);
    }
  }

  lemma AnswersJoin(a: seq<bv8>, b: seq<bv8>, c: seq<bv8>)
    ensures a + (b + c) == a + b + c
  {
  }

  lemma SentNotEmpty(r: Request)
    ensures r.Sent() != []
  {
    hide BodyOf, Frames.Xor;
  }

  lemma SentNone(rs: seq<Request>)
    ensures SentAll(rs) == [] <==> rs == []
  {
    if rs != [] { SentNotEmpty(rs[0]); }
  }

  lemma LegalParts(r: Request, rampz: bool, s: Session.Session, expected: bv8)
    requires r.Legal(rampz, s, expected)
    ensures r.Framed(expected) && r.Asks(rampz, s)
  {
  }

  lemma AnswerFramed(r: Request, s: Session.Session)
    ensures r.Answer(s) == Frames.Frame(r.seqNum, r.AnswerLength(), r.AnswerBody(s))
  {
  }

  /** What the command needs of the message buffer. */
  lemma BodyFits(rampz: bool, r: Request, b: seq<bv8>)
    requires |b| == Frames.MSG_BUFFER && r.Body() <= b && Words(rampz, r.cmd, r.hi, r.lo)
    requires |r.Body()| <= Frames.MSG_BUFFER
    requires r.cmd.ReadFlash? ==> Frames.Len(r.lo) == r.cmd.size && r.cmd.size + 3 <= Frames.MSG_BUFFER
    ensures b[0] == r.Body()[0] && b[0] !in OTHER_COMMANDS
    ensures b[0] == Session.CMD_PROGRAM_FLASH_ISP ==> 10 + Size(b) <= Frames.MSG_BUFFER
    ensures b[0] == Session.CMD_READ_FLASH_ISP ==> Size(b) + 3 <= Frames.MSG_BUFFER
    ensures r.cmd.ReadFlash? ==> Word(b[2], b[1]) == r.lo
  {
    hide Word, Low, High, Frames.Len;
    BytesWord(r.lo);
    var body := r.Body();
    assert b[..|body|] == body;
    BodyNotEmpty(r.cmd, r.hi, r.lo);
    if r.cmd.Program? || r.cmd.ReadFlash? {
      assert b[1] == body[1] && b[2] == body[2];
    }
  }

  lemma AnswerInBuffer(r: Request, s: Session.Session, c: seq<bv8>, length: bv16)
    requires |c| == Frames.MSG_BUFFER && c[0] == r.Body()[0]
    requires c[1] == if r.cmd.Other? then STATUS_CMD_FAILED else STATUS_CMD_OK
    requires length == if r.cmd.ReadFlash? then Longer(r.lo) else 2
    requires r.cmd.ReadFlash? ==>
      && r.cmd.size + 3 <= Frames.MSG_BUFFER && Frames.Len(r.lo) == r.cmd.size
      && c[2..2 + r.cmd.size] == Session.ReadBytes(s, r.cmd.size) && c[2 + r.cmd.size] == STATUS_CMD_OK
    ensures Frames.Len(length) <= Frames.MSG_BUFFER && length == r.AnswerLength()
    ensures c[..Frames.Len(length)] == r.AnswerBody(s)
  {
    hide Frames.Len, BodyOf, Longer;
    Two();
    if r.cmd.ReadFlash? {
      PlusThree(r.lo);
      var n := r.cmd.size;
      assert c[..n + 3] == [c[0], c[1]] + c[2..2 + n] + [c[2 + n]];
    }
  }
}
