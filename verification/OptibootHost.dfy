/** What the host sees: a plain memory behind load-address, program-page and read-page. */
module OptibootHost {
  import opened Arithmetic
  import opened AvrFlash
  import opened OptibootSpec

  datatype Host = Host(page: nat, mem: seq<bv8>, address: nat, signature: seq<bv8>, primed: bool)

  datatype Cmd =
    | Load(word: bv16)
    | Program(data: seq<bv8>)
    | Read(count: nat)
    | GetParameter(which: bv8)
    | SetDevice(params: seq<bv8>)
    | SetDeviceExt(params: seq<bv8>)
    | Universal(params: seq<bv8>)
    | ReadSign
    | Other(code: bv8)

  predicate IsVector(a: int) {
    a == 0 || a == 1 || a == 8 || a == 9
  }

  /** Pages are programmed whole and aligned; the vectors are read only after page 0 was
      programmed, which is `primed`. From then on a longer command must not reach the place
      where they are saved, unless it programs page 0 anew. */
  ghost predicate Legal(h: Host, c: Cmd) {
    match c
    case Program(data) =>
      && h.page > 0 && h.address % h.page == 0 && h.address + h.page <= |h.mem| && h.page <= |data| <= 256
      && (h.primed && h.address != 0 ==> |data| <= Saved(h.page))
    case Read(n) => 1 <= n <= 256 && h.address + n <= |h.mem|
                    && (h.primed || forall a | h.address <= a < h.address + n :: !IsVector(a))
    case SetDevice(p) => |p| == 20
    case SetDeviceExt(p) => |p| == 5
    case Universal(p) => |p| == 4
    case Other(x) => x !in [STK_GET_PARAMETER, STK_SET_DEVICE, STK_SET_DEVICE_EXT, STK_LOAD_ADDRESS,
                            STK_UNIVERSAL, STK_PROG_PAGE, STK_READ_PAGE, STK_READ_SIGN]
    case _ => true
  }

  /** The page length as the single byte that the bootloader looks at. */
  function LengthByte(n: nat): bv8 {
    (n % 256) as bv8
  }

  function Encode(c: Cmd): seq<bv8> {
    match c
    case Load(w) => [STK_LOAD_ADDRESS, Low(w), High(w), CRC_EOP]
    case Program(data) => [STK_PROG_PAGE, if |data| == 256 then 1 else 0, LengthByte(|data|), 0x46] + data + [CRC_EOP]
    case Read(n) => [STK_READ_PAGE, if n == 256 then 1 else 0, LengthByte(n), 0x46, CRC_EOP]
    case GetParameter(w) => [STK_GET_PARAMETER, w, CRC_EOP]
    case SetDevice(p) => [STK_SET_DEVICE] + p + [CRC_EOP]
    case SetDeviceExt(p) => [STK_SET_DEVICE_EXT] + p + [CRC_EOP]
    case Universal(p) => [STK_UNIVERSAL] + p + [CRC_EOP]
    case ReadSign => [STK_READ_SIGN, CRC_EOP]
    case Other(x) => [x, CRC_EOP]
  }

  function Payload(h: Host, c: Cmd): seq<bv8> {
    match c
    case Read(n) => if h.address + n <= |h.mem| then h.mem[h.address..h.address + n] else []
    case GetParameter(w) => [Parameter(w)]
    case Universal(_) => [0x00]
    case ReadSign => h.signature
    case _ => []
  }

  function Reply(h: Host, c: Cmd): seq<bv8> {
    [STK_INSYNC] + Payload(h, c) + [STK_OK]
  }

  function After(h: Host, c: Cmd): Host {
    match c
    case Load(w) => h.(address := 2 * (w as nat) % 0x1_0000)
    case Program(data) =>
      if h.address + h.page <= |h.mem| && h.page <= |data|
      then h.(mem := Place(h.mem, h.address, data[..h.page]), primed := h.primed || h.address == 0) else h
    case Read(n) => h.(address := (h.address + n) % 0x1_0000)
    case _ => h
  }

  /** The flash differs from the host's memory only in the two vectors, whose originals
      are kept in RAM once page 0 has been programmed. */
  ghost predicate Refines(s: Boot, h: Host) {
    && s.Valid() && s.alive && s.device.page == h.page && s.device.temp == Blank(h.page)
    && s.address == h.address && s.signature == h.signature && |s.device.cells| == |h.mem|
    && Agree(s.device.cells, h.mem)
    && (h.primed ==> Moved(s, h.mem))
  }

  /** Equal except in the two vectors. */
  ghost predicate Agree(cells: seq<bv8>, mem: seq<bv8>) {
    |cells| == |mem| && forall a | 0 <= a < |mem| && !IsVector(a) :: cells[a] == mem[a]
  }

  ghost predicate Moved(s: Boot, mem: seq<bv8>) {
    && |mem| >= 10 && |s.device.cells| >= 10
    && Saved(s.device.page) + 4 <= |s.ram|
    && s.RstVect() == Word(mem[0], mem[1]) && s.WdtVect() == Word(mem[8], mem[9])
    && s.device.cells[0] == 0x7f && s.device.cells[1] == 0xce
    && Word(s.device.cells[8], s.device.cells[9]) == s.RstVect() - 4
  }

  lemma CountOfLength(n: nat)
    requires 1 <= n <= 256
    ensures Count(LengthByte(n)) == n
  {
  }

  // ---------------------------------------------------------------- programming a page

  /** The bytes of a program command, split the way the bootloader reads them. */
  lemma ProgramInput(data: seq<bv8>, rest: seq<bv8>)
    requires 1 <= |data| <= 256
    ensures var rx := Encode(Program(data)) + rest;
            && |rx| == 5 + |data| + |rest| && rx[0] == STK_PROG_PAGE && Count(rx[2]) == |data|
            && |rx[1..]| >= 4 + |data| && rx[1..][1] == rx[2]
            && rx[1..][3..3 + |data|] == data && rx[1..][3 + |data|..] == [CRC_EOP] + rest
  {
    CountOfLength(|data|);
    var rx := Encode(Program(data)) + rest;
    assert rx[1..] == [rx[1], rx[2], rx[3]] + data + ([CRC_EOP] + rest);
  }

  /** PROGRAM PAGE on an aligned page, in one step. */
  function Programmed(s: Boot, data: seq<bv8>, rest: seq<bv8>): Boot
    requires s.Valid() && |data| <= 256 && s.address + s.device.page <= |s.device.cells|
  {
    var q := Patch(s.(ram := data + s.ram[|data|..]));
    q.(device := q.device.(cells := Place(s.device.cells, s.address, q.ram[..s.device.page])),
       rx := rest, tx := s.tx + [STK_INSYNC] + [STK_OK])
  }

  lemma WritePageAligned(s: Boot, d: Device)
    requires s.Valid() && d.Valid() && d.page == s.device.page && |d.cells| == |s.device.cells|
    requires s.address % d.page == 0 && s.address + d.page <= |d.cells|
    requires d.temp == Blank(d.page) && s.device == d.Erase(s.address)
    ensures WritePage(s) == s.(device := d.(cells := Place(d.cells, s.address, s.ram[..d.page])))
  {
    hide FillAll;
    BurnAligned(d, s.address, s.ram, 0x1_0000);
  }

  lemma ReceiveAligned(s: Boot, data: seq<bv8>, rest: seq<bv8>)
    requires s.Valid() && s.alive && s.address < |s.device.cells|
    requires 1 <= |data| <= 256 && s.rx == Encode(Program(data)) + rest
    ensures Ready(s) && |s.rx| > 0 && s.rx[0] == STK_PROG_PAGE
    ensures var r := Skip(s, 1);
            && |r.rx| >= 3 && |r.rx| > 3 + Count(r.rx[1])
            && ReceivePage(r) == s.(rx := [CRC_EOP] + rest, ram := data + s.ram[|data|..],
                                    device := s.device.Erase(s.address))
  {
    hide Encode, Device.Erase;
    ProgramInput(data, rest);
  }

  lemma ProgramAligned(s: Boot, data: seq<bv8>, rest: seq<bv8>)
    requires s.Valid() && s.alive && s.device.temp == Blank(s.device.page)
    requires s.address % s.device.page == 0 && s.address + s.device.page <= |s.device.cells|
    requires s.device.page <= |data| <= 256 && s.rx == Encode(Program(data)) + rest
    ensures Ready(s) && Command(s) == Programmed(s, data, rest)
  {
    hide Encode, WritePage, Patch, Device.Erase, ReceivePage, Ready;
    ReceiveAligned(s, data, rest);
    var b := s.(ram := data + s.ram[|data|..]);
    var e := s.device.Erase(s.address);
    var t := b.(device := e, rx := rest, tx := s.tx + [STK_INSYNC]);
    assert VerifySpace(ReceivePage(Skip(s, 1))) == t by {
      assert ([CRC_EOP] + rest)[1..] == rest;
    }
    PatchCommutes(b, e, rest, s.tx + [STK_INSYNC]);
    WritePageAligned(Patch(t), s.device);
    assert Dispatch(s) == WritePage(Patch(t));
    var q := Patch(b);
    assert q.device == s.device && q.address == s.address;
    assert WritePage(Patch(t)) == q.(device := s.device.(cells := Place(s.device.cells, s.address, q.ram[..s.device.page])),
                                     rx := rest, tx := s.tx + [STK_INSYNC]);
  }

  lemma PatchCommutes(s: Boot, d: Device, rx: seq<bv8>, tx: seq<bv8>)
    requires s.Valid() && d.Valid() && d.page == s.device.page && |d.cells| == |s.device.cells|
    ensures Patch(s.(device := d, rx := rx, tx := tx)) == Patch(s).(device := d, rx := rx, tx := tx)
  {
  }

  // ---------------------------------------------------------------- one command

  lemma PatchedBytes(ram: seq<bv8>, v: nat)
    requires 10 <= v && v + 4 <= |ram|
    ensures var r := Patched(ram, v);
      && r[v] == ram[0] && r[v + 1] == ram[1] && r[v + 2] == ram[8] && r[v + 3] == ram[9]
      && r[0] == 0x7f && r[1] == 0xce && Word(r[8], r[9]) == Word(ram[0], ram[1]) - 4
      && forall i | 0 <= i < v && !IsVector(i) :: r[i] == ram[i]
  {
    hide Word, Low, High;
    BytesWord(Word(ram[0], ram[1]) - 4);
  }

  lemma PatchedPage(s: Boot, data: seq<bv8>)
    requires s.Valid() && s.device.page <= |data| <= 256 && s.address == 0
    ensures var q := Patch(s.(ram := data + s.ram[|data|..])); var b := q.ram;
            && q.RstVect() == Word(data[0], data[1]) && q.WdtVect() == Word(data[8], data[9])
            && b[0] == 0x7f && b[1] == 0xce && Word(b[8], b[9]) == q.RstVect() - 4
            && forall i | 0 <= i < s.device.page && !IsVector(i) :: b[i] == data[i]
  {
    hide Word, Low, High, Patched;
    var ram := data + s.ram[|data|..];
    assert ram[0] == data[0] && ram[1] == data[1] && ram[8] == data[8] && ram[9] == data[9];
    PatchedBytes(ram, Saved(s.device.page));
  }

  lemma PlacedAgree(cells: seq<bv8>, mem: seq<bv8>, a: nat, x: seq<bv8>, y: seq<bv8>)
    requires Agree(cells, mem) && |x| == |y| && a + |x| <= |cells|
    requires forall i | 0 <= i < |x| && !IsVector(a + i) :: x[i] == y[i]
    ensures Agree(Place(cells, a, x), Place(mem, a, y))
  {
  }

  lemma FirstPageRefines(s: Boot, h: Host, data: seq<bv8>, rest: seq<bv8>)
    requires Refines(s, h) && Legal(h, Program(data)) && h.address == 0
    ensures Refines(Programmed(s, data, rest), After(h, Program(data)))
  {
    hide Word, Patch, Agree;
    PatchedPage(s, data);
    var q := Patch(s.(ram := data + s.ram[|data|..]));
    PlacedAgree(s.device.cells, h.mem, 0, q.ram[..h.page], data[..h.page]);
  }

  lemma LaterPageRefines(s: Boot, h: Host, data: seq<bv8>, rest: seq<bv8>)
    requires Refines(s, h) && Legal(h, Program(data)) && h.address > 0
    ensures Refines(Programmed(s, data, rest), After(h, Program(data)))
  {
    hide Word;
    LaterPage(h.address, h.page);
    assert (data + s.ram[|data|..])[..h.page] == data[..h.page];
    PlacedAgree(s.device.cells, h.mem, h.address, data[..h.page], data[..h.page]);
  }

  /** An aligned page other than the first one holds no vector. */
  lemma LaterPage(a: nat, p: nat)
    requires p > 0 && a % p == 0 && a > 0
    ensures a >= p
  {
  }

  lemma ReadByteAgrees(s: Boot, h: Host, a: nat)
    requires Refines(s, h) && a < |h.mem| && (h.primed || !IsVector(a))
    ensures ReadByte(s.device.cells, s.RstVect(), s.WdtVect(), a) == h.mem[a]
  {
    if IsVector(a) {
      WordBytes(h.mem[0], h.mem[1]);
      WordBytes(h.mem[8], h.mem[9]);
    }
  }

  lemma ReadBytesAgree(s: Boot, h: Host, n: nat)
    requires Refines(s, h) && Legal(h, Read(n))
    ensures ReadBytes(s.device.cells, s.RstVect(), s.WdtVect(), s.address, n) == h.mem[h.address..h.address + n]
  {
    forall a | s.address <= a < s.address + n
      ensures ReadByte(s.device.cells, s.RstVect(), s.WdtVect(), a) == h.mem[a]
    {
      ReadByteAgrees(s, h, a);
    }
  }

  /** Nothing but the input, the output and the address changed. */
  ghost predicate Answered(s: Boot, t: Boot, out: seq<bv8>, rest: seq<bv8>, address: nat) {
    t == s.(rx := rest, tx := s.tx + out, address := address)
  }

  lemma ReadInput(n: nat, rest: seq<bv8>)
    requires 1 <= n <= 256
    ensures var rx := Encode(Read(n)) + rest;
            && |rx| == 5 + |rest| && rx[0] == STK_READ_PAGE && Count(rx[2]) == n
            && rx[1..][1] == rx[2] && rx[1..][3..] == [CRC_EOP] + rest
  {
    CountOfLength(n);
  }

  /** What a read command does, whatever the RAM holds. */
  lemma ReadRaw(s: Boot, n: nat, rest: seq<bv8>)
    requires s.Valid() && s.alive && 1 <= n <= 256 && s.address + n <= |s.device.cells| && s.rx == Encode(Read(n)) + rest
    ensures Ready(s)
    ensures var data := ReadBytes(s.device.cells, s.RstVect(), s.WdtVect(), s.address, n);
      Answered(s, Command(s), [STK_INSYNC] + data + [STK_OK], rest, (s.address + n) % 0x1_0000)
  {
    hide Encode, ReadByte, ReadBytes, Word, Device.Valid;
    ReadInput(n, rest);
    var t := VerifySpace(Skip(Skip(s, 1), 3));
    assert t == s.(rx := rest, tx := s.tx + [STK_INSYNC]) by {
      assert ([CRC_EOP] + rest)[1..] == rest;
    }
    assert Dispatch(s) == SendPage(t, n);
    var data := ReadBytes(s.device.cells, s.RstVect(), s.WdtVect(), s.address, n);
    assert s.tx + [STK_INSYNC] + data + [STK_OK] == s.tx + ([STK_INSYNC] + data + [STK_OK]);
  }

  lemma ReadAnswers(s: Boot, h: Host, n: nat, rest: seq<bv8>)
    requires Refines(s, h) && Legal(h, Read(n)) && s.rx == Encode(Read(n)) + rest
    ensures Ready(s)
    ensures Answered(s, Command(s), Reply(h, Read(n)), rest, After(h, Read(n)).address)
  {
    hide Encode, ReadByte, ReadBytes, Command, Ready, Word, Agree, Moved;
    ReadRaw(s, n, rest);
    ReadBytesAgree(s, h, n);
  }

  /** Command byte, parameters and terminator are taken; the answer starts. */
  lemma Consumed(s: Boot, c: bv8, params: seq<bv8>, rest: seq<bv8>)
    requires s.rx == [c] + params + [CRC_EOP] + rest
    ensures |s.rx| == 2 + |params| + |rest| && s.rx[0] == c
    ensures forall i | 0 <= i < |params| :: s.rx[1..][i] == params[i]
    ensures VerifySpace(Skip(Skip(s, 1), |params|)) == s.(rx := rest, tx := s.tx + [STK_INSYNC])
  {
    assert s.rx[1..] == params + [CRC_EOP] + rest;
    assert s.rx[1..][|params|..] == [CRC_EOP] + rest;
    assert ([CRC_EOP] + rest)[1..] == rest;
  }

  lemma LoadAnswers(s: Boot, h: Host, w: bv16, rest: seq<bv8>)
    requires Refines(s, h) && s.rx == Encode(Load(w)) + rest
    ensures Ready(s)
    ensures Answered(s, Command(s), Reply(h, Load(w)), rest, After(h, Load(w)).address)
  {
    hide Low, High, Word, Doubled, Agree, Moved, Device.Valid;
    DoubledNumber(w);
    BytesWord(w);
    assert Encode(Load(w)) == [STK_LOAD_ADDRESS] + [Low(w), High(w)] + [CRC_EOP];
    Consumed(s, STK_LOAD_ADDRESS, [Low(w), High(w)], rest);
  }

  lemma ParameterAnswers(s: Boot, h: Host, w: bv8, rest: seq<bv8>)
    requires Refines(s, h) && s.rx == Encode(GetParameter(w)) + rest
    ensures Ready(s)
    ensures Answered(s, Command(s), Reply(h, GetParameter(w)), rest, After(h, GetParameter(w)).address)
  {
    hide Low, High, Word, Doubled, Agree, Moved, Device.Valid;
    assert Encode(GetParameter(w)) == [STK_GET_PARAMETER] + [w] + [CRC_EOP];
    Consumed(s, STK_GET_PARAMETER, [w], rest);
  }

  lemma SignAnswers(s: Boot, h: Host, rest: seq<bv8>)
    requires Refines(s, h) && s.rx == Encode(ReadSign) + rest
    ensures Ready(s)
    ensures Answered(s, Command(s), Reply(h, ReadSign), rest, After(h, ReadSign).address)
  {
    hide Low, High, Word, Doubled, Agree, Moved, Device.Valid;
    assert Encode(ReadSign) == [STK_READ_SIGN] + [] + [CRC_EOP];
    Consumed(s, STK_READ_SIGN, [], rest);
  }

  lemma SkippedAnswers(s: Boot, h: Host, c: Cmd, rest: seq<bv8>)
    requires Refines(s, h) && Legal(h, c) && s.rx == Encode(c) + rest
    requires c.SetDevice? || c.SetDeviceExt? || c.Universal?
    ensures Ready(s)
    ensures Answered(s, Command(s), Reply(h, c), rest, After(h, c).address)
  {
    hide Low, High, Word, Doubled, Agree, Moved, Device.Valid;
    match c
    case SetDevice(p) => Consumed(s, STK_SET_DEVICE, p, rest);
    case SetDeviceExt(p) => Consumed(s, STK_SET_DEVICE_EXT, p, rest);
    case Universal(p) => Consumed(s, STK_UNIVERSAL, p, rest);
  }

  /** The commands that do not touch the flash leave everything but the address alone. */
  lemma PlainAnswers(s: Boot, h: Host, c: Cmd, rest: seq<bv8>)
    requires Refines(s, h) && Legal(h, c) && !c.Program? && !c.Read? && s.rx == Encode(c) + rest
    ensures Ready(s)
    ensures Answered(s, Command(s), Reply(h, c), rest, After(h, c).address)
  {
    hide *;
    match c
    case SetDevice(p) => SkippedAnswers(s, h, c, rest);
    case SetDeviceExt(p) => SkippedAnswers(s, h, c, rest);
    case Universal(p) => SkippedAnswers(s, h, c, rest);
    case Other(x) => OtherAnswers(s, h, x, rest);
    case Load(w) => LoadAnswers(s, h, w, rest);
    case GetParameter(w) => ParameterAnswers(s, h, w, rest);
    case ReadSign => SignAnswers(s, h, rest);
  }

  lemma OtherAnswers(s: Boot, h: Host, x: bv8, rest: seq<bv8>)
    requires Refines(s, h) && Legal(h, Other(x)) && s.rx == Encode(Other(x)) + rest
    ensures Ready(s)
    ensures Answered(s, Command(s), Reply(h, Other(x)), rest, After(h, Other(x)).address)
  {
    hide Low, High, Word, Doubled, Agree, Moved, Device.Valid;
    assert Encode(Other(x)) == [x] + [] + [CRC_EOP];
    Consumed(s, x, [], rest);
  }

  // ---------------------------------------------------------------- every run

  /** One command: the host gets the answer of the plain memory and the relation is kept. */
  lemma StepRefines(s: Boot, h: Host, c: Cmd, rest: seq<bv8>)
    requires Refines(s, h) && Legal(h, c) && s.rx == Encode(c) + rest
    ensures Ready(s)
    ensures var t := Command(s);
            && t.rx == rest && t.tx == s.tx + Reply(h, c) && Refines(t, After(h, c))
  {
    hide Encode, Command, Reply, Ready, Legal, After, Agree, Moved;
    if c.Program? {
      ProgramStep(s, h, c.data, rest);
    } else if c.Read? {
      ReadAnswers(s, h, c.count, rest);
      AnsweredRefines(s, Command(s), h, c, Reply(h, c), rest);
    } else {
      PlainAnswers(s, h, c, rest);
      AnsweredRefines(s, Command(s), h, c, Reply(h, c), rest);
    }
  }

  lemma AnsweredRefines(s: Boot, t: Boot, h: Host, c: Cmd, out: seq<bv8>, rest: seq<bv8>)
    requires Refines(s, h) && !c.Program? && Answered(s, t, out, rest, After(h, c).address)
    ensures t.rx == rest && t.tx == s.tx + out && Refines(t, After(h, c))
  {
    AfterPlain(h, c);
    hide Word, Agree, After;
  }

  lemma AfterPlain(h: Host, c: Cmd)
    requires !c.Program? && h.address < 0x1_0000
    ensures After(h, c) == h.(address := After(h, c).address) && After(h, c).address < 0x1_0000
  {
  }

  lemma ProgramStep(s: Boot, h: Host, data: seq<bv8>, rest: seq<bv8>)
    requires Refines(s, h) && Legal(h, Program(data)) && s.rx == Encode(Program(data)) + rest
    ensures Ready(s)
    ensures var t := Command(s);
            && t.rx == rest && t.tx == s.tx + Reply(h, Program(data)) && Refines(t, After(h, Program(data)))
  {
    hide Encode, Command, Reply, Ready, After, Programmed;
    ProgramAligned(s, data, rest);
    ProgramReply(s, h, data, rest);
    if h.address == 0 {
      FirstPageRefines(s, h, data, rest);
    } else {
      LaterPageRefines(s, h, data, rest);
    }
  }

  lemma ProgramReply(s: Boot, h: Host, data: seq<bv8>, rest: seq<bv8>)
    requires Refines(s, h) && h.address + h.page <= |h.mem| && |data| <= 256
    ensures Programmed(s, data, rest).tx == s.tx + Reply(h, Program(data))
    ensures Programmed(s, data, rest).rx == rest
  {
    assert s.tx + [STK_INSYNC] + [STK_OK] == s.tx + ([STK_INSYNC] + [] + [STK_OK]);
  }

  /** The command that shortens the watchdog to 16 ms: nothing after it is sure to be answered. */
  predicate Leaves(c: Cmd) { c == Other(STK_LEAVE_PROGMODE) }

  ghost predicate LegalRun(h: Host, cs: seq<Cmd>)
    decreases |cs|
  {
    cs == [] || (Legal(h, cs[0]) && (Leaves(cs[0]) ==> |cs| == 1) && LegalRun(After(h, cs[0]), cs[1..]))
  }

  function EncodeAll(cs: seq<Cmd>): seq<bv8>
    decreases |cs|
  {
    if cs == [] then [] else Encode(cs[0]) + EncodeAll(cs[1..])
  }

  function Replies(h: Host, cs: seq<Cmd>): seq<bv8>
    decreases |cs|
  {
    if cs == [] then [] else Reply(h, cs[0]) + Replies(After(h, cs[0]), cs[1..])
  }

  function AfterAll(h: Host, cs: seq<Cmd>): Host
    decreases |cs|
  {
    if cs == [] then h else AfterAll(After(h, cs[0]), cs[1..])
  }

  /** Over every legal run the bytes sent back are those of the plain memory: each read
      returns what the host last wrote, although the flash holds moved vectors. */
  lemma {:induction false} RunRefines(s: Boot, h: Host, cs: seq<Cmd>)
    requires Refines(s, h) && LegalRun(h, cs) && s.rx == EncodeAll(cs)
    ensures var t := Serve(s);
            && t.tx == s.tx + Replies(h, cs) && t.rx == [] && Refines(t, AfterAll(h, cs))
    decreases |cs|
  {
    if cs == [] {
      assert s.tx + [] == s.tx;
    } else {
      hide Command, Encode, Reply, After, Refines, Ready;
      StepRefines(s, h, cs[0], EncodeAll(cs[1..]));
      RunRefines(Command(s), After(h, cs[0]), cs[1..]);
      RunJoin(s.tx, Reply(h, cs[0]), Replies(After(h, cs[0]), cs[1..]));
      ServeStep(s);
    }
  }

  lemma RunJoin(a: seq<bv8>, b: seq<bv8>, c: seq<bv8>)
    ensures a + b + c == a + (b + c)
  {
  }

  /** A page programmed behind load-address `w` stands at byte `2 * w`. */
  lemma PageAtByte(s: Boot, h: Host, w: bv16, a: nat, data: seq<bv8>)
    requires Refines(s, h) && s.rx == EncodeAll([Load(w), Program(data)]) && a == 2 * (w as nat)
    requires 0 < a < 0x1_0000 && a % h.page == 0 && a + h.page <= |h.mem|
    requires h.page <= |data| <= 2 * h.page && |data| <= 256
    ensures s.Valid()
    ensures Serve(s).tx == s.tx + ([0x14, 0x10] + [0x14, 0x10]) && Serve(s).rx == []
    ensures a + h.page <= |Serve(s).device.cells| && Serve(s).device.cells[a..a + h.page] == data[..h.page]
  {
    hide Encode, EncodeAll, Serve, Refines, Reply, Replies, After, AfterAll, Legal, LegalRun, Leaves, Boot.Valid;
    RefinesValid(s, h);
    PageSize(s, h);
    PageInHost(h, w, a, data);
    TwoCommands(h, Load(w), Program(data));
    RunRefines(s, h, [Load(w), Program(data)]);
    Aligned(a, h.page);
    PageAgrees(Serve(s), After(After(h, Load(w)), Program(data)), a, data[..h.page]);
  }

  /** The page at address 0 is read back as it was sent, vectors included. */
  lemma FirstPageReadsBack(s: Boot, h: Host, data: seq<bv8>, n: nat)
    requires Refines(s, h) && s.rx == EncodeAll([Load(0), Program(data), Load(0), Read(n)])
    requires h.page <= |data| <= 256 && h.page <= |h.mem| && 1 <= n <= h.page
    ensures s.Valid()
    ensures Serve(s).tx == s.tx + ([0x14, 0x10] + ([0x14, 0x10] + ([0x14, 0x10] + ([0x14] + data[..n] + [0x10]))))
  {
    hide Encode, EncodeAll, Serve, Refines, Reply, Replies, After, AfterAll, Legal, LegalRun, Leaves, Boot.Valid;
    RefinesValid(s, h);
    var h1 := After(h, Load(0));
    var h2 := After(h1, Program(data));
    var h3 := After(h2, Load(0));
    PageSize(s, h);
    FirstPageInHost(h, data, n);
    assert [Read(n)] == [Read(n)] + [] && [Load(0), Read(n)] == [Load(0)] + [Read(n)];
    assert [Program(data), Load(0), Read(n)] == [Program(data)] + [Load(0), Read(n)];
    assert [Load(0), Program(data), Load(0), Read(n)] == [Load(0)] + [Program(data), Load(0), Read(n)];
    NoCommands(After(h3, Read(n)));
    HeadCommand(h3, Read(n), []);
    HeadCommand(h2, Load(0), [Read(n)]);
    HeadCommand(h1, Program(data), [Load(0), Read(n)]);
    HeadCommand(h, Load(0), [Program(data), Load(0), Read(n)]);
    RunRefines(s, h, [Load(0), Program(data), Load(0), Read(n)]);
    assert Replies(h3, [Read(n)]) == Reply(h3, Read(n));
  }

  lemma HeadCommand(h: Host, c: Cmd, cs: seq<Cmd>)
    ensures Replies(h, [c] + cs) == Reply(h, c) + Replies(After(h, c), cs)
    ensures Legal(h, c) && !Leaves(c) && LegalRun(After(h, c), cs) ==> LegalRun(h, [c] + cs)
  {
    hide Reply, After, Legal, Leaves;
    assert ([c] + cs)[1..] == cs;
  }

  lemma NoCommands(h: Host)
    ensures Replies(h, []) == [] && LegalRun(h, [])
  {
  }

  lemma FirstPageInHost(h: Host, data: seq<bv8>, n: nat)
    requires 0 < h.page <= |data| <= 256 && h.page <= |h.mem| && 1 <= n <= h.page
    ensures var h1 := After(h, Load(0)); var h2 := After(h1, Program(data)); var h3 := After(h2, Load(0));
      && Legal(h, Load(0)) && Legal(h1, Program(data)) && Legal(h2, Load(0)) && Legal(h3, Read(n))
      && !Leaves(Load(0)) && !Leaves(Program(data)) && !Leaves(Read(n))
      && Reply(h, Load(0)) == Reply(h1, Program(data)) == Reply(h2, Load(0)) == [0x14, 0x10]
      && Reply(h3, Read(n)) == [0x14] + data[..n] + [0x10]
  {
    var h1 := After(h, Load(0));
    LoadZero(h);
    var h2 := After(h1, Program(data));
    LoadZero(h2);
    assert h2.primed && h2.mem[0..n] == data[..n];
  }

  lemma PageInHost(h: Host, w: bv16, a: nat, data: seq<bv8>)
    requires a == 2 * (w as nat) && a < 0x1_0000 && h.page > 0 && a % h.page == 0 && a + h.page <= |h.mem|
    requires h.page <= |data| <= 2 * h.page && |data| <= 256
    ensures Legal(h, Load(w)) && !Leaves(Load(w)) && Legal(After(h, Load(w)), Program(data))
    ensures Reply(h, Load(w)) == [0x14, 0x10] && Reply(After(h, Load(w)), Program(data)) == [0x14, 0x10]
    ensures var u := After(After(h, Load(w)), Program(data)); |u.mem| == |h.mem| && u.mem[a..a + h.page] == data[..h.page]
  {
    SmallMod(a, 0x1_0000);
    assert After(h, Load(w)) == h.(address := a);
    PageAt(h.(address := a), data);
  }

  lemma PageAt(g: Host, data: seq<bv8>)
    requires g.page > 0 && g.address % g.page == 0 && g.address + g.page <= |g.mem|
    requires g.page <= |data| <= 2 * g.page && |data| <= 256
    ensures Legal(g, Program(data)) && Reply(g, Program(data)) == [0x14, 0x10]
    ensures var u := After(g, Program(data)); var a := g.address;
      |u.mem| == |g.mem| && a + g.page <= |u.mem| && u.mem[a..a + g.page] == data[..g.page]
  {
  }

  lemma Aligned(a: nat, p: nat)
    requires p > 0 && a > 0 && a % p == 0
    ensures a >= p
  {
  }

  lemma RefinesValid(s: Boot, h: Host)
    requires Refines(s, h)
    ensures s.Valid() && s.alive
  {
  }

  lemma TwoCommands(h: Host, a: Cmd, b: Cmd)
    ensures EncodeAll([a, b]) == Encode(a) + Encode(b)
    ensures Replies(h, [a, b]) == Reply(h, a) + Reply(After(h, a), b)
    ensures AfterAll(h, [a, b]) == After(After(h, a), b)
    ensures Legal(h, a) && !Leaves(a) && Legal(After(h, a), b) ==> LegalRun(h, [a, b])
  {
    hide Encode, Reply, After, Legal, Leaves;
    var u := After(h, a);
    assert [a, b][1..] == [b] && [b][1..] == [];
    assert EncodeAll([b]) == Encode(b) + EncodeAll([]) == Encode(b);
    assert Replies(u, [b]) == Reply(u, b) + Replies(After(u, b), []) == Reply(u, b);
    assert AfterAll(u, [b]) == AfterAll(After(u, b), []);
    assert LegalRun(After(u, b), []);
  }

  lemma PageAgrees(t: Boot, g: Host, a: nat, page: seq<bv8>)
    requires Refines(t, g) && a + |page| <= |g.mem| && g.mem[a..a + |page|] == page && a >= 10
    ensures a + |page| <= |t.device.cells| && t.device.cells[a..a + |page|] == page
  {
    hide Moved;
    forall i | 0 <= i < |page| ensures t.device.cells[a..a + |page|][i] == page[i] {
      assert g.mem[a..a + |page|][i] == page[i];
    }
  }

  /** The commands as a programmer sends them. */
  lemma OnWire(p: seq<bv8>, n: nat)
    requires 1 <= n < 256
    ensures Encode(Load(0x1234)) == [0x55, 0x34, 0x12, 0x20]
    ensures |p| == n ==> Encode(Program(p)) == [0x64, 0x00, n as bv8, 0x46] + p + [0x20]
    ensures Encode(Read(n)) == [0x74, 0x00, n as bv8, 0x46, 0x20] && Encode(Read(256)) == [0x74, 0x01, 0x00, 0x46, 0x20]
    ensures Encode(GetParameter(0x81)) == [0x41, 0x81, 0x20] && Encode(ReadSign) == [0x75, 0x20]
    ensures Encode(SetDevice(p)) == [0x42] + p + [0x20] && Encode(SetDeviceExt(p)) == [0x45] + p + [0x20]
    ensures Encode(Universal(p)) == [0x56] + p + [0x20] && Encode(Other(STK_LEAVE_PROGMODE)) == [0x51, 0x20]
  {
  }

  lemma ServeStep(s: Boot)
    requires s.Valid() && Ready(s)
    ensures Serve(s) == Serve(Command(s))
  {
  }

  // ---------------------------------------------------------------- exactness

  function ReadAt(s: Boot, a: nat): bv8
    requires s.Valid() && a < |s.device.cells|
  {
    ReadByte(s.device.cells, s.RstVect(), s.WdtVect(), a)
  }

  /** Whatever the RAM holds, a read is right; this needs the vectors to be saved. */
  lemma ReadExact(s: Boot, h: Host, a: nat)
    requires Refines(s, h) && a < |h.mem|
    ensures (h.primed || !IsVector(a)) <==>
            forall ram | Refines(s.(ram := ram), h) :: ReadAt(s.(ram := ram), a) == h.mem[a]
  {
    if h.primed || !IsVector(a) {
      forall ram | Refines(s.(ram := ram), h) ensures ReadAt(s.(ram := ram), a) == h.mem[a] {
        ReadByteAgrees(s.(ram := ram), h, a);
      }
    } else {
      var v := Saved(s.device.page) + if a < 8 then a else a - 6;
      var ram := s.ram[v := h.mem[a] ^ 0xFF];
      OtherByte(h.mem[a]);
      SavedByte(s.(ram := ram), a);
      assert Refines(s.(ram := ram), h);
    }
  }

  lemma OtherByte(b: bv8)
    ensures b ^ 0xFF != b
  {
  }

  /** A read of a vector byte is a read of the RAM. */
  lemma SavedByte(s: Boot, a: nat)
    requires s.Valid() && a < |s.device.cells| && IsVector(a)
    ensures ReadAt(s, a) == s.ram[Saved(s.device.page) + if a < 8 then a else a - 6]
  {
    var v := Saved(s.device.page);
    WordBytes(s.ram[v], s.ram[v + 1]);
    WordBytes(s.ram[v + 2], s.ram[v + 3]);
  }

  /** A program command of `n` bytes for another page keeps the saved vectors, whatever its
      data, exactly when it ends in front of them. */
  lemma LengthExact(s: Boot, h: Host, n: nat, rest: seq<bv8>)
    requires Refines(s, h) && h.primed && h.address > 0 && h.address % h.page == 0
    requires h.address + h.page <= |h.mem| && h.page <= n <= 256
    ensures (forall data: seq<bv8> | |data| == n :: Refines(Programmed(s, data, rest), After(h, Program(data))))
         <==> n <= Saved(h.page)
  {
    hide Agree, Moved, Programmed, After, Word;
    if n <= Saved(h.page) {
      forall data: seq<bv8> | |data| == n ensures Refines(Programmed(s, data, rest), After(h, Program(data))) {
        LaterPageRefines(s, h, data, rest);
      }
    } else {
      var data := seq(n, i => h.mem[0] ^ 0xFF);
      OtherByte(h.mem[0]);
      VectorLost(s, h, data, rest);
    }
  }

  /** The byte that falls on the saved reset vector takes its place. */
  lemma VectorLost(s: Boot, h: Host, data: seq<bv8>, rest: seq<bv8>)
    requires Refines(s, h) && h.address > 0 && h.address % h.page == 0 && h.address + h.page <= |h.mem|
    requires Saved(h.page) < |data| <= 256 && data[Saved(h.page)] != h.mem[0]
    requires h.primed
    ensures Programmed(s, data, rest).Valid() && ReadAt(Programmed(s, data, rest), 0) == data[Saved(h.page)]
    ensures !Refines(Programmed(s, data, rest), After(h, Program(data)))
  {
    var t := Programmed(s, data, rest);
    SavedByte(t, 0);
    LaterPage(h.address, h.page);
    SavedRead(t, After(h, Program(data)));
  }

  lemma SavedRead(t: Boot, h: Host)
    requires t.Valid() && |t.device.cells| > 0 && h.primed && |h.mem| > 0
    ensures Refines(t, h) ==> ReadAt(t, 0) == h.mem[0]
  {
    if Refines(t, h) { ReadByteAgrees(t, h, 0); }
  }

  /** A long command for another page is served like a short one, except for the vectors. */
  lemma LongProgram(s: Boot, h: Host, data: seq<bv8>, rest: seq<bv8>)
    requires Refines(s, h) && h.primed && h.address > 0 && h.address % h.page == 0
    requires h.address + h.page <= |h.mem| && Saved(h.page) < |data| <= 256 && data[Saved(h.page)] != h.mem[0]
    requires s.rx == Encode(Program(data)) + rest
    ensures s.Valid() && Ready(s)
    ensures var t := Command(s);
      && t.rx == rest && t.tx == s.tx + Reply(h, Program(data)) && t.Valid()
      && Refines(t, After(h, Program(data)).(primed := false))
      && |t.device.cells| > 0 && ReadAt(t, 0) == data[Saved(h.page)]
  {
    hide Encode, Command, Ready, Reply, ReadAt, Programmed, Agree, Moved;
    ProgramAligned(s, data, rest);
    ProgramReply(s, h, data, rest);
    VectorLost(s, h, data, rest);
    LaterPageRefines(s, h.(primed := false), data, rest);
  }

  lemma ReadBack(t: Boot, g: Host)
    requires Refines(t, g) && !g.primed && |g.mem| > 0 && t.rx == Encode(Load(0)) + Encode(Read(1))
    ensures t.Valid() && |t.device.cells| > 0
    ensures Serve(t).tx == t.tx + Reply(g, Load(0)) + ([STK_INSYNC] + [ReadAt(t, 0)] + [STK_OK])
  {
    hide Encode, Command, Ready, Reply, Agree, Moved, ReadByte, Word;
    LoadAnswers(t, g, 0, Encode(Read(1)));
    LoadZero(g);
    var u := Command(t);
    assert u.rx == Encode(Read(1)) + [];
    ReadRaw(u, 1, []);
    assert ReadBytes(u.device.cells, u.RstVect(), u.WdtVect(), 0, 1) == [ReadAt(t, 0)];
    ServeStep(t);
    ServeStep(u);
    ServeEnd(Command(u));
  }

  lemma LoadZero(g: Host)
    ensures After(g, Load(0)).address == 0
  {
  }

  lemma ServeEnd(s: Boot)
    requires s.Valid() && s.rx == []
    ensures Serve(s) == s
  {
  }

  /** A run that fails: after page 0 a page command that is too long, then a read of byte 0,
      which answers with a byte of the long command. */
  lemma LongProgramFails(s: Boot, h: Host, data: seq<bv8>)
    requires Refines(s, h) && h.primed && h.address > 0 && h.address % h.page == 0
    requires h.address + h.page <= |h.mem| && Saved(h.page) < |data| <= 256 && data[Saved(h.page)] != h.mem[0]
    requires s.rx == EncodeAll([Program(data), Load(0), Read(1)])
    ensures Serve(s).tx != s.tx + Replies(h, [Program(data), Load(0), Read(1)])
  {
    hide Encode, EncodeAll, Replies, Reply, Command, Ready, Refines, Serve, ReadAt, After;
    var load, read, u := Load(0), Read(1), After(h, Program(data));
    ThreeCommands(h, Program(data), load, read);
    LongProgram(s, h, data, Encode(load) + Encode(read));
    var t := Command(s);
    PageSize(s, h);
    LaterMemory(h, data);
    ReadBack(t, u.(primed := false));
    ServeStep(s);
    Unprimed(u, load);
    Differ(s.tx, Reply(h, Program(data)), Reply(u, load), [STK_INSYNC] + [ReadAt(t, 0)] + [STK_OK],
           Reply(After(u, load), read));
  }

  lemma PageSize(s: Boot, h: Host)
    requires Refines(s, h)
    ensures h.page >= 10
  {
  }

  lemma Unprimed(u: Host, load: Cmd)
    requires load.Load?
    ensures Reply(u.(primed := false), load) == Reply(u, load)
  {
  }

  /** The host expects byte 0 as it was. */
  lemma LaterMemory(h: Host, data: seq<bv8>)
    requires h.page > 0 && h.address > 0 && h.address % h.page == 0 && h.address + h.page <= |h.mem| && h.page <= |data|
    ensures var u := After(h, Program(data));
      && |u.mem| == |h.mem| && u.mem[0] == h.mem[0]
      && Reply(After(u, Load(0)), Read(1)) == [STK_INSYNC] + [h.mem[0]] + [STK_OK]
  {
    LaterPage(h.address, h.page);
    var u := After(h, Program(data));
    LoadZero(u);
    assert u.mem[0..1] == [h.mem[0]];
  }

  lemma Differ(p: seq<bv8>, a: seq<bv8>, b: seq<bv8>, c: seq<bv8>, d: seq<bv8>)
    requires |c| > 1 && |d| > 1 && c[1] != d[1]
    ensures p + a + b + c != p + (a + (b + d))
  {
    var i := |p| + |a| + |b| + 1;
    assert (p + a + b + c)[i] == c[1];
    assert (p + (a + (b + d)))[i] == d[1];
  }

  lemma ThreeCommands(h: Host, a: Cmd, b: Cmd, c: Cmd)
    ensures EncodeAll([a, b, c]) == Encode(a) + (Encode(b) + Encode(c))
    ensures Replies(h, [a, b, c]) == Reply(h, a) + (Reply(After(h, a), b) + Reply(After(After(h, a), b), c))
  {
    hide Encode, Reply, After;
    assert [a, b, c][1..] == [b, c] && [b, c][1..] == [c] && [c][1..] == [];
    assert EncodeAll([b, c]) == Encode(b) + EncodeAll([c]) && EncodeAll([c]) == Encode(c) + EncodeAll([]);
    assert Replies(After(h, a), [b, c]) == Reply(After(h, a), b) + Replies(After(After(h, a), b), [c]);
    assert Replies(After(After(h, a), b), [c]) == Reply(After(After(h, a), b), c) + [];
  }

  // ---------------------------------------------------------------- the moved reset vector

  predicate IsRjmp(insn: bv16) {
    insn & 0xF000 == 0xC000
  }

  /** Where RJMP at word address `at` goes, in a program memory of 4096 words. */
  function RjmpTarget(at: bv16, insn: bv16): bv16 {
    (at + 1 + (insn & 0x0FFF)) & 0x0FFF
  }

  /** Moving a relative jump from word 0 to word 4 works exactly for offsets from 4 on. */
  lemma MoveExact(insn: bv16)
    requires IsRjmp(insn)
    ensures (IsRjmp(insn - 4) && RjmpTarget(4, insn - 4) == RjmpTarget(0, insn)) <==> insn & 0x0FFF >= 4
  {
  }

  /** The word left at the reset vector jumps to byte address 0x1d00. */
  lemma ResetReachesBootloader()
    ensures IsRjmp(Word(0x7f, 0xce)) && RjmpTarget(0, Word(0x7f, 0xce)) << 1 == 0x1d00
  {
  }

  /** After page 0 was programmed, appStart's jump to word 4 goes where the host's reset
      vector goes, and a reset enters the bootloader. */
  lemma AppStartReachesApplication(s: Boot, h: Host)
    requires Refines(s, h) && h.primed && |h.mem| >= 10
    requires IsRjmp(Word(h.mem[0], h.mem[1])) && Word(h.mem[0], h.mem[1]) & 0x0FFF >= 4
    ensures var moved := Word(s.device.cells[8], s.device.cells[9]);
            IsRjmp(moved) && RjmpTarget(4, moved) == RjmpTarget(0, Word(h.mem[0], h.mem[1]))
    ensures RjmpTarget(0, Word(s.device.cells[0], s.device.cells[1])) << 1 == 0x1d00
  {
    MoveExact(Word(h.mem[0], h.mem[1]));
    ResetReachesBootloader();
  }
}
