/** The Firmata protocol, hardware/arduino/libraries/Firmata/Firmata.cpp. `int` is 16 bits wide,
    every callback is attached and each call to one is recorded. */
module FirmataSpec {
  const MAX_DATA_BYTES := 32
  const DIGITAL_MESSAGE := 0x90
  const REPORT_ANALOG := 0xC0
  const REPORT_DIGITAL := 0xD0
  const ANALOG_MESSAGE := 0xE0
  const START_SYSEX := 0xF0
  const SET_PIN_MODE := 0xF4
  const END_SYSEX := 0xF7
  const REPORT_VERSION := 0xF9
  const SYSTEM_RESET := 0xFF
  const STRING_DATA := 0x71
  const REPORT_FIRMWARE := 0x79

  type Byte = b: int | 0 <= b < 0x100

  datatype Event =
    | Analog(channel: int, value: int)
    | Digital(channel: int, value: int)
    | PinMode(pin: int, mode: int)
    | ReportAnalog(channel: int, on: int)
    | ReportDigital(channel: int, on: int)
    | Text(block: seq<Byte>)
    | Sysex(command: int, argc: int, argv: seq<Byte>)
    | Firmware
    | Reset
    | Version

  /** `room` is what `malloc` can still hand out: the blocks for strings are never freed.
      `overrun` marks a write past the end of the input buffer or through a failed allocation;
      what comes after is unknown. */
  datatype Receiver = Receiver(waitForData: nat, execute: int, channel: int, stored: seq<Byte>,
                               parsingSysex: bool, sysexRead: nat, room: nat, overrun: bool, calls: seq<Event>) {
    ghost predicate Valid() {
      |stored| == MAX_DATA_BYTES && waitForData <= 2 && sysexRead <= MAX_DATA_BYTES
    }
  }

  // ---------------------------------------------------------------- receiving a byte

  function Join(hi: int, lo: int): int { hi * 128 + lo }

  function Multi(execute: int, channel: int, stored: seq<Byte>): seq<Event>
    requires |stored| == MAX_DATA_BYTES
  {
    if execute == ANALOG_MESSAGE then [Analog(channel, Join(stored[0], stored[1]))]
    else if execute == DIGITAL_MESSAGE then [Digital(channel, Join(stored[0], stored[1]))]
    else if execute == SET_PIN_MODE then [PinMode(stored[1], stored[0])]
    else if execute == REPORT_ANALOG then [ReportAnalog(channel, stored[0])]
    else if execute == REPORT_DIGITAL then [ReportDigital(channel, stored[0])]
    else []
  }

  /** Each character comes as its low seven bits and the rest. */
  function Chars(stored: seq<Byte>, n: nat): (s: seq<Byte>)
    requires 2 * n < |stored|
    ensures |s| == n
  {
    seq(n, j requires 0 <= j < n => Join(stored[2 * j + 2], stored[2 * j + 1]) % 0x100)
  }

  function TextLength(sysexRead: nat): nat { if sysexRead == 0 then 0 else (sysexRead - 1) / 2 }

  /** `processSysexMessage`. A string is handed over as a pointer to a block of exactly its
      characters, without a terminator and without its length. */
  function SysexCall(r: Receiver): (s: Receiver)
    requires r.Valid()
    ensures s.Valid()
  {
    var n := TextLength(r.sysexRead);
    if r.stored[0] == REPORT_FIRMWARE then r.(calls := r.calls + [Firmware])
    else if r.stored[0] != STRING_DATA
    then r.(calls := r.calls + [Sysex(r.stored[0], (r.sysexRead + 0xFF) % 0x100, r.stored[1..])])
    else if n > r.room then r.(overrun := true)
    else r.(room := r.room - n, calls := r.calls + [Text(Chars(r.stored, n))])
  }

  function SysexByte(r: Receiver, b: Byte): (s: Receiver)
    requires r.Valid()
    ensures s.Valid()
  {
    if b == END_SYSEX then SysexCall(r.(parsingSysex := false))
    else if r.sysexRead == MAX_DATA_BYTES then r.(overrun := true)
    else r.(stored := r.stored[r.sysexRead := b], sysexRead := r.sysexRead + 1)
  }

  function DataByte(r: Receiver, b: Byte): (s: Receiver)
    requires r.Valid() && r.waitForData > 0
    ensures s.Valid()
  {
    var w, stored := r.waitForData - 1, r.stored[r.waitForData - 1 := b];
    if w == 0 && r.execute != 0
    then r.(waitForData := 0, stored := stored, execute := 0,
            calls := r.calls + Multi(r.execute, r.channel, stored))
    else r.(waitForData := w, stored := stored)
  }

  function CommandByte(r: Receiver, b: Byte): (s: Receiver)
    requires r.Valid()
    ensures s.Valid()
  {
    var command := if b < 0xF0 then b - b % 16 else b;
    var q := if b < 0xF0 then r.(channel := b % 16) else r;
    if command == ANALOG_MESSAGE || command == DIGITAL_MESSAGE || command == SET_PIN_MODE
    then q.(waitForData := 2, execute := command)
    else if command == REPORT_ANALOG || command == REPORT_DIGITAL then q.(waitForData := 1, execute := command)
    else if command == START_SYSEX then q.(parsingSysex := true, sysexRead := 0)
    else if command == SYSTEM_RESET
    then q.(waitForData := 0, execute := 0, channel := 0, stored := seq(MAX_DATA_BYTES, i => 0),
            parsingSysex := false, sysexRead := 0, calls := q.calls + [Reset])
    else if command == REPORT_VERSION then q.(calls := q.calls + [Version])
    else q
  }

  function Step(r: Receiver, b: Byte): (s: Receiver)
    requires r.Valid()
    ensures s.Valid()
  {
    if r.overrun then r
    else if r.parsingSysex then SysexByte(r, b)
    else if r.waitForData > 0 && b < 128 then DataByte(r, b)
    else CommandByte(r, b)
  }

  function Feed(r: Receiver, bytes: seq<Byte>): (s: Receiver)
    requires r.Valid()
    ensures s.Valid()
    decreases |bytes|
  {
    if bytes == [] then r else Feed(Step(r, bytes[0]), bytes[1..])
  }

  lemma {:induction false} FeedAppend(r: Receiver, x: seq<Byte>, y: seq<Byte>)
    requires r.Valid()
    ensures Feed(r, x + y) == Feed(Feed(r, x), y)
    decreases |x|
  {
    if x == [] {
      assert x + y == y;
    } else {
      FeedAppend(Step(r, x[0]), x[1..], y);
      assert (x + y)[1..] == x[1..] + y;
    }
  }

  // ---------------------------------------------------------------- sending

  datatype Message =
    | AnalogMessage(pin: Byte, value: int)
    | PortMessage(port: Byte, data: int)
    | TextMessage(text: seq<Byte>)

  function Low7(value: int): Byte { value % 128 }

  function High7(value: int): Byte { value / 128 % 128 }

  function Pairs(chars: seq<Byte>): (s: seq<Byte>)
    ensures |s| == 2 * |chars|
  {
    if chars == [] then []
    else Pairs(chars[..|chars| - 1]) + [Low7(chars[|chars| - 1]), High7(chars[|chars| - 1])]
  }

  /** `(byte)portData % 128` and the low byte of `portData >> 7`. */
  function Encode(m: Message): seq<Byte> {
    match m
    case AnalogMessage(pin, value) => [ANALOG_MESSAGE + pin % 16, Low7(value), High7(value)]
    case PortMessage(port, data) => [DIGITAL_MESSAGE + port % 16, data % 0x100 % 128, data / 128 % 0x100]
    case TextMessage(text) => [START_SYSEX, STRING_DATA] + Pairs(text) + [END_SYSEX]
  }

  function EncodeAll(ms: seq<Message>): seq<Byte> {
    if ms == [] then [] else Encode(ms[0]) + EncodeAll(ms[1..])
  }

  /** The callback that fires: four bits of the pin, fourteen of the value, the characters. */
  function Heard(m: Message): Event {
    match m
    case AnalogMessage(pin, value) => Analog(pin % 16, value % 0x4000)
    case PortMessage(port, data) => Digital(port % 16, data % 0x4000)
    case TextMessage(text) => Text(text)
  }

  function HeardAll(ms: seq<Message>): (es: seq<Event>)
    ensures |es| == |ms| && forall i | 0 <= i < |ms| :: es[i] == Heard(ms[i])
  {
    if ms == [] then [] else [Heard(ms[0])] + HeardAll(ms[1..])
  }

  /** What a sender can check: bit 14 of the port data is clear, the text fits the buffer. */
  predicate Sendable(m: Message) {
    match m
    case AnalogMessage(pin, value) => true
    case PortMessage(port, data) => data % 0x8000 < 0x4000
    case TextMessage(text) => |text| <= 15
  }

  // ---------------------------------------------------------------- one message

  ghost predicate Ready(r: Receiver) { r.Valid() && !r.parsingSysex && !r.overrun }

  lemma Fourteen(value: int)
    ensures Join(High7(value), Low7(value)) == value % 0x4000
  {
    var lo, q := value % 128, value / 128;
    var hi, t := q % 128, q / 128;
    assert value == 0x4000 * t + (128 * hi + lo);
  }

  lemma PortLow(value: int)
    ensures value % 0x100 % 128 == value % 128
  {
    var q, r := value / 0x100, value % 0x100;
    assert value == 128 * (2 * q) + r;
  }

  /** The second byte of a port message is a data byte exactly when bit 14 is clear. */
  lemma PortHigh(value: int)
    ensures value % 0x8000 < 0x4000 <==> value / 128 % 0x100 < 128
    ensures value % 0x8000 < 0x4000 ==> value / 128 % 0x100 == High7(value)
  {
    var lo, q := value % 128, value / 128;
    var b, t := q % 0x100, q / 0x100;
    assert value == 0x8000 * t + (128 * b + lo);
    assert value % 0x8000 == 128 * b + lo;
    assert q == 128 * (2 * t) + b;
  }

  lemma FeedOne(r: Receiver, b: Byte)
    requires r.Valid()
    ensures Feed(r, [b]) == Step(r, b)
  {
    assert [b][1..] == [];
  }

  lemma FeedThree(r: Receiver, x: Byte, y: Byte, z: Byte)
    requires r.Valid()
    ensures Feed(r, [x, y, z]) == Step(Step(Step(r, x), y), z)
  {
    hide Step;
    assert [x, y, z][1..] == [y, z] && [y, z][1..] == [z];
    FeedOne(Step(Step(r, x), y), z);
  }

  /** From any state outside a sysex message, even in the middle of another message, the next
      two-byte message is heard. */
  lemma TwoDataHeard(r: Receiver, command: Byte, lo: Byte, hi: Byte)
    requires Ready(r) && (command / 16 == 14 || command / 16 == 9) && lo < 128 && hi < 128
    ensures var s := Feed(r, [command, lo, hi]);
      var event := if command / 16 == 14 then Analog(command % 16, Join(hi, lo)) else Digital(command % 16, Join(hi, lo));
      Ready(s) && s.calls == r.calls + [event] && s.room == r.room
  {
    FeedThree(r, command, lo, hi);
  }

  /** Two data bytes for the mode of a pin. */
  lemma PinModeHeard(r: Receiver, pin: Byte, mode: Byte)
    requires Ready(r) && pin < 128 && mode < 128
    ensures var s := Feed(r, [0xF4, pin, mode]); Ready(s) && s.calls == r.calls + [PinMode(pin, mode)]
  {
    FeedThree(r, 0xF4, pin, mode);
  }

  /** One data byte to switch reports on or off. */
  lemma ReportHeard(r: Receiver, channel: Byte, on: Byte)
    requires Ready(r) && channel < 16 && on < 128
    ensures var s := Feed(r, [0xC0 + channel, on]); Ready(s) && s.calls == r.calls + [ReportAnalog(channel, on)]
    ensures var s := Feed(r, [0xD0 + channel, on]); Ready(s) && s.calls == r.calls + [ReportDigital(channel, on)]
  {
    FeedTwo(r, 0xC0 + channel, on);
    FeedTwo(r, 0xD0 + channel, on);
  }

  lemma FeedTwo(r: Receiver, x: Byte, y: Byte)
    requires r.Valid()
    ensures Feed(r, [x, y]) == Step(Step(r, x), y)
  {
    hide Step;
    assert [x, y][1..] == [y];
    FeedOne(Step(r, x), y);
  }

  /** The messages of one byte. A reset also forgets a message that has begun. */
  lemma SystemHeard(r: Receiver)
    requires Ready(r)
    ensures Feed(r, [0xF9]).calls == r.calls + [Version]
    ensures var s := Feed(r, [0xFF]); Ready(s) && s.calls == r.calls + [Reset] && s.waitForData == 0 && s.execute == 0
  {
    FeedOne(r, 0xF9);
    FeedOne(r, 0xFF);
  }

  /** Inside any other sysex message, the command and `args` have arrived. */
  ghost predicate Collected(s: Receiver, command: Byte, args: seq<Byte>, r: Receiver) {
    && s.Valid() && s.parsingSysex && !s.overrun && s.calls == r.calls && s.room == r.room
    && s.sysexRead == 1 + |args| && s.stored[0] == command && s.stored[1..1 + |args|] == args
  }

  lemma {:induction false} ArgsCollected(r: Receiver, command: Byte, args: seq<Byte>)
    requires Ready(r) && command != 0xF7 && |args| <= 31 && 0xF7 !in args
    ensures Collected(Feed(r, [0xF0, command] + args), command, args, r)
    decreases |args|
  {
    hide Step, Feed, Collected;
    if args == [] {
      assert [0xF0, command] + args == [0xF0, command];
      FeedTwo(r, 0xF0, command);
      NothingCollected(r, command);
    } else {
      var front, b := args[..|args| - 1], args[|args| - 1];
      ArgsCollected(r, command, front);
      assert [0xF0, command] + args == [0xF0, command] + front + [b];
      FeedAppend(r, [0xF0, command] + front, [b]);
      FeedOne(Feed(r, [0xF0, command] + front), b);
      OneCollected(Feed(r, [0xF0, command] + front), command, front, b, r);
      assert front + [b] == args && b in args;
    }
  }

  lemma NothingCollected(r: Receiver, command: Byte)
    requires Ready(r) && command != 0xF7
    ensures Collected(Step(Step(r, 0xF0), command), command, [], r)
  {
  }

  lemma OneCollected(s: Receiver, command: Byte, front: seq<Byte>, b: Byte, r: Receiver)
    requires Collected(s, command, front, r) && |front| < 31 && b != 0xF7
    ensures Collected(Step(s, b), command, front + [b], r)
  {
  }

  /** A sysex message of a user's own hands over its command and up to 31 bytes. */
  lemma SysexHeard(r: Receiver, command: Byte, args: seq<Byte>)
    requires Ready(r) && command != 0x71 && command != 0x79 && command != 0xF7 && |args| <= 31 && 0xF7 !in args
    ensures var s := Feed(r, [0xF0, command] + args + [0xF7]);
      && Ready(s) && |s.calls| == |r.calls| + 1 && s.calls[..|r.calls|] == r.calls
      && var e := s.calls[|r.calls|];
         e.Sysex? && e.command == command && e.argc == |args| <= |e.argv| && e.argv[..|args|] == args
  {
    ArgsCollected(r, command, args);
    FeedAppend(r, [0xF0, command] + args, [0xF7]);
    FeedOne(Feed(r, [0xF0, command] + args), 0xF7);
  }

  lemma FirmwareHeard(r: Receiver)
    requires Ready(r)
    ensures var s := Feed(r, [0xF0, 0x79, 0xF7]); Ready(s) && s.calls == r.calls + [Firmware]
  {
    FeedThree(r, 0xF0, 0x79, 0xF7);
  }

  /** The messages as they are sent. */
  lemma OnWire()
    ensures Encode(AnalogMessage(3, 0x155)) == [0xE3, 0x55, 0x02]
    ensures Encode(PortMessage(2, 0x155)) == [0x92, 0x55, 0x02]
    ensures Encode(TextMessage([0xC1])) == [0xF0, 0x71, 0x41, 0x01, 0xF7]
  {
    assert [0xC1][..0] == [];
    assert Pairs([0xC1]) == [0x41, 0x01];
  }

  /** A port message whose second byte is a command is not heard. */
  lemma PortNotHeard(r: Receiver, command: Byte, lo: Byte, hi: Byte)
    requires Ready(r) && command / 16 == 9 && lo < 128 <= hi
    ensures var s := Feed(r, [command, lo, hi]);
      s.calls == r.calls || s.calls == r.calls + [Reset] || s.calls == r.calls + [Version]
  {
    FeedThree(r, command, lo, hi);
  }

  // ---------------------------------------------------------------- a string message

  /** Inside a string message, `text` has arrived. */
  ghost predicate Holding(s: Receiver, text: seq<Byte>, r: Receiver) {
    && s.Valid() && s.parsingSysex && !s.overrun && s.calls == r.calls && s.room == r.room
    && s.sysexRead == 1 + 2 * |text| && s.stored[0] == STRING_DATA
    && forall j | 0 <= j < |text| :: Chars(s.stored, |text|)[j] == text[j]
  }

  lemma CharPair(c: Byte)
    ensures Join(High7(c), Low7(c)) % 0x100 == c
  {
    Fourteen(c);
  }

  lemma Opens(r: Receiver)
    requires Ready(r)
    ensures Holding(Feed(r, [START_SYSEX, STRING_DATA]), [], r)
  {
    assert [START_SYSEX, STRING_DATA][1..] == [STRING_DATA];
    FeedOne(Step(r, START_SYSEX), STRING_DATA);
  }

  lemma PairHeld(s: Receiver, text: seq<Byte>, c: Byte, r: Receiver)
    requires Holding(s, text, r) && |text| < 15
    ensures Holding(Feed(s, [Low7(c), High7(c)]), text + [c], r)
  {
    hide Low7, High7, Join;
    var n, lo, hi := |text|, Low7(c), High7(c);
    NotEnd(c);
    assert [lo, hi][1..] == [hi];
    FeedOne(Step(s, lo), hi);
    CharPair(c);
    var t := Feed(s, [lo, hi]);
    assert t.stored == s.stored[2 * n + 1 := lo][2 * n + 2 := hi];
    forall j | 0 <= j < n + 1 ensures Chars(t.stored, n + 1)[j] == (text + [c])[j] {
      if j < n { assert Chars(s.stored, n)[j] == text[j]; }
    }
  }

  lemma NotEnd(c: Byte)
    ensures Low7(c) < 128 && High7(c) < 128
  {
  }

  lemma {:induction false} TextHeld(s: Receiver, text: seq<Byte>, r: Receiver)
    requires Holding(s, [], r) && |text| <= 15
    ensures Holding(Feed(s, Pairs(text)), text, r)
    decreases |text|
  {
    hide Holding;
    if text == [] {
      assert Pairs(text) == [];
    } else {
      var front, c := text[..|text| - 1], text[|text| - 1];
      TextHeld(s, front, r);
      HoldingValid(s, [], r);
      FeedAppend(s, Pairs(front), [Low7(c), High7(c)]);
      PairHeld(Feed(s, Pairs(front)), front, c, r);
      assert text == front + [c];
    }
  }

  lemma HoldingValid(s: Receiver, text: seq<Byte>, r: Receiver)
    requires Holding(s, text, r)
    ensures s.Valid()
  {
  }

  lemma Closes(s: Receiver, text: seq<Byte>, r: Receiver)
    requires Holding(s, text, r) && |text| <= 15
    ensures var t := Feed(s, [END_SYSEX]);
      if |text| <= r.room then Ready(t) && t.calls == r.calls + [Text(text)] && t.room == r.room - |text| else t.overrun
  {
    FeedOne(s, END_SYSEX);
    assert Chars(s.stored, |text|) == text;
  }

  /** A string that fits the buffer fires its callback with its characters as long as there is
      memory for them. */
  lemma TextHeard(r: Receiver, text: seq<Byte>)
    requires Ready(r) && |text| <= 15
    ensures var s := Feed(r, Encode(TextMessage(text)));
      if |text| <= r.room then Ready(s) && s.calls == r.calls + [Text(text)] && s.room == r.room - |text| else s.overrun
  {
    hide Holding, Pairs;
    var open := [START_SYSEX, STRING_DATA];
    FeedAppend(r, open + Pairs(text), [END_SYSEX]);
    FeedAppend(r, open, Pairs(text));
    Opens(r);
    TextHeld(Feed(r, open), text, r);
    Closes(Feed(Feed(r, open), Pairs(text)), text, r);
  }

  /** The sixteenth character does not fit, and nothing after it brings the receiver back. */
  lemma LongTextOverruns(r: Receiver, text: seq<Byte>)
    requires Ready(r) && |text| > 15
    ensures Feed(r, Encode(TextMessage(text))).overrun
  {
    hide Holding, Pairs, Feed, Low7, High7;
    var open, head, c := [START_SYSEX, STRING_DATA], text[..15], text[15];
    var pair, rest := [Low7(c), High7(c)], Pairs(text[16..]) + [END_SYSEX];
    Opens(r);
    TextHeld(Feed(r, open), head, r);
    Sixteenth(Feed(Feed(r, open), Pairs(head)), head, c, r);
    SixteenPairs(text);
    FeedAppend(r, open, Pairs(head) + (pair + rest));
    FeedAppend(Feed(r, open), Pairs(head), pair + rest);
    FeedAppend(Feed(Feed(r, open), Pairs(head)), pair, rest);
    Stuck(Feed(Feed(Feed(r, open), Pairs(head)), pair), rest);
  }

  lemma SixteenPairs(text: seq<Byte>)
    requires |text| > 15
    ensures Encode(TextMessage(text)) == [START_SYSEX, STRING_DATA]
      + (Pairs(text[..15]) + ([Low7(text[15]), High7(text[15])] + (Pairs(text[16..]) + [END_SYSEX])))
  {
    hide Pairs, Low7, High7;
    PairsSplit(text, 16);
    PairsSplit(text[..16], 15);
    assert text[..16][..15] == text[..15] && text[..16][15..] == [text[15]];
    PairsOne(text[15]);
    Regroup([START_SYSEX, STRING_DATA], Pairs(text[..15]), Pairs([text[15]]), Pairs(text[16..]), [END_SYSEX]);
  }

  lemma Regroup(a: seq<Byte>, b: seq<Byte>, c: seq<Byte>, d: seq<Byte>, e: seq<Byte>)
    ensures a + (b + c + d) + e == a + (b + (c + (d + e)))
  {
  }

  lemma Sixteenth(s: Receiver, head: seq<Byte>, c: Byte, r: Receiver)
    requires Holding(s, head, r) && |head| == 15
    ensures Feed(s, [Low7(c), High7(c)]).overrun
  {
    NotEnd(c);
    assert [Low7(c), High7(c)][1..] == [High7(c)];
    FeedOne(Step(s, Low7(c)), High7(c));
  }

  lemma {:induction false} Stuck(r: Receiver, bytes: seq<Byte>)
    requires r.Valid() && r.overrun
    ensures Feed(r, bytes) == r
    decreases |bytes|
  {
    if bytes != [] { Stuck(r, bytes[1..]); }
  }

  lemma {:induction false} PairsSplit(text: seq<Byte>, n: nat)
    requires n <= |text|
    ensures Pairs(text) == Pairs(text[..n]) + Pairs(text[n..])
    decreases |text|
  {
    hide Low7, High7, Pairs;
    if n == |text| {
      assert text[..n] == text && text[n..] == [];
      PairsNone(text);
    } else {
      var front, last := text[..|text| - 1], text[|text| - 1];
      PairsSplit(front, n);
      assert front[..n] == text[..n];
      PairsSnoc(front[n..], last);
      PairsSnoc(front, last);
      assert text == front + [last];
      assert text[n..] == front[n..] + [last];
    }
  }

  lemma PairsNone(text: seq<Byte>)
    ensures Pairs([]) == [] && Pairs(text) + [] == Pairs(text)
  {
  }

  lemma PairsSnoc(text: seq<Byte>, c: Byte)
    ensures Pairs(text + [c]) == Pairs(text) + [Low7(c), High7(c)]
  {
    assert (text + [c])[..|text + [c]| - 1] == text;
  }

  lemma PairsOne(c: Byte)
    ensures Pairs([c]) == [Low7(c), High7(c)]
  {
    assert [c][..0] == [];
  }

  // ---------------------------------------------------------------- any messages

  /** The memory a message uses up. */
  function Size(m: Message): nat { if m.TextMessage? then |m.text| else 0 }

  function Sizes(ms: seq<Message>): nat { if ms == [] then 0 else Size(ms[0]) + Sizes(ms[1..]) }

  /** A message that starts outside a sysex message fires its callback, and leaves the receiver
      there, exactly when it is sendable and there is memory for it. */
  lemma HeardExact(r: Receiver, m: Message)
    requires Ready(r)
    ensures var s := Feed(r, Encode(m));
      Ready(s) && s.calls == r.calls + [Heard(m)] && s.room == r.room - Size(m) <==> Sendable(m) && Size(m) <= r.room
    ensures Sendable(m) && Size(m) > r.room ==> Feed(r, Encode(m)).overrun
  {
    match m
    case AnalogMessage(pin, value) =>
      TwoDataHeard(r, ANALOG_MESSAGE + pin % 16, Low7(value), High7(value));
      Fourteen(value);
    case PortMessage(port, data) =>
      PortExact(r, port, data);
    case TextMessage(text) =>
      if |text| <= 15 { TextHeard(r, text); } else { LongTextOverruns(r, text); }
  }

  lemma PortExact(r: Receiver, port: Byte, data: int)
    requires Ready(r)
    ensures var m := PortMessage(port, data); var s := Feed(r, Encode(m));
      Ready(s) && s.calls == r.calls + [Heard(m)] && s.room == r.room <==> Sendable(m)
  {
    hide Feed, Low7, High7;
    var command, lo, hi := DIGITAL_MESSAGE + port % 16, data % 0x100 % 128, data / 128 % 0x100;
    PortLow(data);
    PortHigh(data);
    Fourteen(data);
    LowIs(data);
    var s := Feed(r, [command, lo, hi]);
    assert Encode(PortMessage(port, data)) == [command, lo, hi];
    if hi < 128 {
      TwoDataHeard(r, command, lo, hi);
    } else {
      PortNotHeard(r, command, lo, hi);
      assert (r.calls + [Heard(PortMessage(port, data))])[|r.calls|] == Heard(PortMessage(port, data));
    }
  }

  lemma LowIs(value: int)
    ensures Low7(value) == value % 128
  {
  }

  /** Sendable messages, one after the other, fire their callbacks in order with their values
      exactly as long as the memory lasts. */
  lemma {:induction false} AllHeard(r: Receiver, ms: seq<Message>)
    requires Ready(r) && forall i | 0 <= i < |ms| :: Sendable(ms[i])
    ensures var s := Feed(r, EncodeAll(ms));
      && (Sizes(ms) <= r.room ==> Ready(s) && s.calls == r.calls + HeardAll(ms))
      && (Sizes(ms) > r.room ==> s.overrun)
    decreases |ms|
  {
    hide Encode, Heard, Size, Sendable, Feed, EncodeAll, HeardAll, Sizes;
    if ms == [] {
      NoMessages(r);
    } else {
      HeadMessage(ms);
      HeardExact(r, ms[0]);
      FeedAppend(r, Encode(ms[0]), EncodeAll(ms[1..]));
      var s := Feed(r, Encode(ms[0]));
      if Size(ms[0]) <= r.room {
        AllHeard(s, ms[1..]);
        Assoc(r.calls, [Heard(ms[0])], HeardAll(ms[1..]));
      } else {
        Stuck(s, EncodeAll(ms[1..]));
      }
    }
  }

  lemma NoMessages(r: Receiver)
    requires Ready(r)
    ensures Feed(r, EncodeAll([])) == r && HeardAll([]) == [] && Sizes([]) == 0
  {
  }

  lemma HeadMessage(ms: seq<Message>)
    requires ms != []
    ensures EncodeAll(ms) == Encode(ms[0]) + EncodeAll(ms[1..]) && HeardAll(ms) == [Heard(ms[0])] + HeardAll(ms[1..])
    ensures Sizes(ms) == Size(ms[0]) + Sizes(ms[1..])
  {
  }

  lemma Assoc(a: seq<Event>, b: seq<Event>, c: seq<Event>)
    ensures a + b + c == a + (b + c)
  {
  }

  // ---------------------------------------------------------------- reading a string

  /** What C reads at the start of some memory. */
  function CString(memory: seq<Byte>): (s: seq<Byte>)
    ensures |s| <= |memory| && s == memory[..|s|] && 0 !in s && (|s| < |memory| ==> memory[|s|] == 0)
  {
    if memory == [] || memory[0] == 0 then [] else [memory[0]] + CString(memory[1..])
  }

  /** What a callback makes of its argument when `heap` comes behind the block in memory. */
  function Listen(e: Event, heap: seq<Byte>): Event {
    if e.Text? then Text(CString(e.block + heap)) else e
  }

  function ListenAll(es: seq<Event>, heaps: seq<seq<Byte>>): (s: seq<Event>)
    requires |es| == |heaps|
    ensures |s| == |es| && forall i | 0 <= i < |s| :: s[i] == Listen(es[i], heaps[i])
  {
    seq(|es|, i requires 0 <= i < |es| => Listen(es[i], heaps[i]))
  }

  /** The value the sender had in mind: of a string, the C string. */
  function Meant(m: Message): Event {
    if m.TextMessage? then Text(CString(m.text)) else Heard(m)
  }

  lemma CStringStops(text: seq<Byte>, heap: seq<Byte>)
    requires 0 in text
    ensures CString(text + heap) == CString(text)
  {
    SameCString(text + heap, CString(text));
  }

  /** The C string at the start of memory is the part before the first NUL. */
  lemma {:induction false} SameCString(memory: seq<Byte>, s: seq<Byte>)
    requires |s| < |memory| && memory[..|s|] == s && 0 !in s && memory[|s|] == 0
    ensures CString(memory) == s
    decreases |s|
  {
    if s != [] {
      assert memory[0] == s[0] && memory[1..][..|s| - 1] == s[1..];
      SameCString(memory[1..], s[1..]);
    }
  }

  lemma {:induction false} CStringWhole(text: seq<Byte>)
    requires 0 !in text
    ensures CString(text) == text
    decreases |text|
  {
    if text != [] { CStringWhole(text[1..]); }
  }

  lemma NoNulRunsOn(text: seq<Byte>)
    requires 0 !in text
    ensures CString(text) == text && CString(text + [1]) == text + [1]
  {
    CStringWhole(text);
    CStringWhole(text + [1]);
  }

  /** What a callback reads is the string that was sent, whatever the heap holds, exactly when
      the characters sent include a NUL. */
  lemma ListenExact(m: Message)
    ensures (forall heap: seq<Byte> :: Listen(Heard(m), heap) == Meant(m)) <==> (m.TextMessage? ==> 0 in m.text)
  {
    if m.TextMessage? {
      if 0 in m.text {
        forall heap: seq<Byte> ensures Listen(Heard(m), heap) == Meant(m) { CStringStops(m.text, heap); }
      } else {
        NoNulRunsOn(m.text);
        assert Listen(Heard(m), [1]) != Meant(m);
      }
    }
  }

  function MeantAll(ms: seq<Message>): (es: seq<Event>)
    ensures |es| == |ms| && forall i | 0 <= i < |ms| :: es[i] == Meant(ms[i])
  {
    seq(|ms|, i requires 0 <= i < |ms| => Meant(ms[i]))
  }

  ghost predicate Terminated(ms: seq<Message>) {
    forall i | 0 <= i < |ms| && ms[i].TextMessage? :: 0 in ms[i].text
  }

  /** All messages are heard with the values that were meant, whatever the heap holds at each
      callback, exactly when every string includes a NUL. */
  lemma AllMeantExact(ms: seq<Message>)
    ensures (forall heaps: seq<seq<Byte>> | |heaps| == |ms| :: ListenAll(HeardAll(ms), heaps) == MeantAll(ms))
       <==> Terminated(ms)
  {
    hide Listen, Heard, Meant, CString, HeardAll, ListenAll;
    if Terminated(ms) {
      forall heaps: seq<seq<Byte>> | |heaps| == |ms| ensures ListenAll(HeardAll(ms), heaps) == MeantAll(ms) {
        forall i | 0 <= i < |ms| ensures Listen(Heard(ms[i]), heaps[i]) == Meant(ms[i]) { ListenOne(ms[i], heaps[i]); }
      }
    } else {
      var i :| 0 <= i < |ms| && ms[i].TextMessage? && 0 !in ms[i].text;
      var heaps := seq(|ms|, _ => [1]);
      ListenOther(ms[i]);
      assert ListenAll(HeardAll(ms), heaps)[i] != MeantAll(ms)[i];
    }
  }

  lemma ListenOne(m: Message, heap: seq<Byte>)
    requires m.TextMessage? ==> 0 in m.text
    ensures Listen(Heard(m), heap) == Meant(m)
  {
    ListenExact(m);
  }

  lemma ListenOther(m: Message)
    requires m.TextMessage? && 0 !in m.text
    ensures Listen(Heard(m), [1]) != Meant(m)
  {
    NoNulRunsOn(m.text);
  }

  /** `sendString` measures a C string and sends what is before its NUL, with the count in
      eight bits, so the callback never gets a string it can read. */
  function Measured(memory: seq<Byte>): (s: seq<Byte>)
    ensures |s| < 0x100
  {
    CString(memory)[..|CString(memory)| % 0x100]
  }

  lemma SendStringUnread(memory: seq<Byte>)
    ensures !forall heap: seq<Byte> :: Listen(Heard(TextMessage(Measured(memory))), heap) == Text(Measured(memory))
  {
    var text := Measured(memory);
    assert 0 !in text;
    NoNulRunsOn(text);
    assert Listen(Heard(TextMessage(text)), [1]) != Text(text);
  }
}

module Firmata {
  import opened FirmataSpec

  class FirmataClass {
    const storedInputData: array<Byte>
    var waitForData: nat
    var executeMultiByteCommand: int
    var multiByteChannel: int
    var parsingSysex: bool
    var sysexBytesRead: nat
    var room: nat
    var overrun: bool
    var calls: seq<Event>
    var sent: seq<Byte>

    ghost predicate Valid()
      reads this
    {
      storedInputData.Length == MAX_DATA_BYTES && waitForData <= 2 && sysexBytesRead <= MAX_DATA_BYTES
    }

    ghost function View(): (r: Receiver)
      requires Valid()
      reads this, storedInputData
      ensures r.Valid()
    {
      Receiver(waitForData, executeMultiByteCommand, multiByteChannel, storedInputData[..], parsingSysex,
               sysexBytesRead, room, overrun, calls)
    }

    constructor (room: nat)
      ensures Valid() && fresh(storedInputData) && Ready(View()) && calls == [Reset] && sent == [] && this.room == room
    {
      this.room := room;
      storedInputData := new Byte[MAX_DATA_BYTES](i => 0);
      waitForData, executeMultiByteCommand, multiByteChannel := 0, 0, 0;
      parsingSysex, sysexBytesRead, overrun, calls, sent := false, 0, false, [Reset], [];
    }

    /** `malloc`: false when there is no block of this size any more. */
    method Malloc(n: nat) returns (ok: bool)
      modifies `room
      ensures ok == (n <= old(room)) && room == if ok then old(room) - n else old(room)
    {
      ok := n <= room;
      if ok { room := room - n; }
    }

    method ProcessSysexMessage()
      requires Valid()
      modifies `calls, `room, `overrun
      ensures Valid() && View() == SysexCall(old(View()))
    {
      if storedInputData[0] == REPORT_FIRMWARE {
        calls := calls + [Firmware];
      } else if storedInputData[0] == STRING_DATA {
        var bufferLength := if sysexBytesRead == 0 then 0 else (sysexBytesRead - 1) / 2;
        var ok := Malloc(bufferLength);
        if !ok {
          overrun := true;
          return;
        }
        var buffer := ReadPairs(bufferLength);
        calls := calls + [Text(buffer)];
      } else {
        calls := calls + [Sysex(storedInputData[0], (sysexBytesRead + 0xFF) % 0x100, storedInputData[1..])];
      }
    }

    method ReadPairs(bufferLength: nat) returns (buffer: seq<Byte>)
      requires Valid() && 2 * bufferLength < MAX_DATA_BYTES
      ensures buffer == Chars(storedInputData[..], bufferLength)
    {
      var i, j := 1, 0;
      buffer := [];
      while j < bufferLength
        invariant j <= bufferLength && i == 2 * j + 1
        invariant buffer == Chars(storedInputData[..], j)
      {
        var lo: int, hi: int := storedInputData[i], storedInputData[i + 1];
        assert Chars(storedInputData[..], j + 1) == Chars(storedInputData[..], j) + [Join(hi, lo) % 0x100];
        buffer := buffer + [(lo + hi * 128) % 0x100];
        i, j := i + 2, j + 1;
      }
    }

    method SystemReset()
      requires Valid()
      modifies `waitForData, `executeMultiByteCommand, `multiByteChannel, `parsingSysex, `sysexBytesRead, `calls,
        storedInputData
      ensures Valid() && waitForData == 0 && executeMultiByteCommand == 0 && multiByteChannel == 0
      ensures storedInputData[..] == seq(MAX_DATA_BYTES, i => 0) && !parsingSysex && sysexBytesRead == 0
      ensures calls == old(calls) + [Reset]
    {
      waitForData, executeMultiByteCommand, multiByteChannel := 0, 0, 0;
      for i := 0 to MAX_DATA_BYTES
        invariant forall j | 0 <= j < i :: storedInputData[j] == 0
        invariant waitForData == 0 && executeMultiByteCommand == 0 && multiByteChannel == 0 && calls == old(calls)
      {
        storedInputData[i] := 0;
      }
      parsingSysex, sysexBytesRead := false, 0;
      calls := calls + [Reset];
    }

    /** One byte that is there to read. Writing past the buffer is undefined behaviour; the model
        notes it and stops. */
    method ProcessInput(inputData: Byte)
      requires Valid()
      modifies `waitForData, `executeMultiByteCommand, `multiByteChannel, `parsingSysex, `sysexBytesRead, `room, `overrun,
        `calls, storedInputData
      ensures Valid() && View() == Step(old(View()), inputData)
    {
      if overrun {
      } else if parsingSysex {
        SysexData(inputData);
      } else if waitForData > 0 && inputData < 128 {
        MessageData(inputData);
      } else {
        Command(inputData);
      }
    }

    method SysexData(inputData: Byte)
      requires Valid()
      modifies `parsingSysex, `sysexBytesRead, `room, `overrun, `calls, storedInputData
      ensures Valid() && View() == SysexByte(old(View()), inputData)
    {
      if inputData == END_SYSEX {
        parsingSysex := false;
        ProcessSysexMessage();
      } else if sysexBytesRead == MAX_DATA_BYTES {
        overrun := true;
      } else {
        storedInputData[sysexBytesRead] := inputData;
        sysexBytesRead := sysexBytesRead + 1;
      }
    }

    method MessageData(inputData: Byte)
      requires Valid() && waitForData > 0
      modifies `waitForData, `executeMultiByteCommand, `calls, storedInputData
      ensures Valid() && View() == DataByte(old(View()), inputData)
    {
      waitForData := waitForData - 1;
      storedInputData[waitForData] := inputData;
      if waitForData == 0 && executeMultiByteCommand != 0 {
        if executeMultiByteCommand == ANALOG_MESSAGE {
          calls := calls + [Analog(multiByteChannel, Join(storedInputData[0], storedInputData[1]))];
        } else if executeMultiByteCommand == DIGITAL_MESSAGE {
          calls := calls + [Digital(multiByteChannel, Join(storedInputData[0], storedInputData[1]))];
        } else if executeMultiByteCommand == SET_PIN_MODE {
          calls := calls + [PinMode(storedInputData[1], storedInputData[0])];
        } else if executeMultiByteCommand == REPORT_ANALOG {
          calls := calls + [ReportAnalog(multiByteChannel, storedInputData[0])];
        } else if executeMultiByteCommand == REPORT_DIGITAL {
          calls := calls + [ReportDigital(multiByteChannel, storedInputData[0])];
        }
        executeMultiByteCommand := 0;
      }
    }

    method Command(inputData: Byte)
      requires Valid()
      modifies `waitForData, `executeMultiByteCommand, `multiByteChannel, `parsingSysex, `sysexBytesRead, `calls,
        storedInputData
      ensures Valid() && View() == CommandByte(old(View()), inputData)
    {
      var command: int := inputData;
      if inputData < 0xF0 {
        command := inputData - inputData % 16;
        multiByteChannel := inputData % 16;
      }
      if command == ANALOG_MESSAGE || command == DIGITAL_MESSAGE || command == SET_PIN_MODE {
        waitForData, executeMultiByteCommand := 2, command;
      } else if command == REPORT_ANALOG || command == REPORT_DIGITAL {
        waitForData, executeMultiByteCommand := 1, command;
      } else if command == START_SYSEX {
        parsingSysex, sysexBytesRead := true, 0;
      } else if command == SYSTEM_RESET {
        SystemReset();
      } else if command == REPORT_VERSION {
        calls := calls + [Version];
      }
    }

    // -------------------------------------------------------------- sending

    method SendValueAsTwo7bitBytes(value: int)
      modifies `sent
      ensures sent == old(sent) + [Low7(value), High7(value)]
    {
      sent := sent + [value % 128];
      sent := sent + [value / 128 % 128];
    }

    method SendAnalog(pin: Byte, value: int)
      modifies `sent
      ensures sent == old(sent) + Encode(AnalogMessage(pin, value))
    {
      sent := sent + [ANALOG_MESSAGE + pin % 16];
      SendValueAsTwo7bitBytes(value);
    }

    method SendDigitalPort(portNumber: Byte, portData: int)
      modifies `sent
      ensures sent == old(sent) + Encode(PortMessage(portNumber, portData))
    {
      sent := sent + [DIGITAL_MESSAGE + portNumber % 16];
      sent := sent + [portData % 0x100 % 128];
      sent := sent + [portData / 128 % 0x100];
    }

    method SendSysex(command: Byte, bytev: seq<Byte>)
      requires |bytev| < 0x100
      modifies `sent
      ensures sent == old(sent) + [START_SYSEX, command] + Pairs(bytev) + [END_SYSEX]
    {
      sent := sent + [START_SYSEX] + [command];
      var i := 0;
      while i < |bytev|
        invariant i <= |bytev| && sent == old(sent) + [START_SYSEX, command] + Pairs(bytev[..i])
      {
        assert bytev[..i + 1][..i] == bytev[..i];
        SendValueAsTwo7bitBytes(bytev[i]);
        i := i + 1;
      }
      assert bytev[..i] == bytev;
      sent := sent + [END_SYSEX];
    }

    /** The count of a long string is cut to eight bits. */
    method SendString(memory: seq<Byte>)
      requires 0 in memory
      modifies `sent
      ensures sent == old(sent) + Encode(TextMessage(Measured(memory)))
    {
      var n := StrLen(memory);
      assert memory[..n][..n % 0x100] == memory[..n % 0x100];
      SendSysex(STRING_DATA, memory[..n % 0x100]);
    }

    method StrLen(memory: seq<Byte>) returns (n: nat)
      requires 0 in memory
      ensures n <= |memory| && memory[..n] == CString(memory)
    {
      n := 0;
      while memory[n] != 0
        invariant n < |memory| && 0 !in memory[..n] && 0 in memory[n..]
        decreases |memory| - n
      {
        assert memory[..n + 1] == memory[..n] + [memory[n]] && memory[n..] == [memory[n]] + memory[n + 1..];
        n := n + 1;
      }
      SameCString(memory, memory[..n]);
    }
  }
}
