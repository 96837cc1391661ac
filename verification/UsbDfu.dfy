/** The USB DFU bootloader, hardware/arduino/firmwares/arduino-usbdfu/Arduino-usbdfu.c. The
    control endpoint is a queue of packets. */
module UsbDfuSpec {
  import opened Arithmetic
  import opened AvrFlash
  import opened PagedBlock

  const PACKET := 32
  const FILLER := 26
  const SUFFIX := 16

  const PROG_START: bv8 := 0x01
  const DISP_DATA: bv8 := 0x03
  const WRITE: bv8 := 0x04
  const CHANGE_BASE_ADDR: bv8 := 0x06

  type Packets = seq<seq<bv8>>

  function Flat(packets: Packets): seq<bv8> {
    if packets == [] then [] else packets[0] + Flat(packets[1..])
  }

  lemma {:induction false} FlatSnoc(packets: Packets, last: seq<bv8>)
    ensures Flat(packets + [last]) == Flat(packets) + last
  {
    if packets == [] {
      assert [last][1..] == [];
    } else {
      FlatSnoc(packets[1..], last);
      assert (packets + [last])[1..] == packets[1..] + [last];
    }
  }

  /** Flash is read in words, so a packet of words never splits one. */
  ghost predicate WordPackets(packets: Packets) {
    forall i | 0 <= i < |packets| :: |packets[i]| > 0 && |packets[i]| % 2 == 0
  }

  // ---------------------------------------------------------------- throwing bytes away

  datatype Endpoint = Endpoint(packet: seq<bv8>, pending: Packets) {
    function Rest(): seq<bv8> { packet + Flat(pending) }

    ghost predicate Words() { |packet| % 2 == 0 && WordPackets(pending) }
  }

  /** What reading a word leaves of an endpoint, in its packet or in the next one. */
  lemma NextWord(e: Endpoint)
    requires e.Words()
    ensures e.packet == [] && e.pending == [] ==> e.Rest() == []
    ensures e.packet == [] && e.pending != [] ==>
      var f := Endpoint(e.pending[0], e.pending[1..]); f.Words() && f.Rest() == e.Rest() && f.packet != []
    ensures e.packet != [] ==>
      |e.packet| >= 2 && e.(packet := e.packet[2..]).Words()
      && e.Rest() == [e.packet[0], e.packet[1]] + e.(packet := e.packet[2..]).Rest()
  {
    if e.packet != [] {
      assert e.packet == [e.packet[0], e.packet[1]] + e.packet[2..];
    }
  }

  /** `DiscardFillerBytes`: fetching the next packet counts as a byte thrown away. */
  function Discard(e: Endpoint, n: nat): Endpoint
    decreases n
  {
    if n == 0 then e
    else if |e.packet| > 0 then Discard(e.(packet := e.packet[1..]), n - 1)
    else if e.pending == [] then e
    else Discard(Endpoint(e.pending[0], e.pending[1..]), n - 1)
  }

  lemma {:induction false} DiscardWithin(e: Endpoint, n: nat)
    requires n <= |e.packet|
    ensures Discard(e, n) == e.(packet := e.packet[n..])
    decreases n
  {
    if n > 0 { DiscardWithin(e.(packet := e.packet[1..]), n - 1); }
  }

  /** At a packet boundary one byte too few is thrown away, so the first byte left over is
      the right one exactly when there was nothing to throw away. */
  lemma DiscardAtBoundary(e: Endpoint, n: nat)
    requires e.packet == [] && e.pending != [] && n <= |e.pending[0]|
    ensures Discard(e, n).Rest() == e.Rest()[if n == 0 then 0 else n - 1..]
    ensures Discard(e, n).Rest() == e.Rest()[n..] <==> n == 0
  {
    if n > 0 {
      DiscardWithin(Endpoint(e.pending[0], e.pending[1..]), n - 1);
      assert |e.Rest()| >= n;
    }
  }

  // ---------------------------------------------------------------- the payload

  /** The first `n` bytes of the stream; 0xFF stands for what never arrives. */
  function Supplied(stream: seq<bv8>, n: nat): (s: seq<bv8>)
    ensures |s| == n && (n <= |stream| ==> s == stream[..n])
  {
    (stream + Blank(n))[..n]
  }

  /** `((EndAddr - StartAddr) + 1) >> 1` in 16 bits. */
  function WordCount(start: nat, end: nat): nat {
    (end + 0x1_0000 - start + 1) % 0x1_0000 / 2
  }

  /** Both ends are included; all bytes are counted exactly when they are whole words and not the
      whole 64 KB, whose length is 0 in 16 bits. */
  lemma InclusiveCount(start: nat, end: nat)
    requires start <= end < 0x1_0000
    ensures 2 * WordCount(start, end) == end - start + 1 <==> (end - start) % 2 == 1 && end - start != 0xFFFF
    ensures 2 * WordCount(start, end) == end - start + 1 <==> Whole(start, end)
  {
  }

  /** A range of whole words with both ends included, but not the whole 64 KB. */
  predicate Whole(start: nat, end: nat) {
    start <= end < 0x1_0000 && (end - start) % 2 == 1 && end - start != 0xFFFF
  }

  lemma WholeCount(start: nat, end: nat)
    ensures Whole(start, end) ==> start <= end && 2 * WordCount(start, end) == end - start + 1
  {
    if Whole(start, end) { InclusiveCount(start, end); }
  }

  function BigEndian(hi: bv8, lo: bv8): (n: nat)
    ensures n < 0x1_0000
  {
    hi as nat * 256 + lo as nat
  }

  function LittleEndian(n: nat): (s: seq<bv8>)
    requires n < 0x1_0000
    ensures |s| == 2
  {
    [(n % 256) as bv8, (n / 256) as bv8]
  }

  lemma LittleEndianBytes()
    ensures LittleEndian(0x1234) == [0x34, 0x12] && LittleEndian(0xFE03) == [0x03, 0xFE]
  {
  }

  /** Where the least byte of `cells[k..n]` that is not 0xFF stands, or `n`. */
  function FirstUsed(cells: seq<bv8>, n: nat): (k: nat)
    requires n <= |cells|
    ensures k <= n && (forall i | 0 <= i < k :: cells[i] == 0xFF) && (k < n ==> cells[k] != 0xFF)
  {
    if n == 0 then 0
    else
      var k := FirstUsed(cells, n - 1);
      if k < n - 1 || cells[n - 1] != 0xFF then k else n
  }

  /** The least address that is not blank is the only answer to the question. */
  lemma FirstUsedLeast(cells: seq<bv8>, n: nat, k: nat)
    requires n <= |cells| && k <= n
    requires (forall i | 0 <= i < k :: cells[i] == 0xFF) && (k < n ==> cells[k] != 0xFF)
    ensures FirstUsed(cells, n) == k
  {
  }

  /** The application section after an erase: the write that follows each erase stores what
      the temporary buffer held, which is blank from the second page on. */
  function EraseImage(cells: seq<bv8>, temp: seq<bv8>, boot: nat): (r: seq<bv8>)
    requires boot <= |cells|
    ensures |r| == |cells|
  {
    seq(|cells|, i requires 0 <= i < |cells| =>
      if i >= boot then cells[i] else if i < |temp| then temp[i] else 0xFF)
  }

  lemma EraseStep(cells: seq<bv8>, temp: seq<bv8>, d: Device, a: nat, boot: nat)
    requires d.Valid() && a % d.page == 0 && boot % d.page == 0 && a < boot <= |d.cells| == |cells| && |temp| == d.page
    requires d.temp == if a == 0 then temp else Blank(d.page)
    requires d.cells == EraseImage(cells, temp, a)
    ensures a + d.page <= boot && (a + d.page) % d.page == 0
    ensures d.Erase(a).Write(a).cells == EraseImage(cells, temp, a + d.page)
  {
    hide EraseImage, Place, Device.Erase, Device.Write;
    PageFits(a, boot, d.page);
    NextPage(a, d.page);
    EraseAligned(d, a, a);
    BlankPlaced(d.cells, a, d.page);
    WriteErased(d.Erase(a), a, a) by { EraseKeeps(d, a); }
    EraseKeeps(d, a);
    PlaceOver(d.cells, a, Blank(d.page), d.temp);
    PageUp(a, d.page);
    ImageGrows(cells, temp, a, d.temp);
  }

  lemma EraseKeeps(d: Device, a: nat)
    requires d.Valid() && a < |d.cells|
    ensures d.Erase(a).temp == d.temp && d.Erase(a).page == d.page && d.Erase(a).Valid()
  {
  }

  lemma ImageGrows(cells: seq<bv8>, temp: seq<bv8>, a: nat, next: seq<bv8>)
    requires a + |temp| <= |cells| && |next| == |temp| && (a == 0 || a >= |temp|)
    requires next == if a == 0 then temp else Blank(|temp|)
    ensures Place(EraseImage(cells, temp, a), a, next) == EraseImage(cells, temp, a + |temp|)
  {
  }

  lemma PageUp(a: nat, p: nat)
    requires p > 0 && a % p == 0
    ensures a == 0 || a >= p
  {
  }

  /** The blank check passes after an erase exactly when no half-loaded page was left behind. */
  lemma BlankAfterErase(cells: seq<bv8>, temp: seq<bv8>, boot: nat)
    requires |temp| <= boot <= |cells|
    ensures FirstUsed(EraseImage(cells, temp, boot), boot) == boot <==> temp == Blank(|temp|)
  {
    var image := EraseImage(cells, temp, boot);
    var k := FirstUsed(image, boot);
    if temp == Blank(|temp|) {
      FirstUsedLeast(image, boot, boot);
    } else {
      var i :| 0 <= i < |temp| && temp[i] != 0xFF;
      assert image[i] == temp[i];
    }
  }

  // ---------------------------------------------------------------- a request to write flash

  /** The packets of a request to write flash words: the command with its filler bytes fills
      the first packet, the payload starts with the second one. */
  ghost predicate FlashDownload(packets: Packets, d: Device, flashPage: nat) {
    && packets != [] && |packets[0]| == PACKET && packets[0][0] == PROG_START && packets[0][1] == 0
    && WordPackets(packets[1..])
    && var start, end := BigEndian(packets[0][2], packets[0][3]), BigEndian(packets[0][4], packets[0][5]);
       var a, n := flashPage * 0x1_0000 + start, 2 * WordCount(start, end);
    && d.page > 0 && a % d.page == 0 && 0 < n <= |Flat(packets[1..])| && a + n <= |d.cells|
  }

  ghost function DownloadJob(packets: Packets, d: Device, flashPage: nat): Job
    requires packets != [] && |packets[0]| >= 6
  {
    var start, end := BigEndian(packets[0][2], packets[0][3]), BigEndian(packets[0][4], packets[0][5]);
    Job(d.cells, flashPage * 0x1_0000 + start, Supplied(Flat(packets[1..]), 2 * WordCount(start, end)), d.page, d.temp)
  }

  lemma FirstErase(packets: Packets, d: Device, flashPage: nat)
    requires d.Valid() && FlashDownload(packets, d, flashPage)
    ensures var job := DownloadJob(packets, d, flashPage);
      job.Valid() && job.a < |d.cells| && Open(job, d.Erase(job.a), 0, 0)
  {
    hide BigEndian, WordCount, Supplied, Flat, Device.Erase, Device.Valid, Open, Job.Valid;
    var job := DownloadJob(packets, d, flashPage);
    assert |job.data| % 2 == 0 && |job.data| > 0;
    FreshJob(job, d);
  }

  lemma FreshJob(job: Job, d: Device)
    requires d.Valid() && d.temp == job.left && job.cells == d.cells && job.p == d.page && job.a % job.p == 0
    requires 0 < |job.data| && |job.data| % 2 == 0 && job.a + |job.data| <= |job.cells|
    ensures job.Valid() && job.a < |d.cells| && Open(job, d.Erase(job.a), 0, 0)
  {
    hide Padded, Device.Erase;
    FullLength(job);
    PaddedFits(job.a, job.data, job.p, |job.cells|);
    assert Place(job.cells, job.a, job.Full()[..0]) == job.cells;
    EraseOpens(job, d, job.a, 0);
  }

  ghost predicate Stored(job: Job, d: Device)
    requires job.p > 0
  {
    && job.a + |job.Full()| <= |job.cells| && d.page == job.p && d.temp == Blank(job.p)
    && d.cells == Place(job.cells, job.a, job.Full())
  }

  /** Reading the range of a stored payload gives the payload. */
  lemma StoredData(job: Job, d: Device)
    requires job.p > 0 && job.a % job.p == 0 && Stored(job, d)
    ensures job.a + |job.data| <= |d.cells| && d.cells[job.a..job.a + |job.data|] == job.data
  {
    assert d.cells[job.a..job.a + |job.data|] == job.Full()[..|job.data|];
  }

  /** From the start to the end address in the 64 KB page, ends included, stand the first bytes of
      the payload. */
  ghost predicate StoredBetween(start: nat, end: nat, payload: seq<bv8>, flashPage: nat, cells: seq<bv8>) {
    Whole(start, end) ==>
      var a, n := flashPage * 0x1_0000 + start, end - start + 1;
      a + n <= |cells| && n <= |payload| && cells[a..a + n] == payload[..n]
  }

  /** `data` are the first bytes of the payload, as many as there are from start to end. */
  ghost predicate SentBetween(start: nat, end: nat, payload: seq<bv8>, data: seq<bv8>) {
    Whole(start, end) ==> end - start + 1 <= |payload| && data == payload[..end - start + 1]
  }

  /** The same in the numbers of the command bytes. */
  ghost predicate RangeStored(command: seq<bv8>, payload: seq<bv8>, flashPage: nat, cells: seq<bv8>)
    requires |command| >= 6
  {
    StoredBetween(256 * (command[2] as nat) + command[3] as nat, 256 * (command[4] as nat) + command[5] as nat,
                  payload, flashPage, cells)
  }

  ghost predicate RangeSent(command: seq<bv8>, payload: seq<bv8>, data: seq<bv8>)
    requires |command| >= 6
  {
    SentBetween(256 * (command[2] as nat) + command[3] as nat, 256 * (command[4] as nat) + command[5] as nat, payload, data)
  }

  lemma JobInRange(packets: Packets, before: Device, flashPage: nat, d: Device)
    requires packets != [] && |packets[0]| == PACKET
    requires before.Valid() && FlashDownload(packets, before, flashPage) && Stored(DownloadJob(packets, before, flashPage), d)
    ensures RangeStored(packets[0], Flat(packets[1..]), flashPage, d.cells)
    ensures RangeSent(packets[0], Flat(packets[1..]), DownloadJob(packets, before, flashPage).data)
  {
    hide Flat, Stored, Device.Valid, DownloadJob, BigEndian, FlashDownload, StoredBetween, SentBetween;
    var first := packets[0];
    BigEndianNumber(first[2], first[3]);
    BigEndianNumber(first[4], first[5]);
    JobRange(packets, before, flashPage, d, BigEndian(first[2], first[3]), BigEndian(first[4], first[5]));
  }

  lemma BigEndianNumber(hi: bv8, lo: bv8)
    ensures BigEndian(hi, lo) == 256 * (hi as nat) + lo as nat
  {
  }

  lemma JobRange(packets: Packets, before: Device, flashPage: nat, d: Device, start: nat, end: nat)
    requires before.Valid() && FlashDownload(packets, before, flashPage) && Stored(DownloadJob(packets, before, flashPage), d)
    requires start == BigEndian(packets[0][2], packets[0][3]) && end == BigEndian(packets[0][4], packets[0][5])
    ensures StoredBetween(start, end, Flat(packets[1..]), flashPage, d.cells)
    ensures SentBetween(start, end, Flat(packets[1..]), DownloadJob(packets, before, flashPage).data)
  {
    hide Whole, Flat, WordCount, BigEndian, Stored, Supplied;
    StoredData(DownloadJob(packets, before, flashPage), d);
    WholeCount(start, end);
  }

  lemma JobDone(job: Job, d: Device)
    requires job.Valid() && |job.data| > 0 && Clean(job, d, |job.Full()|)
    ensures Stored(job, d)
  {
    assert job.Full()[..|job.Full()|] == job.Full();
  }

  /** After the command the first packet holds filler bytes only, and an aligned start address
      has nothing more to throw away. */
  lemma Fillers(first: seq<bv8>, rest: Packets, a: nat, start: nat, flashPage: nat, page: nat)
    requires |first| == PACKET && page > 0 && page % PACKET == 0 && a == flashPage * 0x1_0000 + start && a % page == 0
    ensures start % PACKET == 0
    ensures Discard(Discard(Endpoint(first[6..], rest), FILLER), start % PACKET) == Endpoint([], rest)
  {
    DiscardWithin(Endpoint(first[6..], rest), FILLER);
    assert first[6..][FILLER..] == [];
    assert a == PACKET * (page / PACKET * (a / page)) by {
      assert a == page * (a / page) && page == PACKET * (page / PACKET);
    }
    ModUnique(a, PACKET, page / PACKET * (a / page), 0);
  }
}

module UsbDfu {
  import opened AvrFlash
  import opened PagedBlock
  import opened UsbDfuSpec

  datatype State = Idle | DnloadIdle | UploadIdle | Error

  datatype Status = Ok | ErrCheckErased

  class Dfu {
    const boot: nat
    const data: array<bv8>
    var device: Device
    var state: State
    var status: Status
    var command: bv8
    var flash64KBPage: nat
    var startAddr: nat
    var endAddr: nat
    var out: Endpoint
    var bank: seq<bv8>
    var sent: Packets
    var response: bv8

    ghost predicate Valid()
      reads this
    {
      && device.Valid() && device.page % PACKET == 0 && device.page <= 256
      && boot % device.page == 0 && boot <= |device.cells|
      && data.Length == 5 && flash64KBPage < 256 && startAddr < 0x1_0000 && endAddr < 0x1_0000
    }

    /** The address the two halves of the union make. */
    function Long(): nat
      reads this
    {
      flash64KBPage * 0x1_0000 + startAddr
    }

    constructor (boot: nat, device: Device)
      requires device.Valid() && device.page % PACKET == 0 && device.page <= 256
      requires boot % device.page == 0 && boot <= |device.cells|
      ensures Valid() && fresh(data) && this.boot == boot && this.device == device && state == Idle
    {
      this.boot, this.device, state, status, command := boot, device, Idle, Ok, 0;
      data := new bv8[5];
      flash64KBPage, startAddr, endAddr, response := 0, 0, 0, 0;
      out, bank, sent := Endpoint([], []), [], [];
    }

    // -------------------------------------------------------------- the endpoint

    /** `Endpoint_ClearOUT` and the wait for the next packet; false when none ever comes. */
    method NextPacket() returns (attached: bool)
      modifies `out
      ensures attached == (old(out).pending != [])
      ensures out == if attached then Endpoint(old(out).pending[0], old(out).pending[1..]) else old(out)
    {
      attached := out.pending != [];
      if attached { out := Endpoint(out.pending[0], out.pending[1..]); }
    }

    method DiscardFillerBytes(numberOfBytes: nat)
      modifies `out
      ensures out == Discard(old(out), numberOfBytes)
    {
      var n: nat := numberOfBytes;
      while n > 0
        invariant n <= numberOfBytes && Discard(out, n) == Discard(old(out), numberOfBytes)
      {
        n := n - 1;
        if out.packet == [] {
          var attached := NextPacket();
          if !attached { return; }
        } else {
          out := out.(packet := out.packet[1..]);
        }
      }
    }

    method ReadWord() returns (attached: bool, w: bv16)
      requires out.Words()
      modifies `out
      ensures out.Words()
      ensures attached == (|old(out).Rest()| >= 2) && (!attached ==> old(out).Rest() == out.Rest() == [])
      ensures attached ==> old(out).Rest() == [Low(w), High(w)] + out.Rest()
    {
      hide Word, Low, High, Endpoint.Rest, Endpoint.Words, Flat;
      NextWord(out);
      if out.packet == [] {
        attached := NextPacket();
        if !attached { return attached, 0; }
        NextWord(out);
      }
      attached, w := true, Word(out.packet[0], out.packet[1]);
      WordBytes(out.packet[0], out.packet[1]);
      out := out.(packet := out.packet[2..]);
    }

    // -------------------------------------------------------------- commands

    /** The two addresses are the big-endian ones in the command. */
    ghost predicate Selected()
      requires data.Length == 5
      reads this, data
    {
      startAddr == BigEndian(data[1], data[2]) && endAddr == BigEndian(data[3], data[4])
    }

    method LoadStartEndAddresses()
      requires data.Length == 5
      modifies `startAddr, `endAddr
      ensures startAddr < 0x1_0000 && endAddr < 0x1_0000 && Selected()
    {
      startAddr := BigEndian(data[1], data[2]);
      endAddr := BigEndian(data[3], data[4]);
    }

    /** The first page is erased before any data is there. */
    method ProcessMemProgCommand()
      requires Valid()
      requires data[0] == 0 ==> flash64KBPage * 0x1_0000 + BigEndian(data[1], data[2]) < |device.cells|
      modifies `startAddr, `endAddr, `device, `state
      ensures Valid() && ProgStarted()
    {
      if data[0] == 0 || data[0] == 1 {
        LoadStartEndAddresses();
        if data[0] == 0 { device := device.Erase(Long()); }
        state := DnloadIdle;
      }
    }

    twostate predicate ProgStarted()
      requires data.Length == 5
      reads this, data
    {
      && (data[0] > 1 ==> unchanged(this))
      && (data[0] <= 1 ==> state == DnloadIdle && Selected())
      && (data[0] == 1 ==> device == old(device))
      && (data[0] == 0 ==> old(device).Valid() && Long() < |old(device).cells| && device == old(device).Erase(Long()))
    }

    method BlankCheck()
      requires Valid()
      modifies `flash64KBPage, `startAddr, `state, `status
      ensures Valid()
      ensures Checked()
    {
      var a := 0;
      while a < boot
        invariant a <= boot && unchanged(this)
        invariant forall i | 0 <= i < a :: device.cells[i] == 0xFF
      {
        if device.cells[a] != 0xFF {
          flash64KBPage, startAddr := a / 0x1_0000 % 256, a % 0x1_0000;
          state, status := Error, ErrCheckErased;
          FirstUsedLeast(device.cells, boot, a);
          return;
        }
        a := a + 1;
      }
      FirstUsedLeast(device.cells, boot, boot);
    }

    method ProcessMemReadCommand()
      requires Valid()
      modifies `flash64KBPage, `startAddr, `endAddr, `state, `status
      ensures Valid() && ReadStarted()
    {
      if data[0] == 0 || data[0] == 2 {
        LoadStartEndAddresses();
        state := UploadIdle;
      } else if data[0] == 1 {
        BlankCheck();
      }
    }

    twostate predicate ReadStarted()
      requires data.Length == 5 && boot <= |device.cells|
      reads this, data
    {
      && (data[0] == 0 || data[0] == 2 ==>
        state == UploadIdle && Selected() && status == old(status) && flash64KBPage == old(flash64KBPage))
      && (data[0] == 1 ==> Checked() && endAddr == old(endAddr))
      && (data[0] > 2 ==> unchanged(this))
    }

    /** The blank check says nothing about a blank section and points at the first other byte. */
    twostate predicate Checked()
      requires boot <= |device.cells|
      reads this
    {
      var k := FirstUsed(device.cells, boot);
      if k == boot then unchanged(this)
      else state == Error && status == ErrCheckErased && startAddr == k % 0x1_0000
           && flash64KBPage == k / 0x1_0000 % 256
    }

    method EraseFlash()
      requires Valid()
      modifies `device
      ensures Valid() && device.page == old(device.page)
      ensures device.cells == EraseImage(old(device.cells), old(device.temp), boot)
    {
      var a := 0;
      while a < boot
        invariant a <= boot && device.Valid() && device.page == old(device.page) && a % device.page == 0
        invariant |device.cells| == |old(device.cells)|
        invariant device.temp == if a == 0 then old(device.temp) else Blank(device.page)
        invariant device.cells == EraseImage(old(device.cells), old(device.temp), a)
        decreases boot - a
      {
        EraseStep(old(device.cells), old(device.temp), device, a, boot);
        device := device.Erase(a);
        device := device.Write(a);
        a := a + device.page;
      }
    }

    // -------------------------------------------------------------- download

    ghost function ReceiveJob(before: seq<bv8>): Job
      reads this
    {
      Job(before, Long(), Supplied(out.Rest(), 2 * WordCount(startAddr, endAddr)), device.page, device.temp)
    }

    /** The page loop. `before` is the flash before the first page was erased. When the packets
        run out the bytes that did arrive are in finished pages and in the temporary buffer. */
    method ReceiveFlash(ghost before: seq<bv8>) returns (attached: bool, ghost off: nat, ghost k: nat)
      requires Valid() && out.Words() && WordCount(startAddr, endAddr) > 0
      requires ReceiveJob(before).Valid() && Open(ReceiveJob(before), device, 0, 0)
      modifies `device, `out, `startAddr
      ensures Valid() && out.Words() && startAddr == if attached then endAddr else old(startAddr)
      ensures attached == (2 * WordCount(old(startAddr), endAddr) <= |old(out.Rest())|)
      ensures Whole(old(startAddr), endAddr) ==>
        var n := endAddr - old(startAddr) + 1;
        attached == (n <= |old(out.Rest())|) && |old(ReceiveJob(before)).data| == n
      ensures var job := old(ReceiveJob(before));
        if attached
        then Clean(job, device, |job.Full()|) && out.Rest() == old(out.Rest())[|job.data|..]
        else Open(job, device, off, k) && off + k == |old(out.Rest())| && out.Rest() == []
    {
      hide Whole, Open, Clean, Job.Valid, Device.Fill, Device.Write, Device.Erase, Device.Valid, Padded, Supplied, Word, Low,
           High, WordCount, Endpoint.Words;
      ghost var job := ReceiveJob(before);
      ghost var stream := out.Rest();
      WholeCount(startAddr, endAddr);
      var words := WordCount(startAddr, endAddr);
      ghost var all := words;
      var address, pageStart, inPage := Long(), Long(), 0;
      off, k := 0, 0;
      JobAligned(job);
      OpenFacts(job, device, 0, 0);
      while words > 0
        invariant out.Words() && 0 <= words <= all && 2 * (all - words) <= |stream|
        invariant address == job.a + 2 * (all - words) && out.Rest() == stream[2 * (all - words)..]
        invariant Sound(job, device) && startAddr == old(startAddr)
        invariant words > 0 ==> Loading(job, device, off, k, 2 * (all - words), pageStart, inPage)
        invariant words == 0 ==> Clean(job, device, |job.Full()|)
      {
        ghost var done, rest := 2 * (all - words), out.Rest();
        words := words - 1;
        var w;
        attached, w := ReadWord();
        if !attached { return; }
        Arrived(stream, rest, w, out.Rest(), |job.data|, done);
        LoadKeepsOpen(job, device, address, off, k);
        device, k := device.Fill(address, w), k + 2;
        inPage, address := inPage + 1, address + 2;
        OpenFacts(job, device, off, k);
        if inPage == device.page / 2 || words == 0 {
          ClosePage(job, pageStart, address, words > 0, off, k);
          if words > 0 {
            pageStart, inPage := address, 0;
            off, k := off + job.p, 0;
          }
        }
      }
      startAddr, attached := endAddr, true;
    }

    /** Write the page and erase the next one, if there is more to come. */
    method ClosePage(ghost job: Job, pageStart: nat, address: nat, more: bool, ghost off: nat, ghost k: nat)
      requires job.Valid() && Open(job, device, off, k) && 0 < k && off + k <= |job.data| && pageStart == job.a + off
      requires if more then k == job.p && off + k < |job.data| && address == job.a + off + k else off + k == |job.data|
      modifies `device
      ensures Sound(job, device)
      ensures if more then Open(job, device, off + job.p, 0) else Clean(job, device, |job.Full()|)
    {
      hide Open, Clean, Job.Valid, Job.Full, Device.Write, Device.Erase, Device.Valid, Place, Padded;
      OpenFacts(job, device, off, k);
      JobAligned(job);
      WriteCloses(job, device, pageStart, off, k);
      device := device.Write(pageStart);
      CleanFacts(job, device, off + job.p);
      if more {
        EraseOpens(job, device, address, off + job.p);
        device := device.Erase(address);
        OpenFacts(job, device, off + job.p, 0);
      } else {
        LastPage(job, off, off + job.p);
      }
    }

    ghost predicate Loading(job: Job, d: Device, off: nat, k: nat, done: nat, pageStart: nat, inPage: nat)
      requires job.Valid()
    {
      off + k == done && k < job.p && k == 2 * inPage && pageStart == job.a + off && Open(job, d, off, k)
    }

    lemma Arrived(stream: seq<bv8>, rest: seq<bv8>, w: bv16, next: seq<bv8>, n: nat, i: nat)
      requires i + 2 <= n && i <= |stream| && rest == stream[i..] && rest == [Low(w), High(w)] + next
      ensures Word(Supplied(stream, n)[i], Supplied(stream, n)[i + 1]) == w
      ensures i + 2 <= |stream| && next == stream[i + 2..]
    {
      hide Word, Low, High;
      assert |rest| == |next| + 2;
      assert rest[0] == stream[i] && rest[1] == stream[i + 1];
      assert rest[2..] == stream[i + 2..];
      BytesWord(w);
    }

    // -------------------------------------------------------------- requests

    /** The command byte and up to five bytes of parameters. */
    method LoadCommand() returns (taken: nat)
      requires data.Length == 5 && |out.packet| >= 1
      modifies `command, `out, data
      ensures taken == (if |old(out).packet| < 6 then |old(out).packet| else 6)
      ensures command == old(out).packet[0] && out == old(out).(packet := old(out).packet[taken..])
      ensures forall i | 0 <= i < taken - 1 :: data[i] == old(out).packet[i + 1]
      ensures forall i | taken - 1 <= i < 5 :: data[i] == old(data[i])
    {
      ghost var was := out;
      command, taken := out.packet[0], 1;
      out := out.(packet := out.packet[1..]);
      while taken < 6 && out.packet != []
        invariant command == was.packet[0] && 1 <= taken <= 6 && taken <= |was.packet|
        invariant out == was.(packet := was.packet[taken..])
        invariant forall i | 0 <= i < taken - 1 :: data[i] == was.packet[i + 1]
        invariant forall i | taken - 1 <= i < 5 :: data[i] == old(data[i])
      {
        data[taken - 1] := out.packet[0];
        out := out.(packet := out.packet[1..]);
        taken := taken + 1;
      }
    }

    method ProcessBootloaderCommand()
      requires Valid()
      requires command == 0x01 && data[0] == 0 ==>
        flash64KBPage * 0x1_0000 + BigEndian(data[1], data[2]) < |device.cells|
      modifies `startAddr, `endAddr, `device, `state, `status, `flash64KBPage
      ensures Valid() && device.page == old(device.page)
      ensures command == 0x01 ==>
        ProgStarted() && flash64KBPage == old(flash64KBPage) && status == old(status)
      ensures command == 0x03 ==> ReadStarted() && device == old(device)
      ensures command == 0x04 ==>
        (data[0] == 0 && data[1] == 0xFF ==> device.cells == EraseImage(old(device).cells, old(device).temp, boot))
        && (data[0] != 0 || data[1] != 0xFF ==> unchanged(this))
      ensures command == 0x06 && data[0] == 3 && data[1] == 0 ==> flash64KBPage == data[2] as nat
    {
      if command == PROG_START {
        ProcessMemProgCommand();
      } else if command == DISP_DATA {
        ProcessMemReadCommand();
      } else if command == WRITE {
        if data[0] == 0 && data[1] == 0xFF { EraseFlash(); }
      } else if command == CHANGE_BASE_ADDR {
        if data[0] == 3 && data[1] == 0 { flash64KBPage := data[2] as nat; }
      }
    }

    /** `Endpoint_Write_Word_LE`, after a full packet has been handed over. */
    method SendWord(lo: bv8, hi: bv8)
      requires |bank| <= PACKET && |bank| % 2 == 0
      modifies `bank, `sent
      ensures |bank| <= PACKET && |bank| % 2 == 0
      ensures Flat(sent) + bank == Flat(old(sent)) + old(bank) + [lo, hi]
      ensures sent == old(sent) || (sent == old(sent) + [old(bank)] && |old(bank)| == PACKET)
    {
      if |bank| == PACKET {
        FlatSnoc(sent, bank);
        sent, bank := sent + [bank], [];
      }
      bank := bank + [lo, hi];
      assert Flat(sent) + bank == Flat(old(sent)) + old(bank) + [lo, hi];
    }

    /** `DFU_UPLOAD` of flash words, in packets of 32 bytes and a last one of at most 32. */
    method SendFlash()
      requires Valid() && Long() + 2 * WordCount(startAddr, endAddr) <= |device.cells|
      requires |bank| <= PACKET && |bank| % 2 == 0 && SmallPackets(sent)
      modifies `bank, `sent, `startAddr
      ensures Flat(sent) + bank == Flat(old(sent)) + old(bank)
        + device.cells[old(Long())..old(Long()) + 2 * WordCount(old(startAddr), endAddr)]
      ensures Whole(old(startAddr), endAddr) ==>
        var a, n := old(Long()), endAddr - old(startAddr) + 1;
        a + n <= |device.cells| && Flat(sent) + bank == Flat(old(sent)) + old(bank) + device.cells[a..a + n]
      ensures |bank| <= PACKET && SmallPackets(sent) && startAddr == endAddr
    {
      hide Whole, WordCount, Flat, SmallPackets, Valid;
      WholeCount(startAddr, endAddr);
      var words := WordCount(startAddr, endAddr);
      ghost var all, a := words, Long();
      var address := Long();
      ghost var was := Flat(sent) + bank;
      assert device.cells[a..a] == [];
      while words > 0
        invariant 0 <= words <= all && address == a + 2 * (all - words)
        invariant |bank| <= PACKET && |bank| % 2 == 0 && SmallPackets(sent)
        invariant Flat(sent) + bank == was + device.cells[a..address]
      {
        words := words - 1;
        ghost var before := sent;
        var lo, hi := device.cells[address], device.cells[address + 1];
        SendWord(lo, hi);
        StillSmall(before, sent);
        assert device.cells[a..address + 2] == device.cells[a..address] + [lo, hi];
        address := address + 2;
      }
      startAddr := endAddr;
    }

    ghost predicate SmallPackets(packets: Packets) {
      forall i | 0 <= i < |packets| :: |packets[i]| <= PACKET
    }

    lemma StillSmall(before: Packets, after: Packets)
      requires SmallPackets(before)
      requires after == before || exists last: seq<bv8> :: after == before + [last] && |last| <= PACKET
      ensures SmallPackets(after)
    {
    }

    // -------------------------------------------------------------- whole transfers

    /** The data stage up to the command and its parameters. */
    method BeginRequest() returns (attached: bool, taken: nat)
      requires data.Length == 5 && (out.pending != [] ==> |out.pending[0]| >= 1)
      modifies `command, `out, data
      ensures attached == (old(out).pending != [])
      ensures !attached ==> out == old(out) && taken == 0 && data[..] == old(data[..])
      ensures attached ==> Taken(old(out).pending, taken)
    {
      attached := NextPacket();
      taken := 0;
      if attached { taken := LoadCommand(); }
    }

    ghost predicate Taken(packets: Packets, taken: nat)
      requires packets != [] && |packets[0]| >= 1 && data.Length == 5
      reads this, data
    {
      && taken == (if |packets[0]| < 6 then |packets[0]| else 6)
      && command == packets[0][0] && out == Endpoint(packets[0][taken..], packets[1..])
      && forall i | 0 <= i < taken - 1 :: data[i] == packets[0][i + 1]
    }

    /** `DFU_DNLOAD` of flash words: without data the first page is erased and no more; with data
        the flash becomes the old one with the payload in whole pages at the address in the
        command. The job says what fills up the last page: 0xFF, or what an earlier download
        that broke off had left in the page buffer. */
    method DownloadFlash(wLength: nat) returns (attached: bool)
      requires Valid() && FlashDownload(out.pending, device, flash64KBPage)
      requires 6 <= wLength < 0x1_0000
      modifies this, data
      ensures attached && Valid() && flash64KBPage == old(flash64KBPage) && bank == old(bank) && sent == old(sent)
      ensures var job := DownloadJob(old(out).pending, old(device), old(flash64KBPage));
        if wLength == 6 then state == Idle && job.a < |old(device).cells| && device == old(device).Erase(job.a)
        else state == DnloadIdle && startAddr == endAddr && Stored(job, device)
      ensures wLength > 6 ==>
        RangeStored(old(out).pending[0], Flat(old(out).pending[1..]), old(flash64KBPage), device.cells)
    {
      hide WordCount, Flat, Discard, Padded, Supplied, Place, Clean, Open, Job.Valid, BigEndian, Device.Erase,
           Device.Valid, Stored, RangeStored;
      ghost var packets, before := out.pending, device;
      ghost var job := DownloadJob(packets, device, flash64KBPage);
      FirstErase(packets, before, flash64KBPage);
      var taken;
      attached, taken := BeginDownload();
      var dataSize := wLength - taken;
      if state == DnloadIdle {
        if dataSize == 0 {
          state := Idle;
        } else {
          assert Long() == job.a && device == before.Erase(job.a);
          attached := ReceivePayload(packets, before);
          JobInRange(packets, before, flash64KBPage, device);
        }
      }
    }

    method BeginDownload() returns (attached: bool, taken: nat)
      requires Valid() && FlashDownload(out.pending, device, flash64KBPage)
      modifies `command, `out, `startAddr, `endAddr, `device, `state, `status, `flash64KBPage, data
      ensures attached && taken == 6 && Valid() && data[0] == 0 && state == DnloadIdle
      ensures flash64KBPage == old(flash64KBPage) && Begun(old(out).pending, old(device))
    {
      hide BigEndian, Device.Erase, Device.Valid, WordCount, Flat;
      attached, taken := BeginRequest();
      ProcessBootloaderCommand();
    }

    /** The first page is erased and the addresses are those of the command. */
    ghost predicate Begun(packets: Packets, before: Device)
      requires packets != [] && |packets[0]| >= 6
      reads this
    {
      && out == Endpoint(packets[0][6..], packets[1..])
      && startAddr == BigEndian(packets[0][2], packets[0][3]) && endAddr == BigEndian(packets[0][4], packets[0][5])
      && before.Valid() && Long() < |before.cells| && device == before.Erase(Long())
    }

    method ReceivePayload(ghost packets: Packets, ghost before: Device) returns (attached: bool)
      requires Valid() && data[0] == 0 && FlashDownload(packets, before, flash64KBPage) && Begun(packets, before)
      requires DownloadJob(packets, before, flash64KBPage).Valid()
      requires Open(DownloadJob(packets, before, flash64KBPage), device, 0, 0)
      modifies `device, `out, `startAddr
      ensures attached && Valid() && startAddr == endAddr
      ensures Stored(DownloadJob(packets, before, flash64KBPage), device)
      ensures exists e: Endpoint ::
        e.Rest() == Flat(packets[1..])[|DownloadJob(packets, before, flash64KBPage).data|..] && out == Discard(e, 16)
    {
      hide WordCount, Flat, Discard, Padded, Supplied, Place, Clean, Open, Job.Valid, BigEndian, Device.Erase,
           Device.Valid, Stored;
      ghost var job := DownloadJob(packets, before, flash64KBPage);
      Fillers(packets[0], packets[1..], job.a, startAddr, flash64KBPage, before.page);
      DiscardFillerBytes(FILLER);
      DiscardFillerBytes(startAddr % PACKET);
      assert out == Endpoint([], packets[1..]);
      if data[0] == 0 {
        assert out.Rest() == Flat(packets[1..]);
        assert before.Erase(Long()).page == before.page;
        assert ReceiveJob(before.cells) == job;
        ghost var off, k;
        attached, off, k := ReceiveFlash(before.cells);
        JobDone(job, device);
      }
      ghost var e := out;
      DiscardFillerBytes(SUFFIX);
      assert out == Discard(e, 16);
    }

    /** `DFU_UPLOAD`: the selected flash words, the address a blank check found, or a byte. */
    method UploadRequest()
      requires Valid() && bank == [] && SmallPackets(sent) && (state == UploadIdle ==> data[0] != 2)
      requires state == UploadIdle && data[0] == 0 ==> Long() + 2 * WordCount(startAddr, endAddr) <= |device.cells|
      modifies `bank, `sent, `startAddr, `state
      ensures Valid() && bank == [] && SmallPackets(sent)
      ensures state == if old(state) == UploadIdle then Idle else old(state)
      ensures old(state) == UploadIdle && data[0] == 0 ==>
        startAddr == endAddr && Flat(sent) == Flat(old(sent))
          + device.cells[old(Long())..old(Long()) + 2 * WordCount(old(startAddr), endAddr)]
      ensures old(state) == UploadIdle && data[0] == 0 && Whole(old(startAddr), endAddr) ==>
        var a, n := old(Long()), endAddr - old(startAddr) + 1;
        a + n <= |device.cells| && Flat(sent) == Flat(old(sent)) + device.cells[a..a + n]
      ensures old(state) == Error && data[0] == 1 ==>
        sent == old(sent) + [LittleEndian(startAddr)] && startAddr == old(startAddr)
      ensures old(state) != UploadIdle && (old(state) != Error || data[0] != 1) ==>
        sent == old(sent) + [[response]] && startAddr == old(startAddr)
    {
      hide Whole, WordCount, Flat, LittleEndian;
      WholeCount(startAddr, endAddr);
      if state != UploadIdle {
        if state == Error && data[0] == 1 {
          bank := LittleEndian(startAddr);
        } else {
          bank := [response];
        }
      } else {
        if data[0] == 0 { SendFlash(); }
        state := Idle;
      }
      FlatSnoc(sent, bank);
      sent, bank := sent + [bank], [];
      StillSmall(old(sent), old(sent));
    }

    /** Download, select the same range for reading, upload: the host gets its payload back. */
    method DownloadThenUpload(wLength: nat, request: seq<bv8>) returns (attached: bool)
      requires Valid() && FlashDownload(out.pending, device, flash64KBPage)
      requires 6 < wLength < 0x1_0000 && bank == [] && SmallPackets(sent)
      requires |request| == 6 && request[0] == DISP_DATA && request[1] == 0 && request[2..] == out.pending[0][2..6]
      modifies this, data
      ensures attached && Valid() && state == Idle
      ensures Flat(sent) == Flat(old(sent)) + DownloadJob(old(out).pending, old(device), old(flash64KBPage)).data
      ensures RangeSent(old(out).pending[0], Flat(old(out).pending[1..]), Flat(sent)[|Flat(old(sent))|..])
    {
      hide WordCount, Flat, Discard, Padded, Supplied, Place, BigEndian, Device.Valid, Stored, RangeStored, RangeSent;
      ghost var packets := out.pending;
      ghost var job := DownloadJob(packets, device, flash64KBPage);
      SameRange(packets[0], request);
      attached := DownloadFlash(wLength);
      StoredData(job, device);
      JobInRange(packets, old(device), old(flash64KBPage), device);
      out := Endpoint([], [request]);
      var taken;
      attached, taken := BeginRequest();
      ProcessBootloaderCommand();
      assert Long() == job.a && |job.data| == 2 * WordCount(startAddr, endAddr);
      UploadRequest();
    }
  }

  lemma SameRange(first: seq<bv8>, request: seq<bv8>)
    requires |first| >= 6 && |request| == 6 && request[2..] == first[2..6]
    ensures request[2] == first[2] && request[3] == first[3] && request[4] == first[4] && request[5] == first[5]
  {
    assert request[2..][0] == first[2..6][0] && request[2..][1] == first[2..6][1];
    assert request[2..][2] == first[2..6][2] && request[2..][3] == first[2..6][3];
  }
}
