/** hardware/arduino/bootloaders/optiboot/optiboot.c, built with VIRTUAL_BOOT_PARTITION:
    what every command does to the flash, to the RAM that buff shares with the saved vectors, and
    to the UART. */
module OptibootSpec {
  import opened AvrFlash

  const STK_OK: bv8 := 0x10
  const STK_INSYNC: bv8 := 0x14
  const CRC_EOP: bv8 := 0x20
  const STK_GET_PARAMETER: bv8 := 0x41
  const STK_SET_DEVICE: bv8 := 0x42
  const STK_SET_DEVICE_EXT: bv8 := 0x45
  const STK_LEAVE_PROGMODE: bv8 := 0x51
  const STK_LOAD_ADDRESS: bv8 := 0x55
  const STK_UNIVERSAL: bv8 := 0x56
  const STK_PROG_PAGE: bv8 := 0x64
  const STK_READ_PAGE: bv8 := 0x74
  const STK_READ_SIGN: bv8 := 0x75
  const OPTIBOOT_MAJVER: bv8 := 4
  const OPTIBOOT_MINVER: bv8 := 4

  /** `ram` starts at RAMSTART and holds buff and, behind two pages, the saved vectors: a long
      command reaches them. `rx` is the input still to come, `tx` the output so far; `alive`
      turns false in the busy loop that waits for the watchdog. */
  datatype Boot = Boot(device: Device, address: nat, ram: seq<bv8>,
                       signature: seq<bv8>, rx: seq<bv8>, tx: seq<bv8>, alive: bool) {
    ghost predicate Valid() {
      && device.Valid() && 10 <= device.page <= 256 && |device.cells| <= 0x1_0000
      && address < 0x1_0000 && 256 <= |ram| && Saved(device.page) + 4 <= |ram| && |signature| == 3
    }

    function RstVect(): bv16
      requires Saved(device.page) + 4 <= |ram|
    {
      Word(ram[Saved(device.page)], ram[Saved(device.page) + 1])
    }

    function WdtVect(): bv16
      requires Saved(device.page) + 4 <= |ram|
    {
      Word(ram[Saved(device.page) + 2], ram[Saved(device.page) + 3])
    }
  }

  /** Where the two vectors are kept in RAM. */
  function Saved(page: nat): (a: nat)
    ensures a == 2 * page + 4
  {
    page * 2 + 4
  }

  /** The 8-bit counters of the do-while loops: 0 stands for 256 rounds. */
  function Count(length: bv8): (n: nat)
    ensures 1 <= n <= 256
  {
    if length == 0 then 256 else length as nat
  }

  function Put(s: Boot, out: seq<bv8>): Boot {
    s.(tx := s.tx + out)
  }

  function Skip(s: Boot, n: nat): Boot
    requires n <= |s.rx|
  {
    s.(rx := s.rx[n..])
  }

  /** verifySpace() */
  function VerifySpace(s: Boot): Boot
    requires |s.rx| > 0
  {
    if s.rx[0] == CRC_EOP then Put(Skip(s, 1), [STK_INSYNC])
    else Skip(s, 1).(alive := false)
  }

  /** VerifySpace, then the rest of the answer if the bootloader is still there. */
  function Answer(s: Boot, out: seq<bv8>): Boot
    requires |s.rx| > 0
  {
    var t := VerifySpace(s);
    if t.alive then Put(t, out) else t
  }

  function Doubled(w: bv16): nat {
    (w as nat * 2) % 0x1_0000
  }

  lemma DoubledNumber(w: bv16)
    ensures Doubled(w) == 2 * (w as nat) % 0x1_0000
  {
  }

  /** Of the other parameters the answer is 3, so that the programmer goes on. */
  lemma Parameters(which: bv8)
    ensures Parameter(0x81) == 4 && Parameter(0x82) == 4
    ensures which != 0x81 && which != 0x82 ==> Parameter(which) == 3
  {
  }

  function LoadAddress(s: Boot): Boot
    requires |s.rx| >= 3
  {
    VerifySpace(Skip(s, 2).(address := Doubled(Word(s.rx[0], s.rx[1]))))
  }

  /** A word address, its low byte first, as a byte address. */
  ghost predicate AddressOf(rx: seq<bv8>, a: nat) {
    |rx| >= 2 && a == 2 * (rx[0] as nat + 256 * (rx[1] as nat)) % 0x1_0000
  }

  lemma LoadNumber(s: Boot)
    requires |s.rx| >= 3
    ensures AddressOf(s.rx, LoadAddress(s).address)
  {
    hide Doubled, Word;
    WordNumber(s.rx[0], s.rx[1]);
    DoubledNumber(Word(s.rx[0], s.rx[1]));
  }

  /** The live patch of the reset-vector page. */
  function Patch(s: Boot): (t: Boot)
    requires s.Valid()
    ensures t.Valid() && t == s.(ram := t.ram)
  {
    if s.address != 0 then s else s.(ram := Patched(s.ram, Saved(s.device.page)))
  }

  /** The vectors of the buffer are saved at `v` and replaced. */
  function Patched(ram: seq<bv8>, v: nat): (r: seq<bv8>)
    requires 10 <= v && v + 4 <= |ram|
    ensures |r| == |ram|
  {
    Hooked(Kept(ram, v))
  }

  function Kept(ram: seq<bv8>, v: nat): (r: seq<bv8>)
    requires 10 <= v && v + 4 <= |ram|
    ensures |r| == |ram| && forall i | 0 <= i < v :: r[i] == ram[i]
  {
    ram[v := ram[0]][v + 1 := ram[1]][v + 2 := ram[8]][v + 3 := ram[9]]
  }

  /** A jump to the bootloader at the reset vector, the old jump, moved, at the next vector. */
  function Hooked(ram: seq<bv8>): (r: seq<bv8>)
    requires |ram| >= 10
    ensures |r| == |ram| && forall i | 10 <= i < |ram| :: r[i] == ram[i]
  {
    var vect := Word(ram[0], ram[1]) - 4;
    ram[8 := Low(vect)][9 := High(vect)][0 := 0x7f][1 := 0xce]
  }

  /** The header and the data are in, the page is erased; the terminator comes next. */
  function ReceivePage(s: Boot): (t: Boot)
    requires s.Valid() && |s.rx| >= 3 && |s.rx| > 3 + Count(s.rx[1]) && s.address < |s.device.cells|
    ensures t.Valid() && |t.rx| > 0 && t.address == s.address && |t.device.cells| == |s.device.cells|
  {
    var n := Count(s.rx[1]);
    s.(rx := s.rx[3 + n..], ram := s.rx[3..3 + n] + s.ram[n..], device := s.device.Erase(s.address))
  }

  function WritePage(s: Boot): (t: Boot)
    requires s.Valid() && s.address < |s.device.cells|
    ensures t.Valid()
  {
    s.(device := FillAll(s.device, s.address, s.ram, s.device.page / 2 * 2, 0x1_0000).Write(s.address))
  }

  function ProgPage(s: Boot): (t: Boot)
    requires s.Valid() && |s.rx| >= 3 && |s.rx| > 3 + Count(s.rx[1]) && s.address < |s.device.cells|
    ensures t.Valid()
  {
    var t := VerifySpace(ReceivePage(s));
    if !t.alive then t else WritePage(Patch(t))
  }

  /** One byte of READ PAGE, with the vector patch undone. */
  function ReadByte(cells: seq<bv8>, rstVect: bv16, wdtVect: bv16, a: nat): bv8
    requires a < |cells|
  {
    if a == 0 then Low(rstVect)
    else if a == 1 then High(rstVect)
    else if a == 8 then Low(wdtVect)
    else if a == 9 then High(wdtVect)
    else cells[a]
  }

  function ReadBytes(cells: seq<bv8>, rstVect: bv16, wdtVect: bv16, a: nat, n: nat): (r: seq<bv8>)
    requires a + n <= |cells|
    ensures |r| == n && forall i | 0 <= i < n :: r[i] == ReadByte(cells, rstVect, wdtVect, a + i)
  {
    if n == 0 then []
    else ReadBytes(cells, rstVect, wdtVect, a, n - 1) + [ReadByte(cells, rstVect, wdtVect, a + n - 1)]
  }

  function SendPage(s: Boot, n: nat): (t: Boot)
    requires s.Valid() && s.address + n <= |s.device.cells|
    ensures t.Valid()
  {
    Put(s, ReadBytes(s.device.cells, s.RstVect(), s.WdtVect(), s.address, n))
      .(address := (s.address + n) % 0x1_0000)
  }

  function ReadPage(s: Boot): (t: Boot)
    requires s.Valid() && |s.rx| >= 4 && s.address + Count(s.rx[1]) <= |s.device.cells|
    ensures t.Valid()
  {
    var t := VerifySpace(Skip(s, 3));
    if !t.alive then t else SendPage(t, Count(s.rx[1]))
  }

  // ---------------------------------------------------------------- the command loop

  /** The length of the command at the head of the input. */
  function Needed(rx: seq<bv8>): (n: nat)
    requires |rx| > 0 && (rx[0] == STK_PROG_PAGE ==> |rx| >= 3)
    ensures n >= 2
  {
    var c := rx[0];
    if c == STK_GET_PARAMETER then 3
    else if c == STK_SET_DEVICE then 22
    else if c == STK_SET_DEVICE_EXT then 7
    else if c == STK_LOAD_ADDRESS then 4
    else if c == STK_UNIVERSAL then 6
    else if c == STK_PROG_PAGE then 5 + Count(rx[2])
    else if c == STK_READ_PAGE then 5
    else 2
  }

  /** A whole command has arrived and, for the page commands, it stays inside the flash. */
  predicate Ready(s: Boot) {
    && s.alive && |s.rx| > 0 && (s.rx[0] == STK_PROG_PAGE ==> |s.rx| >= 3)
    && |s.rx| >= Needed(s.rx)
    && (s.rx[0] == STK_PROG_PAGE ==> s.address < |s.device.cells|)
    && (s.rx[0] == STK_READ_PAGE ==> s.address + Count(s.rx[2]) <= |s.device.cells|)
  }

  function Parameter(which: bv8): bv8 {
    if which == 0x82 then OPTIBOOT_MINVER else if which == 0x81 then OPTIBOOT_MAJVER else 0x03
  }

  /** The commands without a page. */
  function Plain(s: Boot): (t: Boot)
    requires s.Valid() && Ready(s) && s.rx[0] != STK_PROG_PAGE && s.rx[0] != STK_READ_PAGE
    ensures t.Valid() && |t.rx| < |s.rx|
  {
    var c, r := s.rx[0], Skip(s, 1);
    if c == STK_GET_PARAMETER then Answer(Skip(r, 1), [Parameter(r.rx[0])])
    else if c == STK_SET_DEVICE then VerifySpace(Skip(r, 20))
    else if c == STK_SET_DEVICE_EXT then VerifySpace(Skip(r, 5))
    else if c == STK_LOAD_ADDRESS then LoadAddress(r)
    else if c == STK_UNIVERSAL then Answer(Skip(r, 4), [0x00])
    else if c == STK_READ_SIGN then Answer(r, r.signature)
    else VerifySpace(r)
  }

  /** One round of the forever loop up to, and without, the final STK_OK. */
  function Dispatch(s: Boot): (t: Boot)
    requires s.Valid() && Ready(s)
    ensures t.Valid() && |t.rx| < |s.rx|
  {
    var c := s.rx[0];
    if c == STK_PROG_PAGE then ProgPage(Skip(s, 1))
    else if c == STK_READ_PAGE then ReadPage(Skip(s, 1))
    else Plain(s)
  }

  function Command(s: Boot): (t: Boot)
    requires s.Valid() && Ready(s)
    ensures t.Valid() && |t.rx| < |s.rx|
  {
    var t := Dispatch(s);
    if t.alive then Put(t, [STK_OK]) else t
  }

  /** Commands are served as long as whole ones arrive. */
  function Serve(s: Boot): (t: Boot)
    requires s.Valid()
    ensures t.Valid()
    decreases |s.rx|
  {
    if Ready(s) then Serve(Command(s)) else s
  }
}

/** The bootloader in the form of its source. */
module Optiboot {
  import opened AvrFlash
  import opened OptibootSpec

  class Bootloader {
    const nrwwStart: nat
    const signature: seq<bv8>
    const ram: array<bv8>
    var device: Device
    var address: nat
    var rx: seq<bv8>
    var tx: seq<bv8>
    var alive: bool

    /** A bootloader on a part with `ramSize` bytes of RAM, with the input still to come. */
    constructor (device: Device, nrwwStart: nat, signature: seq<bv8>, ramSize: nat, input: seq<bv8>)
      requires device.Valid() && 10 <= device.page <= 256 && |device.cells| <= 0x1_0000 && |signature| == 3
      requires 256 <= ramSize && Saved(device.page) + 4 <= ramSize
      ensures View().Valid() && fresh(ram)
      ensures View() == Boot(device, 0, ram[..], signature, input, [], true) && this.nrwwStart == nrwwStart
    {
      this.device, this.nrwwStart, this.signature := device, nrwwStart, signature;
      ram := new bv8[ramSize](_ => 0);
      address, rx, tx, alive := 0, input, [], true;
    }

    function View(): Boot
      reads this, ram
    {
      Boot(device, address, ram[..], signature, rx, tx, alive)
    }

    function RstVect(): bv16
      requires Saved(device.page) + 4 <= ram.Length
      reads this, ram
    {
      Word(ram[Saved(device.page)], ram[Saved(device.page) + 1])
    }

    function WdtVect(): bv16
      requires Saved(device.page) + 4 <= ram.Length
      reads this, ram
    {
      Word(ram[Saved(device.page) + 2], ram[Saved(device.page) + 3])
    }

    method Getch() returns (ch: bv8)
      requires |rx| > 0
      modifies this`rx
      ensures ch == old(rx[0]) && rx == old(rx[1..])
    {
      ch := rx[0];
      rx := rx[1..];
    }

    method Putch(ch: bv8)
      modifies this`tx
      ensures tx == old(tx) + [ch]
    {
      tx := tx + [ch];
    }

    method CheckSpace()
      requires |rx| > 0
      modifies this`rx, this`tx, this`alive
      ensures rx == old(rx[1..]) && alive == (old(alive) && old(rx[0]) == CRC_EOP)
      ensures tx == if old(rx[0]) == CRC_EOP then old(tx) + [STK_INSYNC] else old(tx)
      ensures View() == VerifySpace(old(View()))
    {
      var ch := Getch();
      if ch != CRC_EOP {
        alive := false;
      } else {
        Putch(STK_INSYNC);
      }
    }

    /** getNch: skip `count` bytes, then the terminator. */
    method GetNch(count: nat)
      requires |rx| > count > 0
      modifies this`rx, this`tx, this`alive
      ensures View() == VerifySpace(Skip(old(View()), count))
    {
      var n := count;
      while true
        invariant 0 < n <= count && rx == old(rx)[count - n..]
        invariant unchanged(this`tx) && unchanged(this`alive)
        decreases n
      {
        var _ := Getch();
        n := n - 1;
        if n == 0 { break; }
      }
      CheckSpace();
    }

    /** Low byte first. */
    method GetWord() returns (w: bv16)
      requires |rx| >= 2
      modifies this`rx
      ensures w == Word(old(rx[0]), old(rx[1])) && rx == old(rx)[2..]
    {
      hide Word;
      var lo := Getch();
      var hi := Getch();
      w := Word(lo, hi);
    }

    method DoLoadAddress()
      requires |rx| >= 3
      modifies this`rx, this`tx, this`alive, this`address
      ensures View() == LoadAddress(old(View()))
      ensures AddressOf(old(rx), address)
    {
      hide Word, Doubled, VerifySpace, AddressOf;
      LoadNumber(View());
      var newAddress := GetWord();
      address := Doubled(newAddress);
      assert View() == Skip(old(View()), 2).(address := address);
      CheckSpace();
    }

    /** `do *bufPtr++ = getch(); while (--length);` */
    method Receive(length0: bv8)
      requires ram.Length >= 256 && |rx| >= Count(length0)
      modifies this`rx, ram
      ensures rx == old(rx)[Count(length0)..]
      ensures ram[..] == old(rx)[..Count(length0)] + old(ram[..])[Count(length0)..]
    {
      hide Count;
      ghost var n := Count(length0);
      var length: nat := length0 as nat;
      var i := 0;
      CountDown(length0, length, 0);
      while true
        invariant 0 <= i < n && length == if i == 0 then length0 as nat else n - i
        invariant rx == old(rx)[i..]
        invariant forall k | 0 <= k < ram.Length :: ram[k] == if k < i then old(rx)[k] else old(ram[k])
        decreases n - i
      {
        CountDown(length0, length, i);
        ram[i] := rx[0];
        var _ := Getch();
        i := i + 1;
        length := (length + 255) % 256;
        if length == 0 { break; }
      }
    }

    /** An 8-bit count that starts at 0 runs through 256 bytes. */
    lemma CountDown(length0: bv8, length: nat, i: nat)
      requires i < Count(length0) && length == if i == 0 then length0 as nat else Count(length0) - i
      ensures Count(length0) > 0
      ensures var m := (length + 255) % 256;
        if i + 1 == Count(length0) then m == 0 else m == Count(length0) - (i + 1)
    {
    }

    /** Copy the buffer into the programming buffer, a word at a time. */
    method FillPage()
      requires device.Valid() && 2 <= device.page <= ram.Length && address < 0x1_0000
      modifies this`device
      ensures device == FillAll(old(device), address, ram[..], old(device).page / 2 * 2, 0x1_0000)
    {
      hide Low, High, Word, FillAll, Device.Fill, Device.Valid;
      var bufPtr, words := 0, device.page / 2;
      var addrPtr, ch := address, words;
      ghost var d, data := device, ram[..];
      FillNone(d, address, data, 0x1_0000);
      assert addrPtr == (address + bufPtr) % 0x1_0000;
      while true
        invariant 0 < ch <= words && bufPtr == 2 * (words - ch)
        invariant addrPtr == (address + bufPtr) % 0x1_0000
        invariant device == FillAll(d, address, data, bufPtr, 0x1_0000)
        decreases ch
      {
        FillMore(d, address, data, bufPtr, 0x1_0000);
        var a := Word(ram[bufPtr], ram[bufPtr + 1]);
        device := device.Fill(addrPtr, a);
        bufPtr := bufPtr + 2;
        addrPtr := (addrPtr + 2) % 0x1_0000;
        ch := ch - 1;
        if ch == 0 { break; }
      }
    }

    method BurnPage()
      requires View().Valid() && address < |device.cells|
      modifies this`device
      ensures View() == WritePage(old(View()))
    {
      hide FillAll;
      FillPage();
      device := device.Write(address);
    }

    method PatchVectors()
      requires View().Valid()
      modifies ram
      ensures View() == Patch(old(View()))
    {
      hide Kept, Hooked, Device.Valid;
      if address == 0 {
        KeepVectors();
        HookReset();
      }
    }

    method KeepVectors()
      requires 10 <= Saved(device.page) && Saved(device.page) + 4 <= ram.Length
      modifies ram
      ensures ram[..] == Kept(old(ram[..]), Saved(device.page))
    {
      hide Low, High, Word;
      var v := Saved(device.page);
      var vect := Word(ram[0], ram[1]);
      WordBytes(ram[0], ram[1]);
      ram[v], ram[v + 1] := Low(vect), High(vect);
      var wdt := Word(ram[8], ram[9]);
      WordBytes(ram[8], ram[9]);
      ram[v + 2], ram[v + 3] := Low(wdt), High(wdt);
    }

    method HookReset()
      requires ram.Length >= 10
      modifies ram
      ensures ram[..] == Hooked(old(ram[..]))
    {
      hide Low, High, Word;
      var vect := Word(ram[0], ram[1]);
      vect := vect - 4;
      ram[8] := Low(vect);
      ram[9] := High(vect);
      ram[0] := 0x7f;
      ram[1] := 0xce;
    }

    /** Two length bytes, of which the low one counts, and the memory type. */
    method GetHeader() returns (length: bv8)
      requires |rx| >= 3
      modifies this`rx
      ensures length == old(rx)[1] && rx == old(rx)[3..]
    {
      var _ := Getch();
      length := Getch();
      var _ := Getch();
    }

    method Accept()
      requires device.Valid() && ram.Length >= 256
      requires |rx| >= 3 && |rx| > 3 + Count(rx[1]) && address < |device.cells|
      modifies this`rx, this`device, ram
      ensures var n := Count(old(rx[1]));
              && rx == old(rx)[3 + n..] && ram[..] == old(rx)[3..3 + n] + old(ram[..])[n..]
              && device == old(device).Erase(address)
    {
      hide Device.Erase, Device.Valid, Count;
      ghost var r := rx;
      var length := GetHeader();
      if address < nrwwStart { device := device.Erase(address); }
      Receive(length);
      if address >= nrwwStart { device := device.Erase(address); }
      assert r[3..][..Count(length)] == r[3..3 + Count(length)];
      assert r[3..][Count(length)..] == r[3 + Count(length)..];
    }

    /** PROGRAM PAGE: where the flash is erased first or last makes no difference. */
    method DoProgPage()
      requires View().Valid() && |rx| >= 3 && |rx| > 3 + Count(rx[1]) && address < |device.cells|
      modifies this, ram
      ensures View() == ProgPage(old(View()))
    {
      hide Low, High, Word, FillAll, Patch, WritePage, Device.Erase;
      Accept();
      CheckSpace();
      if !alive { return; }
      PatchVectors();
      BurnPage();
    }

    method ReadNext()
      requires address < |device.cells| && address < 0x1_0000 && Saved(device.page) + 4 <= ram.Length
      modifies this`tx, this`address
      ensures tx == old(tx) + [ReadByte(device.cells, RstVect(), WdtVect(), old(address))]
      ensures address == (old(address) + 1) % 0x1_0000
    {
      var ch;
      if address == 0 { ch := Low(RstVect()); }
      else if address == 1 { ch := High(RstVect()); }
      else if address == 8 { ch := Low(WdtVect()); }
      else if address == 9 { ch := High(WdtVect()); }
      else { ch := device.cells[address]; }
      address := (address + 1) % 0x1_0000;
      Putch(ch);
    }

    method Send(length0: bv8)
      requires address + Count(length0) <= |device.cells| <= 0x1_0000 && Saved(device.page) + 4 <= ram.Length
      modifies this`tx, this`address
      ensures tx == old(tx) + ReadBytes(device.cells, RstVect(), WdtVect(), old(address), Count(length0))
      ensures address == (old(address) + Count(length0)) % 0x1_0000
    {
      hide Low, High, Word, ReadByte, Count;
      ghost var n, i, start, was := Count(length0), 0, address, tx;
      ghost var cells, rst, wdt := device.cells, RstVect(), WdtVect();
      var length: nat := length0 as nat;
      CountDown(length0, length, 0);
      assert tx == was + ReadBytes(cells, rst, wdt, start, 0);
      while true
        invariant 0 <= i < n && length == if i == 0 then length0 as nat else n - i
        invariant address == start + i
        invariant tx == was + ReadBytes(cells, rst, wdt, start, i)
        decreases n - i
      {
        CountDown(length0, length, i);
        ReadNext();
        i := i + 1;
        length := (length + 255) % 256;
        if length == 0 { break; }
      }
    }

    method DoReadPage()
      requires View().Valid() && |rx| >= 4 && address + Count(rx[1]) <= |device.cells|
      modifies this`rx, this`tx, this`alive, this`address
      ensures View() == ReadPage(old(View()))
    {
      hide ReadBytes, Word, Device.Valid, Count, VerifySpace, Skip;
      var length0 := OpenRead();
      if alive { Send(length0); }
    }

    method OpenRead() returns (length0: bv8)
      requires |rx| >= 4
      modifies this`rx, this`tx, this`alive
      ensures length0 == old(rx)[1] && View() == VerifySpace(Skip(old(View()), 3))
    {
      length0 := GetHeader();
      CheckSpace();
    }

    method DoGetParameter()
      requires |rx| >= 2
      modifies this`rx, this`tx, this`alive
      ensures View() == Answer(Skip(old(View()), 1), [Parameter(old(rx[0]))])
    {
      var which := Getch();
      CheckSpace();
      if !alive { return; }
      Putch(Parameter(which));
    }

    method DoUniversal()
      requires |rx| >= 5
      modifies this`rx, this`tx, this`alive
      ensures View() == Answer(Skip(old(View()), 4), [0x00])
    {
      GetNch(4);
      if !alive { return; }
      Putch(0x00);
    }

    method DoReadSign()
      requires |rx| >= 1 && |signature| == 3
      modifies this`rx, this`tx, this`alive
      ensures View() == Answer(old(View()), signature)
    {
      CheckSpace();
      if !alive { return; }
      Putch(signature[0]);
      Putch(signature[1]);
      Putch(signature[2]);
    }

    method PlainCommand(ch: bv8)
      requires View().Valid() && Ready(View()) && ch == rx[0]
      requires ch != STK_PROG_PAGE && ch != STK_READ_PAGE
      modifies this
      ensures View() == Plain(old(View()))
    {
      hide Low, High, Word, Doubled, VerifySpace, Answer, LoadAddress, Parameter;
      var _ := Getch();
      if ch == STK_GET_PARAMETER {
        DoGetParameter();
      } else if ch == STK_SET_DEVICE {
        GetNch(20);
      } else if ch == STK_SET_DEVICE_EXT {
        GetNch(5);
      } else if ch == STK_LOAD_ADDRESS {
        DoLoadAddress();
      } else if ch == STK_UNIVERSAL {
        DoUniversal();
      } else if ch == STK_READ_SIGN {
        DoReadSign();
      } else {
        CheckSpace();
      }
    }

    /** One round of the forever loop. */
    method Round()
      requires View().Valid() && Ready(View())
      modifies this, ram
      ensures View() == Command(old(View()))
    {
      hide Plain, ProgPage, ReadPage;
      var ch := rx[0];
      if ch == STK_PROG_PAGE {
        var _ := Getch();
        DoProgPage();
      } else if ch == STK_READ_PAGE {
        var _ := Getch();
        DoReadPage();
      } else {
        PlainCommand(ch);
      }
      if !alive { return; }
      Putch(STK_OK);
    }

    /** The forever loop, for as long as whole commands arrive. */
    method Run()
      requires View().Valid()
      modifies this, ram
      ensures View() == Serve(old(View()))
    {
      hide Command, Ready;
      while Ready(View())
        invariant View().Valid() && Serve(View()) == Serve(old(View()))
        decreases |rx|
      {
        Round();
      }
    }
  }
}
