/** The page-write loop of the 'd' command in
    hardware/arduino/bootloaders/atmega/ATmegaBOOT_168.c (lines 588-681), as a program of
    labels and jumps over r17, Z, Y and r24:r25. */
module AtmegaBoot {
  import opened AvrFlash
  import opened PagedBlock

  datatype Label = LengthLoop | NoPageErase | WritePage | SamePage | FinalWrite | BlockDone

  /** r17 counts the words in the page, z is a flash address, y an index into buff and
      counter the bytes still to go. The two logs record the pages that were hit. */
  datatype Cpu = Cpu(pc: Label, r17: nat, z: nat, y: nat, counter: nat, device: Device,
                     erased: seq<nat>, written: seq<nat>)

  /** What each label needs: a flash address where it erases or writes, data where it loads. */
  ghost predicate Ready(s: Cpu, buff: seq<bv8>) {
    && s.device.Valid()
    && (s.pc == LengthLoop || s.pc == WritePage ==> s.z < |s.device.cells|)
    && (s.pc == NoPageErase ==> s.y + 1 < |buff|)
  }

  /** The code at one label, up to the next jump; r17 is 8 bits wide, z and the counter 16. */
  function Step(s: Cpu, buff: seq<bv8>): Cpu
    requires Ready(s, buff)
  {
    var p := s.device.page;
    match s.pc
    case LengthLoop =>
      if s.r17 == 0
      then s.(device := s.device.Erase(s.z), erased := s.erased + [PageOf(s.z, p)], pc := NoPageErase)
      else s.(pc := NoPageErase)
    case NoPageErase =>
      var r17 := (s.r17 + 1) % 256;
      s.(device := s.device.Fill(s.z, Word(buff[s.y], buff[s.y + 1])), y := s.y + 2, r17 := r17,
         pc := if r17 < p / 2 then SamePage else WritePage)
    case WritePage =>
      s.(r17 := 0, device := s.device.Write(s.z), written := s.written + [PageOf(s.z, p)], pc := SamePage)
    case SamePage =>
      var counter := (s.counter + 0x1_0000 - 2) % 0x1_0000;
      s.(z := (s.z + 2) % 0x1_0000, counter := counter, pc := if counter == 0 then FinalWrite else LengthLoop)
    case FinalWrite =>
      if s.r17 == 0 then s.(pc := BlockDone)
      else s.(counter := (s.counter + 2) % 0x1_0000, pc := WritePage)
    case BlockDone => s
  }

  // ---------------------------------------------------------------- what the loop keeps

  /** The source keeps addresses and lengths in 16 bits and the word count in 8. */
  ghost predicate Fits(j: Job) {
    j.Valid() && j.p <= 256 && |j.cells| <= 0x1_0000 && 0 < |j.data| < 0x1_0000
  }

  ghost predicate CleanLogged(j: Job, s: Cpu, off: nat)
    requires j.Valid()
  {
    Clean(j, s.device, off) && s.erased == s.written == Pages(j.a, off, j.p)
  }

  ghost predicate OpenLogged(j: Job, s: Cpu, off: nat, n: nat)
    requires j.Valid()
  {
    Open(j, s.device, off, n) && s.erased == Pages(j.a, off + j.p, j.p) && s.written == Pages(j.a, off, j.p)
  }

  ghost predicate Position(j: Job, s: Cpu, off: nat, n: nat, back: nat) {
    && s.z + back == j.a + off + n && s.y == off + n
    && s.counter == |j.data| - off - n + back > 0 && off + n <= |j.data|
  }

  ghost predicate Inv(j: Job, s: Cpu, off: nat)
    requires j.Valid()
  {
    var n := 2 * s.r17;
    match s.pc
    case LengthLoop =>
      n < j.p && Position(j, s, off, n, 0) && if n == 0 then CleanLogged(j, s, off) else OpenLogged(j, s, off, n)
    case NoPageErase => n < j.p && Position(j, s, off, n, 0) && OpenLogged(j, s, off, n)
    case WritePage =>
      && 0 < n && OpenLogged(j, s, off, n)
      && if n == j.p then Position(j, s, off, j.p, 2) else s.counter == 2 && Short(j, s, off)
    case SamePage =>
      if n > 0 then n < j.p && OpenLogged(j, s, off, n) && Position(j, s, off, n, 2)
      else CleanLogged(j, s, off) && off >= 2
           && if off <= |j.data| then Position(j, s, off, 0, 2)
              else s.counter == 2 && Over(j, off) && s.y == |j.data|
    case FinalWrite =>
      && s.counter == 0 && s.y == |j.data|
      && if n > 0 then OpenLogged(j, s, off, n) && Short(j, s, off) else CleanLogged(j, s, off) && Over(j, off)
    case BlockDone => CleanLogged(j, s, off) && Over(j, off)
  }

  /** The last page is open and only part of it has data. */
  ghost predicate Short(j: Job, s: Cpu, off: nat) {
    && 2 * s.r17 < j.p && off + 2 * s.r17 == |j.data| && s.z == j.a + |j.data| && s.y == |j.data|
  }

  ghost predicate Over(j: Job, off: nat)
    requires j.Valid()
  {
    off == |j.Full()|
  }

  // ---------------------------------------------------------------- every step keeps Inv

  /** `off` after the step. */
  ghost function NextOff(j: Job, s: Cpu, off: nat): nat {
    if s.pc == WritePage then off + j.p else off
  }

  lemma JobPage(j: Job)
    requires Fits(j)
    ensures j.Valid() && 2 <= j.p <= 256 && j.p % 2 == 0
  {
  }

  lemma InvReady(j: Job, s: Cpu, off: nat)
    requires Fits(j) && Inv(j, s, off)
    ensures Ready(s, j.data) && s.device.page == j.p
  {
    hide Place, Pages, Padded, LoadedOver;
    if s.pc == LengthLoop || s.pc == NoPageErase { Spot(j, off, 2 * s.r17); }
  }

  lemma LogErase(j: Job, off: nat, z: nat)
    requires j.Valid() && off % j.p == 0 && off < |j.data| && z == j.a + off
    ensures Pages(j.a, off + j.p, j.p) == Pages(j.a, off, j.p) + [PageOf(z, j.p)]
  {
    Aligned(j.a, off, j.p);
    PageLogged(j.a, off, j.p, z);
  }

  lemma LengthLoopKeeps(j: Job, s: Cpu, off: nat)
    requires Fits(j) && s.pc == LengthLoop && Inv(j, s, off) && Ready(s, j.data)
    ensures Inv(j, Step(s, j.data), off)
  {
    hide Place, Pages, Padded, LoadedOver, Open, Clean, Device.Erase, Sound, PageOf, Job.Valid;
    JobPage(j);
    if s.r17 == 0 {
      CleanFacts(j, s.device, off);
      EraseOpens(j, s.device, s.z, off);
      LogErase(j, off, s.z);
    }
  }

  lemma NoPageEraseKeeps(j: Job, s: Cpu, off: nat)
    requires Fits(j) && s.pc == NoPageErase && Inv(j, s, off) && Ready(s, j.data)
    ensures Inv(j, Step(s, j.data), off)
  {
    hide Place, Pages, Padded, LoadedOver, Open, Clean, Sound, Device.Fill, Word, Job.Valid;
    JobPage(j);
    OpenFacts(j, s.device, off, 2 * s.r17);
    LoadKeepsOpen(j, s.device, s.z, off, 2 * s.r17);
    NextCount(s.r17, j.p);
  }

  lemma NextCount(r17: nat, p: nat)
    requires 2 * r17 < p <= 256 && p % 2 == 0
    ensures (r17 + 1) % 256 == r17 + 1 && 2 * (r17 + 1) <= p
    ensures r17 + 1 < p / 2 <==> 2 * (r17 + 1) < p
  {
  }

  lemma WritePageKeeps(j: Job, s: Cpu, off: nat)
    requires Fits(j) && s.pc == WritePage && Inv(j, s, off) && Ready(s, j.data)
    ensures Inv(j, Step(s, j.data), off + j.p)
  {
    hide Place, Pages, Padded, LoadedOver, Open, Clean, Sound, Device.Write, Job.Valid, PageOf;
    JobPage(j);
    OpenFacts(j, s.device, off, 2 * s.r17);
    WriteCloses(j, s.device, s.z, off, 2 * s.r17);
    Aligned(j.a, off, j.p) by { JobAligned(j); }
    PageLogged(j.a, off, j.p, s.z);
    if 2 * s.r17 != j.p { LastPage(j, off, off + j.p); }
  }

  lemma SamePageKeeps(j: Job, s: Cpu, off: nat)
    requires Fits(j) && s.pc == SamePage && Inv(j, s, off) && Ready(s, j.data)
    ensures Inv(j, Step(s, j.data), off)
  {
    hide Place, Pages, Padded, LoadedOver, Open, Clean, Fits, Job.Valid, Ready;
    SamePageSpot(j, s, off);
    Counts(s.z, s.counter);
    JobPage(j);
    if s.r17 == 0 && off == |j.data| {
      CleanFacts(j, s.device, off);
      Covered(j, off);
    }
  }

  /** The counter has a word left and, unless this was the last one, z has a next word. */
  lemma SamePageSpot(j: Job, s: Cpu, off: nat)
    requires Fits(j) && s.pc == SamePage && Inv(j, s, off)
    ensures j.Valid() && 2 <= s.counter <= 0xFFFF && s.counter % 2 == 0
    ensures s.counter > 2 || s.r17 > 0 ==> s.z + 2 < 0x1_0000
  {
    hide Place, Pages, LoadedOver, Padded, Ready, Clean, Open;
    var n := 2 * s.r17;
    if n > 0 {
      OpenFacts(j, s.device, off, n);
      Halves(off, j.p);
      EvenCounter(|j.data|, off, n, s.counter);
    } else {
      CleanFacts(j, s.device, off);
      Halves(off, j.p);
      if off <= |j.data| { EvenCounter(|j.data|, off, 0, s.counter); }
    }
  }

  lemma EvenCounter(length: nat, off: nat, n: nat, counter: nat)
    requires length % 2 == 0 && off % 2 == 0 && n % 2 == 0 && 2 <= off + n <= length < 0x1_0000
    requires counter == length - off - n + 2
    ensures 2 <= counter <= 0xFFFF && counter % 2 == 0
  {
  }

  lemma Counts(z: nat, counter: nat)
    ensures 2 <= counter <= 0xFFFF ==> (counter + 0x1_0000 - 2) % 0x1_0000 == counter - 2
    ensures z + 2 < 0x1_0000 ==> (z + 2) % 0x1_0000 == z + 2
  {
  }

  lemma FinalWriteKeeps(j: Job, s: Cpu, off: nat)
    requires Fits(j) && s.pc == FinalWrite && Inv(j, s, off) && Ready(s, j.data)
    ensures Inv(j, Step(s, j.data), off)
  {
    hide Place, Pages, Padded, LoadedOver, Open, Clean;
  }

  /** Each label hands the invariant on to the next one. */
  lemma StepKeeps(j: Job, s: Cpu, off: nat)
    requires Fits(j) && s.pc != BlockDone && Inv(j, s, off) && Ready(s, j.data)
    ensures Inv(j, Step(s, j.data), NextOff(j, s, off))
  {
    hide Place, Pages, Padded, LoadedOver, Inv, Step;
    match s.pc
    case LengthLoop => LengthLoopKeeps(j, s, off);
    case NoPageErase => NoPageEraseKeeps(j, s, off);
    case WritePage => WritePageKeeps(j, s, off);
    case SamePage => SamePageKeeps(j, s, off);
    case FinalWrite => FinalWriteKeeps(j, s, off);
  }

  // ---------------------------------------------------------------- the loop

  /** The place of a label on a round without a load or a write. */
  function Rank(pc: Label): nat {
    match pc
    case SamePage => 3
    case LengthLoop => 2
    case FinalWrite => 2
    case NoPageErase => 1
    case WritePage => 1
    case BlockDone => 0
  }

  /** The bytes in whole pages still to write, then the bytes still to load, then the label. */
  ghost predicate Closer(j: Job, s: Cpu, off: nat, t: Cpu, next: nat)
    requires j.p > 0
  {
    || off < next <= |j.Full()|
    || (off == next <= |j.Full()| && s.y < t.y <= |j.data|)
    || (off == next && s.y == t.y && Rank(t.pc) < Rank(s.pc))
  }

  lemma StepCloser(j: Job, s: Cpu, off: nat)
    requires Fits(j) && s.pc != BlockDone && Inv(j, s, off) && Ready(s, j.data)
    ensures Closer(j, s, off, Step(s, j.data), NextOff(j, s, off))
  {
    hide Place, Pages, Padded, LoadedOver, Job.Valid, Open, Clean, PageOf;
    JobPage(j);
    if s.pc == WritePage { OpenFacts(j, s.device, off, 2 * s.r17); }
    if s.pc == NoPageErase {
      OpenFacts(j, s.device, off, 2 * s.r17);
      Spot(j, off, 2 * s.r17);
    }
  }

  ghost function JobOf(device: Device, address: nat, length: nat, buff: seq<bv8>): Job
    requires length <= |buff|
  {
    Job(device.cells, address, buff[..length], device.page, Blank(device.page))
  }

  /** The state the assembly starts in satisfies the invariant. */
  lemma Begins(j: Job, d: Device)
    requires Fits(j) && d.Valid() && d.cells == j.cells && d.page == j.p && d.temp == j.left
    ensures Inv(j, Cpu(LengthLoop, 0, j.a, 0, |j.data|, d, [], []), 0)
  {
    hide Job.Full, Padded;
    assert Place(j.cells, j.a, []) == j.cells;
    assert j.Full()[..0] == [];
  }

  lemma Starts(j: Job, d: Device, address: nat, length: nat, buff: seq<bv8>)
    requires d.Valid() && d.temp == Blank(d.page) && d.page <= 256 && |d.cells| <= 0x1_0000
    requires address % d.page == 0 && 0 < length < 0x1_0000 && length % 2 == 0
    requires length <= |buff| && address + length <= |d.cells| && j == JobOf(d, address, length, buff)
    ensures Fits(j) && Inv(j, Cpu(LengthLoop, 0, address, 0, length, d, [], []), 0)
  {
    hide Inv, Padded, Job.Full;
    FullLength(j);
    PaddedFits(j.a, j.data, j.p, |j.cells|);
    Begins(j, d);
  }

  lemma Ends(j: Job, s: Cpu, off: nat)
    requires Fits(j) && s.pc == BlockDone && Inv(j, s, off) && j.left == Blank(j.p)
    ensures Sound(j, s.device) && s.device.temp == Blank(j.p)
    ensures j.a + |Padded(j.data, j.p)| <= |j.cells|
    ensures s.device.cells == Place(j.cells, j.a, Padded(j.data, j.p))
    ensures s.erased == s.written == Pages(j.a, |Padded(j.data, j.p)|, j.p)
  {
    hide Job.Full, Padded;
    BlankFull(j);
    assert j.Full()[..off] == j.Full();
  }

  class Avr {
    var device: Device
    var erased: seq<nat>
    var written: seq<nat>

    constructor (d: Device)
      ensures device == d && erased == [] && written == []
    {
      device, erased, written := d, [], [];
    }

    /** Run the assembly for `length` bytes of `buff`; an odd length was made even before. */
    method WriteBlock(buff: array<bv8>, address: nat, length: nat)
      requires device.Valid() && device.temp == Blank(device.page) && device.page <= 256
      requires |device.cells| <= 0x1_0000 && erased == written == []
      requires address % device.page == 0 && 0 < length < 0x1_0000 && length % 2 == 0
      requires length <= buff.Length && address + length <= |device.cells|
      modifies this
      ensures device.Valid() && device.page == old(device.page) && device.temp == Blank(device.page)
      ensures address + |Padded(buff[..length], device.page)| <= |old(device.cells)|
      ensures device.cells == Place(old(device.cells), address, Padded(buff[..length], device.page))
      ensures erased == written == Pages(address, |Padded(buff[..length], device.page)|, device.page)
    {
      hide Inv, Place, Pages, Padded, LoadedOver, Device.Fill, Device.Erase, Device.Write, Device.Valid, Word,
           Job.Valid, Job.Full, PageOf, Fits;
      ghost var j := JobOf(device, address, length, buff[..]);
      ghost var off: nat := 0;
      var p := device.page;
      var pc: Label, r17: nat, z: nat, y: nat, counter: nat := LengthLoop, 0, address, 0, length;
      Starts(j, device, address, length, buff[..]);
      JobPage(j);
      while pc != BlockDone
        invariant Fits(j) && Inv(j, Cpu(pc, r17, z, y, counter, device, erased, written), off)
        decreases |j.Full()| - off, |j.data| - y, Rank(pc)
      {
        ghost var s := Cpu(pc, r17, z, y, counter, device, erased, written);
        InvReady(j, s, off);
        match pc {
          case LengthLoop =>
            if r17 == 0 {
              device, erased := device.Erase(z), erased + [PageOf(z, p)];
            }
            pc := NoPageErase;
          case NoPageErase =>
            device := device.Fill(z, Word(buff[y], buff[y + 1]));
            y, r17 := y + 2, (r17 + 1) % 256;
            pc := if r17 < p / 2 then SamePage else WritePage;
          case WritePage =>
            device, written := device.Write(z), written + [PageOf(z, p)];
            r17, pc := 0, SamePage;
          case SamePage =>
            z, counter := (z + 2) % 0x1_0000, (counter + 0x1_0000 - 2) % 0x1_0000;
            pc := if counter == 0 then FinalWrite else LengthLoop;
          case FinalWrite =>
            if r17 == 0 {
              pc := BlockDone;
            } else {
              counter, pc := (counter + 2) % 0x1_0000, WritePage;
            }
        }
        assert Cpu(pc, r17, z, y, counter, device, erased, written) == Step(s, j.data);
        StepKeeps(j, s, off);
        StepCloser(j, s, off);
        off := NextOff(j, s, off);
      }
      Ends(j, Cpu(pc, r17, z, y, counter, device, erased, written), off);
    }
  }
}
