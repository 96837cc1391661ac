/** The block loader of the C2000 flash kernel: hardware/c2000/F28027_flash_kernel/
    Shared_Boot.c and SCI_Boot.c. A word is 16 bits wide, the checksum counts modulo 2^16. */
module FlashKernelSpec {
  const PROG_BUFFER_LENGTH := 0x400
  const M := 0x1_0000
  const BLANK := 0xFFFF
  const KEY_VALUE := 0x08AA
  const FLASH_ENTRY_POINT := 0x3F7FF6

  type Byte = b: int | 0 <= b < 0x100
  type Word = w: int | 0 <= w < 0x1_0000

  datatype Block = Block(dest: nat, data: seq<Word>)

  /** Words `base`.. of the flash. */
  datatype Flash = Flash(base: nat, cells: seq<Word>) {
    predicate Holds(b: Block) {
      base <= b.dest && b.dest + |b.data| <= base + |cells|
    }

    function Put(b: Block): (f: Flash)
      requires Holds(b)
      ensures f.base == base && |f.cells| == |cells|
    {
      var o := b.dest - base;
      this.(cells := cells[..o] + b.data + cells[o + |b.data|..])
    }

    function Erased(): (f: Flash)
      ensures f.base == base && |f.cells| == |cells|
    {
      this.(cells := seq(|cells|, _ => BLANK))
    }
  }

  // ---------------------------------------------------------------- the byte stream

  /** Least significant byte first. */
  function Bytes(ws: seq<Word>): seq<Byte> {
    if ws == [] then [] else [ws[0] % 0x100, ws[0] / 0x100] + Bytes(ws[1..])
  }

  function Sum(ns: seq<Word>): nat {
    if ns == [] then 0 else Sum(ns[..|ns| - 1]) + ns[|ns| - 1]
  }

  /** The sum of the two bytes of every word. */
  function ByteSum(ws: seq<Word>): nat {
    if ws == [] then 0 else ByteSum(ws[..|ws| - 1]) + ws[|ws| - 1] % 0x100 + ws[|ws| - 1] / 0x100
  }

  function Encode(b: Block): seq<Word>
    requires |b.data| < M && b.dest < M * M
  {
    [|b.data|, b.dest / M, b.dest % M] + b.data
  }

  /** A size of zero would end the list; sizes are 16-bit and addresses 32-bit. */
  predicate Sendable(blocks: seq<Block>) {
    forall i | 0 <= i < |blocks| :: 0 < |blocks[i].data| < M && blocks[i].dest < M * M
  }

  function EncodeAll(blocks: seq<Block>): seq<Word>
    requires Sendable(blocks)
  {
    if blocks == [] then [] else Encode(blocks[0]) + EncodeAll(blocks[1..])
  }

  /** A list of blocks, its terminator, and what comes after. */
  function Stream(blocks: seq<Block>, rest: seq<Word>): seq<Word>
    requires Sendable(blocks)
  {
    EncodeAll(blocks) + [0] + rest
  }

  // ---------------------------------------------------------------- the flash calls

  /** Full buffers, then what is left, which may be nothing. */
  function Split(dest: nat, data: seq<Word>): seq<Block>
    decreases |data|
  {
    if |data| < PROG_BUFFER_LENGTH then [Block(dest, data)]
    else [Block(dest, data[..PROG_BUFFER_LENGTH])]
         + Split(dest + PROG_BUFFER_LENGTH, data[PROG_BUFFER_LENGTH..])
  }

  /** The calls of Flash_Program that a block causes. */
  function ChunksOf(b: Block): seq<Block> {
    if |b.data| > PROG_BUFFER_LENGTH then Split(b.dest, b.data) else [b]
  }

  function Chunks(blocks: seq<Block>): seq<Block> {
    if blocks == [] then [] else ChunksOf(blocks[0]) + Chunks(blocks[1..])
  }

  /** Calls succeed inside the flash as long as `luck` lasts; the first failure ends it. */
  function Calls(f: Flash, cs: seq<Block>, luck: nat): (Flash, bool)
    decreases |cs|
  {
    if cs == [] then (f, true)
    else if luck == 0 || !f.Holds(cs[0]) then (f, false)
    else Calls(f.Put(cs[0]), cs[1..], luck - 1)
  }

  predicate HoldsAll(f: Flash, blocks: seq<Block>) {
    forall i | 0 <= i < |blocks| :: f.Holds(blocks[i])
  }

  lemma HoldsTail(f: Flash, blocks: seq<Block>)
    requires HoldsAll(f, blocks) && blocks != []
    ensures f.Holds(blocks[0]) && HoldsAll(f.Put(blocks[0]), blocks[1..])
  {
    forall i | 0 <= i < |blocks[1..]| ensures f.Put(blocks[0]).Holds(blocks[1..][i]) {
      assert f.Holds(blocks[i + 1]);
    }
  }

  /** Every block as a whole at its destination. */
  function Overlay(f: Flash, blocks: seq<Block>): (g: Flash)
    requires HoldsAll(f, blocks)
    ensures g.base == f.base && |g.cells| == |f.cells|
    decreases |blocks|
  {
    if blocks == [] then f else HoldsTail(f, blocks); Overlay(f.Put(blocks[0]), blocks[1..])
  }

  // ---------------------------------------------------------------- chunking is harmless

  lemma PutTwice(f: Flash, dest: nat, x: seq<Word>, y: seq<Word>)
    requires f.Holds(Block(dest, x + y))
    ensures f.Holds(Block(dest, x)) && f.Put(Block(dest, x)).Holds(Block(dest + |x|, y))
    ensures f.Put(Block(dest, x)).Put(Block(dest + |x|, y)) == f.Put(Block(dest, x + y))
  {
  }

  lemma {:induction false} CallsAppend(f: Flash, a: seq<Block>, b: seq<Block>, luck: nat)
    ensures !Calls(f, a, luck).1 ==> Calls(f, a + b, luck) == Calls(f, a, luck)
    ensures Calls(f, a, luck).1 ==>
              |a| <= luck && Calls(f, a + b, luck) == Calls(Calls(f, a, luck).0, b, luck - |a|)
    decreases |a|
  {
    if a == [] {
      assert a + b == b;
    } else {
      assert (a + b)[1..] == a[1..] + b;
      if luck > 0 && f.Holds(a[0]) {
        CallsAppend(f.Put(a[0]), a[1..], b, luck - 1);
      }
    }
  }

  lemma {:induction false} SplitCalls(f: Flash, dest: nat, data: seq<Word>, luck: nat)
    requires f.Holds(Block(dest, data)) && luck >= |Split(dest, data)|
    ensures Calls(f, Split(dest, data), luck) == (f.Put(Block(dest, data)), true)
    decreases |data|
  {
    if |data| >= PROG_BUFFER_LENGTH {
      var x, y := data[..PROG_BUFFER_LENGTH], data[PROG_BUFFER_LENGTH..];
      assert x + y == data;
      PutTwice(f, dest, x, y);
      SplitCalls(f.Put(Block(dest, x)), dest + |x|, y, luck - 1);
      assert Split(dest, data)[1..] == Split(dest + |x|, y);
    }
  }

  /** For every list of blocks and every size, programming in chunks of 0x400 words plus
      leftovers leaves what programming the blocks as a whole leaves. */
  lemma {:induction false} ChunkingHarmless(f: Flash, blocks: seq<Block>, luck: nat)
    requires HoldsAll(f, blocks)
    requires luck >= |Chunks(blocks)|
    ensures Calls(f, Chunks(blocks), luck) == (Overlay(f, blocks), true)
    decreases |blocks|
  {
    if blocks != [] {
      HoldsTail(f, blocks);
      var b, g := blocks[0], f.Put(blocks[0]);
      OneBlock(f, b, luck);
      CallsAppend(f, ChunksOf(b), Chunks(blocks[1..]), luck);
      ChunkingHarmless(g, blocks[1..], luck - |ChunksOf(b)|);
    }
  }

  lemma OneBlock(f: Flash, b: Block, luck: nat)
    requires f.Holds(b) && luck >= |ChunksOf(b)|
    ensures Calls(f, ChunksOf(b), luck) == (f.Put(b), true)
  {
    if |b.data| > PROG_BUFFER_LENGTH {
      SplitCalls(f, b.dest, b.data, luck);
    }
  }

  ghost predicate Apart(a: Block, b: Block) {
    a.dest + |a.data| <= b.dest || b.dest + |b.data| <= a.dest
  }

  /** Blocks that do not overlap are all found at their destinations, and nothing else has
      changed. */
  lemma {:induction false} OverlayReads(f: Flash, blocks: seq<Block>, a: nat)
    requires HoldsAll(f, blocks)
    requires forall i, j | 0 <= i < j < |blocks| :: Apart(blocks[i], blocks[j])
    requires f.base <= a < f.base + |f.cells|
    ensures forall i | 0 <= i < |blocks| && blocks[i].dest <= a < blocks[i].dest + |blocks[i].data| ::
              Overlay(f, blocks).cells[a - f.base] == blocks[i].data[a - blocks[i].dest]
    ensures (forall i | 0 <= i < |blocks| :: !(blocks[i].dest <= a < blocks[i].dest + |blocks[i].data|)) ==>
              Overlay(f, blocks).cells[a - f.base] == f.cells[a - f.base]
    decreases |blocks|
  {
    if blocks != [] {
      HoldsTail(f, blocks);
      var t := blocks[1..];
      forall i, j | 0 <= i < j < |t| ensures Apart(t[i], t[j]) {
        assert Apart(blocks[i + 1], blocks[j + 1]);
      }
      OverlayReads(f.Put(blocks[0]), t, a);
      forall i | 0 <= i < |blocks| && blocks[i].dest <= a < blocks[i].dest + |blocks[i].data|
        ensures Overlay(f, blocks).cells[a - f.base] == blocks[i].data[a - blocks[i].dest]
      {
        if i == 0 {
          forall k | 0 <= k < |t| ensures !(t[k].dest <= a < t[k].dest + |t[k].data|) {
            assert Apart(blocks[0], blocks[k + 1]);
          }
        } else {
          assert t[i - 1] == blocks[i];
        }
      }
    }
  }

  // ---------------------------------------------------------------- the image

  ghost predicate Disjoint(blocks: seq<Block>) {
    forall i, j | 0 <= i < j < |blocks| :: Apart(blocks[i], blocks[j])
  }

  predicate Inside(b: Block, a: nat) { b.dest <= a < b.dest + |b.data| }

  /** Every word inside a block is that block's, every other word is 0xFFFF. */
  ghost predicate Imaged(f: Flash, blocks: seq<Block>) {
    forall a | f.base <= a < f.base + |f.cells| :: ImagedAt(f, blocks, a)
  }

  ghost predicate ImagedAt(f: Flash, blocks: seq<Block>, a: nat)
    requires f.base <= a < f.base + |f.cells|
  {
    && (forall i | 0 <= i < |blocks| && Inside(blocks[i], a) :: f.cells[a - f.base] == blocks[i].data[a - blocks[i].dest])
    && ((forall i | 0 <= i < |blocks| :: !Inside(blocks[i], a)) ==> f.cells[a - f.base] == 0xFFFF)
  }

  /** Blocks written into an erased flash. */
  lemma ErasedImage(f: Flash, blocks: seq<Block>)
    requires HoldsAll(f.Erased(), blocks) && Disjoint(blocks)
    ensures Imaged(Overlay(f.Erased(), blocks), blocks)
  {
    hide Overlay, HoldsAll;
    var e := f.Erased();
    var g := Overlay(e, blocks);
    forall a: nat | g.base <= a < g.base + |g.cells| ensures ImagedAt(g, blocks, a) {
      OverlayReads(e, blocks, a);
      assert e.cells[a - e.base] == 0xFFFF;
    }
  }

  lemma {:induction false} SplitHeld(f: Flash, dest: nat, data: seq<Word>, luck: nat)
    ensures Calls(f, Split(dest, data), luck).1 ==> f.Holds(Block(dest, data)) && luck >= |Split(dest, data)|
    decreases |data|
  {
    if |data| >= PROG_BUFFER_LENGTH && luck > 0 && f.Holds(Block(dest, data[..PROG_BUFFER_LENGTH])) {
      var first, rest := Block(dest, data[..PROG_BUFFER_LENGTH]), data[PROG_BUFFER_LENGTH..];
      SplitHeld(f.Put(first), dest + PROG_BUFFER_LENGTH, rest, luck - 1);
      assert Split(dest, data)[1..] == Split(dest + PROG_BUFFER_LENGTH, rest);
    }
  }

  lemma BlockHeld(f: Flash, b: Block, luck: nat)
    ensures Calls(f, ChunksOf(b), luck).1 ==> f.Holds(b) && luck >= |ChunksOf(b)|
  {
    if |b.data| > PROG_BUFFER_LENGTH { SplitHeld(f, b.dest, b.data, luck); }
  }

  /** Calls that all succeed have had room for every block. */
  lemma {:induction false} CallsHeld(f: Flash, blocks: seq<Block>, luck: nat)
    ensures Calls(f, Chunks(blocks), luck).1 ==> HoldsAll(f, blocks) && luck >= |Chunks(blocks)|
    decreases |blocks|
  {
    hide Calls, ChunksOf;
    if blocks == [] {
      assert Chunks(blocks) == [];
    } else {
      var b := blocks[0];
      CallsAppend(f, ChunksOf(b), Chunks(blocks[1..]), luck);
      BlockHeld(f, b, luck);
      if Calls(f, ChunksOf(b), luck).1 {
        OneBlock(f, b, luck);
        CallsHeld(f.Put(b), blocks[1..], luck - |ChunksOf(b)|);
        HeldBefore(f, blocks);
      }
    }
  }

  lemma HeldBefore(f: Flash, blocks: seq<Block>)
    requires blocks != [] && f.Holds(blocks[0])
    ensures HoldsAll(f.Put(blocks[0]), blocks[1..]) ==> HoldsAll(f, blocks)
  {
    if HoldsAll(f.Put(blocks[0]), blocks[1..]) {
      forall i | 0 <= i < |blocks| ensures f.Holds(blocks[i]) {
        if i > 0 { assert f.Put(blocks[0]).Holds(blocks[1..][i - 1]); }
      }
    }
  }

  /** What the flash is when every call has succeeded. */
  lemma CallsImage(f: Flash, blocks: seq<Block>, luck: nat)
    requires Calls(f.Erased(), Chunks(blocks), luck).1 && Disjoint(blocks)
    ensures var g := Calls(f.Erased(), Chunks(blocks), luck).0;
      g.base == f.base && |g.cells| == |f.cells| && Imaged(g, blocks)
  {
    hide Calls, Chunks, Overlay, Imaged, HoldsAll;
    CallsHeld(f.Erased(), blocks, luck);
    ChunkingHarmless(f.Erased(), blocks, luck);
    ErasedImage(f, blocks);
  }

  /** A block can be written exactly when all its words are in the flash. */
  lemma HoldsExact(f: Flash, b: Block)
    requires b.data != []
    ensures f.Holds(b) <==> forall a: nat | Inside(b, a) :: f.base <= a < f.base + |f.cells|
  {
    assert Inside(b, b.dest) && Inside(b, b.dest + |b.data| - 1);
  }

  /** A block takes one call up to 0x400 words. A longer one takes one for each 0x400 words and one
      for what is left, even if nothing is. */
  lemma {:induction false} SplitCount(dest: nat, data: seq<Word>)
    ensures |Split(dest, data)| == |data| / 0x400 + 1
    ensures forall i | 0 <= i < |data| / 0x400 :: |Split(dest, data)[i].data| == 0x400
    decreases |data|
  {
    if |data| >= PROG_BUFFER_LENGTH {
      var rest := data[PROG_BUFFER_LENGTH..];
      SplitCount(dest + PROG_BUFFER_LENGTH, rest);
      assert |data| / 0x400 == |rest| / 0x400 + 1;
      assert Split(dest, data)[1..] == Split(dest + PROG_BUFFER_LENGTH, rest);
      forall i | 0 < i < |data| / 0x400 ensures |Split(dest, data)[i].data| == 0x400 {
        assert Split(dest, data)[i] == Split(dest, data)[1..][i - 1];
      }
    }
  }

  lemma ChunkCount(b: Block)
    ensures |ChunksOf(b)| == if |b.data| <= 0x400 then 1 else |b.data| / 0x400 + 1
  {
    SplitCount(b.dest, b.data);
  }

  /** Least significant byte first, and the most significant word of an address. One word is
      enough for a block. */
  lemma OnWire()
    ensures Sendable([Block(0x3F_4000, [0x1234])])
    ensures Bytes([0x08AA]) == [0xAA, 0x08]
    ensures Encode(Block(0x3F_4000, [0x1234])) == [0x0001, 0x003F, 0x4000, 0x1234]
  {
    assert [0x08AA][1..] == [];
  }
}

/** The loader in the form of its source. The ghost fields say what the bytes stand for. */
module FlashKernel {
  import opened FlashKernelSpec

  class Kernel {
    const progBuf: array<Word>
    var checksum: nat
    var rx: seq<Byte>
    var tx: seq<Byte>
    var flash: Flash
    var luck: nat
    ghost var pending: seq<Word>
    ghost var consumed: seq<Word>
    ghost var sent: seq<Word>
    ghost const input: seq<Word>

    /** The checksums sent and the running one add up to all bytes read so far. */
    ghost predicate Valid()
      reads this
    {
      && progBuf.Length == PROG_BUFFER_LENGTH && checksum < M
      && rx == Bytes(pending) && tx == Bytes(sent)
      && (Sum(sent) + checksum) % M == ByteSum(consumed) % M
      && consumed + pending == input
    }

    /** A kernel in front of the bytes of `words`. */
    constructor (bytes: seq<Byte>, flash: Flash, luck: nat, ghost words: seq<Word>)
      requires bytes == Bytes(words)
      ensures Valid() && fresh(progBuf) && checksum == 0 && this.flash == flash && this.luck == luck
      ensures pending == input == words && consumed == [] && sent == []
    {
      progBuf := new Word[PROG_BUFFER_LENGTH](_ => 0);
      checksum, rx, tx := 0, bytes, [];
      this.flash, this.luck := flash, luck;
      pending, consumed, sent, input := words, [], [], words;
    }

    /** SCIA_GetOnlyWordData() */
    method GetOnlyWordData() returns (w: Word)
      requires Valid() && pending != []
      modifies this`rx, this`checksum, this`pending, this`consumed
      ensures Valid() && w == old(pending[0]) && pending == old(pending[1..])
      ensures consumed == old(consumed) + [w]
      ensures checksum == (old(checksum) + w % 0x100 + w / 0x100) % M
    {
      hide Sum, ByteSum;
      var wordData: nat := rx[0];
      var byteData: nat := rx[1];
      rx := rx[2..];
      w := wordData + byteData * 0x100;
      ByteSumMore(consumed, w);
      AddModulo(Sum(sent), checksum, ByteSum(consumed), wordData + byteData);
      checksum := (checksum + (wordData + byteData)) % M;
      pending := pending[1..];
      consumed := consumed + [w];
    }

    static lemma AddModulo(a: nat, c: nat, b: nat, x: nat)
      requires (a + c) % M == b % M
      ensures (a + (c + x) % M) % M == (b + x) % M
    {
    }

    static lemma ByteSumMore(ws: seq<Word>, w: Word)
      ensures ByteSum(ws + [w]) == ByteSum(ws) + (w % 0x100 + w / 0x100)
    {
      assert (ws + [w])[..|ws|] == ws;
    }

    method GetLongData() returns (longData: nat)
      requires Valid() && |pending| >= 2
      modifies this`rx, this`checksum, this`pending, this`consumed
      ensures Valid() && longData == old(pending[0]) * M + old(pending[1]) && pending == old(pending[2..])
      ensures consumed == old(consumed) + old(pending[..2])
    {
      var hi := GetOnlyWordData();
      var lo := GetOnlyWordData();
      longData := hi * M + lo;
    }

    method SendCheckSum()
      requires Valid()
      modifies this`tx, this`checksum, this`sent
      ensures Valid() && sent == old(sent) + [old(checksum)] && checksum == 0
    {
      tx := tx + [checksum % 0x100];
      tx := tx + [checksum / 0x100];
      ghost var c: Word := checksum;
      sent := sent + [c];
      checksum := 0;
      assert sent[..|sent| - 1] == old(sent);
      BytesMore(old(sent), c);
    }

    static lemma {:induction false} BytesMore(ws: seq<Word>, w: Word)
      ensures Bytes(ws + [w]) == Bytes(ws) + [w % 0x100] + [w / 0x100]
    {
      if ws == [] {
        assert [w][1..] == [];
      } else {
        BytesMore(ws[1..], w);
        assert (ws + [w])[1..] == ws[1..] + [w];
      }
    }

    /** The inner loops: the next `n` words go to the front of the programming buffer. */
    method FillBuffer(n: nat)
      requires Valid() && n <= PROG_BUFFER_LENGTH && n <= |pending|
      modifies this`rx, this`checksum, this`pending, this`consumed, progBuf
      ensures Valid() && progBuf[..n] == old(pending[..n]) && pending == old(pending[n..])
      ensures consumed == old(consumed) + old(pending[..n])
    {
      hide Bytes, Sum, ByteSum;
      var i := 1;
      var ptr := 0;
      while i <= n
        invariant 1 <= i <= n + 1 && ptr == i - 1 && Valid()
        invariant pending == old(pending)[ptr..] && consumed == old(consumed) + old(pending)[..ptr]
        invariant forall k | 0 <= k < ptr :: progBuf[k] == old(pending)[k]
      {
        var wordData := GetOnlyWordData();
        progBuf[ptr] := wordData;
        ptr := ptr + 1;
        i := i + 1;
      }
    }

    /** Flash_Program: `luck` says how many more calls the hardware lets succeed. */
    method FlashProgram(dest: nat, n: nat) returns (ok: bool)
      requires n <= progBuf.Length
      modifies this`flash, this`luck
      ensures ok == (old(luck) > 0 && old(flash).Holds(Block(dest, progBuf[..n])))
      ensures ok ==> flash == old(flash).Put(Block(dest, progBuf[..n])) && luck == old(luck) - 1
      ensures !ok ==> flash == old(flash) && luck == old(luck)
    {
      ok := luck > 0 && flash.Holds(Block(dest, progBuf[..n]));
      if ok {
        flash := flash.Put(Block(dest, progBuf[..n]));
        luck := luck - 1;
      }
    }

    /** Read `n` words, program them, send the checksum. */
    method CopyChunk(dest: nat, n: nat) returns (ok: bool)
      requires Valid() && n <= PROG_BUFFER_LENGTH && n <= |pending|
      modifies this, progBuf
      ensures Valid() && pending == old(pending[n..]) && consumed == old(consumed) + old(pending[..n])
      ensures ok == (old(luck) > 0 && old(flash).Holds(Block(dest, old(pending[..n]))))
      ensures ok ==> flash == old(flash).Put(Block(dest, old(pending[..n]))) && luck == old(luck) - 1
                     && |sent| == old(|sent|) + 1 && checksum == 0
      ensures !ok ==> flash == old(flash) && luck == old(luck) && sent == old(sent)
    {
      hide Flash.Put, Flash.Holds, Bytes, Sum, ByteSum;
      FillBuffer(n);
      ok := FlashProgram(dest, n);
      if !ok { return; }
      SendCheckSum();
    }

    lemma CallsFirst(f: Flash, cs: seq<Block>, luck0: nat)
      requires cs != []
      ensures luck0 == 0 || !f.Holds(cs[0]) ==> Calls(f, cs, luck0) == (f, false)
      ensures luck0 > 0 && f.Holds(cs[0]) ==> Calls(f, cs, luck0) == Calls(f.Put(cs[0]), cs[1..], luck0 - 1)
      ensures luck0 > 0 && f.Holds(cs[0]) && |cs| == 1 ==> Calls(f, cs, luck0) == (f.Put(cs[0]), true)
    {
    }

    static lemma SplitStep(dest: nat, data: seq<Word>)
      ensures Split(dest, data) != []
      ensures |data| < PROG_BUFFER_LENGTH ==> Split(dest, data) == [Block(dest, data)]
      ensures |data| >= PROG_BUFFER_LENGTH ==>
                && Split(dest, data)[0] == Block(dest, data[..PROG_BUFFER_LENGTH])
                && Split(dest, data)[1..] == Split(dest + PROG_BUFFER_LENGTH, data[PROG_BUFFER_LENGTH..])
    {
    }

    /** A block that does not fit into the buffer: full buffers, then the leftovers. */
    method CopyBig(dest0: nat, size: nat, ghost data: seq<Word>, ghost more: seq<Word>) returns (ok: bool)
      requires Valid() && pending == data + more && size == |data|
      modifies this, progBuf
      ensures Valid() && (flash, ok) == Calls(old(flash), Split(dest0, data), old(luck))
      ensures ok ==>
                && pending == more && consumed == old(consumed) + data && checksum == 0
                && luck == old(luck) - |Split(dest0, data)| && |sent| == old(|sent|) + |Split(dest0, data)|
    {
      hide Calls, Split, Flash.Put, Flash.Holds, Bytes, Sum, ByteSum;
      var destAddr, j := dest0, 0;
      while j < size / PROG_BUFFER_LENGTH
        invariant Valid() && j * PROG_BUFFER_LENGTH <= size && destAddr == dest0 + j * PROG_BUFFER_LENGTH
        invariant pending == data[j * PROG_BUFFER_LENGTH..] + more
        invariant consumed == old(consumed) + data[..j * PROG_BUFFER_LENGTH]
        invariant Calls(flash, Split(destAddr, data[j * PROG_BUFFER_LENGTH..]), luck)
               == Calls(old(flash), Split(dest0, data), old(luck))
        invariant luck - |Split(destAddr, data[j * PROG_BUFFER_LENGTH..])| == old(luck) - |Split(dest0, data)|
        invariant |sent| + |Split(destAddr, data[j * PROG_BUFFER_LENGTH..])| == old(|sent|) + |Split(dest0, data)|
      {
        ghost var rest := data[j * PROG_BUFFER_LENGTH..];
        SplitStep(destAddr, rest);
        CallsFirst(flash, Split(destAddr, rest), luck);
        assert pending[..PROG_BUFFER_LENGTH] == rest[..PROG_BUFFER_LENGTH];
        assert pending[PROG_BUFFER_LENGTH..] == rest[PROG_BUFFER_LENGTH..] + more;
        ok := CopyChunk(destAddr, PROG_BUFFER_LENGTH);
        if !ok { return; }
        destAddr := destAddr + PROG_BUFFER_LENGTH;
        j := j + 1;
        assert rest[PROG_BUFFER_LENGTH..] == data[j * PROG_BUFFER_LENGTH..];
        assert data[..j * PROG_BUFFER_LENGTH] == data[..(j - 1) * PROG_BUFFER_LENGTH] + rest[..PROG_BUFFER_LENGTH];
      }
      ghost var rest := data[j * PROG_BUFFER_LENGTH..];
      SplitStep(destAddr, rest);
      CallsFirst(flash, Split(destAddr, rest), luck);
      assert pending[..size % PROG_BUFFER_LENGTH] == rest && pending[size % PROG_BUFFER_LENGTH..] == more;
      assert data == data[..j * PROG_BUFFER_LENGTH] + rest;
      ok := CopyChunk(destAddr, size % PROG_BUFFER_LENGTH);
    }

    /** One block of the list, header without the size. */
    method CopyBlock(size: nat, ghost b: Block, ghost more: seq<Word>) returns (ok: bool)
      requires Valid() && size == |b.data| < M && b.dest < M * M
      requires pending == [b.dest / M, b.dest % M] + b.data + more
      modifies this, progBuf
      ensures Valid() && (flash, ok) == Calls(old(flash), ChunksOf(b), old(luck))
      ensures ok ==>
                && pending == more && consumed == old(consumed) + [b.dest / M, b.dest % M] + b.data
                && checksum == 0
                && luck == old(luck) - |ChunksOf(b)| && |sent| == old(|sent|) + |ChunksOf(b)|
    {
      hide Calls, Split, Flash.Put, Flash.Holds, Bytes, Sum, ByteSum;
      ghost var head := [b.dest / M, b.dest % M];
      assert pending[..2] == head && pending[2..] == b.data + more;
      var destAddr := GetLongData();
      assert destAddr == b.dest;
      if size > PROG_BUFFER_LENGTH {
        ok := CopyBig(destAddr, size, b.data, more);
      } else {
        assert pending[..size] == b.data && pending[size..] == more;
        CallsFirst(flash, [b], luck);
        ok := CopyChunk(destAddr, size);
      }
    }

    /** What the list looks like from the outside, with the size of its first block read. */
    ghost predicate At(left: seq<Block>, rest: seq<Word>, blockSize: nat)
      reads this
    {
      && Valid() && Sendable(left) && pending == Stream(left, rest)[1..]
      && blockSize == (if left == [] then 0 else |left[0].data|)
      && checksum == (blockSize % 0x100 + blockSize / 0x100) % M
    }

    /** The body of the main loop: one block, then the size of the next one. */
    method NextBlock(blockSize: nat, ghost left: seq<Block>, ghost rest: seq<Word>) returns (ok: bool, next: nat)
      requires At(left, rest, blockSize) && left != []
      modifies this, progBuf
      ensures Valid()
      ensures !ok ==> Calls(old(flash), Chunks(left), old(luck)) == (flash, false)
      ensures ok ==>
                && At(left[1..], rest, next)
                && Calls(old(flash), Chunks(left), old(luck)) == Calls(flash, Chunks(left[1..]), luck)
                && |sent| + |Chunks(left[1..])| == old(|sent|) + |Chunks(left)|
    {
      hide Calls, ChunksOf, Bytes, Sum, ByteSum, Flash.Put, Flash.Holds, EncodeAll;
      ghost var b, tail := left[0], left[1..];
      StreamHead(left, rest);
      CallsAppend(flash, ChunksOf(b), Chunks(tail), luck);
      next := 0;
      ok := CopyBlock(blockSize, b, Stream(tail, rest));
      if !ok { return; }
      StreamHead(tail, rest);
      next := GetOnlyWordData();
    }

    /** CopyData(): erase, then blocks until a size of zero. `ok` is the model's name for
        getting to the end; the source returns silently in both cases. */
    method CopyData(ghost blocks: seq<Block>, ghost rest: seq<Word>) returns (ok: bool)
      requires Valid() && Sendable(blocks) && pending == Stream(blocks, rest)
      modifies this, progBuf
      ensures Valid()
      ensures old(luck) == 0 ==> !ok && flash == old(flash) && tx == old(tx) && rx == old(rx)
      ensures old(luck) > 0 ==> (flash, ok) == Calls(old(flash).Erased(), Chunks(blocks), old(luck) - 1)
      ensures ok ==>
                && pending == rest && consumed == old(consumed) + (EncodeAll(blocks) + [0]) && checksum == 0
                && |sent| == old(|sent|) + 1 + |Chunks(blocks)|
      ensures ok && Disjoint(blocks) ==>
                flash.base == old(flash).base && |flash.cells| == |old(flash).cells| && Imaged(flash, blocks)
    {
      hide Calls, Chunks, Bytes, Sum, ByteSum, EncodeAll, Disjoint, Imaged, Flash.Erased;
      ghost var before := flash;
      if luck == 0 { return false; }
      luck := luck - 1;
      flash := flash.Erased();
      SendCheckSum();
      ghost var left, f0, l0 := blocks, flash, luck;
      StreamHead(left, rest);
      var blockSize: nat := GetOnlyWordData();
      while blockSize != 0
        invariant At(left, rest, blockSize)
        invariant Calls(flash, Chunks(left), luck) == Calls(f0, Chunks(blocks), l0)
        invariant |sent| + |Chunks(left)| == old(|sent|) + 1 + |Chunks(blocks)|
        decreases |left|
      {
        ok, blockSize := NextBlock(blockSize, left, rest);
        if !ok { return; }
        left := left[1..];
      }
      StreamHead(left, rest);
      NoBlocks(flash, luck);
      Suffix(consumed, old(consumed) + (EncodeAll(blocks) + [0]), rest);
      if Disjoint(blocks) { CallsImage(before, blocks, l0); }
      ok := true;
    }

    static lemma NoBlocks(f: Flash, l: nat)
      ensures Chunks([]) == [] && Calls(f, [], l) == (f, true)
    {
    }

    static lemma Suffix(a: seq<Word>, b: seq<Word>, c: seq<Word>)
      requires a + c == b + c
      ensures a == b
    {
      assert |a + c| == |b + c|;
      forall i | 0 <= i < |a| ensures a[i] == b[i] {
        assert (a + c)[i] == (b + c)[i];
      }
    }

    static lemma StreamHead(bs: seq<Block>, rest: seq<Word>)
      requires Sendable(bs)
      ensures var s := Stream(bs, rest);
              && |s| > 0 && s[0] == (if bs == [] then 0 else |bs[0].data|)
              && (bs == [] ==> s[1..] == rest)
              && (bs != [] ==>
                    && Sendable(bs[1..]) && 0 < |bs[0].data| < M && bs[0].dest < M * M
                    && s[1..] == [bs[0].dest / M, bs[0].dest % M] + bs[0].data + Stream(bs[1..], rest))
    {
      if bs == [] {
        assert EncodeAll(bs) == [];
      } else {
        EncodeFirst(bs);
        hide EncodeAll;
        var body := [bs[0].dest / M, bs[0].dest % M] + bs[0].data;
        assert Stream(bs, rest) == [|bs[0].data|] + (body + Stream(bs[1..], rest));
      }
    }

    static lemma EncodeFirst(bs: seq<Block>)
      requires Sendable(bs) && bs != []
      ensures Sendable(bs[1..]) && 0 < |bs[0].data| < M && bs[0].dest < M * M
      ensures EncodeAll(bs) == [|bs[0].data|, bs[0].dest / M, bs[0].dest % M] + bs[0].data + EncodeAll(bs[1..])
    {
    }

    /** ReadReservedFn(): eight words are read and dropped. */
    method ReadReserved()
      requires Valid() && |pending| >= 8
      modifies this`rx, this`checksum, this`pending, this`consumed
      ensures Valid() && pending == old(pending[8..]) && consumed == old(consumed) + old(pending[..8])
    {
      hide Bytes, Sum, ByteSum;
      for i := 1 to 9
        invariant Valid() && pending == old(pending)[i - 1..]
        invariant consumed == old(consumed) + old(pending)[..i - 1]
      {
        var _ := GetOnlyWordData();
      }
    }

    /** SCI_Boot() after autobaud lock. With the right key, flash calls that succeed and
        blocks inside the flash, every block ends up at its destination. */
    method SciBoot(ghost blocks: seq<Block>, ghost rest: seq<Word>) returns (entryAddr: nat, ok: bool)
      requires Valid() && checksum == 0 && pending != [] && Sendable(blocks)
      requires pending[0] == KEY_VALUE ==> |pending| >= 11 && pending[11..] == Stream(blocks, rest)
      modifies this, progBuf
      ensures Valid()
      ensures old(pending[0]) != 0x08AA ==> entryAddr == 0x3F_7FF6 && !ok && flash == old(flash)
      ensures old(pending[0]) == 0x08AA ==> entryAddr == old(pending[9]) * M + old(pending[10])
      ensures old(pending[0]) == KEY_VALUE && old(luck) > |Chunks(blocks)|
              && HoldsAll(old(flash).Erased(), blocks) ==>
                ok && flash == Overlay(old(flash).Erased(), blocks) && pending == rest
      ensures ok && Disjoint(blocks) ==>
                flash.base == old(flash).base && |flash.cells| == |old(flash).cells| && Imaged(flash, blocks)
      ensures ok ==> (Sum(sent) - ByteSum(consumed)) % M == 0
    {
      hide Bytes, Sum, ByteSum, EncodeAll, Chunks, Calls, Disjoint, Imaged, Flash.Erased;
      ok := false;
      var key := GetOnlyWordData();
      if key != KEY_VALUE {
        return FLASH_ENTRY_POINT, false;
      }
      ReadReserved();
      entryAddr := GetLongData();
      assert pending == Stream(blocks, rest);
      ghost var f, l := flash.Erased(), luck;
      if l > |Chunks(blocks)| && HoldsAll(f, blocks) {
        ChunkingHarmless(f, blocks, l - 1);
      }
      ok := CopyData(blocks, rest);
      if ok { SumsAgree(Sum(sent), ByteSum(consumed)); }
    }

    static lemma SumsAgree(a: nat, b: nat)
      requires a % M == b % M
      ensures (a - b) % M == 0
    {
    }
  }
}
