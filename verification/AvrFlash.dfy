/** Self-programming flash of the AVR bootloaders (hardware/arduino/bootloaders/optiboot/boot.h:695-730):
    erase sets a page to 0xFF, a temporary buffer is filled word by word, and a page write
    can only clear bits and leaves the temporary buffer blank. */
module AvrFlash {
  import opened Arithmetic

  function Low(w: bv16): bv8 { (w & 0xFF) as bv8 }

  function High(w: bv16): bv8 { (w >> 8) as bv8 }

  function Word(lo: bv8, hi: bv8): bv16 { (lo as bv16) | ((hi as bv16) << 8) }

  lemma WordBytes(lo: bv8, hi: bv8)
    ensures Low(Word(lo, hi)) == lo && High(Word(lo, hi)) == hi
  {
  }

  lemma BytesWord(w: bv16)
    ensures Word(Low(w), High(w)) == w
  {
  }

  /** The low byte counts ones, the high byte 256s. */
  lemma WordNumber(lo: bv8, hi: bv8)
    ensures Word(lo, hi) as nat == lo as nat + 256 * (hi as nat)
  {
    hide Word;
    WordParts(lo, hi);
    PartsNumber(Word(lo, hi));
    Shifted(hi as bv16);
  }

  lemma WordParts(lo: bv8, hi: bv8)
    ensures Word(lo, hi) & 0xFF == lo as bv16 && Word(lo, hi) & 0xFF00 == (hi as bv16) << 8
  {
  }

  lemma PartsNumber(w: bv16)
    ensures w as nat == (w & 0xFF00) as nat + (w & 0xFF) as nat
  {
  }

  lemma Shifted(h: bv16)
    requires h <= 0xFF
    ensures (h << 8) as nat == 256 * (h as nat)
  {
  }

  function Blank(n: nat): (s: seq<bv8>)
    ensures |s| == n && forall i | 0 <= i < n :: s[i] == 0xFF
  {
    seq(n, i => 0xFF)
  }

  function And(x: seq<bv8>, y: seq<bv8>): (r: seq<bv8>)
    requires |x| == |y|
    ensures |r| == |x|
  {
    seq(|x|, i requires 0 <= i < |x| => x[i] & y[i])
  }

  /** The image with `data` at address `a`. */
  function Place(cells: seq<bv8>, a: nat, data: seq<bv8>): (r: seq<bv8>)
    requires a + |data| <= |cells|
    ensures |r| == |cells|
    ensures forall i | 0 <= i < |cells| :: r[i] == if a <= i < a + |data| then data[i - a] else cells[i]
  {
    cells[..a] + data + cells[a + |data|..]
  }

  // ---------------------------------------------------------------- page arithmetic

  lemma PageFits(a: nat, n: nat, p: nat)
    requires p > 0 && n % p == 0 && a < n
    ensures a - a % p + p <= n && a - a % p >= 0
  {
    var q, k := a / p, n / p;
    assert a == p * q + a % p && n == p * k;
    MulMono(p, k, q);
    MulMono(p, q + 1, k);
  }

  lemma InPage(a: nat, k: nat, p: nat)
    requires p > 0 && a % p == 0 && k < p
    ensures (a + k) % p == k
  {
    var q := a / p;
    assert a + k == p * q + k;
    ModUnique(a + k, p, q, k);
  }

  lemma NextPage(a: nat, p: nat)
    requires p > 0 && a % p == 0
    ensures (a + p) % p == 0
  {
    assert a + p == p * (a / p + 1);
    ModUnique(a + p, p, a / p + 1, 0);
  }

  datatype Device = Device(page: nat, cells: seq<bv8>, temp: seq<bv8>) {

    ghost predicate Valid() {
      page > 0 && page % 2 == 0 && |temp| == page && |cells| % page == 0
    }

    function Erase(a: nat): (d: Device)
      requires Valid() && a < |cells|
      ensures d.Valid() && d.page == page && |d.cells| == |cells| && d.temp == temp
    {
      PageFits(a, |cells|, page);
      this.(cells := Place(cells, a - a % page, Blank(page)))
    }

    /** The low bit of the address and the page number do not matter. */
    function Fill(a: nat, w: bv16): (d: Device)
      requires Valid()
      ensures d.Valid() && d.page == page && d.cells == cells
    {
      var o := a % page;
      FillOffset(o, page);
      this.(temp := temp[o - o % 2 := Low(w)][o - o % 2 + 1 := High(w)])
    }

    function Write(a: nat): (d: Device)
      requires Valid() && a < |cells|
      ensures d.Valid() && d.page == page && |d.cells| == |cells| && d.temp == Blank(page)
    {
      PageFits(a, |cells|, page);
      var b := a - a % page;
      this.(cells := Place(cells, b, And(cells[b..b + page], temp)), temp := Blank(page))
    }
  }

  lemma FillOffset(o: nat, p: nat)
    requires p % 2 == 0 && o < p
    ensures o - o % 2 + 1 < p
  {
  }

  // ---------------------------------------------------------------- programming a page

  /** The first `k` bytes of `data` are in the temporary buffer, the rest is as it was. */
  ghost predicate LoadedOver(d: Device, data: seq<bv8>, k: nat, under: seq<bv8>) {
    && k <= |data| && k <= d.page == |d.temp| == |under|
    && forall i | 0 <= i < d.page :: d.temp[i] == if i < k then data[i] else under[i]
  }

  /** The rest is blank. */
  ghost predicate Loaded(d: Device, data: seq<bv8>, k: nat) {
    LoadedOver(d, data, k, Blank(d.page))
  }

  lemma FillStep(d: Device, a: nat, data: seq<bv8>, k: nat, under: seq<bv8>)
    requires d.Valid() && a % d.page == 0 && k % 2 == 0
    requires k + 2 <= |data| && k + 2 <= d.page && LoadedOver(d, data, k, under)
    ensures LoadedOver(d.Fill(a + k, Word(data[k], data[k + 1])), data, k + 2, under)
  {
    InPage(a, k, d.page);
    WordBytes(data[k], data[k + 1]);
  }

  /** Writing to any address inside an erased page stores the temporary buffer there. */
  lemma WriteErased(d: Device, a: nat, base: nat)
    requires d.Valid() && base % d.page == 0 && base <= a < base + d.page <= |d.cells|
    requires forall i | base <= i < base + d.page :: d.cells[i] == 0xFF
    ensures d.Write(a).cells == Place(d.cells, base, d.temp)
  {
    hide And, Place;
    InPage(base, a - base, d.page);
    assert a - a % d.page == base;
    AndErased(d.cells[base..base + d.page], d.temp);
  }

  lemma AndErased(x: seq<bv8>, y: seq<bv8>)
    requires |x| == |y| && forall i | 0 <= i < |x| :: x[i] == 0xFF
    ensures And(x, y) == y
  {
    forall i | 0 <= i < |x| ensures x[i] & y[i] == y[i] {
      AndOnes(x[i], y[i]);
    }
  }

  lemma AndOnes(x: bv8, y: bv8)
    requires x == 0xFF
    ensures x & y == y
  {
  }

  lemma EraseAligned(d: Device, a: nat, base: nat)
    requires d.Valid() && base % d.page == 0 && base <= a < base + d.page <= |d.cells|
    ensures d.Erase(a).cells == Place(d.cells, base, Blank(d.page))
  {
    InPage(base, a - base, d.page);
  }

  /** Placing over a placed block of the same size forgets the first one. */
  lemma PlaceOver(cells: seq<bv8>, a: nat, first: seq<bv8>, second: seq<bv8>)
    requires a + |first| <= |cells| && |first| == |second|
    ensures Place(Place(cells, a, first), a, second) == Place(cells, a, second)
  {
  }

  // ---------------------------------------------------------------- filling word by word

  /** Fill the temporary buffer with the first `k` bytes of `data`, from address `a` on. */
  function FillAll(d: Device, a: nat, data: seq<bv8>, k: nat, wrap: nat): (r: Device)
    requires d.Valid() && k <= |data| && wrap > 0
    ensures r.Valid() && r.page == d.page && r.cells == d.cells
  {
    if k < 2 then d
    else FillAll(d, a, data, k - 2, wrap).Fill((a + (k - 2)) % wrap, Word(data[k - 2], data[k - 1]))
  }

  lemma FillNone(d: Device, a: nat, data: seq<bv8>, wrap: nat)
    requires d.Valid() && wrap > 0
    ensures FillAll(d, a, data, 0, wrap) == d
  {
  }

  lemma FillMore(d: Device, a: nat, data: seq<bv8>, k: nat, wrap: nat)
    requires d.Valid() && k + 2 <= |data| && wrap > 0
    ensures FillAll(d, a, data, k + 2, wrap)
         == FillAll(d, a, data, k, wrap).Fill((a + k) % wrap, Word(data[k], data[k + 1]))
  {
  }

  lemma LoadedNone(d: Device, data: seq<bv8>)
    requires d.temp == Blank(d.page)
    ensures Loaded(d, data, 0)
  {
  }

  lemma {:induction false} FillAligned(d: Device, a: nat, data: seq<bv8>, k: nat, wrap: nat)
    requires d.Valid() && a % d.page == 0 && a + d.page <= wrap
    requires d.temp == Blank(d.page) && k % 2 == 0 && k <= d.page && k <= |data|
    ensures Loaded(FillAll(d, a, data, k, wrap), data, k)
  {
    hide Loaded, FillAll;
    if k == 0 {
      FillNone(d, a, data, wrap);
      LoadedNone(d, data);
    } else {
      FillAligned(d, a, data, k - 2, wrap);
      FillAlignedStep(d, a, data, k - 2, wrap);
    }
  }

  lemma FillAlignedStep(d: Device, a: nat, data: seq<bv8>, k: nat, wrap: nat)
    requires d.Valid() && a % d.page == 0 && a + d.page <= wrap
    requires k % 2 == 0 && k + 2 <= d.page && k + 2 <= |data|
    requires Loaded(FillAll(d, a, data, k, wrap), data, k)
    ensures Loaded(FillAll(d, a, data, k + 2, wrap), data, k + 2)
  {
    hide FillAll, LoadedOver, Word, Device.Fill;
    FillMore(d, a, data, k, wrap);
    SmallMod(a + k, wrap);
    FillStep(FillAll(d, a, data, k, wrap), a, data, k, Blank(d.page));
  }

  /** Erasing, filling and writing an aligned page stores exactly the buffer there. */
  lemma BurnAligned(d: Device, a: nat, data: seq<bv8>, wrap: nat)
    requires d.Valid() && a % d.page == 0 && a + d.page <= |d.cells| <= wrap
    requires d.temp == Blank(d.page) && d.page <= |data|
    ensures FillAll(d.Erase(a), a, data, d.page / 2 * 2, wrap).Write(a).cells == Place(d.cells, a, data[..d.page])
  {
    var e := d.Erase(a);
    EraseAligned(d, a, a);
    FillAligned(e, a, data, d.page / 2 * 2, wrap);
    var f := FillAll(e, a, data, d.page / 2 * 2, wrap);
    assert f.temp == data[..d.page];
    WriteErased(f, a, a);
    PlaceOver(d.cells, a, Blank(d.page), data[..d.page]);
  }
}
