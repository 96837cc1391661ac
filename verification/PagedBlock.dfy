/** Storing a block in flash page by page: whatever the bootloader, the pages before `off` are
    finished and at most one page is open (erased, with part of its data loaded). */
module PagedBlock {
  import opened Arithmetic
  import opened AvrFlash

  function PageOf(a: nat, p: nat): (b: nat)
    requires p > 0
    ensures b <= a
  {
    a - Small(a, p)
  }

  function Small(a: nat, p: nat): (m: nat)
    requires p > 0
    ensures m == a % p <= a
  {
    if a < p then a else a % p
  }

  // ---------------------------------------------------------------- the block as whole pages

  /** The data, filled up with 0xFF to whole pages. */
  function Padded(data: seq<bv8>, p: nat): (full: seq<bv8>)
    requires p > 0
    ensures |full| % p == 0 && |data| <= |full| < |data| + p
    ensures full[..|data|] == data && forall i | |data| <= i < |full| :: full[i] == 0xFF
  {
    PadLength(|data|, p);
    data + Blank((p - |data| % p) % p)
  }

  lemma PadLength(n: nat, p: nat)
    requires p > 0
    ensures (n + (p - n % p) % p) % p == 0
  {
    var q, r := n / p, n % p;
    assert n == p * q + r;
    if r == 0 {
      ModUnique(p, p, 1, 0);
    } else {
      ModUnique(p - r, p, 0, p - r);
      PadUp(n, p, q, r);
    }
  }

  lemma PadUp(n: nat, p: nat, q: nat, r: nat)
    requires n == p * q + r && 0 < r < p
    ensures (n + (p - r)) % p == 0
  {
    assert n + (p - r) == p * (q + 1);
    ModUnique(n + (p - r), p, q + 1, 0);
  }

  /** The base addresses of the pages of `[a, a + n)`, in order. */
  function Pages(a: nat, n: nat, p: nat): seq<nat>
    requires p > 0
  {
    if n < p then [] else Pages(a, n - p, p) + [a + n - p]
  }

  /** `left` is what the temporary buffer holds when the job begins. */
  /** A page of data with what is left of a page buffer behind it. */
  function OnePage(data: seq<bv8>, left: seq<bv8>, p: nat): (full: seq<bv8>)
    requires |data| < p == |left|
    ensures |full| == p && |full| % p == 0 && full[..|data|] == data
    ensures forall i | |data| <= i < |full| :: full[i] == left[i]
  {
    ModUnique(p, p, 1, 0);
    data + left[|data|..]
  }

  /** The data in whole pages. What fills up the last page is 0xFF, unless it is also the first
      one: then the rest of the temporary buffer shows. */
  function Filled(data: seq<bv8>, left: seq<bv8>, p: nat): (full: seq<bv8>)
    requires p > 0
    ensures |full| % p == 0 && |data| <= |full| < |data| + p && full[..|data|] == data
    ensures forall i | |data| <= i < |full| :: full[i] == if 0 < |data| < p == |left| then left[i] else 0xFF
  {
    if 0 < |data| < p == |left| then OnePage(data, left, p) else Padded(data, p)
  }

  datatype Job = Job(cells: seq<bv8>, a: nat, data: seq<bv8>, p: nat, left: seq<bv8>) {
    ghost predicate Valid() {
      && p > 0 && p % 2 == 0 && a % p == 0 && |cells| % p == 0 && |data| % 2 == 0 && |left| == p
      && a + |Full()| <= |cells|
    }

    function Full(): seq<bv8>
      requires p > 0
    {
      Filled(data, left, p)
    }

    /** What the temporary buffer holds before the page at `off` is loaded. */
    function Under(off: nat): seq<bv8> { if off == 0 then left else Blank(p) }
  }

  lemma SmallRest(n: nat, p: nat)
    requires 0 < n < p
    ensures n + (p - n % p) % p == p && p % p == 0
  {
    SmallMod(n, p);
    SmallMod(p - n, p);
    ModUnique(p, p, 1, 0);
  }

  /** As long as the padded data is. */
  lemma FullLength(j: Job)
    requires j.p > 0
    ensures |j.Full()| == |Padded(j.data, j.p)|
  {
    if 0 < |j.data| < j.p == |j.left| { SmallRest(|j.data|, j.p); }
  }

  /** The last page is filled up with 0xFF exactly when the data fill the first page or what was
      left over behind them is blank. */
  lemma PaddingExact(j: Job)
    requires j.p > 0 && |j.left| == j.p && |j.data| > 0
    ensures j.Full() == Padded(j.data, j.p) <==>
      (|j.data| < j.p ==> forall i | |j.data| <= i < j.p :: j.left[i] == 0xFF)
  {
    FullLength(j);
    var full, padded := j.Full(), Padded(j.data, j.p);
    if |j.data| < j.p {
      SmallRest(|j.data|, j.p);
      if full == padded {
        forall i | |j.data| <= i < j.p ensures j.left[i] == 0xFF { assert full[i] == padded[i]; }
      }
      assert forall i | 0 <= i < |j.data| :: full[i] == full[..|j.data|][i] && padded[i] == padded[..|j.data|][i];
    }
  }

  lemma BlankFull(j: Job)
    requires j.p > 0 && j.left == Blank(j.p)
    ensures j.Full() == Padded(j.data, j.p)
  {
    if |j.data| > 0 { PaddingExact(j); }
  }

  ghost predicate Sound(j: Job, d: Device) {
    d.Valid() && d.page == j.p && |d.cells| == |j.cells|
  }

  /** The pages before `off` are finished and none is open. */
  ghost predicate Clean(j: Job, d: Device, off: nat)
    requires j.Valid()
  {
    && Sound(j, d) && off % j.p == 0 && off <= |j.Full()|
    && d.temp == j.Under(off)
    && d.cells == Place(j.cells, j.a, j.Full()[..off])
  }

  /** The page at `off` is erased and `n` of its bytes are loaded. */
  ghost predicate Open(j: Job, d: Device, off: nat, n: nat)
    requires j.Valid()
  {
    && Sound(j, d) && off % j.p == 0 && off + j.p <= |j.Full()|
    && d.cells == Place(Place(j.cells, j.a, j.Full()[..off]), j.a + off, Blank(j.p))
    && n % 2 == 0 && n <= j.p && LoadedOver(d, j.Full()[off..], n, j.Under(off))
  }

  lemma OpenFacts(j: Job, d: Device, off: nat, n: nat)
    requires j.Valid() && Open(j, d, off, n)
    ensures Sound(j, d) && off % j.p == 0 && off + j.p <= |j.Full()| && d.page == j.p && n % 2 == 0 && n <= j.p
  {
  }

  lemma CleanFacts(j: Job, d: Device, off: nat)
    requires j.Valid() && Clean(j, d, off)
    ensures Sound(j, d) && off % j.p == 0 && off <= |j.Full()| && d.page == j.p
  {
  }

  lemma JobAligned(j: Job)
    requires j.Valid()
    ensures j.p > 0 && j.p % 2 == 0 && j.a % j.p == 0 && |j.data| % 2 == 0 && |j.data| <= |j.Full()|
  {
  }

  // ---------------------------------------------------------------- erase, load, write

  lemma EraseOpens(j: Job, d: Device, z: nat, off: nat)
    requires j.Valid() && Clean(j, d, off) && z == j.a + off && off < |j.data|
    ensures Sound(j, d) && z < |d.cells|
    ensures Open(j, d.Erase(z), off, 0)
  {
    NextAligned(j, off);
    EraseAligned(d, z, z);
  }

  /** A page base below the end of the data has its whole page inside the padded data. */
  lemma NextAligned(j: Job, off: nat)
    requires j.Valid() && off % j.p == 0 && off < |j.data|
    ensures off + j.p <= |j.Full()| && (off + j.p) % j.p == 0
    ensures (j.a + off) % j.p == 0 && j.a + off + j.p <= |j.cells|
  {
    PageFits(off, |j.Full()|, j.p);
    NextPage(off, j.p);
    Aligned(j.a, off, j.p);
  }

  lemma Aligned(a: nat, b: nat, p: nat)
    requires p > 0 && a % p == 0 && b % p == 0
    ensures (a + b) % p == 0
  {
    assert a + b == p * (a / p + b / p);
    ModUnique(a + b, p, a / p + b / p, 0);
  }

  lemma LoadKeepsOpen(j: Job, d: Device, z: nat, off: nat, n: nat)
    requires j.Valid() && Open(j, d, off, n) && n < j.p && off + n < |j.data|
    requires z == j.a + off + n
    ensures Sound(j, d) && off + n + 1 < |j.data|
    ensures Open(j, d.Fill(z, Word(j.data[off + n], j.data[off + n + 1])), off, n + 2)
  {
    hide Place, Pages, Word, LoadedOver, Device.Fill, Padded;
    Aligned(j.a, off, j.p);
    Spot(j, off, n);
    NextData(j, off, n);
    Evens(0, n, j.p);
    FillStep(d, j.a + off, j.Full()[off..], n, j.Under(off));
  }

  lemma NextData(j: Job, off: nat, n: nat)
    requires j.Valid() && off + n + 1 < |j.data|
    ensures j.Full()[off..][n] == j.data[off + n] && j.Full()[off..][n + 1] == j.data[off + n + 1]
  {
    assert j.Full()[..|j.data|] == j.data;
  }

  lemma Halves(off: nat, p: nat)
    requires p > 0 && p % 2 == 0 && off % p == 0
    ensures off % 2 == 0
  {
    assert off == 2 * (p / 2 * (off / p)) by {
      assert off == p * (off / p) && p == 2 * (p / 2);
    }
  }

  lemma WriteCells(j: Job, d: Device, z: nat, off: nat, n: nat)
    requires j.Valid() && Open(j, d, off, n) && (n == j.p || off + n == |j.data|)
    requires j.a + off <= z < j.a + off + j.p
    ensures Sound(j, d) && z < |d.cells|
    ensures d.Write(z).cells == Place(j.cells, j.a, j.Full()[..off + j.p])
  {
    hide Pages, Padded, LoadedOver, Place, Device.Write;
    var full := j.Full();
    Aligned(j.a, off, j.p);
    TempIsPage(j, d, off, n);
    BlankPlaced(Place(j.cells, j.a, full[..off]), j.a + off, j.p);
    WriteErased(d, z, j.a + off);
    WriteOver(j.cells, j.a, full, off, j.p);
  }

  lemma BlankPlaced(cells: seq<bv8>, a: nat, p: nat)
    requires a + p <= |cells|
    ensures forall i | a <= i < a + p :: Place(cells, a, Blank(p))[i] == 0xFF
  {
  }

  lemma WriteOver(cells: seq<bv8>, a: nat, full: seq<bv8>, off: nat, p: nat)
    requires off + p <= |full| && a + |full| <= |cells|
    ensures Place(Place(Place(cells, a, full[..off]), a + off, Blank(p)), a + off, full[off..off + p])
         == Place(cells, a, full[..off + p])
  {
    hide Place, Blank;
    PlaceOver(Place(cells, a, full[..off]), a + off, Blank(p), full[off..off + p]);
    PlaceTwo(cells, a, full, off, off + p);
  }

  lemma PageLogged(a: nat, off: nat, p: nat, z: nat)
    requires p > 0 && (a + off) % p == 0 && a + off <= z < a + off + p
    ensures PageOf(z, p) == a + off && Pages(a, off + p, p) == Pages(a, off, p) + [a + off]
  {
    InPage(a + off, z - (a + off), p);
  }

  /** Writing finishes the page, whether it is full or the data ended inside it. */
  lemma WriteCloses(j: Job, d: Device, z: nat, off: nat, n: nat)
    requires j.Valid() && Open(j, d, off, n) && (n == j.p || off + n == |j.data|)
    requires j.a + off <= z < j.a + off + j.p
    ensures Sound(j, d) && z < |d.cells|
    ensures Clean(j, d.Write(z), off + j.p)
  {
    hide Pages, Padded, LoadedOver, Place;
    WriteCells(j, d, z, off, n);
    NextPage(off, j.p);
    Aligned(j.a, off, j.p);
  }

  lemma TempIsPage(j: Job, d: Device, off: nat, n: nat)
    requires j.Valid() && Open(j, d, off, n) && (n == j.p || off + n == |j.data|)
    ensures d.temp == j.Full()[off..off + j.p]
  {
    hide Place, Pages;
    var full := j.Full();
    forall i | 0 <= i < j.p ensures d.temp[i] == full[off..off + j.p][i] {
      assert full[off..][i] == full[off + i];
    }
  }

  lemma PlaceTwo(cells: seq<bv8>, a: nat, full: seq<bv8>, m: nat, n: nat)
    requires m <= n <= |full| && a + |full| <= |cells|
    ensures Place(Place(cells, a, full[..m]), a + m, full[m..n]) == Place(cells, a, full[..n])
  {
  }

  lemma Spot(j: Job, off: nat, n: nat)
    requires j.Valid() && off % j.p == 0 && off + n < |j.data| && n % 2 == 0
    ensures j.a + off + n < |j.cells| && off + n + 1 < |j.data|
  {
    hide Padded;
    Halves(off, j.p);
    Evens(off, n, |j.data|);
  }

  lemma Evens(x: nat, y: nat, z: nat)
    requires x % 2 == 0 && y % 2 == 0 && z % 2 == 0 && x + y < z
    ensures x + y + 1 < z
  {
  }

  /** A whole number of pages that covers the data is all of the padded data. */
  lemma LastPage(j: Job, off: nat, next: nat)
    requires j.Valid() && off % j.p == 0 && next == off + j.p && off < |j.data| <= next <= |j.Full()|
    ensures next == |j.Full()|
  {
    NextPage(off, j.p);
    if next < |j.Full()| { PageFits(next, |j.Full()|, j.p); }
  }

  lemma Covered(j: Job, off: nat)
    requires j.Valid() && off % j.p == 0 && off == |j.data|
    ensures off == |j.Full()|
  {
    if off < |j.Full()| { PageFits(off, |j.Full()|, j.p); }
  }

  /** A page-aligned block that fits the flash fits it in whole pages. */
  lemma PaddedFits(a: nat, data: seq<bv8>, p: nat, n: nat)
    requires p > 0 && a % p == 0 && n % p == 0 && |data| > 0 && a + |data| <= n
    ensures a + |Padded(data, p)| <= n
  {
    var full := Padded(data, p);
    Aligned(a, |full|, p);
    LastBase(a + |full|, n, p);
  }

  lemma LastBase(x: nat, n: nat, p: nat)
    requires p > 0 && x % p == 0 && n % p == 0 && x < n + p
    ensures x <= n
  {
    if x > n {
      NextPage(n, p);
      PageFits(n, x, p);
    }
  }

  // ---------------------------------------------------------------- what the final image says

  /** The pages are the aligned addresses of the block, in rising order, so none comes twice. */
  lemma {:induction false} PagesOnce(a: nat, n: nat, p: nat)
    requires p > 0 && a % p == 0 && n % p == 0
    ensures forall x: nat :: x in Pages(a, n, p) <==> a <= x < a + n && x % p == 0
    ensures forall i, k | 0 <= i < k < |Pages(a, n, p)| :: Pages(a, n, p)[i] < Pages(a, n, p)[k]
  {
    if n >= p {
      LastPageBase(a, n, p);
      PagesOnce(a, n - p, p);
      Rising(Pages(a, n - p, p), a + n - p);
    } else {
      NoPage(a, n, p);
    }
  }

  lemma NoPage(a: nat, n: nat, p: nat)
    requires n < p && n % p == 0
    ensures n == 0 && Pages(a, n, p) == []
  {
  }

  lemma Rising(q: seq<nat>, x: nat)
    requires forall i, k | 0 <= i < k < |q| :: q[i] < q[k]
    requires forall y: nat | y in q :: y < x
    ensures forall i, k | 0 <= i < k < |q + [x]| :: (q + [x])[i] < (q + [x])[k]
  {
    forall i | 0 <= i < |q| ensures q[i] < x {
      assert q[i] in q;
    }
  }

  lemma LastPageBase(a: nat, n: nat, p: nat)
    requires p > 0 && a % p == 0 && n % p == 0 && n >= p
    ensures (n - p) % p == 0 && (a + n - p) % p == 0
    ensures forall x: nat :: a + n - p <= x < a + n && x % p == 0 ==> x == a + n - p
  {
    assert n - p == p * (n / p - 1) by { assert n == p * (n / p); }
    ModUnique(n - p, p, n / p - 1, 0);
    Aligned(a, n - p, p);
    forall x: nat | a + n - p <= x < a + n && x % p == 0 ensures x == a + n - p {
      LastBase(x, a + n - p, p);
    }
  }

  /** What the final image says: the block holds the data, the last page is filled up with
      0xFF, and every byte of a page that was not written is the old one. */
  lemma BlockStored(cells: seq<bv8>, a: nat, data: seq<bv8>, p: nat)
    requires p > 0 && a % p == 0 && a + |Padded(data, p)| <= |cells|
    ensures var image := Place(cells, a, Padded(data, p));
      && image[a..a + |data|] == data
      && (forall i | a + |data| <= i < a + |Padded(data, p)| :: image[i] == 0xFF)
      && (forall i | 0 <= i < |cells| && PageOf(i, p) !in Pages(a, |Padded(data, p)|, p) :: image[i] == cells[i])
  {
    var full := Padded(data, p);
    var image := Place(cells, a, full);
    assert image[a..a + |full|] == full;
    assert image[a..a + |data|] == full[..|data|];
    PagesOnce(a, |full|, p);
    forall i | a <= i < a + |full| ensures PageOf(i, p) in Pages(a, |full|, p) {
      BaseInside(i, a, |full|, p);
    }
  }

  lemma BaseInside(i: nat, a: nat, n: nat, p: nat)
    requires p > 0 && a % p == 0 && n % p == 0 && a <= i < a + n
    ensures PageOf(i, p) % p == 0 && a <= PageOf(i, p) < a + n
  {
    assert PageOf(i, p) == p * (i / p);
    ModUnique(PageOf(i, p), p, i / p, 0);
    LastBase(a, PageOf(i, p), p);
  }
}
