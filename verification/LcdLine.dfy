/** Line drawing of the colour display,
    examples/7.Display/LCD_Colour/LCD_Colour.cpp:190-266. The error term is 8 bits wide. */
module LcdLine {
  import opened Arithmetic

  datatype Point = Point(x: int, y: int)

  lemma Int8Twice(a: int, b: int)
    ensures Int8(Int8(a) + b) == Int8(a + b)
  {
  }

  function Max(a: int, b: int): int { if a < b then b else a }

  function Min(a: int, b: int): int { if a < b then a else b }

  // ---------------------------------------------------------------- the unbounded algorithm

  /** The error term after `p.x` steps along x and `p.y` steps along y. */
  function Error(dx: int, dy: int, p: Point): int {
    dx - dy - p.x * dy + p.y * dx
  }

  function Advance(dx: int, dy: int, p: Point, e2: int): Point {
    Point(if e2 > -dy then p.x + 1 else p.x, if e2 < dx then p.y + 1 else p.y)
  }

  /** The steps taken along both axes after `k` rounds. */
  function Walk(dx: int, dy: int, k: nat): Point {
    if k == 0 then Point(0, 0)
    else
      var p := Walk(dx, dy, k - 1);
      Advance(dx, dy, p, 2 * Error(dx, dy, p))
  }

  /** Twice the distance to the true line, scaled by the extent of the major axis. */
  function Off(dx: int, dy: int, p: Point): int {
    2 * (p.y * dx - p.x * dy)
  }

  ghost predicate InBand(dx: int, dy: int, k: nat) {
    var p := Walk(dx, dy, k);
    if dx >= dy
    then p.x == k && -dx <= Off(dx, dy, p) < dx && (dx == dy ==> p.y == k)
    else p.y == k && -dy < Off(dx, dy, p) <= dy
  }

  lemma OffStep(dx: int, dy: int, p: Point, x: int, y: int)
    ensures Off(dx, dy, Point(p.x + x, p.y + y)) == Off(dx, dy, p) + 2 * (y * dx - x * dy)
  {
    assert (p.x + x) * dy == p.x * dy + x * dy;
    assert (p.y + y) * dx == p.y * dx + y * dx;
  }

  lemma ErrorOff(dx: int, dy: int, p: Point)
    ensures 2 * Error(dx, dy, p) == 2 * dx - 2 * dy + Off(dx, dy, p)
  {
  }

  /** Every point is within half a pixel of the line on the minor axis, and every round steps
      along the major axis. */
  lemma {:induction false} WalkInBand(dx: int, dy: int, k: nat)
    requires dx > 0 && dy > 0
    ensures InBand(dx, dy, k)
  {
    if k > 0 {
      WalkInBand(dx, dy, k - 1);
      BandStep(dx, dy, k - 1);
    }
  }

  lemma BandStep(dx: int, dy: int, k: nat)
    requires dx > 0 && dy > 0 && InBand(dx, dy, k)
    ensures InBand(dx, dy, k + 1)
  {
    hide Off, Error;
    var p := Walk(dx, dy, k);
    ErrorOff(dx, dy, p);
    OffStep(dx, dy, p, 1, 1);
    OffStep(dx, dy, p, 1, 0);
    OffStep(dx, dy, p, 0, 1);
    if dx == dy { OffDiagonal(dx, k); }
  }

  lemma OffDiagonal(d: nat, k: nat)
    ensures Off(d, d, Point(k, k)) == 0
  {
  }

  lemma Squeeze(d: int, t: int)
    requires d > 0 && -d <= 2 * (t * d) <= d
    ensures t == 0
  {
    MulAtLeast(t, d);
    MulAtLeast(-t, d);
    assert (-t) * d == -(t * d);
  }

  /** Where the major axis is done, so is the minor one. */
  lemma BandEnd(dx: int, dy: int)
    requires dx > 0 && dy > 0
    ensures Walk(dx, dy, Max(dx, dy)) == Point(dx, dy)
  {
    hide Walk, Off;
    var p := Walk(dx, dy, Max(dx, dy));
    WalkInBand(dx, dy, Max(dx, dy));
    if dx >= dy {
      OffAtWidth(dx, dy, p.y);
      Squeeze(dx, p.y - dy);
    } else {
      OffAtHeight(dx, dy, p.x);
      Squeeze(dy, dx - p.x);
    }
  }

  lemma OffAtWidth(dx: int, dy: int, y: int)
    ensures Off(dx, dy, Point(dx, y)) == 2 * ((y - dy) * dx)
  {
    assert (y - dy) * dx == y * dx - dx * dy;
  }

  lemma OffAtHeight(dx: int, dy: int, x: int)
    ensures Off(dx, dy, Point(x, dy)) == 2 * ((dx - x) * dy)
  {
    assert (dx - x) * dy == dy * dx - x * dy;
  }

  /** The walk ends at the far end of the line after max(dx, dy) rounds and not before. */
  lemma WalkEnds(dx: int, dy: int, k: nat)
    requires dx > 0 && dy > 0 && k <= Max(dx, dy)
    ensures Walk(dx, dy, k) == Point(dx, dy) <==> k == Max(dx, dy)
  {
    hide Walk, Off;
    WalkInBand(dx, dy, k);
    BandEnd(dx, dy);
  }

  /** The walk stays in the rectangle between the two ends. */
  lemma WalkInside(dx: int, dy: int, k: nat)
    requires dx > 0 && dy > 0 && k <= Max(dx, dy)
    ensures 0 <= Walk(dx, dy, k).x <= dx && 0 <= Walk(dx, dy, k).y <= dy
  {
    WalkInBand(dx, dy, k);
    WalkRises(dx, dy, k, Max(dx, dy));
    WalkEnds(dx, dy, Max(dx, dy));
  }

  lemma {:induction false} WalkRises(dx: int, dy: int, k: nat, n: nat)
    requires k <= n
    ensures 0 <= Walk(dx, dy, k).x <= Walk(dx, dy, n).x && 0 <= Walk(dx, dy, k).y <= Walk(dx, dy, n).y
    decreases n
  {
    if n > 0 {
      if k < n { WalkRises(dx, dy, k, n - 1); } else { WalkRises(dx, dy, n - 1, n - 1); }
    }
  }

  // ---------------------------------------------------------------- eight bits

  datatype Pen = Pen(at: Point, e1: int)

  /** One round as the code does it: both updates of `e1` and the doubling are truncated. */
  function Round(dx: int, dy: int, pen: Pen): Pen {
    var e2 := Int8(2 * pen.e1);
    var e := if e2 > -dy then Int8(pen.e1 - dy) else pen.e1;
    Pen(Advance(dx, dy, pen.at, e2), if e2 < dx then Int8(e + dx) else e)
  }

  function Drawn(dx: int, dy: int, k: nat): Pen {
    if k == 0 then Pen(Point(0, 0), Int8(dx - dy)) else Round(dx, dy, Drawn(dx, dy, k - 1))
  }

  /** The code draws the line the algorithm describes. */
  ghost predicate Faithful(dx: int, dy: int) {
    forall k | 0 <= k <= Max(dx, dy) :: Drawn(dx, dy, k).at == Walk(dx, dy, k)
  }

  /** The truncated doubled error term takes the same steps in this round. */
  ghost predicate Agrees(dx: int, dy: int, k: nat) {
    var p := Walk(dx, dy, k);
    Advance(dx, dy, p, Int8(2 * Error(dx, dy, p))) == Advance(dx, dy, p, 2 * Error(dx, dy, p))
  }

  lemma RoundError(dx: int, dy: int, p: Point)
    requires Advance(dx, dy, p, Int8(2 * Error(dx, dy, p))) == Advance(dx, dy, p, 2 * Error(dx, dy, p))
    ensures var q := Advance(dx, dy, p, 2 * Error(dx, dy, p));
      Round(dx, dy, Pen(p, Int8(Error(dx, dy, p)))) == Pen(q, Int8(Error(dx, dy, q)))
  {
    hide Int8, Error;
    Int8Double(Error(dx, dy, p));
    Int8Twice(Error(dx, dy, p) - dy, dx);
    Int8Twice(Error(dx, dy, p), -dy);
    Int8Twice(Error(dx, dy, p), dx);
    ErrorSteps(dx, dy, p);
  }

  lemma Int8Double(e: int)
    ensures Int8(2 * Int8(e)) == Int8(2 * e)
  {
    Int8Twice(e, Int8(e));
    Int8Twice(e, e);
  }

  lemma ErrorSteps(dx: int, dy: int, p: Point)
    ensures Error(dx, dy, Point(p.x + 1, p.y)) == Error(dx, dy, p) - dy
    ensures Error(dx, dy, Point(p.x, p.y + 1)) == Error(dx, dy, p) + dx
    ensures Error(dx, dy, Point(p.x + 1, p.y + 1)) == Error(dx, dy, p) - dy + dx
  {
    assert (p.x + 1) * dy == p.x * dy + dy && (p.y + 1) * dx == p.y * dx + dx;
  }

  /** As long as every round so far took the same steps, so did the drawing. */
  lemma {:induction false} DrawnIsWalk(dx: int, dy: int, k: nat)
    requires forall i | 0 <= i < k :: Agrees(dx, dy, i)
    ensures Drawn(dx, dy, k) == Pen(Walk(dx, dy, k), Int8(Error(dx, dy, Walk(dx, dy, k))))
  {
    hide Int8, Round, Advance;
    if k > 0 {
      DrawnIsWalk(dx, dy, k - 1);
      assert Agrees(dx, dy, k - 1);
      RoundError(dx, dy, Walk(dx, dy, k - 1));
    }
  }

  /** A line is drawn right exactly when every round takes the same steps. */
  lemma FaithfulAgrees(dx: int, dy: int)
    ensures Faithful(dx, dy) <==> forall k | 0 <= k < Max(dx, dy) :: Agrees(dx, dy, k)
  {
    hide Agrees, Drawn, Walk, Error, Int8;
    if k :| 0 <= k < Max(dx, dy) && !Agrees(dx, dy, k) {
      Strays(dx, dy, k);
    } else {
      forall k | 0 <= k <= Max(dx, dy) ensures Drawn(dx, dy, k).at == Walk(dx, dy, k) { DrawnIsWalk(dx, dy, k); }
    }
  }

  lemma {:induction false} Strays(dx: int, dy: int, k: nat)
    requires k < Max(dx, dy) && !Agrees(dx, dy, k)
    ensures !Faithful(dx, dy)
  {
    if i :| 0 <= i < k && !Agrees(dx, dy, i) {
      Strays(dx, dy, i);
    } else {
      hide Int8, Error, Max;
      DrawnIsWalk(dx, dy, k);
      var p := Walk(dx, dy, k);
      Int8Double(Error(dx, dy, p));
      assert Drawn(dx, dy, k + 1).at == Advance(dx, dy, p, Int8(2 * Error(dx, dy, p)));
      assert Drawn(dx, dy, k + 1).at != Walk(dx, dy, k + 1);
    }
  }

  // ---------------------------------------------------------------- greatest common divisor

  function Gcd(a: nat, b: nat): (g: nat)
    requires a > 0
    ensures g > 0
    decreases b
  {
    if b == 0 then a else Gcd(b, a % b)
  }

  lemma {:induction false} GcdDivides(a: nat, b: nat) returns (p: int, q: int)
    requires a > 0
    ensures a == Gcd(a, b) * p && b == Gcd(a, b) * q
    decreases b
  {
    if b == 0 {
      p, q := 1, 0;
    } else {
      var r, t := GcdDivides(b, a % b);
      var n := a / b;
      p, q := r * n + t, r;
      Distribute(Gcd(a, b), r, n, t);
      assert a == b * n + a % b;
    }
  }

  lemma Distribute(g: int, r: int, n: int, t: int)
    ensures g * (r * n + t) == g * r * n + g * t
  {
  }

  lemma {:induction false} Bezout(a: nat, b: nat) returns (x: int, y: int)
    requires a > 0
    ensures x * a + y * b == Gcd(a, b)
    decreases b
  {
    if b == 0 {
      x, y := 1, 0;
    } else {
      var u, v := Bezout(b, a % b);
      var n := a / b;
      x, y := v, u - v * n;
      assert a == b * n + a % b;
      Back(a, b, n, a % b, u, v);
    }
  }

  lemma Back(a: int, b: int, n: int, r: int, u: int, v: int)
    requires a == b * n + r
    ensures v * a + (u - v * n) * b == u * b + v * r
  {
    assert v * (b * n + r) == v * n * b + v * r;
    assert (u - v * n) * b == u * b - v * n * b;
  }

  // ---------------------------------------------------------------- when eight bits are enough

  /** The deviation from the true line, scaled by the extent of the major axis. */
  function Dev(dx: int, dy: int, p: Point): int {
    p.y * dx - p.x * dy
  }

  /** The greatest multiple of `g` below half of `n`. */
  function Reach(n: nat, g: nat): (r: nat)
    requires n > 0 && g > 0
    ensures 2 * r < n
  {
    ReachBelow(n, g);
    g * ((n - 1) / (2 * g))
  }

  lemma ReachBelow(n: nat, g: nat)
    requires n > 0 && g > 0
    ensures 0 <= 2 * (g * ((n - 1) / (2 * g))) < n
  {
    var m := 2 * g;
    var q := (n - 1) / m;
    assert n - 1 == m * q + (n - 1) % m;
    assert m * q == 2 * (g * q);
    NonNegative(m, q, n - 1);
  }

  lemma NonNegative(m: nat, q: int, n: nat)
    requires m > 0 && q == n / m
    ensures q >= 0 && m * q >= 0
  {
  }

  lemma ReachGreatest(n: nat, g: nat, t: int)
    requires n > 0 && g > 0 && 2 * (g * t) < n
    ensures g * t <= Reach(n, g)
  {
    var m := 2 * g;
    var q, r := (n - 1) / m, (n - 1) % m;
    assert n - 1 == m * q + r && r < m;
    assert m * t == 2 * (g * t);
    assert m * (t - q) == m * t - m * q;
    MulAtLeast(t - q, m);
    assert t <= q by { assert (t - q) * m == m * (t - q); }
    MulOrder(g, t, q);
  }

  lemma MulOrder(g: nat, t: int, q: int)
    requires t <= q
    ensures g * t <= g * q
  {
    assert g * q - g * t == g * (q - t);
  }

  /** What a caller can check: the extreme of the doubled error term on this line fits. */
  predicate Narrow(dx: nat, dy: nat)
    requires dx > 0 && dy > 0
  {
    var g := Gcd(dx, dy);
    if dx >= dy then 2 * dx - 2 * dy + 2 * Reach(dx, g) <= 127 else 2 * dy - 2 * dx + 2 * Reach(dy, g) <= 128
  }

  lemma DevDivides(dx: nat, dy: nat, p: Point) returns (t: int)
    requires dx > 0
    ensures Dev(dx, dy, p) == Gcd(dx, dy) * t
  {
    var a, b := GcdDivides(dx, dy);
    t := p.y * a - p.x * b;
    var g := Gcd(dx, dy);
    assert p.y * (g * a) == g * (p.y * a) && p.x * (g * b) == g * (p.x * b);
    assert g * (p.y * a - p.x * b) == g * (p.y * a) - g * (p.x * b);
  }

  /** The deviation stays within the reach on either side. */
  lemma DevBounds(dx: nat, dy: nat, k: nat)
    requires dx > 0 && dy > 0
    ensures dx >= dy ==> Dev(dx, dy, Walk(dx, dy, k)) <= Reach(dx, Gcd(dx, dy))
    ensures dx < dy ==> -Dev(dx, dy, Walk(dx, dy, k)) <= Reach(dy, Gcd(dx, dy))
  {
    hide Walk, Reach, Gcd;
    var p := Walk(dx, dy, k);
    WalkInBand(dx, dy, k);
    var t := DevDivides(dx, dy, p);
    if dx >= dy {
      ReachGreatest(dx, Gcd(dx, dy), t);
    } else {
      assert Gcd(dx, dy) * -t == -(Gcd(dx, dy) * t);
      ReachGreatest(dy, Gcd(dx, dy), -t);
    }
  }

  /** Some multiple of `b` is `target` less than a multiple of `a`, for a multiple of their
      greatest common divisor. */
  lemma Attained(a: nat, b: nat, m: int) returns (k: nat, j: int)
    requires a > 0
    ensures k < a && j * a - k * b == Gcd(a, b) * m
  {
    var x, y := Bezout(a, b);
    k := (-m * y) % a;
    var t := -((-m * y) / a);
    j := m * x + t * b;
    assert -m * y == a * ((-m * y) / a) + k;
    Combine(a, b, m, x, y, t, k, j);
  }

  lemma Combine(a: int, b: int, m: int, x: int, y: int, t: int, k: int, j: int)
    requires k == -m * y + t * a && j == m * x + t * b
    ensures j * a - k * b == (x * a + y * b) * m
  {
    assert j * a == m * x * a + t * b * a;
    assert k * b == -m * y * b + t * a * b;
  }

  /** The band holds one point of each column. */
  lemma OneInBand(d: int, y: int, j: int, rest: int)
    requires d > 0 && -d <= 2 * (y * d - rest) < d && -d <= 2 * (j * d - rest) < d
    ensures y == j
  {
    assert (y - j) * d == (y * d - rest) - (j * d - rest);
    MulAtLeast(y - j, d);
    MulAtLeast(j - y, d);
    assert (j - y) * d == -((y - j) * d);
  }

  /** The walk comes to its extreme deviation before it ends. */
  lemma ExtremeReached(dx: nat, dy: nat) returns (k: nat)
    requires dx > 0 && dy > 0
    ensures k < Max(dx, dy)
    ensures dx >= dy ==> Dev(dx, dy, Walk(dx, dy, k)) == Reach(dx, Gcd(dx, dy))
    ensures dx < dy ==> Dev(dx, dy, Walk(dx, dy, k)) == 0 - Reach(dy, Gcd(dx, dy))
  {
    if dx >= dy { k := FlatExtreme(dx, dy); } else { k := SteepExtreme(dx, dy); }
  }

  lemma FlatExtreme(dx: nat, dy: nat) returns (k: nat)
    requires 0 < dy <= dx
    ensures k < dx && Dev(dx, dy, Walk(dx, dy, k)) == Reach(dx, Gcd(dx, dy))
  {
    hide Walk, Gcd, Off;
    var g := Gcd(dx, dy);
    var j: int;
    k, j := Attained(dx, dy, (dx - 1) / (2 * g));
    var p := Walk(dx, dy, k);
    WalkInBand(dx, dy, k);
    OffDev(dx, dy, p);
    assert Reach(dx, g) == j * dx - k * dy;
    OneInBand(dx, p.y, j, k * dy);
  }

  lemma SteepExtreme(dx: nat, dy: nat) returns (k: nat)
    requires 0 < dx < dy
    ensures k < dy && Dev(dx, dy, Walk(dx, dy, k)) == 0 - Reach(dy, Gcd(dx, dy))
  {
    hide Walk, Gcd, Off;
    GcdSwap(dx, dy);
    var g := Gcd(dx, dy);
    var j: int;
    k, j := Attained(dy, dx, (dy - 1) / (2 * g));
    var p := Walk(dx, dy, k);
    WalkInBand(dx, dy, k);
    OffDev(dx, dy, p);
    assert Reach(dy, g) == j * dy - k * dx;
    OneInBand(dy, p.x, j, k * dx);
  }

  lemma OffDev(dx: int, dy: int, p: Point)
    ensures Off(dx, dy, p) == 2 * Dev(dx, dy, p)
  {
  }

  /** The order of the two extents does not matter. */
  lemma GcdSwap(a: nat, b: nat)
    requires 0 < a < b
    ensures Gcd(a, b) == Gcd(b, a)
  {
    assert a % b == a by { SmallMod(a, b); }
  }

  lemma ErrorDev(dx: int, dy: int, p: Point)
    ensures 2 * Error(dx, dy, p) == 2 * dx - 2 * dy + 2 * Dev(dx, dy, p)
  {
  }

  /** On a flat line a doubled error of at most 127 takes the right steps, also when it is below
      -128; one of 128 or more that should not step along y does. */
  lemma FlatSteps(dx: int, dy: int, v: int)
    requires 0 < dy <= dx <= 255 && dx - 2 * dy <= v < 3 * dx - 2 * dy && (dx == dy ==> v == 0)
    ensures v > -dy
    ensures v <= 127 ==> Int8(v) > -dy && (Int8(v) < dx <==> v < dx)
    ensures v >= 128 && v >= dx ==> Int8(v) < dx
  {
  }

  lemma SteepSteps(dx: int, dy: int, v: int)
    requires 0 < dx < dy <= 255 && 2 * dx - 3 * dy < v <= 2 * dx - dy
    ensures v < dx
    ensures v >= -128 ==> Int8(v) < dx && (Int8(v) > -dy <==> v > -dy)
    ensures v < -128 && v <= -dy ==> Int8(v) > -dy || Int8(v) >= dx
  {
  }

  /** Flat lines: within the range every round agrees, and beyond it a round that should not
      step along y does. */
  lemma FlatAgrees(dx: int, dy: int, k: nat)
    requires 0 < dy <= dx <= 255
    ensures var v := 2 * Error(dx, dy, Walk(dx, dy, k));
      (v <= 127 ==> Agrees(dx, dy, k)) && (v >= 128 && v >= dx ==> !Agrees(dx, dy, k))
  {
    hide Error, Off, Walk, Int8;
    var p := Walk(dx, dy, k);
    WalkInBand(dx, dy, k);
    ErrorOff(dx, dy, p);
    if dx == dy { OffDiagonal(dx, k); }
    FlatSteps(dx, dy, 2 * Error(dx, dy, p));
  }

  lemma SteepAgrees(dx: int, dy: int, k: nat)
    requires 0 < dx < dy <= 255
    ensures var v := 2 * Error(dx, dy, Walk(dx, dy, k));
      (v >= -128 ==> Agrees(dx, dy, k)) && (v < -128 && v <= -dy ==> !Agrees(dx, dy, k))
  {
    hide Error, Off, Walk, Int8;
    var p := Walk(dx, dy, k);
    WalkInBand(dx, dy, k);
    ErrorOff(dx, dy, p);
    SteepSteps(dx, dy, 2 * Error(dx, dy, p));
  }

  /** At its extreme the walk does not step along the minor axis. */
  lemma ExtremeStays(dx: nat, dy: nat, k: nat)
    requires dx > 0 && dy > 0 && dx != dy
    ensures dx > dy && Dev(dx, dy, Walk(dx, dy, k)) == Reach(dx, Gcd(dx, dy)) ==>
      2 * Error(dx, dy, Walk(dx, dy, k)) >= dx
    ensures dx < dy && Dev(dx, dy, Walk(dx, dy, k)) == 0 - Reach(dy, Gcd(dx, dy)) ==>
      2 * Error(dx, dy, Walk(dx, dy, k)) <= 0 - dy
  {
    hide Reach, Gcd, Error, Off;
    var p := Walk(dx, dy, k);
    WalkInBand(dx, dy, k);
    ErrorOff(dx, dy, p);
    DevBounds(dx, dy, k + 1);
    DevSteps(dx, dy, p);
    OffDev(dx, dy, p);
  }

  lemma DevSteps(dx: int, dy: int, p: Point)
    ensures Dev(dx, dy, Point(p.x + 1, p.y)) == Dev(dx, dy, p) - dy
    ensures Dev(dx, dy, Point(p.x, p.y + 1)) == Dev(dx, dy, p) + dx
    ensures Dev(dx, dy, Point(p.x + 1, p.y + 1)) == Dev(dx, dy, p) + dx - dy
  {
    assert (p.x + 1) * dy == p.x * dy + dy && (p.y + 1) * dx == p.y * dx + dx;
  }

  /** For every line: eight bits are enough exactly when the extreme error fits. */
  lemma FaithfulExact(dx: nat, dy: nat)
    requires 0 < dx <= 255 && 0 < dy <= 255
    ensures Faithful(dx, dy) <==> Narrow(dx, dy)
  {
    hide Agrees, Walk, Drawn, Faithful, Gcd, Reach, Error, Dev;
    FaithfulAgrees(dx, dy);
    if Narrow(dx, dy) {
      forall k | 0 <= k < Max(dx, dy) ensures Agrees(dx, dy, k) { NarrowAgrees(dx, dy, k); }
    } else {
      var k := WideDisagrees(dx, dy);
    }
  }

  lemma NarrowAgrees(dx: nat, dy: nat, k: nat)
    requires 0 < dx <= 255 && 0 < dy <= 255 && Narrow(dx, dy)
    ensures Agrees(dx, dy, k)
  {
    hide Agrees, Walk, Gcd, Reach, Error, Dev;
    DevBounds(dx, dy, k);
    ErrorDev(dx, dy, Walk(dx, dy, k));
    if dx >= dy { FlatAgrees(dx, dy, k); } else { SteepAgrees(dx, dy, k); }
  }

  lemma WideDisagrees(dx: nat, dy: nat) returns (k: nat)
    requires 0 < dx <= 255 && 0 < dy <= 255 && !Narrow(dx, dy)
    ensures k < Max(dx, dy) && !Agrees(dx, dy, k)
  {
    hide Agrees, Walk, Gcd, Reach, Error, Dev;
    k := ExtremeReached(dx, dy);
    ErrorDev(dx, dy, Walk(dx, dy, k));
    if dx == dy { DiagonalNarrow(dx); }
    ExtremeStays(dx, dy, k);
    if dx >= dy { FlatAgrees(dx, dy, k); } else { SteepAgrees(dx, dy, k); }
  }

  lemma DiagonalNarrow(d: nat)
    requires 0 < d <= 255
    ensures Narrow(d, d)
  {
    assert Gcd(d, d) == d;
    SmallQuotient(d);
  }

  lemma SmallQuotient(d: nat)
    requires d > 0
    ensures (d - 1) / (2 * d) == 0
  {
  }

  /** On a line of 44 by 1 the doubled error term overflows in round 23 and the pen leaves
      the line. */
  lemma WideLineStrays()
    ensures Drawn(44, 1, 24).at == Point(23, 2) && Walk(44, 1, 24).x == 24
    ensures !Faithful(44, 1)
  {
    hide Walk, Round, Error, Off;
    DrawnFlat(22);
    StrayRounds();
    assert Drawn(44, 1, 23) == Round(44, 1, Drawn(44, 1, 22));
    assert Drawn(44, 1, 24) == Round(44, 1, Drawn(44, 1, 23));
    WalkInBand(44, 1, 24);
    assert Drawn(44, 1, 24).at != Walk(44, 1, 24);
  }

  lemma StrayRounds()
    ensures Round(44, 1, Pen(Point(22, 0), 21)) == Pen(Point(23, 1), 64)
    ensures Round(44, 1, Pen(Point(23, 1), 64)).at == Point(23, 2)
  {
  }

  lemma {:induction false} DrawnFlat(k: nat)
    requires k <= 22
    ensures Drawn(44, 1, k) == Pen(Point(k, 0), 43 - k)
  {
    if k > 0 { DrawnFlat(k - 1); }
  }

  /** Every line with extents up to `b` is drawn faithfully exactly when `b` is at most 43. */
  lemma ExactBound(b: nat)
    ensures (forall dx: nat, dy: nat | 0 < dx <= b && 0 < dy <= b :: Faithful(dx, dy)) <==> b <= 43
  {
    hide Faithful;
    if b <= 43 {
      forall dx: nat, dy: nat | 0 < dx <= b && 0 < dy <= b ensures Faithful(dx, dy) {
        SmallIsNarrow(dx, dy);
        FaithfulExact(dx, dy);
      }
    } else {
      WideLineStrays();
    }
  }

  lemma SmallIsNarrow(dx: nat, dy: nat)
    requires 0 < dx <= 43 && 0 < dy <= 43
    ensures Narrow(dx, dy)
  {
    hide Reach, Gcd;
    var _ := Reach(dx, Gcd(dx, dy));
    var _ := Reach(dy, Gcd(dx, dy));
  }

  // ---------------------------------------------------------------- the drawing code

  function Distance(a: int, b: int): (d: nat)
    ensures a != b ==> d > 0
  {
    if a < b then b - a else a - b
  }

  function Sign(a: int, b: int): int { if a < b then 1 else -1 }

  /** The pixel that lies the steps of `p` away from `a` in the direction of `b`. */
  function Placed(a: Point, b: Point, p: Point): Point {
    Point(a.x + Sign(a.x, b.x) * p.x, a.y + Sign(a.y, b.y) * p.y)
  }

  /** The point of the line after `k` rounds. */
  function OnLine(a: Point, b: Point, k: nat): Point {
    Placed(a, b, Walk(Distance(a.x, b.x), Distance(a.y, b.y), k))
  }

  function Points(a: Point, b: Point, n: nat): (s: seq<Point>)
    ensures |s| == n && forall k | 0 <= k < n :: s[k] == OnLine(a, b, k)
  {
    seq(n, k requires 0 <= k < n => OnLine(a, b, k))
  }

  ghost predicate Byte(n: int) { 0 <= n < 256 }

  class Lcd {
    var pixels: seq<Point>

    constructor ()
      ensures pixels == []
    {
      pixels := [];
    }

    /** `line` between two points that differ in both coordinates. */
    method Angled(x1: int, y1: int, x2: int, y2: int)
      requires Byte(x1) && Byte(y1) && Byte(x2) && Byte(y2) && x1 != x2 && y1 != y2
      requires Narrow(Distance(x1, x2), Distance(y1, y2))
      modifies this
      ensures var n := Max(Distance(x1, x2), Distance(y1, y2));
        pixels == old(pixels) + Points(Point(x1, y1), Point(x2, y2), n + 1)
    {
      hide Walk, Drawn, Int8, Points, OnLine, Placed, Round, Narrow;
      var sx, sy := Sign(x1, x2), Sign(y1, y2);
      var dx: int, dy: int := Distance(x1, x2), Distance(y1, y2);
      var x: int, y: int, e1: int := x1, y1, Int8(dx - dy);
      ghost var a, b, k := Point(x1, y1), Point(x2, y2), 0;
      FirstPoint(a, b);
      while true
        invariant 0 <= k <= Max(dx, dy)
        invariant Point(x, y) == Placed(a, b, Drawn(dx, dy, k).at) && e1 == Drawn(dx, dy, k).e1
        invariant pixels == old(pixels) + Points(a, b, k)
        decreases Max(dx, dy) - k
      {
        DrawnOnLine(a, b, k);
        PointsSnoc(a, b, k);
        pixels := pixels + [Point(x, y)];
        AtEnd(a, b, k);
        if x == x2 && y == y2 { break; }
        NextRound(a, b, dx, dy, k);
        var e2 := Int8(2 * e1);
        if e2 > -dy {
          e1 := Int8(e1 - dy);
          x := x + sx;
        }
        if e2 < dx {
          e1 := Int8(e1 + dx);
          y := y + sy;
        }
        k := k + 1;
      }
    }

    /** `line`: a run of pixels when the ends share a coordinate; its 8-bit length is 0 when the
        run is 256 pixels long. */
    method Line(x1: int, y1: int, x2: int, y2: int)
      requires Byte(x1) && Byte(y1) && Byte(x2) && Byte(y2)
      requires x1 != x2 && y1 != y2 ==> Narrow(Distance(x1, x2), Distance(y1, y2))
      modifies this
      ensures y1 == y2 ==> pixels == old(pixels) + Run(LeastOf(x1, x2), y1, 1, 0, (Distance(x1, x2) + 1) % 256)
      ensures y1 == y2 && Distance(x1, x2) < 255 ==>
        var n := |old(pixels)|;
        && |pixels| == n + Distance(x1, x2) + 1 && pixels[|pixels| - 1] == Point(Max(x1, x2), y1)
        && forall k | n <= k < |pixels| :: pixels[k] == Point(Min(x1, x2) + (k - n), y1)
      ensures y1 != y2 && x1 == x2 && Distance(y1, y2) < 255 ==>
        var n := |old(pixels)|;
        && |pixels| == n + Distance(y1, y2) + 1 && pixels[|pixels| - 1] == Point(x1, Max(y1, y2))
        && forall k | n <= k < |pixels| :: pixels[k] == Point(x1, Min(y1, y2) + (k - n))
      ensures y1 != y2 && x1 == x2 ==>
        pixels == old(pixels) + Run(x1, LeastOf(y1, y2), 0, 1, (Distance(y1, y2) + 1) % 256)
      ensures y1 != y2 && x1 != x2 ==>
        var n := Max(Distance(x1, x2), Distance(y1, y2));
        pixels == old(pixels) + Points(Point(x1, y1), Point(x2, y2), n + 1)
    {
      var yFrom, yTo := if y1 > y2 then y2 else y1, if y1 > y2 then y1 else y2;
      var xFrom, xTo := if x1 > x2 then x2 else x1, if x1 > x2 then x1 else x2;
      if yFrom == yTo {
        Fill(xFrom, yFrom, 1, 0, (xTo - xFrom + 1) % 256);
      } else if xFrom == xTo {
        Fill(xFrom, yFrom, 0, 1, (yTo - yFrom + 1) % 256);
      } else {
        Angled(x1, y1, x2, y2);
      }
    }

    /** The area is set once; each write moves on to its next pixel. */
    method Fill(x: int, y: int, sx: int, sy: int, count: nat)
      modifies this
      ensures pixels == old(pixels) + Run(x, y, sx, sy, count)
    {
      var d := count;
      while d > 0
        invariant 0 <= d <= count && pixels == old(pixels) + Run(x, y, sx, sy, count - d)
      {
        ghost var k := count - d;
        assert Run(x, y, sx, sy, k + 1) == Run(x, y, sx, sy, k) + [Point(x + k * sx, y + k * sy)];
        pixels := pixels + [Point(x + (count - d) * sx, y + (count - d) * sy)];
        d := d - 1;
      }
    }
  }

  function LeastOf(a: int, b: int): int { if a > b then b else a }

  function Run(x: int, y: int, sx: int, sy: int, n: nat): (s: seq<Point>)
    ensures |s| == n
  {
    seq(n, k requires 0 <= k < n => Point(x + k * sx, y + k * sy))
  }

  lemma FirstPoint(a: Point, b: Point)
    ensures Points(a, b, 0) == []
    ensures var pen := Drawn(Distance(a.x, b.x), Distance(a.y, b.y), 0);
      Placed(a, b, pen.at) == a && pen.e1 == Int8(Distance(a.x, b.x) - Distance(a.y, b.y))
  {
  }

  lemma PointsSnoc(a: Point, b: Point, k: nat)
    ensures Points(a, b, k + 1) == Points(a, b, k) + [OnLine(a, b, k)]
  {
  }

  /** The drawing reaches the far end in its last round and not before. */
  lemma AtEnd(a: Point, b: Point, k: nat)
    requires a.x != b.x && a.y != b.y && k <= Max(Distance(a.x, b.x), Distance(a.y, b.y))
    ensures OnLine(a, b, k) == b <==> k == Max(Distance(a.x, b.x), Distance(a.y, b.y))
  {
    hide Walk;
    WalkEnds(Distance(a.x, b.x), Distance(a.y, b.y), k);
  }

  lemma DrawnOnLine(a: Point, b: Point, k: nat)
    requires a.x != b.x && a.y != b.y && Narrow(Distance(a.x, b.x), Distance(a.y, b.y))
    requires Distance(a.x, b.x) <= 255 && Distance(a.y, b.y) <= 255
    ensures OnLine(a, b, k) == Placed(a, b, Drawn(Distance(a.x, b.x), Distance(a.y, b.y), k).at)
  {
    hide Narrow, Agrees, Distance, Walk, Drawn, Placed, Int8, Error;
    var dx, dy := Distance(a.x, b.x), Distance(a.y, b.y);
    forall i | 0 <= i < k ensures Agrees(dx, dy, i) { NarrowAgrees(dx, dy, i); }
    DrawnIsWalk(dx, dy, k);
  }

  lemma PlacedStep(a: Point, b: Point, p: Point, e2: int, dx: int, dy: int)
    ensures var q := Placed(a, b, p);
      Placed(a, b, Advance(dx, dy, p, e2)) ==
        Point(if e2 > -dy then q.x + Sign(a.x, b.x) else q.x, if e2 < dx then q.y + Sign(a.y, b.y) else q.y)
  {
  }

  /** One round of the drawing, seen from the pixel it is at. */
  lemma NextRound(a: Point, b: Point, dx: int, dy: int, k: nat)
    ensures var pen := Drawn(dx, dy, k);
      var e2 := Int8(2 * pen.e1);
      var q := Placed(a, b, pen.at);
      var e := if e2 > -dy then Int8(pen.e1 - dy) else pen.e1;
      && Placed(a, b, Drawn(dx, dy, k + 1).at) ==
        Point(if e2 > -dy then q.x + Sign(a.x, b.x) else q.x, if e2 < dx then q.y + Sign(a.y, b.y) else q.y)
      && Drawn(dx, dy, k + 1).e1 == if e2 < dx then Int8(e + dx) else e
  {
    hide Int8, Sign, Placed, Advance;
    var pen := Drawn(dx, dy, k);
    PlacedStep(a, b, pen.at, Int8(2 * pen.e1), dx, dy);
  }
}
