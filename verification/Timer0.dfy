/** The timer 0 clock, hardware/arduino/cores/arduino/wiring.c:29-119. A timer tick is 64 clock
    cycles, an overflow 256 ticks; `unsigned long` is 32 bits wide. */
module Timer0Spec {
  import opened Arithmetic

  const LONG := 0x1_0000_0000
  const FRACT_MAX := 125

  /** The microseconds of one overflow, cut down to what the eighths in `timer0_fract` can hold. */
  function Counted(us: nat): nat { us - us % 8 }

  lemma IncrementsCount(us: nat)
    ensures 1000 * (us / 1000) + 8 * (us % 1000 / 8) == Counted(us)
  {
    var q, r := us / 1000, us % 1000;
    assert us == 1000 * q + r;
    Eighths(q, r / 8, r % 8);
    assert r == 8 * (r / 8) + r % 8;
  }

  lemma Eighths(q: nat, s: nat, t: nat)
    requires t < 8
    ensures (1000 * q + (8 * s + t)) % 8 == t
  {
    assert 1000 * q + (8 * s + t) == 8 * (125 * q + s) + t;
  }

  /** Milliseconds and eighths of 1/125 of one after `n` overflows, with no bound on either. */
  function Clock(us: nat, n: nat): (nat, nat) {
    if n == 0 then (0, 0)
    else
      var (m, f) := Clock(us, n - 1);
      var g := f + us % 1000 / 8;
      if g >= FRACT_MAX then (m + us / 1000 + 1, g - FRACT_MAX) else (m + us / 1000, g)
  }

  /** The two counters always add up to the time that was counted. */
  lemma {:induction false} ClockAddsUp(us: nat, n: nat)
    ensures 1000 * Clock(us, n).0 + 8 * Clock(us, n).1 == n * Counted(us)
    ensures Clock(us, n).1 < FRACT_MAX
  {
    if n > 0 {
      ClockAddsUp(us, n - 1);
      IncrementsCount(us);
      assert n * Counted(us) == (n - 1) * Counted(us) + Counted(us);
    }
  }

  lemma ClockStep(us: nat, n: nat)
    ensures Clock(us, n).1 < FRACT_MAX && us % 1000 / 8 < FRACT_MAX
    ensures var (m, f) := Clock(us, n);
      var g := f + us % 1000 / 8;
      Clock(us, n + 1) == if g >= FRACT_MAX then (m + us / 1000 + 1, g - FRACT_MAX) else (m + us / 1000, g)
  {
    ClockAddsUp(us, n);
  }

  lemma WrapPlus(a: nat, q: nat)
    ensures (a + LONG * q) % LONG == a % LONG
  {
  }

  lemma WrapMul(a: nat, k: nat)
    ensures a % LONG * k % LONG == a * k % LONG
  {
    var q, r := a / LONG, a % LONG;
    assert a == r + LONG * q;
    assert a * k == r * k + LONG * (q * k);
    WrapPlus(r * k, q * k);
  }

  /** The 32-bit arithmetic of `micros` gives the product modulo 2^32. */
  lemma WrapTicks(m: nat, t: nat, scale: nat)
    ensures (m % LONG * 256 + t) % LONG * scale % LONG == (256 * m + t) * scale % LONG
  {
    WrapMul(m, 256);
    AddMod(m % LONG * 256, t, LONG);
    AddMod(m * 256, t, LONG);
    WrapMul(256 * m + t, scale);
  }

  lemma MillisCounted(us: nat, n: nat)
    ensures Clock(us, n).0 == n * Counted(us) / 1000
  {
    ClockAddsUp(us, n);
    Quotient(Clock(us, n).0, 1000, 8 * Clock(us, n).1);
  }

  /** The millisecond count is the exact floor of the elapsed time, however many overflows there
      were, exactly when an overflow takes a multiple of eight microseconds. */
  lemma MillisExact(us: nat)
    ensures (forall n: nat :: Clock(us, n).0 == n * us / 1000) <==> us % 8 == 0
  {
    if us % 8 == 0 {
      forall n: nat ensures Clock(us, n).0 == n * us / 1000 { MillisCounted(us, n); }
    } else {
      ClockAddsUp(us, 1000);
      assert Clock(us, 1000).0 < us;
      assert 1000 * us / 1000 == us;
    }
  }

  // ---------------------------------------------------------------- micros

  /** `micros` in ticks: `handled` overflows have been counted, the counter is read at tick
      `read` and the overflow flag at tick `flagged`, with interrupts off. */
  function Ticks(handled: nat, read: nat, flagged: nat): int {
    var t := read % 256;
    var m := if flagged / 256 > handled && t < 255 then handled + 1 else handled;
    256 * m + t
  }

  /** At most one overflow is waiting, and the flag is read within a tick of the counter. */
  ghost predicate Reading(handled: nat, read: nat, flagged: nat) {
    handled <= read / 256 && flagged / 256 <= handled + 1 && read <= flagged <= read + 1
  }

  /** The reading is the tick count except in the last tick before a second overflow, where it
      is 256 ticks behind. */
  lemma TicksExact(handled: nat, read: nat, flagged: nat)
    requires Reading(handled, read, flagged)
    ensures Ticks(handled, read, flagged) == read <==> !(read / 256 == handled + 1 && read % 256 == 255)
    ensures Ticks(handled, read, flagged) == read || Ticks(handled, read, flagged) == read - 256
  {
    var q, t := read / 256, read % 256;
    assert read == 256 * q + t;
    if t < 255 { assert flagged / 256 == q; }
  }

  // ---------------------------------------------------------------- delay

  ghost predicate Rising(readings: seq<nat>) {
    forall i, j | 0 <= i <= j < |readings| :: readings[i] <= readings[j]
  }

  /** The milliseconds still to wait after `k` readings following the first; `readings` are the
      true times, the code only sees them modulo 2^16. */
  function Left(readings: seq<nat>, ms: nat, k: nat): (left: nat)
    requires k < |readings|
    ensures left <= ms
  {
    if k == 0 then ms
    else
      var left := Left(readings, ms, k - 1);
      if left > 0 && Lag(readings, ms, left, k) >= 1000 then left - 1 else left
  }

  /** `(uint16_t)micros() - start`, where `start` has moved on by 1000 for each millisecond. */
  function Lag(readings: seq<nat>, ms: nat, left: nat, k: nat): nat
    requires k < |readings| && left <= ms
  {
    (readings[k] % 0x1_0000 + 0x1_0000 - Start(readings, ms - left)) % 0x1_0000
  }

  /** `start` after `passed` milliseconds. */
  function Start(readings: seq<nat>, passed: nat): (s: nat)
    requires readings != []
    ensures s < 0x1_0000
  {
    (readings[0] + 1000 * passed) % 0x1_0000
  }

  lemma StartMoves(readings: seq<nat>, passed: nat)
    requires readings != []
    ensures Start(readings, 0) == readings[0] % 0x1_0000
    ensures (Start(readings, passed) + 1000) % 0x1_0000 == Start(readings, passed + 1)
  {
    AddMod(readings[0] + 1000 * passed, 1000, 0x1_0000);
  }

  lemma LagWraps(r: nat, s: nat)
    requires s <= r
    ensures (r % 0x1_0000 + 0x1_0000 - s % 0x1_0000) % 0x1_0000 == (r - s) % 0x1_0000
  {
    var a, b := r / 0x1_0000, s / 0x1_0000;
    var x, y := r % 0x1_0000, s % 0x1_0000;
    assert r - s == 0x1_0000 * (a - b) + (x - y);
  }

  /** The reading is below the time that `start` stands for. */
  ghost predicate Behind(readings: seq<nat>, ms: nat, k: nat)
    requires 0 < k < |readings|
  {
    readings[k] < readings[0] + 1000 * (ms - Left(readings, ms, k - 1))
  }

  /** Whatever the readings and their aliasing, the milliseconds counted have passed at a reading
      exactly when it is not behind `start`. */
  lemma CountedExact(readings: seq<nat>, ms: nat, k: nat)
    requires 0 < k < |readings|
    ensures readings[k] >= readings[0] + 1000 * (ms - Left(readings, ms, k)) <==> !Behind(readings, ms, k)
  {
    hide Start;
    var left := Left(readings, ms, k - 1);
    var start := readings[0] + 1000 * (ms - left);
    if readings[k] >= start {
      LagWraps(readings[k], start);
      LagIs(readings, ms, left, k);
    }
  }

  lemma LagIs(readings: seq<nat>, ms: nat, left: nat, k: nat)
    requires k < |readings| && left <= ms
    ensures var start := readings[0] + 1000 * (ms - left);
      Lag(readings, ms, left, k) == (readings[k] % 0x1_0000 + 0x1_0000 - start % 0x1_0000) % 0x1_0000
  {
  }

  /** For rising readings a millisecond is only counted when it has passed. */
  lemma {:induction false} NeverEarly(readings: seq<nat>, ms: nat, k: nat)
    requires Rising(readings) && k < |readings|
    ensures readings[k] >= readings[0] + 1000 * (ms - Left(readings, ms, k))
  {
    if k > 0 {
      NeverEarly(readings, ms, k - 1);
      assert readings[k - 1] <= readings[k];
      CountedExact(readings, ms, k);
    }
  }

  // ---------------------------------------------------------------- delay over micros

  /** When `micros` was called, as in `Ticks`. */
  datatype Moment = Moment(handled: nat, read: nat, flagged: nat)

  /** `micros` in its one bad tick. */
  predicate Late(m: Moment) { m.read / 256 == m.handled + 1 && m.read % 256 == 255 }

  /** The readings are those that `micros` gives at these moments, one after the other. */
  ghost predicate Sampled(moments: seq<Moment>, scale: nat, readings: seq<nat>) {
    && |moments| == |readings|
    && (forall i, j | 0 <= i <= j < |moments| :: moments[i].read <= moments[j].read)
    && forall i | 0 <= i < |moments| ::
         var m := moments[i]; Reading(m.handled, m.read, m.flagged) && readings[i] == scale * Ticks(m.handled, m.read, m.flagged)
  }

  lemma SampleExact(moments: seq<Moment>, scale: nat, readings: seq<nat>, k: nat)
    requires Sampled(moments, scale, readings) && k < |readings|
    ensures readings[k] == scale * moments[k].read - if Late(moments[k]) then 256 * scale else 0
  {
    var m := moments[k];
    TicksExact(m.handled, m.read, m.flagged);
    assert scale * (m.read - 256) == scale * m.read - 256 * scale;
  }

  /** A reading in the bad tick comes at least 256 ticks after `start`. */
  ghost predicate Clear(moments: seq<Moment>, scale: nat, readings: seq<nat>, ms: nat, k: nat)
    requires |moments| == |readings| && 0 < k < |readings|
  {
    Late(moments[k]) ==>
      scale * moments[k].read >= readings[0] + 1000 * (ms - Left(readings, ms, k - 1)) + 256 * scale
  }

  /** No millisecond is counted too early up to a reading exactly when every reading in the bad
      tick is clear of `start`. */
  lemma LateReadings(moments: seq<Moment>, scale: nat, readings: seq<nat>, ms: nat, n: nat)
    requires Sampled(moments, scale, readings) && n < |readings|
    ensures (forall k | 0 < k <= n :: !Behind(readings, ms, k)) <==>
      forall k | 0 < k <= n :: Clear(moments, scale, readings, ms, k)
  {
    hide Behind, Clear, Ticks;
    if forall k | 0 < k <= n :: Clear(moments, scale, readings, ms, k) {
      forall k: nat | 0 < k <= n ensures !Behind(readings, ms, k) { ClearSoFar(moments, scale, readings, ms, k); }
    } else if forall k | 0 < k <= n :: !Behind(readings, ms, k) {
      forall k: nat | 0 < k <= n ensures Clear(moments, scale, readings, ms, k) {
        NextSample(moments, scale, readings, ms, k);
      }
    }
  }

  lemma {:induction false} ClearSoFar(moments: seq<Moment>, scale: nat, readings: seq<nat>, ms: nat, n: nat)
    requires Sampled(moments, scale, readings) && 0 < n < |readings|
    requires forall k | 0 < k <= n :: Clear(moments, scale, readings, ms, k)
    ensures !Behind(readings, ms, n)
    decreases n
  {
    hide Behind, Clear, Ticks;
    if n > 1 { ClearSoFar(moments, scale, readings, ms, n - 1); }
    NextSample(moments, scale, readings, ms, n);
  }

  /** After a reading that was not behind only one in the bad tick can be. */
  lemma NextSample(moments: seq<Moment>, scale: nat, readings: seq<nat>, ms: nat, k: nat)
    requires Sampled(moments, scale, readings) && 0 < k < |readings|
    requires k > 1 ==> !Behind(readings, ms, k - 1)
    ensures Clear(moments, scale, readings, ms, k) <==> !Behind(readings, ms, k)
  {
    hide Late, Sampled, Left;
    SampleExact(moments, scale, readings, k);
    SampleExact(moments, scale, readings, k - 1);
    if k > 1 { CountedExact(readings, ms, k - 1); } else { NothingCounted(readings, ms); }
    SampledRises(moments, scale, readings, k);
  }

  lemma NothingCounted(readings: seq<nat>, ms: nat)
    requires readings != []
    ensures Left(readings, ms, 0) == ms
  {
  }

  lemma SampledRises(moments: seq<Moment>, scale: nat, readings: seq<nat>, k: nat)
    requires Sampled(moments, scale, readings) && 0 < k < |readings|
    ensures scale * moments[k - 1].read <= scale * moments[k].read
  {
    hide Reading, Ticks;
    MulMono(scale, moments[k - 1].read, moments[k].read);
  }

  /** When a delay returns early in true time. Between two good or two bad readings, exactly when
      the last one is behind `start`; otherwise the 256 ticks of the bad one count. */
  lemma ReturnsEarly(moments: seq<Moment>, scale: nat, readings: seq<nat>, ms: nat, n: nat)
    requires Sampled(moments, scale, readings) && 0 < n < |readings| && Left(readings, ms, n) == 0
    ensures var first, last := Late(moments[0]), Late(moments[n]);
      scale * moments[n].read < scale * moments[0].read + 1000 * ms <==>
        if first == last then Behind(readings, ms, n)
        else if last then readings[n] + 256 * scale < readings[0] + 1000 * ms
        else readings[n] < readings[0] + 1000 * ms + 256 * scale
  {
    hide Sampled, Late, Left;
    SampleExact(moments, scale, readings, 0);
    SampleExact(moments, scale, readings, n);
    CountedExact(readings, ms, n);
  }

  /** `delay(3)` at 16 MHz with interrupts off: the reading in the bad tick counts the third
      millisecond after 2044 microseconds. */
  lemma DelayReturnsEarly()
    ensures var moments := [Moment(0, 0, 0), Moment(0, 250, 250), Moment(0, 500, 500), Moment(0, 511, 511)];
      var readings := [0, 1000, 2000, 1020];
      && Sampled(moments, 4, readings) && Left(readings, 3, 2) == 1 && Left(readings, 3, 3) == 0
      && 4 * moments[3].read < 4 * moments[0].read + 3000
  {
    BadTick();
    hide Left, Sampled;
    var readings := [0, 1000, 2000, 1020];
    NothingCounted(readings, 3);
    LeftNext(readings, 3, 1, 3);
    LeftNext(readings, 3, 2, 2);
    LeftNext(readings, 3, 3, 1);
  }

  lemma BadTick()
    ensures Sampled([Moment(0, 0, 0), Moment(0, 250, 250), Moment(0, 500, 500), Moment(0, 511, 511)], 4,
                    [0, 1000, 2000, 1020])
  {
    assert Ticks(0, 0, 0) == 0 && Ticks(0, 250, 250) == 250 && Ticks(0, 500, 500) == 500 && Ticks(0, 511, 511) == 255;
  }

  lemma LeftNext(readings: seq<nat>, ms: nat, k: nat, left: nat)
    requires 0 < k < |readings| && 0 < left <= ms && Left(readings, ms, k - 1) == left
    ensures Left(readings, ms, k) == if Lag(readings, ms, left, k) >= 1000 then left - 1 else left
  {
  }

  /** The milliseconds that have not passed yet. */
  function Due(readings: seq<nat>, ms: nat, k: nat): int
    requires k < |readings|
  {
    var passed: int := Since(readings, k) / 1000;
    if passed <= ms then ms - passed else 0
  }

  function Since(readings: seq<nat>, k: nat): int
    requires k < |readings|
  {
    var first: int, now: int := readings[0], readings[k];
    now - first
  }

  /** Unless the wait is over, no more than one millisecond mark lies between this reading and the
      one before, or only the last millisecond was left and its lag does not wrap to nothing. */
  ghost predicate KeepsUp(readings: seq<nat>, ms: nat, k: nat)
    requires 0 < k < |readings|
  {
    var before, now := Since(readings, k - 1) / 1000, Since(readings, k) / 1000;
    before < ms ==>
      || now <= before + 1
      || (before + 1 == ms && (Since(readings, k) - 1000 * before) % 0x1_0000 >= 1000)
  }

  lemma Thousands(before: nat, now: nat, passed: nat)
    requires before / 1000 == passed && before <= now
    ensures now - 1000 * passed >= 0 && now / 1000 == passed + (now - 1000 * passed) / 1000
  {
  }

  /** A count that was right is right after one more reading exactly when it keeps up. */
  lemma DueStep(readings: seq<nat>, ms: nat, k: nat)
    requires Rising(readings) && 0 < k < |readings| && Left(readings, ms, k - 1) == Due(readings, ms, k - 1)
    ensures Left(readings, ms, k) == Due(readings, ms, k) <==> KeepsUp(readings, ms, k)
  {
    hide Left, Since, Start;
    var left := Left(readings, ms, k - 1);
    var before, now := Since(readings, k - 1), Since(readings, k);
    SinceRises(readings, k);
    Thousands(before, now, before / 1000);
    LeftStep(readings, ms, k);
    if left > 0 {
      LagSince(readings, ms, left, k);
      OneOff(now - 1000 * (before / 1000), left);
    }
  }

  lemma SinceRises(readings: seq<nat>, k: nat)
    requires Rising(readings) && 0 < k < |readings|
    ensures 0 <= Since(readings, k - 1) <= Since(readings, k)
  {
    assert readings[k - 1] <= readings[k];
  }

  lemma LeftStep(readings: seq<nat>, ms: nat, k: nat)
    requires 0 < k < |readings|
    ensures var left := Left(readings, ms, k - 1);
      Left(readings, ms, k) == if left > 0 && Lag(readings, ms, left, k) >= 1000 then left - 1 else left
  {
  }

  lemma LagSince(readings: seq<nat>, ms: nat, left: nat, k: nat)
    requires k < |readings| && left <= ms && Since(readings, k) >= 1000 * (ms - left)
    ensures Lag(readings, ms, left, k) == (Since(readings, k) - 1000 * (ms - left)) % 0x1_0000
  {
    LagWraps(readings[k], readings[0] + 1000 * (ms - left));
  }

  lemma OneOff(d: nat, left: nat)
    requires left > 0
    ensures (if d % 0x1_0000 >= 1000 then left - 1 else left) == (if d / 1000 <= left then left - d / 1000 else 0) <==>
      d / 1000 <= 1 || (left == 1 && d % 0x1_0000 >= 1000)
  {
  }

  /** After every reading exactly the milliseconds that have not passed are left, if and only if
      every reading keeps up. */
  lemma Prompt(readings: seq<nat>, ms: nat)
    requires Rising(readings)
    ensures (forall k | 0 <= k < |readings| :: Left(readings, ms, k) == Due(readings, ms, k)) <==>
      forall k | 0 < k < |readings| :: KeepsUp(readings, ms, k)
  {
    hide Left, Due, KeepsUp, Rising;
    if forall k | 0 < k < |readings| :: KeepsUp(readings, ms, k) {
      forall k: nat | k < |readings| ensures Left(readings, ms, k) == Due(readings, ms, k) {
        KeptUp(readings, ms, k);
      }
    } else {
      var k :| 0 < k < |readings| && !KeepsUp(readings, ms, k);
      if Left(readings, ms, k - 1) == Due(readings, ms, k - 1) { DueStep(readings, ms, k); }
    }
  }

  lemma {:induction false} KeptUp(readings: seq<nat>, ms: nat, k: nat)
    requires Rising(readings) && k < |readings| && forall i | 0 < i < |readings| :: KeepsUp(readings, ms, i)
    ensures Left(readings, ms, k) == Due(readings, ms, k)
  {
    hide KeepsUp;
    if k > 0 {
      KeptUp(readings, ms, k - 1);
      DueStep(readings, ms, k);
    }
  }

  /** Readings a multiple of 2^16 microseconds apart never let a millisecond pass. */
  lemma {:induction false} AliasedNeverEnds(readings: seq<nat>, ms: nat, k: nat)
    requires k < |readings| && forall i | 0 <= i < |readings| :: readings[i] == 0x1_0000 * i
    ensures Left(readings, ms, k) == ms
  {
    if k > 0 { AliasedNeverEnds(readings, ms, k - 1); }
  }
}

module Timer0 {
  import opened Arithmetic
  import opened Timer0Spec

  class Timer {
    const microsecondsPerOverflow: nat
    var timer0Millis: nat
    var timer0Fract: nat
    var timer0OverflowCount: nat
    ghost var overflows: nat

    /** The counters are the unbounded ones modulo their width. */
    ghost predicate Valid()
      reads this
    {
      && timer0Millis == Clock(microsecondsPerOverflow, overflows).0 % LONG
      && timer0Fract == Clock(microsecondsPerOverflow, overflows).1 < FRACT_MAX
      && timer0OverflowCount == overflows % LONG
    }

    constructor (microsecondsPerOverflow: nat)
      ensures Valid() && overflows == 0 && this.microsecondsPerOverflow == microsecondsPerOverflow
    {
      this.microsecondsPerOverflow := microsecondsPerOverflow;
      timer0Millis, timer0Fract, timer0OverflowCount, overflows := 0, 0, 0, 0;
    }

    /** The overflow interrupt; `f` is 8 bits wide. */
    method Overflow()
      requires Valid()
      modifies this
      ensures Valid() && overflows == old(overflows) + 1
    {
      hide Clock;
      ClockStep(microsecondsPerOverflow, overflows);
      ghost var was := Clock(microsecondsPerOverflow, overflows).0;
      AddMod(was, microsecondsPerOverflow / 1000, LONG);
      AddMod(was + microsecondsPerOverflow / 1000, 1, LONG);
      AddMod(overflows, 1, LONG);
      var m, f := timer0Millis, timer0Fract;
      m := (m + microsecondsPerOverflow / 1000) % LONG;
      f := (f + microsecondsPerOverflow % 1000 / 8) % 256;
      if f >= FRACT_MAX {
        f := f - FRACT_MAX;
        m := (m + 1) % LONG;
      }
      timer0Fract, timer0Millis := f, m;
      timer0OverflowCount := (timer0OverflowCount + 1) % LONG;
      overflows := overflows + 1;
    }

    /** The milliseconds counted, until they wrap; at 8 and 16 MHz they are the exact ones. */
    method Millis() returns (m: nat)
      requires Valid()
      ensures m == overflows * Counted(microsecondsPerOverflow) / 1000 % 0x1_0000_0000
      ensures microsecondsPerOverflow % 8 == 0 ==> m == overflows * microsecondsPerOverflow / 1000 % 0x1_0000_0000
    {
      hide Clock;
      MillisCounted(microsecondsPerOverflow, overflows);
      m := timer0Millis;
    }

    /** `tick` is the time when TCNT0 is read and `flagTick` when TOV0 is; `scale` is
        64 / clockCyclesPerMicrosecond. */
    method Micros(ghost tick: nat, ghost flagTick: nat, tcnt0: nat, tov0: bool, scale: nat) returns (us: nat)
      requires Valid() && Reading(overflows, tick, flagTick)
      requires tcnt0 == tick % 256 && tov0 == (flagTick / 256 > overflows)
      ensures !(tick / 256 == overflows + 1 && tcnt0 == 255) ==> us == tick * scale % 0x1_0000_0000
      ensures tick / 256 == overflows + 1 && tcnt0 == 255 ==> us == (tick - 256) * scale % 0x1_0000_0000
    {
      hide Clock;
      TicksExact(overflows, tick, flagTick);
      var m, t := timer0OverflowCount, tcnt0;
      if tov0 && t < 255 {
        m := (m + 1) % LONG;
        AddMod(overflows, 1, LONG);
        WrapTicks(overflows + 1, t, scale);
      } else {
        WrapTicks(overflows, t, scale);
      }
      us := (m * 256 + t) % LONG * scale % LONG;
    }

    /** `delay`, given what it reads of the clock; false when the readings end before it does. It
        returns early by them exactly when the last one is behind `start`. */
    method Delay(ms: nat, readings: seq<nat>) returns (returned: bool, used: nat)
      requires readings != []
      ensures used < |readings| && returned == (Left(readings, ms, used) == 0) && (!returned ==> used == |readings| - 1)
      ensures forall k | 0 <= k < used :: Left(readings, ms, k) > 0
      ensures returned && used > 0 ==> (readings[used] < readings[0] + 1000 * ms <==> Behind(readings, ms, used))
      ensures returned && Rising(readings) ==> readings[used] >= readings[0] + 1000 * ms
    {
      hide Start;
      StartMoves(readings, 0);
      var start, left := readings[0] % 0x1_0000, ms;
      used := 0;
      while left > 0
        invariant used < |readings| && left == Left(readings, ms, used) && start == Start(readings, ms - left)
        invariant forall k | 0 <= k < used :: Left(readings, ms, k) > 0
        decreases |readings| - used
      {
        if used + 1 == |readings| { return false, used; }
        used := used + 1;
        if (readings[used] % 0x1_0000 + 0x1_0000 - start) % 0x1_0000 >= 1000 {
          StartMoves(readings, ms - left);
          left := left - 1;
          start := (start + 1000) % 0x1_0000;
        }
      }
      returned := true;
      if used > 0 { CountedExact(readings, ms, used); }
      if Rising(readings) { NeverEarly(readings, ms, used); }
    }
  }
}
