/** The Servo library, hardware/arduino/libraries/Servo/Servo.cpp: the angle arithmetic and the
    interrupt that pulses the channels of a timer one after the other. */
module ServoAngles {
  import opened Arithmetic

  const MIN_PULSE_WIDTH := 544
  const MAX_PULSE_WIDTH := 2400
  const TRIM_DURATION := 2

  /** Division as in C: towards zero. */
  function Div(a: int, b: int): int
    requires b != 0
  {
    if (a >= 0) == (b > 0) then Abs(a) / Abs(b) else -(Abs(a) / Abs(b))
  }

  function Abs(a: int): nat { if a < 0 then -a else a }

  /** `map` in WMath.cpp:54-57. */
  function Map(x: int, inMin: int, inMax: int, outMin: int, outMax: int): int
    requires inMax != inMin
  {
    Div((x - inMin) * (outMax - outMin), inMax - inMin) + outMin
  }

  function Clamp(v: int, lo: int, hi: int): int {
    if v < lo then lo else if v > hi then hi else v
  }

  /** `usToTicks` in 16 bits and `ticksToUs`, whose product is 16 bits wide too. */
  function ToTicks(cycles: nat, us: int): nat { cycles * us / 8 % 0x1_0000 }

  function ToUs(cycles: nat, ticks: nat): nat
    requires cycles > 0
  {
    ticks * 8 % 0x1_0000 / cycles
  }

  /** The pulse width `write` asks for. */
  function Width(value: int, lo: int, hi: int): int {
    if value < MIN_PULSE_WIDTH then Map(Clamp(value, 0, 180), 0, 180, lo, hi) else value
  }

  function Stored(cycles: nat, us: int, lo: int, hi: int): nat {
    ToTicks(cycles, Clamp(us, lo, hi) - TRIM_DURATION)
  }

  function ReadUs(cycles: nat, ticks: nat): int
    requires cycles > 0
  {
    ToUs(cycles, ticks) + TRIM_DURATION
  }

  function ReadAngle(cycles: nat, ticks: nat, lo: int, hi: int): int
    requires cycles > 0 && lo < hi
  {
    Map(ReadUs(cycles, ticks) + 1, lo, hi, 0, 180)
  }

  // ---------------------------------------------------------------- exactness

  /** At 8 and 16 MHz a pulse width survives the trip through ticks. */
  lemma TicksRoundTrip(cycles: nat, us: int)
    requires (cycles == 8 || cycles == 16) && 0 <= us < 4096
    ensures ToUs(cycles, ToTicks(cycles, us)) == us
  {
  }

  lemma WidthRoundTrip(cycles: nat, us: int, lo: int, hi: int)
    requires (cycles == 8 || cycles == 16) && TRIM_DURATION <= lo <= us <= hi < 4096
    ensures ReadUs(cycles, Stored(cycles, us, lo, hi)) == us
  {
    TicksRoundTrip(cycles, us - TRIM_DURATION);
  }

  /** A width beyond a limit is read back as the limit. */
  lemma WidthClamped(cycles: nat, us: int, lo: int, hi: int)
    requires (cycles == 8 || cycles == 16) && TRIM_DURATION <= lo < hi < 4096
    ensures us < lo ==> ReadUs(cycles, Stored(cycles, us, lo, hi)) == lo
    ensures us > hi ==> ReadUs(cycles, Stored(cycles, us, lo, hi)) == hi
  {
    TicksRoundTrip(cycles, lo - TRIM_DURATION);
    TicksRoundTrip(cycles, hi - TRIM_DURATION);
  }

  /** Below 544 a value is an angle, from 0 at the low limit to 180 at the high one; angles beyond
      are those limits, and from 544 on a value is microseconds. */
  lemma WidthEnds(value: int, lo: int, hi: int)
    requires lo < hi
    ensures value <= 0 ==> Width(value, lo, hi) == lo
    ensures 180 <= value < 544 ==> Width(value, lo, hi) == hi
    ensures value >= 544 ==> Width(value, lo, hi) == value
  {
    if value < 544 { AngleWidth(Clamp(value, 0, 180), lo, hi); }
  }

  /** The limits of a plain attach. */
  lemma PlainLimits()
    ensures Lowest(544) == 544 && Highest(2400) == 2400
  {
  }

  /** `write(90)` with them at 16 MHz. */
  lemma PlainServo()
    ensures Width(90, 544, 2400) == 1472 && Stored(16, 1472, 544, 2400) == 2940
  {
    hide Width;
    AngleWidth(90, 544, 2400);
  }

  /** The width an angle is mapped to. */
  lemma AngleWidth(a: int, lo: int, hi: int)
    requires 0 <= a <= 180 && lo < hi
    ensures Width(a, lo, hi) == lo + a * (hi - lo) / 180 && lo <= Width(a, lo, hi) <= hi
  {
    hide Div;
    var r := hi - lo;
    MulMono(r, 0, a);
    MulMono(r, a, 180);
    DivIs(a * r, 180);
    UpTo(a * r, r);
    assert (a - 0) * (hi - lo) == a * r;
  }

  lemma DivIs(x: nat, y: nat)
    requires y > 0
    ensures Div(x, y) == x / y
  {
  }

  lemma UpTo(x: nat, r: nat)
    requires x <= 180 * r
    ensures 0 <= x / 180 <= r
  {
  }

  function AngleBack(a: int, r: int): int
    requires r > 0
  {
    (a * r / 180 + 1) * 180 / r
  }

  /** The angle comes back exactly when the rounded-up step is shorter than the range. */
  lemma AngleBackExact(r: int)
    requires r > 0
    ensures (forall a | 0 <= a <= 180 :: AngleBack(a, r) == a) <==> r > 180
  {
    if r > 180 {
      forall a | 0 <= a <= 180 ensures AngleBack(a, r) == a {
        var q, rest := a * r / 180, a * r % 180;
        assert (q + 1) * 180 == a * r + (180 - rest);
        Quotient(a, r, 180 - rest);
      }
    } else {
      AngleZero(r);
    }
  }

  lemma NotZero(r: int)
    requires 0 < r <= 180
    ensures 180 / r >= 1
  {
    MulAtLeast(1 - 180 / r, r);
    assert 180 == r * (180 / r) + 180 % r;
  }

  /** What `read()` gives after `write(a)`. */
  function WriteRead(cycles: nat, a: int, lo: int, hi: int): int
    requires cycles > 0 && lo < hi
  {
    ReadAngle(cycles, Stored(cycles, Width(a, lo, hi), lo, hi), lo, hi)
  }

  /** `write(a)` and then `read()` give `a` for every angle exactly when the pulse range is
      wider than 180 microseconds. */
  lemma AngleRoundTrip(cycles: nat, lo: int, hi: int)
    requires (cycles == 8 || cycles == 16) && TRIM_DURATION <= lo < hi < 4096
    ensures (forall a | 0 <= a <= 180 :: WriteRead(cycles, a, lo, hi) == a) <==> hi - lo > 180
  {
    hide WriteRead, AngleBack;
    forall a | 0 <= a <= 180 ensures WriteRead(cycles, a, lo, hi) == AngleBack(a, hi - lo) {
      OneAngle(cycles, a, lo, hi);
    }
    AngleBackExact(hi - lo);
    if hi - lo <= 180 {
      AngleZero(hi - lo);
      assert WriteRead(cycles, 0, lo, hi) != 0;
    }
  }

  lemma AngleZero(r: int)
    requires 0 < r <= 180
    ensures AngleBack(0, r) != 0
  {
    NotZero(r);
  }

  lemma OneAngle(cycles: nat, a: int, lo: int, hi: int)
    requires (cycles == 8 || cycles == 16) && TRIM_DURATION <= lo < hi < 4096 && 0 <= a <= 180
    ensures WriteRead(cycles, a, lo, hi) == AngleBack(a, hi - lo)
  {
    hide Width, Stored, ReadUs;
    AngleWidth(a, lo, hi);
    WidthRoundTrip(cycles, Width(a, lo, hi), lo, hi);
  }

  /** The limits an attached servo gets: the distances to the defaults in steps of four. */
  function Lowest(min: int): int { MIN_PULSE_WIDTH - Int8(Div(MIN_PULSE_WIDTH - min, 4)) * 4 }

  function Highest(max: int): int { MAX_PULSE_WIDTH - Int8(Div(MAX_PULSE_WIDTH - max, 4)) * 4 }

  /** Whatever limits are asked for, the range is wide enough for angles. */
  lemma LimitsWide(min: int, max: int)
    ensures TRIM_DURATION <= Lowest(min) < Highest(max) < 4096 && Highest(max) - Lowest(min) > 180
  {
    hide Div;
  }

  /** A limit is kept to within three microseconds exactly when its distance fits eight bits. */
  lemma LimitsKept(min: int, max: int)
    ensures -4 < Lowest(min) - min < 4 <==> -516 < MIN_PULSE_WIDTH - min < 512
    ensures -4 < Highest(max) - max < 4 <==> -516 < MAX_PULSE_WIDTH - max < 512
  {
    StepKept(MIN_PULSE_WIDTH - min);
    StepKept(MAX_PULSE_WIDTH - max);
  }

  lemma StepKept(d: int)
    ensures -4 < d - Int8(Div(d, 4)) * 4 < 4 <==> -516 < d < 512
  {
  }
}

module ServoFrames {
  import opened Arithmetic

  const SERVOS_PER_TIMER := 12
  const WRAP := 0x1_0000

  datatype Slot = Slot(pin: nat, active: bool, ticks: nat)

  datatype Edge = Edge(time: int, pin: nat, up: bool)

  /** One 16-bit timer: the channel being pulsed or -1, the counter, the compare register, and
      the pins. `time` counts timer ticks without a bound. */
  datatype Timer = Timer(channel: int, tcnt: nat, ocr: nat, time: int, high: set<nat>, edges: seq<Edge>) {
    function Drive(pin: nat, up: bool): Timer {
      this.(high := if up then high + {pin} else high - {pin}, edges := edges + [Edge(time, pin, up)])
    }
  }

  // ---------------------------------------------------------------- the interrupt

  /** `slots` are the servos of this timer; `refresh` is the refresh interval in ticks. */
  function Lower(t: Timer, slots: seq<Slot>): Timer {
    if t.channel < 0 then t.(tcnt := 0)
    else if t.channel < |slots| && slots[t.channel].active then t.Drive(slots[t.channel].pin, false)
    else t
  }

  function Raise(u: Timer, c: nat, slots: seq<Slot>, refresh: nat): Timer {
    if c < |slots| then
      var v := u.(channel := c, ocr := (u.tcnt + slots[c].ticks) % WRAP);
      if slots[c].active then v.Drive(slots[c].pin, true) else v
    else u.(channel := -1, ocr := if u.tcnt < refresh + 4 then refresh else (u.tcnt + 4) % WRAP)
  }

  function Handle(t: Timer, slots: seq<Slot>, refresh: nat): Timer {
    Raise(Lower(t, slots), if t.channel < 0 then 0 else t.channel + 1, slots, refresh)
  }

  /** The counter runs on to the next match; one that was just missed comes a whole round later. */
  function Wait(t: Timer): Timer {
    t.(tcnt := t.ocr, time := t.time + (t.ocr - t.tcnt - 1) % WRAP + 1)
  }

  // ---------------------------------------------------------------- one pin at a time

  /** No pin is high, or only the one of the current channel. */
  ghost predicate OneHigh(t: Timer, slots: seq<Slot>) {
    && t.channel >= -1
    && (t.high == {} || (0 <= t.channel < |slots| && slots[t.channel].active && t.high == {slots[t.channel].pin}))
  }

  /** Pulse widths may be written at any time, pins and their use stay. */
  predicate SamePins(a: seq<Slot>, b: seq<Slot>) {
    |a| == |b| && forall c | 0 <= c < |a| :: a[c].pin == b[c].pin && a[c].active == b[c].active
  }

  /** Interrupts that find the counter and the widths at any values. */
  function Interrupts(t: Timer, found: seq<(nat, seq<Slot>)>, refresh: nat): Timer {
    if found == [] then t
    else
      var s := Interrupts(t, found[..|found| - 1], refresh);
      Handle(s.(tcnt := found[|found| - 1].0), found[|found| - 1].1, refresh)
  }

  lemma {:induction false} RunOneHigh(t: Timer, slots: seq<Slot>, found: seq<(nat, seq<Slot>)>, refresh: nat)
    requires OneHigh(t, slots) && forall i | 0 <= i < |found| :: SamePins(slots, found[i].1)
    ensures OneHigh(Interrupts(t, found, refresh), slots)
  {
    if found != [] {
      var last := found[|found| - 1];
      RunOneHigh(t, slots, found[..|found| - 1], refresh);
      HandleOneHigh(Interrupts(t, found[..|found| - 1], refresh).(tcnt := last.0), slots, last.1, refresh);
    }
  }

  lemma HandleOneHigh(t: Timer, slots: seq<Slot>, now: seq<Slot>, refresh: nat)
    requires OneHigh(t, slots) && SamePins(slots, now)
    ensures OneHigh(Handle(t, now, refresh), slots)
  {
    assert Lower(t, now).high == {};
  }

  // ---------------------------------------------------------------- all timers

  /** An interrupt of one of the timers, with the counter and the widths it finds. */
  datatype Event = Event(timer: nat, tcnt: nat, slots: seq<Slot>)

  function Interleaved(ts: seq<Timer>, events: seq<Event>, refresh: nat): (r: seq<Timer>)
    requires forall i | 0 <= i < |events| :: events[i].timer < |ts|
    ensures |r| == |ts|
  {
    if events == [] then ts
    else
      var e := events[|events| - 1];
      var r := Interleaved(ts, events[..|events| - 1], refresh);
      r[e.timer := Handle(r[e.timer].(tcnt := e.tcnt), e.slots, refresh)]
  }

  /** What the interrupts of one timer find. */
  function Only(events: seq<Event>, timer: nat): seq<(nat, seq<Slot>)> {
    if events == [] then []
    else
      var e := events[|events| - 1];
      Only(events[..|events| - 1], timer) + if e.timer == timer then [(e.tcnt, e.slots)] else []
  }

  /** However the timers' interrupts are interleaved, each does what it does on its own. */
  lemma {:induction false} InterleavedAlone(ts: seq<Timer>, events: seq<Event>, refresh: nat, timer: nat)
    requires timer < |ts| && forall i | 0 <= i < |events| :: events[i].timer < |ts|
    ensures Interleaved(ts, events, refresh)[timer] == Interrupts(ts[timer], Only(events, timer), refresh)
  {
    hide Handle;
    if events != [] {
      var front, e := events[..|events| - 1], events[|events| - 1];
      InterleavedAlone(ts, front, refresh, timer);
      if e.timer == timer {
        InterruptsSnoc(ts[timer], Only(front, timer), (e.tcnt, e.slots), refresh);
        assert Only(events, timer) == Only(front, timer) + [(e.tcnt, e.slots)];
      } else {
        assert Only(events, timer) == Only(front, timer);
      }
    }
  }

  lemma InterruptsSnoc(t: Timer, found: seq<(nat, seq<Slot>)>, last: (nat, seq<Slot>), refresh: nat)
    ensures Interrupts(t, found + [last], refresh) ==
      Handle(Interrupts(t, found, refresh).(tcnt := last.0), last.1, refresh)
  {
    hide Handle;
    assert (found + [last])[..|found|] == found;
  }

  lemma {:induction false} OnlySamePins(events: seq<Event>, timer: nat, slots: seq<Slot>)
    requires forall i | 0 <= i < |events| && events[i].timer == timer :: SamePins(slots, events[i].slots)
    ensures var found := Only(events, timer); forall i | 0 <= i < |found| :: SamePins(slots, found[i].1)
  {
    if events != [] {
      var front, e := events[..|events| - 1], events[|events| - 1];
      assert forall i | 0 <= i < |front| :: front[i] == events[i];
      OnlySamePins(front, timer, slots);
      if e.timer == timer {
        assert SamePins(slots, events[|events| - 1].slots);
        assert Only(events, timer) == Only(front, timer) + [(e.tcnt, e.slots)];
      } else {
        assert Only(events, timer) == Only(front, timer);
      }
    }
  }

  /** Every timer has at most one pin high, whatever the other timers do in between. */
  lemma AllOneHigh(ts: seq<Timer>, banks: seq<seq<Slot>>, events: seq<Event>, refresh: nat)
    requires |banks| == |ts| && forall i | 0 <= i < |ts| :: OneHigh(ts[i], banks[i])
    requires forall i | 0 <= i < |events| :: events[i].timer < |ts| && SamePins(banks[events[i].timer], events[i].slots)
    ensures forall i | 0 <= i < |ts| :: OneHigh(Interleaved(ts, events, refresh)[i], banks[i])
  {
    hide OneHigh, SamePins;
    forall i: nat | i < |ts| ensures OneHigh(Interleaved(ts, events, refresh)[i], banks[i]) {
      InterleavedAlone(ts, events, refresh, i);
      OnlySamePins(events, i, banks[i]);
      RunOneHigh(ts[i], banks[i], Only(events, i), refresh);
    }
  }

  // ---------------------------------------------------------------- a frame

  function Sum(slots: seq<Slot>, k: nat): nat
    requires k <= |slots|
  {
    if k == 0 then 0 else Sum(slots, k - 1) + slots[k - 1].ticks
  }

  function Pulse(s: Slot, from: int, to: int): seq<Edge> {
    if s.active then [Edge(from, s.pin, true), Edge(to, s.pin, false)] else []
  }

  /** One pulse per active channel, in order, each exactly as long as its ticks. */
  function Pulses(slots: seq<Slot>, start: int, k: nat): seq<Edge>
    requires k <= |slots|
  {
    if k == 0 then []
    else Pulses(slots, start, k - 1) + Pulse(slots[k - 1], start + Sum(slots, k - 1), start + Sum(slots, k))
  }

  function Rising(s: Slot, time: int): seq<Edge> {
    if s.active then [Edge(time, s.pin, true)] else []
  }

  function Falling(s: Slot, time: int): seq<Edge> {
    if s.active then [Edge(time, s.pin, false)] else []
  }

  function High(s: Slot): set<nat> { if s.active then {s.pin} else {} }

  /** The slots that each interrupt of a frame finds: the reset and one for every channel. Widths
      may be written between any two of them. */
  type Writing = now: seq<seq<Slot>> |
    now != [] && forall i | 0 <= i < |now| :: SamePins(now[0], now[i]) && |now[i]| == |now| - 1
    witness [[]]

  /** Each channel as its own interrupt finds it. */
  function Raised(now: Writing): (slots: seq<Slot>)
    ensures |slots| == |now| - 1 && forall c | 0 <= c < |slots| :: slots[c] == now[c][c]
  {
    seq(|now| - 1, c requires 0 <= c < |now| - 1 => now[c][c])
  }

  /** The widths are 16 bits and not zero, and so is the refresh interval with its margin. */
  ghost predicate Short(now: Writing, refresh: nat) {
    refresh + 4 < WRAP && forall c | 0 <= c < |now| - 1 :: 0 < now[c][c].ticks < WRAP
  }

  /** The reset interrupt and `k` more, each at the next match. */
  function Frame(t: Timer, now: Writing, refresh: nat, k: nat): Timer
    requires k < |now|
  {
    Handle(if k == 0 then t else Wait(Frame(t, now, refresh, k - 1)), now[k], refresh)
  }

  /** The timer after the reset interrupt and `k` more; `slots` are the channels as raised. */
  ghost predicate InFrame(t: Timer, r: Timer, slots: seq<Slot>, refresh: nat, k: nat)
    requires k <= |slots|
  {
    && r.tcnt == Sum(slots, k) % WRAP && r.time == t.time + Sum(slots, k)
    && if k < |slots|
       then r.channel == k && r.ocr == Sum(slots, k + 1) % WRAP && r.high == High(slots[k])
            && r.edges == t.edges + Pulses(slots, t.time, k) + Rising(slots[k], t.time + Sum(slots, k))
       else r.channel == -1 && r.high == {} && r.edges == t.edges + Pulses(slots, t.time, k)
            && r.ocr == if r.tcnt < refresh + 4 then refresh else (r.tcnt + 4) % WRAP
  }

  /** Between two resets every active channel is pulsed once, in order, for the ticks it had when
      it was raised, and the pins are low when the last one is done. */
  lemma {:induction false} FramePulses(t: Timer, now: Writing, refresh: nat, k: nat)
    requires t.channel < 0 && t.high == {} && Short(now, refresh) && k < |now|
    ensures InFrame(t, Frame(t, now, refresh, k), Raised(now), refresh, k)
  {
    hide Handle, Wait, InFrame, Short;
    if k == 0 {
      FrameStarts(t, now, refresh);
    } else {
      FramePulses(t, now, refresh, k - 1);
      FrameStep(t, Frame(t, now, refresh, k - 1), now, refresh, k - 1);
    }
  }

  lemma FrameStarts(t: Timer, now: Writing, refresh: nat)
    requires t.channel < 0 && t.high == {} && Short(now, refresh)
    ensures InFrame(t, Handle(t, now[0], refresh), Raised(now), refresh, 0)
  {
    if |now| > 1 { SumOne(Raised(now)); }
  }

  lemma SumOne(slots: seq<Slot>)
    requires slots != []
    ensures Sum(slots, 0) == 0 && Sum(slots, 1) == slots[0].ticks
  {
    assert Sum(slots, 1) == Sum(slots, 0) + slots[0].ticks;
  }

  lemma FrameStep(t: Timer, r: Timer, now: Writing, refresh: nat, k: nat)
    requires Short(now, refresh) && k < |now| - 1 && InFrame(t, r, Raised(now), refresh, k)
    ensures InFrame(t, Handle(Wait(r), now[k + 1], refresh), Raised(now), refresh, k + 1)
  {
    hide Wait, Lower, Raise, InFrame, Short;
    PulseEnds(t, r, now, refresh, k);
    NextPulse(t, Lower(Wait(r), now[k + 1]), now, refresh, k + 1);
  }

  /** The pulse of channel `k` is over and the next interrupt is on its way. */
  ghost predicate Between(t: Timer, l: Timer, slots: seq<Slot>, k: nat)
    requires k <= |slots|
  {
    && l.tcnt == Sum(slots, k) % WRAP && l.time == t.time + Sum(slots, k)
    && l.channel == k - 1 && l.high == {} && l.edges == t.edges + Pulses(slots, t.time, k)
  }

  lemma PulseEnds(t: Timer, r: Timer, now: Writing, refresh: nat, k: nat)
    requires Short(now, refresh) && k < |now| - 1 && InFrame(t, r, Raised(now), refresh, k)
    ensures Wait(r).channel == k && Between(t, Lower(Wait(r), now[k + 1]), Raised(now), k + 1)
  {
    hide Pulses, Pulse, Rising, Falling, Sum;
    var slots := Raised(now);
    SumNext(slots, k);
    NextMatch(r, Sum(slots, k), slots[k].ticks);
    assert SamePins(now[0], now[k]) && SamePins(now[0], now[k + 1]);
    LowerPulse(Wait(r), now[k + 1], slots[k]);
    PulsesNext(slots, t.time, k);
  }

  lemma SumNext(slots: seq<Slot>, k: nat)
    requires k < |slots|
    ensures Sum(slots, k + 1) == Sum(slots, k) + slots[k].ticks
  {
  }

  lemma PulsesNext(slots: seq<Slot>, start: int, k: nat)
    requires k < |slots|
    ensures Pulses(slots, start, k + 1) ==
      Pulses(slots, start, k) + (Rising(slots[k], start + Sum(slots, k)) + Falling(slots[k], start + Sum(slots, k + 1)))
  {
  }

  /** The next match of a 16-bit counter comes after as many ticks as were added. */
  lemma NextMatch(r: Timer, n: nat, ticks: nat)
    requires r.tcnt == n % WRAP && r.ocr == (n + ticks) % WRAP && 0 < ticks < WRAP
    ensures Wait(r) == r.(tcnt := r.ocr, time := r.time + ticks)
  {
    TicksAhead(n, ticks);
  }

  lemma TicksAhead(n: nat, ticks: nat)
    requires 0 < ticks < WRAP
    ensures ((n + ticks) % WRAP - n % WRAP - 1) % WRAP + 1 == ticks
  {
  }

  lemma LowerPulse(w: Timer, now: seq<Slot>, s: Slot)
    requires 0 <= w.channel < |now| && now[w.channel].pin == s.pin && now[w.channel].active == s.active
    requires w.high == High(s)
    ensures Lower(w, now) == w.(high := {}, edges := w.edges + Falling(s, w.time))
  {
  }

  lemma NextPulse(t: Timer, l: Timer, now: Writing, refresh: nat, k: nat)
    requires Short(now, refresh) && k < |now| && Between(t, l, Raised(now), k)
    ensures InFrame(t, Raise(l, k, now[k], refresh), Raised(now), refresh, k)
  {
    hide Pulses, Pulse, Sum;
    var slots := Raised(now);
    if k < |slots| {
      SumNext(slots, k);
      AddMod(Sum(slots, k), slots[k].ticks, WRAP);
    }
  }

  /** How long the pins' frame takes until the next reset. */
  function Length(slots: seq<Slot>, refresh: nat): nat {
    var sum := Sum(slots, |slots|);
    var tcnt := sum % WRAP;
    if tcnt < refresh then sum - tcnt + refresh
    else if tcnt < refresh + 4 then sum - tcnt + refresh + WRAP
    else sum + 4
  }

  /** The next reset comes after `Length`: when the counter is at the refresh interval or less than
      four ticks past it, the compare value is already past and the frame takes a whole counter
      round more. */
  lemma FrameLength(t: Timer, now: Writing, refresh: nat)
    requires t.channel < 0 && t.high == {} && Short(now, refresh)
    ensures var w := Wait(Frame(t, now, refresh, |now| - 1));
      w.time == t.time + Length(Raised(now), refresh) && w.channel == -1 && w.high == {}
  {
    hide Frame, Pulses, Sum;
    FramePulses(t, now, refresh, |now| - 1);
  }

  /** The frame is the refresh interval exactly when the pulses end before it. */
  lemma LengthExact(slots: seq<Slot>, refresh: nat)
    requires refresh + 4 < WRAP
    ensures Length(slots, refresh) >= refresh
    ensures refresh <= Sum(slots, |slots|) < refresh + 4 ==> Length(slots, refresh) == refresh + 0x1_0000
    ensures Length(slots, refresh) == refresh <==> Sum(slots, |slots|) < refresh
  {
    hide Sum;
  }

  // ---------------------------------------------------------------- frame after frame

  /** Whole frames, each with the widths its interrupts find. */
  function Frames(t: Timer, frames: seq<Writing>, refresh: nat): Timer
  {
    if frames == [] then t
    else
      var now := frames[|frames| - 1];
      Wait(Frame(Frames(t, frames[..|frames| - 1], refresh), now, refresh, |now| - 1))
  }

  function Elapsed(frames: seq<Writing>, refresh: nat): nat
  {
    if frames == [] then 0
    else Elapsed(frames[..|frames| - 1], refresh) + Length(Raised(frames[|frames| - 1]), refresh)
  }

  function AllPulses(frames: seq<Writing>, start: int, refresh: nat): seq<Edge>
  {
    if frames == [] then []
    else
      var front, slots := frames[..|frames| - 1], Raised(frames[|frames| - 1]);
      AllPulses(front, start, refresh) + Pulses(slots, start + Elapsed(front, refresh), |slots|)
  }

  /** The frames follow each other, each with its pulses, whatever is written when. */
  lemma {:induction false} FramesPulse(t: Timer, frames: seq<Writing>, refresh: nat)
    requires t.channel < 0 && t.high == {} && forall i | 0 <= i < |frames| :: Short(frames[i], refresh)
    ensures var r := Frames(t, frames, refresh);
      && r.channel < 0 && r.high == {} && r.time == t.time + Elapsed(frames, refresh)
      && r.edges == t.edges + AllPulses(frames, t.time, refresh)
  {
    hide Frame, Pulses, Length, Raised;
    if frames != [] {
      var front, now := frames[..|frames| - 1], frames[|frames| - 1];
      FramesPulse(t, front, refresh);
      var s := Frames(t, front, refresh);
      FrameLength(s, now, refresh);
      FrameEdges(s, now, refresh);
    }
  }

  lemma FrameEdges(t: Timer, now: Writing, refresh: nat)
    requires t.channel < 0 && t.high == {} && Short(now, refresh)
    ensures Wait(Frame(t, now, refresh, |now| - 1)).edges == t.edges + Pulses(Raised(now), t.time, |now| - 1)
  {
    hide Frame, Pulses, Sum;
    FramePulses(t, now, refresh, |now| - 1);
  }

  /** The frames keep the refresh interval exactly when the pulses of every one of them end before
      it. */
  lemma {:induction false} Periodic(frames: seq<Writing>, refresh: nat)
    requires forall i | 0 <= i < |frames| :: Short(frames[i], refresh)
    ensures Elapsed(frames, refresh) >= |frames| * refresh
    ensures Elapsed(frames, refresh) == |frames| * refresh <==>
      forall i | 0 <= i < |frames| :: Sum(Raised(frames[i]), |frames[i]| - 1) < refresh
  {
    hide Length, Sum, Raised;
    if frames != [] {
      var n := |frames| - 1;
      Periodic(frames[..n], refresh);
      LengthExact(Raised(frames[n]), refresh);
      assert |frames| * refresh == n * refresh + refresh;
    }
  }

  // ---------------------------------------------------------------- power-up

  function Ups(edges: seq<Edge>): seq<nat> {
    if edges == [] then []
    else
      var e := edges[|edges| - 1];
      Ups(edges[..|edges| - 1]) + if e.up then [e.pin] else []
  }

  function ActivePins(slots: seq<Slot>, lo: nat, hi: nat): seq<nat>
    requires hi <= |slots|
  {
    if hi <= lo then []
    else ActivePins(slots, lo, hi - 1) + if slots[hi - 1].active then [slots[hi - 1].pin] else []
  }

  lemma UpsSnoc(edges: seq<Edge>, e: Edge)
    ensures Ups(edges + [e]) == Ups(edges) + if e.up then [e.pin] else []
  {
    assert (edges + [e])[..|edges|] == edges;
  }

  /** A timer starts with channel 0 as its current one: up to the first reset every active channel
      is raised once, in order, but channel 0 is not. */
  lemma {:induction false} FirstChannelSkipped(t: Timer, slots: seq<Slot>, found: seq<(nat, seq<Slot>)>, refresh: nat)
    requires t.channel == 0 && |found| < |slots|
    requires forall i | 0 <= i < |found| :: SamePins(slots, found[i].1)
    ensures var r := Interrupts(t, found, refresh);
      r.channel == |found| && Ups(r.edges) == Ups(t.edges) + ActivePins(slots, 1, |found| + 1)
  {
    hide Handle, Ups;
    if found != [] {
      var n := |found| - 1;
      FirstChannelSkipped(t, slots, found[..n], refresh);
      var s := Interrupts(t, found[..n], refresh);
      assert SamePins(slots, found[n].1);
      HandleUps(s.(tcnt := found[n].0), found[n].1, refresh);
    }
  }

  lemma HandleUps(t: Timer, slots: seq<Slot>, refresh: nat)
    requires 0 <= t.channel < |slots| - 1
    ensures var c := t.channel + 1; var r := Handle(t, slots, refresh);
      r.channel == c && Ups(r.edges) == Ups(t.edges) + if slots[c].active then [slots[c].pin] else []
  {
    hide Ups;
    var l := Lower(t, slots);
    assert l.channel == t.channel && l.time == t.time;
    UpsSnoc(t.edges, Edge(t.time, slots[t.channel].pin, false));
    UpsSnoc(l.edges, Edge(t.time, slots[t.channel + 1].pin, true));
  }
}

module Servo {
  import opened Arithmetic
  import opened ServoAngles
  import opened ServoFrames

  const REFRESH_INTERVAL := 20000
  const INVALID_SERVO := 255
  const DEFAULT_PULSE_WIDTH := 1500

  /** What all servos share: their slots and one channel counter, counter and compare register
      for each timer. `now`, `high` and `edges` record what each timer does to its pins. */
  class Timers {
    const cycles: nat
    const count: nat
    const servos: array<Slot>
    const channel: array<int>
    const tcnt: array<nat>
    const ocr: array<nat>
    var servoCount: nat
    var now: int
    var high: seq<set<nat>>
    var edges: seq<seq<Edge>>

    ghost predicate Valid()
      reads this, channel
    {
      && (cycles == 8 || cycles == 16) && servos.Length == count * SERVOS_PER_TIMER <= 48
      && channel.Length == tcnt.Length == ocr.Length == count && tcnt != ocr && servoCount <= servos.Length
      && |high| == |edges| == count
      && forall i | 0 <= i < count :: -1 <= channel[i] < SERVOS_PER_TIMER
    }

    constructor (cycles: nat, count: nat)
      requires (cycles == 8 || cycles == 16) && count <= 4
      ensures Valid() && fresh(servos) && fresh(channel) && fresh(tcnt) && fresh(ocr)
      ensures servoCount == 0 && this.cycles == cycles && this.count == count
      ensures forall i | 0 <= i < count :: channel[i] == 0 && OneHigh(View(i), Slots(i))
    {
      this.cycles, this.count := cycles, count;
      servos := new Slot[count * SERVOS_PER_TIMER](i => Slot(0, false, 0));
      channel := new int[count](i => 0);
      tcnt := new nat[count](i => 0);
      ocr := new nat[count](i => 0);
      servoCount, now, high, edges := 0, 0, seq(count, i => {}), seq(count, i => []);
    }

    /** The servos of one timer. */
    ghost function Slots(timer: nat): (s: seq<Slot>)
      requires Valid() && timer < count
      reads this, servos, channel
      ensures |s| <= SERVOS_PER_TIMER
    {
      var lo := timer * SERVOS_PER_TIMER;
      if servoCount <= lo then []
      else if servoCount < lo + SERVOS_PER_TIMER then servos[lo..servoCount]
      else servos[lo..lo + SERVOS_PER_TIMER]
    }

    ghost function View(timer: nat): Timer
      requires Valid() && timer < count
      reads this, channel, tcnt, ocr
    {
      Timer(channel[timer], tcnt[timer], ocr[timer], now, high[timer], edges[timer])
    }

    method DigitalWrite(timer: nat, pin: nat, up: bool)
      requires timer < |high| == |edges|
      modifies `high, `edges
      ensures high == old(high)[timer := if up then old(high[timer]) + {pin} else old(high[timer]) - {pin}]
      ensures edges == old(edges)[timer := old(edges[timer]) + [Edge(now, pin, up)]]
    {
      high := high[timer := if up then high[timer] + {pin} else high[timer] - {pin}];
      edges := edges[timer := edges[timer] + [Edge(now, pin, up)]];
    }

    /** Called by the compare interrupt of each timer. */
    method HandleInterrupts(timer: nat)
      requires Valid() && timer < count
      modifies `high, `edges, channel, tcnt, ocr
      ensures Valid() && View(timer) == Handle(old(View(timer)), Slots(timer), cycles * 20000 / 8)
      ensures forall i | 0 <= i < count && i != timer :: View(i) == old(View(i))
      ensures forall i | 0 <= i < count && OneHigh(old(View(i)), Slots(i)) :: OneHigh(View(i), Slots(i))
    {
      hide Lower, Raise;
      ghost var was, slots := View(timer), Slots(timer);
      EndPulse(timer);
      StartPulse(timer);
      if OneHigh(was, slots) { HandleOneHigh(was, slots, slots, cycles * REFRESH_INTERVAL / 8); }
    }

    method EndPulse(timer: nat)
      requires Valid() && timer < count
      modifies `high, `edges, tcnt
      ensures Valid() && View(timer) == Lower(old(View(timer)), Slots(timer))
      ensures forall i | 0 <= i < count && i != timer :: View(i) == old(View(i))
    {
      var base := timer * SERVOS_PER_TIMER;
      if channel[timer] < 0 {
        tcnt[timer] := 0;
      } else if base + channel[timer] < servoCount && servos[base + channel[timer]].active {
        DigitalWrite(timer, servos[base + channel[timer]].pin, false);
      }
    }

    method StartPulse(timer: nat)
      requires Valid() && timer < count
      modifies `high, `edges, channel, ocr
      ensures Valid()
      ensures View(timer) == Raise(old(View(timer)), old(channel[timer]) + 1, Slots(timer), cycles * REFRESH_INTERVAL / 8)
      ensures forall i | 0 <= i < count && i != timer :: View(i) == old(View(i))
    {
      var base := timer * SERVOS_PER_TIMER;
      channel[timer] := channel[timer] + 1;
      if base + channel[timer] < servoCount && channel[timer] < SERVOS_PER_TIMER {
        var slot := servos[base + channel[timer]];
        assert slot == Slots(timer)[channel[timer]];
        ocr[timer] := (tcnt[timer] + slot.ticks) % WRAP;
        if slot.active { DigitalWrite(timer, slot.pin, true); }
      } else {
        if tcnt[timer] < cycles * REFRESH_INTERVAL / 8 + 4 {
          ocr[timer] := cycles * REFRESH_INTERVAL / 8;
        } else {
          ocr[timer] := (tcnt[timer] + 4) % WRAP;
        }
        channel[timer] := -1;
      }
    }
  }

  class Servo {
    const timers: Timers
    const servoIndex: nat
    var min: int
    var max: int

    ghost predicate Valid()
      reads this, timers, timers.channel
    {
      timers.Valid() && (servoIndex < timers.servoCount || servoIndex == INVALID_SERVO)
        && -128 <= min <= 127 && -128 <= max <= 127
    }

    function Lo(): int
      reads this
    {
      MIN_PULSE_WIDTH - min * 4
    }

    function Hi(): int
      reads this
    {
      MAX_PULSE_WIDTH - max * 4
    }

    /** The next slot with the default width, or none when all are taken. */
    constructor (timers: Timers)
      requires timers.Valid()
      modifies timers`servoCount, timers.servos
      ensures Valid() && this.timers == timers
      ensures var n := old(timers.servoCount);
        if n < timers.servos.Length
        then servoIndex == n && timers.servoCount == n + 1
             && timers.servos[..] == old(timers.servos[..])[n :=
               old(timers.servos[n]).(ticks := ToTicks(timers.cycles, 1500))]
        else servoIndex == 255 && timers.servoCount == n && timers.servos[..] == old(timers.servos[..])
    {
      this.timers := timers;
      min, max := 0, 0;
      servoIndex := if timers.servoCount < timers.servos.Length then timers.servoCount else INVALID_SERVO;
      new;
      if servoIndex != INVALID_SERVO {
        timers.servoCount := timers.servoCount + 1;
        timers.servos[servoIndex] := timers.servos[servoIndex].(ticks := ToTicks(timers.cycles, DEFAULT_PULSE_WIDTH));
      }
    }

    /** The pin is kept in six bits, the limits in steps of four microseconds in eight. */
    method Attach(pin: int, min: int, max: int) returns (index: nat)
      requires Valid()
      modifies this, timers.servos
      ensures Valid() && index == servoIndex
      ensures servoIndex != INVALID_SERVO ==> Lo() == Lowest(min) && Hi() == Highest(max)
      ensures servoIndex != INVALID_SERVO ==> timers.servos[..] == old(timers.servos[..])[servoIndex :=
        old(timers.servos[servoIndex]).(pin := pin % 64, active := true)]
      ensures servoIndex == INVALID_SERVO ==> unchanged(this) && timers.servos[..] == old(timers.servos[..])
    {
      if servoIndex != INVALID_SERVO {
        timers.servos[servoIndex] := timers.servos[servoIndex].(pin := pin % 64);
        this.min := Int8(Div(MIN_PULSE_WIDTH - min, 4));
        this.max := Int8(Div(MAX_PULSE_WIDTH - max, 4));
        timers.servos[servoIndex] := timers.servos[servoIndex].(active := true);
      }
      index := servoIndex;
    }

    method Detach()
      requires Valid() && servoIndex != INVALID_SERVO
      modifies timers.servos
      ensures timers.servos[..] == old(timers.servos[..])[servoIndex :=
        old(timers.servos[servoIndex]).(active := false)]
    {
      timers.servos[servoIndex] := timers.servos[servoIndex].(active := false);
    }

    method Write(value: int)
      requires Valid() && Lo() < Hi()
      modifies timers.servos
      ensures servoIndex != INVALID_SERVO ==> timers.servos[..] == old(timers.servos[..])[servoIndex :=
        old(timers.servos[servoIndex]).(ticks := Stored(timers.cycles, Width(value, Lo(), Hi()), Lo(), Hi()))]
      ensures servoIndex == INVALID_SERVO ==> timers.servos[..] == old(timers.servos[..])
    {
      var v := value;
      if v < MIN_PULSE_WIDTH {
        if v < 0 { v := 0; }
        if v > 180 { v := 180; }
        v := Map(v, 0, 180, Lo(), Hi());
      }
      WriteMicroseconds(v);
    }

    method WriteMicroseconds(value: int)
      requires Valid()
      modifies timers.servos
      ensures servoIndex != INVALID_SERVO ==> timers.servos[..] == old(timers.servos[..])[servoIndex :=
        old(timers.servos[servoIndex]).(ticks := Stored(timers.cycles, value, Lo(), Hi()))]
      ensures servoIndex == INVALID_SERVO ==> timers.servos[..] == old(timers.servos[..])
    {
      if servoIndex != INVALID_SERVO {
        var v := value;
        if v < Lo() { v := Lo(); } else if v > Hi() { v := Hi(); }
        v := v - TRIM_DURATION;
        timers.servos[servoIndex] := timers.servos[servoIndex].(ticks := ToTicks(timers.cycles, v));
      }
    }

    method Read() returns (angle: int)
      requires Valid() && Lo() < Hi()
      ensures servoIndex != INVALID_SERVO ==> angle == ReadAngle(timers.cycles, timers.servos[servoIndex].ticks, Lo(), Hi())
    {
      var us := ReadMicroseconds();
      angle := Map(us + 1, Lo(), Hi(), 0, 180);
    }

    method ReadMicroseconds() returns (us: int)
      requires Valid()
      ensures us == if servoIndex == INVALID_SERVO then 0 else ReadUs(timers.cycles, timers.servos[servoIndex].ticks)
    {
      us := if servoIndex == INVALID_SERVO then 0
            else ToUs(timers.cycles, timers.servos[servoIndex].ticks) + TRIM_DURATION;
    }

    /** An angle that was written is read back. */
    method WriteThenRead(a: int) returns (angle: int)
      requires Valid() && servoIndex != INVALID_SERVO && 0 <= a <= 180
      modifies timers.servos
      ensures angle == a
    {
      assert Hi() - Lo() > 180;
      Write(a);
      angle := Read();
      AngleRoundTrip(timers.cycles, Lo(), Hi());
      assert WriteRead(timers.cycles, a, Lo(), Hi()) == a;
    }
  }
}
