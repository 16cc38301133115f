/** Meter: an event count plus three exponentially weighted moving averages
    (1, 5 and 15 minute windows) whose decay is applied lazily: every read or
    write first replays the ticks that fell due since the last one. Time is
    passed in: instants of the monotonic clock as milliseconds, wall-clock
    readings as (possibly negative) milliseconds. */
module Meters {
  import opened Numeric
  import opened Wrappers

  /** `DEFAULT_INTERVAL_SECS` and `DEFAULT_INTERVAL_MILLIS`. */
  const TICK_INTERVAL_SECS: nat := 5
  const TICK_INTERVAL_MILLIS: nat := TICK_INTERVAL_SECS * 1000
  const NANOS_PER_SEC: nat := 1_000_000_000
  /** `interval_nanos` of every window: the tick interval in nanoseconds. */
  const INTERVAL_NANOS: nat := 5_000_000_000

  /** A decay factor `1 - exp(-interval / 60 / minutes)`, strictly between 0 and 1. */
  type Alpha = a: real | 0.0 < a < 1.0 witness 0.5

  /** `alpha(5, 1)`, `alpha(5, 5)` and `alpha(5, 15)`. The exponential is
      floating-point code outside the model: only its range is fixed here. */
  const M1_ALPHA: Alpha
  const M5_ALPHA: Alpha
  const M15_ALPHA: Alpha

  /** A reading of both clocks at one moment: `Instant::now()` in milliseconds
      and `SystemTime::now()` in milliseconds since the epoch. */
  datatype Clock = Clock(instant: nat, wall: int)

  // ---------------------------------------------------------------------
  // One moving average

  /** The mutable part of a window: events not yet folded in, and the rate in
      events per nanosecond, absent until the first tick. */
  datatype EwmaState = EwmaState(uncounted: u64, rate: Option<real>)

  /** `count as f64 / interval_nanos as f64`. */
  function InstantRate(count: u64): real {
    count as real / INTERVAL_NANOS as real
  }

  /** The rate `tick()` stores: the instant rate on the first tick, otherwise
      the previous rate moved by `alpha` towards the instant rate. */
  function NextRate(alpha: real, prev: Option<real>, count: u64): real {
    match prev
    case None => InstantRate(count)
    case Some(p) => p + alpha * (InstantRate(count) - p)
  }

  /** `tick()`: take the uncounted events (resetting them to zero) and fold
      them into the rate. */
  function TickState(alpha: real, s: EwmaState): EwmaState {
    EwmaState(0, Some(NextRate(alpha, s.rate, s.uncounted)))
  }

  /** `update(n)`: add to the uncounted events, wrapping like the atomic add. */
  function UpdateState(s: EwmaState, n: u64): EwmaState {
    EwmaState(WrapU64(s.uncounted + n), s.rate)
  }

  /** `k` ticks in a row. */
  function Replay(alpha: real, s: EwmaState, k: nat): EwmaState {
    if k == 0 then s else TickState(alpha, Replay(alpha, s, k - 1))
  }

  /** `get_rate()`: the rate per second, 0 before the first tick. */
  function PerSecond(rate: Option<real>): real {
    match rate
    case None => 0.0
    case Some(r) => r * NANOS_PER_SEC as real
  }

  class Ewma {
    const alpha: Alpha
    var uncounted: u64
    var rate: Option<real>

    function State(): EwmaState
      reads this
    {
      EwmaState(uncounted, rate)
    }

    /** `ExponentiallyWeightedMovingAverage::new`. */
    constructor (alpha: Alpha)
      ensures this.alpha == alpha && State() == EwmaState(0, None)
    {
      this.alpha := alpha;
      uncounted := 0;
      rate := None;
    }

    method Update(n: u64)
      modifies this
      ensures State() == UpdateState(old(State()), n)
    {
      uncounted := WrapU64(uncounted + n);
    }

    method Tick()
      modifies this
      ensures State() == TickState(alpha, old(State()))
    {
      var count := uncounted;
      uncounted := 0;
      var instantRate := InstantRate(count);
      match rate
      case Some(prevRate) =>
        assert NextRate(alpha, rate, count) == prevRate + alpha * (instantRate - prevRate);
        rate := Some(prevRate + alpha * (instantRate - prevRate));
      case None =>
        rate := Some(instantRate);
    }

    /** `get_rate()`: 0 before the first tick, afterwards the rate per
        second, which is non-negative when the stored rate is. */
    function GetRate(): (r: real)
      reads this
      ensures rate.None? ==> r == 0.0
      ensures rate.Some? ==> r == rate.value * 1_000_000_000.0
      ensures rate.Some? && rate.value >= 0.0 ==> r >= 0.0
    {
      PerSecond(rate)
    }
  }

  /** After its first tick a window reports the events of that interval per
      second: `count / 5`. */
  lemma FirstTickRate(alpha: real, count: u64)
    ensures PerSecond(TickState(alpha, EwmaState(count, None)).rate) == count as real / TICK_INTERVAL_SECS as real
  {
  }

  /** A tick moves the rate part of the way from the previous rate towards the
      instant rate, never past either. */
  lemma NextRateBetween(alpha: Alpha, p: real, count: u64)
    ensures var r := NextRate(alpha, Some(p), count);
      (p <= InstantRate(count) ==> p <= r <= InstantRate(count)) &&
      (InstantRate(count) <= p ==> InstantRate(count) <= r <= p)
  {
    StepBetween(alpha, p, InstantRate(count));
  }

  /** Moving from `p` a fraction `a` of the way to `i` stays between them. */
  lemma StepBetween(a: real, p: real, i: real)
    requires 0.0 < a < 1.0
    ensures p <= i ==> p <= p + a * (i - p) <= i
    ensures i <= p ==> i <= p + a * (i - p) <= p
  {
    var d := i - p;
    var b := 1.0 - a;
    assert a * d + b * d == d;
    if d >= 0.0 {
      MulNonNegative(a, d);
      MulNonNegative(b, d);
    } else {
      MulNonNegative(a, -d);
      MulNonNegative(b, -d);
      assert a * -d == -(a * d);
      assert b * -d == -(b * d);
    }
  }

  lemma MulNonNegative(x: real, y: real)
    requires x >= 0.0 && y >= 0.0
    ensures x * y >= 0.0
  {
  }

  /** A steady event rate is a fixed point of the average. */
  lemma SteadyRateIsFixed(alpha: real, count: u64)
    ensures NextRate(alpha, Some(InstantRate(count)), count) == InstantRate(count)
  {
  }

  /** `x` scaled by `c`, `n` times over. */
  function Decay(x: real, c: real, n: nat): real {
    if n == 0 then x else Decay(x, c, n - 1) * c
  }

  /** Replaying `k >= 1` ticks folds the pending events into the first tick
      only; every later tick sees zero events and scales the rate by
      `1 - alpha`. */
  lemma {:induction false} ReplayFoldsPendingOnce(alpha: real, s: EwmaState, k: nat)
    requires k >= 1
    ensures Replay(alpha, s, k) == EwmaState(0, Some(Decay(NextRate(alpha, s.rate, s.uncounted), 1.0 - alpha, k - 1)))
  {
    if k > 1 {
      ReplayFoldsPendingOnce(alpha, s, k - 1);
      var x := Decay(NextRate(alpha, s.rate, s.uncounted), 1.0 - alpha, k - 1 - 1);
      IdleTick(alpha, x);
      assert Replay(alpha, s, k) == TickState(alpha, EwmaState(0, Some(x)));
      assert Decay(NextRate(alpha, s.rate, s.uncounted), 1.0 - alpha, k - 1) == x * (1.0 - alpha);
    }
  }

  /** An idle window's rate only shrinks: it stays between 0 and where it was. */
  lemma {:induction false} DecayShrinks(x: real, c: real, n: nat)
    requires x >= 0.0 && 0.0 <= c <= 1.0
    ensures 0.0 <= Decay(x, c, n) <= x
  {
    if n > 0 {
      DecayShrinks(x, c, n - 1);
      var y := Decay(x, c, n - 1);
      MulNonNegative(y, c);
      MulNonNegative(y, 1.0 - c);
      assert y * c + y * (1.0 - c) == y;
    }
  }

  /** A tick with no new events scales the rate by `1 - alpha`. */
  lemma IdleTick(alpha: real, x: real)
    ensures NextRate(alpha, Some(x), 0) == x * (1.0 - alpha)
  {
    assert InstantRate(0) == 0.0;
  }

  /** Rates never go negative: they start absent and every tick averages
      non-negative event counts. */
  lemma {:induction false} ReplayRateNonNegative(alpha: Alpha, s: EwmaState, k: nat)
    requires s.rate.Some? ==> s.rate.value >= 0.0
    ensures PerSecond(Replay(alpha, s, k).rate) >= 0.0
    ensures k >= 1 ==> Replay(alpha, s, k).rate.Some?
    decreases k
  {
    if k > 0 {
      ReplayRateNonNegative(alpha, s, k - 1);
      var prev := Replay(alpha, s, k - 1);
      var i := InstantRate(prev.uncounted);
      if prev.rate.Some? {
        var p := prev.rate.value;
        assert p >= 0.0;
        NextRateBetween(alpha, p, prev.uncounted);
      }
    }
  }

  /** `mark_n` replays due ticks BEFORE adding its events: the new events are
      not folded into those ticks but wait, alone, for the next one (older
      pending events were folded in if any tick fell due). */
  lemma MarkedEventsWaitForNextTick(alpha: real, s: EwmaState, k: nat, n: u64)
    ensures UpdateState(Replay(alpha, s, k), n).uncounted == if k == 0 then WrapU64(s.uncounted + n) else n
    ensures UpdateState(Replay(alpha, s, k), n).rate == Replay(alpha, s, k).rate
    ensures k >= 1 ==> UpdateState(Replay(alpha, s, k), n).rate.Some?
  {
    if k >= 1 {
      ReplayFoldsPendingOnce(alpha, s, k);
    }
  }

  // ---------------------------------------------------------------------
  // The lazy tick schedule

  /** `(current_tick - previous_tick).as_millis()`: Instant subtraction
      saturates at zero. */
  function TickAge(lastTick: nat, now: nat): nat {
    if now >= lastTick then now - lastTick else 0
  }

  /** The outcome of `tick_if_needed` at `now`: where `last_tick` ends up and
      how many ticks are replayed. */
  datatype Schedule = Schedule(lastTick: nat, ticks: nat)

  /** Within one interval nothing happens; beyond it, `age / 5000` ticks are
      replayed and `last_tick` moves back from `now` to an interval boundary.
      (Sequentially the compare-and-swap always succeeds.) */
  function NextSchedule(lastTick: nat, now: nat): (r: Schedule)
    ensures TickAge(lastTick, now) <= TICK_INTERVAL_MILLIS ==> r == Schedule(lastTick, 0)
    ensures r.lastTick == lastTick + TICK_INTERVAL_MILLIS * r.ticks
    ensures r.ticks > 0 ==> r.lastTick <= now < r.lastTick + TICK_INTERVAL_MILLIS
    ensures now >= lastTick ==> now - r.lastTick <= TICK_INTERVAL_MILLIS
  {
    var age := TickAge(lastTick, now);
    if age > TICK_INTERVAL_MILLIS then
      Schedule(now - age % TICK_INTERVAL_MILLIS, age / TICK_INTERVAL_MILLIS)
    else
      Schedule(lastTick, 0)
  }

  /** Calling again at the same instant replays nothing: ticks are not applied
      twice for one elapsed interval. */
  lemma ScheduleIdempotent(lastTick: nat, now: nat)
    ensures NextSchedule(NextSchedule(lastTick, now).lastTick, now).ticks == 0
  {
  }

  /** The schedule after calls at each of `times`, with the ticks summed. */
  function RunSchedule(lastTick: nat, times: seq<nat>): Schedule
    decreases |times|
  {
    if times == [] then Schedule(lastTick, 0)
    else
      var s := NextSchedule(lastTick, times[0]);
      var rest := RunSchedule(s.lastTick, times[1..]);
      Schedule(rest.lastTick, s.ticks + rest.ticks)
  }

  /** However the calls are spread out, the lazy schedule keeps pace with the
      clock: `last_tick` moves by whole intervals, one per replayed tick, and
      ends at most one interval behind the latest call. So the ticks applied
      are the whole intervals elapsed, or one fewer. */
  lemma {:induction false} LazyTicksKeepPace(lastTick: nat, times: seq<nat>)
    requires times != [] && lastTick <= times[0]
    requires forall i, j :: 0 <= i < j < |times| ==> times[i] <= times[j]
    ensures var r := RunSchedule(lastTick, times);
      && r.lastTick == lastTick + TICK_INTERVAL_MILLIS * r.ticks
      && r.lastTick <= times[|times| - 1] <= r.lastTick + TICK_INTERVAL_MILLIS
    decreases |times|
  {
    var s := NextSchedule(lastTick, times[0]);
    if |times| > 1 {
      LazyTicksKeepPace(s.lastTick, times[1..]);
      assert times[1..][|times[1..]| - 1] == times[|times| - 1];
    }
  }

  // ---------------------------------------------------------------------
  // Mean rate

  /** An f64 as the division in `mean_rate` can produce it. */
  datatype F64 = Finite(v: real) | PosInfinity

  /** `mean_rate()` as written: count over the WHOLE seconds elapsed since
      creation (`as_secs`), 0 when nothing was counted or the wall clock is
      behind the start time. Within the first second the divisor is 0.0 and
      the f64 division yields +infinity. */
  function MeanRateAsWritten(count: u64, startTime: int, wallNow: int): (r: F64)
    ensures count == 0 || wallNow < startTime ==> r == Finite(0.0)
    ensures r.PosInfinity? <==> count > 0 && startTime <= wallNow < startTime + 1000
    ensures r.Finite? ==> 0.0 <= r.v <= count as real
  {
    if count > 0 then
      if wallNow >= startTime then
        var secs := (wallNow - startTime) / 1000;
        if secs == 0 then PosInfinity
        else
          DivideByAtLeastOne(count as real, secs as real);
          Finite(count as real / secs as real)
      else Finite(0.0)
    else Finite(0.0)
  }

  /** A meter marked once and read half a second after creation reports an
      infinite mean rate. */
  lemma MeanRateInfiniteInFirstSecond()
    ensures MeanRateAsWritten(1, 0, 500) == PosInfinity
    ensures MeanRateAsWritten(1, 0, 500) != Finite(MeanRateOf(1, 0, 500))
  {
  }

  /** `mean_rate()` as intended: 0 unless something was counted over at least
      one whole second; never more than the count itself. */
  function MeanRateOf(count: u64, startTime: int, wallNow: int): (r: real)
    ensures 0.0 <= r <= count as real
    ensures count == 0 || wallNow < startTime + 1000 ==> r == 0.0
  {
    if count > 0 && wallNow >= startTime && (wallNow - startTime) / 1000 > 0 then
      var secs := (wallNow - startTime) / 1000;
      DivideByAtLeastOne(count as real, secs as real);
      count as real / secs as real
    else 0.0
  }

  lemma DivideByAtLeastOne(x: real, d: real)
    requires x >= 0.0 && d >= 1.0
    ensures 0.0 <= x / d <= x
  {
    assert x / d * d == x;
  }

  /** The correction only replaces the infinite result: wherever the code as
      written yields a finite number, the intended rate is that number. */
  lemma MeanRateAgrees(count: u64, startTime: int, wallNow: int)
    ensures MeanRateAsWritten(count, startTime, wallNow).Finite? ==>
      MeanRateAsWritten(count, startTime, wallNow) == Finite(MeanRateOf(count, startTime, wallNow))
    ensures MeanRateAsWritten(count, startTime, wallNow).PosInfinity? <==>
      count > 0 && startTime <= wallNow < startTime + 1000
  {
  }

  // ---------------------------------------------------------------------
  // The meter

  class Meter {
    const m1: Ewma
    const m5: Ewma
    const m15: Ewma
    /** `count: AtomicU64`. */
    var count: u64
    /** `last_tick` of the moving averages, an instant in milliseconds. */
    var lastTick: nat
    /** `start_time`, a wall-clock reading in milliseconds. */
    const startTime: int

    /** The three windows are distinct objects with their decay factors. */
    ghost predicate Valid() {
      && m1 != m5 && m1 != m15 && m5 != m15
      && m1.alpha == M1_ALPHA && m5.alpha == M5_ALPHA && m15.alpha == M15_ALPHA
    }

    /** The state of the three windows at once. */
    function Windows(): (EwmaState, EwmaState, EwmaState)
      reads m1, m5, m15
    {
      (m1.State(), m5.State(), m15.State())
    }

    /** `Meter::new`: count 0, no rates yet, the schedule starting now. */
    constructor (clock: Clock)
      ensures Valid() && fresh(m1) && fresh(m5) && fresh(m15)
      ensures count == 0 && lastTick == clock.instant && startTime == clock.wall
      ensures Windows() == (EwmaState(0, None), EwmaState(0, None), EwmaState(0, None))
    {
      m1 := new Ewma(M1_ALPHA);
      m5 := new Ewma(M5_ALPHA);
      m15 := new Ewma(M15_ALPHA);
      count := 0;
      lastTick := clock.instant;
      startTime := clock.wall;
    }

    /** `tick_if_needed()` at instant `now`. */
    method TickIfNeeded(now: nat)
      requires Valid()
      modifies this`lastTick, m1, m5, m15
      ensures var s := NextSchedule(old(lastTick), now);
        && lastTick == s.lastTick
        && m1.State() == Replay(m1.alpha, old(m1.State()), s.ticks)
        && m5.State() == Replay(m5.alpha, old(m5.State()), s.ticks)
        && m15.State() == Replay(m15.alpha, old(m15.State()), s.ticks)
    {
      var previousTick := lastTick;
      var tickAge := TickAge(previousTick, now);
      if tickAge > TICK_INTERVAL_MILLIS {
        var latestTick := now - tickAge % TICK_INTERVAL_MILLIS;
        lastTick := latestTick;
        var requiredTicks := tickAge / TICK_INTERVAL_MILLIS;
        var i := 0;
        while i < requiredTicks
          invariant 0 <= i <= requiredTicks
          invariant lastTick == latestTick
          invariant m1.State() == Replay(m1.alpha, old(m1.State()), i)
          invariant m5.State() == Replay(m5.alpha, old(m5.State()), i)
          invariant m15.State() == Replay(m15.alpha, old(m15.State()), i)
        {
          m1.Tick();
          m5.Tick();
          m15.Tick();
          i := i + 1;
        }
      }
    }

    /** `mark_n(n)`: count the events, replay due ticks, and only then add the
        events to every window, where they wait for the next tick. */
    method MarkN(n: u64, now: nat)
      requires Valid()
      modifies this, m1, m5, m15
      ensures count == WrapU64(old(count) + n)
      ensures var s := NextSchedule(old(lastTick), now);
        && lastTick == s.lastTick
        && m1.State() == UpdateState(Replay(m1.alpha, old(m1.State()), s.ticks), n)
        && m5.State() == UpdateState(Replay(m5.alpha, old(m5.State()), s.ticks), n)
        && m15.State() == UpdateState(Replay(m15.alpha, old(m15.State()), s.ticks), n)
    {
      count := WrapU64(count + n);
      TickIfNeeded(now);
      m1.Update(n);
      m5.Update(n);
      m15.Update(n);
    }

    /** `mark()`: one event. */
    method Mark(now: nat)
      requires Valid()
      modifies this, m1, m5, m15
      ensures count == WrapU64(old(count) + 1)
      ensures var s := NextSchedule(old(lastTick), now);
        && lastTick == s.lastTick
        && m1.State() == UpdateState(Replay(m1.alpha, old(m1.State()), s.ticks), 1)
        && m5.State() == UpdateState(Replay(m5.alpha, old(m5.State()), s.ticks), 1)
        && m15.State() == UpdateState(Replay(m15.alpha, old(m15.State()), s.ticks), 1)
    {
      MarkN(1, now);
    }

    /** `m1_rate()`: replay due ticks, then report the 1-minute rate per second. */
    method M1Rate(now: nat) returns (r: real)
      requires Valid()
      modifies this`lastTick, m1, m5, m15
      ensures lastTick == NextSchedule(old(lastTick), now).lastTick
      ensures Windows() == (Replay(m1.alpha, old(m1.State()), NextSchedule(old(lastTick), now).ticks),
                            Replay(m5.alpha, old(m5.State()), NextSchedule(old(lastTick), now).ticks),
                            Replay(m15.alpha, old(m15.State()), NextSchedule(old(lastTick), now).ticks))
      ensures r == PerSecond(m1.rate)
    {
      TickIfNeeded(now);
      r := m1.GetRate();
    }

    /** `m5_rate()`. */
    method M5Rate(now: nat) returns (r: real)
      requires Valid()
      modifies this`lastTick, m1, m5, m15
      ensures lastTick == NextSchedule(old(lastTick), now).lastTick
      ensures Windows() == (Replay(m1.alpha, old(m1.State()), NextSchedule(old(lastTick), now).ticks),
                            Replay(m5.alpha, old(m5.State()), NextSchedule(old(lastTick), now).ticks),
                            Replay(m15.alpha, old(m15.State()), NextSchedule(old(lastTick), now).ticks))
      ensures r == PerSecond(m5.rate)
    {
      TickIfNeeded(now);
      r := m5.GetRate();
    }

    /** `m15_rate()`. */
    method M15Rate(now: nat) returns (r: real)
      requires Valid()
      modifies this`lastTick, m1, m5, m15
      ensures lastTick == NextSchedule(old(lastTick), now).lastTick
      ensures Windows() == (Replay(m1.alpha, old(m1.State()), NextSchedule(old(lastTick), now).ticks),
                            Replay(m5.alpha, old(m5.State()), NextSchedule(old(lastTick), now).ticks),
                            Replay(m15.alpha, old(m15.State()), NextSchedule(old(lastTick), now).ticks))
      ensures r == PerSecond(m15.rate)
    {
      TickIfNeeded(now);
      r := m15.GetRate();
    }

    /** `count()`: a plain load. */
    method Count() returns (c: u64)
      ensures c == count
    {
      c := count;
    }

    /** `mean_rate()` at wall-clock time `wallNow` (intended form, see
        `MeanRateAsWritten`). */
    function MeanRate(wallNow: int): (r: real)
      reads this
      ensures count == 0 ==> r == 0.0
      ensures 0.0 <= r <= count as real
    {
      MeanRateOf(count, startTime, wallNow)
    }
  }

  /** `mark_n` adds exactly `n` to the count, so the count never decreases
      while the total stays below 2^64. */
  lemma MarkNCountsExactly(count: u64, n: u64)
    requires count + n < U64_MODULUS
    ensures WrapU64(count + n) == count + n >= count
  {
  }
}
