/** Timer: a meter counting how often a section of code is entered, and a
    histogram of how long it took, in milliseconds. `start` marks the meter
    and hands out a context; stopping the context records one latency sample.
    Dropping a context ALWAYS stops it again, so a context that was stopped
    explicitly records two samples. Instants are milliseconds of the
    monotonic clock, passed in. */
module Timers {
  import opened Numeric
  import opened Meters
  import opened Histograms

  /** `(now - start_at).as_millis() as u64`, handed to the histogram's i64
      `update`: Instant subtraction saturates at zero, the u128 milliseconds
      are truncated to 64 bits and then read as a signed value. Below 2^63 ms
      (about 292 million years) the sample is the elapsed time itself; a
      clock read before the start gives 0. */
  function LatencySample(startAt: nat, now: nat): (r: i64)
    ensures now <= startAt ==> r == 0
    ensures startAt <= now && now - startAt <= I64_MAX ==> r == now - startAt
    ensures (r - TickAge(startAt, now)) % U64_MODULUS == 0
  {
    WrapI64(WrapU64(TickAge(startAt, now)))
  }

  class Timer {
    const rate: Meter
    const latency: Histogram

    ghost predicate Valid()
      reads latency
    {
      rate.Valid() && latency.Valid()
    }

    /** `Timer::new`: a fresh meter and a fresh histogram, both empty. */
    constructor (clock: Clock)
      ensures Valid() && fresh(rate) && fresh(rate.m1) && fresh(rate.m5) && fresh(rate.m15) && fresh(latency)
      ensures rate.count == 0 && latency.count == 0 && latency.samples == []
    {
      rate := new Meter(clock);
      latency := new Histogram();
    }

    /** `start_at(start)` with the clock at `now`: marks the meter (which
        replays its due ticks at `now` and then adds one event to every
        window) and leaves the histogram alone. */
    method StartAt(start: nat, now: nat) returns (ctx: TimerContext)
      requires rate.Valid()
      modifies rate, rate.m1, rate.m5, rate.m15
      ensures ctx == TimerContext(start, this)
      ensures rate.count == WrapU64(old(rate.count) + 1)
      ensures var s := NextSchedule(old(rate.lastTick), now);
        && rate.lastTick == s.lastTick
        && rate.m1.State() == UpdateState(Replay(rate.m1.alpha, old(rate.m1.State()), s.ticks), 1)
        && rate.m5.State() == UpdateState(Replay(rate.m5.alpha, old(rate.m5.State()), s.ticks), 1)
        && rate.m15.State() == UpdateState(Replay(rate.m15.alpha, old(rate.m15.State()), s.ticks), 1)
      ensures latency.samples == old(latency.samples) && latency.count == old(latency.count)
      ensures rate.Valid()
    {
      rate.Mark(now);
      ctx := TimerContext(start, this);
    }

    /** `start()`: `start_at(Instant::now())`. */
    method Start(now: nat) returns (ctx: TimerContext)
      requires rate.Valid()
      modifies rate, rate.m1, rate.m5, rate.m15
      ensures ctx == TimerContext(now, this)
      ensures rate.count == WrapU64(old(rate.count) + 1)
      ensures var s := NextSchedule(old(rate.lastTick), now);
        && rate.lastTick == s.lastTick
        && rate.m1.State() == UpdateState(Replay(rate.m1.alpha, old(rate.m1.State()), s.ticks), 1)
        && rate.m5.State() == UpdateState(Replay(rate.m5.alpha, old(rate.m5.State()), s.ticks), 1)
        && rate.m15.State() == UpdateState(Replay(rate.m15.alpha, old(rate.m15.State()), s.ticks), 1)
      ensures latency.samples == old(latency.samples) && latency.count == old(latency.count)
      ensures rate.Valid()
    {
      ctx := StartAt(now, now);
    }

    /** `scoped(f)`: start at `startNow`, run `f` (its result is `result`),
        stop explicitly at `stopNow`, and then the context is dropped at
        `dropNow` and stops a second time. One mark, two samples. */
    method Scoped<R>(result: R, startNow: nat, stopNow: nat, dropNow: nat) returns (r: R)
      requires rate.Valid()
      modifies rate, rate.m1, rate.m5, rate.m15, latency
      ensures r == result
      ensures rate.count == WrapU64(old(rate.count) + 1)
      ensures var s := NextSchedule(old(rate.lastTick), startNow);
        && rate.lastTick == s.lastTick
        && rate.m1.State() == UpdateState(Replay(rate.m1.alpha, old(rate.m1.State()), s.ticks), 1)
        && rate.m5.State() == UpdateState(Replay(rate.m5.alpha, old(rate.m5.State()), s.ticks), 1)
        && rate.m15.State() == UpdateState(Replay(rate.m15.alpha, old(rate.m15.State()), s.ticks), 1)
      ensures latency.samples == old(latency.samples) + [LatencySample(startNow, stopNow), LatencySample(startNow, dropNow)]
      ensures latency.count == WrapU64(old(latency.count) + 2)
      ensures rate.Valid() && (old(latency.Valid()) ==> latency.Valid())
    {
      var ctx := Start(startNow);
      r := result;
      ctx.Stop(stopNow);
      ctx.Drop(dropNow);
      WrapU64Absorbs(old(latency.count) + 1, 1);
    }

    /** `rate()`: the meter itself, the one every start marks. */
    method Rate() returns (m: Meter)
      ensures m == rate
    {
      m := rate;
    }

    /** `latency()`: a snapshot of the histogram; the timer is unchanged. */
    method Latency() returns (s: HistogramSnapshot)
      ensures s.values == latency.samples && s.Count() == latency.count
      ensures latency.Valid() ==> s.Count() == WrapU64(|s.values|)
    {
      s := latency.Snapshot();
    }
  }

  /** A started measurement: when it began and the timer it reports to. */
  datatype TimerContext = TimerContext(startAt: nat, timer: Timer) {

    /** `stop()` at `now`: one latency sample, the meter untouched. It does
        not consume the context. */
    method Stop(now: nat)
      modifies timer.latency
      ensures timer.latency.samples == old(timer.latency.samples) + [LatencySample(startAt, now)]
      ensures timer.latency.count == WrapU64(old(timer.latency.count) + 1)
      ensures old(timer.latency.Valid()) ==> timer.latency.Valid()
    {
      timer.latency.Update(LatencySample(startAt, now));
    }

    /** `Drop` at `now`: calls `stop()` unconditionally, whether or not the
        context was stopped before. */
    method Drop(now: nat)
      modifies timer.latency
      ensures timer.latency.samples == old(timer.latency.samples) + [LatencySample(startAt, now)]
      ensures timer.latency.count == WrapU64(old(timer.latency.count) + 1)
      ensures old(timer.latency.Valid()) ==> timer.latency.Valid()
    {
      Stop(now);
    }
  }

  /** The scenario of the timer's own test: start and stop explicitly (the
      context stays alive), then start once more and drop that context at
      once; finally the first context goes out of scope. The meter counts the
      starts, 1 and then 2; the histogram ends with three samples, one of
      them from the second stop of the first context. */
  method DropTimerContextScenario(clock: Clock) returns (afterFirst: u64, afterSecond: u64, samples: nat)
    ensures afterFirst == 1 && afterSecond == 2
    ensures samples == 3
  {
    var timer := new Timer(clock);
    var t := timer.Start(clock.instant);
    t.Stop(clock.instant);
    afterFirst := timer.rate.Count();
    var u := timer.Start(clock.instant);
    u.Drop(clock.instant);
    afterSecond := timer.rate.Count();
    t.Drop(clock.instant + 500);
    var s := timer.Latency();
    samples := |s.values|;
  }
}
