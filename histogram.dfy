/** Histogram: a reservoir of recorded values behind a lock, plus an exact
    update counter. The decaying reservoir itself belongs to another library;
    here it is the sequence of every value passed to it, in order. */
module Histograms {
  import opened Numeric

  /** What `snapshot()` captures: the reservoir's values and the count at that
      moment. It is a value, so later updates to the live histogram do not
      change it. */
  datatype HistogramSnapshot = HistogramSnapshot(values: seq<i64>, count: u64) {

    /** `HistogramSnapshot::count()`. */
    function Count(): (r: u64)
      ensures r == count
    {
      count
    }
  }

  class Histogram {
    /** The values handed to the reservoir, oldest first. */
    var samples: seq<i64>
    /** The `AtomicU64` update counter. */
    var count: u64

    /** The counter is the number of updates, modulo 2^64. */
    ghost predicate Valid()
      reads this
    {
      count == WrapU64(|samples|)
    }

    /** `Histogram::new`: no values, count zero. */
    constructor ()
      ensures Valid() && samples == [] && count == 0
    {
      samples := [];
      count := 0;
    }

    /** `update(v)`: any value is passed on and counted; nothing is checked
        or dropped. */
    method Update(v: i64)
      modifies this
      ensures samples == old(samples) + [v]
      ensures count == WrapU64(old(count) + 1)
      ensures old(Valid()) ==> Valid()
    {
      WrapU64Absorbs(|samples|, 1);
      samples := samples + [v];
      count := WrapU64(count + 1);
    }

    /** `snapshot()`: reads the reservoir and the counter; changes nothing. */
    method Snapshot() returns (s: HistogramSnapshot)
      ensures s.values == samples && s.Count() == count
      ensures Valid() ==> s.Count() == WrapU64(|s.values|)
    {
      s := HistogramSnapshot(samples, count);
    }
  }
}
