/** The instruments a registry can hold, as one sum type over shared
    references: two entries hold "the same" instrument exactly when they hold
    the same object. */
module Metrics {
  import Meters
  import Timers
  import Histograms
  import Counters

  /** A gauge wraps a caller-supplied function that is asked for a value at
      report time. The function is outside the model: only its identity is kept. */
  class Gauge {
    const func: () -> real

    /** `Gauge::new(func)`. */
    constructor (func: () -> real)
      ensures this.func == func
    {
      this.func := func;
    }
  }

  /** A registered metrics set: a provider of metrics pulled at snapshot
      time. What it provides is supplied to the snapshot as data. */
  class MetricsSetProvider {
    constructor ()
    {
    }
  }

  /** `enum Metric`, one variant per kind of instrument. */
  datatype Metric =
    | Meter(meter: Meters.Meter)
    | Timer(timer: Timers.Timer)
    | Gauge(gauge: Gauge)
    | Histogram(histogram: Histograms.Histogram)
    | Counter(counter: Counters.Counter)
    | MetricsSet(mset: MetricsSetProvider)

  /** The variant of a metric, without its payload. */
  datatype Kind = MeterKind | TimerKind | GaugeKind | HistogramKind | CounterKind | MetricsSetKind

  function KindOf(m: Metric): Kind {
    match m
    case Meter(_) => MeterKind
    case Timer(_) => TimerKind
    case Gauge(_) => GaugeKind
    case Histogram(_) => HistogramKind
    case Counter(_) => CounterKind
    case MetricsSet(_) => MetricsSetKind
  }

  /** Meters and timers carry their three moving-average windows with the
      right decay factors; this depends only on immutable fields, so it holds
      for the life of the instrument once it holds at creation. */
  ghost predicate WellFormed(m: Metric) {
    && (m.Meter? ==> m.meter.Valid())
    && (m.Timer? ==> m.timer.rate.Valid())
  }
}
