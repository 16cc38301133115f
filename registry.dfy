/** The metrics registry: the static instruments, each bound to a key, the
    named metrics sets whose metrics are pulled at snapshot time, and an
    optional filter applied to snapshots.

    Asking for an instrument is get-or-create: an instrument of the requested
    kind already bound to the key is returned as is (the same object), an
    absent key gets a fresh instrument, and a key bound to another kind is an
    error (the code panics there; here the error is returned and nothing
    changes). Gauges are different: they are always inserted, replacing
    whatever the key held. */
module Registry {
  import opened Numeric
  import opened Wrappers
  import opened Keys
  import opened Metrics
  import Meters
  import Timers
  import Histograms
  import Counters

  /** `MetricsFilter::accept(name, metric)`, supplied by the caller. */
  type Filter = (string, Metric) -> bool

  /** Whether a snapshot keeps an entry: always without a filter, otherwise
      as the filter says. */
  function Accepts(filter: Option<Filter>, name: string, m: Metric): (r: bool)
    ensures filter.None? ==> r
    ensures filter.Some? ==> (r <==> filter.value(name, m))
  {
    filter.None? || filter.value(name, m)
  }

  // ---------------------------------------------------------------------
  // Get-or-create

  /** What get-or-create finds under a key when asked for a kind. */
  datatype Lookup = Found(metric: Metric) | Conflict(existing: Kind) | Absent

  function LookupKind(metrics: map<Key, Metric>, key: Key, kind: Kind): (l: Lookup)
    ensures l.Absent? <==> key !in metrics
    ensures l.Found? <==> key in metrics && KindOf(metrics[key]) == kind
    ensures l.Found? ==> l.metric == metrics[key] && KindOf(l.metric) == kind
    ensures l.Conflict? ==> key in metrics && l.existing == KindOf(metrics[key]) != kind
  {
    if key !in metrics then Absent
    else if KindOf(metrics[key]) == kind then Found(metrics[key])
    else Conflict(KindOf(metrics[key]))
  }

  /** After a get-or-create inserted `created`, asking again for the same kind
      finds that very instrument: the second call returns the same instance
      and changes nothing. Any other key is looked up as before. */
  lemma CreatedIsFoundAgain(metrics: map<Key, Metric>, key: Key, created: Metric, other: Key, kind: Kind)
    requires key !in metrics
    ensures LookupKind(metrics[key := created], key, KindOf(created)) == Found(created)
    ensures LookupKind(metrics[key := created], key, kind).Conflict? <==> kind != KindOf(created)
    ensures other != key ==> LookupKind(metrics[key := created], other, kind) == LookupKind(metrics, other, kind)
  {
  }

  /** Every instrument of every entry is well-formed. */
  ghost predicate AllWellFormed(metrics: map<Key, Metric>) {
    forall k :: k in metrics ==> WellFormed(metrics[k])
  }

  // ---------------------------------------------------------------------
  // Snapshots

  /** The static entries a snapshot keeps. */
  function StaticPart(metrics: map<Key, Metric>, filter: Option<Filter>): (r: map<Key, Metric>)
    ensures forall k :: k in r <==> k in metrics && Accepts(filter, k.name, metrics[k])
    ensures forall k :: k in r ==> r[k] == metrics[k]
  {
    map k | k in metrics && Accepts(filter, k.name, metrics[k]) :: metrics[k]
  }

  /** Registering one more static entry adds it to the snapshot exactly
      when the filter accepts it. */
  lemma StaticPartInsert(metrics: map<Key, Metric>, filter: Option<Filter>, k: Key, m: Metric)
    requires k !in metrics
    ensures Accepts(filter, k.name, m) ==> StaticPart(metrics[k := m], filter) == StaticPart(metrics, filter)[k := m]
    ensures !Accepts(filter, k.name, m) ==> StaticPart(metrics[k := m], filter) == StaticPart(metrics, filter)
  {
    if Accepts(filter, k.name, m) {
      assert StaticPart(metrics[k := m], filter) == StaticPart(metrics, filter)[k := m];
    } else {
      assert StaticPart(metrics[k := m], filter) == StaticPart(metrics, filter);
    }
  }

  /** The entries of one pulled set among `names` that the filter accepts,
      each under the untagged key of its name. */
  function SetPartOn(entries: map<string, Metric>, filter: Option<Filter>, names: set<string>): (r: map<Key, Metric>)
    ensures forall k :: k in r <==> k.tags == [] && k.name in names && k.name in entries && Accepts(filter, k.name, entries[k.name])
    ensures forall k :: k in r ==> r[k] == entries[k.name]
  {
    map n | n in names && n in entries && Accepts(filter, n, entries[n]) :: FromName(n) := entries[n]
  }

  function SetPart(entries: map<string, Metric>, filter: Option<Filter>): map<Key, Metric> {
    SetPartOn(entries, filter, entries.Keys)
  }

  /** The snapshot when the sets are visited in `order`: the accepted static
      entries, then each set's accepted entries inserted over what is there. */
  function SnapshotOf(metrics: map<Key, Metric>, filter: Option<Filter>,
                      pulled: map<string, map<string, Metric>>, order: seq<string>): map<Key, Metric>
    requires forall i :: 0 <= i < |order| ==> order[i] in pulled
    decreases |order|
  {
    if order == [] then StaticPart(metrics, filter)
    else SnapshotOf(metrics, filter, pulled, order[..|order| - 1]) + SetPart(pulled[order[|order| - 1]], filter)
  }

  /** Visiting one more set merges its accepted entries over the rest. */
  lemma SnapshotOfAppend(metrics: map<Key, Metric>, filter: Option<Filter>,
                         pulled: map<string, map<string, Metric>>, order: seq<string>, n: string)
    requires forall i :: 0 <= i < |order| ==> order[i] in pulled
    requires n in pulled
    ensures forall i :: 0 <= i < |order + [n]| ==> (order + [n])[i] in pulled
    ensures SnapshotOf(metrics, filter, pulled, order + [n]) == SnapshotOf(metrics, filter, pulled, order) + SetPart(pulled[n], filter)
  {
    assert (order + [n])[..|order|] == order;
  }

  /** Set `n` of the pulled data contributes an accepted entry named `name`. */
  predicate Provides(pulled: map<string, map<string, Metric>>, filter: Option<Filter>, n: string, name: string)
  {
    n in pulled && name in pulled[n] && Accepts(filter, name, pulled[n][name])
  }

  /** Exactly the accepted static keys and the untagged keys of accepted set
      entries appear in a snapshot; nothing else does. */
  lemma {:induction false} SnapshotKeys(metrics: map<Key, Metric>, filter: Option<Filter>,
                                        pulled: map<string, map<string, Metric>>, order: seq<string>, k: Key)
    requires forall i :: 0 <= i < |order| ==> order[i] in pulled
    ensures k in SnapshotOf(metrics, filter, pulled, order) <==>
      (k in metrics && Accepts(filter, k.name, metrics[k])) ||
      (k.tags == [] && exists i :: 0 <= i < |order| && Provides(pulled, filter, order[i], k.name))
    decreases |order|
  {
    if order != [] {
      var init := order[..|order| - 1];
      SnapshotKeys(metrics, filter, pulled, init, k);
      ProvidedSomewhereSplit(pulled, filter, order, init, k.name);
    }
  }

  /** Some set of `order` provides `name` iff one of all but the last does,
      or the last one does. */
  lemma ProvidedSomewhereSplit(pulled: map<string, map<string, Metric>>, filter: Option<Filter>,
                               order: seq<string>, init: seq<string>, name: string)
    requires order != [] && init == order[..|order| - 1]
    ensures (exists i :: 0 <= i < |order| && Provides(pulled, filter, order[i], name)) <==>
      (exists i :: 0 <= i < |init| && Provides(pulled, filter, init[i], name))
      || Provides(pulled, filter, order[|order| - 1], name)
  {
    if exists i :: 0 <= i < |order| && Provides(pulled, filter, order[i], name) {
      var i :| 0 <= i < |order| && Provides(pulled, filter, order[i], name);
      if i < |order| - 1 {
        assert init[i] == order[i];
      }
    }
    if exists i :: 0 <= i < |init| && Provides(pulled, filter, init[i], name) {
      var i :| 0 <= i < |init| && Provides(pulled, filter, init[i], name);
      assert order[i] == init[i];
    }
  }

  /** An accepted static entry survives, with its own instrument, unless some
      set provides an accepted entry under the same (untagged) key. */
  lemma {:induction false} StaticEntryKept(metrics: map<Key, Metric>, filter: Option<Filter>,
                                           pulled: map<string, map<string, Metric>>, order: seq<string>, k: Key)
    requires forall i :: 0 <= i < |order| ==> order[i] in pulled
    requires k in metrics && Accepts(filter, k.name, metrics[k])
    requires k.tags == [] ==> forall i :: 0 <= i < |order| ==> !Provides(pulled, filter, order[i], k.name)
    ensures k in SnapshotOf(metrics, filter, pulled, order)
    ensures SnapshotOf(metrics, filter, pulled, order)[k] == metrics[k]
    decreases |order|
  {
    if order != [] {
      var init := order[..|order| - 1];
      forall i | 0 <= i < |init|
        ensures init[i] == order[i]
      {
      }
      StaticEntryKept(metrics, filter, pulled, init, k);
      assert k !in SetPart(pulled[order[|order| - 1]], filter) by {
        if k.tags == [] {
          assert !Provides(pulled, filter, order[|order| - 1], k.name);
        }
      }
    }
  }

  /** A set entry the filter accepts appears under its name's untagged key,
      overwriting a static entry there; when several sets provide the name,
      the one visited last wins. */
  lemma {:induction false} SetEntryWins(metrics: map<Key, Metric>, filter: Option<Filter>,
                                        pulled: map<string, map<string, Metric>>, order: seq<string>,
                                        i: nat, name: string)
    requires forall j :: 0 <= j < |order| ==> order[j] in pulled
    requires i < |order| && Provides(pulled, filter, order[i], name)
    requires forall j :: i < j < |order| ==> !Provides(pulled, filter, order[j], name)
    ensures FromName(name) in SnapshotOf(metrics, filter, pulled, order)
    ensures SnapshotOf(metrics, filter, pulled, order)[FromName(name)] == pulled[order[i]][name]
    decreases |order|
  {
    var last := |order| - 1;
    var init := order[..last];
    var before := SnapshotOf(metrics, filter, pulled, init);
    var lastPart := SetPart(pulled[order[last]], filter);
    UnionLookup(before, lastPart, FromName(name));
    if i < last {
      forall j | 0 <= j < |init|
        ensures init[j] == order[j]
      {
      }
      SetEntryWins(metrics, filter, pulled, init, i, name);
      assert !Provides(pulled, filter, order[last], name);
    }
  }

  /** A key of the right operand of `+` takes its value from there; any other
      key keeps the left operand's value. */
  lemma UnionLookup(a: map<Key, Metric>, b: map<Key, Metric>, k: Key)
    ensures k in a + b <==> k in a || k in b
    ensures k in b ==> (a + b)[k] == b[k]
    ensures k !in b && k in a ==> (a + b)[k] == a[k]
  {
  }

  // ---------------------------------------------------------------------
  // The registry

  class MetricsRegistry {
    /** `inner.metrics`: the static instruments. */
    var metrics: map<Key, Metric>
    /** `inner.mset`: the registered metrics sets, by name. */
    var msets: map<string, MetricsSetProvider>
    /** The optional snapshot filter. */
    var filter: Option<Filter>

    ghost predicate Valid()
      reads this
    {
      AllWellFormed(metrics)
    }

    /** `MetricsRegistry::new()`: empty, no sets, no filter. */
    constructor ()
      ensures Valid() && metrics == map[] && msets == map[] && filter == None
    {
      metrics := map[];
      msets := map[];
      filter := None;
    }

    /** `do_meter(key)`: get-or-create a meter (created with the clock at
        `clock`). */
    method DoMeter(key: Key, clock: Meters.Clock) returns (r: Result<Meters.Meter, Kind>)
      requires Valid()
      modifies this`metrics
      ensures Valid()
      ensures var l := LookupKind(old(metrics), key, MeterKind);
        && (l.Found? ==> r == Ok(l.metric.meter) && metrics == old(metrics))
        && (l.Conflict? ==> r == Err(l.existing) && metrics == old(metrics))
        && (l.Absent? ==> r.Ok? && metrics == old(metrics)[key := Meter(r.value)])
      ensures r.Ok? ==> r.value.Valid()
      ensures key !in old(metrics) ==>
        r.Ok? && fresh(r.value) && r.value.count == 0 && fresh(r.value.m1) && fresh(r.value.m5) && fresh(r.value.m15)
    {
      if key in metrics {
        var existing := metrics[key];
        if existing.Meter? {
          r := Ok(existing.meter);
        } else {
          r := Err(KindOf(existing));
        }
      } else {
        var m := new Meters.Meter(clock);
        metrics := metrics[key := Meter(m)];
        r := Ok(m);
      }
    }

    /** `meter(name)`: under the untagged key. */
    method GetMeter(name: string, clock: Meters.Clock) returns (r: Result<Meters.Meter, Kind>)
      requires Valid()
      modifies this`metrics
      ensures Valid()
      ensures var l := LookupKind(old(metrics), FromName(name), MeterKind);
        && (l.Found? ==> r == Ok(l.metric.meter) && metrics == old(metrics))
        && (l.Conflict? ==> r == Err(l.existing) && metrics == old(metrics))
        && (l.Absent? ==> r.Ok? && metrics == old(metrics)[FromName(name) := Meter(r.value)])
      ensures r.Ok? ==> r.value.Valid()
      ensures FromName(name) !in old(metrics) ==>
        r.Ok? && fresh(r.value) && r.value.count == 0 && fresh(r.value.m1) && fresh(r.value.m5) && fresh(r.value.m15)
    {
      r := DoMeter(FromName(name), clock);
    }

    /** `meter_with_tags(name, tags)`: under the tagged key, tags as given. */
    method MeterWithTags(name: string, tags: seq<Tag>, clock: Meters.Clock) returns (r: Result<Meters.Meter, Kind>)
      requires Valid()
      modifies this`metrics
      ensures Valid()
      ensures var l := LookupKind(old(metrics), From(name, tags), MeterKind);
        && (l.Found? ==> r == Ok(l.metric.meter) && metrics == old(metrics))
        && (l.Conflict? ==> r == Err(l.existing) && metrics == old(metrics))
        && (l.Absent? ==> r.Ok? && metrics == old(metrics)[From(name, tags) := Meter(r.value)])
      ensures r.Ok? ==> r.value.Valid()
      ensures From(name, tags) !in old(metrics) ==>
        r.Ok? && fresh(r.value) && r.value.count == 0 && fresh(r.value.m1) && fresh(r.value.m5) && fresh(r.value.m15)
    {
      r := DoMeter(From(name, tags), clock);
    }

    /** `do_histogram(key)`: get-or-create a histogram. */
    method DoHistogram(key: Key) returns (r: Result<Histograms.Histogram, Kind>)
      requires Valid()
      modifies this`metrics
      ensures Valid()
      ensures var l := LookupKind(old(metrics), key, HistogramKind);
        && (l.Found? ==> r == Ok(l.metric.histogram) && metrics == old(metrics))
        && (l.Conflict? ==> r == Err(l.existing) && metrics == old(metrics))
        && (l.Absent? ==> r.Ok? && metrics == old(metrics)[key := Histogram(r.value)])
      ensures key !in old(metrics) ==> r.Ok? && fresh(r.value) && r.value.Valid() && r.value.count == 0 && r.value.samples == []
    {
      if key in metrics {
        var existing := metrics[key];
        if existing.Histogram? {
          r := Ok(existing.histogram);
        } else {
          r := Err(KindOf(existing));
        }
      } else {
        var h := new Histograms.Histogram();
        metrics := metrics[key := Histogram(h)];
        r := Ok(h);
      }
    }

    /** `histogram(name)`. */
    method GetHistogram(name: string) returns (r: Result<Histograms.Histogram, Kind>)
      requires Valid()
      modifies this`metrics
      ensures Valid()
      ensures var l := LookupKind(old(metrics), FromName(name), HistogramKind);
        && (l.Found? ==> r == Ok(l.metric.histogram) && metrics == old(metrics))
        && (l.Conflict? ==> r == Err(l.existing) && metrics == old(metrics))
        && (l.Absent? ==> r.Ok? && metrics == old(metrics)[FromName(name) := Histogram(r.value)])
      ensures FromName(name) !in old(metrics) ==>
        r.Ok? && fresh(r.value) && r.value.Valid() && r.value.count == 0 && r.value.samples == []
    {
      r := DoHistogram(FromName(name));
    }

    /** `histogram_with_tags(name, tags)`. */
    method HistogramWithTags(name: string, tags: seq<Tag>) returns (r: Result<Histograms.Histogram, Kind>)
      requires Valid()
      modifies this`metrics
      ensures Valid()
      ensures var l := LookupKind(old(metrics), From(name, tags), HistogramKind);
        && (l.Found? ==> r == Ok(l.metric.histogram) && metrics == old(metrics))
        && (l.Conflict? ==> r == Err(l.existing) && metrics == old(metrics))
        && (l.Absent? ==> r.Ok? && metrics == old(metrics)[From(name, tags) := Histogram(r.value)])
      ensures From(name, tags) !in old(metrics) ==>
        r.Ok? && fresh(r.value) && r.value.Valid() && r.value.count == 0 && r.value.samples == []
    {
      r := DoHistogram(From(name, tags));
    }

    /** `do_counter(key)`: get-or-create a counter. */
    method DoCounter(key: Key) returns (r: Result<Counters.Counter, Kind>)
      requires Valid()
      modifies this`metrics
      ensures Valid()
      ensures var l := LookupKind(old(metrics), key, CounterKind);
        && (l.Found? ==> r == Ok(l.metric.counter) && metrics == old(metrics))
        && (l.Conflict? ==> r == Err(l.existing) && metrics == old(metrics))
        && (l.Absent? ==> r.Ok? && metrics == old(metrics)[key := Counter(r.value)])
      ensures key !in old(metrics) ==> r.Ok? && fresh(r.value) && r.value.value == 0
    {
      if key in metrics {
        var existing := metrics[key];
        if existing.Counter? {
          r := Ok(existing.counter);
        } else {
          r := Err(KindOf(existing));
        }
      } else {
        var c := new Counters.Counter();
        metrics := metrics[key := Counter(c)];
        r := Ok(c);
      }
    }

    /** `counter(name)`. */
    method GetCounter(name: string) returns (r: Result<Counters.Counter, Kind>)
      requires Valid()
      modifies this`metrics
      ensures Valid()
      ensures var l := LookupKind(old(metrics), FromName(name), CounterKind);
        && (l.Found? ==> r == Ok(l.metric.counter) && metrics == old(metrics))
        && (l.Conflict? ==> r == Err(l.existing) && metrics == old(metrics))
        && (l.Absent? ==> r.Ok? && metrics == old(metrics)[FromName(name) := Counter(r.value)])
      ensures FromName(name) !in old(metrics) ==> r.Ok? && fresh(r.value) && r.value.value == 0
    {
      r := DoCounter(FromName(name));
    }

    /** `counter_with_tags(name, tags)`. */
    method CounterWithTags(name: string, tags: seq<Tag>) returns (r: Result<Counters.Counter, Kind>)
      requires Valid()
      modifies this`metrics
      ensures Valid()
      ensures var l := LookupKind(old(metrics), From(name, tags), CounterKind);
        && (l.Found? ==> r == Ok(l.metric.counter) && metrics == old(metrics))
        && (l.Conflict? ==> r == Err(l.existing) && metrics == old(metrics))
        && (l.Absent? ==> r.Ok? && metrics == old(metrics)[From(name, tags) := Counter(r.value)])
      ensures From(name, tags) !in old(metrics) ==> r.Ok? && fresh(r.value) && r.value.value == 0
    {
      r := DoCounter(From(name, tags));
    }

    /** `do_timer(key)`: get-or-create a timer (created with the clock at
        `clock`). */
    method DoTimer(key: Key, clock: Meters.Clock) returns (r: Result<Timers.Timer, Kind>)
      requires Valid()
      modifies this`metrics
      ensures Valid()
      ensures var l := LookupKind(old(metrics), key, TimerKind);
        && (l.Found? ==> r == Ok(l.metric.timer) && metrics == old(metrics))
        && (l.Conflict? ==> r == Err(l.existing) && metrics == old(metrics))
        && (l.Absent? ==> r.Ok? && metrics == old(metrics)[key := Timer(r.value)])
      ensures r.Ok? ==> r.value.rate.Valid()
      ensures key !in old(metrics) ==>
        r.Ok? && fresh(r.value) && fresh(r.value.rate) && fresh(r.value.rate.m1) && fresh(r.value.rate.m5)
        && fresh(r.value.rate.m15) && fresh(r.value.latency) && r.value.Valid()
        && r.value.rate.count == 0 && r.value.latency.count == 0 && r.value.latency.samples == []
    {
      if key in metrics {
        var existing := metrics[key];
        if existing.Timer? {
          r := Ok(existing.timer);
        } else {
          r := Err(KindOf(existing));
        }
      } else {
        var t := new Timers.Timer(clock);
        metrics := metrics[key := Timer(t)];
        r := Ok(t);
      }
    }

    /** `timer(name)`. */
    method GetTimer(name: string, clock: Meters.Clock) returns (r: Result<Timers.Timer, Kind>)
      requires Valid()
      modifies this`metrics
      ensures Valid()
      ensures var l := LookupKind(old(metrics), FromName(name), TimerKind);
        && (l.Found? ==> r == Ok(l.metric.timer) && metrics == old(metrics))
        && (l.Conflict? ==> r == Err(l.existing) && metrics == old(metrics))
        && (l.Absent? ==> r.Ok? && metrics == old(metrics)[FromName(name) := Timer(r.value)])
      ensures r.Ok? ==> r.value.rate.Valid()
      ensures FromName(name) !in old(metrics) ==>
        r.Ok? && fresh(r.value) && fresh(r.value.rate) && fresh(r.value.rate.m1) && fresh(r.value.rate.m5)
        && fresh(r.value.rate.m15) && fresh(r.value.latency) && r.value.Valid()
        && r.value.rate.count == 0 && r.value.latency.count == 0 && r.value.latency.samples == []
    {
      r := DoTimer(FromName(name), clock);
    }

    /** `timer_with_tags(name, tags)`. */
    method TimerWithTags(name: string, tags: seq<Tag>, clock: Meters.Clock) returns (r: Result<Timers.Timer, Kind>)
      requires Valid()
      modifies this`metrics
      ensures Valid()
      ensures var l := LookupKind(old(metrics), From(name, tags), TimerKind);
        && (l.Found? ==> r == Ok(l.metric.timer) && metrics == old(metrics))
        && (l.Conflict? ==> r == Err(l.existing) && metrics == old(metrics))
        && (l.Absent? ==> r.Ok? && metrics == old(metrics)[From(name, tags) := Timer(r.value)])
      ensures r.Ok? ==> r.value.rate.Valid()
      ensures From(name, tags) !in old(metrics) ==>
        r.Ok? && fresh(r.value) && fresh(r.value.rate) && fresh(r.value.rate.m1) && fresh(r.value.rate.m5)
        && fresh(r.value.rate.m15) && fresh(r.value.latency) && r.value.Valid()
        && r.value.rate.count == 0 && r.value.latency.count == 0 && r.value.latency.samples == []
    {
      r := DoTimer(From(name, tags), clock);
    }

    /** `do_gauge(key, func)`: a new gauge always replaces the entry, whatever
        kind it held; no other key changes. */
    method DoGauge(key: Key, func: () -> real) returns (g: Gauge)
      requires Valid()
      modifies this`metrics
      ensures Valid()
      ensures fresh(g) && g.func == func
      ensures metrics == old(metrics)[key := Metric.Gauge(g)]
    {
      g := new Gauge(func);
      metrics := metrics[key := Metric.Gauge(g)];
    }

    /** `gauge(name, func)`. */
    method GetGauge(name: string, func: () -> real) returns (g: Gauge)
      requires Valid()
      modifies this`metrics
      ensures Valid()
      ensures fresh(g) && g.func == func
      ensures metrics == old(metrics)[FromName(name) := Metric.Gauge(g)]
    {
      g := DoGauge(FromName(name), func);
    }

    /** `gauge_with_tags(name, tags, func)`. */
    method GaugeWithTags(name: string, tags: seq<Tag>, func: () -> real) returns (g: Gauge)
      requires Valid()
      modifies this`metrics
      ensures Valid()
      ensures fresh(g) && g.func == func
      ensures metrics == old(metrics)[From(name, tags) := Metric.Gauge(g)]
    {
      g := DoGauge(From(name, tags), func);
    }

    /** `set_filter(filter)`: replaces the filter (or removes it with None). */
    method SetFilter(f: Option<Filter>)
      modifies this`filter
      ensures filter == f
    {
      filter := f;
    }

    /** `register_metrics_set(name, set)`: inserts or replaces by name. */
    method RegisterMetricsSet(name: string, s: MetricsSetProvider)
      modifies this`msets
      ensures msets == old(msets)[name := s]
    {
      msets := msets[name := s];
    }

    /** `unregister_metrics_set(name)`: removes that name only. */
    method UnregisterMetricsSet(name: string)
      modifies this`msets
      ensures msets == old(msets) - {name}
    {
      msets := msets - {name};
    }

    /** `snapshots()`. `pulled[n]` is what `get_all()` of the set registered
        as `n` returns during this call. Both maps are walked in an
        unspecified order; `order` is the order in which the sets were
        visited. The registry is not changed. */
    method Snapshots(pulled: map<string, map<string, Metric>>) returns (results: map<Key, Metric>, ghost order: seq<string>)
      requires pulled.Keys == msets.Keys
      ensures |order| == |msets.Keys| && (forall n :: n in order <==> n in msets)
      ensures forall i :: 0 <= i < |order| ==> order[i] in pulled
      ensures results == SnapshotOf(metrics, filter, pulled, order)
    {
      results := CopyStatic(metrics, filter);
      var names := msets.Keys;
      order := [];
      while names != {}
        invariant names <= msets.Keys
        invariant forall n :: n in order <==> n in msets && n !in names
        invariant |order| + |names| == |msets.Keys|
        invariant forall i :: 0 <= i < |order| ==> order[i] in pulled
        invariant results == SnapshotOf(metrics, filter, pulled, order)
        decreases names
      {
        var n :| n in names;
        results := MergeSet(results, pulled[n], filter);
        SnapshotOfAppend(metrics, filter, pulled, order, n);
        order := order + [n];
        names := names - {n};
      }
    }
  }

  /** The first loop of `snapshots()`: every static entry the filter accepts
      is copied, in whatever order the map yields them. */
  method CopyStatic(metrics: map<Key, Metric>, filter: Option<Filter>) returns (results: map<Key, Metric>)
    ensures results == StaticPart(metrics, filter)
  {
    results := map[];
    var remaining := metrics.Keys;
    while remaining != {}
      invariant remaining <= metrics.Keys
      invariant forall k :: k in results <==> k in metrics && k !in remaining && Accepts(filter, k.name, metrics[k])
      invariant forall k :: k in results ==> results[k] == metrics[k]
      decreases remaining
    {
      var k :| k in remaining;
      if Accepts(filter, k.name, metrics[k]) {
        results := results[k := metrics[k]];
      }
      remaining := remaining - {k};
    }
  }

  /** The inner loop of `snapshots()` for one set: each accepted entry is
      inserted under its name's untagged key, replacing what was there. */
  method MergeSet(before: map<Key, Metric>, entries: map<string, Metric>, filter: Option<Filter>) returns (results: map<Key, Metric>)
    ensures results == before + SetPart(entries, filter)
  {
    results := before;
    var todo := entries.Keys;
    while todo != {}
      invariant todo <= entries.Keys
      invariant results == before + SetPartOn(entries, filter, entries.Keys - todo)
      decreases todo
    {
      var name :| name in todo;
      if Accepts(filter, name, entries[name]) {
        results := results[FromName(name) := entries[name]];
      }
      AddOneName(before, entries, filter, entries.Keys - todo, name);
      assert entries.Keys - (todo - {name}) == (entries.Keys - todo) + {name};
      todo := todo - {name};
    }
    assert entries.Keys - todo == entries.Keys;
  }

  /** One more name of a set handled by the inner loop of `Snapshots`. */
  lemma AddOneName(before: map<Key, Metric>, entries: map<string, Metric>, filter: Option<Filter>,
                   done: set<string>, name: string)
    requires name in entries
    ensures Accepts(filter, name, entries[name]) ==>
      before + SetPartOn(entries, filter, done + {name}) ==
      (before + SetPartOn(entries, filter, done))[FromName(name) := entries[name]]
    ensures !Accepts(filter, name, entries[name]) ==>
      before + SetPartOn(entries, filter, done + {name}) == before + SetPartOn(entries, filter, done)
  {
    var grown := SetPartOn(entries, filter, done + {name});
    var part := SetPartOn(entries, filter, done);
    if Accepts(filter, name, entries[name]) {
      assert grown == part[FromName(name) := entries[name]];
      UnionUpdate(before, part, FromName(name), entries[name]);
    } else {
      assert grown == part;
    }
  }

  /** Updating the right operand of `+` is updating the union. */
  lemma UnionUpdate(a: map<Key, Metric>, b: map<Key, Metric>, k: Key, v: Metric)
    ensures a + b[k := v] == (a + b)[k := v]
  {
  }
}
