/** The registry's own usage examples, replayed on the model: each method
    builds a fresh registry, drives it through the public operations and
    reports what the examples check. */
module RegistryScenarios {
  import opened Wrappers
  import opened Keys
  import opened Metrics
  import opened Registry
  import Meters
  import Numeric
  import Counters

  /** The name filter of the filter example: names starting with "l1". */
  function StartsWithL1(name: string, m: Metric): bool {
    |name| >= 2 && name[..2] == "l1"
  }

  /** Four meters, two of them accepted by the filter: the filtered snapshot
      keeps those two. */
  lemma TwoOfFourKept(n1: string, n2: string, n3: string, n4: string, a: Metric, b: Metric, c: Metric, d: Metric)
    requires StartsWithL1(n1, a) && StartsWithL1(n2, b) && !StartsWithL1(n3, c) && !StartsWithL1(n4, d)
    requires n1 != n2 && n1 != n3 && n1 != n4 && n2 != n3 && n2 != n4 && n3 != n4
    ensures |StaticPart(map[FromName(n1) := a, FromName(n2) := b, FromName(n3) := c, FromName(n4) := d],
                        Some(StartsWithL1))| == 2
  {
    var k1, k2, k3, k4 := FromName(n1), FromName(n2), FromName(n3), FromName(n4);
    var f := Some(StartsWithL1);
    var empty: map<Key, Metric> := map[];
    assert StaticPart(empty, f) == empty;
    StaticPartInsert(empty, f, k1, a);
    StaticPartInsert(empty[k1 := a], f, k2, b);
    StaticPartInsert(empty[k1 := a][k2 := b], f, k3, c);
    StaticPartInsert(empty[k1 := a][k2 := b][k3 := c], f, k4, d);
    assert |empty[k1 := a][k2 := b]| == 2;
  }

  /** The names of the filter example: two start with "l1", two do not. */
  lemma FilterExampleNames(a: Metric, b: Metric, c: Metric, d: Metric)
    ensures StartsWithL1("l1.tomcat.request", a) && StartsWithL1("l1.jetty.request", b)
    ensures !StartsWithL1("l2.tomcat.request", c) && !StartsWithL1("l2.jetty.request", d)
  {
    assert "l1.tomcat.request"[..2] == "l1" == "l1.jetty.request"[..2];
    assert "l2.tomcat.request"[..2][1] != "l1"[1];
    assert "l2.jetty.request"[..2][1] != "l1"[1];
  }

  /** The four names of the filter example are pairwise different. */
  lemma FilterExampleNamesDiffer()
    ensures "l1.tomcat.request" != "l1.jetty.request" && "l1.tomcat.request" != "l2.tomcat.request"
    ensures "l1.tomcat.request" != "l2.jetty.request" && "l1.jetty.request" != "l2.tomcat.request"
    ensures "l1.jetty.request" != "l2.jetty.request" && "l2.tomcat.request" != "l2.jetty.request"
  {
    assert |"l1.tomcat.request"| != |"l1.jetty.request"|;
    assert "l1.tomcat.request"[1] != "l2.tomcat.request"[1];
    assert |"l1.tomcat.request"| != |"l2.jetty.request"|;
    assert |"l1.jetty.request"| != |"l2.tomcat.request"|;
    assert "l1.jetty.request"[1] != "l2.jetty.request"[1];
    assert |"l2.tomcat.request"| != |"l2.jetty.request"|;
  }

  /** Registers four meters, marks each once, installs the "l1" filter and
      takes a snapshot: two entries. */
  method MetricsFilterScenario(clock: Meters.Clock) returns (size: nat)
    ensures size == 2
  {
    var registry := new MetricsRegistry();
    FilterExampleNamesDiffer();
    var m1 := MarkedMeter(registry, "l1.tomcat.request", clock);
    var m2 := MarkedMeter(registry, "l1.jetty.request", clock);
    var m3 := MarkedMeter(registry, "l2.tomcat.request", clock);
    var m4 := MarkedMeter(registry, "l2.jetty.request", clock);
    registry.SetFilter(Some(StartsWithL1));
    var snapshot, order := registry.Snapshots(map[]);
    assert order == [];
    FilterExampleNames(Meter(m1), Meter(m2), Meter(m3), Meter(m4));
    TwoOfFourKept("l1.tomcat.request", "l1.jetty.request", "l2.tomcat.request", "l2.jetty.request",
                  Meter(m1), Meter(m2), Meter(m3), Meter(m4));
    size := |snapshot|;
  }

  /** `registry.meter(name).mark()` on a name not yet registered. */
  method MarkedMeter(registry: MetricsRegistry, name: string, clock: Meters.Clock) returns (m: Meters.Meter)
    requires registry.Valid() && FromName(name) !in registry.metrics
    modifies registry`metrics
    ensures registry.Valid()
    ensures registry.metrics == old(registry.metrics)[FromName(name) := Meter(m)]
    ensures m.count == 1
  {
    var r := registry.GetMeter(name, clock);
    m := r.value;
    m.Mark(clock.instant);
  }

  /** A registered set providing one counter and one static counter: the
      snapshot holds both, each under its untagged name. */
  method MetricsSetScenario() returns (size: nat, hasSet: bool, hasDefault: bool)
    ensures size == 2 && hasSet && hasDefault
  {
    var registry := new MetricsRegistry();
    var dummy := new MetricsSetProvider();
    registry.RegisterMetricsSet("dummy", dummy);
    var c := IncrementedCounter(registry, "test.default.counter", 1);
    var entries := DummyGetAll();
    var pulled := map["dummy" := entries];
    assert registry.metrics == map[FromName("test.default.counter") := Metric.Counter(c)];
    assert registry.msets == map["dummy" := dummy] && registry.filter == None;
    assert registry.msets.Keys == {"dummy"} == pulled.Keys;
    var snapshot, order := registry.Snapshots(pulled);
    SetScenarioSnapshot(registry.metrics, registry.msets, entries, order, snapshot, Metric.Counter(c));
    size := |snapshot|;
    hasSet := FromName("test.set.counter") in snapshot;
    hasDefault := FromName("test.default.counter") in snapshot;
  }

  /** The snapshot of the metrics-set example, from the registry's state. */
  lemma SetScenarioSnapshot(metrics: map<Key, Metric>, msets: map<string, MetricsSetProvider>, entries: map<string, Metric>,
                            order: seq<string>, snapshot: map<Key, Metric>, fixed: Metric)
    requires metrics == map[FromName("test.default.counter") := fixed]
    requires msets.Keys == {"dummy"} && entries.Keys == {"test.set.counter"}
    requires |order| == |msets.Keys| && forall n :: n in order <==> n in msets
    requires forall i :: 0 <= i < |order| ==> order[i] in map["dummy" := entries]
    requires snapshot == SnapshotOf(metrics, None, map["dummy" := entries], order)
    ensures |snapshot| == 2 && FromName("test.set.counter") in snapshot && FromName("test.default.counter") in snapshot
  {
    SingleSetOrder(msets, order);
    SetAndStaticCounters(fixed, entries);
  }

  /** With one registered set there is one order to visit it in. */
  lemma SingleSetOrder(msets: map<string, MetricsSetProvider>, order: seq<string>)
    requires msets.Keys == {"dummy"}
    requires |order| == |msets.Keys| && forall n :: n in order <==> n in msets
    ensures order == ["dummy"]
  {
    assert order[0] in msets;
  }

  /** `registry.counter(name).inc(n)` on a name not yet registered. */
  method IncrementedCounter(registry: MetricsRegistry, name: string, n: Numeric.i64) returns (c: Counters.Counter)
    requires registry.Valid() && FromName(name) !in registry.metrics
    modifies registry`metrics
    ensures registry.Valid()
    ensures registry.metrics == old(registry.metrics)[FromName(name) := Metric.Counter(c)]
    ensures c.value == n
  {
    var r := registry.GetCounter(name);
    c := r.value;
    c.Inc(n);
  }

  /** `get_all()` of the example's set: one fresh counter, incremented by 10. */
  method DummyGetAll() returns (entries: map<string, Metric>)
    ensures entries.Keys == {"test.set.counter"} && entries["test.set.counter"].Counter?
    ensures entries["test.set.counter"].counter.value == 10
  {
    var counter := new Counters.Counter();
    counter.Inc(10);
    entries := map["test.set.counter" := Metric.Counter(counter)];
  }

  /** The snapshot of the metrics-set example: the static counter and the
      set's counter, under two different untagged keys. */
  lemma SetAndStaticCounters(fixed: Metric, entries: map<string, Metric>)
    requires entries.Keys == {"test.set.counter"}
    ensures var s := SnapshotOf(map[FromName("test.default.counter") := fixed], None, map["dummy" := entries], ["dummy"]);
      && |s| == 2
      && FromName("test.set.counter") in s && s[FromName("test.set.counter")] == entries["test.set.counter"]
      && FromName("test.default.counter") in s && s[FromName("test.default.counter")] == fixed
  {
    var metrics := map[FromName("test.default.counter") := fixed];
    var pulled := entries["test.set.counter"];
    assert ["dummy"][..0] == [];
    assert StaticPart(metrics, None) == metrics;
    assert SetPart(entries, None) == map[FromName("test.set.counter") := pulled];
    assert FromName("test.set.counter") != FromName("test.default.counter") by {
      assert |"test.set.counter"| != |"test.default.counter"|;
    }
    assert SnapshotOf(metrics, None, map["dummy" := entries], ["dummy"]) ==
      map[FromName("test.default.counter") := fixed, FromName("test.set.counter") := pulled];
  }

  /** The crate's usage example for timers: `registry.timer(name)`, then
      `start()` and `stop()`. Asking for the timer again returns the same
      object, and starting it once more counts a second start. The samples
      are read before either context is dropped. */
  method RegistryTimerScenario(clock: Meters.Clock) returns (starts: Numeric.u64, samples: nat, same: bool)
    ensures starts == 2 && samples == 1 && same
  {
    var registry := new MetricsRegistry();
    var r := registry.GetTimer("my_timer", clock);
    var timer := r.value;
    var first := timer.Start(clock.instant);
    first.Stop(clock.instant);
    var again := registry.GetTimer("my_timer", clock);
    same := again.Ok? && again.value == timer;
    var second := again.value.Start(clock.instant);
    starts := timer.rate.Count();
    samples := |timer.latency.samples|;
  }

  /** Asking twice for the same meter returns the same object and leaves the
      registry as the first call left it. */
  method SameMeterTwice(clock: Meters.Clock) returns (same: bool, size: nat)
    ensures same && size == 1
  {
    var registry := new MetricsRegistry();
    var first := registry.GetMeter("requests", clock);
    var second := registry.GetMeter("requests", clock);
    same := first.Ok? && second.Ok? && first.value == second.value;
    size := |registry.metrics|;
  }

  /** The untagged and the tagged meter of one name are separate entries
      holding separate objects. */
  method TaggedAndUntaggedMeters(clock: Meters.Clock) returns (distinct: bool, size: nat)
    ensures distinct && size == 2
  {
    var registry := new MetricsRegistry();
    var plain := registry.GetMeter("requests", clock);
    var tagged := registry.MeterWithTags("requests", [Tag("host", "a")], clock);
    distinct := plain.Ok? && tagged.Ok? && plain.value != tagged.value;
    size := |registry.metrics|;
  }

  /** A counter asked for under a meter's key is refused, and the meter
      stays; a gauge under the same key replaces the meter. */
  method KindConflictScenario(clock: Meters.Clock) returns (refused: Result<Counters.Counter, Kind>, keptMeter: bool, replacedByGauge: bool)
    ensures refused == Err(MeterKind) && keptMeter && replacedByGauge
  {
    var registry := new MetricsRegistry();
    var m := registry.GetMeter("requests", clock);
    refused := registry.GetCounter("requests");
    keptMeter := registry.metrics == map[FromName("requests") := Meter(m.value)];
    var g := registry.GetGauge("requests", () => 1.0);
    replacedByGauge := registry.metrics == map[FromName("requests") := Metric.Gauge(g)];
  }
}
