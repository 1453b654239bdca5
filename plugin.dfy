/**
 The StatsD plugin harness: a registry of collectors, a per-cycle list of
 worker threads, a result dictionary the collectors write into, a run flag,
 and the flush of the dictionary to the StatsD client. Collectors run one
 after the other in registration order; what each one writes during a cycle
 is given by the environment (`measure`). The gauge calls are recorded in a
 ghost log.
 */
module Plugin {
  import opened Metrics

  /** A worker thread created for one cycle, whose target is a collector. */
  datatype Thread<C> = Thread(target: C)

  /** One thread per collector, in the order of `cs`. */
  function Threads<C>(cs: seq<C>): seq<Thread<C>>
    decreases |cs|
  {
    if cs == [] then [] else Threads(cs[..|cs| - 1]) + [Thread(cs[|cs| - 1])]
  }

  /** The thread list holds one thread per collector, targeting it, in registration order. */
  lemma {:induction false} ThreadsAt<C>(cs: seq<C>)
    ensures |Threads(cs)| == |cs|
    ensures forall i :: 0 <= i < |cs| ==> Threads(cs)[i].target == cs[i]
    decreases |cs|
  {
    if cs != [] {
      var init := cs[..|cs| - 1];
      ThreadsAt(init);
      forall i | 0 <= i < |init| ensures init[i] == cs[i] { }
    }
  }

  /** All writes of one cycle: those of each collector of `cs`, in order. */
  function CycleWrites<C, V>(cs: seq<C>, measure: C -> seq<Write<V>>): seq<Write<V>>
    decreases |cs|
  {
    if cs == [] then [] else CycleWrites(cs[..|cs| - 1], measure) + measure(cs[|cs| - 1])
  }

  /** The dictionary after `n` cycles, starting from `m`; cycle `i` writes `CycleWrites(cs, measure(i))`. */
  function StoreAfter<C, V>(m: map<string, V>, cs: seq<C>, measure: nat -> C -> seq<Write<V>>, n: nat): map<string, V>
    decreases n
  {
    if n == 0 then m else Stored(StoreAfter(m, cs, measure, n - 1), CycleWrites(cs, measure(n - 1)))
  }

  /** `orders[i]` is an iteration order of the dictionary at the end of cycle `i`. */
  ghost predicate OrdersFit<C, V>(m: map<string, V>, cs: seq<C>, measure: nat -> C -> seq<Write<V>>, orders: seq<seq<string>>)
    decreases |orders|
  {
    orders != [] ==>
      && OrdersFit(m, cs, measure, orders[..|orders| - 1])
      && IsOrderOf(orders[|orders| - 1], StoreAfter(m, cs, measure, |orders|).Keys)
  }

  /** All gauge samples of the cycles, cycle `i` flushing its dictionary in the order `orders[i]`. */
  ghost function LogAfter<C, V>(app: string, m: map<string, V>, cs: seq<C>, measure: nat -> C -> seq<Write<V>>,
                                orders: seq<seq<string>>): seq<Gauge<V>>
    decreases |orders|
  {
    if orders == [] then []
    else
      var n := |orders|;
      LogAfter(app, m, cs, measure, orders[..n - 1]) + Emissions(app, StoreAfter(m, cs, measure, n), orders[n - 1])
  }

  /** What `start` knows after one more cycle, given what it knew before it. */
  lemma CycleStep<C, V>(app: string, m: map<string, V>, cs: seq<C>, measure: nat -> C -> seq<Write<V>>,
                        orders: seq<seq<string>>, order: seq<string>,
                        log0: seq<Gauge<V>>, before: seq<Gauge<V>>, after: seq<Gauge<V>>)
    requires OrdersFit(m, cs, measure, orders)
    requires before == log0 + LogAfter(app, m, cs, measure, orders)
    requires IsOrderOf(order, StoreAfter(m, cs, measure, |orders| + 1).Keys)
    requires after == before + Emissions(app, StoreAfter(m, cs, measure, |orders| + 1), order)
    ensures OrdersFit(m, cs, measure, orders + [order])
    ensures after == log0 + LogAfter(app, m, cs, measure, orders + [order])
  {
    var next := orders + [order];
    assert next[..|orders|] == orders;
    var l, e := LogAfter(app, m, cs, measure, orders), Emissions(app, StoreAfter(m, cs, measure, |orders| + 1), order);
    assert LogAfter(app, m, cs, measure, next) == l + e;
    assert (log0 + l) + e == log0 + (l + e);
  }

  /**
   A harness that never has collectors keeps an empty dictionary and sends
   nothing, however many cycles it runs.
   */
  lemma {:induction false} NoCollectorsNoSamples<C, V>(app: string, measure: nat -> C -> seq<Write<V>>, orders: seq<seq<string>>)
    requires OrdersFit(map[], [], measure, orders)
    ensures forall n: nat :: StoreAfter(map[], [], measure, n) == map[]
    ensures LogAfter(app, map[], [], measure, orders) == []
    decreases |orders|
  {
    forall n: nat ensures StoreAfter(map[], [], measure, n) == map[] {
      EmptyStoreStaysEmpty(measure, n);
    }
    if orders != [] {
      var n := |orders|;
      var init := orders[..n - 1];
      NoCollectorsNoSamples(app, measure, init);
      FlushReportsEachKeyOnce(app, StoreAfter(map[], [], measure, n), orders[n - 1]);
    }
  }

  /** Cycles without collectors leave an empty dictionary empty. */
  lemma {:induction false} EmptyStoreStaysEmpty<C, V>(measure: nat -> C -> seq<Write<V>>, n: nat)
    ensures StoreAfter(map[], [], measure, n) == map[]
    decreases n
  {
    if n > 0 {
      EmptyStoreStaysEmpty(measure, n - 1);
      assert CycleWrites([], measure(n - 1)) == [];
    }
  }

  /**
   The dictionary is never cleared: a key stored in some cycle is still there
   after any number of further cycles.
   */
  lemma {:induction false} StorePersists<C, V>(m: map<string, V>, cs: seq<C>, measure: nat -> C -> seq<Write<V>>, n: nat)
    ensures m.Keys <= StoreAfter(m, cs, measure, n).Keys
    decreases n
  {
    if n > 0 {
      StorePersists(m, cs, measure, n - 1);
      StoredKeys(StoreAfter(m, cs, measure, n - 1), CycleWrites(cs, measure(n - 1)));
    }
  }

  /** Two collectors: "A" stores ("cpu", 42), "B" stores ("mem", 100). */
  function ExampleMeasure(c: string): seq<Write<int>>
  {
    if c == "A" then [Write("cpu", 42)] else [Write("mem", 100)]
  }

  /** A cycle of the two example collectors, run in the order "A", "B", stores both values. */
  lemma ExampleCycleStores()
    ensures Stored(map[], CycleWrites(["A", "B"], ExampleMeasure)) == map["cpu" := 42, "mem" := 100]
  {
    var ws := CycleWrites(["A", "B"], ExampleMeasure);
    assert ["A", "B"][..1] == ["A"];
    assert ["A"][..0] == [];
    assert ws == [Write("cpu", 42), Write("mem", 100)];
    assert ws[..1] == [Write("cpu", 42)];
    assert ws[..1][..0] == [];
    assert Stored(map[], ws[..1]) == map["cpu" := 42];
  }

  /**
   Flushing that dictionary under the application name "myapp" reports, in
   either iteration order, exactly ("myapp.cpu", 42) and ("myapp.mem", 100).
   */
  lemma ExampleCycleReports(order: seq<string>)
    requires IsOrderOf(order, {"cpu", "mem"})
    ensures multiset(Emissions("myapp", map["cpu" := 42, "mem" := 100], order))
         == multiset{Gauge("myapp.cpu", 42), Gauge("myapp.mem", 100)}
  {
    var m := map["cpu" := 42, "mem" := 100];
    assert m.Keys == {"cpu", "mem"};
    FlushMultiset("myapp", m, order);
    var g1, g2 := Gauge("myapp.cpu", 42), Gauge("myapp.mem", 100);
    var want := multiset{g1, g2};
    assert MetricName("myapp", "cpu") == "myapp.cpu";
    assert MetricName("myapp", "mem") == "myapp.mem";
    forall x ensures multiset(Emissions("myapp", m, order))[x] == want[x] {
      if x == g1 {
        assert x in FlushSamples("myapp", m) by {
          assert "cpu" in m && x == Gauge(MetricName("myapp", "cpu"), m["cpu"]);
        }
      } else if x == g2 {
        assert x in FlushSamples("myapp", m) by {
          assert "mem" in m && x == Gauge(MetricName("myapp", "mem"), m["mem"]);
        }
      } else {
        assert x !in FlushSamples("myapp", m);
      }
    }
    assert multiset(Emissions("myapp", m, order)) == want;
  }

  class StatsdPlugin<C, V> {
    const host: string
    const port: int
    const applicationName: string
    const runInterval: int

    /** Whether `start` goes on running cycles. */
    var runThreads: bool
    /** The collectors found by discovery, in discovery order. */
    var registeredCollectors: seq<C>
    /** The result dictionary: metric name to last stored value. */
    var collectedMetrics: map<string, V>
    /** The threads of the cycle under way. */
    var runtimeThread: seq<Thread<C>>
    /** Every gauge sample handed to the StatsD client so far. */
    ghost var sent: seq<Gauge<V>>

    /** Between cycles no thread is listed. */
    ghost predicate Valid()
      reads this
    {
      runtimeThread == []
    }

    constructor (host: string := "127.0.0.1", port: int := 8125,
                 applicationName: string := "Satellite6", runInterval: int := 1)
      ensures Valid()
      ensures this.host == host && this.port == port
      ensures this.applicationName == applicationName && this.runInterval == runInterval
      ensures runThreads
      ensures registeredCollectors == [] && collectedMetrics == map[] && runtimeThread == []
      ensures sent == []
    {
      this.host := host;
      this.port := port;
      this.applicationName := applicationName;
      this.runInterval := runInterval;
      runThreads := true;
      registeredCollectors := [];
      collectedMetrics := map[];
      runtimeThread := [];
      sent := [];
    }

    /** The StatsD client's gauge call. */
    method EmitGauge(name: string, value: V)
      modifies this`sent
      ensures sent == old(sent) + [Gauge(name, value)]
    {
      sent := sent + [Gauge(name, value)];
    }

    /** Stores a value under a metric name, replacing any earlier value. */
    method StoreResults(metricName: string, metricValue: V)
      modifies this`collectedMetrics
      ensures collectedMetrics == old(collectedMetrics)[metricName := metricValue]
      ensures metricName in collectedMetrics && collectedMetrics[metricName] == metricValue
      ensures forall k :: k != metricName ==>
        (k in collectedMetrics <==> k in old(collectedMetrics)) &&
        (k in collectedMetrics ==> collectedMetrics[k] == old(collectedMetrics)[k])
    {
      collectedMetrics := collectedMetrics[metricName := metricValue];
    }

    /**
     Sends one gauge sample per stored key, named by the application name and
     the key, visiting the keys in an unspecified order `order`. The dictionary
     is not changed.
     */
    method SendMetrics() returns (ghost order: seq<string>)
      modifies this`sent
      ensures IsOrderOf(order, collectedMetrics.Keys)
      ensures sent == old(sent) + Emissions(applicationName, collectedMetrics, order)
    {
      order := [];
      var pending := collectedMetrics.Keys;
      while pending != {}
        invariant pending <= collectedMetrics.Keys
        invariant forall k :: k in order ==> k in collectedMetrics && k !in pending
        invariant forall k :: k in collectedMetrics ==> k in pending || k in order
        invariant |order| + |pending| == |collectedMetrics.Keys|
        invariant sent == old(sent) + Emissions(applicationName, collectedMetrics, order)
        decreases pending
      {
        var key :| key in pending;
        var metricName := MetricName(applicationName, key);
        EmitGauge(metricName, collectedMetrics[key]);
        assert (order + [key])[..|order|] == order;
        order := order + [key];
        pending := pending - {key};
      }
    }

    /** A collector's run: it stores each of its writes in turn. */
    method RunCollector(collector: C, measure: C -> seq<Write<V>>)
      modifies this`collectedMetrics
      ensures collectedMetrics == Stored(old(collectedMetrics), measure(collector))
    {
      var ws := measure(collector);
      var i := 0;
      while i < |ws|
        invariant 0 <= i <= |ws|
        invariant collectedMetrics == Stored(old(collectedMetrics), ws[..i])
      {
        assert ws[..i + 1][..i] == ws[..i];
        StoreResults(ws[i].name, ws[i].value);
        i := i + 1;
      }
      assert ws[..|ws|] == ws;
    }

    /** Appends the discovered collectors to the registry. */
    method GetCollectors(discovered: seq<C>)
      modifies this`registeredCollectors
      ensures registeredCollectors == old(registeredCollectors) + discovered
    {
      var i := 0;
      while i < |discovered|
        invariant 0 <= i <= |discovered|
        invariant registeredCollectors == old(registeredCollectors) + discovered[..i]
      {
        assert discovered[..i + 1] == discovered[..i] + [discovered[i]];
        registeredCollectors := registeredCollectors + [discovered[i]];
        i := i + 1;
      }
      assert discovered[..|discovered|] == discovered;
    }

    /** Lists one thread per registered collector, in registration order. */
    method BuildThreads()
      requires runtimeThread == []
      modifies this`runtimeThread
      ensures runtimeThread == Threads(registeredCollectors)
    {
      var i := 0;
      while i < |registeredCollectors|
        invariant 0 <= i <= |registeredCollectors|
        invariant runtimeThread == Threads(registeredCollectors[..i])
      {
        assert registeredCollectors[..i + 1][..i] == registeredCollectors[..i];
        runtimeThread := runtimeThread + [Thread(registeredCollectors[i])];
        i := i + 1;
      }
      assert registeredCollectors[..|registeredCollectors|] == registeredCollectors;
    }

    /**
     Runs the listed threads one after the other, each storing its
     collector's writes; returns once all of them have finished.
     */
    method RunThreads(measure: C -> seq<Write<V>>)
      requires runtimeThread == Threads(registeredCollectors)
      modifies this`collectedMetrics
      ensures collectedMetrics == Stored(old(collectedMetrics), CycleWrites(registeredCollectors, measure))
    {
      ThreadsAt(registeredCollectors);
      var j := 0;
      assert registeredCollectors[..0] == [];
      while j < |runtimeThread|
        invariant 0 <= j <= |runtimeThread|
        invariant collectedMetrics == Stored(old(collectedMetrics), CycleWrites(registeredCollectors[..j], measure))
      {
        RunCollector(runtimeThread[j].target, measure);
        assert registeredCollectors[..j + 1][..j] == registeredCollectors[..j];
        StoredConcat(old(collectedMetrics), CycleWrites(registeredCollectors[..j], measure), measure(registeredCollectors[j]));
        j := j + 1;
      }
      assert registeredCollectors[..j] == registeredCollectors;
    }

    /**
     One cycle: list one thread per registered collector, run them, flush the
     dictionary, and clear the list.
     */
    method ExecuteCollectors(measure: C -> seq<Write<V>>) returns (ghost order: seq<string>)
      requires Valid()
      modifies this`runtimeThread, this`collectedMetrics, this`sent
      ensures Valid()
      ensures collectedMetrics == Stored(old(collectedMetrics), CycleWrites(registeredCollectors, measure))
      ensures IsOrderOf(order, collectedMetrics.Keys)
      ensures sent == old(sent) + Emissions(applicationName, collectedMetrics, order)
    {
      BuildThreads();
      RunThreads(measure);
      order := SendMetrics();
      runtimeThread := [];
    }

    /** Clears the run flag; `start` runs no further cycle afterwards. */
    method Stop()
      modifies this`runThreads
      ensures !runThreads
    {
      runThreads := false;
    }

    /**
     Discovers the collectors and runs cycles while the run flag is set. The
     host calls `stop` while the harness sleeps after cycle `stopDuring`
     (counting from 0), so exactly `stopDuring + 1` cycles run if the flag is
     set at entry and none if it is not. Cycle `i` lets collectors write
     `measure(i)`; `orders[i]` is the order its flush visits the keys in.
     */
    method Start(discovered: seq<C>, measure: nat -> C -> seq<Write<V>>, stopDuring: nat)
      returns (cycles: nat, ghost orders: seq<seq<string>>)
      requires Valid()
      modifies this`registeredCollectors, this`runtimeThread, this`collectedMetrics, this`sent, this`runThreads
      ensures Valid() && !runThreads
      ensures registeredCollectors == old(registeredCollectors) + discovered
      ensures cycles == if old(runThreads) then stopDuring + 1 else 0
      ensures |orders| == cycles
      ensures collectedMetrics == StoreAfter(old(collectedMetrics), registeredCollectors, measure, cycles)
      ensures OrdersFit(old(collectedMetrics), registeredCollectors, measure, orders)
      ensures sent == old(sent) + LogAfter(applicationName, old(collectedMetrics), registeredCollectors, measure, orders)
    {
      GetCollectors(discovered);
      ghost var m0, s0, run0 := collectedMetrics, sent, runThreads;
      ghost var cs := registeredCollectors;
      cycles := 0;
      orders := [];
      while runThreads
        invariant Valid()
        invariant registeredCollectors == cs
        invariant runThreads == (run0 && cycles <= stopDuring)
        invariant run0 ==> cycles <= stopDuring + 1
        invariant !run0 ==> cycles == 0
        invariant |orders| == cycles
        invariant collectedMetrics == StoreAfter(m0, cs, measure, cycles)
        invariant OrdersFit(m0, cs, measure, orders)
        invariant sent == s0 + LogAfter(applicationName, m0, cs, measure, orders)
        decreases stopDuring + 1 - cycles
      {
        ghost var before := sent;
        var order := ExecuteCollectors(measure(cycles));
        assert collectedMetrics == StoreAfter(m0, cs, measure, cycles + 1);
        CycleStep(applicationName, m0, cs, measure, orders, order, s0, before, sent);
        orders := orders + [order];
        cycles := cycles + 1;
        // The harness sleeps for runInterval seconds; the host's stop() arrives here.
        if cycles > stopDuring {
          Stop();
        }
      }
    }
  }
}
