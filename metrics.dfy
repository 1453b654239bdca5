/**
 The values a StatsD plugin harness works with: the writes collectors make
 into the result dictionary, the gauge samples sent to the StatsD client,
 the namespaced metric name, and the specification functions that say what
 the dictionary holds after a sequence of writes and what one flush emits.
 */
module Metrics {

  /** One call `store_results(name, value)` made by a collector. */
  datatype Write<V> = Write(name: string, value: V)

  /** One call `statsd_client.gauge(name, value)`. */
  datatype Gauge<V> = Gauge(name: string, value: V)

  /** The name a stored metric is reported under: the application name, a dot, the key. */
  function MetricName(app: string, key: string): string
  {
    app + "." + key
  }

  /** The key can be read back from a metric name once the application name is known. */
  lemma MetricNameParts(app: string, key: string)
    ensures |MetricName(app, key)| == |app| + 1 + |key|
    ensures MetricName(app, key)[..|app| + 1] == app + "."
    ensures MetricName(app, key)[|app| + 1..] == key
  {
  }

  /** Prefixing with the application name and a dot is injective: distinct keys get distinct names. */
  lemma MetricNameInjective(app: string, k1: string, k2: string)
    ensures MetricName(app, k1) == MetricName(app, k2) <==> k1 == k2
  {
    if MetricName(app, k1) == MetricName(app, k2) {
      MetricNameParts(app, k1);
      MetricNameParts(app, k2);
    }
  }

  // ---------------------------------------------------------------------------
  // The result dictionary after a sequence of writes
  // ---------------------------------------------------------------------------

  /** The dictionary `m` after the writes `ws` are made one after the other. */
  function Stored<V>(m: map<string, V>, ws: seq<Write<V>>): map<string, V>
    decreases |ws|
  {
    if ws == [] then m
    else
      var last := ws[|ws| - 1];
      Stored(m, ws[..|ws| - 1])[last.name := last.value]
  }

  /** The names written by `ws`. */
  function WrittenNames<V>(ws: seq<Write<V>>): set<string>
  {
    set j | 0 <= j < |ws| :: ws[j].name
  }

  /** Last write wins: the value under a name is the one of the last write with that name. */
  lemma {:induction false} StoredLastWriteWins<V>(m: map<string, V>, ws: seq<Write<V>>, i: nat)
    requires i < |ws|
    requires forall j :: i < j < |ws| ==> ws[j].name != ws[i].name
    ensures ws[i].name in Stored(m, ws)
    ensures Stored(m, ws)[ws[i].name] == ws[i].value
  {
    if i < |ws| - 1 {
      var init := ws[..|ws| - 1];
      assert forall j :: i < j < |init| ==> init[j].name != init[i].name by {
        forall j | i < j < |init| ensures init[j].name != init[i].name {
          assert init[j] == ws[j];
        }
      }
      StoredLastWriteWins(m, init, i);
      assert ws[|ws| - 1].name != ws[i].name;
    }
  }

  /** A name no write mentions keeps its presence and its value. */
  lemma {:induction false} StoredUntouched<V>(m: map<string, V>, ws: seq<Write<V>>, k: string)
    requires forall j :: 0 <= j < |ws| ==> ws[j].name != k
    ensures k in Stored(m, ws) <==> k in m
    ensures k in m ==> Stored(m, ws)[k] == m[k]
  {
    if ws != [] {
      var init := ws[..|ws| - 1];
      assert forall j :: 0 <= j < |init| ==> init[j].name != k by {
        forall j | 0 <= j < |init| ensures init[j].name != k {
          assert init[j] == ws[j];
        }
      }
      StoredUntouched(m, init, k);
      assert ws[|ws| - 1].name != k;
    }
  }

  /** Writes only add keys: the keys afterwards are the old keys and the written names. */
  lemma {:induction false} StoredKeys<V>(m: map<string, V>, ws: seq<Write<V>>)
    ensures Stored(m, ws).Keys == m.Keys + WrittenNames(ws)
  {
    if ws != [] {
      var init := ws[..|ws| - 1];
      StoredKeys(m, init);
      assert WrittenNames(ws) == WrittenNames(init) + {ws[|ws| - 1].name} by {
        forall x | x in WrittenNames(ws) ensures x in WrittenNames(init) + {ws[|ws| - 1].name} {
          var j :| 0 <= j < |ws| && ws[j].name == x;
          if j < |ws| - 1 {
            assert init[j] == ws[j];
          }
        }
        forall x | x in WrittenNames(init) ensures x in WrittenNames(ws) {
          var j :| 0 <= j < |init| && init[j].name == x;
          assert ws[j] == init[j];
        }
      }
    }
  }

  /** Making the writes `a` and then the writes `b` is making the writes `a + b`. */
  lemma {:induction false} StoredConcat<V>(m: map<string, V>, a: seq<Write<V>>, b: seq<Write<V>>)
    ensures Stored(m, a + b) == Stored(Stored(m, a), b)
    decreases |b|
  {
    if b == [] {
      assert a + b == a;
    } else {
      var init := b[..|b| - 1];
      assert (a + b)[..|a + b| - 1] == a + init;
      assert (a + b)[|a + b| - 1] == b[|b| - 1];
      StoredConcat(m, a, init);
    }
  }

  // ---------------------------------------------------------------------------
  // One flush of the dictionary
  // ---------------------------------------------------------------------------

  /** No element occurs twice in `s`. */
  ghost predicate Distinct<T>(s: seq<T>)
  {
    forall i, j :: 0 <= i < j < |s| ==> s[i] != s[j]
  }

  /**
   `order` is a possible iteration order of a dictionary with keys `keys`: it
   holds exactly those keys and is as long as the key set, so no key twice.
   */
  ghost predicate IsOrderOf(order: seq<string>, keys: set<string>)
  {
    && |order| == |keys|
    && (forall k :: k in order ==> k in keys)
    && (forall k :: k in keys ==> k in order)
  }

  /**
   The gauge samples sent when the keys of `m` are visited in the order
   `order`: one per visited key that is stored (for an iteration order of `m`,
   that is every visited key).
   */
  function Emissions<V>(app: string, m: map<string, V>, order: seq<string>): seq<Gauge<V>>
    decreases |order|
  {
    if order == [] then []
    else
      var key := order[|order| - 1];
      var earlier := Emissions(app, m, order[..|order| - 1]);
      if key in m then earlier + [Gauge(MetricName(app, key), m[key])] else earlier
  }

  /** The i-th sample is the namespaced name and the stored value of the i-th key visited. */
  lemma {:induction false} EmissionsAt<V>(app: string, m: map<string, V>, order: seq<string>)
    requires forall k :: k in order ==> k in m
    ensures |Emissions(app, m, order)| == |order|
    ensures forall i :: 0 <= i < |order| ==>
      Emissions(app, m, order)[i] == Gauge(MetricName(app, order[i]), m[order[i]])
    decreases |order|
  {
    if order != [] {
      var init := order[..|order| - 1];
      forall k | k in init ensures k in m {
        assert k in order;
      }
      EmissionsAt(app, m, init);
      forall i | 0 <= i < |init| ensures init[i] == order[i] { }
    }
  }

  /** The elements of a sequence. */
  ghost function Elements(s: seq<string>): set<string>
  {
    set k | k in s
  }

  /** A sequence has at most as many distinct elements as entries, and fewer if some entry repeats. */
  lemma {:induction false} ElementsCount(s: seq<string>)
    ensures |Elements(s)| <= |s|
    ensures !Distinct(s) ==> |Elements(s)| < |s|
    decreases |s|
  {
    if s != [] {
      var last := s[|s| - 1];
      var init := s[..|s| - 1];
      ElementsCount(init);
      assert Elements(s) == Elements(init) + {last} by {
        assert s == init + [last];
      }
      if !Distinct(s) && Distinct(init) {
        var i, j :| 0 <= i < j < |s| && s[i] == s[j];
        assert j == |s| - 1;
        assert last in Elements(init) by {
          assert init[i] == last;
        }
        assert Elements(s) == Elements(init);
      }
    }
  }

  /** An iteration order visits no key twice. */
  lemma OrderDistinct(order: seq<string>, keys: set<string>)
    requires IsOrderOf(order, keys)
    ensures Distinct(order)
  {
    ElementsCount(order);
    assert Elements(order) == keys;
  }

  /** No two samples of one flush carry the same name. */
  lemma FlushNamesDistinct<V>(app: string, m: map<string, V>, order: seq<string>)
    requires IsOrderOf(order, m.Keys)
    ensures |Emissions(app, m, order)| == |order|
    ensures forall i, j :: 0 <= i < j < |order| ==>
      Emissions(app, m, order)[i].name != Emissions(app, m, order)[j].name
  {
    var e := Emissions(app, m, order);
    EmissionsAt(app, m, order);
    OrderDistinct(order, m.Keys);
    forall i, j | 0 <= i < j < |order|
      ensures e[i].name != e[j].name
    {
      MetricNameInjective(app, order[i], order[j]);
    }
  }

  /**
   One flush of `m`, in any iteration order, sends exactly one sample per stored
   key: as many samples as keys (none for an empty dictionary), each the
   namespaced name and value of a stored key, every stored key among them, and
   no name twice.
   */
  lemma FlushReportsEachKeyOnce<V>(app: string, m: map<string, V>, order: seq<string>)
    requires IsOrderOf(order, m.Keys)
    ensures |Emissions(app, m, order)| == |order| == |m|
    ensures var e := Emissions(app, m, order);
      forall i :: 0 <= i < |e| ==> exists k :: k in m && e[i] == Gauge(MetricName(app, k), m[k])
    ensures var e := Emissions(app, m, order);
      forall k :: k in m ==> exists i :: 0 <= i < |e| && e[i] == Gauge(MetricName(app, k), m[k])
    ensures var e := Emissions(app, m, order);
      forall i, j :: 0 <= i < j < |e| ==> e[i].name != e[j].name
  {
    var e := Emissions(app, m, order);
    EmissionsAt(app, m, order);
    FlushNamesDistinct(app, m, order);
    assert |m| == |m.Keys|;
    forall i | 0 <= i < |order|
      ensures exists k :: k in m && e[i] == Gauge(MetricName(app, k), m[k])
    {
      var k := order[i];
      assert k in m && e[i] == Gauge(MetricName(app, k), m[k]);
    }
    forall k | k in m
      ensures exists i :: 0 <= i < |order| && e[i] == Gauge(MetricName(app, k), m[k])
    {
      assert k in order;
      var i :| 0 <= i < |order| && order[i] == k;
      assert e[i] == Gauge(MetricName(app, k), m[k]);
    }
  }

  /** In a sequence without repetitions every element occurs exactly once. */
  lemma {:induction false} DistinctOccursOnce<T>(a: seq<T>)
    requires Distinct(a)
    ensures forall x :: multiset(a)[x] == if x in a then 1 else 0
    decreases |a|
  {
    if a != [] {
      var x := a[|a| - 1];
      var init := a[..|a| - 1];
      assert a == init + [x];
      DistinctOccursOnce(init);
      forall i | 0 <= i < |init| ensures init[i] != x {
        assert init[i] == a[i];
      }
      forall y ensures multiset(a)[y] == if y in a then 1 else 0 {
        assert multiset(a) == multiset(init) + multiset{x};
        assert y in a <==> y in init || y == x;
      }
    }
  }

  /** The samples a flush of `m` owes: one per stored key, its namespaced name and its value. */
  ghost function FlushSamples<V>(app: string, m: map<string, V>): set<Gauge<V>>
  {
    set k | k in m :: Gauge(MetricName(app, k), m[k])
  }

  /**
   Whatever the iteration order, a flush sends every sample `FlushSamples` owes
   exactly once and nothing else.
   */
  lemma FlushMultiset<V>(app: string, m: map<string, V>, order: seq<string>)
    requires IsOrderOf(order, m.Keys)
    ensures forall x :: multiset(Emissions(app, m, order))[x] == if x in FlushSamples(app, m) then 1 else 0
  {
    var e := Emissions(app, m, order);
    EmissionsAt(app, m, order);
    FlushNamesDistinct(app, m, order);
    assert Distinct(e) by {
      forall i, j | 0 <= i < j < |e| ensures e[i] != e[j] {
        assert e[i].name != e[j].name;
      }
    }
    DistinctOccursOnce(e);
    forall x ensures x in e <==> x in FlushSamples(app, m) {
      if x in e {
        var i :| 0 <= i < |e| && e[i] == x;
        assert order[i] in m;
      }
      if x in FlushSamples(app, m) {
        var k :| k in m && x == Gauge(MetricName(app, k), m[k]);
        assert k in order;
        var i :| 0 <= i < |order| && order[i] == k;
        assert e[i] == x;
      }
    }
  }

  /**
   Since the iteration order of a dictionary is unspecified, two flushes of the
   same dictionary may send their samples in different orders, but always the
   same samples: the two emission sequences are permutations of each other.
   */
  lemma FlushOrderIndependent<V>(app: string, m: map<string, V>, o1: seq<string>, o2: seq<string>)
    requires IsOrderOf(o1, m.Keys)
    requires IsOrderOf(o2, m.Keys)
    ensures multiset(Emissions(app, m, o1)) == multiset(Emissions(app, m, o2))
  {
    var s1, s2 := multiset(Emissions(app, m, o1)), multiset(Emissions(app, m, o2));
    FlushMultiset(app, m, o1);
    FlushMultiset(app, m, o2);
    forall x ensures s1[x] == s2[x] {
      var c := if x in FlushSamples(app, m) then 1 else 0;
      assert s1[x] == c && s2[x] == c;
    }
    MultisetExt(s1, s2);
  }

  /**
   Multisets with the same multiplicities are equal. Stated for an arbitrary
   element type, where Dafny applies extensionality, which it does not do on
   its own for multisets of `Gauge<V>`.
   */
  lemma MultisetExt<T>(a: multiset<T>, b: multiset<T>)
    requires forall x :: a[x] == b[x]
    ensures a == b
  {}
}
