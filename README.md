# StatsD plugin harness, modelled in Dafny

`statsd-plugin` is a small Python library for writing StatsD plugins. A
`StatsdPlugin` object keeps these fields:

- a registry of collector methods;
- a per-cycle list of worker threads, one per collector;
- a result dictionary that collectors fill through `store_results`;
- a run flag.

Its `start` loop runs every collector, waits for all of them, sends every
stored metric to the StatsD server as a gauge named
`<application_name>.<metric_name>`, sleeps, and repeats until `stop` clears
the flag.

This project models that object as the Dafny class `Plugin.StatsdPlugin<C, V>`:

- `C` is the type of collector handles. `V` is the type of metric values, kept
  abstract.
- Each source method becomes a class method with a `modifies` frame. Its
  `ensures` gives the new state in terms of the old one.
- The StatsD client's `gauge` call becomes `EmitGauge`. It appends a
  `Gauge(name, value)` to the ghost log `sent`.
- Threads become sequential runs. The collectors of a cycle run one after
  another, in registration order. The writes a collector makes in a cycle are
  a parameter, `measure`, that comes from the environment.
- The dictionary's iteration order is unspecified. Each flush therefore
  returns a ghost `order`, and `IsOrderOf` says that `order` lists every
  stored key exactly once.

The module `Metrics` (`metrics.dfy`) holds the specification functions:

- `Stored`: the dictionary after a sequence of writes;
- `MetricName`: the namespaced metric name;
- `Emissions`: the samples one flush sends.

It also holds the lemmas about these functions: last write wins, untouched
keys stay put, one sample per key, distinct names, and order independence.
The module `Plugin` (`plugin.dfy`) holds the class, the cycle-level
functions (`Threads`, `CycleWrites`, `StoreAfter`, `LogAfter`) and the lemmas
about whole runs.

Three behaviours of the code shape the model:

- `send_metrics` does not clear `collected_metrics`, and nothing else does
  (statsd_plugin/StatsdPlugin.py:95-104). The dictionary persists across
  cycles, so a metric that is not rewritten is re-sent with its old value in
  every later cycle. `Plugin.StorePersists` states this.
- Discovery appends to `registered_collectors` on every `start` call
  (statsd_plugin/StatsdPlugin.py:67, 113). Calling `start` twice registers
  every collector twice. `Start` ensures
  `registeredCollectors == old(registeredCollectors) + discovered`.
- A collector that raises does not stop the cycle. Each collector is the
  target of its own `threading.Thread` (statsd_plugin/StatsdPlugin.py:78-81),
  and the thread machinery catches and prints an exception raised by the
  target. `join` still returns (statsd_plugin/StatsdPlugin.py:88-89), the
  other collectors run on, and `send_metrics` (statsd_plugin/StatsdPlugin.py:91)
  flushes everything stored, including the writes the failing collector made
  before it raised. The model covers this case: `measure` gives such a
  collector exactly the writes it made before the exception. There is no
  timeout and no configuration validation.

## Model

| member | source | states |
|---|---|---|
| `Metrics.MetricNameParts` | statsd_plugin/StatsdPlugin.py:103 | the reported name is the application name, a dot, then the key; the key can be read back from it |
| `Metrics.MetricNameInjective` | statsd_plugin/StatsdPlugin.py:103 | two keys get the same reported name if and only if they are the same key |
| `Metrics.StoredLastWriteWins` | statsd_plugin/StatsdPlugin.py:118-127 | after a sequence of `store_results` calls, a name holds the value of its last write |
| `Metrics.StoredUntouched` | statsd_plugin/StatsdPlugin.py:118-127 | a name that no write mentions keeps both its presence and its value |
| `Metrics.StoredKeys` | statsd_plugin/StatsdPlugin.py:127 | writes only add keys: the keys afterwards are the old keys plus the written names |
| `Metrics.StoredConcat` | statsd_plugin/StatsdPlugin.py:84-89 | running one group of writes and then another is the same as running the concatenated writes |
| `Metrics.EmissionsAt` | statsd_plugin/StatsdPlugin.py:102-104 | the i-th gauge sent is the namespaced name and stored value of the i-th key visited |
| `Metrics.FlushNamesDistinct` | statsd_plugin/StatsdPlugin.py:102-104 | no two samples of one flush carry the same name |
| `Metrics.FlushReportsEachKeyOnce` | statsd_plugin/StatsdPlugin.py:102-104 | one flush sends exactly one sample per stored key: the number of samples equals the number of keys (zero for an empty store); every sample belongs to a stored key; every stored key is sent; no name is sent twice |
| `Metrics.FlushMultiset` | statsd_plugin/StatsdPlugin.py:102-104 | in any iteration order, the samples sent are exactly the (namespaced name, value) pairs of the store, each exactly once |
| `Metrics.FlushOrderIndependent` | statsd_plugin/StatsdPlugin.py:95-104 | two flushes of the same store in different iteration orders send the same samples, up to permutation |
| `Plugin.ThreadsAt` | statsd_plugin/StatsdPlugin.py:77-81 | the per-cycle thread list has one thread per registered collector, targeting that collector, in registration order |
| `Plugin.NoCollectorsNoSamples` | statsd_plugin/StatsdPlugin.py:106-116 | a fresh harness with no collectors keeps an empty store and sends nothing, however many cycles run |
| `Plugin.StorePersists` | statsd_plugin/StatsdPlugin.py:84-93 | the store is never cleared: every key present before some cycles is still present after them |
| `Plugin.ExampleCycleStores` | statsd_plugin/StatsdPlugin.py:77-91 | two collectors that store ("cpu", 42) and ("mem", 100) leave exactly those two entries |
| `Plugin.ExampleCycleReports` | statsd_plugin/StatsdPlugin.py:102-104 | with application name "myapp", that store is reported as exactly ("myapp.cpu", 42) and ("myapp.mem", 100), in either order |
| `Plugin.StatsdPlugin.constructor` | statsd_plugin/StatsdPlugin.py:19-52 | keeps the given host, port, application name and interval, with defaults "127.0.0.1", 8125, "Satellite6" and 1; the run flag is set; the registry, the store and the thread list are empty; nothing has been sent |
| `Plugin.StatsdPlugin.EmitGauge` | statsd_plugin/StatsdPlugin.py:104 | one gauge call appends exactly one (name, value) sample to the log |
| `Plugin.StatsdPlugin.StoreResults` | statsd_plugin/StatsdPlugin.py:118-127 | the name now maps to the value, overwriting any earlier value; every other key keeps its presence and value; no other field changes |
| `Plugin.StatsdPlugin.SendMetrics` | statsd_plugin/StatsdPlugin.py:95-104 | visits every stored key once, in some order, and appends that order's samples to the log; changes neither the store nor any other field |
| `Plugin.StatsdPlugin.RunCollector` | statsd_plugin/StatsdPlugin.py:84-89 | a collector's run leaves the store as its writes, applied in order, make it |
| `Plugin.StatsdPlugin.GetCollectors` | statsd_plugin/StatsdPlugin.py:54-67 | appends the discovered collectors to the registry, in discovery order |
| `Plugin.StatsdPlugin.BuildThreads` | statsd_plugin/StatsdPlugin.py:77-81 | starting from an empty list, the cycle's thread list becomes one thread per registered collector, targeting it, in registration order |
| `Plugin.StatsdPlugin.RunThreads` | statsd_plugin/StatsdPlugin.py:83-89 | given that thread list, running every thread to completion leaves the store as the old store after every collector's writes, in registration order |
| `Plugin.StatsdPlugin.ExecuteCollectors` | statsd_plugin/StatsdPlugin.py:69-93 | builds the thread list, runs it, flushes the new store once in some iteration order, and empties the thread list again; the store becomes the old store after every collector's writes, in registration order |
| `Plugin.StatsdPlugin.Stop` | statsd_plugin/StatsdPlugin.py:129-136 | clears the run flag and changes nothing else |
| `Plugin.StatsdPlugin.Start` | statsd_plugin/StatsdPlugin.py:106-116 | registers the discovered collectors, then runs cycles while the flag is set. Zero cycles run if the flag is already clear; otherwise exactly `stopDuring + 1` cycles run, the last being the one during whose sleep `stop` arrives. The final store and the whole log are those of those cycles, and the flag ends clear |

## Left out

- Threads (`threading.Thread`, `start`, `join`, statsd_plugin/StatsdPlugin.py:78-89): collectors run one after another, in registration order. Nothing is claimed about concurrent writes or races on the dictionary.
- The StatsD client (`statsd.StatsClient`, statsd_plugin/StatsdPlugin.py:52) and the UDP gauge wire format: this is an external library. The model records each gauge call in a ghost log and does not model transport failures.
- `time.sleep(run_interval)` (statsd_plugin/StatsdPlugin.py:116): timing, not logic. `runInterval` is stored but not used.
- Start: the host calls `stop` from another thread. The model replaces that call with the parameter `stopDuring`, the cycle during whose sleep `stop` arrives, so `Start` always terminates. A real `start` that is never stopped runs forever; the model does not cover that case.
- Start: a collector method receives the plugin object itself and could call `stop` or `send_metrics`. Modelled collectors only make `store_results` writes.
- Discovery by reflection over `__bases__`, `__subclasses__` and `__dict__` (statsd_plugin/StatsdPlugin.py:63-67): this is dynamic introspection. `GetCollectors` appends a given sequence of handles instead.
- The `print` at statsd_plugin/StatsdPlugin.py:62 and the unused local `collector_threads` at statsd_plugin/StatsdPlugin.py:76: neither has any effect on the state.
- Numeric metric values, including floats: the value type is a type parameter.
- Non-string metric keys: the model types keys as strings. `store_results` (statsd_plugin/StatsdPlugin.py:127) accepts any hashable key, but building `application_name + '.' + key` (statsd_plugin/StatsdPlugin.py:103) raises `TypeError` for a key that is not a string. That exception aborts the flush partway, skips clearing the thread list (statsd_plugin/StatsdPlugin.py:93) and ends `start`. The model does not have this error path.
- setup.py: packaging metadata with no logic.
