/** One collection cycle and the response it produces (src/index.ts): a task
    per (chain, URL) of the registry, each isolating its own failure, their
    metrics concatenated in registry order, and the exposition text. */
module Collector {
  import opened Js
  import opened Text
  import opened Exposition
  import opened Metrics
  import opened Evm
  import Digits

  /** `chains`: chain names in key order, each with its endpoint URLs. */
  type Registry = seq<(string, seq<string>)>

  /** `new URL(sourceUrl).hostname` */
  type Hostname = string -> string

  /** The chains that also report the fee oracle. */
  predicate IsOracleChain(chain: string) {
    chain == "optimism" || chain == "base"
  }

  /** What one task returns, and whether its catch block ran. */
  datatype TaskResult = TaskResult(metrics: seq<Metric>, failed: bool)

  /** One task (lines 181-193): the gas price, then on oracle chains the fees;
      a throw keeps what was pushed before it. */
  function Task(chain: string, sourceName: string, sourceUrl: string, net: Network): TaskResult {
    match GetRpcGasPrice(chain, sourceName, sourceUrl, net)
    case Err(_) => TaskResult([], true)
    case Ok(gas) =>
      if !IsOracleChain(chain) then TaskResult([gas], false)
      else
        match GetOptimismFees(chain, sourceName, sourceUrl, net)
        case Err(_) => TaskResult([gas], true)
        case Ok(op) => TaskResult([gas] + op, false)
  }

  /** `Object.keys(chains).map(chain => servers.map(...))` then `flat()`: the
      (chain, URL) pairs in registry order, then URL order. */
  function Tasks(registry: Registry): seq<(string, string)>
    decreases |registry|
  {
    if registry == [] then []
    else Tasks(registry[..|registry| - 1]) + ChainTasks(registry[|registry| - 1])
  }

  function ChainTasks(entry: (string, seq<string>)): (ps: seq<(string, string)>)
    ensures |ps| == |entry.1|
  {
    seq(|entry.1|, j requires 0 <= j < |entry.1| => (entry.0, entry.1[j]))
  }

  function RunOne(p: (string, string), hostname: Hostname, net: Network): TaskResult {
    Task(p.0, hostname(p.1), p.1, net)
  }

  /** `f` applied to every element, the results concatenated in order. */
  function FlatMap<T, U>(xs: seq<T>, f: T -> seq<U>): seq<U>
    decreases |xs|
  {
    if xs == [] then [] else FlatMap(xs[..|xs| - 1], f) + f(xs[|xs| - 1])
  }

  function MetricsOf(hostname: Hostname, net: Network): ((string, string)) -> seq<Metric> {
    p => RunOne(p, hostname, net).metrics
  }

  function FailureOf(hostname: Hostname, net: Network): ((string, string)) -> seq<string> {
    p => if RunOne(p, hostname, net).failed then [hostname(p.1)] else []
  }

  /** `(await Promise.all(...)).flat()`: the tasks' metrics, concatenated. */
  function CollectMetrics(ps: seq<(string, string)>, hostname: Hostname, net: Network): seq<Metric> {
    FlatMap(ps, MetricsOf(hostname, net))
  }

  /** The sources whose counter the tasks' catch blocks bump, one per failing task. */
  function Failures(ps: seq<(string, string)>, hostname: Hostname, net: Network): seq<string> {
    FlatMap(ps, FailureOf(hostname, net))
  }

  function CycleMetrics(registry: Registry, hostname: Hostname, net: Network): seq<Metric> {
    CollectMetrics(Tasks(registry), hostname, net)
  }

  function CycleFailures(registry: Registry, hostname: Hostname, net: Network): seq<string> {
    Failures(Tasks(registry), hostname, net)
  }

  /** Lines 205-208: header, counters, then every metric line. */
  function ResponseText(metrics: seq<Metric>, t: Tally): string {
    EvmTypes + CountersText(t) + MetricsText(metrics)
  }

  // ---------------------------------------------------------------------------
  // The imperative side: tasks push into a local list, failures bump the
  // shared counter.

  /** One task of `allMetrics`. */
  method RunTask(counter: ErrorCounter, chain: string, sourceUrl: string, hostname: Hostname, net: Network)
    returns (metrics: seq<Metric>)
    requires counter.Valid()
    modifies counter
    ensures counter.Valid()
    ensures metrics == Task(chain, hostname(sourceUrl), sourceUrl, net).metrics
    ensures counter.Snapshot() ==
      if Task(chain, hostname(sourceUrl), sourceUrl, net).failed
      then Bump(old(counter.Snapshot()), hostname(sourceUrl))
      else old(counter.Snapshot())
  {
    var sourceName := hostname(sourceUrl);
    ghost var r := Task(chain, sourceName, sourceUrl, net);
    metrics := [];
    var threw := false;
    var gas := GetRpcGasPrice(chain, sourceName, sourceUrl, net);
    if gas.Err? {
      threw := true;
      assert r == TaskResult([], true);
    } else {
      metrics := metrics + [gas.value];
      assert metrics == [gas.value];
      if chain == "optimism" || chain == "base" {
        var op := GetOptimismFees(chain, sourceName, sourceUrl, net);
        if op.Err? {
          threw := true;
          assert r == TaskResult([gas.value], true);
        } else {
          metrics := metrics + op.value;
          assert r == TaskResult([gas.value] + op.value, false);
        }
      } else {
        assert r == TaskResult([gas.value], false);
      }
    }
    if threw {
      counter.CountError(sourceName);
    }
  }

  /** `allMetrics`, with the tasks run one after another in registry order.
      The failures are bumped in registry order, so a source new to the map
      lands in registry order; in the program its place depends on which
      task's catch block runs first. */
  method AllMetrics(counter: ErrorCounter, registry: Registry, hostname: Hostname, net: Network)
    returns (metrics: seq<Metric>)
    requires counter.Valid()
    modifies counter
    ensures counter.Valid()
    ensures metrics == CycleMetrics(registry, hostname, net)
    ensures counter.Snapshot() == BumpAll(old(counter.Snapshot()), CycleFailures(registry, hostname, net))
  {
    var tasks := Tasks(registry);
    ghost var t0 := counter.Snapshot();
    metrics := [];
    for i := 0 to |tasks|
      invariant counter.Valid()
      invariant metrics == CollectMetrics(tasks[..i], hostname, net)
      invariant counter.Snapshot() == BumpAll(t0, Failures(tasks[..i], hostname, net))
    {
      var (chain, sourceUrl) := tasks[i];
      var m := RunTask(counter, chain, sourceUrl, hostname, net);
      metrics := metrics + m;
      assert tasks[..i + 1] == tasks[..i] + [tasks[i]];
      CollectSnoc(tasks[..i], tasks[i], hostname, net);
      FailuresSnoc(tasks[..i], tasks[i], hostname, net);
      ghost var fs := Failures(tasks[..i], hostname, net);
      if RunOne(tasks[i], hostname, net).failed {
        BumpAllSnoc(t0, fs, hostname(sourceUrl));
      } else {
        assert fs + [] == fs;
      }
    }
    assert tasks[..|tasks|] == tasks;
  }

  /** The request handler's 200 path: a collection cycle, then the text. */
  method Respond(counter: ErrorCounter, registry: Registry, hostname: Hostname, net: Network)
    returns (text: string)
    requires counter.Valid()
    modifies counter
    ensures counter.Valid()
    ensures counter.Snapshot() == BumpAll(old(counter.Snapshot()), CycleFailures(registry, hostname, net))
    ensures text == ResponseText(CycleMetrics(registry, hostname, net), counter.Snapshot())
  {
    var metrics := AllMetrics(counter, registry, hostname, net);
    text := EvmTypes;
    var counters := counter.EmitErrorCounters();
    text := text + counters;
    text := text + MetricsText(metrics);
  }

  lemma BumpAllSnoc(t: Tally, fs: seq<string>, s: string)
    requires ValidTally(t)
    ensures BumpAll(t, fs + [s]) == Bump(BumpAll(t, fs), s)
  {
    assert (fs + [s])[..|fs|] == fs;
  }

  lemma FlatMapSnoc<T, U>(xs: seq<T>, x: T, f: T -> seq<U>)
    ensures FlatMap(xs + [x], f) == FlatMap(xs, f) + f(x)
  {
    assert (xs + [x])[..|xs|] == xs;
  }

  lemma CollectSnoc(ps: seq<(string, string)>, p: (string, string), hostname: Hostname, net: Network)
    ensures CollectMetrics(ps + [p], hostname, net) == CollectMetrics(ps, hostname, net) + RunOne(p, hostname, net).metrics
  {
    FlatMapSnoc(ps, p, MetricsOf(hostname, net));
  }

  lemma FailuresSnoc(ps: seq<(string, string)>, p: (string, string), hostname: Hostname, net: Network)
    ensures Failures(ps + [p], hostname, net) ==
      Failures(ps, hostname, net) + (if RunOne(p, hostname, net).failed then [hostname(p.1)] else [])
  {
    FlatMapSnoc(ps, p, FailureOf(hostname, net));
  }

  // ---------------------------------------------------------------------------
  // One task

  /** Every metric of a task carries the task's chain and source and a
      declared name, the gas price first. */
  lemma TaskLabels(chain: string, sourceName: string, sourceUrl: string, net: Network)
    ensures var ms := Task(chain, sourceName, sourceUrl, net).metrics;
      forall i | 0 <= i < |ms| :: ms[i].chain == chain && ms[i].source == sourceName && ms[i].name in MetricNames
    ensures var ms := Task(chain, sourceName, sourceUrl, net).metrics;
      ms != [] ==> ms[0].name == "evm_gas_price_wei"
  {
    if GetRpcGasPrice(chain, sourceName, sourceUrl, net).Ok? && IsOracleChain(chain)
      && GetOptimismFees(chain, sourceName, sourceUrl, net).Ok?
    {
      OptimismFeesShape(chain, sourceName, sourceUrl, net);
    }
  }

  /** A task that does not fail yields the gas price and, on the oracle chains,
      the four fees after it: five metrics there, one elsewhere. */
  lemma TaskSucceeds(chain: string, sourceName: string, sourceUrl: string, net: Network)
    requires !Task(chain, sourceName, sourceUrl, net).failed
    ensures var ms := Task(chain, sourceName, sourceUrl, net).metrics;
      |ms| == (if IsOracleChain(chain) then 5 else 1)
      && forall i | 0 <= i < |ms| :: ms[i].name == MetricNames[i]
  {
    if IsOracleChain(chain) {
      OptimismFeesShape(chain, sourceName, sourceUrl, net);
    }
  }

  /** A failed gas price: no metrics, one failure, and the oracle is never
      asked, since no other answer of the network changes the outcome. */
  lemma TaskGasFails(chain: string, sourceName: string, sourceUrl: string, net: Network, net': Network)
    requires GetRpcGasPrice(chain, sourceName, sourceUrl, net).Err?
    ensures Task(chain, sourceName, sourceUrl, net) == TaskResult([], true)
    ensures net'(GasPriceRequest(sourceUrl)) == net(GasPriceRequest(sourceUrl)) ==>
      Task(chain, sourceName, sourceUrl, net') == Task(chain, sourceName, sourceUrl, net)
  {
    if net'(GasPriceRequest(sourceUrl)) == net(GasPriceRequest(sourceUrl)) {
      GasPriceAsksOnce(chain, sourceName, sourceUrl, net, net');
    }
  }

  /** A failed oracle call keeps the gas price metric already pushed, and fails once. */
  lemma TaskOracleFails(chain: string, sourceName: string, sourceUrl: string, net: Network)
    requires IsOracleChain(chain)
    requires GetRpcGasPrice(chain, sourceName, sourceUrl, net).Ok?
    requires GetOptimismFees(chain, sourceName, sourceUrl, net).Err?
    ensures Task(chain, sourceName, sourceUrl, net)
         == TaskResult([GetRpcGasPrice(chain, sourceName, sourceUrl, net).value], true)
  {
  }

  /** Off the oracle chains a task asks for the gas price and nothing else. */
  lemma TaskAsksGasPriceOnly(chain: string, sourceName: string, sourceUrl: string, net: Network, net': Network)
    requires !IsOracleChain(chain)
    requires net'(GasPriceRequest(sourceUrl)) == net(GasPriceRequest(sourceUrl))
    ensures Task(chain, sourceName, sourceUrl, net') == Task(chain, sourceName, sourceUrl, net)
  {
    GasPriceAsksOnce(chain, sourceName, sourceUrl, net, net');
  }

  // ---------------------------------------------------------------------------
  // The cycle's metrics

  lemma {:induction false} TasksAppend(r1: Registry, r2: Registry)
    ensures Tasks(r1 + r2) == Tasks(r1) + Tasks(r2)
    decreases |r2|
  {
    if r2 == [] {
      assert r1 + r2 == r1;
    } else {
      var init, last := r2[..|r2| - 1], r2[|r2| - 1];
      assert r2 == init + [last];
      assert r1 + r2 == (r1 + init) + [last];
      assert (r1 + r2)[..|r1 + r2| - 1] == r1 + init;
      TasksAppend(r1, init);
    }
  }

  lemma {:induction false} FlatMapAppend<T, U>(a: seq<T>, b: seq<T>, f: T -> seq<U>)
    ensures FlatMap(a + b, f) == FlatMap(a, f) + FlatMap(b, f)
    decreases |b|
  {
    if b == [] {
      assert a + b == a;
    } else {
      LastSplit(a, b);
      FlatMapAppend(a, b[..|b| - 1], f);
    }
  }

  lemma CollectAppend(a: seq<(string, string)>, b: seq<(string, string)>, hostname: Hostname, net: Network)
    ensures CollectMetrics(a + b, hostname, net) == CollectMetrics(a, hostname, net) + CollectMetrics(b, hostname, net)
  {
    FlatMapAppend(a, b, MetricsOf(hostname, net));
  }

  lemma FailuresAppend(a: seq<(string, string)>, b: seq<(string, string)>, hostname: Hostname, net: Network)
    ensures Failures(a + b, hostname, net) == Failures(a, hostname, net) + Failures(b, hostname, net)
  {
    FlatMapAppend(a, b, FailureOf(hostname, net));
  }

  lemma LastSplit<T>(a: seq<T>, b: seq<T>)
    requires b != []
    ensures (a + b)[..|a + b| - 1] == a + b[..|b| - 1]
    ensures (a + b)[|a + b| - 1] == b[|b| - 1]
  {
  }

  /** The cycle over a registry split in two is the cycle over the first part,
      then the cycle over the second. */
  lemma CycleAppend(r1: Registry, r2: Registry, hostname: Hostname, net: Network)
    ensures CycleMetrics(r1 + r2, hostname, net) == CycleMetrics(r1, hostname, net) + CycleMetrics(r2, hostname, net)
    ensures CycleFailures(r1 + r2, hostname, net) == CycleFailures(r1, hostname, net) + CycleFailures(r2, hostname, net)
  {
    TasksAppend(r1, r2);
    CollectAppend(Tasks(r1), Tasks(r2), hostname, net);
    FailuresAppend(Tasks(r1), Tasks(r2), hostname, net);
  }

  lemma OneChain(chain: string, us: seq<string>)
    ensures Tasks([(chain, us)]) == ChainTasks((chain, us))
  {
    assert [(chain, us)][..0] == [];
  }

  lemma Singleton(p: (string, string), hostname: Hostname, net: Network)
    ensures CollectMetrics([p], hostname, net) == RunOne(p, hostname, net).metrics
    ensures Failures([p], hostname, net) == if RunOne(p, hostname, net).failed then [hostname(p.1)] else []
  {
    CollectSnoc([], p, hostname, net);
    FailuresSnoc([], p, hostname, net);
    assert [] + [p] == [p];
  }

  /** Within a chain the URLs' tasks come in URL order, and a chain without
      URLs contributes nothing. */
  lemma ChainOrder(chain: string, us1: seq<string>, us2: seq<string>, hostname: Hostname, net: Network)
    ensures CycleMetrics([(chain, us1 + us2)], hostname, net)
         == CycleMetrics([(chain, us1)], hostname, net) + CycleMetrics([(chain, us2)], hostname, net)
    ensures CycleMetrics([(chain, [])], hostname, net) == []
  {
    OneChain(chain, us1 + us2);
    OneChain(chain, us1);
    OneChain(chain, us2);
    OneChain(chain, []);
    assert ChainTasks((chain, us1 + us2)) == ChainTasks((chain, us1)) + ChainTasks((chain, us2));
    CollectAppend(ChainTasks((chain, us1)), ChainTasks((chain, us2)), hostname, net);
  }

  /** A single URL contributes exactly its own task's metrics. */
  lemma ChainOneUrl(chain: string, u: string, hostname: Hostname, net: Network)
    ensures CycleMetrics([(chain, [u])], hostname, net) == Task(chain, hostname(u), u, net).metrics
  {
    OneChain(chain, [u]);
    assert ChainTasks((chain, [u])) == [(chain, u)];
    Singleton((chain, u), hostname, net);
  }

  /** A task's metrics stand at their place in the result whatever the other
      tasks do: the tasks before it, the task, the tasks after it. */
  lemma TaskIsolated(ps: seq<(string, string)>, k: nat, hostname: Hostname, net: Network)
    requires k < |ps|
    ensures CollectMetrics(ps, hostname, net)
         == CollectMetrics(ps[..k], hostname, net) + RunOne(ps[k], hostname, net).metrics
            + CollectMetrics(ps[k + 1..], hostname, net)
  {
    SplitAt(ps, k);
    CollectAppend(ps[..k + 1], ps[k + 1..], hostname, net);
    CollectSnoc(ps[..k], ps[k], hostname, net);
  }

  lemma SplitAt<T>(s: seq<T>, k: nat)
    requires k < |s|
    ensures s[..k + 1] == s[..k] + [s[k]]
    ensures s == s[..k + 1] + s[k + 1..]
  {
  }

  /** No metric carries the labels of endpoints whose gas price failed. */
  lemma {:induction false} NoMetricsFromFailedEndpoint(ps: seq<(string, string)>, chain: string, source: string, hostname: Hostname, net: Network)
    requires forall k | 0 <= k < |ps| :: ps[k].0 == chain && hostname(ps[k].1) == source ==>
      GetRpcGasPrice(chain, source, ps[k].1, net).Err?
    ensures forall i | 0 <= i < |CollectMetrics(ps, hostname, net)| ::
      var m := CollectMetrics(ps, hostname, net)[i]; !(m.chain == chain && m.source == source)
    decreases |ps|
  {
    if ps != [] {
      var init, p := ps[..|ps| - 1], ps[|ps| - 1];
      NoMetricsFromFailedEndpoint(init, chain, source, hostname, net);
      var before, mine := CollectMetrics(init, hostname, net), RunOne(p, hostname, net).metrics;
      TaskLabels(p.0, hostname(p.1), p.1, net);
      assert p.0 == chain && hostname(p.1) == source ==> mine == [];
      assert CollectMetrics(ps, hostname, net) == before + mine;
      var all: seq<Metric> := before + mine;
      forall i | 0 <= i < |all| ensures !(all[i].chain == chain && all[i].source == source) {
        if i >= |before| {
          assert all[i] == mine[i - |before|];
        } else {
          assert all[i] == before[i];
        }
      }
    }
  }

  /** By-element statement of `filter`: the failing tasks, in order. */
  function FailingTasks(ps: seq<(string, string)>, hostname: Hostname, net: Network): seq<(string, string)>
    decreases |ps|
  {
    if ps == [] then []
    else FailingTasks(ps[..|ps| - 1], hostname, net) + (if RunOne(ps[|ps| - 1], hostname, net).failed then [ps[|ps| - 1]] else [])
  }

  /** The failing tasks are tasks of the cycle. */
  lemma {:induction false} FailingTasksSubset(ps: seq<(string, string)>, hostname: Hostname, net: Network)
    ensures forall q | q in FailingTasks(ps, hostname, net) :: q in ps
    decreases |ps|
  {
    if ps != [] {
      var init := ps[..|ps| - 1];
      FailingTasksSubset(init, hostname, net);
      assert forall q | q in init :: q in ps;
    }
  }

  function Hosts(ps: seq<(string, string)>, hostname: Hostname): (hs: seq<string>)
    ensures |hs| == |ps|
  {
    seq(|ps|, i requires 0 <= i < |ps| => hostname(ps[i].1))
  }

  /** One counter bump per failing task, keyed by its hostname. */
  lemma {:induction false} FailuresAreFailingHosts(ps: seq<(string, string)>, hostname: Hostname, net: Network)
    ensures Failures(ps, hostname, net) == Hosts(FailingTasks(ps, hostname, net), hostname)
    decreases |ps|
  {
    if ps != [] {
      var init, p := ps[..|ps| - 1], ps[|ps| - 1];
      FailuresAreFailingHosts(init, hostname, net);
      var fs := FailingTasks(init, hostname, net);
      if RunOne(p, hostname, net).failed {
        assert Hosts(fs + [p], hostname) == Hosts(fs, hostname) + [hostname(p.1)];
      } else {
        assert fs + [] == fs;
      }
    }
  }

  /** Over a cycle the counts rise by the failing tasks: each source by the
      number of its failing tasks, the total by all of them. */
  lemma CycleCounts(t: Tally, registry: Registry, hostname: Hostname, net: Network, s: string)
    requires ValidTally(t)
    ensures var after := BumpAll(t, CycleFailures(registry, hostname, net));
      Count(after, s) == Count(t, s) + multiset(CycleFailures(registry, hostname, net))[s]
      && Total(after) == Total(t) + |FailingTasks(Tasks(registry), hostname, net)|
  {
    CountBumpAll(t, CycleFailures(registry, hostname, net), s);
    TotalBumpAll(t, CycleFailures(registry, hostname, net));
    FailuresAreFailingHosts(Tasks(registry), hostname, net);
  }

  /** Failures count per hostname, not per URL: two failing endpoints on one
      host, whatever their chains, add two to one counter. */
  lemma SameHostAccumulates(t: Tally, c1: string, u1: string, c2: string, u2: string, hostname: Hostname, net: Network)
    requires ValidTally(t)
    requires hostname(u1) == hostname(u2)
    requires Task(c1, hostname(u1), u1, net).failed && Task(c2, hostname(u2), u2, net).failed
    ensures Count(BumpAll(t, CycleFailures([(c1, [u1]), (c2, [u2])], hostname, net)), hostname(u1)) == Count(t, hostname(u1)) + 2
  {
    var h := hostname(u1);
    TwoPairs(c1, u1, c2, u2);
    FailuresAppend([(c1, u1)], [(c2, u2)], hostname, net);
    assert [(c1, u1)] + [(c2, u2)] == [(c1, u1), (c2, u2)];
    Singleton((c1, u1), hostname, net);
    Singleton((c2, u2), hostname, net);
    var fs := CycleFailures([(c1, [u1]), (c2, [u2])], hostname, net);
    assert fs == [h, h];
    CountBumpAll(t, fs, h);
  }

  lemma TwoPairs(c1: string, u1: string, c2: string, u2: string)
    ensures Tasks([(c1, [u1]), (c2, [u2])]) == [(c1, u1), (c2, u2)]
  {
    var reg := [(c1, [u1]), (c2, [u2])];
    assert reg[..1] == [(c1, [u1])];
    OneChain(c1, [u1]);
    assert ChainTasks((c1, [u1])) == [(c1, u1)];
    assert ChainTasks((c2, [u2])) == [(c2, u2)];
  }

  /** Cycles one after another, each with its own network answers. */
  function AfterCycles(t: Tally, registry: Registry, hostname: Hostname, nets: seq<Network>): (r: Tally)
    requires ValidTally(t)
    ensures ValidTally(r)
    decreases |nets|
  {
    if nets == [] then t
    else BumpAll(AfterCycles(t, registry, hostname, nets[..|nets| - 1]), CycleFailures(registry, hostname, nets[|nets| - 1]))
  }

  /** An endpoint that fails in each of `N` cycles, alone on its host, leaves
      its counter `N` higher. */
  lemma {:induction false} RepeatedFailure(t: Tally, registry: Registry, hostname: Hostname, nets: seq<Network>, s: string)
    requires ValidTally(t)
    requires forall k | 0 <= k < |nets| :: multiset(CycleFailures(registry, hostname, nets[k]))[s] == 1
    ensures Count(AfterCycles(t, registry, hostname, nets), s) == Count(t, s) + |nets|
    decreases |nets|
  {
    if nets != [] {
      var init := nets[..|nets| - 1];
      RepeatedFailure(t, registry, hostname, init, s);
      CountBumpAll(AfterCycles(t, registry, hostname, init), CycleFailures(registry, hostname, nets[|nets| - 1]), s);
    }
  }

  /** The two-endpoint scenario: `ok` answers one gwei, `bad` answers a status
      that is not ok. */
  lemma TwoEndpointScenario(hostname: Hostname, net: Network)
    requires hostname("http://ok") == "ok" && hostname("http://bad") == "bad"
    requires net(GasPriceRequest("http://ok")) == Received(Object(map["result" := Str("0x3b9aca00")]))
    requires net(GasPriceRequest("http://bad")) == NotOk
    ensures CycleMetrics([("testchain", ["http://ok", "http://bad"])], hostname, net)
         == [Metric("evm_gas_price_wei", 1000000000, "testchain", "ok")]
    ensures CycleFailures([("testchain", ["http://ok", "http://bad"])], hostname, net) == ["bad"]
  {
    OneChain("testchain", ["http://ok", "http://bad"]);
    var p0, p1 := ("testchain", "http://ok"), ("testchain", "http://bad");
    assert ChainTasks(("testchain", ["http://ok", "http://bad"])) == [p0] + [p1];
    CollectAppend([p0], [p1], hostname, net);
    FailuresAppend([p0], [p1], hostname, net);
    Singleton(p0, hostname, net);
    Singleton(p1, hostname, net);
    AsHexGweiExample();
    AsHexResultAccepts(Object(map["result" := Str("0x3b9aca00")]));
    assert GetRpcGasPrice("testchain", "ok", "http://ok", net) == Ok(Metric("evm_gas_price_wei", 1000000000, "testchain", "ok"));
    assert GetRpcGasPrice("testchain", "bad", "http://bad", net).Err?;
  }

  /** The counter block of that scenario on a fresh map: the TYPE line, then
      `evm_scrape_errors{source="bad"} 1`. */
  lemma TwoEndpointCounters(hostname: Hostname, net: Network)
    requires hostname("http://ok") == "ok" && hostname("http://bad") == "bad"
    requires net(GasPriceRequest("http://ok")) == Received(Object(map["result" := Str("0x3b9aca00")]))
    requires net(GasPriceRequest("http://bad")) == NotOk
    ensures CountersText(BumpAll(Empty, CycleFailures([("testchain", ["http://ok", "http://bad"])], hostname, net)))
         == CounterHeader + "\n" + CounterLine("bad", 1) + "\n"
    ensures CounterLine("bad", 1) == "evm_scrape_errors{source=\"bad\"} 1"
  {
    TwoEndpointScenario(hostname, net);
    OneFailureCounters("bad");
  }

  /** One failure of a source on a fresh map leaves the TYPE line and that
      source's line with count 1. */
  lemma OneFailureCounters(source: string)
    ensures CountersText(BumpAll(Empty, [source])) == CounterHeader + "\n" + CounterLine(source, 1) + "\n"
    ensures CounterLine(source, 1) == "evm_scrape_errors{source=\"" + source + "\"} 1"
  {
    var after := BumpAll(Empty, [source]);
    assert [source][..0] == [];
    assert BumpAll(Empty, []) == Empty;
    assert after == Bump(BumpAll(Empty, [source][..0]), source);
    assert after == Bump(Empty, source);
    assert Count(Empty, source) == 0;
    assert after == Tally([source], map[source := 1]);
    assert Count(after, source) == 1;
    assert Digits.Decimal(1) == "1";
    var line := CounterLine(source, 1);
    assert CounterLines(after) == [line];
    var ls := [CounterHeader] + [line];
    assert ls[1..] == [line] && [line][1..] == [] && ls[0] == CounterHeader;
    assert Unlines([line]) == line + "\n" + Unlines([]);
    assert Unlines(ls) == CounterHeader + "\n" + Unlines([line]);
  }

  // ---------------------------------------------------------------------------
  // The response text

  /** What an unescaped label value can hold. */
  predicate LabelSafe(s: string) {
    '"' !in s && '\n' !in s
  }

  /** Every metric of a cycle is printable when the chains and hostnames are. */
  lemma {:induction false} CollectPrintable(ps: seq<(string, string)>, hostname: Hostname, net: Network)
    requires forall k | 0 <= k < |ps| :: LabelSafe(ps[k].0) && LabelSafe(hostname(ps[k].1))
    ensures forall i | 0 <= i < |CollectMetrics(ps, hostname, net)| ::
      Printable(CollectMetrics(ps, hostname, net)[i])
    decreases |ps|
  {
    if ps != [] {
      var init, p := ps[..|ps| - 1], ps[|ps| - 1];
      CollectPrintable(init, hostname, net);
      var mine := RunOne(p, hostname, net).metrics;
      TaskLabels(p.0, hostname(p.1), p.1, net);
      forall i | 0 <= i < |mine| ensures Printable(mine[i]) {
        MetricPrintable(mine[i]);
      }
      AppendPrintable(CollectMetrics(init, hostname, net), mine);
    }
  }

  lemma MetricPrintable(m: Metric)
    requires LabelSafe(m.chain) && LabelSafe(m.source) && m.name in MetricNames
    ensures Printable(m)
  {
    NamePrintable(m.name);
    var ls := MetricSample(m).labels;
    assert WellFormedLabel(ls[0]) && WellFormedLabel(ls[1]);
  }

  lemma AppendPrintable(a: seq<Metric>, b: seq<Metric>)
    requires forall i | 0 <= i < |a| :: Printable(a[i])
    requires forall i | 0 <= i < |b| :: Printable(b[i])
    ensures forall i | 0 <= i < |a + b| :: Printable((a + b)[i])
  {
    forall i | 0 <= i < |a + b| ensures Printable((a + b)[i]) {
      if i < |a| {
        assert (a + b)[i] == a[i];
      } else {
        assert (a + b)[i] == b[i - |a|];
      }
    }
  }

  lemma NamePrintable(name: string)
    requires name in MetricNames
    ensures '{' !in name && '\n' !in name && |name| > 0 && name[0] == 'e'
  {
  }

  lemma {:induction false} TasksChains(registry: Registry)
    requires forall c | 0 <= c < |registry| :: LabelSafe(registry[c].0)
    ensures forall k | 0 <= k < |Tasks(registry)| :: LabelSafe(Tasks(registry)[k].0)
    decreases |registry|
  {
    if registry != [] {
      var init, last := registry[..|registry| - 1], registry[|registry| - 1];
      TasksChains(init);
      var a, b := Tasks(init), ChainTasks(last);
      assert forall k | 0 <= k < |a + b| :: (a + b)[k] == if k < |a| then a[k] else b[k - |a|];
    }
  }

  /** The lines every response opens with. */
  const HeaderLines: seq<string> := EvmTypeLines + [CounterHeader]

  lemma HeaderNoNewline()
    ensures forall k | 0 <= k < |HeaderLines| :: NoNewline(HeaderLines[k])
  {
    TypeLinesNoNewline1();
    TypeLinesNoNewline2();
    TypeLinesNoNewline3();
    assert NoNewline(CounterHeader);
    assert forall k | 0 <= k < |HeaderLines| :: HeaderLines[k] == if k < 10 then EvmTypeLines[k] else CounterHeader;
  }

  // The declaration lines in three groups, to keep each proof small.

  lemma TypeLinesNoNewline1()
    ensures forall k | 0 <= k < 4 :: NoNewline(EvmTypeLines[k])
  {
  }

  lemma TypeLinesNoNewline2()
    ensures forall k | 4 <= k < 7 :: NoNewline(EvmTypeLines[k])
  {
  }

  lemma TypeLinesNoNewline3()
    ensures forall k | 7 <= k < 10 :: NoNewline(EvmTypeLines[k])
  {
  }

  lemma AllNoNewline(a: seq<string>, b: seq<string>, c: seq<string>)
    requires forall k | 0 <= k < |a| :: NoNewline(a[k])
    requires forall k | 0 <= k < |b| :: NoNewline(b[k])
    requires forall k | 0 <= k < |c| :: NoNewline(c[k])
    ensures forall k | 0 <= k < |a + b + c| :: NoNewline((a + b + c)[k])
  {
    assert forall k | 0 <= k < |a + b + c| ::
      (a + b + c)[k] == if k < |a| then a[k] else if k < |a| + |b| then b[k - |a|] else c[k - |a| - |b|];
  }

  /** The response is the header lines, a counter line per tallied source in
      map order, then a sample line per metric in result order. */
  lemma ResponseLines(metrics: seq<Metric>, t: Tally)
    requires forall i | 0 <= i < |metrics| :: Printable(metrics[i])
    requires forall s | s in t.order :: LabelSafe(s)
    ensures Lines(ResponseText(metrics, t)) == HeaderLines + CounterLines(t) + MetricLines(metrics)
  {
    var cs, ms := CounterLines(t), MetricLines(metrics);
    CounterLinesNoNewline(t);
    MetricLinesNoNewline(metrics);
    HeaderNoNewline();
    AllNoNewline(HeaderLines, cs, ms);
    LinesUnlines(HeaderLines + cs + ms);
    ResponseTextUnlines(metrics, t);
  }

  lemma ResponseTextUnlines(metrics: seq<Metric>, t: Tally)
    ensures ResponseText(metrics, t) == Unlines(HeaderLines + CounterLines(t) + MetricLines(metrics))
  {
    var cs, ms := CounterLines(t), MetricLines(metrics);
    MetricsTextUnlines(metrics);
    UnlinesConcat(EvmTypeLines, [CounterHeader] + cs, ms);
    Regroup(EvmTypeLines, [CounterHeader], cs, ms);
  }

  lemma Regroup(a: seq<string>, b: seq<string>, c: seq<string>, d: seq<string>)
    ensures a + (b + c) + d == (a + b) + c + d
  {
  }

  lemma UnlinesConcat(a: seq<string>, b: seq<string>, c: seq<string>)
    ensures Unlines(a) + Unlines(b) + Unlines(c) == Unlines(a + b + c)
  {
    UnlinesAppend(a, b);
    UnlinesAppend(a + b, c);
  }

  predicate IsComment(line: string) {
    |line| > 0 && line[0] == '#'
  }

  /** The header lines are distinct and are the only comment lines: each
      appears exactly once, however many metrics and counters follow. */
  lemma HeaderOnce(metrics: seq<Metric>, t: Tally)
    requires forall i | 0 <= i < |metrics| :: metrics[i].name in MetricNames
    ensures var all := HeaderLines + CounterLines(t) + MetricLines(metrics);
      (forall k | 0 <= k < |all| :: IsComment(all[k]) <==> k < |HeaderLines|)
      && (forall i, j | 0 <= i < j < |HeaderLines| :: HeaderLines[i] != HeaderLines[j])
  {
    var cs, ms := CounterLines(t), MetricLines(metrics);
    var all := HeaderLines + cs + ms;
    forall k | 0 <= k < |all| ensures IsComment(all[k]) <==> k < |HeaderLines| {
      if k < |HeaderLines| {
        assert all[k] == HeaderLines[k];
      } else if k < |HeaderLines| + |cs| {
        assert all[k] == cs[k - |HeaderLines|];
      } else {
        var m := metrics[k - |HeaderLines| - |cs|];
        assert all[k] == RenderSample(MetricSample(m));
        NamePrintable(m.name);
      }
    }
  }

  /** What a request returns: the header lines exactly once, the counters of
      every failure so far (this cycle's included), then this cycle's metrics
      in registry order. Counter lines of sources new in this cycle come in
      registry order here; in the program that order depends on timing. */
  lemma CycleResponse(t: Tally, registry: Registry, hostname: Hostname, net: Network)
    requires ValidTally(t)
    requires forall s | s in t.order :: LabelSafe(s)
    requires forall c | 0 <= c < |registry| :: LabelSafe(registry[c].0)
    requires forall k | 0 <= k < |Tasks(registry)| :: LabelSafe(hostname(Tasks(registry)[k].1))
    ensures var after := BumpAll(t, CycleFailures(registry, hostname, net));
      Lines(ResponseText(CycleMetrics(registry, hostname, net), after))
        == HeaderLines + CounterLines(after) + MetricLines(CycleMetrics(registry, hostname, net))
  {
    var ps := Tasks(registry);
    TasksChains(registry);
    CollectPrintable(ps, hostname, net);
    var fs := CycleFailures(registry, hostname, net);
    FailuresAreFailingHosts(ps, hostname, net);
    var failing := FailingTasks(ps, hostname, net);
    FailingTasksSubset(ps, hostname, net);
    forall k | 0 <= k < |failing| ensures LabelSafe(hostname(failing[k].1)) {
      assert failing[k] in ps;
      var j :| 0 <= j < |ps| && ps[j] == failing[k];
    }
    HostsSafe(failing, hostname);
    var after := BumpAll(t, fs);
    BumpAllKeys(t, fs);
    assert forall s | s in after.order :: LabelSafe(s);
    var ms := CycleMetrics(registry, hostname, net);
    assert forall i | 0 <= i < |ms| :: Printable(ms[i]);
    ResponseLines(ms, after);
  }

  /** Every collected metric carries one of the declared names. */
  lemma {:induction false} CollectNames(ps: seq<(string, string)>, hostname: Hostname, net: Network)
    ensures forall i | 0 <= i < |CollectMetrics(ps, hostname, net)| ::
      CollectMetrics(ps, hostname, net)[i].name in MetricNames
    decreases |ps|
  {
    if ps != [] {
      var init, p := ps[..|ps| - 1], ps[|ps| - 1];
      CollectNames(init, hostname, net);
      var mine := RunOne(p, hostname, net).metrics;
      TaskLabels(p.0, hostname(p.1), p.1, net);
      var before := CollectMetrics(init, hostname, net);
      assert ps == init + [p];
      CollectSnoc(init, p, hostname, net);
      var all: seq<Metric> := before + mine;
      forall i | 0 <= i < |all| ensures all[i].name in MetricNames {
        if i < |before| {
          assert all[i] == before[i];
        } else {
          assert all[i] == mine[i - |before|];
        }
      }
    }
  }

  /** In the text a request returns, each header line appears exactly once, at
      its own place at the top, and no other line is a comment. */
  lemma ResponseHeaderOnce(t: Tally, registry: Registry, hostname: Hostname, net: Network)
    requires ValidTally(t)
    requires forall s | s in t.order :: LabelSafe(s)
    requires forall c | 0 <= c < |registry| :: LabelSafe(registry[c].0)
    requires forall k | 0 <= k < |Tasks(registry)| :: LabelSafe(hostname(Tasks(registry)[k].1))
    ensures var after := BumpAll(t, CycleFailures(registry, hostname, net));
      var lines := Lines(ResponseText(CycleMetrics(registry, hostname, net), after));
      (forall k | 0 <= k < |lines| :: IsComment(lines[k]) <==> k < |HeaderLines|)
      && (forall i, k | 0 <= i < |HeaderLines| && 0 <= k < |lines| :: lines[k] == HeaderLines[i] <==> k == i)
  {
    var after := BumpAll(t, CycleFailures(registry, hostname, net));
    var ms := CycleMetrics(registry, hostname, net);
    CycleResponse(t, registry, hostname, net);
    CollectNames(Tasks(registry), hostname, net);
    TextHeaderOnce(ms, after);
  }

  /** Each header line appears exactly once in a response whose lines split
      into header, counter and metric lines. */
  lemma TextHeaderOnce(ms: seq<Metric>, after: Tally)
    requires forall i | 0 <= i < |ms| :: ms[i].name in MetricNames
    requires Lines(ResponseText(ms, after)) == HeaderLines + CounterLines(after) + MetricLines(ms)
    ensures var lines := Lines(ResponseText(ms, after));
      (forall k | 0 <= k < |lines| :: IsComment(lines[k]) <==> k < |HeaderLines|)
      && (forall i, k | 0 <= i < |HeaderLines| && 0 <= k < |lines| :: lines[k] == HeaderLines[i] <==> k == i)
  {
    HeaderOnce(ms, after);
    var lines := Lines(ResponseText(ms, after));
    PrefixOf(HeaderLines, CounterLines(after) + MetricLines(ms));
    HeaderUnique(HeaderLines, lines);
  }

  lemma PrefixOf(h: seq<string>, rest: seq<string>)
    ensures (h + rest)[..|h|] == h
  {
  }

  /** Distinct comment lines that open a text, when no later line is a
      comment, each appear there once. */
  lemma HeaderUnique(h: seq<string>, lines: seq<string>)
    requires |h| <= |lines| && lines[..|h|] == h
    requires forall k | 0 <= k < |lines| :: IsComment(lines[k]) <==> k < |h|
    requires forall i, j | 0 <= i < j < |h| :: h[i] != h[j]
    ensures forall i, k | 0 <= i < |h| && 0 <= k < |lines| :: lines[k] == h[i] <==> k == i
  {
    forall i, k | 0 <= i < |h| && 0 <= k < |lines|
      ensures lines[k] == h[i] <==> k == i
    {
      assert lines[i] == h[i];
      if lines[k] == h[i] {
        assert k < |h|;
        assert lines[k] == h[k];
      }
    }
  }

  lemma HostsSafe(ps: seq<(string, string)>, hostname: Hostname)
    requires forall k | 0 <= k < |ps| :: LabelSafe(hostname(ps[k].1))
    ensures forall f | f in Hosts(ps, hostname) :: LabelSafe(f)
  {
    var hs := Hosts(ps, hostname);
    forall f | f in hs ensures LabelSafe(f) {
      var i :| 0 <= i < |hs| && hs[i] == f;
      assert hs[i] == hostname(ps[i].1);
    }
  }
}
