/** The metric record, the process-wide error tally and their rendering in the
    text exposition format (src/metric.ts). */
module Metrics {
  import opened Digits
  import opened Text
  import opened Exposition

  /** `interface Metric`; values are unbounded naturals. */
  datatype Metric = Metric(name: string, value: nat, chain: string, source: string)

  /** `emitMetric`: one sample line with the `chain` and `source` labels. */
  function EmitMetric(m: Metric): string {
    m.name + "{chain=\"" + m.chain + "\",source=\"" + m.source + "\"} " + Decimal(m.value) + "\n"
  }

  /** The sample a metric line stands for. */
  function MetricSample(m: Metric): Sample {
    Sample(m.name, [Label("chain", m.chain), Label("source", m.source)], m.value)
  }

  /** Label values the unescaped format carries unambiguously. */
  predicate Printable(m: Metric) {
    WellFormed(MetricSample(m))
  }

  /** `emitMetric` writes the metric's sample line and its newline. */
  lemma EmitMetricSample(m: Metric)
    ensures EmitMetric(m) == RenderSample(MetricSample(m)) + "\n"
  {
    var ls := MetricSample(m).labels;
    assert ls[1..] == [Label("source", m.source)];
    assert RenderLabels(ls) == RenderLabel(ls[0]) + ("," + RenderLabel(ls[1]));
    MetricShape(m.name, m.chain, m.source, Decimal(m.value));
  }

  lemma MetricShape(n: string, c: string, s: string, d: string)
    ensures n + "{chain=\"" + c + "\",source=\"" + s + "\"} " + d + "\n"
         == n + "{" + ("chain" + "=\"" + c + "\"" + ("," + ("source" + "=\"" + s + "\""))) + "} " + d + "\n"
  {
  }

  /** `emitMetric` writes exactly one newline-terminated line, and reading that
      line back gives the metric's name, labels and value. */
  lemma EmitMetricLine(m: Metric)
    requires Printable(m)
    ensures EmitMetric(m) == RenderSample(MetricSample(m)) + "\n"
    ensures NoNewline(RenderSample(MetricSample(m)))
    ensures Lines(EmitMetric(m)) == [RenderSample(MetricSample(m))]
    ensures ParseSample(RenderSample(MetricSample(m))) == Some(MetricSample(m))
  {
    var line := RenderSample(MetricSample(m));
    EmitMetricSample(m);
    RenderSampleNoNewline(MetricSample(m));
    LinesUnlines([line]);
    assert Unlines([line]) == line + "\n";
    ParseRenderSample(MetricSample(m));
  }

  /** `metrics.map(emitMetric).join('')` */
  function MetricsText(ms: seq<Metric>): string {
    Concat(seq(|ms|, i requires 0 <= i < |ms| => EmitMetric(ms[i])))
  }

  /** The sample lines of the metrics, in order. */
  function MetricLines(ms: seq<Metric>): (ls: seq<string>)
    ensures |ls| == |ms|
  {
    seq(|ms|, i requires 0 <= i < |ms| => RenderSample(MetricSample(ms[i])))
  }

  /** Printable metrics render as single lines. */
  lemma MetricLinesNoNewline(ms: seq<Metric>)
    requires forall i | 0 <= i < |ms| :: Printable(ms[i])
    ensures forall i | 0 <= i < |MetricLines(ms)| :: NoNewline(MetricLines(ms)[i])
  {
    var ls := MetricLines(ms);
    forall i | 0 <= i < |ls| ensures NoNewline(ls[i]) {
      RenderSampleNoNewline(MetricSample(ms[i]));
    }
  }

  /** The metrics text is the metrics' sample lines, one per metric, in order. */
  lemma {:induction false} MetricsTextUnlines(ms: seq<Metric>)
    ensures MetricsText(ms) == Unlines(MetricLines(ms))
  {
    if ms != [] {
      var es := seq(|ms|, i requires 0 <= i < |ms| => EmitMetric(ms[i]));
      assert es[1..] == seq(|ms| - 1, i requires 0 <= i < |ms| - 1 => EmitMetric(ms[1..][i]));
      assert MetricLines(ms)[1..] == MetricLines(ms[1..]);
      MetricsTextUnlines(ms[1..]);
      EmitMetricSample(ms[0]);
    }
  }

  // ---------------------------------------------------------------------------
  // The error tally: a JavaScript Map from source to count, as its keys in
  // insertion order and the key-to-count mapping.

  datatype Tally = Tally(order: seq<string>, counts: map<string, nat>)

  const Empty: Tally := Tally([], map[])

  /** Keys listed once each, the listed keys are the mapped ones, and a count
      is only ever created by a failure. */
  ghost predicate ValidTally(t: Tally) {
    (forall i, j | 0 <= i < j < |t.order| :: t.order[i] != t.order[j])
    && (forall s :: s in t.counts <==> s in t.order)
    && (forall s | s in t.counts :: t.counts[s] >= 1)
  }

  /** `errorCounts.get(source) ?? 0` */
  function Count(t: Tally, s: string): nat {
    Get(t.counts, s)
  }

  /** `countError`: `set` on a present key keeps its place, on a new key appends it. */
  function Bump(t: Tally, s: string): (r: Tally)
    requires ValidTally(t)
    ensures ValidTally(r)
    ensures Count(r, s) == Count(t, s) + 1
    ensures forall o | o != s :: Count(r, o) == Count(t, o)
    ensures t.order <= r.order
  {
    var errorCount := Count(t, s);
    Tally(if s in t.counts then t.order else t.order + [s], t.counts[s := errorCount + 1])
  }

  /** A source keeps the position of its first failure; a first failure goes last. */
  lemma BumpOrder(t: Tally, s: string)
    requires ValidTally(t)
    ensures s in t.order ==> Bump(t, s).order == t.order
    ensures s !in t.order ==> Bump(t, s).order == t.order + [s]
    ensures forall i | 0 <= i < |t.order| :: Bump(t, s).order[i] == t.order[i]
  {
  }

  /** The sum of all counts. */
  function Total(t: Tally): nat {
    SumOver(t.order, t.counts)
  }

  function SumOver(keys: seq<string>, counts: map<string, nat>): nat {
    if keys == [] then 0
    else SumOver(keys[..|keys| - 1], counts) + Get(counts, keys[|keys| - 1])
  }

  /** A count looked up in a map, 0 when the key is absent. */
  function Get(counts: map<string, nat>, s: string): nat {
    if s in counts then counts[s] else 0
  }

  lemma {:induction false} SumOverBump(keys: seq<string>, counts: map<string, nat>, s: string)
    requires forall i, j | 0 <= i < j < |keys| :: keys[i] != keys[j]
    ensures SumOver(keys, counts[s := Get(counts, s) + 1])
         == SumOver(keys, counts) + (if s in keys then 1 else 0)
  {
    if keys != [] {
      var init := keys[..|keys| - 1];
      SumOverBump(init, counts, s);
      assert s in keys <==> s in init || s == keys[|keys| - 1];
      assert s == keys[|keys| - 1] ==> s !in init;
    }
  }

  lemma {:induction false} SumOverAbsent(keys: seq<string>, counts: map<string, nat>, s: string, c: nat)
    requires s !in keys
    ensures SumOver(keys, counts[s := c]) == SumOver(keys, counts)
  {
    if keys != [] {
      SumOverAbsent(keys[..|keys| - 1], counts, s, c);
    }
  }

  /** Every failure adds exactly one to the total. */
  lemma TotalBump(t: Tally, s: string)
    requires ValidTally(t)
    ensures Total(Bump(t, s)) == Total(t) + 1
  {
    var c := Get(t.counts, s);
    if s in t.counts {
      SumOverBump(t.order, t.counts, s);
    } else {
      var o := t.order + [s];
      assert o[..|o| - 1] == t.order;
      SumOverAbsent(t.order, t.counts, s, c + 1);
    }
  }

  /** Failures recorded one after another. */
  function BumpAll(t: Tally, fs: seq<string>): (r: Tally)
    requires ValidTally(t)
    ensures ValidTally(r)
    decreases |fs|
  {
    if fs == [] then t else Bump(BumpAll(t, fs[..|fs| - 1]), fs[|fs| - 1])
  }

  /** Each source's count rises by the number of its failures, and only by those. */
  lemma {:induction false} CountBumpAll(t: Tally, fs: seq<string>, s: string)
    requires ValidTally(t)
    ensures Count(BumpAll(t, fs), s) == Count(t, s) + multiset(fs)[s]
    decreases |fs|
  {
    if fs != [] {
      var init, f := fs[..|fs| - 1], fs[|fs| - 1];
      CountBumpAll(t, init, s);
      MultisetSnoc(fs, s);
      assert BumpAll(t, fs) == Bump(BumpAll(t, init), f);
    }
  }

  lemma InSnoc(fs: seq<string>)
    requires fs != []
    ensures forall s :: s in fs <==> s in fs[..|fs| - 1] || s == fs[|fs| - 1]
  {
    assert fs == fs[..|fs| - 1] + [fs[|fs| - 1]];
  }

  lemma MultisetSnoc(fs: seq<string>, s: string)
    requires fs != []
    ensures multiset(fs)[s] == multiset(fs[..|fs| - 1])[s] + (if fs[|fs| - 1] == s then 1 else 0)
  {
    assert fs == fs[..|fs| - 1] + [fs[|fs| - 1]];
  }

  /** The total rises by the number of failures. */
  lemma {:induction false} TotalBumpAll(t: Tally, fs: seq<string>)
    requires ValidTally(t)
    ensures Total(BumpAll(t, fs)) == Total(t) + |fs|
    decreases |fs|
  {
    if fs != [] {
      TotalBumpAll(t, fs[..|fs| - 1]);
      TotalBump(BumpAll(t, fs[..|fs| - 1]), fs[|fs| - 1]);
    }
  }

  /** Counts never decrease and sources already tallied keep their positions. */
  lemma {:induction false} BumpAllKeeps(t: Tally, fs: seq<string>)
    requires ValidTally(t)
    ensures t.order <= BumpAll(t, fs).order
    ensures forall s :: Count(BumpAll(t, fs), s) >= Count(t, s)
    decreases |fs|
  {
    if fs != [] {
      BumpAllKeeps(t, fs[..|fs| - 1]);
    }
  }

  /** A source is tallied exactly when it was tallied before or failed now. */
  lemma {:induction false} BumpAllKeys(t: Tally, fs: seq<string>)
    requires ValidTally(t)
    ensures forall s :: s in BumpAll(t, fs).order <==> s in t.order || s in fs
    decreases |fs|
  {
    if fs != [] {
      var init, f := fs[..|fs| - 1], fs[|fs| - 1];
      BumpAllKeys(t, init);
      assert BumpAll(t, fs) == Bump(BumpAll(t, init), f);
      BumpKeys(BumpAll(t, init), f);
      InSnoc(fs);
    }
  }

  lemma BumpKeys(t: Tally, f: string)
    requires ValidTally(t)
    ensures forall s :: s in Bump(t, f).order <==> s in t.order || s == f
  {
    if f !in t.counts {
      assert Bump(t, f).order == t.order + [f];
    }
  }

  /** `n` failures of one source from an empty tally leave its count at `n`. */
  lemma {:induction false} BumpRepeated(s: string, n: nat)
    ensures Count(BumpAll(Empty, seq(n, _ => s)), s) == n
  {
    var fs := seq(n, _ => s);
    CountBumpAll(Empty, fs, s);
    MultisetRepeated(s, n);
  }

  lemma {:induction false} MultisetRepeated(s: string, n: nat)
    ensures multiset(seq(n, _ => s))[s] == n
  {
    if n > 0 {
      MultisetRepeated(s, n - 1);
      assert seq(n, _ => s) == seq(n - 1, _ => s) + [s];
    }
  }

  // ---------------------------------------------------------------------------
  // `emitErrorCounters`

  const CounterHeader: string := "# TYPE evm_scrape_errors counter"

  /** `evm_scrape_errors{source="..."} count`, without its newline. */
  function CounterLine(source: string, count: nat): string {
    "evm_scrape_errors{source=\"" + source + "\"} " + Decimal(count)
  }

  /** One line per tallied source, in the map's order, with its current count. */
  function CounterLines(t: Tally): (ls: seq<string>)
    ensures |ls| == |t.order|
  {
    seq(|t.order|, i requires 0 <= i < |t.order| => CounterLine(t.order[i], Count(t, t.order[i])))
  }

  /** The counter block: the TYPE line, then the counter lines. */
  function CountersText(t: Tally): string {
    Unlines([CounterHeader] + CounterLines(t))
  }

  function CounterSample(source: string, count: nat): Sample {
    Sample("evm_scrape_errors", [Label("source", source)], count)
  }

  /** A counter line is the rendering of the source's counter sample, and reads back as it. */
  lemma CounterLineSample(source: string, count: nat)
    requires '"' !in source && '\n' !in source
    ensures CounterLine(source, count) == RenderSample(CounterSample(source, count))
    ensures NoNewline(CounterLine(source, count))
    ensures ParseSample(CounterLine(source, count)) == Some(CounterSample(source, count))
  {
    var smp := CounterSample(source, count);
    CounterLineRenders(source, count);
    assert WellFormedLabel(smp.labels[0]);
    RenderSampleNoNewline(smp);
    ParseRenderSample(smp);
  }

  lemma CounterLineRenders(source: string, count: nat)
    ensures CounterLine(source, count) == RenderSample(CounterSample(source, count))
  {
    var smp := CounterSample(source, count);
    assert RenderLabels(smp.labels) == RenderLabel(Label("source", source));
    CounterShape(source, Decimal(count));
  }

  lemma CounterShape(s: string, d: string)
    ensures "evm_scrape_errors{source=\"" + s + "\"} " + d
         == "evm_scrape_errors" + "{" + ("source" + "=\"" + s + "\"") + "} " + d
  {
  }

  /** The counter block always opens with its TYPE line, has one line per
      tallied source in map order, and each line reads back as that source's
      current count. */
  lemma CountersTextLines(t: Tally)
    requires forall s | s in t.order :: '"' !in s && '\n' !in s
    ensures Lines(CountersText(t)) == [CounterHeader] + CounterLines(t)
    ensures CountersText(t)[..|CounterHeader| + 1] == CounterHeader + "\n"
    ensures forall i | 0 <= i < |t.order| ::
      ParseSample(CounterLines(t)[i]) == Some(CounterSample(t.order[i], Count(t, t.order[i])))
  {
    var cl := CounterLines(t);
    forall i | 0 <= i < |t.order|
      ensures ParseSample(cl[i]) == Some(CounterSample(t.order[i], Count(t, t.order[i])))
    {
      assert t.order[i] in t.order;
      CounterLineSample(t.order[i], Count(t, t.order[i]));
    }
    CounterLinesNoNewline(t);
    assert NoNewline(CounterHeader);
    ConsNoNewline(CounterHeader, cl);
    LinesUnlines([CounterHeader] + cl);
    UnlinesAppend([CounterHeader], cl);
    HeaderPrefix(CounterHeader, Unlines(cl));
  }

  lemma ConsNoNewline(h: string, ls: seq<string>)
    requires NoNewline(h)
    requires forall k | 0 <= k < |ls| :: NoNewline(ls[k])
    ensures forall k | 0 <= k < |[h] + ls| :: NoNewline(([h] + ls)[k])
  {
    forall k | 0 <= k < |[h] + ls| ensures NoNewline(([h] + ls)[k]) {
      if k > 0 { assert ([h] + ls)[k] == ls[k - 1]; }
    }
  }

  lemma HeaderPrefix(h: string, rest: string)
    ensures Unlines([h]) + rest == h + "\n" + rest
    ensures (h + "\n" + rest)[..|h| + 1] == h + "\n"
  {
    assert [h][1..] == [];
  }

  /** Counter lines of sources without quotes or newlines are single lines. */
  lemma CounterLinesNoNewline(t: Tally)
    requires forall s | s in t.order :: '"' !in s && '\n' !in s
    ensures forall i | 0 <= i < |CounterLines(t)| :: NoNewline(CounterLines(t)[i])
  {
    var cs := CounterLines(t);
    forall i | 0 <= i < |cs| ensures NoNewline(cs[i]) {
      assert t.order[i] in t.order;
      CounterLineSample(t.order[i], Count(t, t.order[i]));
    }
  }

  /** Appending one counter line to a block of lines. */
  lemma CounterStep(prefix: seq<string>, source: string, count: nat)
    ensures Unlines(prefix + [CounterLine(source, count)])
         == Unlines(prefix) + "evm_scrape_errors{source=\"" + source + "\"} " + Decimal(count) + "\n"
  {
    UnlinesAppend(prefix, [CounterLine(source, count)]);
    assert [CounterLine(source, count)][1..] == [];
  }

  // ---------------------------------------------------------------------------
  // The module-level `errorCounts` map.

  class ErrorCounter {
    var order: seq<string>
    var counts: map<string, nat>

    /** The map's current entries. */
    function Snapshot(): Tally
      reads this
    {
      Tally(order, counts)
    }

    ghost predicate Valid()
      reads this
    {
      ValidTally(Snapshot())
    }

    /** `new Map<string, number>()` */
    constructor ()
      ensures Valid() && Snapshot() == Empty
    {
      order := [];
      counts := map[];
    }

    /** `countError`: read the count (absent is 0), store it plus one. */
    method CountError(source: string)
      requires Valid()
      modifies this
      ensures Valid()
      ensures Snapshot() == Bump(old(Snapshot()), source)
    {
      ghost var before := Snapshot();
      var errorCount := if source in counts then counts[source] else 0;
      if source !in counts {
        order := order + [source];
      }
      counts := counts[source := errorCount + 1];
      assert Snapshot() == Bump(before, source);
    }

    /** `emitErrorCounters`: the TYPE line, then a line per entry in map order. */
    method EmitErrorCounters() returns (out: string)
      requires Valid()
      ensures out == CountersText(Snapshot())
    {
      out := CounterHeader + "\n";
      ghost var lines := CounterLines(Snapshot());
      for i := 0 to |order|
        invariant out == Unlines([CounterHeader] + lines[..i])
      {
        var source := order[i];
        var count := counts[source];
        assert lines[i] == CounterLine(source, count);
        CounterStep([CounterHeader] + lines[..i], source, count);
        assert [CounterHeader] + lines[..i + 1] == [CounterHeader] + lines[..i] + [lines[i]];
        out := out + "evm_scrape_errors{source=\"" + source + "\"} " + Decimal(count) + "\n";
      }
      assert lines[..|order|] == lines;
    }
  }
}
