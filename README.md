# fee-metrics, modelled in Dafny

fee-metrics is a small Prometheus exporter. Each HTTP request starts one
collection cycle. For every EVM chain in a static registry, and for every
JSON-RPC endpoint URL of that chain, the cycle:

- asks the endpoint for its gas price (`eth_gasPrice`);
- on the `optimism` and `base` chains, also reads four fee parameters from
  the L1 fee oracle contract (`eth_call` of four function selectors);
- on any failure, bumps a process-wide error counter keyed by the endpoint's
  hostname.

The response is the text exposition format:

- the fixed `# TYPE` / `# UNIT` header;
- the `evm_scrape_errors` counter block, one line per source, in the order the
  sources first failed;
- one sample line per metric collected in this cycle.

The model has these modules:

- `Digits`: hex and decimal numerals. `parseInt(raw, 16)` is the value of a
  digit string, and `${value}` is the canonical decimal rendering.
- `Text`: strings as runs of newline-terminated lines.
- `Exposition`: the sample-line format `name{k="v",...} n`, written without
  escaping as the collector writes it. It includes a reader that inverts it.
- `Js`: the JSON values an RPC answer can hold, `undefined`, and the
  exceptions thrown on the way, as values.
- `Evm` (src/evm.ts): the request bodies, the `asHex` / `asRpcResult` /
  `asHexResult` cleaners, `getRpcGasPrice`, and `getOptimismFees` with its
  query table.
- `Metrics` (src/metric.ts): `Metric`, `emitMetric`, and the error map as a
  class `ErrorCounter` with `countError` and `emitErrorCounters`. The map's
  contents are described by a value `Tally`: keys in insertion order plus
  counts.
- `Collector` (src/index.ts): one task per endpoint, `allMetrics` as a loop
  over the tasks, and the 200 response text.

The network is a parameter: a function from a request to what the fetch
comes to:

- rejected;
- a status that is not ok;
- a parsed JSON body.

The hostname of a URL (`new URL(u).hostname`) is also a parameter, an
uninterpreted function. So every property below holds, whenever its
preconditions hold, for every set of endpoint answers and every hostname
mapping.

## Model

| member | source | states |
|---|---|---|
| Digits.HexDigitValue | src/evm.ts:87-90 | a hex digit's value is below 16; it is below 10 exactly for `0`-`9` |
| Digits.Parse | src/evm.ts:90 | the value of a digit string, most significant digit first, as `parseInt(raw, 16)` reads a validated hex string; its promises are stated by `Digits.ParseRender`, `Digits.ParseDigitwise` and `Digits.ParseLeadingZero` |
| Digits.Render | src/metric.ts:21 | a number's numeral is non-empty, uses only digits of the base, has no leading zero unless the number is 0, and has no upper-case letter |
| Digits.ParseRender | src/evm.ts:90 | reading a rendered numeral back in its base gives the number |
| Digits.RenderInjective | src/metric.ts:21 | two different values never print the same digits |
| Digits.ParseDigitwise | src/evm.ts:90 | a numeral's value depends only on its digits' values, so `A`-`F` and `a`-`f` read alike |
| Digits.ParseLeadingZero | src/evm.ts:90 | a leading zero digit does not change the value |
| Exposition.ParseRenderSample | src/metric.ts:19-22 | a sample line reads back as the same name, labels and value, when the name holds no `{` or newline, no label key holds `=`, `}` or a newline, and no label value holds a quote or a newline |
| Exposition.ParseRenderLabels | src/metric.ts:21 | a rendered label list followed by `}` reads back as the same labels, in order, and leaves what follows the brace |
| Exposition.RenderSampleNoNewline | src/metric.ts:21 | such a sample line holds no newline |
| Metrics.EmitMetric | src/metric.ts:19-22 | the `emitMetric` template; its promises are stated by `Metrics.EmitMetricSample` and `Metrics.EmitMetricLine` |
| Metrics.EmitMetricSample | src/metric.ts:19-22 | `emitMetric` is the sample line with labels `chain` then `source`, then one newline |
| Metrics.EmitMetricLine | src/metric.ts:19-22 | a printable metric is emitted as exactly one line, and reading that line back gives its name, chain, source and value |
| Metrics.MetricsTextUnlines | src/index.ts:207 | the joined metric text is one line per metric, in the order of the metrics |
| Metrics.MetricLinesNoNewline | src/metric.ts:21 | printable metrics render as single lines |
| Metrics.Bump | src/metric.ts:14-17 | `countError` raises the source's count by one (from 0 when absent) and leaves every other count; a present key keeps its place and a new key goes last |
| Metrics.BumpOrder | src/metric.ts:16 | the key order is unchanged for a known source and gains the source at the end for a new one |
| Metrics.TotalBump | src/metric.ts:14-17 | every failure adds exactly one to the sum of all counts |
| Metrics.CountBumpAll | src/metric.ts:14-17 | over a run of failures a source's count rises by the number of times it occurs, and only by that |
| Metrics.TotalBumpAll | src/metric.ts:14-17 | over a run of failures the total rises by the length of the run |
| Metrics.BumpAllKeeps | src/metric.ts:12-17 | counts never decrease and already-tallied sources keep their positions |
| Metrics.BumpAllKeys | src/metric.ts:12-17 | after a run of failures, a source is tallied exactly when it was tallied before or occurs in the run |
| Metrics.BumpRepeated | src/metric.ts:14-17 | `n` failures of one source, starting from an empty map, leave its count at `n` |
| Metrics.CounterLine | src/metric.ts:27 | one counter line without its newline; its promises are stated by `Metrics.CounterLineSample` |
| Metrics.CountersText | src/metric.ts:24-30 | the counter block of a map state; its promises are stated by `Metrics.CountersTextLines`, and `Metrics.ErrorCounter.EmitErrorCounters` is proved to compute it |
| Metrics.CounterLineSample | src/metric.ts:27 | a counter line is the `evm_scrape_errors{source=...}` sample of the source and its count, is a single line, and reads back as that sample |
| Metrics.CountersTextLines | src/metric.ts:24-30 | the counter block is the TYPE line followed by one line per map entry in insertion order, and each line reads back as its source and current count |
| Metrics.CounterLinesNoNewline | src/metric.ts:26-28 | counter lines of sources without quotes or newlines are single lines |
| Metrics.ErrorCounter.constructor | src/metric.ts:12 | the map starts empty |
| Metrics.ErrorCounter.CountError | src/metric.ts:14-17 | the map's new contents are the old contents bumped at the source |
| Metrics.ErrorCounter.EmitErrorCounters | src/metric.ts:24-30 | the loop's output is the counter block of the current map contents |
| Evm.AsHex | src/evm.ts:86-91 | a rejection names the offending raw value |
| Evm.AsHexRejects | src/evm.ts:87-88 | `0x`, `0X1`, `1f`, `0xg`, `0x1 `, a number, `undefined` and `null` are all rejected |
| Evm.AsHexRoundTrip | src/evm.ts:86-91 | `0x` followed by a number's hex digits is accepted and decodes to that number |
| Evm.AsHexIgnoresCase | src/evm.ts:87-90 | acceptance and the decoded value do not depend on the case of the hex letters |
| Evm.AsHexIgnoresLeadingZero | src/evm.ts:87-90 | an extra leading zero changes neither acceptance nor the value |
| Evm.AsHexLowerExample | src/evm.ts:86-91 | `0xabc` decodes to 2748 |
| Evm.AsHexCaseExample | src/evm.ts:86-91 | `0xABC` and `0x0abc` decode to 2748 as well |
| Evm.AsHexGweiExample | src/evm.ts:86-91 | `0x3b9aca00` decodes to one billion |
| Evm.AsHexResult | src/evm.ts:93 | `asRpcResult(asHex)`; its promise is stated by `Evm.AsHexResultAccepts` |
| Evm.AsHexResultAccepts | src/evm.ts:93 | `asHexResult` accepts exactly an object whose `result` is a `0x` hex string, and yields that string's value |
| Evm.DecodeAnswers | src/evm.ts:33-37 | an answer whose `result` is `0x` plus the hex of `n` decodes to `n`; every body that is not an object gives the object-check error carrying that body; every object without `result`, and every array, gives the hex-string error on `undefined` |
| Evm.GetRpcGasPrice | src/evm.ts:17-40 | the gas price succeeds exactly when its answer decodes, and then is the `evm_gas_price_wei` metric of that value with the task's chain and source; a status that is not ok gives that error |
| Evm.GasPriceDecodes | src/evm.ts:36-39 | an answer whose `result` is `0x` plus the hex of `n` gives the metric with value `n` |
| Evm.GasPriceAsksOnce | src/evm.ts:22-31 | the gas price depends only on the answer to its one `eth_gasPrice` request |
| Evm.RequestShapes | src/evm.ts:22-67 | `eth_gasPrice` has no parameters; `eth_call` goes to the oracle address with the selector at block `latest`; both bodies are JSON-RPC 2.0 with id 1, sent to the endpoint URL |
| Evm.QueryMetric | src/evm.ts:56-76 | one oracle query: the metric named by the query, with the decoded answer to its selector; its promises are stated by `Evm.QueryAll` and `Evm.OptimismFeesShape` |
| Evm.QueryAll | src/evm.ts:55-77 | the batch succeeds exactly when every query succeeds, and then holds each query's metric in table order; a failed batch carries the error of one of its failing queries |
| Evm.QueryAllAsks | src/evm.ts:56-67 | the batch depends only on the answers to its own `eth_call` requests |
| Evm.GetOptimismFees | src/evm.ts:42-78 | the four oracle queries of the table, against the oracle address; its promises are stated by `Evm.OptimismFeesShape`, `Evm.OptimismFeesAllOrNothing`, `Evm.OptimismFeesOneNotOk` and `Evm.OptimismFeesAsk` |
| Evm.OptimismFeesShape | src/evm.ts:47-78 | on success there are four metrics, named as in the query table, in table order, each with the decoded answer to its selector and the task's chain and source |
| Evm.OptimismFeesAllOrNothing | src/evm.ts:55-77 | the fees succeed exactly when all four queries succeed |
| Evm.OptimismFeesOneNotOk | src/evm.ts:69-71 | a status that is not ok on any one query fails all the fees |
| Evm.OptimismFeesAsk | src/evm.ts:58-67 | the fees depend only on the answers to the four oracle requests |
| Collector.IsOracleChain | src/index.ts:185 | the chains that also read the fee oracle: `optimism` and `base`; used by `Collector.TaskSucceeds` and `Collector.TaskAsksGasPriceOnly` |
| Collector.Task | src/index.ts:180-194 | one task: its metrics and whether its catch block ran; its promises are stated by `Collector.TaskLabels`, `Collector.TaskSucceeds`, `Collector.TaskGasFails`, `Collector.TaskOracleFails` and `Collector.TaskAsksGasPriceOnly` |
| Collector.TaskLabels | src/index.ts:181-188 | every metric of a task carries the task's chain and hostname and one of the five declared names; the gas price comes first |
| Collector.TaskSucceeds | src/index.ts:183-188 | when nothing fails, a task yields the gas price, followed on `optimism` and `base` by the four fees, and does not count an error |
| Collector.TaskGasFails | src/index.ts:184-192 | a failed gas price gives no metrics and one error, whatever the oracle would have answered |
| Collector.TaskOracleFails | src/index.ts:185-192 | on an oracle chain, failed fees keep the gas price metric already pushed and count exactly one error |
| Collector.TaskAsksGasPriceOnly | src/index.ts:185 | off `optimism` and `base`, a task depends on the gas price answer alone |
| Collector.RunTask | src/index.ts:180-194 | the task method's metrics and its counter update are those of the task function: the counter is bumped at the hostname once when the task fails and left alone otherwise |
| Collector.AllMetrics | src/index.ts:176-198 | the result is the tasks' metrics concatenated in registry order, and the counter is the old counter bumped at every failing task's hostname, in that order |
| Collector.Respond | src/index.ts:201-208 | the response text is the header, then the counters after this cycle's failures, then this cycle's metrics |
| Collector.Tasks | src/index.ts:177-180 | the tasks of a registry: each chain with each of its URLs, chains in key order and URLs in list order; its promises are stated by `Collector.ChainOrder`, `Collector.ChainOneUrl` and `Collector.CycleAppend` |
| Collector.CycleMetrics | src/index.ts:176-197 | the flattened metrics of a cycle; `Collector.AllMetrics` is proved to compute them, and `Collector.TaskIsolated` and `Collector.NoMetricsFromFailedEndpoint` state their properties |
| Collector.CycleFailures | src/index.ts:189-192 | the hostnames a cycle bumps; `Collector.AllMetrics` is proved to bump them, and `Collector.FailuresAreFailingHosts` and `Collector.CycleCounts` state their properties |
| Collector.CycleAppend | src/index.ts:177-197 | a registry split in two gives the first part's metrics and failures followed by the second part's |
| Collector.ChainOrder | src/index.ts:178-180 | within a chain the URLs' results come in URL order; a chain with no URLs contributes nothing |
| Collector.ChainOneUrl | src/index.ts:180-194 | a chain with one URL contributes exactly that URL's task |
| Collector.TaskIsolated | src/index.ts:180-197 | each task's metrics stand at their place in the result, between the tasks before it and the tasks after it, whatever those tasks do |
| Collector.NoMetricsFromFailedEndpoint | src/index.ts:183-193 | no metric in the result carries a chain and hostname all of whose endpoints failed their gas price |
| Collector.FailuresAreFailingHosts | src/index.ts:189-192 | the counter bumps of a cycle are exactly the hostnames of the failing tasks, one each, in order |
| Collector.CycleCounts | src/index.ts:191 | over a cycle, each source's count rises by the number of its failing tasks and the total by the number of failing tasks |
| Collector.SameHostAccumulates | src/index.ts:181-191 | two failing endpoints on one hostname add two to one counter |
| Collector.AfterCycles | src/metric.ts:12 | the map stays well-formed across any number of cycles |
| Collector.RepeatedFailure | src/metric.ts:12-17 | an endpoint that fails, alone on its host, in each of N cycles raises its counter by N, because the map outlives requests |
| Collector.TwoEndpointScenario | src/index.ts:176-198 | with one endpoint answering `0x3b9aca00` and one answering with a status that is not ok, the cycle gives one gas price metric of one billion and one failure for the second host |
| Collector.TwoEndpointCounters | src/metric.ts:24-30 | in that scenario, starting from an empty map, the counter block is the TYPE line followed by `evm_scrape_errors{source="bad"} 1` |
| Collector.OneFailureCounters | src/metric.ts:14-30 | one failure of a source on an empty map gives the TYPE line followed by that source's line with count 1 |
| Collector.CollectPrintable | src/index.ts:181-187 | when chain names and hostnames hold no quote or newline, every collected metric is printable |
| Collector.ResponseText | src/index.ts:205-208 | `evmTypes`, then the counter block, then the joined metric lines; `Collector.Respond` is proved to compute it, and `Collector.ResponseLines`, `Collector.HeaderOnce` and `Collector.CycleResponse` state its properties |
| Collector.HeaderNoNewline | src/evm.ts:5-15 | each line of `evmTypes` (the constants `Evm.EvmTypeLines` and `Evm.EvmTypes`) and the counter TYPE line is a single line |
| Collector.ResponseLines | src/index.ts:205-208 | for printable metrics and counters, the response's lines are the header lines, then a counter line per tallied source, then a sample line per metric |
| Collector.HeaderOnce | src/index.ts:205-208 | the header lines are distinct and are the only comment lines, so each TYPE and UNIT declaration appears exactly once |
| Collector.CycleResponse | src/index.ts:200-208 | when the chain names, the hostnames of the registry's URLs and the tallied sources hold no quote or newline, the response is the header lines, the counters after this cycle and this cycle's metric lines |
| Collector.ResponseHeaderOnce | src/index.ts:205-208 | under the same conditions, in the response text each header line appears exactly once, at its own place at the top, and no other line is a comment |

## Left out

- HTTP serving: `createServer` and `listen` are not modelled, nor are the
  response headers.
- The 500 path (`res.end(String(error))`) is not modelled. It is taken only
  when something throws outside a task's `try`. The main such case is an
  invalid URL in the registry, because `new URL(...)` runs before the `try`.
- URL parsing: `new URL(u).hostname` is an uninterpreted parameter.
  Properties that need label-safe hostnames state that as a precondition.
- `console.log` of a failure is output only and is not modelled. The
  exception messages are modelled as the data they carry (`Js.Failure`), not
  as the printed strings.
- Overlapping requests: the server handles requests concurrently, and all
  cycles share one error map. A response's counter block can therefore
  include failures from another request's cycle that is still running.
  `Collector.Respond` and `Collector.RepeatedFailure` assume one request at a
  time.
- Independent fetches: `Network` is a function, so identical requests within
  one cycle always get identical answers. A URL listed twice, in one chain or
  in two, is fetched twice by the program and may get two different answers.
- Concurrency: the source starts every task and every oracle query at once.
  The model runs them one after another in registry order. The order of
  metrics in the result does not depend on timing. The order in which sources
  enter the error map for the first time does, and there the model fixes
  registry order.
- Evm.QueryAll: `Promise.all` rejects with the first rejection in time. The
  model returns the error of the first failing query in table order; its
  contract only names some failing query.
- Evm.AsHex: `parseInt` yields a double and loses precision above 2^53. The
  model's values are unbounded naturals.
- Digits.Decimal: JavaScript prints numbers of 1e21 and above in
  exponential notation. The model always prints plain decimal.
- JSON numbers are modelled as integers: the collector never reads one.
- Js.Property: only own properties of a parsed JSON object are modelled.
  Inherited keys such as `constructor` and `toString`, and an array's
  `length` and index keys, would be defined in JavaScript. The collector
  reads only `result`, which is never inherited, so nothing depends on this.
- The `cleaners` library is modelled only through `asObject`'s type check
  (`typeof raw === 'object'`, non-null, arrays included) and its reading of
  the `result` property.
- The contents of the chain registry and the environment configuration are
  not modelled. The registry is a parameter: chain names with their endpoint
  URLs, in key order.
- Label values are written without escaping, as the source does. A chain name
  or hostname holding a quote or a newline would break the format. The
  read-back and line-count properties therefore require label-safe values.
