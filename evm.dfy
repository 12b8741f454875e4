/** The JSON-RPC client and the two fee extractors (src/evm.ts). Each fetch is
    a call of the `Network` parameter: it maps the request the source would
    POST (URL and JSON body) to what came back. */
module Evm {
  import opened Js
  import opened Digits
  import opened Metrics
  import opened Text

  /** The names of the metrics the extractors produce. */
  const MetricNames: seq<string> := [
    "evm_gas_price_wei", "evm_base_fee_wei", "evm_blob_base_fee_wei",
    "evm_base_fee_scalar", "evm_blob_base_fee_scalar"
  ]

  /** The lines of `evmTypes`: a TYPE and a UNIT declaration per metric name. */
  const EvmTypeLines: seq<string> := [
    "# TYPE evm_gas_price_wei gauge",
    "# UNIT evm_gas_price_wei wei",
    "# TYPE evm_base_fee_wei gauge",
    "# UNIT evm_base_fee_wei wei",
    "# TYPE evm_blob_base_fee_wei gauge",
    "# UNIT evm_blob_base_fee_wei wei",
    "# TYPE evm_base_fee_scalar gauge",
    "# UNIT evm_base_fee_scalar ratio",
    "# TYPE evm_blob_base_fee_scalar gauge",
    "# UNIT evm_blob_base_fee_scalar ratio"
  ]

  /** The static header of every response: those lines, each newline-terminated. */
  const EvmTypes: string := Unlines(EvmTypeLines)

  /** A POST with `Content-Type: application/json` and this JSON body. */
  datatype Request = Request(url: string, body: Value)

  /** What a fetch comes to: the promise rejected (network error, or a body
      that is not JSON), a status outside 200-299, or an ok status with the
      parsed body. */
  datatype Outcome = Rejected | NotOk | Received(json: Value)

  type Network = Request -> Outcome

  /** `{ jsonrpc: '2.0', id: 1, method, params }` */
  function RpcBody(rpcMethod: string, params: seq<Value>): Value {
    Object(map["jsonrpc" := Str("2.0"), "id" := Number(1), "method" := Str(rpcMethod), "params" := Array(params)])
  }

  function GasPriceRequest(url: string): Request {
    Request(url, RpcBody("eth_gasPrice", []))
  }

  const OracleContractAddress: string := "0x420000000000000000000000000000000000000F"

  /** `eth_call` of one selector on the fee oracle, at the latest block. */
  function OracleRequest(url: string, selector: string): Request {
    Request(url, RpcBody("eth_call", [Object(map["to" := Str(OracleContractAddress), "data" := Str(selector)]), Str("latest")]))
  }

  /** The oracle queries: metric name and 4-byte function selector. */
  const Queries: seq<(string, string)> := [
    ("evm_base_fee_wei", "0x519b4bd3"),
    ("evm_blob_base_fee_wei", "0xf8206140"),
    ("evm_base_fee_scalar", "0xc5985918"),
    ("evm_blob_base_fee_scalar", "0x68d5dca6")
  ]

  /** `/^0x[0-9a-fA-F]+$/` */
  predicate IsHexLiteral(s: string) {
    |s| >= 3 && s[0] == '0' && s[1] == 'x' && AllDigits(s[2..], 16)
  }

  /** `asHex`: a validated hex string's value (`parseInt(raw, 16)`). */
  function AsHex(raw: Value): (r: Result<nat>)
    ensures r.Err? ==> r.error == NotHexString(raw)
  {
    if raw.Str? && IsHexLiteral(raw.s) then Ok(Parse(raw.s[2..], 16)) else Err(NotHexString(raw))
  }

  /** `asRpcResult(cleaner)`: an object (arrays included) whose `result`
      property the cleaner accepts. */
  function AsRpcResult<T>(clean: Value -> Result<T>, raw: Value): (r: Result<T>)
    ensures !IsObject(raw) ==> r == Err(NotAnObject(raw))
    ensures IsObject(raw) ==> r == clean(Property(raw, "result"))
  {
    if !IsObject(raw) then Err(NotAnObject(raw)) else clean(Property(raw, "result"))
  }

  /** `asHexResult` */
  function AsHexResult(raw: Value): Result<nat> {
    AsRpcResult(AsHex, raw)
  }

  /** Lines 33-37 and 69-73: a status that is not ok throws before the body is
      read; otherwise the body's `result` is decoded. */
  function Decode(what: string, sourceName: string, outcome: Outcome): (r: Result<nat>)
    ensures outcome.NotOk? ==> r == Err(StatusNotOk(what, sourceName))
    ensures outcome.Rejected? ==> r == Err(FetchRejected)
    ensures outcome.Received? ==> r == AsHexResult(outcome.json)
  {
    match outcome
    case Rejected => Err(FetchRejected)
    case NotOk => Err(StatusNotOk(what, sourceName))
    case Received(json) => AsHexResult(json)
  }

  /** `getRpcGasPrice` */
  function GetRpcGasPrice(chain: string, sourceName: string, sourceUrl: string, net: Network): (r: Result<Metric>)
    ensures r.Ok? <==> Decode("gasPrice", sourceName, net(GasPriceRequest(sourceUrl))).Ok?
    ensures r.Ok? ==> r.value == Metric("evm_gas_price_wei", Decode("gasPrice", sourceName, net(GasPriceRequest(sourceUrl))).value, chain, sourceName)
    ensures net(GasPriceRequest(sourceUrl)).NotOk? ==> r == Err(StatusNotOk("gasPrice", sourceName))
  {
    match Decode("gasPrice", sourceName, net(GasPriceRequest(sourceUrl)))
    case Err(e) => Err(e)
    case Ok(value) => Ok(Metric("evm_gas_price_wei", value, chain, sourceName))
  }

  /** The body of the `queries.map` callback: one oracle call. */
  function QueryMetric(query: (string, string), chain: string, sourceName: string, sourceUrl: string, net: Network): Result<Metric> {
    var (name, data) := query;
    match Decode(name, sourceName, net(OracleRequest(sourceUrl, data)))
    case Err(e) => Err(e)
    case Ok(value) => Ok(Metric(name, value, chain, sourceName))
  }

  /** `Promise.all(queries.map(...))`: every query's metric, in table order,
      or a failure of one of them. */
  function QueryAll(queries: seq<(string, string)>, chain: string, sourceName: string, sourceUrl: string, net: Network): (r: Result<seq<Metric>>)
    ensures r.Ok? <==> forall i | 0 <= i < |queries| :: QueryMetric(queries[i], chain, sourceName, sourceUrl, net).Ok?
    ensures r.Ok? ==> |r.value| == |queries|
    ensures r.Ok? ==> forall i | 0 <= i < |queries| ::
      r.value[i] == QueryMetric(queries[i], chain, sourceName, sourceUrl, net).value
    ensures r.Err? ==> exists i | 0 <= i < |queries| :: QueryMetric(queries[i], chain, sourceName, sourceUrl, net) == Err(r.error)
    decreases |queries|
  {
    if queries == [] then Ok([])
    else
      match QueryMetric(queries[0], chain, sourceName, sourceUrl, net)
      case Err(e) => Err(e)
      case Ok(m) =>
        match QueryAll(queries[1..], chain, sourceName, sourceUrl, net)
        case Err(e) =>
          assert exists i | 0 <= i < |queries| - 1 :: QueryMetric(queries[1..][i], chain, sourceName, sourceUrl, net) == Err(e);
          Err(e)
        case Ok(ms) => Ok([m] + ms)
  }

  /** `getOptimismFees` */
  function GetOptimismFees(chain: string, sourceName: string, sourceUrl: string, net: Network): Result<seq<Metric>> {
    QueryAll(Queries, chain, sourceName, sourceUrl, net)
  }

  // ---------------------------------------------------------------------------
  // Decoding

  /** `asHex` rejects what the pattern rejects: an empty digit run, an upper
      case `X`, a missing prefix, a non-hex digit, and every non-string. */
  lemma AsHexRejects()
    ensures AsHex(Str("0x")).Err?
    ensures AsHex(Str("0X1")).Err?
    ensures AsHex(Str("1f")).Err?
    ensures AsHex(Str("0xg")).Err?
    ensures AsHex(Str("0x1 ")).Err?
    ensures AsHex(Number(16)).Err?
    ensures AsHex(Undefined).Err?
    ensures AsHex(Null).Err?
  {
    assert !IsDigit('g', 16);
    assert !IsDigit(' ', 16);
  }

  /** Rendering a number as `0x` and its hex digits and decoding it gives the
      number back. */
  lemma AsHexRoundTrip(n: nat)
    ensures AsHex(Str("0x" + Hex(n))) == Ok(n)
  {
    var s := "0x" + Hex(n);
    assert s[2..] == Hex(n);
    ParseRender(n, 16);
  }

  /** `A`-`F` as `a`-`f`, every other character as it is. */
  function LowerHex(s: string): (r: string)
    ensures |r| == |s|
    ensures forall i | 0 <= i < |s| :: IsHexDigit(s[i]) ==> IsHexDigit(r[i]) && HexDigitValue(r[i]) == HexDigitValue(s[i])
    ensures forall i | 0 <= i < |s| :: !('A' <= r[i] <= 'F')
  {
    seq(|s|, i requires 0 <= i < |s| => if 'A' <= s[i] <= 'F' then (s[i] as int - 'A' as int + 'a' as int) as char else s[i])
  }

  /** Decoding does not depend on the case of the hex letters. */
  lemma AsHexIgnoresCase(digits: string)
    ensures AsHex(Str("0x" + digits)).Ok? == AsHex(Str("0x" + LowerHex(digits))).Ok?
    ensures AsHex(Str("0x" + digits)).Ok? ==>
      AsHex(Str("0x" + digits)).value == AsHex(Str("0x" + LowerHex(digits))).value
  {
    var s, t := "0x" + digits, "0x" + LowerHex(digits);
    assert s[2..] == digits && t[2..] == LowerHex(digits);
    if AllDigits(digits, 16) {
      ParseDigitwise(digits, LowerHex(digits), 16);
    } else {
      var i :| 0 <= i < |digits| && !IsDigit(digits[i], 16);
      assert !IsDigit(LowerHex(digits)[i], 16);
    }
  }

  /** A leading zero digit does not change the decoded value. */
  lemma AsHexIgnoresLeadingZero(digits: string)
    requires |digits| > 0
    ensures AsHex(Str("0x0" + digits)).Ok? == AsHex(Str("0x" + digits)).Ok?
    ensures AsHex(Str("0x0" + digits)).Ok? ==>
      AsHex(Str("0x0" + digits)).value == AsHex(Str("0x" + digits)).value
  {
    var s, t := "0x0" + digits, "0x" + digits;
    assert s[2..] == "0" + digits && t[2..] == digits;
    if AllDigits(digits, 16) {
      ParseLeadingZero(digits, 16);
    } else {
      var i :| 0 <= i < |digits| && !IsDigit(digits[i], 16);
      assert s[2..][i + 1] == digits[i];
    }
  }

  /** `0xabc` decodes to 2748. */
  lemma AsHexLowerExample()
    ensures AsHex(Str("0xabc")) == Ok(2748)
  {
    ParsePrefixes("abc");
    assert "0xabc"[2..] == "abc";
  }

  /** `0xABC` and `0x0abc` decode to 2748 as `0xabc` does. */
  lemma AsHexCaseExample()
    ensures AsHex(Str("0xABC")) == Ok(2748)
    ensures AsHex(Str("0x0abc")) == Ok(2748)
  {
    AsHexLowerExample();
    AsHexIgnoresCase("ABC");
    assert LowerHex("ABC") == "abc";
    AsHexIgnoresLeadingZero("abc");
    assert "0x" + "ABC" == "0xABC" && "0x" + "abc" == "0xabc" && "0x0" + "abc" == "0x0abc";
  }

  /** A gas price of `0x3b9aca00` is one billion wei. */
  lemma AsHexGweiExample()
    ensures AsHex(Str("0x3b9aca00")) == Ok(1000000000)
  {
    var d4 := ['3', 'b', '9', 'a'];
    GweiHighDigits();
    var d5 := d4 + ['c'];
    var d6 := d5 + ['a'];
    var d7 := d6 + ['0'];
    var d8 := d7 + ['0'];
    ParseSnoc(d4, 'c');
    ParseSnoc(d5, 'a');
    ParseSnoc(d6, '0');
    ParseSnoc(d7, '0');
    assert "0x3b9aca00"[2..] == d8;
  }

  lemma GweiHighDigits()
    ensures AllDigits(['3', 'b', '9', 'a'], 16) && Parse(['3', 'b', '9', 'a'], 16) == 0x3b9a
  {
    var d1 := ['3'];
    var d2 := d1 + ['b'];
    var d3 := d2 + ['9'];
    ParseSnoc([], '3');
    assert [] + ['3'] == d1;
    ParseSnoc(d1, 'b');
    ParseSnoc(d2, '9');
    ParseSnoc(d3, 'a');
    assert d3 + ['a'] == ['3', 'b', '9', 'a'];
  }

  lemma ParseSnoc(s: string, c: char)
    requires AllDigits(s, 16) && IsDigit(c, 16)
    ensures AllDigits(s + [c], 16)
    ensures Parse(s + [c], 16) == Parse(s, 16) * 16 + HexDigitValue(c)
  {
    assert (s + [c])[..|s|] == s;
  }

  /** Unfolds `Parse` on every prefix of a literal. */
  lemma {:induction false} ParsePrefixes(s: string)
    requires AllDigits(s, 16)
    ensures forall k | 0 < k <= |s| :: Parse(s[..k], 16) == Parse(s[..k - 1], 16) * 16 + HexDigitValue(s[k - 1])
  {
    forall k | 0 < k <= |s|
      ensures Parse(s[..k], 16) == Parse(s[..k - 1], 16) * 16 + HexDigitValue(s[k - 1])
    {
      assert s[..k][..k - 1] == s[..k - 1];
    }
  }

  /** `asHexResult` accepts exactly an object whose `result` is a hex string,
      and yields that string's value. */
  lemma AsHexResultAccepts(raw: Value)
    ensures AsHexResult(raw).Ok? <==>
      raw.Object? && "result" in raw.fields && raw.fields["result"].Str? && IsHexLiteral(raw.fields["result"].s)
    ensures AsHexResult(raw).Ok? ==> AsHexResult(raw).value == Parse(raw.fields["result"].s[2..], 16)
  {
  }

  /** What one answer decodes to: a hex `result` gives its number; a body
      that is not an object fails the object check; an object or an array
      without `result` fails the hex check on `undefined`. */
  lemma DecodeAnswers(what: string, sourceName: string, n: nat)
    ensures Decode(what, sourceName, Received(Object(map["result" := Str("0x" + Hex(n))]))) == Ok(n)
    ensures forall v | !IsObject(v) :: Decode(what, sourceName, Received(v)) == Err(NotAnObject(v))
    ensures forall v: Value | (v.Object? && "result" !in v.fields) || v.Array? ::
      Decode(what, sourceName, Received(v)) == Err(NotHexString(Undefined))
  {
    AsHexRoundTrip(n);
  }

  // ---------------------------------------------------------------------------
  // The extractors

  /** A gas price answered as `0x` and hex digits becomes one metric carrying
      exactly that number. */
  lemma GasPriceDecodes(chain: string, sourceName: string, sourceUrl: string, net: Network, n: nat)
    requires net(GasPriceRequest(sourceUrl)).Received?
    requires Property(net(GasPriceRequest(sourceUrl)).json, "result") == Str("0x" + Hex(n))
    ensures GetRpcGasPrice(chain, sourceName, sourceUrl, net) == Ok(Metric("evm_gas_price_wei", n, chain, sourceName))
  {
    AsHexRoundTrip(n);
  }

  /** The gas price depends on the answer to the `eth_gasPrice` request alone. */
  lemma GasPriceAsksOnce(chain: string, sourceName: string, sourceUrl: string, net: Network, net': Network)
    requires net(GasPriceRequest(sourceUrl)) == net'(GasPriceRequest(sourceUrl))
    ensures GetRpcGasPrice(chain, sourceName, sourceUrl, net) == GetRpcGasPrice(chain, sourceName, sourceUrl, net')
  {
  }

  /** On success the fee oracle gives four metrics, in table order, carrying
      the chain and source; each is its own query's decoded answer. */
  lemma OptimismFeesShape(chain: string, sourceName: string, sourceUrl: string, net: Network)
    requires GetOptimismFees(chain, sourceName, sourceUrl, net).Ok?
    ensures var ms := GetOptimismFees(chain, sourceName, sourceUrl, net).value;
      |ms| == 4
      && ms[0].name == "evm_base_fee_wei" && ms[1].name == "evm_blob_base_fee_wei"
      && ms[2].name == "evm_base_fee_scalar" && ms[3].name == "evm_blob_base_fee_scalar"
      && (forall i | 0 <= i < 4 :: ms[i].chain == chain && ms[i].source == sourceName)
      && (forall i | 0 <= i < 4 ::
            ms[i].value == Decode(Queries[i].0, sourceName, net(OracleRequest(sourceUrl, Queries[i].1))).value)
  {
    var ms := GetOptimismFees(chain, sourceName, sourceUrl, net).value;
    forall i | 0 <= i < 4
      ensures ms[i] == Metric(Queries[i].0, Decode(Queries[i].0, sourceName, net(OracleRequest(sourceUrl, Queries[i].1))).value, chain, sourceName)
    {
      assert QueryMetric(Queries[i], chain, sourceName, sourceUrl, net).Ok?;
    }
  }

  /** All or nothing: the fees succeed exactly when all four answers decode. */
  lemma OptimismFeesAllOrNothing(chain: string, sourceName: string, sourceUrl: string, net: Network)
    ensures GetOptimismFees(chain, sourceName, sourceUrl, net).Ok? <==>
      forall i | 0 <= i < 4 :: Decode(Queries[i].0, sourceName, net(OracleRequest(sourceUrl, Queries[i].1))).Ok?
  {
    forall i | 0 <= i < 4
      ensures QueryMetric(Queries[i], chain, sourceName, sourceUrl, net).Ok?
          <==> Decode(Queries[i].0, sourceName, net(OracleRequest(sourceUrl, Queries[i].1))).Ok?
    {
    }
  }

  /** A status that is not ok on any one query fails the whole batch. */
  lemma OptimismFeesOneNotOk(chain: string, sourceName: string, sourceUrl: string, net: Network, i: nat)
    requires i < 4 && net(OracleRequest(sourceUrl, Queries[i].1)).NotOk?
    ensures GetOptimismFees(chain, sourceName, sourceUrl, net).Err?
  {
    OptimismFeesAllOrNothing(chain, sourceName, sourceUrl, net);
  }

  /** The fees depend on the answers to the four `eth_call` requests alone. */
  lemma OptimismFeesAsk(chain: string, sourceName: string, sourceUrl: string, net: Network, net': Network)
    requires forall i | 0 <= i < 4 :: net(OracleRequest(sourceUrl, Queries[i].1)) == net'(OracleRequest(sourceUrl, Queries[i].1))
    ensures GetOptimismFees(chain, sourceName, sourceUrl, net) == GetOptimismFees(chain, sourceName, sourceUrl, net')
  {
    QueryAllAsks(Queries, chain, sourceName, sourceUrl, net, net');
  }

  lemma {:induction false} QueryAllAsks(queries: seq<(string, string)>, chain: string, sourceName: string, sourceUrl: string, net: Network, net': Network)
    requires forall i | 0 <= i < |queries| :: net(OracleRequest(sourceUrl, queries[i].1)) == net'(OracleRequest(sourceUrl, queries[i].1))
    ensures QueryAll(queries, chain, sourceName, sourceUrl, net) == QueryAll(queries, chain, sourceName, sourceUrl, net')
    decreases |queries|
  {
    if queries != [] {
      assert net(OracleRequest(sourceUrl, queries[0].1)) == net'(OracleRequest(sourceUrl, queries[0].1));
      QueryAllAsks(queries[1..], chain, sourceName, sourceUrl, net, net');
    }
  }

  /** The requests: `eth_gasPrice` without parameters, and `eth_call` of a
      selector on the oracle contract at `latest`, all JSON-RPC 2.0 with id 1. */
  lemma RequestShapes(url: string, selector: string)
    ensures GasPriceRequest(url).body.fields["method"] == Str("eth_gasPrice")
    ensures GasPriceRequest(url).body.fields["params"] == Array([])
    ensures OracleRequest(url, selector).body.fields["method"] == Str("eth_call")
    ensures OracleRequest(url, selector).body.fields["params"]
         == Array([Object(map["to" := Str("0x420000000000000000000000000000000000000F"), "data" := Str(selector)]), Str("latest")])
    ensures forall r | r in {GasPriceRequest(url), OracleRequest(url, selector)} ::
      r.url == url && r.body.fields["jsonrpc"] == Str("2.0") && r.body.fields["id"] == Number(1)
  {
  }
}
