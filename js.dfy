/** The JavaScript values the collector handles (a parsed JSON-RPC response, or
    `undefined` for a property it does not have) and the exceptions it throws,
    as values. */
module Js {

  /** A JavaScript value as `response.json()` produces it, plus `undefined`.
      JSON numbers are modelled as integers: the collector never reads one. */
  datatype Value =
    | Undefined
    | Null
    | Bool(b: bool)
    | Number(n: int)
    | Str(s: string)
    | Array(items: seq<Value>)
    | Object(fields: map<string, Value>)

  /** `typeof raw === 'object' && raw !== null`: arrays pass too. */
  predicate IsObject(v: Value) {
    v.Array? || v.Object?
  }

  /** `raw[key]` for a key a parsed JSON body may carry as its own property,
      such as `result`: the object's own value, `undefined` otherwise.
      Inherited keys (`constructor`, `toString`) and an array's `length` and
      index keys are not modelled; the collector never reads them. */
  function Property(v: Value, key: string): (r: Value)
    ensures r != Undefined ==> v.Object? && key in v.fields && r == v.fields[key]
    ensures v.Object? && key in v.fields ==> r == v.fields[key]
  {
    if v.Object? && key in v.fields then v.fields[key] else Undefined
  }

  /** The exceptions thrown on the way from a fetch to a decoded number. */
  datatype Failure =
    | FetchRejected                            // fetch or response.json() rejected
    | StatusNotOk(what: string, source: string) // `Could not fetch ${what} from ${source}`
    | NotAnObject(raw: Value)                  // asObject's type check
    | NotHexString(raw: Value)                 // `Expected hex string, got: ...`

  /** A value, or the exception that was thrown instead. */
  datatype Result<+T> = Ok(value: T) | Err(error: Failure)
}
