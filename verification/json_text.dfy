/**
 * The JavaScript library calls the editor depends on, kept abstract: the
 * model never re-implements a JSON parser, serializer or number reader.
 */
module JsonText {
  import opened Wrappers
  import opened JsonValue

  /**
   * The runtime's text conversions:
   * - `parse`: `JSON.parse`, failing with the thrown error's message;
   * - `stringify`: `JSON.stringify(v)`;
   * - `stringifyIndented`: `JSON.stringify(v, null, 2)`;
   * - `toNumber`: `Number(s)`, `None` when the result is NaN (`isNaN(s)`).
   */
  datatype JsRuntime = JsRuntime(
    parse: string -> Result<Value>,
    stringify: Value -> string,
    stringifyIndented: Value -> string,
    toNumber: string -> Option<real>)

  /** `JSON.parse(JSON.stringify(v))` gives back `v`. */
  predicate RoundTrips(rt: JsRuntime, v: Value) {
    rt.parse(rt.stringify(v)) == Success(v)
  }

  /**
   * The deep clone `JSON.parse(JSON.stringify(v))`: it gives `v` back exactly
   * when `v` round-trips (a non-finite number, for one, comes back as null).
   */
  function Clone(rt: JsRuntime, v: Value): (r: Result<Value>)
    ensures r == Success(v) <==> RoundTrips(rt, v)
    ensures ParsesWellFormed(rt) && r.Success? ==> WellFormed(r.value)
  {
    rt.parse(rt.stringify(v))
  }

  /** The indented text of `v` is non-empty and parses back to `v`. */
  predicate IndentedRoundTrips(rt: JsRuntime, v: Value) {
    rt.stringifyIndented(v) != "" && rt.parse(rt.stringifyIndented(v)) == Success(v)
  }

  /** Every value the parser returns has unique object keys. */
  ghost predicate ParsesWellFormed(rt: JsRuntime) {
    forall t :: rt.parse(t).Success? ==> WellFormed(rt.parse(t).value)
  }

  /** The parser either rejects `t` or reads it as `v` (it never reads a keyword as something else). */
  predicate ParsesAs(rt: JsRuntime, t: string, v: Value) {
    rt.parse(t).Failure? || rt.parse(t) == Success(v)
  }
}
