/**
 * The leaf text coercion of `JsonNode.saveEditValue`: typed text becomes a
 * JSON value and is never rejected.
 */
module Coercion {
  import opened Wrappers
  import opened JsonValue
  import opened JsonText
  import opened Text

  /** The keyword fallbacks tried when `JSON.parse` throws. */
  function KeywordValue(text: string): (r: Option<Value>)
    ensures r.Some? <==> text in {"true", "false", "null"}
  {
    if text == "true" then Some(Bool(true))
    else if text == "false" then Some(Bool(false))
    else if text == "null" then Some(Null)
    else None
  }

  /** `!isNaN(text) && text.trim() !== ""`: the text reads as a number and is not blank. */
  predicate LooksNumeric(rt: JsRuntime, text: string)
    ensures LooksNumeric(rt, text) <==> rt.toNumber(text).Some? && !IsBlank(text)
  {
    TrimEmptyIffBlank(text);
    rt.toNumber(text).Some? && Trim(text) != ""
  }

  /**
   * The value a confirmed edit produces: the parsed JSON when the text parses;
   * otherwise a keyword, then a number, and as a last resort the text itself
   * as a string.
   */
  function Coerce(rt: JsRuntime, text: string): (r: Value)
    ensures rt.parse(text).Success? ==> r == rt.parse(text).value
    ensures r.Str? ==> r == Str(text) || rt.parse(text) == Success(r)
    ensures r.Number? ==> rt.parse(text) == Success(r) || rt.toNumber(text) == Some(r.n)
    ensures IsBlank(text) && rt.parse(text).Failure? ==> r == Str(text)
    ensures ParsesWellFormed(rt) ==> WellFormed(r)
  {
    match rt.parse(text)
    case Success(v) => v
    case Failure(_) =>
      match KeywordValue(text)
      case Some(k) =>
        assert !IsWhitespace(text[0]);
        k
      case None =>
        if LooksNumeric(rt, text) then Number(rt.toNumber(text).value)
        else
          TrimEmptyIffBlank(text);
          Str(text)
  }

  /**
   * "true", "false" and "null" become Bool/Bool/Null whichever branch reads
   * them, as long as the parser does not read them as something else.
   */
  lemma CoerceKeywords(rt: JsRuntime, text: string)
    requires ParsesAs(rt, "true", Bool(true))
    requires ParsesAs(rt, "false", Bool(false))
    requires ParsesAs(rt, "null", Null)
    requires text in {"true", "false", "null"}
    ensures Coerce(rt, text) == KeywordValue(text).value
  {
  }

  /** Text the parser rejects but `Number` reads, and which is not blank, becomes that number. */
  lemma CoerceNumeric(rt: JsRuntime, text: string, n: real)
    requires rt.parse(text).Failure? && text !in {"true", "false", "null"}
    requires rt.toNumber(text) == Some(n) && !IsBlank(text)
    ensures Coerce(rt, text) == Number(n)
  {
    TrimEmptyIffBlank(text);
  }

  /** Everything else is kept verbatim as a string: coercion never rejects an input. */
  lemma CoerceVerbatim(rt: JsRuntime, text: string)
    requires rt.parse(text).Failure? && text !in {"true", "false", "null"}
    requires rt.toNumber(text).None? || IsBlank(text)
    ensures Coerce(rt, text) == Str(text)
  {
    TrimEmptyIffBlank(text);
  }
}
