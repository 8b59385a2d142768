/**
 * The two helpers db.js runs every value through before binding it to a SQL
 * parameter: `safe` (backend/db.js:153) and `safeInt` (backend/db.js:154).
 */
module SqlArgs {

  import opened Wrappers
  import opened JsText

  /** The JavaScript values that reach the helpers (numbers are integers here). */
  datatype JsValue = JsNull | JsUndefined | JsBool(b: bool) | JsNumber(n: int) | JsString(s: string)

  /** The result of `safeInt`: `null`, an integer, or NaN. */
  datatype IntParam = NullParam | IntParam(n: int) | NaNParam

  /**
   * `safe(val)`: null and undefined become SQL NULL (None), booleans become 1/0,
   * everything else is bound as it is.
   */
  function Safe(v: JsValue): (r: Option<JsValue>)
    ensures r.None? <==> v.JsNull? || v.JsUndefined?
    ensures r.Some? ==> !r.value.JsBool? && !r.value.JsNull? && !r.value.JsUndefined?
    ensures v.JsBool? ==> r == Some(JsNumber(if v.b then 1 else 0))
    ensures v.JsNumber? || v.JsString? ==> r == Some(v)
  {
    match v
    case JsNull => None
    case JsUndefined => None
    case JsBool(b) => Some(JsNumber(if b then 1 else 0))
    case _ => Some(v)
  }

  /** `safe` is idempotent: a value it has already bound passes through unchanged. */
  lemma SafeIdempotent(v: JsValue)
    requires Safe(v).Some?
    ensures Safe(Safe(v).value) == Safe(v)
  {
  }

  /** The text `parseInt` sees for a value: `String(val)`. */
  function JsToString(v: JsValue): string {
    match v
    case JsNull => "null"
    case JsUndefined => "undefined"
    case JsBool(b) => if b then "true" else "false"
    case JsNumber(n) => IntToString(n)
    case JsString(s) => s
  }

  /** What `parseInt` gives, as a parameter: NaN when no digit could be read. */
  function FromParse(parsed: Option<int>): IntParam {
    match parsed
    case None => NaNParam
    case Some(n) => IntParam(n)
  }

  /**
   * `safeInt(val)`: null, undefined and the empty string become null; anything
   * else is `parseInt(val, 10)` (see `SafeIntIsParseInt`). The cases are
   * resolved per kind of value: an integer reads back as itself and a boolean's
   * text has no digit.
   */
  function SafeInt(v: JsValue): (r: IntParam)
    ensures r.NullParam? <==> v.JsNull? || v.JsUndefined? || v == JsString("")
    ensures v.JsNumber? ==> r == IntParam(v.n)
    ensures v.JsBool? ==> r == NaNParam
  {
    match v
    case JsNull => NullParam
    case JsUndefined => NullParam
    case JsBool(_) => NaNParam
    case JsNumber(n) => IntParam(n)
    case JsString(s) => if s == "" then NullParam else FromParse(ParseInt(s))
  }

  /** Every value `safeInt` does not turn into null is bound as `parseInt(String(val), 10)`. */
  lemma SafeIntIsParseInt(v: JsValue)
    requires !(v.JsNull? || v.JsUndefined? || v == JsString(""))
    ensures SafeInt(v) == FromParse(ParseInt(JsToString(v)))
  {
    match v
    case JsNumber(n) => ParseIntRoundTrip(n);
    case JsBool(b) => ParseIntOfLetter(JsToString(v));
    case JsString(_) =>
  }

  /** A decimal string and the number it spells bind the same way. */
  lemma SafeIntOfRendering(n: int)
    ensures SafeInt(JsString(IntToString(n))) == SafeInt(JsNumber(n)) == IntParam(n)
  {
    ParseIntRoundTrip(n);
  }

  /**
   * What SQLite receives: NaN is stored as NULL, so a NaN parameter matches no
   * row in `WHERE id = ?` and leaves a `COALESCE(?, col)` column unchanged.
   */
  function AsSqlInt(p: IntParam): (r: Option<int>)
    ensures r.Some? <==> p.IntParam?
  {
    if p.IntParam? then Some(p.n) else None
  }

  /** `COALESCE(?, col)`: a NULL parameter keeps the stored value. */
  function Coalesce<T>(param: Option<T>, stored: T): (r: T)
    ensures param.None? ==> r == stored
    ensures param.Some? ==> r == param.value
  {
    param.GetOr(stored)
  }
}
