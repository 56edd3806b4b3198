/**
 * Chrome's bookmark timestamps: decimal microseconds since 1601-01-01T00:00Z,
 * converted to millisecond time values (server/bookmarks.js, `chromeTimestampToDate`).
 */
module ChromeTime {
  import opened Options
  import opened Json
  import opened Strings
  import opened Civil
  import opened IsoTime

  /** `Date.UTC(1601, 0, 1)`. */
  const ChromeEpochMs: int := -11644473600000

  /**
   * Integers at or beyond this magnitude round to an infinite double: it is
   * 2^1024 - 2^970, the midpoint between the largest double (2^1024 - 2^971)
   * and 2^1024, where round-half-to-even goes up.
   */
  const InfinityThreshold: int :=
    179769313486231580793728971405303415079934132710037826936173778980444968292764750946649017977587207096330286416692887910946555547851940402630657488671505820681908902000708383676273854845817711531764475730270069855571366959622842914819860834936475292719074168444365510704342711559699508093042880177904174497792

  /**
   * `Number(v)` before rounding to a double, None for NaN.  An array reads
   * as the text `join(',')` gives: the empty text for `[]` and `[null]`, the
   * element's own text for one element, and a text with a comma (NaN) for
   * more.  An object prints as `[object Object]`.
   */
  function NumberOf(v: Json): Option<int>
    decreases v
  {
    match v
    case JNull => Some(0)
    case JBool(b) => Some(if b then 1 else 0)
    case JNum(n) => Some(n)
    case JStr(s) => JsNumber(s)
    case JArr(es) =>
      if es == [] then Some(0)
      else if |es| > 1 then None
      else (match es[0]
            case JNull => Some(0)
            case JBool(_) => None
            case JObj(_) => None
            case _ => NumberOf(es[0]))
    case JObj(_) => None
  }

  /** `Number(v)` when it is finite; NaN and the infinities are None. */
  function FiniteNumber(v: Json): Option<int> {
    var n := NumberOf(v);
    if n.Some? && -InfinityThreshold < n.value < InfinityThreshold then n else None
  }

  /**
   * `chromeTimestampToDate`: the time value of a Chrome timestamp, or None
   * ("no date") for a falsy value, `"0"`, a non-finite or a non-positive number.
   * The time value is not yet range-checked: a `Date` built from a value
   * outside InTimeRange is an invalid date.
   */
  function ChromeTimestampToDate(value: Option<Json>): Option<int> {
    if !TruthyOpt(value) || value == Some(JStr("0")) then None
    else
      match FiniteNumber(value.value)
      case None => None
      case Some(n) => if n <= 0 then None else Some(ChromeEpochMs + n / 1000)
  }

  /** The epoch constant is midnight UTC on 1 January 1601. */
  lemma ChromeEpochIs1601()
    ensures ChromeEpochMs == DaysFromCivil(Date(1601, 1, 1)) * MsPerDay
  {
  }

  /** The rejected inputs, each of which yields "no date" rather than an error. */
  lemma NoDateCases(value: Option<Json>)
    ensures value.None? ==> ChromeTimestampToDate(value).None?
    ensures value == Some(JNull) || value == Some(JBool(false)) || value == Some(JNum(0))
      ==> ChromeTimestampToDate(value).None?
    ensures value == Some(JStr("")) || value == Some(JStr("0")) ==> ChromeTimestampToDate(value).None?
    ensures value.Some? && FiniteNumber(value.value).None? ==> ChromeTimestampToDate(value).None?
    ensures value.Some? && FiniteNumber(value.value).Some? && FiniteNumber(value.value).value <= 0
      ==> ChromeTimestampToDate(value).None?
  {
  }

  /**
   * A date is the epoch plus the timestamp truncated to whole milliseconds:
   * the unique `ms` with `1000 * (ms - epoch) <= v < 1000 * (ms - epoch + 1)`.
   */
  lemma TimestampTruncates(value: Option<Json>)
    requires ChromeTimestampToDate(value).Some?
    ensures var n := FiniteNumber(value.value).value;
            var ms := ChromeTimestampToDate(value).value;
            n > 0 && 1000 * (ms - ChromeEpochMs) <= n < 1000 * (ms - ChromeEpochMs + 1)
    ensures ChromeTimestampToDate(value).value >= ChromeEpochMs
  {
  }

  /** Later timestamps never give earlier dates. */
  lemma TimestampMonotone(a: Option<Json>, b: Option<Json>)
    requires ChromeTimestampToDate(a).Some? && ChromeTimestampToDate(b).Some?
    requires FiniteNumber(a.value).value <= FiniteNumber(b.value).value
    ensures ChromeTimestampToDate(a).value <= ChromeTimestampToDate(b).value
  {
    var na, nb := FiniteNumber(a.value).value, FiniteNumber(b.value).value;
    MulDivMonotone(na, nb);
  }

  lemma MulDivMonotone(x: int, y: int)
    requires 0 <= x <= y
    ensures x / 1000 <= y / 1000
  {
  }

  /** A date from a valid timestamp is never before 1601 and so only range-fails above. */
  lemma TimestampLowerBound(value: Option<Json>)
    requires ChromeTimestampToDate(value).Some?
    ensures ChromeTimestampToDate(value).value > -MaxTimeMs
  {
  }

  /**
   * A timestamp wrapped in a one-element array converts as the bare value
   * (booleans aside, whose texts `true`/`false` are NaN); an empty array or
   * one with several elements gives no date.
   */
  lemma ArrayTimestamps(v: Json, es: seq<Json>)
    ensures !v.JBool? ==> ChromeTimestampToDate(Some(JArr([v]))) == ChromeTimestampToDate(Some(v))
    ensures v.JBool? ==> ChromeTimestampToDate(Some(JArr([v]))).None?
    ensures |es| != 1 ==> ChromeTimestampToDate(Some(JArr(es))).None?
  {
    var a := JArr([v]);
    assert a.elems[0] == v;
    if !v.JBool? {
      assert NumberOf(a) == (if v.JNull? then Some(0) else NumberOf(v));
      if v == JStr("0") {
        assert JsNumber("0") == Some(0);
      }
    }
  }

  /** The Unix epoch, 11644473600000000 microseconds after Chrome's, is time value 0. */
  lemma UnixEpochExample()
    ensures ChromeTimestampToDate(Some(JNum(11644473600000000))) == Some(0)
  {
  }
}
