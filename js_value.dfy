/** Plain JavaScript data as the effect code reads it: the values a dotted
    property lookup can reach, their `String(...)` form, `Number.isNumeric`
    on them, and Foundry's `getProperty(object, "a.b.c")`. */
module JsValue {
  import opened Results
  import opened JsString
  import opened JsNumber

  /** A JSON-like value; `None` of `Option<Json>` stands for `undefined`. */
  datatype Json = JNull | JBool(b: bool) | JNum(n: int) | JStr(s: string) | JObj(fields: map<string, Json>)

  /** `String(v)`. */
  function ToJsString(v: Option<Json>): string
  {
    match v
    case None => "undefined"
    case Some(JNull) => "null"
    case Some(JBool(b)) => if b then "true" else "false"
    case Some(JNum(n)) => IntToString(n)
    case Some(JStr(s)) => s
    case Some(JObj(_)) => "[object Object]"
  }

  /** `Number.isNumeric(v)`: false for `undefined` and `null`, and
      otherwise whether `Number(v)` is not NaN (a boolean converts to 0 or
      1, `""` to 0, an object to NaN). */
  predicate IsNumeric(v: Option<Json>)
  {
    match v
    case None => false
    case Some(JNull) => false
    case Some(JBool(_)) => true
    case Some(JNum(_)) => true
    case Some(JStr(s)) => IsNumericString(s)
    case Some(JObj(_)) => false
  }

  /** `parseInt(v)`: the value is first converted to a string, so
      `undefined`, `null`, a boolean and an object all give NaN. */
  function ParseIntOf(v: Option<Json>): (r: Num)
    ensures v.None? || !(v.value.JNum? || v.value.JStr?) ==> r.NaN?
  {
    assert v.None? || !(v.value.JNum? || v.value.JStr?) ==> ParseInt(ToJsString(v)).NaN? by {
      if v.None? || !(v.value.JNum? || v.value.JStr?) {
        ParseIntOfNonDigit(ToJsString(v));
      }
    }
    ParseInt(ToJsString(v))
  }

  /** Apart from a boolean (which `Number` turns into 0 or 1), a value is
      numeric exactly when its string form is. */
  lemma IsNumericOfString(v: Option<Json>)
    ensures v.None? || !v.value.JBool? ==> (IsNumeric(v) <==> IsNumericString(ToJsString(v)))
  {
    match v
    case None => NotNumericByFirstChar("undefined");
    case Some(JNull) => NotNumericByFirstChar("null");
    case Some(JBool(_)) =>
    case Some(JNum(n)) => IntToStringIsNumeric(n);
    case Some(JStr(_)) =>
    case Some(JObj(_)) => NotNumericByFirstChar("[object Object]");
  }

  /** A number is numeric and `parseInt` gives it back. */
  lemma NumberParsesToItself(n: int)
    ensures IsNumeric(Some(JNum(n)))
    ensures ParseIntOf(Some(JNum(n))) == Int(n)
  {
    ParseIntOfIntToString(n);
  }

  /** A boolean is numeric for `Number.isNumeric`, yet `parseInt` gives NaN. */
  lemma BooleanIsNumericButParsesToNaN(b: bool)
    ensures IsNumeric(Some(JBool(b)))
    ensures ParseIntOf(Some(JBool(b))) == NaN
  {
    var s := ToJsString(Some(JBool(b)));
    assert TrimStart(s) == s;
    assert DropSign(s) == s;
    assert !HasHexPrefix(s);
    assert DigitPrefix(s, 10) == [];
  }

  /** Following the segments of a dotted path through nested objects. */
  function Walk(v: Json, path: seq<string>): (r: Option<Json>)
    ensures path == [] ==> r == Some(v)
    decreases |path|
  {
    if path == [] then Some(v)
    else match v
      case JObj(fields) => if path[0] in fields then Walk(fields[path[0]], path[1..]) else None
      case _ => None
  }

  /** Foundry's `getProperty(object, key)`: `undefined` for an empty key,
      otherwise the value reached by the dot-separated segments of the key,
      or `undefined` as soon as a segment is missing or the value reached is
      not an object. */
  function GetProperty(obj: Json, key: string): (r: Option<Json>)
    ensures key == "" ==> r.None?
  {
    if key == "" then None else Walk(obj, Split(key, '.'))
  }

  /** Looking up the dotted join of dot-free segments follows exactly those segments. */
  lemma GetPropertyOfPath(obj: Json, segments: seq<string>)
    requires |segments| >= 1 && Join(segments, '.') != ""
    requires forall k :: 0 <= k < |segments| ==> '.' !in segments[k]
    ensures GetProperty(obj, Join(segments, '.')) == Walk(obj, segments)
  {
    SplitJoin(segments, '.');
  }

  /** A walk of two consecutive paths is a walk of the first, then of the second. */
  lemma {:induction false} WalkAppend(v: Json, p: seq<string>, q: seq<string>)
    ensures Walk(v, p + q) == if Walk(v, p).Some? then Walk(Walk(v, p).value, q) else None
    decreases |p|
  {
    if p == [] {
      assert p + q == q;
    } else {
      assert (p + q)[0] == p[0];
      assert (p + q)[1..] == p[1..] + q;
      match v
      case JObj(fields) =>
        if p[0] in fields {
          WalkAppend(fields[p[0]], p[1..], q);
        }
      case _ =>
    }
  }
}
