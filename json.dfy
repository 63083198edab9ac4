/** A parsed JSON document as JavaScript sees it after `JSON.parse`, with
    the three JavaScript notions the engine leans on: truthiness, the
    `value && typeof value === "object"` test, and property access `v[key]`.
    `undefined` (an absent property) is `None`. */
module Json {
  import opened Results
  import opened Text

  /** Numbers matter only through their truthiness (zero or not). */
  datatype Json =
    | JNull
    | JBool(b: bool)
    | JNum(n: real)
    | JStr(s: string)
    | JArr(items: seq<Json>)
    | JObj(fields: map<string, Json>)

  /** The empty object `{}`. */
  const EmptyObject: Json := JObj(map[])

  /** JavaScript truthiness: `undefined`, `null`, `false`, `0` and `""` are falsy. */
  predicate Truthy(v: Option<Json>) {
    match v
    case None => false
    case Some(JNull) => false
    case Some(JBool(b)) => b
    case Some(JNum(n)) => n != 0.0
    case Some(JStr(s)) => s != ""
    case Some(_) => true
  }

  /** `v && typeof v === "object"`: an array or an object (null is falsy). */
  predicate IsObjectLike(v: Option<Json>) {
    v.Some? && (v.value.JArr? || v.value.JObj?)
  }

  /** The array index a property key denotes: a canonical decimal numeral
      (no leading zero) below 2^32 - 1. */
  function IndexKey(key: string): (r: Option<nat>)
    ensures r.Some? ==> DecimalString(r.value) == key
  {
    if |key| >= 1 && AllDigits(key) && (|key| == 1 || key[0] != '0')
       && DecimalValue(key) < 0xFFFF_FFFF
    then
      CanonicalDecimal(key);
      Some(DecimalValue(key))
    else None
  }

  /** A canonical numeral is the decimal rendering of its value. */
  lemma {:induction false} CanonicalDecimal(key: string)
    requires |key| >= 1 && AllDigits(key) && (|key| == 1 || key[0] != '0')
    ensures DecimalString(DecimalValue(key)) == key
  {
    if |key| > 1 {
      var front := key[..|key| - 1];
      assert AllDigits(front);
      assert front[0] == key[0];
      CanonicalDecimal(front);
      var d := key[|key| - 1] as int - '0' as int;
      var n := DecimalValue(key);
      assert DecimalValue(front) >= 1 by { LeadingDigitPositive(front); }
      assert n / 10 == DecimalValue(front) && n % 10 == d;
      assert DigitChar(d) == key[|key| - 1];
      assert front + [key[|key| - 1]] == key;
    }
  }

  lemma {:induction false} LeadingDigitPositive(s: string)
    requires |s| >= 1 && AllDigits(s) && s[0] != '0'
    ensures DecimalValue(s) >= 1
  {
    if |s| > 1 {
      var front := s[..|s| - 1];
      assert front[0] == s[0];
      LeadingDigitPositive(front);
    }
  }

  /** Property access `v[key]` on an array or object: an own key of an
      object, an in-range index or `length` of an array; anything else is
      `undefined`. Inherited prototype members are not modelled. */
  function Member(v: Json, key: string): Option<Json> {
    match v
    case JObj(fields) => if key in fields then Some(fields[key]) else None
    case JArr(items) =>
      if key == "length" then Some(JNum(|items| as real))
      else (
        match IndexKey(key)
        case Some(i) => if i < |items| then Some(items[i]) else None
        case None => None)
    case _ => None
  }

  /** Property access with a fixed, non-numeric name on a possibly absent
      value (`v?.name`): only objects have such a property. */
  function Field(v: Option<Json>, name: string): Option<Json> {
    if v.Some? && v.value.JObj? && name in v.value.fields then Some(v.value.fields[name]) else None
  }

  /** Replacing one entry of an object leaves every other field as it was. */
  lemma FieldOfUpdate(fields: map<string, Json>, key: string, value: Json, name: string)
    requires name != key
    ensures Field(Some(JObj(fields[key := value])), name) == Field(Some(JObj(fields)), name)
  {
  }

  /** Every array element is reachable through the decimal rendering of its index. */
  lemma MemberAtIndex(items: seq<Json>, i: nat)
    requires i < |items| && i < 0xFFFF_FFFF
    ensures Member(JArr(items), DecimalString(i)) == Some(items[i])
  {
    var key := DecimalString(i);
    DecimalRoundTrip(i);
    assert key != "length" by { assert IsDigit(key[0]); }
  }
}
