/** What the document-type rule packs share: the rule record they show,
    the `doc_type` gate, and the JavaScript idioms their checks are built
    from (`x || "—"`, `x && x.trim() !== ""`). */
module ValidationRules {
  import opened Results
  import opened Text
  import opened Json

  /** One line of a rule's extracted data; the value may be `undefined`. */
  datatype Entry = Entry(key: string, value: Option<Json>)

  /** A checked rule: its name, verdict, message and, optionally, the data
      it extracted for display. */
  datatype Rule = Rule(name: string, isValid: bool, message: string, extractedData: Option<seq<Entry>>)

  /** The dash shown in place of a missing value. */
  const Dash: Json := JStr("—")

  /** `data?.doc_type`. */
  function DocType(data: Json): Option<Json> {
    Field(Some(data), "doc_type")
  }

  /** `v || fallback`. */
  function Or(v: Option<Json>, fallback: Json): (r: Json)
    ensures Truthy(v) ==> r == v.value
    ensures !Truthy(v) ==> r == fallback
  {
    if Truthy(v) then v.value else fallback
  }

  /** `v || fallback` is truthy exactly when one of the two is, and it is
      the fallback whenever `v` is missing. */
  lemma OrTruthy(v: Option<Json>, fallback: Json)
    ensures Truthy(Some(Or(v, fallback))) <==> Truthy(v) || Truthy(Some(fallback))
    ensures v.None? ==> Or(v, fallback) == fallback
  {
  }

  /** A truthy value is a string. The checks call `.trim()` on a value as
      soon as it is truthy, so they rely on this to run without throwing. */
  predicate StringIfTruthy(v: Option<Json>) {
    Truthy(v) ==> v.value.JStr?
  }

  /** `v && v.trim() !== ""`, for a value that is a string whenever it is truthy. */
  predicate NonBlank(v: Option<Json>)
    requires StringIfTruthy(v)
  {
    Truthy(v) && Trim(v.value.s) != ""
  }

  /** A non-blank value is a string with a character that is not whitespace. */
  lemma NonBlankIff(v: Option<Json>)
    requires StringIfTruthy(v)
    ensures NonBlank(v) <==> v.Some? && v.value.JStr? && !AllWhitespace(v.value.s)
  {
    if v.Some? && v.value.JStr? {
      TrimEmptyIff(v.value.s);
    }
  }

  /** `rules.filter(v => v.isValid).length`. */
  function ValidCount(rules: seq<Rule>): (n: nat)
    ensures n <= |rules|
  {
    if rules == [] then 0 else (if rules[0].isValid then 1 else 0) + ValidCount(rules[1..])
  }

  /** `rules.every(v => v.isValid)`. */
  predicate AllValid(rules: seq<Rule>) {
    forall i | 0 <= i < |rules| :: rules[i].isValid
  }

  /** Every rule holds exactly when all of them are counted as valid. */
  lemma {:induction false} AllValidIffCount(rules: seq<Rule>)
    ensures AllValid(rules) <==> ValidCount(rules) == |rules|
  {
    if rules != [] {
      AllValidIffCount(rules[1..]);
      assert AllValid(rules) <==> rules[0].isValid && AllValid(rules[1..]) by {
        if rules[0].isValid && AllValid(rules[1..]) {
          forall i | 0 <= i < |rules|
            ensures rules[i].isValid
          {
            if i > 0 {
              assert rules[i] == rules[1..][i - 1];
            }
          }
        }
      }
    }
  }

  function Keys(entries: seq<Entry>): (keys: seq<string>)
    ensures |keys| == |entries|
  {
    seq(|entries|, i requires 0 <= i < |entries| => entries[i].key)
  }
}
