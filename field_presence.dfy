/** The field-presence classifier shared by the generic validation panel, the
    unlock panel and the B3 letter rules: dotted-path lookup
    (`getNestedValue`), `a|b|c` alternatives (`isFieldPresent`) and the
    lookup that chooses what the result table shows for a field. */
module FieldPresence {
  import opened Results
  import opened Text
  import opened Json

  // ---------------------------------------------------------------------
  // Dotted paths

  /** What `getNestedValue` computes for a list of keys: each step needs a
      truthy object (an array or an object) and reads one property;
      anything else makes the whole lookup `undefined`. */
  function Resolve(v: Option<Json>, keys: seq<string>): Option<Json>
    decreases |keys|
  {
    if keys == [] then v
    else if IsObjectLike(v) then Resolve(Member(v.value, keys[0]), keys[1..])
    else None
  }

  /** `getNestedValue(obj, path)`: the keys are the `.`-separated pieces of the path. */
  function ResolvePath(obj: Json, path: string): Option<Json> {
    Resolve(Some(obj), Split(path, '.'))
  }

  /** `getNestedValue`: walks the keys, replacing the current value by its
      property, and gives up as soon as the current value is no object. */
  method GetNestedValue(obj: Json, path: string) returns (value: Option<Json>)
    ensures value == ResolvePath(obj, path)
  {
    var keys := Split(path, '.');
    value := Some(obj);
    var i := 0;
    while i < |keys|
      invariant 0 <= i <= |keys|
      invariant Resolve(value, keys[i..]) == ResolvePath(obj, path)
    {
      assert keys[i..][1..] == keys[i + 1..];
      if IsObjectLike(value) {
        value := Member(value.value, keys[i]);
      } else {
        return None;
      }
      i := i + 1;
    }
    assert keys[i..] == [];
  }

  /** Looking up a longer key list is looking up its first part, then the rest. */
  lemma {:induction false} ResolveAppend(v: Option<Json>, a: seq<string>, b: seq<string>)
    ensures Resolve(v, a + b) == Resolve(Resolve(v, a), b)
    decreases |a|
  {
    if a == [] {
      assert a + b == b;
    } else {
      assert (a + b)[0] == a[0];
      assert (a + b)[1..] == a[1..] + b;
      if IsObjectLike(v) {
        ResolveAppend(Member(v.value, a[0]), a[1..], b);
      } else {
        assert Resolve(None, b) == None by { ResolveOfNone(b); }
      }
    }
  }

  lemma {:induction false} ResolveOfNone(keys: seq<string>)
    ensures Resolve(None, keys) == None
    decreases |keys|
  {
    if keys != [] {
      ResolveOfNone(keys[1..]);
    }
  }

  /** Once a prefix of the path reaches `undefined`, `null`, a string, a
      number or a boolean, the lookup is `undefined`: it never fails. */
  lemma ResolveStopsAtNonObject(v: Option<Json>, keys: seq<string>, i: nat)
    requires i < |keys| && !IsObjectLike(Resolve(v, keys[..i]))
    ensures Resolve(v, keys) == None
  {
    ResolveAppend(v, keys[..i], keys[i..]);
    assert keys[..i] + keys[i..] == keys;
  }

  /** Conversely, a defined result was reached through objects only. */
  lemma ResolveThroughObjects(v: Option<Json>, keys: seq<string>, i: nat)
    requires i < |keys| && Resolve(v, keys).Some?
    ensures IsObjectLike(Resolve(v, keys[..i]))
  {
    if !IsObjectLike(Resolve(v, keys[..i])) {
      ResolveStopsAtNonObject(v, keys, i);
    }
  }

  /** A path without dots reads one property of an object or array document. */
  lemma FlatPath(obj: Json, key: string)
    requires '.' !in key
    ensures ResolvePath(obj, key) == if obj.JArr? || obj.JObj? then Member(obj, key) else None
  {
    SplitWithoutSeparator(key, '.');
    assert [key][1..] == [];
    assert Resolve(Member(obj, key), []) == Member(obj, key);
  }

  // ---------------------------------------------------------------------
  // Presence

  /** Not `undefined`, `null` or `""`: the test both the presence check and
      the display lookup apply first. */
  predicate Displayable(v: Option<Json>) {
    v.Some? && v.value != JNull && v.value != JStr("")
  }

  /** A value counts as present when it is displayable and, if it is an
      array, the array is not empty. */
  predicate IsPresentValue(v: Option<Json>) {
    Displayable(v) && !(v.value.JArr? && |v.value.items| == 0)
  }

  /** The alternatives of a field spec `a|b|c`. */
  function Alternatives(fieldSpec: string): (alts: seq<string>)
    ensures |alts| >= 1
  {
    Split(fieldSpec, '|')
  }

  /** A field spec is satisfied when one of its alternatives resolves to a
      present value. */
  predicate FieldPresent(doc: Json, fieldSpec: string) {
    exists k | 0 <= k < |Alternatives(fieldSpec)| :: IsPresentValue(ResolvePath(doc, Alternatives(fieldSpec)[k]))
  }

  /** `isFieldPresent`: tries the alternatives left to right and answers
      `true` at the first present one. */
  method IsFieldPresent(parsed: Json, fieldSpec: string) returns (present: bool)
    ensures present <==> FieldPresent(parsed, fieldSpec)
  {
    var alternatives := Split(fieldSpec, '|');
    assert alternatives == Alternatives(fieldSpec);
    for k := 0 to |alternatives|
      invariant forall j | 0 <= j < k :: !IsPresentValue(ResolvePath(parsed, alternatives[j]))
    {
      var value := GetNestedValue(parsed, alternatives[k]);
      if value.Some? && value.value != JNull && value.value != JStr("") {
        if value.value.JArr? {
          if |value.value.items| > 0 {
            assert IsPresentValue(ResolvePath(parsed, alternatives[k]));
            return true;
          }
        } else {
          assert IsPresentValue(ResolvePath(parsed, alternatives[k]));
          return true;
        }
      }
    }
    return false;
  }

  /** A spec without `|` is present exactly when its one path resolves to a present value. */
  lemma SingleAlternative(doc: Json, fieldSpec: string)
    requires '|' !in fieldSpec
    ensures FieldPresent(doc, fieldSpec) <==> IsPresentValue(ResolvePath(doc, fieldSpec))
  {
    SplitWithoutSeparator(fieldSpec, '|');
    assert Alternatives(fieldSpec)[0] == fieldSpec;
  }

  /** `a|b` is present exactly when `a` or `b` is. */
  lemma TwoAlternatives(doc: Json, a: string, b: string)
    requires '|' !in a && '|' !in b
    ensures FieldPresent(doc, a + "|" + b) <==> IsPresentValue(ResolvePath(doc, a)) || IsPresentValue(ResolvePath(doc, b))
  {
    AlternativesOfTwo(a, b);
    var alts := Alternatives(a + "|" + b);
    assert alts[0] == a && alts[1] == b;
  }

  lemma AlternativesOfTwo(a: string, b: string)
    requires '|' !in a && '|' !in b
    ensures Alternatives(a + "|" + b) == [a, b]
  {
    SplitJoin([a, b], '|');
    assert Join([a, b], "|") == a + "|" + b;
  }

  // ---------------------------------------------------------------------
  // What the result table shows

  /** The first alternative, from index `k` on, whose value is displayable. */
  function FirstDisplayable(doc: Json, alts: seq<string>, k: nat): (r: Option<nat>)
    requires k <= |alts|
    ensures r.Some? ==> k <= r.value < |alts| && Displayable(ResolvePath(doc, alts[r.value]))
    ensures r.Some? ==> forall j | k <= j < r.value :: !Displayable(ResolvePath(doc, alts[j]))
    ensures r.None? ==> forall j | k <= j < |alts| :: !Displayable(ResolvePath(doc, alts[j]))
    decreases |alts| - k
  {
    if k == |alts| then None
    else if Displayable(ResolvePath(doc, alts[k])) then Some(k)
    else FirstDisplayable(doc, alts, k + 1)
  }

  /** The display lookup: the field that was found (the first alternative
      by default) and its value (`undefined` when none is displayable). */
  method DisplayMatch(doc: Json, fieldSpec: string) returns (actualField: string, value: Option<Json>)
    ensures var alts := Alternatives(fieldSpec);
      match FirstDisplayable(doc, alts, 0)
      case Some(k) => actualField == alts[k] && value == ResolvePath(doc, alts[k])
      case None => actualField == alts[0] && value == None
  {
    var alternatives := Split(fieldSpec, '|');
    value := None;
    actualField := alternatives[0];
    var k := 0;
    while k < |alternatives|
      invariant 0 <= k <= |alternatives|
      invariant FirstDisplayable(doc, alternatives, 0) == FirstDisplayable(doc, alternatives, k)
      invariant value == None && actualField == alternatives[0]
    {
      var fieldValue := GetNestedValue(doc, alternatives[k]);
      if fieldValue.Some? && fieldValue.value != JNull && fieldValue.value != JStr("") {
        value := fieldValue;
        actualField := alternatives[k];
        break;
      }
      k := k + 1;
    }
  }

  /** The text shown for a value: the dash placeholder for `undefined`,
      `null` and `""`, the pretty-printed JSON (`stringify`) for arrays,
      objects and numbers, the string itself, and `true`/`false`. */
  function DisplayValue(value: Option<Json>, stringify: Json -> string): (text: string)
    ensures !Displayable(value) ==> text == "—"
    ensures Displayable(value) && value.value.JStr? ==> text == value.value.s
    ensures Displayable(value) && (value.value.JArr? || value.value.JObj?) ==> text == stringify(value.value)
    ensures Displayable(value) && value.value.JBool? ==> text == (if value.value.b then "true" else "false")
  {
    if !Displayable(value) then "—"
    else
      var v := value.value;
      match v
      case JStr(s) => s
      case JBool(b) => if b then "true" else "false"
      case _ => stringify(v)
  }

  /** When the printer never writes the dash (JSON text never does), the
      cell shows the dash exactly when nothing displayable was found or the
      value is the string `"—"` itself. */
  lemma DisplayPlaceholderIff(value: Option<Json>, stringify: Json -> string)
    requires forall j :: stringify(j) != "—"
    ensures DisplayValue(value, stringify) == "—" <==> !Displayable(value) || value == Some(JStr("—"))
  {
  }

  /** When the printer never writes empty text, no cell of the table is blank. */
  lemma DisplayValueNeverEmpty(value: Option<Json>, stringify: Json -> string)
    requires forall j :: stringify(j) != ""
    ensures DisplayValue(value, stringify) != ""
  {
  }

  /** The field name shown: the alternatives joined by `" OR "`, or the spec itself. */
  function DisplayName(fieldSpec: string): string {
    var alts := Alternatives(fieldSpec);
    if |alts| > 1 then Join(alts, " OR ") else fieldSpec
  }

  lemma DisplayNameSingle(fieldSpec: string)
    requires '|' !in fieldSpec
    ensures DisplayName(fieldSpec) == fieldSpec
  {
    SplitWithoutSeparator(fieldSpec, '|');
  }

  /** `a|b` is shown as `a OR b`. */
  lemma DisplayNameOfTwo(a: string, b: string)
    requires '|' !in a && '|' !in b
    ensures DisplayName(a + "|" + b) == a + " OR " + b
  {
    AlternativesOfTwo(a, b);
    assert [a, b][1..] == [b];
    assert Join([a, b], " OR ") == a + " OR " + Join([b], " OR ");
  }

  /** The "Found:" line appears for a present multi-alternative field with a
      non-empty found name. */
  predicate ShowsFound(isPresent: bool, actualField: string, alts: seq<string>) {
    isPresent && actualField != "" && |alts| > 1
  }

  /** Every present field has a displayable alternative, so the "Found:"
      line names a displayable alternative; a field with nothing
      displayable is absent. */
  lemma PresentIsDisplayable(doc: Json, fieldSpec: string)
    ensures FieldPresent(doc, fieldSpec) ==> FirstDisplayable(doc, Alternatives(fieldSpec), 0).Some?
  {
    var alts := Alternatives(fieldSpec);
    if FieldPresent(doc, fieldSpec) {
      var k :| 0 <= k < |alts| && IsPresentValue(ResolvePath(doc, alts[k]));
      assert Displayable(ResolvePath(doc, alts[k]));
    }
  }

  /** The display lookup accepts an empty array while presence does not:
      with `[]` under the first alternative and a present value under the
      second, the field is present, yet the table shows the empty array
      found under the first alternative. */
  lemma DisplayDivergesFromPresence(doc: Json, a: string, b: string)
    requires '|' !in a && '|' !in b
    requires ResolvePath(doc, a) == Some(JArr([]))
    requires IsPresentValue(ResolvePath(doc, b))
    ensures FieldPresent(doc, a + "|" + b)
    ensures !IsPresentValue(ResolvePath(doc, a))
    ensures FirstDisplayable(doc, Alternatives(a + "|" + b), 0) == Some(0)
  {
    TwoAlternatives(doc, a, b);
    AlternativesOfTwo(a, b);
  }
}
