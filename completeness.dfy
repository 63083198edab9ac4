/** The verdict both panels reach once the document is parsed: the
    required field specs are split into present and missing ones, in
    declaration order, and the split is reduced to success, partial or
    error with a message. */
module Completeness {
  import opened Text
  import opened Json
  import opened FieldPresence

  /** The verdict of a validation (the panels' initial `idle` state is the
      absence of a result). */
  datatype Status = Success | Partial | Error

  datatype ValidationResult = ValidationResult(
    status: Status,
    message: string,
    missingFields: seq<string>,
    presentFields: seq<string>,
    formattedJson: string,
    extractedData: Json)

  const AllPresentMessage := "Todos os campos obrigatórios estão presentes!"
  const NonePresentMessage := "Nenhum campo obrigatório encontrado"

  /** `requiredFields.filter(field => isFieldPresent(parsed, field))`. */
  function PresentFields(doc: Json, required: seq<string>): (present: seq<string>)
    ensures forall f :: f in present <==> f in required && FieldPresent(doc, f)
    ensures |present| <= |required|
  {
    if required == [] then []
    else (if FieldPresent(doc, required[0]) then [required[0]] else []) + PresentFields(doc, required[1..])
  }

  /** `requiredFields.filter(field => !presentFields.includes(field))`. */
  function MissingFields(required: seq<string>, present: seq<string>): (missing: seq<string>)
    ensures forall f :: f in missing <==> f in required && f !in present
    ensures |missing| <= |required|
  {
    if required == [] then []
    else (if required[0] in present then [] else [required[0]]) + MissingFields(required[1..], present)
  }

  /** The specs that are not present, in declaration order. */
  function AbsentFields(doc: Json, required: seq<string>): seq<string> {
    if required == [] then []
    else (if FieldPresent(doc, required[0]) then [] else [required[0]]) + AbsentFields(doc, required[1..])
  }

  /** Filtering out the specs listed as present leaves exactly the absent
      ones, duplicates included. */
  lemma {:induction false} MissingIsAbsent(doc: Json, required: seq<string>, present: seq<string>)
    requires forall f | f in required :: f in present <==> FieldPresent(doc, f)
    ensures MissingFields(required, present) == AbsentFields(doc, required)
  {
    if required != [] {
      MissingIsAbsent(doc, required[1..], present);
    }
  }

  /** Every required spec lands in exactly one of the two lists, as many
      times as it is listed. */
  lemma {:induction false} Partition(doc: Json, required: seq<string>)
    ensures multiset(PresentFields(doc, required)) + multiset(AbsentFields(doc, required)) == multiset(required)
    ensures |PresentFields(doc, required)| + |AbsentFields(doc, required)| == |required|
  {
    if required != [] {
      Partition(doc, required[1..]);
      assert required == [required[0]] + required[1..];
    }
  }

  /** `a` is `b` with some elements left out, the rest kept in order. */
  predicate SubsequenceOf(a: seq<string>, b: seq<string>)
    decreases |b|
  {
    if b == [] then a == []
    else (a != [] && a[0] == b[0] && SubsequenceOf(a[1..], b[1..])) || SubsequenceOf(a, b[1..])
  }

  /** Both lists keep the declaration order of the required specs. */
  lemma {:induction false} KeepOrder(doc: Json, required: seq<string>)
    ensures SubsequenceOf(PresentFields(doc, required), required)
    ensures SubsequenceOf(AbsentFields(doc, required), required)
  {
    if required != [] {
      KeepOrder(doc, required[1..]);
      var present, absent := PresentFields(doc, required), AbsentFields(doc, required);
      if FieldPresent(doc, required[0]) {
        assert present[0] == required[0] && present[1..] == PresentFields(doc, required[1..]);
        assert absent == AbsentFields(doc, required[1..]);
      } else {
        assert absent[0] == required[0] && absent[1..] == AbsentFields(doc, required[1..]);
        assert present == PresentFields(doc, required[1..]);
      }
    }
  }

  /** `success` when nothing is missing, else `partial` when something is
      present, else `error`. */
  function StatusOf(present: seq<string>, missing: seq<string>): Status {
    if |missing| == 0 then Success
    else if |present| > 0 then Partial
    else Error
  }

  /** `"<present> de <required> campos presentes"`. */
  function CountMessage(present: nat, required: nat): string {
    DecimalString(present) + " de " + DecimalString(required) + " campos presentes"
  }

  function MessageOf(status: Status, present: nat, required: nat): string {
    match status
    case Success => AllPresentMessage
    case Partial => CountMessage(present, required)
    case Error => NonePresentMessage
  }

  /** The verdict on a parsed document (`validateJson` after preprocessing):
      `formattedJson` is the pretty-printed text, `extractedData` the
      document itself. */
  function Classify(parsed: Json, required: seq<string>, formattedJson: string): ValidationResult {
    var present := PresentFields(parsed, required);
    var missing := MissingFields(required, present);
    var status := StatusOf(present, missing);
    ValidationResult(status, MessageOf(status, |present|, |required|), missing, present, formattedJson, parsed)
  }

  /** The verdict after a failure: everything missing, nothing present, no
      data and the failure's message. */
  function ErrorVerdict(required: seq<string>, message: string): (r: ValidationResult)
    ensures r.status == Error && r.message == message
    ensures r.missingFields == required && r.presentFields == [] && r.formattedJson == ""
    ensures r.extractedData == EmptyObject
  {
    ValidationResult(Error, message, required, [], "", EmptyObject)
  }

  /** A failure reports what classifying a document with nothing present
      would report: status `error`, every spec missing and none present. */
  lemma ErrorVerdictAsNothingPresent(parsed: Json, required: seq<string>, formattedJson: string, message: string)
    requires required != []
    requires forall f | f in required :: !FieldPresent(parsed, f)
    ensures var c, e := Classify(parsed, required, formattedJson), ErrorVerdict(required, message);
      && c.status == e.status
      && c.presentFields == e.presentFields
      && c.missingFields == e.missingFields
  {
    PresentOfNothing(parsed, required);
    MissingOfNothing(required);
  }

  lemma {:induction false} PresentOfNothing(parsed: Json, required: seq<string>)
    requires forall f | f in required :: !FieldPresent(parsed, f)
    ensures PresentFields(parsed, required) == []
  {
    if required != [] {
      assert required[0] in required;
      PresentOfNothing(parsed, required[1..]);
    }
  }

  lemma {:induction false} MissingOfNothing(required: seq<string>)
    ensures MissingFields(required, []) == required
  {
    if required != [] {
      MissingOfNothing(required[1..]);
      assert [required[0]] + required[1..] == required;
    }
  }

  /** The missing list of a verdict is the list of absent specs, so present
      and missing partition the required list, in order. */
  lemma ClassifyPartition(parsed: Json, required: seq<string>, formattedJson: string)
    ensures var r := Classify(parsed, required, formattedJson);
      && r.presentFields == PresentFields(parsed, required)
      && r.missingFields == AbsentFields(parsed, required)
      && multiset(r.presentFields) + multiset(r.missingFields) == multiset(required)
      && SubsequenceOf(r.presentFields, required) && SubsequenceOf(r.missingFields, required)
  {
    MissingIsAbsent(parsed, required, PresentFields(parsed, required));
    Partition(parsed, required);
    KeepOrder(parsed, required);
  }

  /** `success` exactly when every required spec is present; in particular
      an empty required list is a success. */
  lemma SuccessIff(parsed: Json, required: seq<string>, formattedJson: string)
    ensures Classify(parsed, required, formattedJson).status == Success
            <==> forall f | f in required :: FieldPresent(parsed, f)
  {
    var r := Classify(parsed, required, formattedJson);
    ClassifyPartition(parsed, required, formattedJson);
    if r.missingFields != [] {
      assert r.missingFields[0] in r.missingFields;
    }
  }

  /** `partial` exactly when some spec is present and some is not. */
  lemma PartialIff(parsed: Json, required: seq<string>, formattedJson: string)
    ensures Classify(parsed, required, formattedJson).status == Partial
            <==> (exists f | f in required :: FieldPresent(parsed, f))
                 && (exists f | f in required :: !FieldPresent(parsed, f))
  {
    var r := Classify(parsed, required, formattedJson);
    ClassifyPartition(parsed, required, formattedJson);
    if r.missingFields != [] {
      assert r.missingFields[0] in r.missingFields;
    }
    if r.presentFields != [] {
      assert r.presentFields[0] in r.presentFields;
    }
  }

  /** `error` exactly when there are required specs and none is present. */
  lemma ErrorIff(parsed: Json, required: seq<string>, formattedJson: string)
    ensures Classify(parsed, required, formattedJson).status == Error
            <==> required != [] && forall f | f in required :: !FieldPresent(parsed, f)
  {
    var r := Classify(parsed, required, formattedJson);
    ClassifyPartition(parsed, required, formattedJson);
    if r.missingFields != [] {
      assert r.missingFields[0] in r.missingFields;
    }
    if r.presentFields != [] {
      assert r.presentFields[0] in r.presentFields;
    }
    if required != [] {
      assert required[0] in required;
    }
  }

  /** A partial verdict reports the two counts, and the counts can be read
      back from the words of its message. */
  lemma PartialMessage(parsed: Json, required: seq<string>, formattedJson: string)
    requires Classify(parsed, required, formattedJson).status == Partial
    ensures var r := Classify(parsed, required, formattedJson);
      && r.message == CountMessage(|r.presentFields|, |required|)
      && Split(r.message, ' ') == [DecimalString(|r.presentFields|), "de", DecimalString(|required|), "campos", "presentes"]
      && DecimalValue(Split(r.message, ' ')[0]) == |r.presentFields|
      && DecimalValue(Split(r.message, ' ')[2]) == |required|
  {
    var r := Classify(parsed, required, formattedJson);
    CountMessageWords(|r.presentFields|, |required|);
    DecimalRoundTrip(|r.presentFields|);
    DecimalRoundTrip(|required|);
  }

  lemma CountMessageWords(p: nat, n: nat)
    ensures Split(CountMessage(p, n), ' ') == [DecimalString(p), "de", DecimalString(n), "campos", "presentes"]
  {
    var a, c := DecimalString(p), DecimalString(n);
    var spaced := a + " " + ("de" + " " + (c + " " + ("campos" + " " + "presentes")));
    assert CountMessage(p, n) == spaced by {
      calc {
        CountMessage(p, n);
        a + " de " + c + " campos presentes";
        { assert " campos presentes" == " " + ("campos" + " " + "presentes"); }
        a + " de " + (c + " " + ("campos" + " " + "presentes"));
        { assert " de " == " " + "de" + " "; }
        spaced;
      }
    }
    assert Split(spaced, ' ') == [a, "de", c, "campos", "presentes"] by {
      DigitsHaveNoSpace(a);
      DigitsHaveNoSpace(c);
      SplitFive(a, "de", c, "campos", "presentes", ' ');
    }
  }

  /** Five separator-free pieces joined by the separator split back into
      the same five pieces. */
  lemma SplitFive(a: string, b: string, c: string, d: string, e: string, sep: char)
    requires sep !in a && sep !in b && sep !in c && sep !in d && sep !in e
    ensures Split(a + [sep] + (b + [sep] + (c + [sep] + (d + [sep] + e))), sep) == [a, b, c, d, e]
  {
    SplitWithoutSeparator(e, sep);
    SplitAfterPiece(d, sep, e);
    SplitAfterPiece(c, sep, d + [sep] + e);
    SplitAfterPiece(b, sep, c + [sep] + (d + [sep] + e));
    SplitAfterPiece(a, sep, b + [sep] + (c + [sep] + (d + [sep] + e)));
  }

  lemma DigitsHaveNoSpace(s: string)
    requires AllDigits(s)
    ensures ' ' !in s
  {
    forall i | 0 <= i < |s|
      ensures s[i] != ' '
    {
      assert IsDigit(s[i]);
    }
  }
}
