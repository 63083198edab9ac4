/** The rule pack for documents of type `documento_comprobatorio`: one rule
    on the administrative process number, which is either missing, present
    but malformed, or well formed (`XXXXX.XXXXXX/YYYY-DD`). */
module DocumentoComprobatorio {
  import opened Results
  import opened Text
  import opened Json
  import opened ValidationRules

  const RuleName := "Processo Administrativo"
  const MissingMessage := "Campo 'processo_administrativo' " + "ausente ou vazio"
  const ValidMessage := "Formato de processo administrativo válido"
  const InvalidMessage := "Formato inválido. " + "Esperado: XXXXX.XXXXXX/YYYY-DD"
  const ExpectedPattern := "XXXXX.XXXXXX/YYYY-DD"
  const ValidMark := "✓ Válido"
  const InvalidMark := "✗ Inválido"

  /** One piece of an anchored regular expression built from fixed-count
      digit classes (`\d{n}`, ASCII digits) and literal characters. */
  datatype Token = Digits(count: nat) | Literal(c: char)

  /** `/^\d{5}\.\d{6}\/\d{4}-\d{2}$/`. */
  const ProcessPattern: seq<Token> :=
    [Digits(5), Literal('.'), Digits(6), Literal('/'), Digits(4), Literal('-'), Digits(2)]

  /** `regex.test(s)` for an anchored token pattern: the tokens consume the
      whole string, one after the other. */
  function Matches(s: string, pattern: seq<Token>): bool
    decreases |pattern|
  {
    if pattern == [] then s == []
    else match pattern[0]
      case Digits(n) => n <= |s| && AllDigits(s[..n]) && Matches(s[n..], pattern[1..])
      case Literal(c) => 1 <= |s| && s[0] == c && Matches(s[1..], pattern[1..])
  }

  /** The positions of a well-formed process number: twenty characters,
      digits everywhere except `.`, `/` and `-` at positions 5, 12 and 17. */
  predicate HasProcessShape(s: string) {
    && |s| == 20
    && (forall i | 0 <= i < 5 :: IsDigit(s[i])) && s[5] == '.'
    && (forall i | 6 <= i < 12 :: IsDigit(s[i])) && s[12] == '/'
    && (forall i | 13 <= i < 17 :: IsDigit(s[i])) && s[17] == '-'
    && (forall i | 18 <= i < 20 :: IsDigit(s[i]))
  }

  /** A block of `n` digits at the front of `s`. */
  predicate DigitsAt(s: string, from: nat, n: nat) {
    from + n <= |s| && forall i | from <= i < from + n :: IsDigit(s[i])
  }

  lemma DigitsPrefix(s: string, n: nat)
    requires n <= |s|
    ensures AllDigits(s[..n]) <==> DigitsAt(s, 0, n)
  {
    if DigitsAt(s, 0, n) {
      forall i | 0 <= i < n
        ensures IsDigit(s[..n][i])
      {
        assert s[..n][i] == s[i];
      }
    }
    if AllDigits(s[..n]) {
      forall i | 0 <= i < n
        ensures IsDigit(s[i])
      {
        assert s[..n][i] == s[i];
      }
    }
  }

  lemma DigitsShift(s: string, k: nat, from: nat, n: nat)
    requires k <= |s|
    ensures DigitsAt(s[k..], from, n) <==> DigitsAt(s, k + from, n)
  {
    if DigitsAt(s[k..], from, n) {
      forall i | k + from <= i < k + from + n
        ensures IsDigit(s[i])
      {
        assert s[k..][i - k] == s[i];
      }
    }
    if DigitsAt(s, k + from, n) {
      forall i | from <= i < from + n
        ensures IsDigit(s[k..][i])
      {
        assert s[k..][i] == s[k + i];
      }
    }
  }

  /** The regular expression accepts exactly the strings of that shape. */
  lemma MatchesIff(s: string)
    ensures Matches(s, ProcessPattern) <==> HasProcessShape(s)
  {
    FrontMatches(s);
    if 13 <= |s| {
      var u := s[13..];
      TailMatches(u);
      DigitsShift(s, 13, 0, 4);
      DigitsShift(s, 13, 5, 2);
      if 5 <= |u| {
        assert u[4] == s[17];
      }
    }
  }

  /** The pattern's last three tokens: `\d{4}-\d{2}` up to the end. */
  const TailPattern: seq<Token> := [Digits(4), Literal('-'), Digits(2)]

  /** The first four tokens consume thirteen characters and leave the rest
      to the last three. */
  lemma FrontMatches(s: string)
    ensures Matches(s, ProcessPattern) <==>
              && DigitsAt(s, 0, 5) && 6 <= |s| && s[5] == '.'
              && DigitsAt(s, 6, 6) && 13 <= |s| && s[12] == '/'
              && Matches(s[13..], TailPattern)
  {
    var p := ProcessPattern;
    assert p[1..][1..][1..][1..] == TailPattern;
    if 5 <= |s| {
      DigitsPrefix(s, 5);
      var s1 := s[5..];
      if 1 <= |s1| {
        var s2 := s1[1..];
        assert s2 == s[6..];
        if 6 <= |s2| {
          DigitsPrefix(s2, 6);
          DigitsShift(s, 6, 0, 6);
          var s3 := s2[6..];
          assert s3 == s[12..];
          if 1 <= |s3| {
            assert s3[1..] == s[13..];
          }
        }
      }
    }
  }

  /** The last three tokens consume exactly seven characters. */
  lemma TailMatches(u: string)
    ensures Matches(u, TailPattern) <==>
              DigitsAt(u, 0, 4) && 5 <= |u| && u[4] == '-' && DigitsAt(u, 5, 2) && |u| == 7
  {
    var p := TailPattern;
    assert p[1..][1..][1..] == [];
    if 4 <= |u| {
      DigitsPrefix(u, 4);
      var u1 := u[4..];
      if 1 <= |u1| {
        var u2 := u1[1..];
        assert u2 == u[5..];
        if 2 <= |u2| {
          DigitsPrefix(u2, 2);
          DigitsShift(u, 5, 0, 2);
          assert u2[2..] == u[7..];
        }
      }
    }
  }

  /** `data?.processo_administrativo`. */
  function ProcessoValue(data: Json): Option<Json> {
    Field(Some(data), "processo_administrativo")
  }

  predicate IsDocumentoComprobatorio(data: Json) {
    DocType(data) == Some(JStr("documento_comprobatorio"))
  }

  /** `validateProcessoAdministrativo`: a missing or blank value fails with
      the missing message and two dashes; any other value is tested against
      the pattern as it is (untrimmed) and shown with its verdict and the
      expected pattern. */
  function ProcessoRule(data: Json): (r: Rule)
    requires StringIfTruthy(ProcessoValue(data))
    ensures r.name == RuleName
  {
    var v := ProcessoValue(data);
    if !NonBlank(v) then
      Rule(RuleName, false, MissingMessage,
           Some([Entry("Processo Administrativo", Some(Dash)), Entry("Formato", Some(Dash))]))
    else
      var isValid := Matches(v.value.s, ProcessPattern);
      Rule(RuleName, isValid,
           if isValid then ValidMessage else InvalidMessage,
           Some([Entry("Processo Administrativo", v),
                 Entry("Formato", Some(JStr(if isValid then ValidMark else InvalidMark))),
                 Entry("Padrão Esperado", Some(JStr(ExpectedPattern)))]))
  }

  /** The pack renders its rule only for `documento_comprobatorio` documents. */
  function Check(data: Json): (r: Option<Rule>)
    requires IsDocumentoComprobatorio(data) ==> StringIfTruthy(ProcessoValue(data))
    ensures r.Some? <==> IsDocumentoComprobatorio(data)
  {
    if IsDocumentoComprobatorio(data) then Some(ProcessoRule(data)) else None
  }

  /** The rule holds exactly when the value is a well-formed process number. */
  lemma ProcessoValidIff(data: Json)
    requires StringIfTruthy(ProcessoValue(data))
    ensures var v := ProcessoValue(data);
      ProcessoRule(data).isValid <==> v.Some? && v.value.JStr? && HasProcessShape(v.value.s)
  {
    var v := ProcessoValue(data);
    if v.Some? && v.value.JStr? {
      MatchesIff(v.value.s);
      if HasProcessShape(v.value.s) {
        ShapeIsNonBlank(v.value.s);
      }
    }
  }

  lemma ShapeIsNonBlank(s: string)
    requires HasProcessShape(s)
    ensures Trim(s) != ""
  {
    TrimEmptyIff(s);
    assert !IsJsWhitespace(s[0]);
  }

  /** The missing message is given exactly for an absent or blank value,
      the format message exactly for a present value of the wrong shape. */
  lemma ProcessoMessages(data: Json)
    requires StringIfTruthy(ProcessoValue(data))
    ensures var r, v := ProcessoRule(data), ProcessoValue(data);
      && (r.message == MissingMessage <==> !NonBlank(v))
      && (r.message == InvalidMessage <==> NonBlank(v) && !HasProcessShape(v.value.s))
      && (r.message == ValidMessage <==> r.isValid)
  {
    var v := ProcessoValue(data);
    if NonBlank(v) {
      MatchesIff(v.value.s);
    }
    ProcessoValidIff(data);
    assert MissingMessage[0] == 'C' && InvalidMessage[0] == 'F' && ValidMessage[0] == 'F';
    assert InvalidMessage[8] == 'i' && ValidMessage[8] == 'd';
  }

  /** A present value is shown with exactly three entries: itself, a format
      mark that agrees with the verdict, and the expected pattern; a missing
      one with two dashes. */
  lemma ProcessoExtracted(data: Json)
    requires StringIfTruthy(ProcessoValue(data))
    ensures var r, v := ProcessoRule(data), ProcessoValue(data);
      && r.extractedData.Some?
      && (NonBlank(v) ==> && |r.extractedData.value| == 3
                          && r.extractedData.value[0].value == v
                          && (r.extractedData.value[1].value == Some(JStr(ValidMark)) <==> r.isValid)
                          && r.extractedData.value[2].value == Some(JStr(ExpectedPattern)))
      && (!NonBlank(v) ==> Keys(r.extractedData.value) == ["Processo Administrativo", "Formato"]
                           && r.extractedData.value[0].value == Some(Dash)
                           && r.extractedData.value[1].value == Some(Dash))
  {
    assert ValidMark[0] != InvalidMark[0];
  }

  /** The documented example is accepted. */
  lemma ExampleIsValid()
    ensures HasProcessShape("12345.678901/2024-01")
  {
  }

  /** A document carrying the documented example passes the rule. */
  lemma ExampleDocumentPasses(data: Json)
    requires ProcessoValue(data) == Some(JStr("12345.678901/2024-01"))
    ensures ProcessoRule(data).isValid && ProcessoRule(data).message == ValidMessage
  {
    ExampleIsValid();
    ProcessoValidIff(data);
  }

  /** A first group of four digits is malformed, and the value is still
      reported as present with the wrong format, not as missing. */
  lemma ShortFirstGroupIsMalformed(data: Json)
    requires ProcessoValue(data) == Some(JStr("1234.678901/2024-01"))
    ensures ProcessoRule(data).message == InvalidMessage
    ensures !ProcessoRule(data).isValid
  {
    var s := "1234.678901/2024-01";
    assert |s| == 19;
    assert !IsJsWhitespace(s[0]);
    TrimIsMiddle(s);
    TrimEmptyIff(s);
    ProcessoMessages(data);
  }

  /** A value made of blanks counts as missing. */
  lemma BlankIsMissing(data: Json, s: string)
    requires ProcessoValue(data) == Some(JStr(s)) && AllWhitespace(s)
    ensures ProcessoRule(data).message == MissingMessage
    ensures !ProcessoRule(data).isValid
  {
    TrimEmptyIff(s);
  }
}
