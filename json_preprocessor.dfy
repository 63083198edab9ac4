/** The JSON preprocessor: text normalisation, the empty-input guard in
    front of the parser, the snake_case label humaniser and the deep
    labeler that builds a humanised copy of a parsed document. */
module JsonPreprocessor {
  import opened Results
  import opened Text
  import opened Json

  // ---------------------------------------------------------------------
  // Text normaliser

  /** U+200B..U+200D (zero-width space, non-joiner, joiner) and U+FEFF (BOM). */
  predicate IsZeroWidth(c: char) {
    c == '\U{200B}' || c == '\U{200C}' || c == '\U{200D}' || c == '\U{FEFF}'
  }

  ghost predicate HasNoZeroWidth(s: string) {
    forall i | 0 <= i < |s| :: !IsZeroWidth(s[i])
  }

  /** Deletes every zero-width character, keeping the others in order. */
  function RemoveZeroWidth(s: string): (r: string)
    ensures HasNoZeroWidth(r)
    ensures |r| <= |s|
  {
    if s == [] then []
    else (if IsZeroWidth(s[0]) then [] else [s[0]]) + RemoveZeroWidth(s[1..])
  }

  /** The text normaliser: strip the zero-width characters, then trim. */
  function Normalize(s: string): string {
    Trim(RemoveZeroWidth(s))
  }

  lemma {:induction false} RemoveZeroWidthClean(s: string)
    requires HasNoZeroWidth(s)
    ensures RemoveZeroWidth(s) == s
  {
    if s != [] {
      RemoveZeroWidthClean(s[1..]);
      assert [s[0]] + s[1..] == s;
    }
  }

  /** Normalised text holds no zero-width character and has no leading or
      trailing whitespace. */
  lemma NormalizeIsClean(s: string)
    ensures HasNoZeroWidth(Normalize(s))
    ensures IsTrimmed(Normalize(s))
  {
    var t := RemoveZeroWidth(s);
    TrimIsMiddle(t);
    MiddleKeepsNoZeroWidth(t, TrimStart(t), Trim(t));
    TrimIsTrimmed(t);
  }

  /** A slice of text without zero-width characters has none either. */
  lemma MiddleKeepsNoZeroWidth(t: string, a: string, r: string)
    requires MiddleOf(t, a, r) && HasNoZeroWidth(t)
    ensures HasNoZeroWidth(r)
  {
    var k := |t| - |a|;
    forall i | 0 <= i < |r| ensures !IsZeroWidth(r[i]) {
      assert r[i] == t[k + i];
    }
  }

  /** Normalising twice is normalising once. */
  lemma NormalizeIdempotent(s: string)
    ensures Normalize(Normalize(s)) == Normalize(s)
  {
    var n := Normalize(s);
    NormalizeIsClean(s);
    RemoveZeroWidthClean(n);
    TrimTrimmed(n);
  }

  ghost predicate AllBlank(s: string) {
    forall i | 0 <= i < |s| :: IsZeroWidth(s[i]) || IsJsWhitespace(s[i])
  }

  lemma {:induction false} RemoveZeroWidthBlank(s: string)
    ensures AllWhitespace(RemoveZeroWidth(s)) <==> AllBlank(s)
  {
    if s != [] {
      RemoveZeroWidthBlank(s[1..]);
      var head := if IsZeroWidth(s[0]) then [] else [s[0]];
      var tail := RemoveZeroWidth(s[1..]);
      assert RemoveZeroWidth(s) == head + tail;
      AllBlankCons(s);
      AllWhitespaceAppend(head, tail);
      assert AllWhitespace(head) <==> IsZeroWidth(s[0]) || IsJsWhitespace(s[0]);
    }
  }

  /** Blank text is a blank character followed by blank text. */
  lemma AllBlankCons(s: string)
    requires s != []
    ensures AllBlank(s) <==> (IsZeroWidth(s[0]) || IsJsWhitespace(s[0])) && AllBlank(s[1..])
  {
    if (IsZeroWidth(s[0]) || IsJsWhitespace(s[0])) && AllBlank(s[1..]) {
      forall i | 0 <= i < |s| ensures IsZeroWidth(s[i]) || IsJsWhitespace(s[i]) {
        if i > 0 {
          assert s[i] == s[1..][i - 1];
        }
      }
    }
  }

  /** The normaliser produces the empty string exactly when the input is
      made only of whitespace and zero-width characters. */
  lemma NormalizeEmptyIff(s: string)
    ensures Normalize(s) == "" <==> AllBlank(s)
  {
    TrimEmptyIff(RemoveZeroWidth(s));
    RemoveZeroWidthBlank(s);
  }

  // ---------------------------------------------------------------------
  // Parse guard

  const EmptyJsonMessage := "JSON vazio - por favor, cole um JSON válido"
  const InvalidJsonPrefix := "JSON inválido: "

  /** `parseAndValidateJson`: normalise, refuse empty text, otherwise parse
      with `parse` (JSON.parse, whose SyntaxError message is the failure)
      and prefix the parser's diagnostic. */
  function ParseAndValidate(text: string, parse: string -> Result<Json, string>): (r: Result<Json, string>)
    ensures r == Failure(EmptyJsonMessage) <==> Normalize(text) == ""
    ensures r.Success? ==> Normalize(text) != "" && parse(Normalize(text)) == r
    ensures r.Failure? && Normalize(text) != "" ==>
              parse(Normalize(text)).Failure? && r.error == InvalidJsonPrefix + parse(Normalize(text)).error
  {
    var normalized := Normalize(text);
    if normalized == "" then Failure(EmptyJsonMessage)
    else match parse(normalized)
      case Success(parsed) => Success(parsed)
      case Failure(message) =>
        assert (InvalidJsonPrefix + message)[5] != EmptyJsonMessage[5];
        Failure(InvalidJsonPrefix + message)
  }

  /** Text made only of whitespace and zero-width characters is refused as
      empty JSON, whatever the parser would say. */
  lemma BlankTextIsEmptyJson(text: string, parse: string -> Result<Json, string>)
    requires AllBlank(text)
    ensures ParseAndValidate(text, parse) == Failure(EmptyJsonMessage)
  {
    NormalizeEmptyIff(text);
  }

  // ---------------------------------------------------------------------
  // Label humaniser

  /** Lower-case words that are written as upper-case abbreviations. */
  const Abbreviations: map<string, string> :=
    map["b3" := "B3", "cpf" := "CPF", "cnpj" := "CNPJ", "uf" := "UF", "ocr" := "OCR", "qa" := "QA"]

  /** Portuguese words given their accented title-case form. */
  const Accents: map<string, string> := map[
    "leilao" := "Leilão", "publico" := "Público", "orgao" := "Órgão",
    "oficio" := "Ofício", "motivo" := "Motivo", "destinacao" := "Destinação",
    "validacao" := "Validação", "numero" := "Número", "processos" := "Processos",
    "administrativo" := "Administrativo", "administrativos" := "Administrativos",
    "veiculo" := "Veículo", "veiculos" := "Veículos", "solicitacao" := "Solicitação",
    "solicitante" := "Solicitante", "unidade" := "Unidade"]

  /** Table entries hold neither underscores nor spaces. */
  lemma AbbreviationsArePlain(w: string)
    requires w in Abbreviations
    ensures '_' !in Abbreviations[w] && ' ' !in Abbreviations[w]
  {
  }

  lemma AccentsArePlain(w: string)
    requires w in Accents
    ensures '_' !in Accents[w] && ' ' !in Accents[w]
  {
    AccentsHaveNoUnderscore(w);
    AccentsHaveNoSpace(w);
  }

  /** The accented forms contain no underscore ... */
  lemma AccentsHaveNoUnderscore(w: string)
    requires w in Accents
    ensures '_' !in Accents[w]
  {
  }

  /** ... and no space. */
  lemma AccentsHaveNoSpace(w: string)
    requires w in Accents
    ensures ' ' !in Accents[w]
  {
  }

  /** What the accent lookup `accentMap[word]` finds as written: besides its
      own entries, the plain object inherits a truthy `constructor` member
      (the `Object` function), which the final `join` turns into its source
      text. */
  const AccentsAsLookedUp: map<string, string> :=
    Accents["constructor" := "function Object() { [native code] }"]

  /** One underscore-separated word: empty stays empty; otherwise its
      lower-case form is looked up in the abbreviation table, then in the
      accent table, and failing both the word is capitalised. */
  function Segment(word: string, accents: map<string, string>): string {
    if word == "" then ""
    else
      var lower := ToLower(word);
      if lower in Abbreviations then Abbreviations[lower]
      else if lower in accents then accents[lower]
      else [UpperChar(word[0])] + ToLower(word[1..])
  }

  function Segments(words: seq<string>, accents: map<string, string>): (r: seq<string>)
    ensures |r| == |words|
  {
    seq(|words|, i requires 0 <= i < |words| => Segment(words[i], accents))
  }

  function TitleCaseWith(text: string, accents: map<string, string>): string {
    if text == "" then text
    else Join(Segments(Split(text, '_'), accents), " ")
  }

  /** `snakeCaseToTitleCase` with the accent table read as an own-key
      dictionary. */
  function TitleCase(text: string): string {
    TitleCaseWith(text, Accents)
  }

  /** `snakeCaseToTitleCase` as written, inherited `constructor` included. */
  function TitleCaseAsWritten(text: string): string {
    TitleCaseWith(text, AccentsAsLookedUp)
  }

  /** The empty label is returned unchanged. */
  lemma TitleCaseEmpty()
    ensures TitleCase("") == "" && TitleCaseAsWritten("") == ""
  {
  }

  lemma {:induction false} SplitTwo(a: string, b: string)
    requires '_' !in a && '_' !in b
    ensures Split(a + "_" + b, '_') == [a, b]
  {
    SplitJoin([a, b], '_');
    assert Join([a, b], "_") == a + "_" + b;
  }

  /** A two-word label is its two humanised words joined by one space. */
  lemma TitleCaseTwo(a: string, b: string, accents: map<string, string>)
    requires '_' !in a && '_' !in b
    ensures TitleCaseWith(a + "_" + b, accents) == Segment(a, accents) + " " + Segment(b, accents)
  {
    SplitTwo(a, b);
    assert (a + "_" + b)[|a|] == '_';
    var segs := Segments([a, b], accents);
    assert segs == [Segment(a, accents), Segment(b, accents)];
    assert segs[1..] == [Segment(b, accents)];
    assert Join(segs, " ") == segs[0] + " " + Join(segs[1..], " ");
    assert TitleCaseWith(a + "_" + b, accents) == Join(Segments(Split(a + "_" + b, '_'), accents), " ");
  }

  /** A doubled underscore leaves an empty word, so the two humanised words
      end up two spaces apart. */
  lemma TitleCaseDoubleUnderscore(a: string, b: string)
    requires '_' !in a && '_' !in b
    ensures TitleCase(a + "__" + b) == Segment(a, Accents) + "  " + Segment(b, Accents)
  {
    var segs := [Segment(a, Accents), "", Segment(b, Accents)];
    calc {
      TitleCase(a + "__" + b);
      { assert (a + "__" + b)[|a|] == '_'; }
      Join(Segments(Split(a + "__" + b, '_'), Accents), " ");
      { SplitDoubled(a, b); }
      Join(Segments([a, "", b], Accents), " ");
      { assert Segments([a, "", b], Accents) == segs; }
      Join(segs, " ");
      { JoinThree(segs[0], segs[1], segs[2], " "); assert [segs[0], segs[1], segs[2]] == segs; }
      Segment(a, Accents) + " " + "" + " " + Segment(b, Accents);
      Segment(a, Accents) + "  " + Segment(b, Accents);
    }
  }

  /** Three pieces joined by a separator. */
  lemma JoinThree(x: string, y: string, z: string, sep: string)
    ensures Join([x, y, z], sep) == x + sep + y + sep + z
  {
    assert [x, y, z][1..] == [y, z];
    assert [y, z][1..] == [z];
    assert Join([y, z], sep) == y + sep + z;
    assert x + sep + (y + sep + z) == x + sep + y + sep + z;
  }

  /** A doubled underscore splits into the two words around an empty one. */
  lemma SplitDoubled(a: string, b: string)
    requires '_' !in a && '_' !in b
    ensures Split(a + "__" + b, '_') == [a, "", b]
  {
    JoinThree(a, "", b, "_");
    assert a + "_" + "" + "_" + b == a + "__" + b;
    SplitJoin([a, "", b], '_');
  }

  lemma ProcessoWord()
    ensures Segment("processo", Accents) == "Processo"
  {
    calc {
      Segment("processo", Accents);
      { assert "processo" == ['p'] + "rocesso"; }
      Segment(['p'] + "rocesso", Accents);
      { assert "processo" == ['p'] + "rocesso";
        assert ToLower("processo") == "processo";
        PlainWord('p', "rocesso", Accents); }
      [UpperChar('p')] + "rocesso";
      "Processo";
    }
  }

  /** Proof helpers for the documented examples: each table word is looked
      up as it is, being lower case already. */
  lemma LeilaoWord()
    ensures Segment("leilao", Accents) == "Leilão"
  {
    assert ToLower("leilao") == "leilao";
  }

  lemma PublicoWord()
    ensures Segment("publico", Accents) == "Público"
  {
    assert ToLower("publico") == "publico";
  }

  lemma AdministrativoWord()
    ensures Segment("administrativo", Accents) == "Administrativo"
  {
    assert ToLower("administrativo") == "administrativo";
  }

  lemma OficioWord()
    ensures Segment("oficio", Accents) == "Ofício"
  {
    assert ToLower("oficio") == "oficio";
  }

  lemma B3Word()
    ensures Segment("b3", Accents) == "B3"
  {
    assert ToLower("b3") == "b3";
  }

  /** The examples of the humaniser's documentation (the labels are
      written as word + "_" + word). */
  lemma TitleCaseLeilaoPublico()
    ensures TitleCase("leilao" + "_" + "publico") == "Leilão" + " " + "Público"
  {
    TitleCaseTwo("leilao", "publico", Accents);
    LeilaoWord();
    PublicoWord();
  }

  lemma TitleCaseProcessoAdministrativo()
    ensures TitleCase("processo" + "_" + "administrativo") == "Processo" + " " + "Administrativo"
  {
    TitleCaseTwo("processo", "administrativo", Accents);
    ProcessoWord();
    AdministrativoWord();
  }

  lemma TitleCaseOficioB3()
    ensures TitleCase("oficio" + "_" + "b3") == "Ofício" + " " + "B3"
  {
    TitleCaseTwo("oficio", "b3", Accents);
    OficioWord();
    B3Word();
  }

  lemma DoubleUnderscoreWords()
    ensures TitleCase("a" + "__" + "b") == "A" + "  " + "B"
  {
    calc {
      TitleCase("a" + "__" + "b");
      { TitleCaseDoubleUnderscore("a", "b"); }
      Segment("a", Accents) + "  " + Segment("b", Accents);
      { LetterWord('a'); LetterWord('b'); }
      "A" + "  " + "B";
    }
  }

  /** A one-letter word is in neither table and is upper-cased. */
  lemma LetterWord(c: char)
    requires 'a' <= c <= 'z'
    ensures Segment([c], Accents) == [UpperChar(c)]
  {
    assert [c] == [c] + "";
    assert ToLower([c]) == [c];
    PlainWord(c, "", Accents);
  }

  /** `"a__b"` humanises to `"A  B"`, with two spaces. */
  lemma DoubleUnderscoreExample()
    ensures TitleCase("a__b") == "A  B"
  {
    calc {
      TitleCase("a__b");
      { assert "a__b" == "a" + "__" + "b"; }
      TitleCase("a" + "__" + "b");
      { DoubleUnderscoreWords(); }
      "A" + "  " + "B";
      "A  B";
    }
  }

  lemma CaseOfCase(c: char)
    ensures LowerChar(LowerChar(c)) == LowerChar(c)
    ensures UpperChar(LowerChar(c)) == UpperChar(c)
    ensures LowerChar(UpperChar(c)) == LowerChar(c)
  {
  }

  /** Humanising ignores the casing of its input. */
  lemma SegmentIgnoresCase(word: string, accents: map<string, string>)
    ensures Segment(word, accents) == Segment(ToLower(word), accents)
  {
    if word != [] {
      ToLowerIdempotent(word);
      CaseOfCase(word[0]);
      assert ToLower(word)[1..] == ToLower(word[1..]);
      ToLowerIdempotent(word[1..]);
    }
  }

  lemma TitleCaseIgnoresCase(text: string)
    ensures TitleCase(text) == TitleCase(ToLower(text))
  {
    if text != "" {
      var words, lowered := Split(text, '_'), Split(ToLower(text), '_');
      SplitToLower(text);
      forall i | 0 <= i < |words|
        ensures Segments(words, Accents)[i] == Segments(lowered, Accents)[i]
      {
        SegmentIgnoresCase(words[i], Accents);
      }
      assert Segments(words, Accents) == Segments(lowered, Accents);
    }
  }

  function LowerEach(parts: seq<string>): (r: seq<string>)
    ensures |r| == |parts|
  {
    seq(|parts|, i requires 0 <= i < |parts| => ToLower(parts[i]))
  }

  /** Lower-casing commutes with splitting on the underscore. */
  lemma {:induction false} SplitToLower(s: string)
    ensures Split(ToLower(s), '_') == LowerEach(Split(s, '_'))
  {
    if s != [] {
      var t := ToLower(s);
      var rest := Split(s[1..], '_');
      if s[0] != '_' {
        calc {
          Split(t, '_');
          { assert t[0] == LowerChar(s[0]) != '_'; }
          [[LowerChar(s[0])] + Split(t[1..], '_')[0]] + Split(t[1..], '_')[1..];
          { assert t[1..] == ToLower(s[1..]); SplitToLower(s[1..]); }
          [[LowerChar(s[0])] + LowerEach(rest)[0]] + LowerEach(rest)[1..];
          { LowerEachPrepend(s[0], rest); }
          LowerEach([[s[0]] + rest[0]] + rest[1..]);
          LowerEach(Split(s, '_'));
        }
      } else {
        calc {
          Split(t, '_');
          { assert t[0] == '_'; }
          [""] + Split(t[1..], '_');
          { assert t[1..] == ToLower(s[1..]); SplitToLower(s[1..]); }
          [""] + LowerEach(rest);
          { assert LowerEach([""] + rest) == [""] + LowerEach(rest); }
          LowerEach([""] + rest);
          LowerEach(Split(s, '_'));
        }
      }
    }
  }

  lemma LowerEachPrepend(c: char, rest: seq<string>)
    requires |rest| >= 1
    ensures LowerEach([[c] + rest[0]] + rest[1..]) == [[LowerChar(c)] + ToLower(rest[0])] + LowerEach(rest)[1..]
  {
    assert ToLower([c] + rest[0]) == [LowerChar(c)] + ToLower(rest[0]);
  }

  /** Outside the accent table, a humanised word is the word itself up to
      case (abbreviations included): humanising changes only casing. */
  lemma SegmentKeepsLetters(word: string)
    requires ToLower(word) !in Accents
    ensures ToLower(Segment(word, Accents)) == ToLower(word)
  {
    if word != "" {
      var lower := ToLower(word);
      if lower in Abbreviations {
        AbbreviationsAreUpperCase(lower);
      } else {
        CapitalisedKeepsLetters(word);
      }
    }
  }

  /** Each abbreviation is its table key in upper case. */
  lemma AbbreviationsAreUpperCase(w: string)
    requires w in Abbreviations
    ensures ToLower(Abbreviations[w]) == w
  {
    if w == "b3" {
      assert ToLower("B3") == "b3";
    } else if w == "cpf" {
      assert ToLower("CPF") == "cpf";
    } else if w == "cnpj" {
      assert ToLower("CNPJ") == "cnpj";
    } else if w == "uf" {
      assert ToLower("UF") == "uf";
    } else if w == "ocr" {
      assert ToLower("OCR") == "ocr";
    } else {
      assert ToLower("QA") == "qa";
    }
  }

  /** Capitalising a word keeps its letters. */
  lemma CapitalisedKeepsLetters(word: string)
    requires word != ""
    ensures ToLower([UpperChar(word[0])] + ToLower(word[1..])) == ToLower(word)
  {
    CaseOfCase(word[0]);
    ToLowerIdempotent(word[1..]);
    ToLowerAppend([UpperChar(word[0])], ToLower(word[1..]));
    ToLowerAppend([word[0]], word[1..]);
    assert [word[0]] + word[1..] == word;
  }

  lemma TipoWord(accents: map<string, string>)
    requires "tipo" !in accents
    ensures Segment("tipo", accents) == "Tipo"
  {
    assert ToLower("tipo") == "tipo";
    assert ToLower("ipo") == "ipo";
  }

  /** A lower-case word in neither table is capitalised. */
  lemma PlainWord(c: char, rest: string, accents: map<string, string>)
    requires ToLower([c] + rest) == [c] + rest
    requires [c] + rest !in Abbreviations && [c] + rest !in accents
    ensures Segment([c] + rest, accents) == [UpperChar(c)] + rest
  {
    assert ([c] + rest)[1..] == rest;
    assert ToLower(rest) == ToLower([c] + rest)[1..];
  }

  /** `constructor` is already lower case ... */
  lemma ConstructorIsLower()
    ensures ToLower("constructor") == "constructor"
  {
  }

  /** ... and is not one of the own keys of either table. */
  lemma ConstructorNotInTables()
    ensures "constructor" !in Abbreviations && "constructor" !in Accents
  {
  }

  /** Looked up as written, `constructor` finds the inherited member. */
  lemma ConstructorLookedUp()
    ensures Segment("constructor", AccentsAsLookedUp) == "function Object() { [native code] }"
  {
    ConstructorIsLower();
    ConstructorNotInTables();
  }

  /** Looked up among own keys only, `constructor` is capitalised. */
  lemma ConstructorCapitalised()
    ensures Segment("constructor", Accents) == "Constructor"
  {
    calc {
      Segment("constructor", Accents);
      { assert "constructor" == ['c'] + "onstructor"; }
      Segment(['c'] + "onstructor", Accents);
      { assert "constructor" == ['c'] + "onstructor"; ConstructorIsLower(); ConstructorNotInTables(); PlainWord('c', "onstructor", Accents); }
      [UpperChar('c')] + "onstructor";
      "Constructor";
    }
  }

  lemma ConstructorWord()
    ensures Segment("constructor", AccentsAsLookedUp) == "function Object() { [native code] }"
    ensures Segment("constructor", Accents) == "Constructor"
  {
    ConstructorLookedUp();
    ConstructorCapitalised();
  }

  /** As written, the word `constructor` is replaced by the source text of
      the `Object` function, so humanising does not keep its letters. */
  lemma ConstructorWordAsWritten()
    ensures ToLower(Segment("constructor", AccentsAsLookedUp)) != "constructor"
    ensures TitleCaseAsWritten("tipo" + "_" + "constructor") == "Tipo" + " " + "function Object() { [native code] }"
  {
    ConstructorLookedUp();
    assert ToLower("function Object() { [native code] }")[0] == 'f';
    calc {
      TitleCaseAsWritten("tipo" + "_" + "constructor");
      { TitleCaseTwo("tipo", "constructor", AccentsAsLookedUp); }
      Segment("tipo", AccentsAsLookedUp) + " " + Segment("constructor", AccentsAsLookedUp);
      { TipoWord(AccentsAsLookedUp); }
      "Tipo" + " " + "function Object() { [native code] }";
    }
  }

  /** Read as an own-key table, the same label is capitalised like any
      other word. */
  lemma ConstructorWordCorrected()
    ensures ToLower(Segment("constructor", Accents)) == "constructor"
    ensures TitleCase("tipo" + "_" + "constructor") == "Tipo" + " " + "Constructor"
  {
    calc {
      ToLower(Segment("constructor", Accents));
      { ConstructorCapitalised(); }
      ToLower("Constructor");
      "constructor";
    }
    calc {
      TitleCase("tipo" + "_" + "constructor");
      { TitleCaseTwo("tipo", "constructor", Accents); }
      Segment("tipo", Accents) + " " + Segment("constructor", Accents);
      { TipoWord(Accents); ConstructorCapitalised(); }
      "Tipo" + " " + "Constructor";
    }
  }

  /** No humanised label contains an underscore. */
  lemma TitleCaseHasNoUnderscore(text: string)
    ensures '_' !in TitleCase(text)
  {
    if text != "" {
      var words := Split(text, '_');
      var segs := Segments(words, Accents);
      forall i | 0 <= i < |segs| ensures '_' !in segs[i] {
        SegmentHasNoUnderscore(words[i]);
      }
      JoinAvoids(segs, " ", '_');
    }
  }

  lemma SegmentHasNoUnderscore(word: string)
    requires '_' !in word
    ensures '_' !in Segment(word, Accents)
  {
    if word != "" {
      var lower := ToLower(word);
      if lower in Abbreviations {
        AbbreviationsArePlain(lower);
      } else if lower in Accents {
        AccentsArePlain(lower);
      } else {
        var r := [UpperChar(word[0])] + ToLower(word[1..]);
        assert Segment(word, Accents) == r;
        forall i | 0 <= i < |r| ensures r[i] != '_' {
          if i > 0 {
            assert r[i] == LowerChar(word[i]);
          }
        }
      }
    }
  }

  lemma {:induction false} JoinAvoids(parts: seq<string>, sep: string, c: char)
    requires c !in sep
    requires forall i | 0 <= i < |parts| :: c !in parts[i]
    ensures c !in Join(parts, sep)
  {
    if |parts| > 1 {
      JoinAvoids(parts[1..], sep, c);
    }
  }

  /** For text without spaces, the humanised label splits on single spaces
      into exactly one word per underscore-separated piece: as many words as
      underscores plus one. */
  lemma TitleCaseWords(text: string)
    requires text != "" && ' ' !in text
    ensures Split(TitleCase(text), ' ') == Segments(Split(text, '_'), Accents)
    ensures |Split(TitleCase(text), ' ')| == Count(text, '_') + 1
  {
    var words := Split(text, '_');
    var segs := Segments(words, Accents);
    forall i | 0 <= i < |segs| ensures ' ' !in segs[i] {
      assert forall j | 0 <= j < |words[i]| :: words[i][j] in text by {
        JoinSplit(text, '_');
        PieceInText(words, i, '_');
      }
      SegmentHasNoSpace(words[i]);
    }
    SplitJoin(segs, ' ');
  }

  lemma PieceInText(words: seq<string>, i: nat, sep: char)
    requires i < |words|
    ensures forall j | 0 <= j < |words[i]| :: words[i][j] in Join(words, [sep])
  {
    if i > 0 {
      PieceInText(words[1..], i - 1, sep);
      assert words[1..][i - 1] == words[i];
      if |words| > 1 {
        assert Join(words, [sep]) == words[0] + [sep] + Join(words[1..], [sep]);
      }
    } else if |words| > 1 {
      assert Join(words, [sep]) == words[0] + [sep] + Join(words[1..], [sep]);
    }
  }

  lemma SegmentHasNoSpace(word: string)
    requires ' ' !in word
    ensures ' ' !in Segment(word, Accents)
  {
    if word != "" {
      var lower := ToLower(word);
      if lower in Abbreviations {
        AbbreviationsArePlain(lower);
      } else if lower in Accents {
        AccentsArePlain(lower);
      } else {
        var r := [UpperChar(word[0])] + ToLower(word[1..]);
        assert Segment(word, Accents) == r;
        forall i | 0 <= i < |r| ensures r[i] != ' ' {
          if i > 0 {
            assert r[i] == LowerChar(word[i]);
          }
        }
      }
    }
  }

  // ---------------------------------------------------------------------
  // Deep labeler

  /** `formatObjectValues` as a specification: arrays map element-wise,
      objects key-by-key; an object entry that is a string is humanised when
      it contains an underscore; every other value (null, numbers, booleans,
      and strings at the root or inside arrays) is kept. */
  function Formatted(v: Json): Json {
    match v
    case JArr(items) => JArr(seq(|items|, i requires 0 <= i < |items| => Formatted(items[i])))
    case JObj(fields) =>
      JObj(map k | k in fields ::
             if fields[k].JStr? then
               (if '_' in fields[k].s then JStr(TitleCase(fields[k].s)) else fields[k])
             else Formatted(fields[k]))
    case _ => v
  }

  /** `formatObjectValues`: fills a fresh dictionary entry by entry and maps
      arrays element by element, recursing into nested containers. */
  method FormatObjectValues(obj: Json) returns (r: Json)
    ensures r == Formatted(obj)
    decreases obj, 1
  {
    match obj
    case JArr(items) =>
      var out := FormatItems(obj);
      r := JArr(out);
    case JObj(fields) =>
      var formatted := FormatFields(obj);
      r := JObj(formatted);
    case _ =>
      r := obj;
  }

  /** The array branch: each element formatted in turn. */
  method FormatItems(arr: Json) returns (out: seq<Json>)
    requires arr.JArr?
    ensures out == Formatted(arr).items
    decreases arr, 0
  {
    var items := arr.items;
    ghost var target := Formatted(arr).items;
    out := [];
    for i := 0 to |items|
      invariant |out| == i
      invariant forall j | 0 <= j < i :: out[j] == target[j]
    {
      var item := FormatObjectValues(items[i]);
      out := out + [item];
    }
  }

  /** The object branch: a string with an underscore is humanised, other
      strings are kept, containers and `null` are formatted recursively,
      other values are kept. */
  method FormatFields(obj: Json) returns (formatted: map<string, Json>)
    requires obj.JObj?
    ensures formatted == Formatted(obj).fields
    decreases obj, 0
  {
    var fields := obj.fields;
    ghost var target := Formatted(obj).fields;
    formatted := map[];
    var pending := fields.Keys;
    while pending != {}
      invariant pending <= fields.Keys
      invariant forall k :: k in formatted <==> k in fields && k !in pending
      invariant forall k | k in formatted :: formatted[k] == target[k]
    {
      var key :| key in pending;
      var value := fields[key];
      FormattedField(obj, key);
      var entry: Json;
      if value.JStr? {
        if '_' in value.s {
          entry := JStr(TitleCase(value.s));
        } else {
          entry := value;
        }
      } else if value.JArr? || value.JObj? || value.JNull? {
        entry := FormatObjectValues(value);
      } else {
        entry := value;
      }
      assert entry == target[key];
      formatted := formatted[key := entry];
      pending := pending - {key};
    }
  }

  /** One entry of a humanised object, read off the comprehension. */
  lemma FormattedField(obj: Json, key: string)
    requires obj.JObj? && key in obj.fields
    ensures var v := obj.fields[key];
      Formatted(obj).fields[key]
        == if v.JStr? then (if '_' in v.s then JStr(TitleCase(v.s)) else v) else Formatted(v)
  {
  }

  /** Two documents have the same shape: same kinds of node, arrays of the
      same length, objects with the same keys, equal non-string leaves. */
  ghost predicate SameShape(a: Json, b: Json) {
    match a
    case JArr(xs) =>
      b.JArr? && |xs| == |b.items| && forall i | 0 <= i < |xs| :: SameShape(xs[i], b.items[i])
    case JObj(f) =>
      b.JObj? && f.Keys == b.fields.Keys && forall k | k in f :: SameShape(f[k], b.fields[k])
    case JStr(_) => b.JStr?
    case _ => a == b
  }

  /** The humanised copy has the shape of the document it was made from. */
  lemma {:induction false} FormattedSameShape(v: Json)
    ensures SameShape(v, Formatted(v))
  {
    match v
    case JArr(items) =>
      forall i | 0 <= i < |items| ensures SameShape(items[i], Formatted(v).items[i]) {
        FormattedSameShape(items[i]);
      }
    case JObj(fields) =>
      forall k | k in fields ensures SameShape(fields[k], Formatted(v).fields[k]) {
        FormattedSameShape(fields[k]);
      }
    case _ =>
  }

  /** No string stored under an object key, at any depth, contains an underscore. */
  ghost predicate NoSnakeEntries(v: Json) {
    match v
    case JArr(items) => forall i | 0 <= i < |items| :: NoSnakeEntries(items[i])
    case JObj(fields) =>
      forall k | k in fields ::
        if fields[k].JStr? then '_' !in fields[k].s else NoSnakeEntries(fields[k])
    case _ => true
  }

  /** The labeler changes nothing in a document with no snake_case entries. */
  lemma {:induction false} FormattedFixesHumanised(v: Json)
    requires NoSnakeEntries(v)
    ensures Formatted(v) == v
  {
    match v
    case JArr(items) =>
      forall i | 0 <= i < |items| ensures Formatted(items[i]) == items[i] {
        FormattedFixesHumanised(items[i]);
      }
      assert Formatted(v).items == items;
    case JObj(fields) =>
      forall k | k in fields ensures Formatted(v).fields[k] == fields[k] {
        if !fields[k].JStr? {
          FormattedFixesHumanised(fields[k]);
        }
      }
      assert Formatted(v).fields == fields;
    case _ =>
  }

  /** The labeler leaves no snake_case entry behind. */
  lemma {:induction false} FormattedIsHumanised(v: Json)
    ensures NoSnakeEntries(Formatted(v))
  {
    match v
    case JArr(items) =>
      forall i | 0 <= i < |items| ensures NoSnakeEntries(Formatted(v).items[i]) {
        FormattedIsHumanised(items[i]);
      }
    case JObj(fields) =>
      forall k | k in fields
        ensures var e := Formatted(v).fields[k]; if e.JStr? then '_' !in e.s else NoSnakeEntries(e)
      {
        if fields[k].JStr? {
          TitleCaseHasNoUnderscore(fields[k].s);
        } else {
          FormattedIsHumanised(fields[k]);
        }
      }
    case _ =>
  }

  /** Humanising a humanised copy changes nothing. */
  lemma FormattedIdempotent(v: Json)
    ensures Formatted(Formatted(v)) == Formatted(v)
  {
    FormattedIsHumanised(v);
    FormattedFixesHumanised(Formatted(v));
  }

  /** Strings that are array elements are kept as they are, underscores and all. */
  lemma FormattedKeepsArrayStrings(items: seq<Json>, i: nat)
    requires i < |items| && items[i].JStr?
    ensures Formatted(JArr(items)).items[i] == items[i]
  {
  }

  // ---------------------------------------------------------------------
  // preprocessJson

  datatype Preprocessed = Preprocessed(original: Json, formatted: Json, normalizedString: string)

  /** `preprocessJson`: parse (as `parseAndValidateJson`), then keep the parsed
      document itself as `original`, a humanised copy as `formatted`, and
      its pretty-printed text (`stringify`, JSON.stringify with indent 2).
      It fails exactly when the normalised text is empty or does not parse;
      on success the copy has the document's shape and no snake_case entry. */
  function Preprocess(text: string, parse: string -> Result<Json, string>, stringify: Json -> string)
    : (r: Result<Preprocessed, string>)
    ensures r.Failure? <==> Normalize(text) == "" || parse(Normalize(text)).Failure?
    ensures r.Failure? && Normalize(text) == "" ==> r.error == EmptyJsonMessage
    ensures r.Failure? && Normalize(text) != "" ==> r.error == InvalidJsonPrefix + parse(Normalize(text)).error
    ensures r.Success? ==> r.value.original == parse(Normalize(text)).value
    ensures r.Success? ==> && SameShape(r.value.original, r.value.formatted)
                           && NoSnakeEntries(r.value.formatted)
                           && r.value.formatted == Formatted(r.value.original)
    ensures r.Success? ==> r.value.normalizedString == stringify(r.value.original)
  {
    match ParseAndValidate(text, parse)
    case Failure(e) => Failure(e)
    case Success(parsed) =>
      FormattedSameShape(parsed);
      FormattedIsHumanised(parsed);
      Success(Preprocessed(parsed, Formatted(parsed), stringify(parsed)))
  }
}
