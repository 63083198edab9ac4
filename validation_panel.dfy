/** The generic validation panel: the pasted text is checked for being
    blank, preprocessed, and classified against the panel's required field
    specs; the verdict replaces the panel's result, and a document of a
    known type additionally gets its type's rule pack. */
module ValidationPanel {
  import opened Results
  import opened Text
  import opened Json
  import opened FieldPresence
  import opened JsonPreprocessor
  import opened Completeness
  import opened ValidationRules
  import OficioB3
  import DocumentoComprobatorio

  const BlankInputMessage := "Por favor, cole um JSON para validar"

  /** The specs the lien-release tab validates: each accepts the flat
      format or the nested `oficio` format. */
  const BaixaFields := [
    "doc_type",
    "processo_administrativo|oficio.solicitante",
    "processos_administrativos|oficio.veiculos",
    "validation|oficio.assunto"]

  /** `validateJson`: blank text is refused before parsing; a preprocessing
      failure yields the error verdict with the failure's message; a parsed
      document is classified, with its pretty-printed text. */
  function Validate(jsonInput: string, required: seq<string>,
                    parse: string -> Result<Json, string>, stringify: Json -> string): ValidationResult
  {
    if Trim(jsonInput) == "" then ErrorVerdict(required, BlankInputMessage)
    else match Preprocess(jsonInput, parse, stringify)
      case Failure(message) => ErrorVerdict(required, message)
      case Success(preprocessed) => Classify(preprocessed.original, required, preprocessed.normalizedString)
  }

  /** Text made only of whitespace is refused with the panel's own message:
      everything missing, nothing present, no data. */
  lemma BlankInputRejected(jsonInput: string, required: seq<string>,
                           parse: string -> Result<Json, string>, stringify: Json -> string)
    requires AllWhitespace(jsonInput)
    ensures var r := Validate(jsonInput, required, parse, stringify);
      && r.status == Status.Error && r.message == BlankInputMessage
      && r.missingFields == required && r.presentFields == [] && r.extractedData == EmptyObject
  {
    TrimEmptyIff(jsonInput);
  }

  /** Zero-width characters are not whitespace to the panel's own guard, so
      text made only of them gets past it and is refused by the
      preprocessor's empty-input guard instead. */
  lemma ZeroWidthInputRejected(jsonInput: string, required: seq<string>,
                               parse: string -> Result<Json, string>, stringify: Json -> string)
    requires jsonInput != []
    requires forall i | 0 <= i < |jsonInput| :: jsonInput[i] in {'\U{200B}', '\U{200C}', '\U{200D}'}
    ensures Trim(jsonInput) != ""
    ensures Validate(jsonInput, required, parse, stringify) == ErrorVerdict(required, EmptyJsonMessage)
  {
    assert !IsJsWhitespace(jsonInput[0]);
    TrimEmptyIff(jsonInput);
    NormalizeEmptyIff(jsonInput);
  }

  /** Text the parser rejects gives the error verdict carrying the parser's
      diagnostic. */
  lemma ParseFailureRejected(jsonInput: string, required: seq<string>, error: string,
                             parse: string -> Result<Json, string>, stringify: Json -> string)
    requires Normalize(jsonInput) != "" && parse(Normalize(jsonInput)) == Result.Failure(error)
    ensures Validate(jsonInput, required, parse, stringify) == ErrorVerdict(required, InvalidJsonPrefix + error)
  {
    NonBlankNormalized(jsonInput);
  }

  /** Text the parser accepts is classified on the parsed document, which
      becomes the extracted data. */
  lemma ParsedInputClassified(jsonInput: string, required: seq<string>, doc: Json,
                              parse: string -> Result<Json, string>, stringify: Json -> string)
    requires Normalize(jsonInput) != "" && parse(Normalize(jsonInput)) == Result.Success(doc)
    ensures var r := Validate(jsonInput, required, parse, stringify);
      && r == Classify(doc, required, stringify(doc))
      && r.extractedData == doc
      && (r.status == Status.Success <==> forall f | f in required :: FieldPresent(doc, f))
  {
    NonBlankNormalized(jsonInput);
    SuccessIff(doc, required, stringify(doc));
  }

  /** Text that survives normalisation is not blank to the panel's guard either. */
  lemma NonBlankNormalized(jsonInput: string)
    requires Normalize(jsonInput) != ""
    ensures Trim(jsonInput) != ""
  {
    NormalizeEmptyIff(jsonInput);
    TrimEmptyIff(jsonInput);
    if AllWhitespace(jsonInput) {
      assert AllBlank(jsonInput);
    }
  }

  /** Every failure, whatever its cause, reports all required specs as
      missing and none as present, with no data. */
  lemma FailuresReportEverythingMissing(jsonInput: string, required: seq<string>,
                                        parse: string -> Result<Json, string>, stringify: Json -> string)
    requires Trim(jsonInput) == "" || Preprocess(jsonInput, parse, stringify).Failure?
    ensures var r := Validate(jsonInput, required, parse, stringify);
      r.status == Status.Error && r.missingFields == required && r.presentFields == [] && r.extractedData == EmptyObject
  {
  }

  /** The panel's state: its required specs, the text box and the last verdict. */
  class Panel {
    const requiredFields: seq<string>
    var jsonInput: string
    var validationResult: Option<ValidationResult>

    constructor (requiredFields: seq<string>)
      ensures this.requiredFields == requiredFields
      ensures jsonInput == "" && validationResult == None
    {
      this.requiredFields := requiredFields;
      jsonInput := "";
      validationResult := None;
    }

    /** Typing into the text box keeps the last verdict. */
    method SetJsonInput(text: string)
      modifies this
      ensures jsonInput == text && validationResult == old(validationResult)
    {
      jsonInput := text;
    }

    /** `validateJson`: replaces the verdict by the verdict on the current text. */
    method ValidateJson(parse: string -> Result<Json, string>, stringify: Json -> string)
      modifies this
      ensures jsonInput == old(jsonInput)
      ensures validationResult == Some(Validate(jsonInput, requiredFields, parse, stringify))
    {
      validationResult := Some(Validate(jsonInput, requiredFields, parse, stringify));
    }
  }

  // ---------------------------------------------------------------------
  // Rule-pack dispatch

  datatype Pack = OficioB3Pack | DocumentoComprobatorioPack

  /** The document-type rule pack shown under the verdict, from the
      extracted data's `doc_type`: at most one applies. */
  function SpecificPack(result: Option<ValidationResult>): (pack: Option<Pack>)
    ensures pack == Some(OficioB3Pack)
            <==> result.Some? && OficioB3.IsOficioB3(result.value.extractedData)
    ensures pack == Some(DocumentoComprobatorioPack)
            <==> result.Some? && DocumentoComprobatorio.IsDocumentoComprobatorio(result.value.extractedData)
  {
    if result.None? then None
    else if OficioB3.IsOficioB3(result.value.extractedData) then Some(OficioB3Pack)
    else if DocumentoComprobatorio.IsDocumentoComprobatorio(result.value.extractedData) then
      Some(DocumentoComprobatorioPack)
    else None
  }

  /** A failed validation shows no rule pack. */
  lemma FailureShowsNoPack(required: seq<string>, message: string)
    ensures SpecificPack(Some(ErrorVerdict(required, message))) == None
  {
  }

  /** When no pack is selected, both packs would produce nothing anyway:
      the dispatch and the packs' own gates agree. */
  lemma DispatchAgreesWithGates(result: ValidationResult)
    requires SpecificPack(Some(result)) == None
    ensures OficioB3.Rules(result.extractedData) == []
    ensures DocumentoComprobatorio.Check(result.extractedData) == None
  {
  }
}
