/** The unlock panel: a selected PDF is posted to the extraction service,
    the JSON it answers (possibly wrapped as `[data, statusCode]`) is
    pretty-printed and validated against five flat list fields, and the
    verdict replaces the panel's result. */
module DesbloqueioPanel {
  import opened Results
  import opened Text
  import opened Json
  import opened FieldPresence
  import opened JsonPreprocessor
  import opened Completeness
  import ValidationPanel

  const RequiredFields := ["cpf", "cnpj", "chassi", "placa", "nome_financiado"]

  /** The names shown for the required fields: only `nome_financiado` is renamed. */
  const FieldDisplayMapping: map<string, string> := map[
    "cpf" := "cpf",
    "cnpj" := "cnpj",
    "chassi" := "chassi",
    "placa" := "placa",
    "nome_financiado" := "pessoas_identificadas"]

  const RequestErrorPrefix := "Erro na requisição: "

  /** `fieldDisplayMapping[alt] || alt`, for the mapping's own keys. */
  function MappedName(alt: string): (name: string)
    ensures name != alt <==> alt == "nome_financiado"
    ensures alt == "nome_financiado" ==> name == "pessoas_identificadas"
  {
    if alt in FieldDisplayMapping && FieldDisplayMapping[alt] != "" then FieldDisplayMapping[alt] else alt
  }

  /** The field name shown for a spec: its mapped alternatives joined by
      `" OR "`, or the mapped spec when it has a single alternative. */
  function DisplayName(fieldSpec: string): string {
    var alts := Alternatives(fieldSpec);
    if |alts| > 1 then Join(seq(|alts|, i requires 0 <= i < |alts| => MappedName(alts[i])), " OR ")
    else MappedName(fieldSpec)
  }

  /** The table shows the five required fields under the mapped names. */
  lemma DisplayNames()
    ensures seq(|RequiredFields|, i requires 0 <= i < |RequiredFields| => DisplayName(RequiredFields[i]))
            == ["cpf", "cnpj", "chassi", "placa", "pessoas_identificadas"]
  {
    forall i | 0 <= i < |RequiredFields|
      ensures Alternatives(RequiredFields[i]) == [RequiredFields[i]]
    {
      SplitWithoutSeparator(RequiredFields[i], '|');
    }
  }

  /** The answer's `[data, statusCode]` format: a non-empty array stands for
      its first element; any other answer is the data itself. */
  function Unwrap(data: Json): (r: Json)
    ensures data.JArr? && data.items != [] ==> r == data.items[0]
    ensures !(data.JArr? && data.items != []) ==> r == data
  {
    if data.JArr? && |data.items| > 0 then data.items[0] else data
  }

  /** The wrapped format gives back the data; an object answer is kept. */
  lemma UnwrapPair(data: Json, statusCode: real)
    ensures Unwrap(JArr([data, JNum(statusCode)])) == data
    ensures data.JObj? ==> Unwrap(data) == data
  {
  }

  /** This panel's `validateJson`: no blank guard of its own; a
      preprocessing failure gives the error verdict with its message, a
      parsed document is classified against the five fields. */
  function ValidateText(jsonData: string, parse: string -> Result<Json, string>, stringify: Json -> string): ValidationResult {
    match Preprocess(jsonData, parse, stringify)
    case Failure(message) => ErrorVerdict(RequiredFields, message)
    case Success(preprocessed) => Classify(preprocessed.original, RequiredFields, preprocessed.normalizedString)
  }

  /** On text that is not blank, the two panels reach the same verdict for
      the same required fields. */
  lemma AgreesWithGenericPanel(jsonData: string, parse: string -> Result<Json, string>, stringify: Json -> string)
    requires Trim(jsonData) != ""
    ensures ValidateText(jsonData, parse, stringify) == ValidationPanel.Validate(jsonData, RequiredFields, parse, stringify)
  {
  }

  /** On blank text they differ only in the message: this panel reports the
      preprocessor's empty-input message. */
  lemma BlankTextMessage(jsonData: string, parse: string -> Result<Json, string>, stringify: Json -> string)
    requires AllWhitespace(jsonData)
    ensures ValidateText(jsonData, parse, stringify) == ErrorVerdict(RequiredFields, EmptyJsonMessage)
    ensures ValidationPanel.Validate(jsonData, RequiredFields, parse, stringify)
            == ErrorVerdict(RequiredFields, ValidationPanel.BlankInputMessage)
  {
    assert AllBlank(jsonData);
    NormalizeEmptyIff(jsonData);
    ValidationPanel.BlankInputRejected(jsonData, RequiredFields, parse, stringify);
  }

  /** What the extraction service answered: the HTTP outcome and the body
      read as JSON (or the reason it could not be). */
  datatype Response = Response(ok: bool, status: nat, body: Result<Json, string>)

  /** The verdict `handleUpload` leaves: a failed request, a non-OK status
      or an unreadable body give the error verdict with the failure's
      message; otherwise the unwrapped data is pretty-printed and validated. */
  function UploadVerdict(response: Result<Response, string>,
                         parse: string -> Result<Json, string>, stringify: Json -> string): ValidationResult
  {
    match response
    case Failure(message) => ErrorVerdict(RequiredFields, message)
    case Success(r) =>
      if !r.ok then ErrorVerdict(RequiredFields, RequestErrorPrefix + DecimalString(r.status))
      else match r.body
        case Failure(message) => ErrorVerdict(RequiredFields, message)
        case Success(data) => ValidateText(stringify(Unwrap(data)), parse, stringify)
  }

  /** A non-OK answer is reported with its status code, which can be read
      back from the message. */
  lemma RequestErrorReportsStatus(r: Response, parse: string -> Result<Json, string>, stringify: Json -> string)
    requires !r.ok
    ensures var v := UploadVerdict(Result.Success(r), parse, stringify);
      && v.status == Status.Error && v.missingFields == RequiredFields && v.presentFields == []
      && |RequestErrorPrefix| <= |v.message|
      && v.message[..|RequestErrorPrefix|] == RequestErrorPrefix
      && DecimalValue(v.message[|RequestErrorPrefix|..]) == r.status
  {
    var v := UploadVerdict(Result.Success(r), parse, stringify);
    assert v.message[|RequestErrorPrefix|..] == DecimalString(r.status);
    DecimalRoundTrip(r.status);
  }

  /** When the parser reads back what the printer wrote, the verdict on an
      answer is the classification of its unwrapped data. */
  lemma UploadClassifiesData(r: Response, data: Json,
                             parse: string -> Result<Json, string>, stringify: Json -> string)
    requires r.ok && r.body == Result.Success(data)
    requires Normalize(stringify(Unwrap(data))) != ""
    requires parse(Normalize(stringify(Unwrap(data)))) == Result.Success(Unwrap(data))
    ensures UploadVerdict(Result.Success(r), parse, stringify)
            == Classify(Unwrap(data), RequiredFields, stringify(Unwrap(data)))
  {
  }

  /** A required field given as a flat key of an object is present exactly
      when that key holds a present value. */
  lemma FlatFieldPresent(fields: map<string, Json>, f: string)
    requires '|' !in f && '.' !in f
    ensures FieldPresent(JObj(fields), f) <==> f in fields && IsPresentValue(Some(fields[f]))
  {
    SingleAlternative(JObj(fields), f);
    FlatPath(JObj(fields), f);
  }

  /** The required fields are flat keys with a single alternative each. */
  lemma RequiredFieldsAreFlat()
    ensures forall f | f in RequiredFields :: '|' !in f && '.' !in f
  {
  }

  /** An object answer with non-empty lists under all the flat keys succeeds. */
  lemma AllListsSucceed(fields: map<string, Json>, required: seq<string>, formattedJson: string)
    requires forall f | f in required :: '|' !in f && '.' !in f
    requires forall f | f in required :: f in fields && fields[f].JArr? && fields[f].items != []
    ensures Classify(JObj(fields), required, formattedJson).status == Status.Success
  {
    forall f | f in required
      ensures FieldPresent(JObj(fields), f)
    {
      FlatFieldPresent(fields, f);
    }
    SuccessIff(JObj(fields), required, formattedJson);
  }

  /** An object answer whose lists under the flat keys are all empty (or
      absent) finds nothing: the required fields are flat keys, so data
      nested under another key does not count either. */
  lemma EmptyListsFindNothing(fields: map<string, Json>, required: seq<string>, formattedJson: string)
    requires required != []
    requires forall f | f in required :: '|' !in f && '.' !in f
    requires forall f | f in required :: f !in fields || fields[f] == JArr([])
    ensures var v := Classify(JObj(fields), required, formattedJson);
      v.status == Status.Error && v.message == NonePresentMessage
  {
    forall f | f in required
      ensures !FieldPresent(JObj(fields), f)
    {
      FlatFieldPresent(fields, f);
    }
    ErrorIff(JObj(fields), required, formattedJson);
  }

  /** The panel's state: the chosen PDF (only whether there is one), the
      loading flag and the last verdict. */
  class Panel {
    var selectedFile: bool
    var isLoading: bool
    var validationResult: Option<ValidationResult>

    constructor ()
      ensures !selectedFile && !isLoading && validationResult == None
    {
      selectedFile := false;
      isLoading := false;
      validationResult := None;
    }

    /** `handleFileChange`: a PDF becomes the selection and clears the
        verdict; no file or another type changes nothing. */
    method SelectFile(chosen: bool, isPdf: bool)
      modifies this
      ensures chosen && isPdf ==> selectedFile && validationResult == None
      ensures !(chosen && isPdf) ==> selectedFile == old(selectedFile) && validationResult == old(validationResult)
      ensures isLoading == old(isLoading)
    {
      if chosen && isPdf {
        selectedFile := true;
        validationResult := None;
      }
    }

    /** `handleUpload`: without a selection nothing changes; otherwise the
        verdict on the service's answer replaces the result and loading ends. */
    method HandleUpload(response: Result<Response, string>,
                        parse: string -> Result<Json, string>, stringify: Json -> string)
      modifies this
      ensures !old(selectedFile) ==> isLoading == old(isLoading) && validationResult == old(validationResult)
      ensures old(selectedFile) ==> validationResult == Some(UploadVerdict(response, parse, stringify)) && !isLoading
      ensures selectedFile == old(selectedFile)
    {
      if !selectedFile {
        return;
      }
      isLoading := true;
      validationResult := None;
      if response.Failure? {
        validationResult := Some(ErrorVerdict(RequiredFields, response.error));
      } else if !response.value.ok {
        validationResult := Some(ErrorVerdict(RequiredFields, RequestErrorPrefix + DecimalString(response.value.status)));
      } else if response.value.body.Failure? {
        validationResult := Some(ErrorVerdict(RequiredFields, response.value.body.error));
      } else {
        var data := response.value.body.value;
        if data.JArr? && |data.items| > 0 {
          data := data.items[0];
        }
        var jsonString := stringify(data);
        validationResult := Some(ValidateText(jsonString, parse, stringify));
      }
      isLoading := false;
    }
  }
}
