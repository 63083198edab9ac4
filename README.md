# OCR-result validation engine, modelled in Dafny

This project models the validation core of a small web tool. The tool
checks the JSON that an OCR/extraction service produces for Brazilian
vehicle-lien documents. The core has five parts:

- **JSON preprocessor.** It removes zero-width characters, trims the text
  and parses it. It keeps the parsed document, a humanised copy whose
  snake_case string entries become Portuguese title case, and the
  pretty-printed text.
- **Field completeness.** A required field spec such as
  `processo_administrativo|oficio.solicitante` lists dotted paths as
  alternatives. The spec is present when any alternative resolves to a
  present value: not `undefined`, `null` or `""`, and not an empty array.
  The required specs are split into present and missing ones. The split
  becomes a `success`, `partial` or `error` verdict with a message.
- **Generic validation panel.** It holds the pasted text and the last
  verdict. It refuses blank text, validates the rest, and picks the rule
  pack for the document's `doc_type`.
- **Unlock panel.** It posts a PDF to the extraction service and unwraps
  the `[data, statusCode]` answer. It validates the pretty-printed data
  against five flat list fields, and shows display names with
  `nome_financiado` renamed.
- **Two rule packs.**
  - `oficio_b3` has five rules: B3's postal address, the lien-release
    request, reason and destination, the first vehicle, and the requester.
  - `documento_comprobatorio` has one rule: the administrative process
    number must match `XXXXX.XXXXXX/YYYY-DD`.

Some JavaScript behaviour is modelled explicitly:

- `JSON.parse` and `JSON.stringify(…, null, 2)` are parameters of type
  `string -> Result<Json, string>` and `Json -> string`.
- `undefined` is `None`.
- Truthiness, `typeof … === "object"` and property access on objects and
  arrays follow JavaScript (module `Json`).
- A `.trim()` on a truthy value that is not a string would throw. The
  rules state this as a precondition, named `…Typed` or `StringIfTruthy`.

Modules:

| module | what it models |
|---|---|
| `Results` | `Option` and `Result` |
| `Text` | the string operations the code uses: `trim`, `split`, `join`, `toLowerCase`, `includes`, decimal rendering |
| `Json` | JSON values, truthiness, property access |
| `JsonPreprocessor` | the preprocessor |
| `FieldPresence` | nested paths, alternatives, presence, the result table's lookup and display |
| `Completeness` | the verdict shared by both panels |
| `ValidationRules` | the rule record and the idioms the rule packs share |
| `OficioB3` | the `oficio_b3` rule pack |
| `DocumentoComprobatorio` | the `documento_comprobatorio` rule pack |
| `ValidationPanel` | the generic panel |
| `DesbloqueioPanel` | the unlock panel |

## Model

| member | source | states |
|---|---|---|
| Text.TrimEmptyIff | src/utils/jsonPreprocessor.ts:14 | `trim()` gives the empty string exactly when every character is JavaScript whitespace |
| Text.TrimIsMiddle | src/utils/jsonPreprocessor.ts:14 | `trim()` returns the middle of the text: only whitespace is cut at either end |
| Text.TrimTrimmed | src/utils/jsonPreprocessor.ts:14 | trimming text with no whitespace at either end leaves it unchanged |
| Text.Split | src/utils/jsonPreprocessor.ts:54 | `split(sep)` gives one piece more than there are separators, and no piece holds the separator |
| Text.JoinSplit | src/components/ValidationPanel.tsx:58 | joining the pieces of a split with the separator rebuilds the text |
| Text.SplitJoin | src/utils/jsonPreprocessor.ts:54 | splitting a join of separator-free pieces gives back the pieces |
| Text.ToLowerIdempotent | src/utils/jsonPreprocessor.ts:61 | lower-casing twice is lower-casing once |
| Text.DecimalString | src/components/ValidationPanel.tsx:140 | a count is rendered as a non-empty string of digits with no leading zero |
| Text.DecimalRoundTrip | src/components/ValidationPanel.tsx:140 | reading back the decimal rendering of a count gives the count |
| Json.IndexKey | src/components/ValidationPanel.tsx:61-63 | a property name selects an array element only when it is the canonical decimal form of the index |
| Json.MemberAtIndex | src/components/ValidationPanel.tsx:61-63 | `items["i"]`, with `i` written in decimal, is the i-th element |
| JsonPreprocessor.RemoveZeroWidth | src/utils/jsonPreprocessor.ts:11 | the result holds no U+200B–U+200D or U+FEFF, and is no longer than the input |
| JsonPreprocessor.RemoveZeroWidthClean | src/utils/jsonPreprocessor.ts:11 | text with no zero-width character is left unchanged |
| JsonPreprocessor.NormalizeIsClean | src/utils/jsonPreprocessor.ts:9-17 | normalised text has no zero-width character and no whitespace at either end |
| JsonPreprocessor.NormalizeIdempotent | src/utils/jsonPreprocessor.ts:9-17 | normalising twice is normalising once |
| JsonPreprocessor.NormalizeEmptyIff | src/utils/jsonPreprocessor.ts:9-17 | normalisation gives `""` exactly when every character is zero-width or whitespace |
| JsonPreprocessor.ParseAndValidate | src/utils/jsonPreprocessor.ts:23-41 | the "JSON vazio" error is raised exactly when the normalised text is empty. Otherwise the result is the parse of the normalised text, and a parse error is prefixed with "JSON inválido: " |
| JsonPreprocessor.BlankTextIsEmptyJson | src/utils/jsonPreprocessor.ts:26-28 | text made of whitespace and zero-width characters gets the empty-JSON error |
| JsonPreprocessor.AbbreviationsArePlain | src/utils/jsonPreprocessor.ts:62-67 | abbreviation outputs contain neither `_` nor a space |
| JsonPreprocessor.AccentsArePlain | src/utils/jsonPreprocessor.ts:70-87 | accented outputs contain neither `_` nor a space |
| JsonPreprocessor.Segments | src/utils/jsonPreprocessor.ts:57-95 | every word is mapped, one output per word |
| JsonPreprocessor.TitleCaseEmpty | src/utils/jsonPreprocessor.ts:51 | the empty string is returned unchanged |
| JsonPreprocessor.TitleCaseTwo | src/utils/jsonPreprocessor.ts:54-97 | `a_b` becomes the two converted words joined by one space |
| JsonPreprocessor.TitleCaseDoubleUnderscore | src/utils/jsonPreprocessor.ts:58 | `a__b` keeps an empty word between, so the two words are joined by two spaces |
| JsonPreprocessor.SplitDoubled | src/utils/jsonPreprocessor.ts:54 | `split("_")` on a doubled underscore yields the two words around an empty one |
| JsonPreprocessor.DoubleUnderscoreExample | src/utils/jsonPreprocessor.ts:58 | `"a__b"` becomes `"A  B"` |
| JsonPreprocessor.ProcessoWord | src/utils/jsonPreprocessor.ts:94 | `processo` has no table entry and is capitalised: `Processo` |
| JsonPreprocessor.TitleCaseLeilaoPublico | src/utils/jsonPreprocessor.ts:46 | the first documented example: `leilao_publico` becomes `Leilão Público` |
| JsonPreprocessor.TitleCaseProcessoAdministrativo | src/utils/jsonPreprocessor.ts:47 | the second documented example: `processo_administrativo` becomes `Processo Administrativo` |
| JsonPreprocessor.TitleCaseOficioB3 | src/utils/jsonPreprocessor.ts:48 | the third documented example: `oficio_b3` becomes `Ofício B3` |
| JsonPreprocessor.SegmentIgnoresCase | src/utils/jsonPreprocessor.ts:61-94 | a word converts the same whatever its letter case |
| JsonPreprocessor.TitleCaseIgnoresCase | src/utils/jsonPreprocessor.ts:50-98 | a text converts the same as its lower-case form |
| JsonPreprocessor.SplitToLower | src/utils/jsonPreprocessor.ts:54 | splitting lower-cased text gives the lower-cased pieces |
| JsonPreprocessor.SegmentKeepsLetters | src/utils/jsonPreprocessor.ts:94 | a word outside the accent table keeps its letters; only their case changes |
| JsonPreprocessor.TipoWord | src/utils/jsonPreprocessor.ts:94 | `tipo` becomes `Tipo` |
| JsonPreprocessor.ConstructorWord | src/utils/jsonPreprocessor.ts:89-91 | as written, the word `constructor` finds the inherited `Object` function; with own keys only it is capitalised |
| JsonPreprocessor.ConstructorLookedUp | src/utils/jsonPreprocessor.ts:89-91 | read as written, the lookup of `constructor` returns the inherited member |
| JsonPreprocessor.ConstructorCapitalised | src/utils/jsonPreprocessor.ts:89-94 | with own keys only, `constructor` falls through to capitalisation |
| JsonPreprocessor.ConstructorWordAsWritten | src/utils/jsonPreprocessor.ts:89-91 | as written, `tipo_constructor` becomes `Tipo function Object() { [native code] }`: the word's letters are lost |
| JsonPreprocessor.ConstructorWordCorrected | src/utils/jsonPreprocessor.ts:89-94 | with own keys only, `tipo_constructor` becomes `Tipo Constructor` |
| JsonPreprocessor.TitleCaseHasNoUnderscore | src/utils/jsonPreprocessor.ts:50-98 | the output never contains an underscore |
| JsonPreprocessor.SegmentHasNoUnderscore | src/utils/jsonPreprocessor.ts:57-95 | a converted word contains no underscore |
| JsonPreprocessor.SegmentHasNoSpace | src/utils/jsonPreprocessor.ts:57-95 | a word without spaces converts to a word without spaces |
| JsonPreprocessor.TitleCaseWords | src/utils/jsonPreprocessor.ts:54-97 | for text without spaces, splitting the output on spaces gives back the converted words, one per underscore-separated word |
| JsonPreprocessor.FormatObjectValues | src/utils/jsonPreprocessor.ts:104-141 | the loop over entries and elements builds exactly the humanised copy (`Formatted`): object entries that are strings with `_` are converted, containers are handled recursively, everything else is kept |
| JsonPreprocessor.FormatItems | src/utils/jsonPreprocessor.ts:110-112 | the array branch maps every element to its humanised copy, in order |
| JsonPreprocessor.FormatFields | src/utils/jsonPreprocessor.ts:115-136 | the entry loop fills a fresh dictionary with exactly the humanised copy's entries, whatever order the keys are visited in |
| JsonPreprocessor.FormattedSameShape | src/utils/jsonPreprocessor.ts:104-141 | the copy has the document's shape: same keys, same array lengths, same non-string leaves |
| JsonPreprocessor.FormattedFixesHumanised | src/utils/jsonPreprocessor.ts:120-126 | a document with no snake_case object entry is copied unchanged |
| JsonPreprocessor.FormattedIsHumanised | src/utils/jsonPreprocessor.ts:120-129 | no object entry of the copy, at any depth, contains an underscore |
| JsonPreprocessor.FormattedIdempotent | src/utils/jsonPreprocessor.ts:104-141 | humanising the copy again changes nothing |
| JsonPreprocessor.FormattedKeepsArrayStrings | src/utils/jsonPreprocessor.ts:110-112 | strings directly inside arrays are kept as they are |
| JsonPreprocessor.Preprocess | src/utils/jsonPreprocessor.ts:153-167 | fails exactly when the normalised text is empty (with the empty-JSON message) or does not parse (with the prefixed parser message). Otherwise `original` is the parsed document, `formatted` has its shape with no snake_case entry left, and `normalizedString` is its pretty-printed text |
| FieldPresence.GetNestedValue | src/components/ValidationPanel.tsx:57-70 | the loop over the dotted path's keys returns the path's resolution: `undefined` once a non-object is reached |
| FieldPresence.ResolveAppend | src/components/ValidationPanel.tsx:61-67 | resolving `a.b` is resolving `b` from where `a` leads |
| FieldPresence.ResolveOfNone | src/components/ValidationPanel.tsx:62-65 | nothing resolves from `undefined` |
| FieldPresence.ResolveStopsAtNonObject | src/components/ValidationPanel.tsx:62-65 | once a prefix of the path reaches a non-object, the whole path is `undefined` |
| FieldPresence.ResolveThroughObjects | src/components/ValidationPanel.tsx:62-65 | a path that resolves passes through objects at every step before the last |
| FieldPresence.FlatPath | src/components/ValidationPanel.tsx:57-70 | a dot-free path is the member of an object or array, and `undefined` on anything else |
| FieldPresence.Alternatives | src/components/ValidationPanel.tsx:78 | a spec always has at least one alternative |
| FieldPresence.IsFieldPresent | src/components/ValidationPanel.tsx:73-99 | the loop with early return answers true exactly when some alternative holds a present value |
| FieldPresence.SingleAlternative | src/components/ValidationPanel.tsx:73-99 | a spec without `\|` is present exactly when its own path is |
| FieldPresence.TwoAlternatives | src/components/ValidationPanel.tsx:73-99 | `a\|b` is present exactly when `a` or `b` is |
| FieldPresence.AlternativesOfTwo | src/components/ValidationPanel.tsx:78 | `a\|b` has exactly the two alternatives `a` and `b` |
| FieldPresence.FirstDisplayable | src/components/ValidationPanel.tsx:428-443 | finds the first alternative whose value is not `undefined`, `null` or `""`. Every alternative before it is not displayable; if none is found, no alternative is displayable |
| FieldPresence.DisplayMatch | src/components/ValidationPanel.tsx:424-443 | the loop with `break` reports the first displayable alternative and its value. Otherwise it reports the first alternative and `undefined` |
| FieldPresence.DisplayPlaceholderIff | src/components/ValidationPanel.tsx:445-463 | the cell shows the dash exactly when no displayable value was found or the value is the string `"—"` itself, since JSON text is never the dash |
| FieldPresence.DisplayValueNeverEmpty | src/components/ValidationPanel.tsx:445-463 | no cell is blank: strings shown are non-empty, booleans give `true`/`false`, containers their JSON text |
| FieldPresence.DisplayNameSingle | src/components/ValidationPanel.tsx:465-469 | a single-alternative spec is shown as itself |
| FieldPresence.DisplayNameOfTwo | src/components/ValidationPanel.tsx:465-469 | `a\|b` is shown as `a OR b` |
| FieldPresence.PresentIsDisplayable | src/components/ValidationPanel.tsx:515-527 | a present field always has a displayable alternative to name after "Found:" |
| FieldPresence.DisplayDivergesFromPresence | src/components/ValidationPanel.tsx:428-443 | the display lookup stops at an empty array that presence skips: with `[]` under `a` and a present value under `b`, `a\|b` is present yet the table shows `a` |
| Completeness.PresentFields | src/components/ValidationPanel.tsx:123-125 | keeps exactly the required specs that are present |
| Completeness.MissingFields | src/components/ValidationPanel.tsx:126-128 | keeps exactly the required specs not listed as present |
| Completeness.MissingIsAbsent | src/components/ValidationPanel.tsx:123-128 | filtering out the present list leaves exactly the absent specs, duplicates included |
| Completeness.Partition | src/components/ValidationPanel.tsx:123-128 | every required spec is in exactly one of the two lists, as often as it is required |
| Completeness.KeepOrder | src/components/ValidationPanel.tsx:123-128 | both lists keep the declaration order |
| Completeness.ErrorVerdictAsNothingPresent | src/components/ValidationPanel.tsx:156-169 | a failure reports the status and lists that classifying a document with no spec present gives: `error`, every spec missing, none present |
| Completeness.ClassifyPartition | src/components/ValidationPanel.tsx:123-154 | a verdict's present and missing lists partition the required specs, in order |
| Completeness.SuccessIff | src/components/ValidationPanel.tsx:133-137 | `success` exactly when every required spec is present |
| Completeness.PartialIff | src/components/ValidationPanel.tsx:138-141 | `partial` exactly when some spec is present and some is not |
| Completeness.ErrorIff | src/components/ValidationPanel.tsx:142-146 | `error` exactly when there are required specs and none is present |
| Completeness.PartialMessage | src/components/ValidationPanel.tsx:140 | the partial message reports the present count and the required count, and both can be read back from its words |
| Completeness.CountMessageWords | src/components/ValidationPanel.tsx:140 | the partial message splits into exactly its five words |
| ValidationRules.OrTruthy | src/components/OficioB3Validation.tsx:48 | `v \|\| fallback` is truthy exactly when `v` or the fallback is, and is the fallback when `v` is `undefined` |
| ValidationRules.NonBlankIff | src/components/OficioB3Validation.tsx:98-99 | `v && v.trim() !== ""` holds exactly for a string with a non-whitespace character |
| ValidationRules.ValidCount | src/components/OficioB3Validation.tsx:215 | the number of valid rules is at most the number of rules |
| ValidationRules.AllValidIffCount | src/components/OficioB3Validation.tsx:214-215 | every rule is valid exactly when the valid count equals the number of rules |
| OficioB3.FormatLabel | src/components/OficioB3Validation.tsx:17-22 | non-strings and `""` are kept as they are; a string label comes out without underscores |
| OficioB3.FormatLabelKeepsDash | src/components/OficioB3Validation.tsx:17-22 | the dash placeholder is shown unchanged |
| OficioB3.EnderecoIsThePath | src/components/OficioB3Validation.tsx:52 | the address is the dotted path `destinatario_b3.endereco` of the `oficio` object |
| OficioB3.B3AddressRule | src/components/OficioB3Validation.tsx:51-85 | the rule is named "Direcionado à B3". It shows data exactly when an address is present, under the keys CEP, Cidade, Endereço and UF |
| OficioB3.B3AddressValidIff | src/components/OficioB3Validation.tsx:54-68 | the address is accepted exactly when all five fields equal B3's address |
| OficioB3.ExpectedAddressAccepted | src/components/OficioB3Validation.tsx:54-60 | B3's own address is accepted |
| OficioB3.AddressSingleChange | src/components/OficioB3Validation.tsx:62-68 | changing any one field of an accepted address makes it rejected |
| OficioB3.Linha2NotShown | src/components/OficioB3Validation.tsx:67-83 | the second address line decides validity but is not shown |
| OficioB3.SolicitacaoValidIff | src/components/OficioB3Validation.tsx:88-116 | valid exactly when three things hold: the subject has visible text, the request mentions "baixa de gravame" in any case, and the subject type is `baixa_gravame`. The "mentions" entry reads "Sim" exactly when the mention is there |
| OficioB3.UpperCaseMentionCounts | src/components/OficioB3Validation.tsx:93-96 | any request text containing "BAIXA DE GRAVAME" counts as the mention |
| OficioB3.MotivoDestinacaoValidIff | src/components/OficioB3Validation.tsx:119-141 | valid exactly when reason and destination both have visible text. An absent one is shown as the dash |
| OficioB3.NoVehicleFails | src/components/OficioB3Validation.tsx:147-153 | without a non-empty vehicle list the rule fails with "Nenhum veículo encontrado" and shows nothing |
| OficioB3.OnlyFirstVehicleCounts | src/components/OficioB3Validation.tsx:155-164 | with a vehicle list, the verdict is the first vehicle's |
| OficioB3.RenavamIsOptional | src/components/OficioB3Validation.tsx:156-164 | the RENAVAM number never changes a vehicle's verdict |
| OficioB3.OneVehicleMessage | src/components/OficioB3Validation.tsx:169-170 | one vehicle gives the singular message |
| OficioB3.TwoVehiclesMessage | src/components/OficioB3Validation.tsx:169-170 | two vehicles give the plural message |
| OficioB3.SolicitanteValidIff | src/components/OficioB3Validation.tsx:184-203 | valid exactly when agency and unit both have visible text |
| OficioB3.Names | src/components/OficioB3Validation.tsx:206-212 | one name per rule |
| OficioB3.Rules | src/components/OficioB3Validation.tsx:42-48 | no rules unless `doc_type` is `oficio_b3`; otherwise the five rules in their display order |
| OficioB3.RulesInOrder | src/components/OficioB3Validation.tsx:206-212 | the five rules carry the names `Direcionado à B3`, `Solicitação`, `Motivo e Destinação`, `Dados do Veículo`, `Solicitante`, in that order |
| OficioB3.AllValidIffFive | src/components/OficioB3Validation.tsx:214-215 | all rules are valid exactly when the count reads 5 |
| OficioB3.MissingOficioFailsAll | src/components/OficioB3Validation.tsx:48 | an `oficio_b3` document without an `oficio` object fails every rule |
| OficioB3.NoneValid | src/components/OficioB3Validation.tsx:215 | a list of failed rules counts zero valid |
| DocumentoComprobatorio.DigitsPrefix | src/components/DocumentoComprobatorioValidation.tsx:48 | `\d{n}` at the start of the text means its first n characters are digits |
| DocumentoComprobatorio.DigitsShift | src/components/DocumentoComprobatorioValidation.tsx:48 | digit blocks keep their place when the text is cut |
| DocumentoComprobatorio.MatchesIff | src/components/DocumentoComprobatorioValidation.tsx:48-49 | the anchored pattern accepts exactly the 20-character strings with digits everywhere except `.`, `/` and `-` at positions 5, 12 and 17 |
| DocumentoComprobatorio.FrontMatches | src/components/DocumentoComprobatorioValidation.tsx:48-49 | `\d{5}\.\d{6}\/` consumes the first thirteen characters exactly when they have that shape |
| DocumentoComprobatorio.TailMatches | src/components/DocumentoComprobatorioValidation.tsx:48-49 | `\d{4}-\d{2}$` accepts exactly the seven-character rest of that shape |
| DocumentoComprobatorio.ProcessoRule | src/components/DocumentoComprobatorioValidation.tsx:27-64 | the rule is named "Processo Administrativo" |
| DocumentoComprobatorio.Check | src/components/DocumentoComprobatorioValidation.tsx:19-24 | the rule is shown exactly for `documento_comprobatorio` documents |
| DocumentoComprobatorio.ProcessoValidIff | src/components/DocumentoComprobatorioValidation.tsx:31-52 | valid exactly when the value is a string of the expected shape |
| DocumentoComprobatorio.ShapeIsNonBlank | src/components/DocumentoComprobatorioValidation.tsx:31-49 | a value of the expected shape is never treated as blank |
| DocumentoComprobatorio.ProcessoMessages | src/components/DocumentoComprobatorioValidation.tsx:31-56 | three cases, each exactly: the missing message for an absent or blank value, the format message for a malformed one, the valid message for a valid one |
| DocumentoComprobatorio.ProcessoExtracted | src/components/DocumentoComprobatorioValidation.tsx:35-61 | a missing value shows two dashes. A present one shows itself, a mark that agrees with the verdict, and the expected pattern |
| DocumentoComprobatorio.ExampleIsValid | src/components/DocumentoComprobatorioValidation.tsx:238 | the documented example `12345.678901/2024-01` has the expected shape |
| DocumentoComprobatorio.ExampleDocumentPasses | src/components/DocumentoComprobatorioValidation.tsx:238 | a document carrying the example passes with the valid message |
| DocumentoComprobatorio.ShortFirstGroupIsMalformed | src/components/DocumentoComprobatorioValidation.tsx:48-56 | a four-digit first group is reported as malformed, not as missing |
| DocumentoComprobatorio.BlankIsMissing | src/components/DocumentoComprobatorioValidation.tsx:31-44 | a blank value is reported as missing |
| ValidationPanel.BlankInputRejected | src/components/ValidationPanel.tsx:102-113 | whitespace-only text is refused with "Por favor, cole um JSON para validar", everything missing and `{}` |
| ValidationPanel.ZeroWidthInputRejected | src/components/ValidationPanel.tsx:102-118 | text made only of zero-width characters passes the panel's blank guard. The preprocessor then refuses it with the empty-JSON message |
| ValidationPanel.ParseFailureRejected | src/components/ValidationPanel.tsx:156-169 | unparsable text gives the error verdict carrying "JSON inválido: " and the parser's message |
| ValidationPanel.ParsedInputClassified | src/components/ValidationPanel.tsx:115-154 | parsed text is classified on the parsed document, with its pretty-printed text. It succeeds exactly when every spec is present |
| ValidationPanel.NonBlankNormalized | src/components/ValidationPanel.tsx:102 | text that survives normalisation also passes the blank guard |
| ValidationPanel.FailuresReportEverythingMissing | src/components/ValidationPanel.tsx:102-169 | every failure reports all specs missing, none present and `{}` |
| ValidationPanel.Panel.constructor | src/components/ValidationPanel.tsx:47-54 | the panel starts with empty text and no verdict |
| ValidationPanel.Panel.SetJsonInput | src/components/ValidationPanel.tsx:251 | typing replaces the text and keeps the verdict |
| ValidationPanel.Panel.ValidateJson | src/components/ValidationPanel.tsx:101-171 | the verdict becomes `Validate` of the current text and the panel's specs |
| ValidationPanel.SpecificPack | src/components/ValidationPanel.tsx:227-229 | the `oficio_b3` pack is chosen exactly for that `doc_type`, and the `documento_comprobatorio` pack likewise |
| ValidationPanel.FailureShowsNoPack | src/components/ValidationPanel.tsx:227-229 | a failed validation shows no rule pack |
| ValidationPanel.DispatchAgreesWithGates | src/components/ValidationPanel.tsx:284-291 | when no pack is chosen, both packs' own gates would show nothing |
| DesbloqueioPanel.MappedName | src/components/DesbloqueioPanel.tsx:59-65 | only `nome_financiado` is renamed, to `pessoas_identificadas` |
| DesbloqueioPanel.DisplayNames | src/components/DesbloqueioPanel.tsx:633-639 | the five fields are shown as cpf, cnpj, chassi, placa, pessoas_identificadas |
| DesbloqueioPanel.UnwrapPair | src/components/DesbloqueioPanel.tsx:208-211 | `[data, statusCode]` gives back `data`, and an object answer is kept |
| DesbloqueioPanel.AgreesWithGenericPanel | src/components/DesbloqueioPanel.tsx:125-179 | on non-blank text the unlock panel's verdict is the generic panel's verdict for the same fields |
| DesbloqueioPanel.BlankTextMessage | src/components/DesbloqueioPanel.tsx:125-129 | on blank text the unlock panel reports the empty-JSON message, where the generic panel reports its own |
| DesbloqueioPanel.RequestErrorReportsStatus | src/components/DesbloqueioPanel.tsx:202-204 | a non-OK answer gives the error verdict "Erro na requisição: " plus the status code, which reads back from the message |
| DesbloqueioPanel.UploadClassifiesData | src/components/DesbloqueioPanel.tsx:206-215 | when the parser reads back what the printer wrote, the verdict classifies the unwrapped data |
| DesbloqueioPanel.FlatFieldPresent | src/components/DesbloqueioPanel.tsx:100-123 | a flat field is present exactly when its key holds a present value |
| DesbloqueioPanel.AllListsSucceed | src/components/DesbloqueioPanel.tsx:131-145 | non-empty lists under all flat keys give `success` |
| DesbloqueioPanel.EmptyListsFindNothing | src/components/DesbloqueioPanel.tsx:131-154 | empty or absent lists under all flat keys give `error` with "Nenhum campo obrigatório encontrado" |
| DesbloqueioPanel.Panel.constructor | src/components/DesbloqueioPanel.tsx:68-71 | no file, not loading, no verdict |
| DesbloqueioPanel.Panel.SelectFile | src/components/DesbloqueioPanel.tsx:73-83 | a PDF becomes the selection and clears the verdict; anything else changes nothing |
| DesbloqueioPanel.Panel.HandleUpload | src/components/DesbloqueioPanel.tsx:181-235 | without a file nothing changes. Otherwise the verdict becomes `UploadVerdict` of the answer and loading ends |

## Left out

- The toasts, the clipboard, the textarea and the rest of the rendering are not modelled. So are the network request, the `FormData` body and the file-type check: an upload is modelled by its outcome (`Response`), and a file choice by two flags.
- `JSON.parse` and `JSON.stringify` are parameters. Their own behaviour, number formatting included, is not modelled.
- Numbers in the result table are shown through `stringify` in `FieldPresence.DisplayValue`. The source uses `String(value)` for them; the two agree on finite numbers.
- Floating point: JSON numbers are `real`.
- `toLowerCase` and `toUpperCase` are modelled on ASCII letters only. Unicode case mapping, such as `ß` becoming `SS`, is not modelled.
- JSON objects are maps. Key order (which `JSON.stringify` keeps) and `__proto__` keys are not modelled.
- Property access sees only an object's own keys. The only inherited member modelled is the accent table's `constructor`, in `TitleCaseAsWritten`.
- `DesbloqueioPanel.MappedName`: models `fieldDisplayMapping[alt] || alt` with own keys only. An inherited name such as `constructor` would be shown as the `Object` function's text, but the field list is fixed and contains none.
- Calling `.trim()` on a truthy non-string throws inside a rule pack and breaks the page. This is stated as a precondition (`StringIfTruthy`, the `…Typed` predicates) rather than modelled as an outcome.
- A thrown value that is not an `Error` gets a fallback message in both `catch` blocks. Every failure modelled here is an `Error`, so the fallback is not modelled.
- The panels' `idle` status is the absence of a verdict (`None`).
- The unlock panel's `isLoading` flag is set and then cleared in the same call. Only the final state is stated, together with the early return when no file is chosen.
- The preprocessed `formatted` copy is built and returned but not read by the panels. It is modelled and proved, and no verdict depends on it.
- The result-table helpers are duplicated in each component (path resolution, presence, display). They are modelled once, in `FieldPresence`. The `oficio_b3` pack's own `getNestedValue` is the same function (`OficioB3.EnderecoIsThePath`).
- `DesbloqueioPanel.AllListsSucceed`, `DesbloqueioPanel.EmptyListsFindNothing`: stated for any list of flat field names, with `RequiredFieldsAreFlat` showing that the panel's five names qualify. The instance for the five literal names is not stated separately.
- `OficioB3.B3AddressRule`: the key list of the shown data is stated. For the other four rules the contract gives only the name, and their shown data is stated in the lemmas beside them.
- `JsonPreprocessor.Formatted`, `JsonPreprocessor.FormatObjectValues`, `JsonPreprocessor.FormatFields` and `OficioB3.FormatLabel` are built on the corrected humaniser `JsonPreprocessor.TitleCase`, which reads the accent table by own keys only. As written, the source gives the inherited `constructor` member for the word `constructor` in both places (jsonPreprocessor.ts line 123, OficioB3Validation.tsx line 21): `"tipo_constructor"` becomes `"Tipo function Object() { [native code] }"` rather than `"Tipo Constructor"`. That as-written behaviour is stated only for the humaniser itself (`JsonPreprocessor.TitleCaseAsWritten`, `JsonPreprocessor.ConstructorWordAsWritten`).

## Findings

| source | as written | input that shows it | evidently intended | confidence | as-written member | corrected member |
|---|---|---|---|---|---|---|
| src/utils/jsonPreprocessor.ts:89-91 | the accent table is a plain object, so `accentMap[word]` also finds inherited members; `constructor` is truthy (the `Object` function) | the value `"tipo_constructor"` becomes `"Tipo function Object() { [native code] }"` | only the listed words are accented; any other word is capitalised, giving `"Tipo Constructor"` | not executed | JsonPreprocessor.ConstructorWordAsWritten (on JsonPreprocessor.TitleCaseAsWritten) | JsonPreprocessor.ConstructorWordCorrected, JsonPreprocessor.SegmentKeepsLetters (on JsonPreprocessor.TitleCase) |
