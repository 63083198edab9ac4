/** The rule pack for documents of type `oficio_b3` (a letter to B3 asking
    for a lien to be lifted): five independent checks on the letter's
    `oficio` object, each with the data it extracted for display, and
    their tally. */
module OficioB3 {
  import opened Results
  import opened Text
  import opened Json
  import opened FieldPresence
  import opened JsonPreprocessor
  import opened ValidationRules

  predicate IsOficioB3(data: Json) {
    DocType(data) == Some(JStr("oficio_b3"))
  }

  /** `data?.oficio || {}`. */
  function Oficio(data: Json): Json {
    Or(Field(Some(data), "oficio"), EmptyObject)
  }

  /** `formatLabel`: a non-empty string is humanised, anything else is
      returned as it is. */
  function FormatLabel(v: Json): (r: Json)
    ensures !v.JStr? || v.s == "" ==> r == v
    ensures v.JStr? ==> r.JStr? && '_' !in r.s
  {
    if v.JStr? && v.s != "" then
      TitleCaseHasNoUnderscore(v.s);
      JStr(TitleCase(v.s))
    else
      assert v.JStr? ==> v.s == [];
      v
  }

  /** The dash placeholder comes out of `formatLabel` unchanged. */
  lemma FormatLabelKeepsDash()
    ensures FormatLabel(Dash) == Dash
  {
    var w := "—";
    SplitWithoutSeparator(w, '_');
    assert ToLower(w) == w;
    assert ToLower(w[1..]) == "";
    assert Segments([w], Accents) == [w];
  }

  // ---------------------------------------------------------------------
  // Rule 1: addressed to B3

  const ExpectedCep := "01013-001"
  const ExpectedCidade := "São Paulo"
  const ExpectedLinha1 := "Rua Quinze De Novembro, Nº 275 Centro"
  const ExpectedLinha2 := "Cep: 01013-001 - São Paulo - Sp"
  const ExpectedUf := "SP"

  /** B3's address, field by field. */
  const ExpectedAddress: map<string, string> := map[
    "cep" := ExpectedCep, "cidade" := ExpectedCidade, "linha1" := ExpectedLinha1,
    "linha2" := ExpectedLinha2, "uf" := ExpectedUf]

  /** `getNestedValue(oficio, "destinatario_b3.endereco")`. */
  function Endereco(oficio: Json): Option<Json> {
    Resolve(Some(oficio), ["destinatario_b3", "endereco"])
  }

  lemma EnderecoIsThePath(oficio: Json)
    ensures Endereco(oficio) == ResolvePath(oficio, "destinatario_b3" + "." + "endereco")
  {
    SplitJoin(["destinatario_b3", "endereco"], '.');
    assert Join(["destinatario_b3", "endereco"], ".") == "destinatario_b3" + "." + "endereco";
  }

  /** `endereco && endereco.cep === … && … && endereco.uf === …`. */
  predicate AddressMatches(endereco: Option<Json>) {
    && Truthy(endereco)
    && Field(endereco, "cep") == Some(JStr(ExpectedCep))
    && Field(endereco, "cidade") == Some(JStr(ExpectedCidade))
    && Field(endereco, "linha1") == Some(JStr(ExpectedLinha1))
    && Field(endereco, "linha2") == Some(JStr(ExpectedLinha2))
    && Field(endereco, "uf") == Some(JStr(ExpectedUf))
  }

  /** `validateB3Address`: valid when the recipient address is B3's; the
      address, when there is one, is shown without its second line. */
  function B3AddressRule(oficio: Json): (r: Rule)
    ensures r.name == "Direcionado à B3"
    ensures r.extractedData.Some? <==> Truthy(Endereco(oficio))
    ensures r.extractedData.Some? ==> Keys(r.extractedData.value) == ["CEP", "Cidade", "Endereço", "UF"]
  {
    var endereco := Endereco(oficio);
    var isValid := AddressMatches(endereco);
    Rule("Direcionado à B3", isValid,
         if isValid then "Endereço do destinatário B3 válido"
         else "Endereço do destinatário B3 " + "inválido ou incompleto",
         if Truthy(endereco) then
           Some([Entry("CEP", Field(endereco, "cep")), Entry("Cidade", Field(endereco, "cidade")),
                 Entry("Endereço", Field(endereco, "linha1")), Entry("UF", Field(endereco, "uf"))])
         else None)
  }

  /** The address is B3's exactly when every field of the expected address
      is there with exactly the expected text. */
  lemma B3AddressValidIff(oficio: Json)
    ensures var e := Endereco(oficio);
      B3AddressRule(oficio).isValid
      <==> e.Some? && forall k | k in ExpectedAddress :: Field(e, k) == Some(JStr(ExpectedAddress[k]))
  {
    var e := Endereco(oficio);
    if e.Some? && forall k | k in ExpectedAddress :: Field(e, k) == Some(JStr(ExpectedAddress[k])) {
      assert "cep" in ExpectedAddress && "cidade" in ExpectedAddress && "linha1" in ExpectedAddress;
      assert "linha2" in ExpectedAddress && "uf" in ExpectedAddress;
      assert Field(e, "cep") == Some(JStr(ExpectedCep));
    }
  }

  /** B3's own address, as an object, is accepted. */
  lemma ExpectedAddressAccepted()
    ensures AddressMatches(Some(JObj(map k | k in ExpectedAddress :: JStr(ExpectedAddress[k]))))
  {
  }

  /** Changing any one field of an accepted address makes it rejected. */
  lemma AddressSingleChange(fields: map<string, Json>, k: string, x: Json)
    requires AddressMatches(Some(JObj(fields)))
    requires k in ExpectedAddress && x != JStr(ExpectedAddress[k])
    ensures !AddressMatches(Some(JObj(fields[k := x])))
  {
  }

  /** The second address line decides validity but is not shown. */
  lemma Linha2NotShown(oficio: Json, other: Json)
    requires Endereco(oficio).Some? && Endereco(oficio).value.JObj?
    ensures var e := Endereco(oficio).value;
      B3AddressRule(oficio).extractedData
        == B3AddressRule(JObj(map["destinatario_b3" := JObj(map["endereco" := JObj(e.fields["linha2" := other])])])).extractedData
  {
    var e := Endereco(oficio).value;
    var o2 := JObj(map["destinatario_b3" := JObj(map["endereco" := JObj(e.fields["linha2" := other])])]);
    assert Endereco(o2) == Some(JObj(e.fields["linha2" := other]));
    FieldOfUpdate(e.fields, "linha2", other, "cep");
    FieldOfUpdate(e.fields, "linha2", other, "cidade");
    assert "linha1"[5] != "linha2"[5];
    FieldOfUpdate(e.fields, "linha2", other, "linha1");
    FieldOfUpdate(e.fields, "linha2", other, "uf");
  }

  // ---------------------------------------------------------------------
  // Rule 2: the request

  /** `solicitacao` is a string that mentions "baixa de gravame" in any case. */
  predicate HasBaixaGravame(solicitacao: Option<Json>) {
    Truthy(solicitacao) && solicitacao.value.JStr? && Contains(ToLower(solicitacao.value.s), "baixa de gravame")
  }

  /** `oficio.assunto.trim()` runs whenever the subject is truthy. */
  predicate SolicitacaoTyped(oficio: Json) {
    StringIfTruthy(Field(Some(oficio), "assunto"))
  }

  /** `validateSolicitacao`: a non-blank subject, a request text about
      lifting the lien and the `baixa_gravame` subject tag. */
  function SolicitacaoRule(oficio: Json): (r: Rule)
    requires SolicitacaoTyped(oficio)
    ensures r.name == "Solicitação"
  {
    var assunto := Field(Some(oficio), "assunto");
    var solicitacao := Field(Some(oficio), "solicitacao");
    var tipoAssunto := Field(Some(oficio), "tipo_assunto");
    var hasBaixaGravame := HasBaixaGravame(solicitacao);
    var isValid := NonBlank(assunto) && hasBaixaGravame && tipoAssunto == Some(JStr("baixa_gravame"));
    Rule("Solicitação", isValid,
         if isValid then "Solicitação válida com assunto e tipo corretos"
         else "Solicitação inválida - " + "verifique assunto, texto e tipo",
         Some([Entry("Assunto", Some(FormatLabel(Or(assunto, Dash)))),
               Entry("Tipo de Assunto", Some(FormatLabel(Or(tipoAssunto, Dash)))),
               Entry("Contém 'Baixa de Gravame'", Some(JStr(if hasBaixaGravame then "Sim" else "Não")))]))
  }

  /** The request rule holds exactly when the subject is a string with a
      visible character, the request text mentions the lien release and
      the tag is `baixa_gravame`; its third entry says "Sim" exactly when
      the text mentions it. */
  lemma SolicitacaoValidIff(oficio: Json)
    requires SolicitacaoTyped(oficio)
    ensures var r, assunto := SolicitacaoRule(oficio), Field(Some(oficio), "assunto");
      && (r.isValid <==> && assunto.Some? && assunto.value.JStr? && !AllWhitespace(assunto.value.s)
                         && HasBaixaGravame(Field(Some(oficio), "solicitacao"))
                         && Field(Some(oficio), "tipo_assunto") == Some(JStr("baixa_gravame")))
      && (r.extractedData.value[2].value == Some(JStr("Sim")) <==> HasBaixaGravame(Field(Some(oficio), "solicitacao")))
  {
    NonBlankIff(Field(Some(oficio), "assunto"));
    assert "Sim"[0] != "Não"[0];
  }

  /** Any text with "BAIXA DE GRAVAME" in it, whatever surrounds it, counts. */
  lemma UpperCaseMentionCounts(p: string, q: string)
    ensures HasBaixaGravame(Some(JStr(p + "BAIXA DE GRAVAME" + q)))
  {
    ToLowerAppend(p + "BAIXA DE GRAVAME", q);
    ToLowerAppend(p, "BAIXA DE GRAVAME");
    assert ToLower("BAIXA DE GRAVAME") == "baixa de gravame";
    ContainsInfix(ToLower(p), "baixa de gravame", ToLower(q));
    assert p + "BAIXA DE GRAVAME" + q != [];
  }

  // ---------------------------------------------------------------------
  // Rule 3: reason and destination

  function Motivo(oficio: Json): Option<Json> {
    Field(Field(Some(oficio), "motivo_destinacao"), "motivo")
  }

  function Destinacao(oficio: Json): Option<Json> {
    Field(Field(Some(oficio), "motivo_destinacao"), "destinacao")
  }

  /** `motivo.trim()` runs when the reason is truthy, `destinacao.trim()`
      when the reason is non-blank and the destination truthy. */
  predicate MotivoTyped(oficio: Json) {
    StringIfTruthy(Motivo(oficio)) && (NonBlank(Motivo(oficio)) ==> StringIfTruthy(Destinacao(oficio)))
  }

  /** `validateMotivoDestinacao`: reason and destination both non-blank. */
  function MotivoDestinacaoRule(oficio: Json): (r: Rule)
    requires MotivoTyped(oficio)
    ensures r.name == "Motivo e Destinação"
  {
    var motivo := Motivo(oficio);
    var destinacao := Destinacao(oficio);
    var isValid := NonBlank(motivo) && NonBlank(destinacao);
    Rule("Motivo e Destinação", isValid,
         if isValid then "Motivo e destinação preenchidos" else "Motivo ou destinação ausentes",
         Some([Entry("Motivo", Some(FormatLabel(Or(motivo, Dash)))),
               Entry("Destinação", Some(FormatLabel(Or(destinacao, Dash))))]))
  }

  /** Valid exactly when both are strings with a visible character; an
      absent one is shown as the dash. */
  lemma MotivoDestinacaoValidIff(oficio: Json)
    requires MotivoTyped(oficio)
    ensures var r, m, d := MotivoDestinacaoRule(oficio), Motivo(oficio), Destinacao(oficio);
      && (r.isValid <==> && m.Some? && m.value.JStr? && !AllWhitespace(m.value.s)
                         && d.Some? && d.value.JStr? && !AllWhitespace(d.value.s))
      && (m.None? ==> r.extractedData.value[0].value == Some(Dash))
      && (d.None? ==> r.extractedData.value[1].value == Some(Dash))
  {
    NonBlankIff(Motivo(oficio));
    if NonBlank(Motivo(oficio)) {
      NonBlankIff(Destinacao(oficio));
    }
    FormatLabelKeepsDash();
  }

  // ---------------------------------------------------------------------
  // Rule 4: the vehicle

  function Veiculos(oficio: Json): Option<Json> {
    Field(Some(oficio), "veiculos")
  }

  /** `Array.isArray(veiculos) && veiculos.length > 0`. */
  predicate HasVehicles(veiculos: Option<Json>) {
    veiculos.Some? && veiculos.value.JArr? && |veiculos.value.items| > 0
  }

  /** `placa.trim()`, `chassi.trim()` and `uf.trim()` run along the `&&` chain. */
  predicate VehicleTyped(veiculo: Option<Json>) {
    var placa, chassi, uf := Field(veiculo, "placa"), Field(veiculo, "chassi"), Field(veiculo, "uf");
    && StringIfTruthy(placa)
    && (NonBlank(placa) ==> StringIfTruthy(chassi) && (NonBlank(chassi) ==> StringIfTruthy(uf)))
  }

  /** The first vehicle has a non-blank plate, chassis and state. */
  predicate VehicleValid(veiculo: Option<Json>)
    requires VehicleTyped(veiculo)
  {
    && Truthy(veiculo)
    && NonBlank(Field(veiculo, "placa"))
    && NonBlank(Field(veiculo, "chassi"))
    && NonBlank(Field(veiculo, "uf"))
  }

  predicate VeiculoTyped(oficio: Json) {
    HasVehicles(Veiculos(oficio)) ==> VehicleTyped(Some(Veiculos(oficio).value.items[0]))
  }

  function Plural(n: nat): string {
    if n > 1 then "s" else ""
  }

  /** `Veículo válido (<n> veículo(s) encontrado(s))`. */
  function VehicleMessage(n: nat): string {
    "Veículo válido (" + DecimalString(n) + " veículo" + Plural(n) + " encontrado" + Plural(n) + ")"
  }

  const NoVehicleMessage := "Nenhum veículo encontrado"

  /** `validateVeiculo`: without a vehicle list the rule fails with no data;
      otherwise only the first vehicle is checked, and the renavam is shown
      but optional. */
  function VeiculoRule(oficio: Json): (r: Rule)
    requires VeiculoTyped(oficio)
    ensures r.name == "Dados do Veículo"
  {
    var veiculos := Veiculos(oficio);
    if !HasVehicles(veiculos) then
      Rule("Dados do Veículo", false, NoVehicleMessage, None)
    else
      var veiculo := Some(veiculos.value.items[0]);
      var isValid := VehicleValid(veiculo);
      Rule("Dados do Veículo", isValid,
           if isValid then VehicleMessage(|veiculos.value.items|)
           else "Dados do veículo incompletos " + "(obrigatórios: placa, chassi, UF)",
           if Truthy(veiculo) then
             Some([Entry("Placa", Some(Or(Field(veiculo, "placa"), Dash))),
                   Entry("Chassi", Some(Or(Field(veiculo, "chassi"), Dash))),
                   Entry("Renavam (opcional)", Some(Or(Field(veiculo, "renavam"), Dash))),
                   Entry("UF", Some(Or(Field(veiculo, "uf"), Dash)))])
           else None)
  }

  /** Without a non-empty vehicle list the rule fails and shows nothing. */
  lemma NoVehicleFails(oficio: Json)
    requires !HasVehicles(Veiculos(oficio))
    ensures var r := VeiculoRule(oficio);
      !r.isValid && r.message == NoVehicleMessage && r.extractedData.None?
  {
  }

  /** With a vehicle list, the verdict is the first vehicle's: the others
      never matter. */
  lemma OnlyFirstVehicleCounts(oficio: Json)
    requires VeiculoTyped(oficio) && HasVehicles(Veiculos(oficio))
    ensures VeiculoRule(oficio).isValid <==> VehicleValid(Some(Veiculos(oficio).value.items[0]))
  {
  }

  /** The renavam never decides the verdict. */
  lemma RenavamIsOptional(fields: map<string, Json>, renavam: Json)
    requires VehicleTyped(Some(JObj(fields)))
    ensures VehicleTyped(Some(JObj(fields["renavam" := renavam])))
    ensures VehicleValid(Some(JObj(fields))) == VehicleValid(Some(JObj(fields["renavam" := renavam])))
  {
    var g := fields["renavam" := renavam];
    assert Field(Some(JObj(g)), "placa") == Field(Some(JObj(fields)), "placa");
    assert Field(Some(JObj(g)), "chassi") == Field(Some(JObj(fields)), "chassi");
    assert Field(Some(JObj(g)), "uf") == Field(Some(JObj(fields)), "uf");
  }

  lemma OneVehicleMessage()
    ensures VehicleMessage(1) == "Veículo válido (1 veículo encontrado)"
  {
  }

  lemma TwoVehiclesMessage()
    ensures VehicleMessage(2) == "Veículo válido (2 veículos encontrados)"
  {
  }

  // ---------------------------------------------------------------------
  // Rule 5: the requester

  function Orgao(oficio: Json): Option<Json> {
    Field(Field(Some(oficio), "solicitante"), "orgao")
  }

  function Unidade(oficio: Json): Option<Json> {
    Field(Field(Some(oficio), "solicitante"), "unidade")
  }

  predicate SolicitanteTyped(oficio: Json) {
    StringIfTruthy(Orgao(oficio)) && (NonBlank(Orgao(oficio)) ==> StringIfTruthy(Unidade(oficio)))
  }

  /** `validateSolicitante`: requesting body and unit both non-blank. */
  function SolicitanteRule(oficio: Json): (r: Rule)
    requires SolicitanteTyped(oficio)
    ensures r.name == "Solicitante"
  {
    var orgao := Orgao(oficio);
    var unidade := Unidade(oficio);
    var isValid := NonBlank(orgao) && NonBlank(unidade);
    Rule("Solicitante", isValid,
         if isValid then "Dados do solicitante completos" else "Órgão ou unidade ausentes",
         Some([Entry("Órgão", Some(Or(orgao, Dash))), Entry("Unidade", Some(Or(unidade, Dash)))]))
  }

  lemma SolicitanteValidIff(oficio: Json)
    requires SolicitanteTyped(oficio)
    ensures var o, u := Orgao(oficio), Unidade(oficio);
      SolicitanteRule(oficio).isValid
      <==> o.Some? && o.value.JStr? && !AllWhitespace(o.value.s) && u.Some? && u.value.JStr? && !AllWhitespace(u.value.s)
  {
    NonBlankIff(Orgao(oficio));
    if NonBlank(Orgao(oficio)) {
      NonBlankIff(Unidade(oficio));
    }
  }

  // ---------------------------------------------------------------------
  // The pack

  /** Every `.trim()` the five rules reach runs on a string. */
  predicate OficioTyped(oficio: Json) {
    SolicitacaoTyped(oficio) && MotivoTyped(oficio) && VeiculoTyped(oficio) && SolicitanteTyped(oficio)
  }

  const RuleNames := ["Direcionado à B3", "Solicitação", "Motivo e Destinação", "Dados do Veículo", "Solicitante"]

  function Names(rules: seq<Rule>): (names: seq<string>)
    ensures |names| == |rules|
  {
    seq(|rules|, i requires 0 <= i < |rules| => rules[i].name)
  }

  /** The rules the pack shows: none unless the document is an `oficio_b3`,
      otherwise the five checks, in their fixed order, on `oficio`. */
  function Rules(data: Json): (rules: seq<Rule>)
    requires IsOficioB3(data) ==> OficioTyped(Oficio(data))
    ensures !IsOficioB3(data) ==> rules == []
    ensures IsOficioB3(data) ==> Names(rules) == RuleNames
  {
    if !IsOficioB3(data) then []
    else
      var oficio := Oficio(data);
      RulesInOrder(oficio);
      [B3AddressRule(oficio), SolicitacaoRule(oficio), MotivoDestinacaoRule(oficio),
       VeiculoRule(oficio), SolicitanteRule(oficio)]
  }

  /** The five rules come out under their names, in the panel's order. */
  lemma RulesInOrder(oficio: Json)
    requires OficioTyped(oficio)
    ensures Names([B3AddressRule(oficio), SolicitacaoRule(oficio), MotivoDestinacaoRule(oficio),
                   VeiculoRule(oficio), SolicitanteRule(oficio)]) == RuleNames
  {
    NamesOfFive(B3AddressRule(oficio), SolicitacaoRule(oficio), MotivoDestinacaoRule(oficio),
                VeiculoRule(oficio), SolicitanteRule(oficio));
  }

  /** The names of a five-rule list, one by one. */
  lemma NamesOfFive(a: Rule, b: Rule, c: Rule, d: Rule, e: Rule)
    ensures Names([a, b, c, d, e]) == [a.name, b.name, c.name, d.name, e.name]
  {
  }

  /** The letter is fully valid exactly when all five rules are counted valid. */
  lemma AllValidIffFive(data: Json)
    requires IsOficioB3(data) && OficioTyped(Oficio(data))
    ensures AllValid(Rules(data)) <==> ValidCount(Rules(data)) == 5
  {
    AllValidIffCount(Rules(data));
  }

  /** A letter without an `oficio` object is checked as `{}`: it passes no rule. */
  lemma MissingOficioFailsAll(data: Json)
    requires IsOficioB3(data) && !Truthy(Field(Some(data), "oficio"))
    ensures OficioTyped(Oficio(data))
    ensures ValidCount(Rules(data)) == 0
  {
    assert Oficio(data) == EmptyObject;
    EmptyOficioTyped();
    calc {
      ValidCount(Rules(data));
      ValidCount([B3AddressRule(EmptyObject), SolicitacaoRule(EmptyObject), MotivoDestinacaoRule(EmptyObject),
                  VeiculoRule(EmptyObject), SolicitanteRule(EmptyObject)]);
      { EmptyOficioFailsEachRule();
        NoneValidFive(B3AddressRule(EmptyObject), SolicitacaoRule(EmptyObject), MotivoDestinacaoRule(EmptyObject),
                      VeiculoRule(EmptyObject), SolicitanteRule(EmptyObject)); }
      0;
    }
  }

  /** On `{}` every rule fails. */
  lemma EmptyOficioFailsEachRule()
    ensures OficioTyped(EmptyObject)
    ensures !B3AddressRule(EmptyObject).isValid && !SolicitacaoRule(EmptyObject).isValid
    ensures !MotivoDestinacaoRule(EmptyObject).isValid && !VeiculoRule(EmptyObject).isValid
    ensures !SolicitanteRule(EmptyObject).isValid
  {
    EmptyOficioTyped();
    EmptyOficioNoAddress();
    EmptyOficioNoRequest();
    EmptyOficioNoReason();
    EmptyOficioNoVehicle();
    EmptyOficioNoRequester();
  }

  /** Each rule on `{}`: the `.trim()` calls are safe ... */
  lemma EmptyOficioTyped()
    ensures OficioTyped(EmptyObject)
  {
    assert Endereco(EmptyObject) == None;
    assert Veiculos(EmptyObject) == None;
  }

  /** ... and no rule passes. */
  lemma EmptyOficioNoAddress()
    ensures !B3AddressRule(EmptyObject).isValid
  {
    assert Endereco(EmptyObject) == None;
  }

  lemma EmptyOficioNoRequest()
    requires OficioTyped(EmptyObject)
    ensures !SolicitacaoRule(EmptyObject).isValid
  {
  }

  lemma EmptyOficioNoReason()
    requires OficioTyped(EmptyObject)
    ensures !MotivoDestinacaoRule(EmptyObject).isValid
  {
  }

  lemma EmptyOficioNoVehicle()
    requires OficioTyped(EmptyObject)
    ensures !VeiculoRule(EmptyObject).isValid
  {
    assert Veiculos(EmptyObject) == None;
  }

  lemma EmptyOficioNoRequester()
    requires OficioTyped(EmptyObject)
    ensures !SolicitanteRule(EmptyObject).isValid
  {
  }

  /** Five failed rules count none valid. */
  lemma NoneValidFive(a: Rule, b: Rule, c: Rule, d: Rule, e: Rule)
    requires !a.isValid && !b.isValid && !c.isValid && !d.isValid && !e.isValid
    ensures ValidCount([a, b, c, d, e]) == 0
  {
    NoneValid([a, b, c, d, e]);
  }

  lemma {:induction false} NoneValid(rules: seq<Rule>)
    requires forall i | 0 <= i < |rules| :: !rules[i].isValid
    ensures ValidCount(rules) == 0
  {
    if rules != [] {
      assert !rules[0].isValid;
      NoneValid(rules[1..]);
    }
  }
}
