/** Circulation permit ("Permiso de Circulación",
    src/extractors/permisoCirculacionExtractor.ts): the extractor looks up
    ten fields with one pattern each, then replaces every blank value (a
    blank payment mark reads "No aplica"); the validator requires seven
    fields of at least three characters and accepts a payment field only
    when it reads "X" or "No aplica". */
module Permiso {
  import opened Wrappers
  import opened Text
  import opened Records
  import opened Matching
  import opened Validation

  const PlacaUnica: string := "Placa Única"
  const CodigoSii: string := "Código SII"
  const ValorPermiso: string := "Valor Permiso"
  const PagoTotal: string := "Pago total"
  const PagoCuota1: string := "Pago Cuota 1"
  const PagoCuota2: string := "Pago Cuota 2"
  const TotalAPagar: string := "Total a pagar"
  const FechaEmision: string := "Fecha de emisión"
  const FechaVencimiento: string := "Fecha de vencimiento"
  const FormaPago: string := "Forma de Pago"

  /** The `regexes` table, in declaration order: the extractor returns it
      alongside the data. */
  const Regexes: seq<(string, Pattern)> := [
    (PlacaUnica, PcPlacaUnica), (CodigoSii, PcCodigoSii), (ValorPermiso, PcValorPermiso),
    (PagoTotal, PcPagoTotal), (PagoCuota1, PcPagoCuota1), (PagoCuota2, PcPagoCuota2),
    (TotalAPagar, PcTotalAPagar), (FechaEmision, PcFechaEmision),
    (FechaVencimiento, PcFechaVencimiento), (FormaPago, PcFormaPago)]

  /** The keys of the extracted record, in the order of `Regexes`. */
  const Fields: seq<string> := [
    PlacaUnica, CodigoSii, ValorPermiso, PagoTotal, PagoCuota1, PagoCuota2,
    TotalAPagar, FechaEmision, FechaVencimiento, FormaPago]

  /** The payment marks: blank reads "No aplica". */
  const Payments: seq<string> := [PagoTotal, PagoCuota1, PagoCuota2]

  /** The fields the validator requires, in its order. */
  const Mandatory: seq<string> := [
    PlacaUnica, CodigoSii, ValorPermiso, TotalAPagar, FechaEmision, FechaVencimiento, FormaPago]

  const NoAplica: string := "No aplica"

  lemma TableShape()
    ensures |Regexes| == |Fields| == 10
    ensures forall i :: 0 <= i < |Fields| ==> Regexes[i].0 == Fields[i]
    ensures NoDuplicates(Fields)
  {
  }

  // ---------------------------------------------------------------------
  // Extraction
  // ---------------------------------------------------------------------

  /** The replacement of a blank value: "No aplica" for a payment mark,
      the empty string for any other field; a value that is not blank is
      kept. */
  function Normalize(key: string, v: string): (r: string)
    ensures Trim(v) != "" ==> r == v
    ensures key in Payments ==> Trim(r) != ""
    ensures key !in Payments ==> (Trim(r) == "" <==> r == "") && (Trim(v) == "" <==> r == "")
  {
    if Trim(v) == "" then
      if key in Payments then
        assert Trim(NoAplica) == NoAplica by { TrimOfTrimmed(NoAplica); }
        NoAplica
      else ""
    else v
  }

  /** `buscar(t, regexes[key]) || ""` for the `i`-th key. */
  function Raw(m: Oracle, t: string, i: nat): string
    requires i < |Regexes|
  {
    Field(m, Regexes[i].1, t)
  }

  /** The value the extractor leaves under the `i`-th key. */
  function Value(m: Oracle, t: string, i: nat): string
    requires i < |Fields|
  {
    Normalize(Fields[i], Raw(m, t, i))
  }

  /** The `data` record of `extraerDatosPermisoCirculacion(text)`. */
  function Extraction(m: Oracle, text: string): (r: Record)
    ensures Keys(r) == Fields
  {
    var t := SpaceLineBreaks(text);
    Zip(Fields, seq(|Fields|, (i: nat) requires i < |Fields| => Value(m, t, i)))
  }

  /** `extraerDatosPermisoCirculacion(text)`: a first pass assigns every key
      of the table its looked-up value, in order; a second pass over the
      record replaces the blank values in place. */
  method ExtraerDatosPermisoCirculacion(m: Oracle, text: string)
    returns (data: Record, regexes: seq<(string, Pattern)>)
    ensures data == Extraction(m, text)
    ensures regexes == Regexes
  {
    var t := SpaceLineBreaks(text);
    regexes := Regexes;
    data := LookUpAll(m, t);
    data := NormalizeAll(m, t, data);
    assert data == Extraction(m, text);
  }

  /** The first pass: every key of the table, in order, with its looked-up
      value. */
  method LookUpAll(m: Oracle, t: string) returns (data: Record)
    ensures |data| == |Fields|
    ensures forall j :: 0 <= j < |data| ==> data[j] == (Fields[j], Raw(m, t, j))
  {
    data := [];
    var i := 0;
    while i < |Regexes|
      invariant 0 <= i <= |Regexes| == |Fields|
      invariant |data| == i
      invariant forall j :: 0 <= j < i ==> data[j] == (Fields[j], Raw(m, t, j))
    {
      data := LookUpAt(m, t, data, i);
      i := i + 1;
    }
  }

  /** One step of the first pass: the `i`-th key, not yet in the record,
      is appended with its looked-up value. */
  method LookUpAt(m: Oracle, t: string, data: Record, i: nat) returns (data': Record)
    requires i < |Regexes| && |data| == i
    requires forall j :: 0 <= j < i ==> data[j] == (Fields[j], Raw(m, t, j))
    ensures data' == data + [(Fields[i], Raw(m, t, i))]
    ensures |data'| == i + 1 && forall j :: 0 <= j < i + 1 ==> data'[j] == (Fields[j], Raw(m, t, j))
  {
    TableShape();
    var key := Regexes[i].0;
    assert key !in Keys(data) by {
      assert forall j :: 0 <= j < i ==> Keys(data)[j] == Fields[j] != Fields[i];
    }
    PutAbsent(data, key, Field(m, Regexes[i].1, t));
    data' := Put(data, key, Field(m, Regexes[i].1, t));
  }

  /** A record whose entries carry the table's keys in order has those
      keys. */
  lemma KeysInOrder(data: Record)
    requires |data| == |Fields|
    requires forall j :: 0 <= j < |data| ==> data[j].0 == Fields[j]
    ensures Keys(data) == Fields && NoDuplicates(Keys(data))
  {
    TableShape();
  }

  /** The second pass: every blank value is replaced in place. */
  method NormalizeAll(m: Oracle, t: string, raw: Record) returns (data: Record)
    requires |raw| == |Fields|
    requires forall j :: 0 <= j < |raw| ==> raw[j] == (Fields[j], Raw(m, t, j))
    ensures |data| == |Fields|
    ensures forall j :: 0 <= j < |data| ==> data[j] == (Fields[j], Value(m, t, j))
  {
    data := raw;
    var k := 0;
    while k < |data|
      invariant 0 <= k <= |data| == |Fields|
      invariant forall j :: 0 <= j < k ==> data[j] == (Fields[j], Value(m, t, j))
      invariant forall j :: k <= j < |data| ==> data[j] == (Fields[j], Raw(m, t, j))
    {
      NormalizedOneMore(m, t, data, k);
      data := NormalizeAt(m, t, data, k);
      k := k + 1;
    }
  }

  /** One step of the second pass: the `k`-th value is replaced when it is
      blank, and nothing else changes. */
  method NormalizeAt(m: Oracle, t: string, data: Record, k: nat) returns (data': Record)
    requires k < |data| == |Fields|
    requires forall j :: 0 <= j < k ==> data[j] == (Fields[j], Value(m, t, j))
    requires forall j :: k <= j < |data| ==> data[j] == (Fields[j], Raw(m, t, j))
    ensures data' == data[k := (Fields[k], Value(m, t, k))]
  {
    var key := data[k].0;
    KeysInOrder(data);
    GetAt(data, k);
    var value := Get(data, key).value;
    assert value == Raw(m, t, k);
    data' := data;
    if Trim(value) == "" {
      if key in Payments {
        PutAt(data, k, NoAplica);
        data' := Put(data, key, NoAplica);
      } else {
        PutAt(data, k, "");
        data' := Put(data, key, "");
      }
    }
  }

  /** Replacing the `k`-th value extends the normalised prefix by one. */
  lemma NormalizedOneMore(m: Oracle, t: string, data: Record, k: nat)
    requires k < |data| == |Fields|
    requires forall j :: 0 <= j < k ==> data[j] == (Fields[j], Value(m, t, j))
    requires forall j :: k <= j < |data| ==> data[j] == (Fields[j], Raw(m, t, j))
    ensures forall j :: 0 <= j < k + 1 ==> data[k := (Fields[k], Value(m, t, k))][j] == (Fields[j], Value(m, t, j))
    ensures forall j :: k + 1 <= j < |data| ==> data[k := (Fields[k], Value(m, t, k))][j] == (Fields[j], Raw(m, t, j))
  {
  }

  /** The record has the keys of the returned `regexes` table, in the same
      order. */
  lemma ExtractionKeysAreRegexKeys(m: Oracle, text: string)
    ensures |Extraction(m, text)| == |Regexes|
    ensures forall i :: 0 <= i < |Regexes| ==> Extraction(m, text)[i].0 == Regexes[i].0
  {
    TableShape();
  }

  /** Reading a key of the extracted record gives its value. */
  lemma ExtractedGet(m: Oracle, text: string, i: nat)
    requires i < |Fields|
    ensures Get(Extraction(m, text), Fields[i]) == Some(Value(m, SpaceLineBreaks(text), i))
  {
    TableShape();
    GetAt(Extraction(m, text), i);
  }

  /** A payment mark the text lacks (no match, or the optional `X` group
      absent) reads "No aplica"; any other field the text lacks reads "". */
  lemma {:induction false} MissingValues(m: Oracle, text: string, i: nat)
    requires i < |Fields|
    requires Raw(m, SpaceLineBreaks(text), i) == ""
    ensures Get(Extraction(m, text), Fields[i]) ==
      Some(if Fields[i] in Payments then NoAplica else "")
  {
    TableShape();
    var r := Extraction(m, text);
    GetAt(r, i);
    assert Trim("") == "";
  }

  /** What a payment pattern `...\s*[:\-]?\s*(X)?` (case-insensitive)
      guarantees about a match: its group is absent or is `X` or `x`. */
  predicate PaymentMatch(found: Option<Captures>) {
    found.None? || Group(found.value, 1).None? ||
    Group(found.value, 1).value == "X" || Group(found.value, 1).value == "x"
  }

  // ---------------------------------------------------------------------
  // Validation
  // ---------------------------------------------------------------------

  /** `/^(X|No aplica)$/i.test(value)`. */
  predicate PaymentFormat(s: string) {
    Lower(s) == "x" || Lower(s) == "no aplica"
  }

  /** A value interpolated into a message; a missing key reads
      "undefined". */
  function Shown(v: Option<string>): string {
    if v.None? then "undefined" else v.value
  }

  /** `Campo "${field}" es obligatorio y debe tener al menos 3 caracteres.` */
  function Required(field: string): string {
    "Campo " + Quoted(field) + " es obligatorio y debe tener al menos 3 caracteres."
  }

  /** `Campo "${field}" con valor "${value}" no es válido.` */
  function NotValid(field: string, value: string): string {
    "Campo " + Quoted(field) + " con valor " + Quoted(value) + " no es válido."
  }

  /** `El archivo ${fileName} presenta problemas:` */
  function Header(fileName: string): string {
    "El archivo " + fileName + " presenta problemas:"
  }

  /** A mandatory field passes when it is at least three characters long
      once trimmed. */
  predicate MandatoryOk(datos: Record, field: string) {
    |Trim(GetOrEmpty(datos, field))| >= 3
  }

  /** A payment field passes when it is present and well formed. */
  predicate PaymentOk(datos: Record, field: string) {
    Has(datos, field) && PaymentFormat(GetOrEmpty(datos, field))
  }

  /** The check of a mandatory field: missing, empty or shorter than three
      characters once trimmed is an error. */
  function CheckMandatory(datos: Record, field: string): (e: Option<string>)
    ensures e.None? <==> MandatoryOk(datos, field)
    ensures e.Some? ==> e.value == Required(field)
  {
    var value := GetOrEmpty(datos, field);
    if value == "" || |Trim(value)| < 3 then Some(Required(field)) else None
  }

  /** The check of a payment field against its pattern; a missing key is
      tested as the text "undefined", which fails. */
  function CheckPayment(datos: Record, field: string): (e: Option<string>)
    ensures e.None? <==> PaymentOk(datos, field)
    ensures e.Some? ==> e.value == NotValid(field, Shown(Get(datos, field)))
  {
    var value := Shown(Get(datos, field));
    assert Lower("undefined") == "undefined";
    if PaymentFormat(value) then None else Some(NotValid(field, value))
  }

  /** The error list: the mandatory fields first, then the payment marks. */
  function ValidationErrors(datos: Record): seq<string> {
    Errors(Mandatory, f => CheckMandatory(datos, f)) + Errors(Payments, f => CheckPayment(datos, f))
  }

  /** The mandatory loop reports nothing exactly when every mandatory
      field is long enough. */
  lemma MandatoryErrorsEmptyIff(datos: Record)
    ensures Errors(Mandatory, f => CheckMandatory(datos, f)) == [] <==>
      forall f :: f in Mandatory ==> MandatoryOk(datos, f)
  {
    ErrorsEmptyIffPasses(Mandatory, f => CheckMandatory(datos, f), f => MandatoryOk(datos, f));
  }

  /** The payment loop reports nothing exactly when every payment field is
      present and well formed. */
  lemma PaymentErrorsEmptyIff(datos: Record)
    ensures Errors(Payments, f => CheckPayment(datos, f)) == [] <==>
      forall f :: f in Payments ==> PaymentOk(datos, f)
  {
    ErrorsEmptyIffPasses(Payments, f => CheckPayment(datos, f), f => PaymentOk(datos, f));
  }

  /** `bestEffortValidationPermisoCirculacion(datos, fileName)`. */
  method BestEffortValidationPermisoCirculacion(datos: Record, fileName: string) returns (out: Outcome)
    ensures out == Verdict(Header(fileName), ValidationErrors(datos))
    ensures out.Valid? <==>
      && (forall f :: f in Mandatory ==> MandatoryOk(datos, f))
      && (forall f :: f in Payments ==> PaymentOk(datos, f))
  {
    var mandatoryErrors := CollectErrors(Mandatory, f => CheckMandatory(datos, f));
    var paymentErrors := CollectErrors(Payments, f => CheckPayment(datos, f));
    var errors := mandatoryErrors + paymentErrors;
    MandatoryErrorsEmptyIff(datos);
    PaymentErrorsEmptyIff(datos);
    if |errors| > 0 {
      out := Invalid(Report(Header(fileName), errors));
    } else {
      out := Valid;
    }
  }

  /** A record without a payment key is rejected, and the message shows the
      value as "undefined". */
  lemma MissingPaymentRejected(datos: Record, fileName: string, k: nat)
    requires k < |Payments| && !Has(datos, Payments[k])
    ensures var out := Verdict(Header(fileName), ValidationErrors(datos));
      out.Invalid? && Contains(out.message, NotValid(Payments[k], "undefined"))
  {
    ErrorsContain(Payments, f => CheckPayment(datos, f), k);
    var errs := ValidationErrors(datos);
    var pe := Errors(Payments, f => CheckPayment(datos, f));
    var i :| 0 <= i < |pe| && pe[i] == NotValid(Payments[k], "undefined");
    assert errs[|Errors(Mandatory, f => CheckMandatory(datos, f))| + i] == pe[i];
  }

  /** The payment marks of an extracted record always pass the validator
      when every payment pattern matched as its pattern allows: blank
      marks became "No aplica", and the others are `X` or `x`. */
  lemma {:induction false} ExtractedPaymentsValid(m: Oracle, text: string)
    requires forall i :: 3 <= i < 6 ==> PaymentMatch(m(Regexes[i].1, SpaceLineBreaks(text)))
    ensures Errors(Payments, f => CheckPayment(Extraction(m, text), f)) == []
  {
    var r := Extraction(m, text);
    forall j | 0 <= j < |Payments|
      ensures CheckPayment(r, Payments[j]).None?
    {
      ExtractedPaymentPasses(m, text, j);
    }
    ErrorsEmptyIff(Payments, f => CheckPayment(r, f));
  }

  /** The `j`-th payment mark of an extracted record passes its check. */
  lemma ExtractedPaymentPasses(m: Oracle, text: string, j: nat)
    requires j < 3 && PaymentMatch(m(Regexes[j + 3].1, SpaceLineBreaks(text)))
    ensures CheckPayment(Extraction(m, text), Payments[j]).None?
  {
    var t := SpaceLineBreaks(text);
    assert Payments[j] == Fields[j + 3];
    ExtractedGet(m, text, j + 3);
    PaymentValue(m, t, j + 3);
    PaymentPasses(Extraction(m, text), Fields[j + 3], Value(m, t, j + 3));
  }

  lemma PaymentPasses(r: Record, field: string, v: string)
    requires Get(r, field) == Some(v) && PaymentFormat(v)
    ensures CheckPayment(r, field).None?
  {
  }

  /** The value of a payment mark, under `PaymentMatch`, reads `X`, `x` or
      "No aplica". */
  lemma PaymentValue(m: Oracle, t: string, i: nat)
    requires 3 <= i < 6 && PaymentMatch(m(Regexes[i].1, t))
    ensures PaymentFormat(Value(m, t, i))
  {
    var found := m(Regexes[i].1, t);
    assert Fields[i] == Payments[i - 3];
    if found.Some? && Group(found.value, 1).Some? && Group(found.value, 1).value != "" {
      var g := Group(found.value, 1).value;
      MarkPasses(g);
      assert Raw(m, t, i) == g;
    } else {
      assert Raw(m, t, i) == "";
      BlankPasses(Fields[i]);
    }
  }

  /** A mark `X` or `x` is kept as it is and passes. */
  lemma MarkPasses(g: string)
    requires g == "X" || g == "x"
    ensures Trim(g) == g && PaymentFormat(g)
  {
    assert IsTrimmed(g);
    TrimOfTrimmed(g);
    assert Lower(g) == "x";
  }

  /** A blank payment mark becomes "No aplica", which passes. */
  lemma BlankPasses(key: string)
    requires key in Payments
    ensures PaymentFormat(Normalize(key, ""))
  {
    assert Trim("") == "";
    assert Normalize(key, "") == NoAplica;
    NoAplicaPasses();
  }

  /** "No aplica" is one of the two accepted payment values. */
  lemma NoAplicaPasses()
    ensures PaymentFormat(NoAplica)
  {
    var r := Lower(NoAplica);
    assert r[0] == 'n' && r[1] == 'o' && r[2] == ' ';
    assert r[3] == 'a' && r[4] == 'p' && r[5] == 'l';
    assert r[6] == 'i' && r[7] == 'c' && r[8] == 'a';
    assert r == "no aplica";
  }
}
