/** The technical inspection certificate, CRT (src/extractors/crtExtractor.ts):
    three fixed fields, the two certificate sections whose "VÁLIDO HASTA"
    dates are read separately, the folio, a validator that tests the raw
    values, and the fixed column order of `procesarPDFCRT`. */
module Crt {
  import opened Wrappers
  import opened Text
  import opened Records
  import opened Matching
  import opened Validation

  const FechaRevision: string := "Fecha de Revisión"
  const Planta: string := "Planta"
  const PlacaPatente: string := "Placa Patente"
  const ValidoRevision: string := "Válido Hasta Revisión Técnica"
  const ValidoContaminantes: string := "Válido Hasta Contaminantes"
  const Folio: string := "Folio"
  const NombrePdf: string := "Nombre PDF"

  /** The keys of an extracted record, in insertion order. */
  const Fields: seq<string> :=
    [FechaRevision, Planta, PlacaPatente, ValidoRevision, ValidoContaminantes, Folio]

  /** The fields the validator checks, in its order. */
  const CheckedFields: seq<string> :=
    [FechaRevision, PlacaPatente, Planta, ValidoRevision, ValidoContaminantes, Folio]

  /** The columns `procesarPDFCRT` returns, in order. */
  const OutputFields: seq<string> :=
    [NombrePdf, FechaRevision, Planta, PlacaPatente, ValidoRevision, ValidoContaminantes, Folio]

  const SectionsMissing: string :=
    "El PDF no contiene ambos certificados requeridos (Revisión Técnica y Emisiones Contaminantes)."
  const ValidoMissing: string :=
    "No se encontraron los campos 'VÁLIDO HASTA' en ambos certificados."

  lemma FieldsDistinct()
    ensures NoDuplicates(Fields) && NoDuplicates(OutputFields)
  {
  }

  // ---------------------------------------------------------------------
  // Character classes and anchored forms
  // ---------------------------------------------------------------------

  /** `[A-ZÁÉÍÓÚÑ]` */
  predicate IsSpanishUpper(c: char) {
    IsAsciiUpper(c) || c == 'Á' || c == 'É' || c == 'Í' || c == 'Ó' || c == 'Ú' || c == 'Ñ'
  }

  /** `[A-ZÁÉÍÓÚÑ]` under the `i` flag. */
  predicate IsSpanishLetter(c: char) {
    IsSpanishUpper(UpperChar(c))
  }

  /** `^[letter]+\s+\d{4}$`: a word, whitespace and a four-digit year. The
      three classes are disjoint, so the split points are forced. */
  predicate MonthYearWith(s: string, letter: char -> bool)
    requires forall c :: letter(c) ==> !IsWhitespace(c)
  {
    && |s| >= 6
    && All(s[|s| - 4..], IsDigit)
    && var t := s[..|s| - 4];
    && var n := Span(t, letter);
    && 1 <= n < |t| && All(t[n..], IsWhitespace)
  }

  /** `^[A-ZÁÉÍÓÚÑ]+\s+\d{4}$` under the `i` flag. */
  predicate MonthYear(s: string) {
    MonthYearWith(s, IsSpanishLetter)
  }

  /** `^\d{1,2}\s+[A-ZÁÉÍÓÚÑ]+\s+\d{4}$`: day, month word and year, with
      the month in upper case. */
  predicate FechaRevisionFormat(s: string) {
    && var d := Span(s, IsDigit);
    && 1 <= d <= 2
    && var rest := s[d..];
    && var w := Span(rest, IsWhitespace);
    && w >= 1 && MonthYearWith(rest[w..], IsSpanishUpper)
  }

  /** `^N°B\d+$` under the `i` flag. */
  predicate FolioFormat(s: string) {
    && |s| >= 4
    && (s[0] == 'N' || s[0] == 'n') && s[1] == '°' && (s[2] == 'B' || s[2] == 'b')
    && All(s[3..], IsDigit)
  }

  /** The pattern the validator tests a field's value against. */
  predicate Format(field: string, s: string) {
    if field == FechaRevision then FechaRevisionFormat(s)
    else if field == PlacaPatente then NonEmptyAll(s, IsUpperAlnum)
    else if field == Planta then OneLine(s)
    else if field == ValidoRevision || field == ValidoContaminantes then MonthYear(s)
    else if field == Folio then FolioFormat(s)
    else true
  }

  /** A value in month-year form is already trimmed. */
  lemma MonthYearTrimmed(s: string)
    requires MonthYear(s)
    ensures IsTrimmed(s)
  {
    var t := s[..|s| - 4];
    assert s[0] == t[..Span(t, IsSpanishLetter)][0];
    assert IsDigit(s[|s| - 4..][3]);
  }

  // ---------------------------------------------------------------------
  // What the regular-expression engine guarantees about the patterns
  // ---------------------------------------------------------------------

  /** A match of the "VÁLIDO HASTA" pattern always has its month-year group
      2, in that form; group 1 (the optional full date) is not relied on. */
  ghost predicate ValidoConforms(m: Oracle) {
    forall section :: m(CrtValidoHasta, section).Some? ==>
      var caps := m(CrtValidoHasta, section).value;
      Group(caps, 2).Some? && MonthYear(Group(caps, 2).value)
  }

  /** A match of `(N°B\d+)` captures a folio in validator form. */
  ghost predicate FolioConforms(m: Oracle) {
    forall text :: m(CrtFolio, text).Some? ==>
      var caps := m(CrtFolio, text).value;
      Group(caps, 1).Some? && FolioFormat(Group(caps, 1).value)
  }

  // ---------------------------------------------------------------------
  // Extraction
  // ---------------------------------------------------------------------

  /** Group 1 of a section title match: the text up to the next title. The
      group always takes part in a match. */
  function Section(m: Oracle, p: Pattern, text: string): Option<string> {
    var found := m(p, text);
    if found.None? then None else Some(Group(found.value, 1).GetOr(""))
  }

  /** `(match[2] || match[1] || "").trim()` */
  function ValidoValue(caps: Captures): (r: string)
    ensures IsTrimmed(r)
  {
    var g2 := Group(caps, 2);
    var g1 := Group(caps, 1);
    Trim(if g2.Some? && g2.value != "" then g2.value
         else if g1.Some? && g1.value != "" then g1.value
         else "")
  }

  /** The value stored under `Fields[i]`, given the two "VÁLIDO HASTA"
      matches. */
  function Value(m: Oracle, text: string, vr: Captures, vc: Captures, i: nat): string
  {
    if i == 0 then Field(m, CrtFechaRevision, text)
    else if i == 1 then Field(m, CrtPlanta, text)
    else if i == 2 then Field(m, CrtPlacaPatente, text)
    else if i == 3 then ValidoValue(vr)
    else if i == 4 then ValidoValue(vc)
    else Field(m, CrtFolio, text)
  }

  /** The six values, in the order of `Fields`. */
  function Values(m: Oracle, text: string, vr: Captures, vc: Captures): (vs: seq<string>)
    ensures |vs| == |Fields|
  {
    seq(|Fields|, (i: nat) => Value(m, text, vr, vc, i))
  }

  /** The six values, one by one. */
  lemma ValuesInOrder(m: Oracle, text: string, vr: Captures, vc: Captures)
    ensures var vs := Values(m, text, vr, vc);
      && vs[0] == Field(m, CrtFechaRevision, text)
      && vs[1] == Field(m, CrtPlanta, text)
      && vs[2] == Field(m, CrtPlacaPatente, text)
      && vs[3] == ValidoValue(vr)
      && vs[4] == ValidoValue(vc)
      && vs[5] == Field(m, CrtFolio, text)
  {
    var vs := Values(m, text, vr, vc);
    assert vs[0] == Value(m, text, vr, vc, 0);
    assert vs[1] == Value(m, text, vr, vc, 1);
    assert vs[2] == Value(m, text, vr, vc, 2);
    assert vs[3] == Value(m, text, vr, vc, 3);
    assert vs[4] == Value(m, text, vr, vc, 4);
    assert vs[5] == Value(m, text, vr, vc, 5);
  }

  /** What `extraerDatosCRT` returns or throws, as one value: the six
      fields in insertion order, or the message of the first failure. The
      fixed fields read `match ? match[1].trim() : ""`; group 1 of those
      patterns always takes part in a match, so this is `Field`. */
  function Extraction(m: Oracle, text: string): (r: Result<Record, string>)
    ensures r.Success? ==> Keys(r.value) == Fields
    ensures r.Failure? ==> r.error == SectionsMissing || r.error == ValidoMissing
  {
    var rev := Section(m, CrtRevisionSection, text);
    var con := Section(m, CrtContaminantesSection, text);
    if rev.None? || con.None? then Failure(SectionsMissing)
    else
      var vr := m(CrtValidoHasta, rev.value);
      var vc := m(CrtValidoHasta, con.value);
      if vr.None? || vc.None? then Failure(ValidoMissing)
      else
        Success(Zip(Fields, Values(m, text, vr.value, vc.value)))
  }

  /** Storing the next field of `Fields` appends it: the record holds the
      fields before it and no other key. */
  lemma PutNext(r: Record, j: nat, v: string)
    requires j < |Fields| && Keys(r) == Fields[..j]
    ensures Put(r, Fields[j], v) == r + [(Fields[j], v)]
    ensures Keys(r + [(Fields[j], v)]) == Fields[..j + 1]
  {
    FieldsDistinct();
    HasIffInKeys(r, Fields[j]);
    assert Keys(r + [(Fields[j], v)]) == Keys(r) + [Fields[j]];
  }

  /** The three fixed fields are stored in order on an empty record. */
  lemma FillFixed(a: string, b: string, c: string)
    ensures Put(Put(Put([], FechaRevision, a), Planta, b), PlacaPatente, c)
         == [(Fields[0], a), (Fields[1], b), (Fields[2], c)]
  {
    var r0: Record := [];
    PutNext(r0, 0, a);
    var r1 := Put(r0, FechaRevision, a);
    PutNext(r1, 1, b);
    var r2 := Put(r1, Planta, b);
    PutNext(r2, 2, c);
  }

  /** The two dates and the folio are appended after the fixed fields. */
  lemma FillDates(fixed: Record, d: string, e: string, f: string)
    requires Keys(fixed) == Fields[..3]
    ensures Put(Put(Put(fixed, ValidoRevision, d), ValidoContaminantes, e), Folio, f)
         == fixed + [(Fields[3], d), (Fields[4], e), (Fields[5], f)]
  {
    PutNext(fixed, 3, d);
    var r3 := Put(fixed, ValidoRevision, d);
    PutNext(r3, 4, e);
    var r4 := Put(r3, ValidoContaminantes, e);
    PutNext(r4, 5, f);
  }

  /** The first three assignments of `extraerDatosCRT`, on an empty object. */
  method StoreFixed(fecha: string, planta: string, placa: string) returns (datos: Record)
    ensures datos == [(Fields[0], fecha), (Fields[1], planta), (Fields[2], placa)]
    ensures Keys(datos) == Fields[..3]
  {
    datos := [];
    datos := Put(datos, FechaRevision, fecha);
    datos := Put(datos, Planta, planta);
    datos := Put(datos, PlacaPatente, placa);
    FillFixed(fecha, planta, placa);
  }

  /** The last three assignments of `extraerDatosCRT`, once both dates are found. */
  method StoreDates(fixed: Record, vr: string, vc: string, folio: string) returns (datos: Record)
    requires Keys(fixed) == Fields[..3]
    ensures datos == fixed + [(Fields[3], vr), (Fields[4], vc), (Fields[5], folio)]
  {
    datos := Put(fixed, ValidoRevision, vr);
    datos := Put(datos, ValidoContaminantes, vc);
    datos := Put(datos, Folio, folio);
    FillDates(fixed, vr, vc, folio);
  }

  /** `extraerDatosCRT(text)`: the record is filled field by field, and the
      two checks throw before the dates are stored. */
  method ExtraerDatosCRT(m: Oracle, text: string) returns (r: Result<Record, string>)
    ensures r == Extraction(m, text)
  {
    var fecha := Field(m, CrtFechaRevision, text);
    var planta := Field(m, CrtPlanta, text);
    var placa := Field(m, CrtPlacaPatente, text);
    var datos := StoreFixed(fecha, planta, placa);

    var revisionMatch := m(CrtRevisionSection, text);
    var contaminantesMatch := m(CrtContaminantesSection, text);
    if revisionMatch.None? || contaminantesMatch.None? {
      return Failure(SectionsMissing);
    }
    var revisionSection := Group(revisionMatch.value, 1).GetOr("");
    var contaminantesSection := Group(contaminantesMatch.value, 1).GetOr("");

    var validoRevision := m(CrtValidoHasta, revisionSection);
    var validoContaminantes := m(CrtValidoHasta, contaminantesSection);
    if validoRevision.None? || validoContaminantes.None? {
      return Failure(ValidoMissing);
    }

    var vr := ValidoValue(validoRevision.value);
    var vc := ValidoValue(validoContaminantes.value);
    var folio := Field(m, CrtFolio, text);
    datos := StoreDates(datos, vr, vc, folio);
    ghost var vs := Values(m, text, validoRevision.value, validoContaminantes.value);
    ValuesInOrder(m, text, validoRevision.value, validoContaminantes.value);
    ZipSix(vs, fecha, planta, placa, vr, vc, folio);
    ExtractionSucceeds(m, text, validoRevision.value, validoContaminantes.value);
    r := Success(datos);
  }

  /** Six values listed one by one pair up with `Fields` in order. */
  lemma ZipSix(vs: seq<string>, a: string, b: string, c: string, d: string, e: string, f: string)
    requires |vs| == |Fields|
    requires vs[0] == a && vs[1] == b && vs[2] == c && vs[3] == d && vs[4] == e && vs[5] == f
    ensures Zip(Fields, vs)
         == [(Fields[0], a), (Fields[1], b), (Fields[2], c)] + [(Fields[3], d), (Fields[4], e), (Fields[5], f)]
  {
  }

  /** With both sections and both dates found, the extraction is the
      record of the six values. */
  lemma ExtractionSucceeds(m: Oracle, text: string, vr: Captures, vc: Captures)
    requires Section(m, CrtRevisionSection, text).Some? && Section(m, CrtContaminantesSection, text).Some?
    requires m(CrtValidoHasta, Section(m, CrtRevisionSection, text).value) == Some(vr)
    requires m(CrtValidoHasta, Section(m, CrtContaminantesSection, text).value) == Some(vc)
    ensures Extraction(m, text) == Success(Zip(Fields, Values(m, text, vr, vc)))
  {
  }

  /** Extraction throws exactly when a section title or one of the two
      "VÁLIDO HASTA" dates is missing, and the message says which. */
  lemma ExtractionFailsIff(m: Oracle, text: string)
    ensures var rev := Section(m, CrtRevisionSection, text);
      var con := Section(m, CrtContaminantesSection, text);
      && (rev.None? || con.None? ==> Extraction(m, text) == Failure(SectionsMissing))
      && (rev.Some? && con.Some? ==>
            (Extraction(m, text).Failure? <==>
               m(CrtValidoHasta, rev.value).None? || m(CrtValidoHasta, con.value).None?))
  {
  }

  /** The fixed fields and the folio default to the empty string when their
      pattern does not match. */
  lemma ExtractionDefaults(m: Oracle, text: string)
    requires Extraction(m, text).Success?
    ensures var r := Extraction(m, text).value;
      && (m(CrtFechaRevision, text).None? ==> r[0].1 == "")
      && (m(CrtPlanta, text).None? ==> r[1].1 == "")
      && (m(CrtPlacaPatente, text).None? ==> r[2].1 == "")
      && (m(CrtFolio, text).None? ==> r[5].1 == "")
  {
  }

  /** A month-year group 2 is the value unchanged. */
  lemma ValidoValueOfMonthYear(caps: Captures)
    requires Group(caps, 2).Some? && MonthYear(Group(caps, 2).value)
    ensures ValidoValue(caps) == Group(caps, 2).value
  {
    MonthYearTrimmed(Group(caps, 2).value);
    TrimOfTrimmed(Group(caps, 2).value);
  }

  /** With an engine that honours the "VÁLIDO HASTA" pattern, both dates are
      the month-year group unchanged, and both pass the validator. */
  lemma ValidoValuesConform(m: Oracle, text: string)
    requires ValidoConforms(m) && Extraction(m, text).Success?
    ensures var r := Extraction(m, text).value;
      MonthYear(r[3].1) && MonthYear(r[4].1)
  {
    var rev := Section(m, CrtRevisionSection, text).value;
    var con := Section(m, CrtContaminantesSection, text).value;
    var vr := m(CrtValidoHasta, rev).value;
    var vc := m(CrtValidoHasta, con).value;
    ValidoValueOfMonthYear(vr);
    ValidoValueOfMonthYear(vc);
    assert Extraction(m, text).value == Zip(Fields, Values(m, text, vr, vc));
  }

  /** With an engine that honours the folio pattern, the folio is either
      empty or in validator form. */
  lemma FolioConformsToValidator(m: Oracle, text: string)
    requires FolioConforms(m) && Extraction(m, text).Success?
    ensures var f := Extraction(m, text).value[5].1;
      f == "" || FolioFormat(f)
  {
    if m(CrtFolio, text).Some? {
      var g := Group(m(CrtFolio, text).value, 1).value;
      assert g[|g| - 1] == g[3..][|g| - 4];
      TrimOfTrimmed(g);
    }
  }

  // ---------------------------------------------------------------------
  // Validation
  // ---------------------------------------------------------------------

  /** One turn of the validation loop. Unlike the homologation validator,
      the value is tested untrimmed. */
  function Check(datos: Record, field: string): (e: Option<string>)
    ensures e.None? <==> GetOrEmpty(datos, field) != "" && Format(field, GetOrEmpty(datos, field))
    ensures GetOrEmpty(datos, field) == "" ==> e == Some(MissingField(field))
  {
    var value := GetOrEmpty(datos, field);
    if value == "" then Some(MissingField(field))
    else if !Format(field, value) then Some(Mismatch(field, value))
    else None
  }

  /** The error list of `bestEffortValidationCRT`. */
  function ValidationErrors(datos: Record): seq<string> {
    Errors(CheckedFields, f => Check(datos, f))
  }

  /** `bestEffortValidationCRT(datos, fileName)`. */
  method BestEffortValidationCRT(datos: Record, fileName: string) returns (out: Outcome)
    ensures out == Verdict(DataHeader(fileName), ValidationErrors(datos))
    ensures out.Valid? <==>
      forall f :: f in CheckedFields ==> GetOrEmpty(datos, f) != "" && Format(f, GetOrEmpty(datos, f))
  {
    var errors := CollectErrors(CheckedFields, f => Check(datos, f));
    ErrorsEmptyIff(CheckedFields, f => Check(datos, f));
    if |errors| > 0 {
      out := Invalid(Report(DataHeader(fileName), errors));
    } else {
      out := Valid;
    }
  }

  // ---------------------------------------------------------------------
  // procesarPDFCRT
  // ---------------------------------------------------------------------

  /** The returned object: the file name first, then the fields in the
      fixed column order. */
  function Ordered(datos: Record, fileName: string): (r: Record)
    ensures Keys(r) == OutputFields
    ensures r[0].1 == fileName
  {
    Zip(OutputFields, [fileName] + seq(|Fields|, i requires 0 <= i < |Fields| => GetOrEmpty(datos, Fields[i])))
  }

  /** `procesarPDFCRT(file)`, with the text extraction (`parsePDFBuffer`)
      given as its outcome: a parse error, an extraction error and a
      validation error are thrown on; otherwise the ordered record. */
  method ProcesarPDFCRT(m: Oracle, parsed: Result<string, string>, fileName: string)
    returns (r: Result<Record, string>)
    ensures parsed.Failure? ==> r == Failure(parsed.error)
    ensures parsed.Success? && Extraction(m, parsed.value).Failure? ==>
      r == Failure(Extraction(m, parsed.value).error)
    ensures parsed.Success? && Extraction(m, parsed.value).Success? ==>
      var datos := Extraction(m, parsed.value).value;
      && (r.Success? <==> ValidationErrors(datos) == [])
      && (r.Success? ==> r.value == Ordered(datos, fileName))
      && (r.Failure? ==> r.error == Verdict(DataHeader(fileName), ValidationErrors(datos)).message)
  {
    if parsed.Failure? {
      return Failure(parsed.error);
    }
    var extracted := ExtraerDatosCRT(m, parsed.value);
    if extracted.Failure? {
      return Failure(extracted.error);
    }
    var datos := extracted.value;
    var out := BestEffortValidationCRT(datos, fileName);
    if out.Invalid? {
      return Failure(out.message);
    }
    datos := Put(datos, NombrePdf, fileName);
    OrderedIgnoresName(extracted.value, fileName);
    r := Success(Ordered(datos, fileName));
  }

  /** Storing the file name under "Nombre PDF" does not change any of the
      extracted columns. */
  lemma OrderedIgnoresName(datos: Record, fileName: string)
    ensures Ordered(Put(datos, NombrePdf, fileName), fileName) == Ordered(datos, fileName)
  {
    var named := Put(datos, NombrePdf, fileName);
    forall i | 0 <= i < |Fields|
      ensures GetOrEmpty(named, Fields[i]) == GetOrEmpty(datos, Fields[i])
    {
      FieldsDistinct();
      assert Fields[i] == OutputFields[i + 1] && NombrePdf == OutputFields[0];
    }
    assert seq(|Fields|, i requires 0 <= i < |Fields| => GetOrEmpty(named, Fields[i]))
        == seq(|Fields|, i requires 0 <= i < |Fields| => GetOrEmpty(datos, Fields[i]));
  }

  /** The returned record carries every extracted field under its own name. */
  lemma OrderedKeepsValues(datos: Record, fileName: string, i: nat)
    requires 1 <= i < |OutputFields|
    ensures Get(Ordered(datos, fileName), OutputFields[i]) == Some(GetOrEmpty(datos, OutputFields[i]))
  {
    var r := Ordered(datos, fileName);
    FieldsDistinct();
    GetAt(r, i);
    assert OutputFields[i] == Fields[i - 1];
  }
}
