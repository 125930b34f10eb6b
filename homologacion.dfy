/** The homologation certificate (src/extractors/homologacionExtractor.ts):
    thirteen fields captured with `buscar`, three of them post-processed,
    and a validator that checks the trimmed value of every field against an
    anchored pattern. */
module Homologacion {
  import opened Wrappers
  import opened Text
  import opened Records
  import opened Matching
  import opened Validation

  const FechaEmision: string := "Fecha de Emisión"
  const Correlativo: string := "Nº Correlativo"
  const CodigoInforme: string := "Código Informe Técnico"
  const Patente: string := "Patente"
  const ValidoHasta: string := "Válido Hasta"
  const TipoVehiculo: string := "Tipo de Vehículo"
  const Marca: string := "Marca"
  const Anio: string := "Año"
  const Modelo: string := "Modelo"
  const Color: string := "Color"
  const Vin: string := "VIN"
  const Motor: string := "Nº Motor"
  const Firmado: string := "Firmado por"

  /** The keys of an extracted record, in the order they are declared. */
  const Fields: seq<string> :=
    [FechaEmision, Correlativo, CodigoInforme, Patente, ValidoHasta, TipoVehiculo,
     Marca, Anio, Modelo, Color, Vin, Motor, Firmado]

  /** The capture pattern of each field, position by position. */
  const Patterns: seq<Pattern> :=
    [HomFechaEmision, HomCorrelativo, HomCodigoInforme, HomPatente, HomValidoHasta,
     HomTipoVehiculo, HomMarca, HomAnio, HomModelo, HomColor, HomVin, HomMotor, HomFirmado]

  lemma FieldsDistinct()
    ensures NoDuplicates(Fields)
  {
  }

  // ---------------------------------------------------------------------
  // Post-processing of three fields
  // ---------------------------------------------------------------------

  /** `value.replace(/-/g, "").replace(/\s/g, "").trim()`. */
  function CleanPlate(v: string): (r: string)
    ensures NoneOf(r, IsPlateSeparator)
    ensures |r| <= |v|
  {
    var c := RemoveWhere(v, IsPlateSeparator);
    TrimOfTrimmed(c);
    Trim(c)
  }

  /** The "Patente" value: the cleaned capture, cut to its first six
      characters. */
  function PatenteValue(v: string): (r: string)
    ensures |r| <= 6
    ensures NoneOf(r, IsPlateSeparator)
    ensures |r| == if |CleanPlate(v)| > 6 then 6 else |CleanPlate(v)|
    ensures r == CleanPlate(v)[..|r|]
  {
    var c := CleanPlate(v);
    if |c| > 6 then c[..6] else c
  }

  /** `C` or `El` in any letter case. */
  predicate IsMotorSuffix(s: string) {
    s in {"C", "c", "El", "EL", "el", "eL"}
  }

  /** The length of a `C`/`El` ending of `s`, or 0. */
  function MotorSuffixLength(s: string): (k: nat)
    ensures k <= |s|
    ensures k > 0 ==> IsMotorSuffix(s[|s| - k..])
  {
    if |s| >= 1 && IsMotorSuffix(s[|s| - 1..]) then 1
    else if |s| >= 2 && IsMotorSuffix(s[|s| - 2..]) then 2
    else 0
  }

  /** `s` ends with whitespace followed by `C` or `El`. */
  predicate HasMotorSuffix(s: string) {
    var k := MotorSuffixLength(s);
    k > 0 && |s| > k && IsWhitespace(s[|s| - k - 1])
  }

  /** `motor.replace(/\s+(C|El)$/i, "").trim()`: the match starts where the
      whitespace run before the suffix starts, so what remains is the text
      before the suffix with its trailing whitespace removed. */
  function MotorValue(s: string): (r: string)
    ensures IsTrimmed(r)
    ensures |r| <= |s|
  {
    if HasMotorSuffix(s) then Trim(TrimEnd(s[..|s| - MotorSuffixLength(s)])) else Trim(s)
  }

  /** A whitespace-preceded `C` or `El` ending is dropped. */
  lemma MotorValueDropsSuffix(p: string, ws: string, suffix: string)
    requires |ws| > 0 && All(ws, IsWhitespace) && IsMotorSuffix(suffix)
    ensures MotorValue(p + ws + suffix) == Trim(p)
  {
    var s := p + ws + suffix;
    assert s[..|s| - |suffix|] == p + ws;
    MotorSuffixLengthOf(p + ws, suffix);
    assert s[|s| - |suffix| - 1] == ws[|ws| - 1];
    TrimEndAppendWhitespace(p, ws);
    TrimOfTrimEnd(p);
  }

  /** A `C` or `El` ending is recognised with its own length. */
  lemma MotorSuffixLengthOf(t: string, suffix: string)
    requires IsMotorSuffix(suffix)
    ensures MotorSuffixLength(t + suffix) == |suffix|
  {
    var s := t + suffix;
    if |suffix| == 1 {
      assert s[|s| - 1..] == suffix;
    } else {
      assert s[|s| - 1..] == suffix[1..];
      assert s[|s| - 2..] == suffix;
    }
  }

  /** Without such an ending the value is only trimmed. */
  lemma MotorValueWithoutSuffix(s: string)
    requires !HasMotorSuffix(s)
    ensures MotorValue(s) == Trim(s)
  {
  }

  /** `\d{2}\/\d{2}\/\d{4}`: a ten-character `dd/mm/yyyy` token. */
  predicate IsDateToken(w: string)
    requires |w| == 10
  {
    && IsDigit(w[0]) && IsDigit(w[1]) && w[2] == '/'
    && IsDigit(w[3]) && IsDigit(w[4]) && w[5] == '/'
    && IsDigit(w[6]) && IsDigit(w[7]) && IsDigit(w[8]) && IsDigit(w[9])
  }

  /** A date token starts at index `i`. */
  predicate DateAt(s: string, i: nat) {
    i + 10 <= |s| && IsDateToken(s[i..i + 10])
  }

  /** `s` holds no date token. */
  predicate NoDate(s: string) {
    forall i: nat :: i < |s| ==> !DateAt(s, i)
  }

  /** The first date token at or after `from`. */
  function FirstDate(s: string, from: nat): (r: Option<nat>)
    decreases |s| - from
    ensures r.Some? ==> from <= r.value && DateAt(s, r.value)
    ensures forall j: nat :: from <= j && (r.None? || j < r.value) ==> !DateAt(s, j)
  {
    if from + 10 > |s| then None
    else if DateAt(s, from) then Some(from)
    else FirstDate(s, from + 1)
  }

  /** A date token inside an infix is a date token of the whole string. */
  lemma DateAtInfix(s: string, sub: string, k: nat, j: nat)
    requires OccursAt(s, sub, k) && DateAt(sub, j)
    ensures DateAt(s, k + j)
  {
    var a, b := s[k + j..k + j + 10], sub[j..j + 10];
    forall t | 0 <= t < 10 ensures a[t] == b[t] {
      assert sub[j + t] == s[k..k + |sub|][j + t];
    }
    assert a == b;
  }

  /** An infix of a text without date tokens has none either. */
  lemma NoDateInfix(s: string, sub: string)
    requires NoDate(s) && exists k: nat :: TrimmedAt(s, sub, k)
    ensures NoDate(sub)
  {
    var k: nat :| TrimmedAt(s, sub, k);
    forall j: nat | j < |sub| ensures !DateAt(sub, j) {
      if DateAt(sub, j) {
        DateAtInfix(s, sub, k, j);
      }
    }
  }

  /** The text before the first token holds no token. */
  lemma NoDateBeforeFirst(s: string, i: nat)
    requires FirstDate(s, 0) == Some(i)
    ensures NoDate(s[..i])
  {
    forall j: nat | j < i ensures !DateAt(s[..i], j) {
      if j + 10 <= i {
        assert s[..i][j..j + 10] == s[j..j + 10];
        assert !DateAt(s, j);
        assert DateAt(s[..i], j) == DateAt(s, j);
      }
    }
  }

  /** `firmado.split(/\d{2}\/\d{2}\/\d{4}/)[0].trim()`: the text before the
      first date token, trimmed. */
  function FirmadoValue(s: string): (r: string)
    ensures IsTrimmed(r)
    ensures NoDate(r)
    ensures FirstDate(s, 0).None? ==> r == Trim(s)
  {
    var first := FirstDate(s, 0);
    if first.None? then
      TrimRemovesOnlyWhitespace(s);
      NoDateInfix(s, Trim(s));
      Trim(s)
    else
      var i := first.value;
      NoDateBeforeFirst(s, i);
      TrimRemovesOnlyWhitespace(s[..i]);
      NoDateInfix(s[..i], Trim(s[..i]));
      Trim(s[..i])
  }

  /** A token straddling the end of a name that does not end in a digit is
      impossible when a token starts right after the name. */
  lemma NoStraddlingDate(name: string, rest: string, j: nat)
    requires DateAt(rest, 0) && j < |name| < j + 10 && !IsDigit(name[|name| - 1])
    ensures !DateAt(name + rest, j)
  {
    var s := name + rest;
    var w := s[j..j + 10];
    var d := |name| - j;
    var tok := rest[0..10];
    assert w[d - 1] == name[|name| - 1];
    if d == 3 {
      assert w[8] == tok[5];
    } else if d == 6 {
      assert w[8] == tok[2];
    }
  }

  /** A signatory followed by a date token loses the token and all that
      follows it. */
  lemma FirmadoCutsAtDate(name: string, rest: string)
    requires NoDate(name) && DateAt(rest, 0) && (|name| == 0 || !IsDigit(name[|name| - 1]))
    ensures FirmadoValue(name + rest) == Trim(name)
  {
    var s := name + rest;
    assert s[|name|..|name| + 10] == rest[0..10];
    assert DateAt(s, |name|);
    forall j: nat | j < |name| ensures !DateAt(s, j) {
      if j + 10 <= |name| {
        assert s[j..j + 10] == name[j..j + 10];
        assert !DateAt(name, j);
        assert DateAt(s, j) == DateAt(name, j);
      } else {
        NoStraddlingDate(name, rest, j);
      }
    }
    assert FirstDate(s, 0) == Some(|name|);
    assert s[..|name|] == name;
  }

  // ---------------------------------------------------------------------
  // Extraction
  // ---------------------------------------------------------------------

  /** The value of field `i`: the first capture of its pattern, with the
      plate, motor and signatory post-processing applied. */
  function Value(m: Oracle, text: string, i: nat): string
    requires i < |Fields|
  {
    var v := Field(m, Patterns[i], text);
    if i == 3 then PatenteValue(v)
    else if i == 11 then MotorValue(v)
    else if i == 12 then FirmadoValue(v)
    else v
  }

  function Values(m: Oracle, text: string): (vs: seq<string>)
    ensures |vs| == |Fields|
  {
    seq(|Fields|, i requires 0 <= i < |Fields| => Value(m, text, i))
  }

  /** `extraerDatosHomologacion(text)`: the object literal of the thirteen
      fields. */
  function ExtraerDatosHomologacion(m: Oracle, text: string): (r: Record)
    ensures Keys(r) == Fields
    ensures |r[3].1| <= 6 && NoneOf(r[3].1, IsPlateSeparator)
    ensures NoDate(r[12].1)
  {
    Zip(Fields, Values(m, text))
  }

  /** Every extracted value is trimmed, and a field whose pattern does not
      match is the empty string. */
  lemma ExtractedValues(m: Oracle, text: string, i: nat)
    requires i < |Fields|
    ensures var r := ExtraerDatosHomologacion(m, text);
      IsTrimmed(r[i].1) && (m(Patterns[i], text).None? ==> r[i].1 == "")
  {
    var v := Field(m, Patterns[i], text);
    assert ExtraerDatosHomologacion(m, text)[i].1 == Value(m, text, i);
    if i == 3 {
      assert PatenteValue(v) == [] || !IsWhitespace(PatenteValue(v)[0]);
    }
  }

  // ---------------------------------------------------------------------
  // Validation
  // ---------------------------------------------------------------------

  /** `^\d{1,2}\/[A-Z]{3}\/\d{4}$` */
  predicate FechaEmisionFormat(s: string) {
    && (|s| == 10 || |s| == 11)
    && var d := |s| - 9;
    && All(s[..d], IsDigit) && s[d] == '/' && All(s[d + 1..d + 4], IsAsciiUpper)
    && s[d + 4] == '/' && All(s[d + 5..], IsDigit)
  }

  /** `[A-Z0-9\-]` */
  predicate IsCodeChar(c: char) { IsUpperAlnum(c) || c == '-' }

  /** `^[A-Z0-9]{6}$` under the `i` flag. */
  predicate PatenteFormat(s: string) { |s| == 6 && All(s, IsAlnum) }

  /** `^[A-Z]{3}\/\d{4}$` */
  predicate ValidoHastaFormat(s: string) {
    |s| == 8 && All(s[..3], IsAsciiUpper) && s[3] == '/' && All(s[4..], IsDigit)
  }

  /** `[A-ZÑ]` */
  predicate IsUpperOrEnye(c: char) { IsAsciiUpper(c) || c == 'Ñ' }

  /** `[A-Z\s\(\)0-9\.\-]`; as `.` is in the class, the optional final
      `\.?` of the pattern adds no strings. */
  predicate IsColorChar(c: char) {
    IsAsciiUpper(c) || IsWhitespace(c) || c == '(' || c == ')' || IsDigit(c) || c == '.' || c == '-'
  }

  /** `[A-Z0-9 ]` */
  predicate IsMotorHead(c: char) { IsUpperAlnum(c) || c == ' ' }

  /** `^[A-Z0-9 ]+(?:\s*[A-Za-z]+)?$`: a head run, then optionally
      whitespace and a run of letters. */
  predicate MotorFormat(s: string) {
    exists i: nat, j: nat {:trigger s[i..j]} ::
      && 1 <= i <= j <= |s|
      && All(s[..i], IsMotorHead) && All(s[i..j], IsWhitespace) && All(s[j..], IsAsciiLetter)
      && (i == j == |s| || j < |s|)
  }

  /** The anchored pattern the validator tests a field's trimmed value against. */
  predicate Format(field: string, s: string) {
    if field == FechaEmision then FechaEmisionFormat(s)
    else if field == Correlativo || field == CodigoInforme then NonEmptyAll(s, IsCodeChar)
    else if field == Patente then PatenteFormat(s)
    else if field == ValidoHasta then ValidoHastaFormat(s)
    else if field == TipoVehiculo then NonEmptyAll(s, IsUpperOrEnye)
    else if field == Marca then NonEmptyAll(s, IsAsciiUpper)
    else if field == Anio then |s| == 4 && All(s, IsDigit)
    else if field == Modelo || field == Firmado then OneLine(s)
    else if field == Color then NonEmptyAll(s, IsColorChar)
    else if field == Vin then NonEmptyAll(s, IsUpperAlnum)
    else if field == Motor then MotorFormat(s)
    else true
  }

  /** A field passes when it is present, not empty, and its trimmed value
      has the field's format. */
  predicate FieldOk(datos: Record, field: string) {
    GetOrEmpty(datos, field) != "" && Format(field, Trim(GetOrEmpty(datos, field)))
  }

  /** One turn of the validation loop: a missing or empty value, or a
      trimmed value that fails its pattern, yields a message. */
  function Check(datos: Record, field: string): (e: Option<string>)
    ensures e.None? <==> FieldOk(datos, field)
    ensures GetOrEmpty(datos, field) == "" ==> e == Some(MissingField(field))
  {
    var value := GetOrEmpty(datos, field);
    if value == "" then Some(MissingField(field))
    else if !Format(field, Trim(value)) then Some(Mismatch(field, value))
    else None
  }

  /** The error list of `bestEffortValidationHomologacion`. */
  function ValidationErrors(datos: Record): seq<string> {
    Errors(Fields, f => Check(datos, f))
  }

  /** `bestEffortValidationHomologacion(datos, fileName)`. */
  method BestEffortValidationHomologacion(datos: Record, fileName: string) returns (out: Outcome)
    ensures out == Verdict(DataHeader(fileName), ValidationErrors(datos))
    ensures out.Valid? <==> forall f :: f in Fields ==> FieldOk(datos, f)
  {
    var errors := CollectErrors(Fields, f => Check(datos, f));
    ErrorsEmptyIffPasses(Fields, f => Check(datos, f), f => FieldOk(datos, f));
    if |errors| > 0 {
      out := Invalid(Report(DataHeader(fileName), errors));
    } else {
      out := Valid;
    }
  }

  /** Reading field `i` of an extracted record gives its value. */
  lemma GetExtracted(m: Oracle, text: string, i: nat)
    requires i < |Fields|
    ensures Get(ExtraerDatosHomologacion(m, text), Fields[i]) == Some(Value(m, text, i))
  {
    var r := ExtraerDatosHomologacion(m, text);
    assert r[i] == (Fields[i], Value(m, text, i));
    FieldsDistinct();
    GetAt(r, i);
  }

  /** The plate value has the validator's form exactly when the cleaned
      capture had at least six characters, the first six of them letters or
      digits. */
  lemma PatenteFormatIff(v: string)
    ensures var c := CleanPlate(v);
      PatenteFormat(PatenteValue(v)) <==> |c| >= 6 && All(c[..6], IsAlnum)
  {
    var c := CleanPlate(v);
    if |c| == 6 {
      assert c[..6] == c;
    }
  }

  /** The extracted plate passes its check exactly when it has the
      validator's form. */
  lemma PatenteCheckIff(m: Oracle, text: string)
    ensures var c := CleanPlate(Field(m, HomPatente, text));
      Check(ExtraerDatosHomologacion(m, text), Patente).None? <==> |c| >= 6 && All(c[..6], IsAlnum)
  {
    ExtractedPatente(m, text);
    PatenteCheckOf(ExtraerDatosHomologacion(m, text), Field(m, HomPatente, text));
  }

  /** The record's "Patente" is the plate computed from its capture. */
  lemma ExtractedPatente(m: Oracle, text: string)
    ensures GetOrEmpty(ExtraerDatosHomologacion(m, text), Patente) == PatenteValue(Field(m, HomPatente, text))
  {
    assert Patterns[3] == HomPatente && Fields[3] == Patente;
    GetExtracted(m, text, 3);
  }

  /** Any record whose "Patente" is the plate computed from `v` passes the
      check exactly when the cleaned `v` starts with six alphanumerics. */
  lemma PatenteCheckOf(r: Record, v: string)
    requires GetOrEmpty(r, Patente) == PatenteValue(v)
    ensures Check(r, Patente).None? <==> |CleanPlate(v)| >= 6 && All(CleanPlate(v)[..6], IsAlnum)
  {
    TrimOfTrimmed(PatenteValue(v));
    FormatOfPatente(PatenteValue(v));
    PatenteFormatIff(v);
  }

  lemma FormatOfPatente(s: string)
    ensures Format(Patente, s) == PatenteFormat(s)
  {
    assert Patente != FechaEmision && Patente != Correlativo && Patente != CodigoInforme;
  }

  /** A record missing a field is always rejected, and the message names it. */
  lemma MissingFieldRejected(datos: Record, fileName: string, k: nat)
    requires k < |Fields| && GetOrEmpty(datos, Fields[k]) == ""
    ensures var out := Verdict(DataHeader(fileName), ValidationErrors(datos));
      out.Invalid? && Contains(out.message, MissingField(Fields[k]))
  {
    ErrorsContain(Fields, f => Check(datos, f), k);
    var errs := ValidationErrors(datos);
    var i :| 0 <= i < |errs| && errs[i] == MissingField(Fields[k]);
  }
}
