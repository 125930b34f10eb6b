/** The compulsory insurance certificate, SOAP (src/extractors/soapExtractor.ts):
    line breaks become spaces, seven fields are captured, the RUT loses its
    thousands dots and the policy number its spaces around the hyphen, and
    a validator rejects short values and values outside their pattern. */
module Soap {
  import opened Wrappers
  import opened Text
  import opened Records
  import opened Matching
  import opened Validation

  const Inscripcion: string := "INSCRIPCION R.V.M"
  const BajoCodigo: string := "Bajo el codigo"
  const Rut: string := "RUT"
  const RigeDesde: string := "RIGE DESDE"
  const Hasta: string := "HASTA"
  const Poliza: string := "POLIZA N°"
  const Prima: string := "PRIMA"

  /** The keys of an extracted record, in the order of the object literal;
      the validator checks them in the same order. */
  const Fields: seq<string> := [Inscripcion, BajoCodigo, Rut, RigeDesde, Hasta, Poliza, Prima]

  lemma FieldsDistinct()
    ensures NoDuplicates(Fields)
  {
  }

  // ---------------------------------------------------------------------
  // RUT and policy number
  // ---------------------------------------------------------------------

  /** `[.\s]` */
  predicate IsRutFiller(c: char) { c == '.' || IsWhitespace(c) }

  /** `[0-9kK]` */
  predicate IsRutCheck(c: char) { IsDigit(c) || c == 'k' || c == 'K' }

  /** `rutMatch ? `${rutMatch[1].replace(/[.\s]/g, "")}-${rutMatch[2]}` : ""`.
      Both groups are mandatory in the pattern, so they are present in
      every match; `GetOr("")` only fills in the types. */
  function RutValue(rutMatch: Option<Captures>): (r: string)
    ensures rutMatch.None? ==> r == ""
  {
    if rutMatch.None? then ""
    else
      var caps := rutMatch.value;
      RemoveWhere(Group(caps, 1).GetOr(""), IsRutFiller) + "-" + Group(caps, 2).GetOr("")
  }

  /** What the RUT pattern guarantees of a match: group 1 is digits with
      dots (`\d{7,8}` or `\d{1,3}(?:\.\d{3})+`) and group 2 one check
      character. */
  predicate RutCaptured(caps: Captures) {
    && Group(caps, 1).Some? && NonEmptyAll(Group(caps, 1).value, c => IsDigit(c) || c == '.')
    && Group(caps, 2).Some? && |Group(caps, 2).value| == 1 && IsRutCheck(Group(caps, 2).value[0])
  }

  /** The cleaned RUT is the digits of group 1, a hyphen and the check
      character. */
  lemma RutShape(caps: Captures)
    requires RutCaptured(caps)
    ensures var r := RutValue(Some(caps));
      var digits := RemoveWhere(Group(caps, 1).value, IsRutFiller);
      && r == digits + "-" + Group(caps, 2).value
      && All(digits, IsDigit)
      && |r| >= 2 && r[|r| - 2] == '-' && IsRutCheck(r[|r| - 1])
  {
    var g := Group(caps, 1).value;
    RemoveWhereLeaves(g, IsRutFiller, IsDigit);
  }

  /** `97.006.000` with check digit `6` becomes `97006000-6`. */
  lemma RutExample()
    ensures RutValue(Some([Some("RUT: 97.006.000-6"), Some("97.006.000"), Some("6")])) == "97006000-6"
  {
    var caps: Captures := [Some("RUT: 97.006.000-6"), Some("97.006.000"), Some("6")];
    RutOfGroups(caps, "97.006.000", "6");
    RutDigitsExample();
    assert "97006000" + "-" + "6" == "97006000-6";
  }

  /** The cleaned RUT of a match, from its two groups. */
  lemma RutOfGroups(caps: Captures, digits: string, check: string)
    requires Group(caps, 1) == Some(digits) && Group(caps, 2) == Some(check)
    ensures RutValue(Some(caps)) == RemoveWhere(digits, IsRutFiller) + "-" + check
  {
  }

  lemma RutDigitsExample()
    ensures RemoveWhere("97.006.000", IsRutFiller) == "97006000"
  {
    DottedDigits("97", "006", "000");
    assert "97.006.000" == "97" + "." + "006" + "." + "000";
    assert "97006000" == "97" + "006" + "000";
  }

  /** Three groups of digits separated by dots lose the dots. */
  lemma DottedDigits(a: string, b: string, c: string)
    requires All(a, IsDigit) && All(b, IsDigit) && All(c, IsDigit)
    ensures RemoveWhere(a + "." + b + "." + c, IsRutFiller) == a + b + c
  {
    var dot := ".";
    assert RemoveWhere(dot, IsRutFiller) == "" by {
      assert dot[1..] == [];
    }
    var s1 := a + dot;
    var s2 := s1 + b;
    var s3 := s2 + dot;
    KeepDigits(a);
    KeepDigits(b);
    KeepDigits(c);
    RemoveWhereAppend(a, dot, IsRutFiller);
    assert RemoveWhere(s1, IsRutFiller) == a;
    RemoveWhereAppend(s1, b, IsRutFiller);
    assert RemoveWhere(s2, IsRutFiller) == a + b;
    RemoveWhereAppend(s2, dot, IsRutFiller);
    assert RemoveWhere(s3, IsRutFiller) == a + b;
    RemoveWhereAppend(s3, c, IsRutFiller);
  }

  /** Digits are kept. */
  lemma KeepDigits(s: string)
    requires All(s, IsDigit)
    ensures RemoveWhere(s, IsRutFiller) == s
  {
    RemoveWhereNothing(s, IsRutFiller);
  }

  /** Removing the characters of one class from a string made of two
      classes leaves only the other class. */
  lemma {:induction false} RemoveWhereLeaves(s: string, p: char -> bool, q: char -> bool)
    requires forall i :: 0 <= i < |s| ==> p(s[i]) || q(s[i])
    ensures All(RemoveWhere(s, p), q)
  {
    if s != [] {
      assert forall i :: 0 <= i < |s| - 1 ==> s[1..][i] == s[i + 1];
      RemoveWhereLeaves(s[1..], p, q);
    }
  }

  /** The policy's `.replace` of the first hyphen with the whitespace runs
      on both sides of it: the leftmost match of "whitespace, hyphen,
      whitespace" starts at the whitespace run just before the first
      hyphen, and greedily takes the run after it. */
  function CollapseHyphen(s: string): (r: string)
    ensures !Contains(s, "-") ==> r == s
  {
    var h := IndexOf(s, "-");
    if h.None? then s else TrimEnd(s[..h.value]) + "-" + TrimStart(s[h.value + 1..])
  }

  /** The first hyphen of `before + "-" + after` is the one after `before`
      when `before` has none. */
  lemma FirstHyphen(before: string, after: string)
    requires NoneOf(before, c => c == '-')
    ensures IndexOf(before + "-" + after, "-") == Some(|before|)
  {
    var s := before + "-" + after;
    assert OccursAt(s, "-", |before|);
    forall j | 0 <= j < |before| ensures !OccursAt(s, "-", j) {
      assert s[j] == before[j];
    }
  }

  /** A policy number in the captured form `head \s* - \s* tail` collapses
      to `head-tail`. */
  lemma CollapseHyphenSpaced(head: string, ws1: string, ws2: string, tail: string)
    requires NoneOf(head, c => c == '-')
    requires head == [] || !IsWhitespace(head[|head| - 1])
    requires tail == [] || !IsWhitespace(tail[0])
    requires All(ws1, IsWhitespace) && All(ws2, IsWhitespace)
    ensures CollapseHyphen(head + ws1 + "-" + ws2 + tail) == head + "-" + tail
  {
    var s := head + ws1 + "-" + ws2 + tail;
    var h := |head + ws1|;
    assert NoneOf(head + ws1, c => c == '-') by {
      forall j | 0 <= j < h ensures (head + ws1)[j] != '-' {
        if j >= |head| {
          assert (head + ws1)[j] == ws1[j - |head|];
        }
      }
    }
    assert s == (head + ws1) + "-" + (ws2 + tail);
    FirstHyphen(head + ws1, ws2 + tail);
    assert s[..h] == head + ws1;
    assert s[h + 1..] == ws2 + tail;
    TrimEndAppendWhitespace(head, ws1);
    TrimEndOfTrimmed(head);
    TrimStartAfterWhitespace(ws2, tail);
  }

  /** Trimming the end of a string that does not end in whitespace changes
      nothing. */
  lemma TrimEndOfTrimmed(s: string)
    requires s == [] || !IsWhitespace(s[|s| - 1])
    ensures TrimEnd(s) == s
  {
  }

  /** Leading whitespace before a part that starts with another character
      is exactly what `TrimStart` removes. */
  lemma {:induction false} TrimStartAfterWhitespace(ws: string, rest: string)
    requires All(ws, IsWhitespace)
    requires rest == [] || !IsWhitespace(rest[0])
    ensures TrimStart(ws + rest) == rest
  {
    if ws != [] {
      assert (ws + rest)[1..] == ws[1..] + rest;
      assert All(ws[1..], IsWhitespace) by {
        forall i | 0 <= i < |ws| - 1 ensures IsWhitespace(ws[1..][i]) {
          assert ws[1..][i] == ws[i + 1];
        }
      }
      TrimStartAfterWhitespace(ws[1..], rest);
    } else {
      assert ws + rest == rest;
    }
  }

  /** What the policy pattern guarantees of a match: group 1 is
      `[A-Z0-9]+\s*-\s*[A-Z0-9]+`. */
  predicate PolizaCaptured(g: string, head: string, ws1: string, ws2: string, tail: string) {
    && g == head + ws1 + "-" + ws2 + tail
    && NonEmptyAll(head, IsAlnum) && NonEmptyAll(tail, IsAlnum)
    && All(ws1, IsWhitespace) && All(ws2, IsWhitespace)
  }

  // ---------------------------------------------------------------------
  // Extraction
  // ---------------------------------------------------------------------

  /** The value of field `i`, from the text with its line breaks replaced.
      `(buscar(t, re) || "").trim()` is `Field`: `buscar` already trims. */
  function Value(m: Oracle, t: string, i: nat): string
    requires i < |Fields|
  {
    Values(m, t)[i]
  }

  /** The seven values, in the order of `Fields`. */
  function Values(m: Oracle, t: string): (vs: seq<string>)
    ensures |vs| == |Fields|
  {
    Entries(Field(m, SoapInscripcion, t), Field(m, SoapBajoCodigo, t), RutValue(m(SoapRut, t)),
      Field(m, SoapRigeDesde, t), Field(m, SoapHasta, t), CollapseHyphen(Field(m, SoapPoliza, t)),
      Field(m, SoapPrima, t))
  }

  /** Seven values listed in order. */
  function Entries(a: string, b: string, c: string, d: string, e: string, f: string, g: string): (vs: seq<string>)
    ensures |vs| == 7
    ensures vs[0] == a && vs[1] == b && vs[2] == c && vs[3] == d && vs[4] == e && vs[5] == f && vs[6] == g
  {
    [a, b, c, d, e, f, g]
  }

  /** `extraerDatosSoapSimplificado(text)`: the seven fields, each captured
      from the text with its line breaks replaced by spaces. */
  function ExtraerDatosSoap(m: Oracle, text: string): (r: Record)
    ensures Keys(r) == Fields
  {
    var t := SpaceLineBreaks(text);
    Zip(Fields, Values(m, t))
  }

  /** The record holds the value of every field under its own key. */
  lemma GetExtracted(m: Oracle, text: string, i: nat)
    requires i < |Fields|
    ensures Get(ExtraerDatosSoap(m, text), Fields[i]) == Some(Value(m, SpaceLineBreaks(text), i))
  {
    var r := ExtraerDatosSoap(m, text);
    FieldsDistinct();
    GetAt(r, i);
  }

  /** The patterns only ever see text without line breaks: extracting from
      a text whose breaks were already replaced gives the same record. */
  lemma ExtractionIgnoresLineBreaks(m: Oracle, text: string)
    ensures ExtraerDatosSoap(m, SpaceLineBreaks(text)) == ExtraerDatosSoap(m, text)
  {
    SpaceLineBreaksIdempotent(text);
  }

  /** An unmatched RUT is the empty string; a matched one is the digits of
      group 1, a hyphen and the check character. */
  lemma {:induction false} ExtractedRut(m: Oracle, text: string)
    ensures var t := SpaceLineBreaks(text);
      var r := ExtraerDatosSoap(m, text)[2].1;
      && (m(SoapRut, t).None? ==> r == "")
      && (m(SoapRut, t).Some? && RutCaptured(m(SoapRut, t).value) ==>
            r == RemoveWhere(Group(m(SoapRut, t).value, 1).value, IsRutFiller)
                 + "-" + Group(m(SoapRut, t).value, 2).value)
  {
    var t := SpaceLineBreaks(text);
    ExtractedAt(m, text, 2);
    RutOfMatch(m(SoapRut, t));
  }

  /** Entry `i` of the record is field `i` with its value. */
  lemma ExtractedAt(m: Oracle, text: string, i: nat)
    requires i < |Fields|
    ensures ExtraerDatosSoap(m, text)[i] == (Fields[i], Values(m, SpaceLineBreaks(text))[i])
  {
  }

  /** The cleaned RUT of an absent match is empty; that of a match is built
      from its two groups. */
  lemma RutOfMatch(rutMatch: Option<Captures>)
    ensures rutMatch.None? ==> RutValue(rutMatch) == ""
    ensures rutMatch.Some? && RutCaptured(rutMatch.value) ==>
      RutValue(rutMatch) == RemoveWhere(Group(rutMatch.value, 1).value, IsRutFiller) + "-" + Group(rutMatch.value, 2).value
  {
    if rutMatch.Some? && RutCaptured(rutMatch.value) {
      var caps := rutMatch.value;
      RutOfGroups(caps, Group(caps, 1).value, Group(caps, 2).value);
    }
  }

  /** A policy group `head \s* - \s* tail` is trimmed and collapsed to
      `head-tail`. */
  lemma PolizaCollapsed(g: string, head: string, ws1: string, ws2: string, tail: string)
    requires PolizaCaptured(g, head, ws1, ws2, tail)
    ensures CollapseHyphen(Trim(g)) == head + "-" + tail
  {
    PolizaTrimmed(g, head, ws1, ws2, tail);
    AlnumHasNoHyphen(head);
    assert head == [] || !IsWhitespace(head[|head| - 1]);
    assert tail == [] || !IsWhitespace(tail[0]);
    CollapseHyphenSpaced(head, ws1, ws2, tail);
  }

  /** A captured policy starts and ends with a letter or digit, so trimming
      leaves it as it is. */
  lemma PolizaTrimmed(g: string, head: string, ws1: string, ws2: string, tail: string)
    requires PolizaCaptured(g, head, ws1, ws2, tail)
    ensures Trim(g) == g
  {
    assert g[0] == head[0];
    assert g[|g| - 1] == tail[|tail| - 1];
    TrimOfTrimmed(g);
  }

  /** Letters and digits contain no hyphen. */
  lemma AlnumHasNoHyphen(s: string)
    requires All(s, IsAlnum)
    ensures NoneOf(s, c => c == '-')
  {
    assert forall i :: 0 <= i < |s| ==> IsAlnum(s[i]);
  }

  /** A policy captured as `head \s* - \s* tail` is stored as `head-tail`. */
  lemma ExtractedPoliza(m: Oracle, text: string, head: string, ws1: string, ws2: string, tail: string)
    requires var t := SpaceLineBreaks(text);
      m(SoapPoliza, t).Some? && Group(m(SoapPoliza, t).value, 1).Some?
      && PolizaCaptured(Group(m(SoapPoliza, t).value, 1).value, head, ws1, ws2, tail)
    ensures ExtraerDatosSoap(m, text)[5].1 == head + "-" + tail
  {
    var t := SpaceLineBreaks(text);
    var g := Group(m(SoapPoliza, t).value, 1).value;
    PolizaCollapsed(g, head, ws1, ws2, tail);
    PolizaField(m, t, g, head + "-" + tail);
  }

  /** The stored policy is the collapsed capture. */
  lemma PolizaField(m: Oracle, t: string, g: string, p: string)
    requires m(SoapPoliza, t).Some? && Group(m(SoapPoliza, t).value, 1) == Some(g)
    requires g != "" && CollapseHyphen(Trim(g)) == p
    ensures Value(m, t, 5) == p
  {
    FieldOfGroup(m, SoapPoliza, t, g);
    PolizaValue(m, t);
  }

  /** A non-empty group 1 is stored trimmed. */
  lemma FieldOfGroup(m: Oracle, pat: Pattern, t: string, g: string)
    requires m(pat, t).Some? && Group(m(pat, t).value, 1) == Some(g) && g != ""
    ensures Field(m, pat, t) == Trim(g)
  {
  }

  /** Field 5 is the policy with the spaces around its hyphen collapsed. */
  lemma {:induction false} PolizaValue(m: Oracle, t: string)
    ensures Value(m, t, 5) == CollapseHyphen(Field(m, SoapPoliza, t))
  {
  }

  // ---------------------------------------------------------------------
  // Validation
  // ---------------------------------------------------------------------

  /** `^[A-Z0-9]{6,}\s*-\s*[A-Z0-9]$` under the `i` flag. Letters and
      digits, whitespace and the hyphen are disjoint classes, so every
      greedy run is forced. */
  predicate InscripcionFormat(s: string) {
    && var n := Span(s, IsAlnum);
    && n >= 6
    && var rest := s[n..];
    && var w := Span(rest, IsWhitespace);
    && w < |rest| && rest[w] == '-'
    && var after := rest[w + 1..];
    && var v := Span(after, IsWhitespace);
    && |after| == v + 1 && IsAlnum(after[v])
  }

  /** `[A-Z0-9\-]` */
  predicate IsCodeChar(c: char) { IsUpperAlnum(c) || c == '-' }

  /** `\d{1,3}(?:\.\d{3})+`: dot-separated groups of digits, the first of
      one to three digits and at least one more of exactly three. */
  predicate DottedGroups(n: string) {
    && var parts := Split(n, ".");
    && |parts| >= 2
    && 1 <= |parts[0]| <= 3 && All(parts[0], IsDigit)
    && forall i :: 1 <= i < |parts| ==> |parts[i]| == 3 && All(parts[i], IsDigit)
  }

  /** `^(?:\d{7,8}|(?:\d{1,3}(?:\.\d{3})+))-[0-9kK]$`: neither form of the
      number has a hyphen, so the hyphen is the next to last character. */
  predicate RutFormat(s: string) {
    && |s| >= 3 && s[|s| - 2] == '-' && IsRutCheck(s[|s| - 1])
    && var n := s[..|s| - 2];
    && ((7 <= |n| <= 8 && All(n, IsDigit)) || DottedGroups(n))
  }

  /** `[-/]` */
  predicate IsDateSeparator(c: char) { c == '-' || c == '/' }

  /** `^\d{2}[-/]\d{2}[-/]\d{4}$` */
  predicate DateFormat(s: string) {
    && |s| == 10
    && IsDigit(s[0]) && IsDigit(s[1]) && IsDateSeparator(s[2])
    && IsDigit(s[3]) && IsDigit(s[4]) && IsDateSeparator(s[5])
    && All(s[6..], IsDigit)
  }

  /** `^\d{6,9}-[A-Z0-9]$` under the `i` flag. */
  predicate PolizaFormat(s: string) {
    && 8 <= |s| <= 11
    && All(s[..|s| - 2], IsDigit) && s[|s| - 2] == '-' && IsAlnum(s[|s| - 1])
  }

  /** `^[\d\.]+$` */
  predicate PrimaFormat(s: string) {
    NonEmptyAll(s, c => IsDigit(c) || c == '.')
  }

  /** The pattern the validator tests a field's raw value against. */
  predicate Format(field: string, s: string) {
    if field == Inscripcion then InscripcionFormat(s)
    else if field == BajoCodigo then NonEmptyAll(s, IsCodeChar)
    else if field == Rut then RutFormat(s)
    else if field == RigeDesde || field == Hasta then DateFormat(s)
    else if field == Poliza then PolizaFormat(s)
    else if field == Prima then PrimaFormat(s)
    else true
  }

  /** `El campo "${field}" está incompleto (menos de 3 caracteres).` */
  function Incomplete(field: string): string {
    "El campo " + Quoted(field) + " está incompleto (menos de 3 caracteres)."
  }

  /** `El campo "${field}" con valor "${value}" no coincide con el formato esperado.` */
  function Unexpected(field: string, value: string): string {
    "El campo " + Quoted(field) + " con valor " + Quoted(value) + " no coincide con el formato esperado."
  }

  /** A field passes when its trimmed value has at least three characters
      and the value has the field's format. */
  predicate Passes(datos: Record, field: string) {
    |Trim(GetOrEmpty(datos, field))| >= 3 && Format(field, GetOrEmpty(datos, field))
  }

  /** One turn of the validation loop: a value shorter than three
      characters once trimmed is incomplete; otherwise the untrimmed value
      is tested against its pattern. */
  function Check(datos: Record, field: string): (e: Option<string>)
    ensures e.None? <==> Passes(datos, field)
    ensures |Trim(GetOrEmpty(datos, field))| < 3 ==> e == Some(Incomplete(field))
  {
    var value := GetOrEmpty(datos, field);
    if value == "" || |Trim(value)| < 3 then Some(Incomplete(field))
    else if !Format(field, value) then Some(Unexpected(field, value))
    else None
  }

  /** The error list of `bestEffortValidationSoap`. */
  function ValidationErrors(datos: Record): seq<string> {
    Errors(Fields, f => Check(datos, f))
  }

  /** `bestEffortValidationSoap(datos, fileName)`. */
  method BestEffortValidationSoap(datos: Record, fileName: string) returns (out: Outcome)
    ensures out == Verdict(DataHeader(fileName), ValidationErrors(datos))
    ensures out.Valid? <==> forall f :: f in Fields ==> Passes(datos, f)
  {
    var errors := CollectErrors(Fields, f => Check(datos, f));
    ErrorsEmptyIffPasses(Fields, f => Check(datos, f), f => Passes(datos, f));
    if |errors| > 0 {
      out := Invalid(Report(DataHeader(fileName), errors));
    } else {
      out := Valid;
    }
  }

  /** A field shorter than three characters once trimmed always makes the
      validator throw, and the message says it is incomplete. */
  lemma ShortFieldRejected(datos: Record, fileName: string, k: nat)
    requires k < |Fields| && |Trim(GetOrEmpty(datos, Fields[k]))| < 3
    ensures var out := Verdict(DataHeader(fileName), ValidationErrors(datos));
      out.Invalid? && Contains(out.message, Incomplete(Fields[k]))
  {
    ErrorsContain(Fields, f => Check(datos, f), k);
    var errs := ValidationErrors(datos);
    var i :| 0 <= i < |errs| && errs[i] == Incomplete(Fields[k]);
  }

  /** A string without dots is a single part when split at dots. */
  lemma SplitWithoutSeparator(s: string)
    requires All(s, IsDigit)
    ensures Split(s, ".") == [s]
  {
    forall j: nat | j < |s| ensures !OccursAt(s, ".", j) {
      if j + 1 <= |s| {
        assert s[j..j + 1][0] == s[j];
      }
    }
  }

  /** The validator accepts a cleaned RUT exactly when group 1 held seven
      or eight digits: the dotted form never survives the cleaning, so a
      dotted RUT of fewer or more digits is rejected. */
  lemma RutAcceptedIff(caps: Captures)
    requires RutCaptured(caps)
    ensures var digits := RemoveWhere(Group(caps, 1).value, IsRutFiller);
      RutFormat(RutValue(Some(caps))) <==> 7 <= |digits| <= 8
  {
    RutShape(caps);
    var r := RutValue(Some(caps));
    var digits := RemoveWhere(Group(caps, 1).value, IsRutFiller);
    assert r[..|r| - 2] == digits;
    SplitWithoutSeparator(digits);
  }

  /** The validator accepts a policy captured as `head \s* - \s* tail`
      exactly when the head is six to nine digits and the tail one
      character. */
  lemma PolizaAcceptedIff(g: string, head: string, ws1: string, ws2: string, tail: string)
    requires PolizaCaptured(g, head, ws1, ws2, tail)
    ensures var p := head + "-" + tail;
      PolizaFormat(p) <==> 6 <= |head| <= 9 && All(head, IsDigit) && |tail| == 1
  {
    var p := head + "-" + tail;
    if |tail| > 1 {
      assert p[|p| - 2] == tail[|tail| - 2];
    } else {
      assert p[..|p| - 2] == head;
    }
  }
}
