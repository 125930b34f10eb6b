/** Format detection, file-name sanitising and the per-document pipeline
    (src/utils/pdf/pdfUtils.ts). The text of the PDF is an input: a
    `Result` holding the extracted text or the parser's error message. */
module PdfUtils {
  import opened Wrappers
  import opened Text
  import opened Records
  import opened Matching
  import opened Validation
  import Homologacion
  import Crt
  import Soap
  import Permiso

  /** The formats a document can be declared or detected as. */
  datatype PdfFormat = CertificadoDeHomologacion | CrtFormat | SoapFormat | PermisoCirculacion

  /** What `detectarFormato` returns: a format, or "DESCONOCIDO". */
  datatype Detection = Detected(format: PdfFormat) | Desconocido

  /** The format's name as it appears in messages. */
  function FormatName(f: PdfFormat): string {
    if f.CertificadoDeHomologacion? then "CERTIFICADO_DE_HOMOLOGACION"
    else if f.CrtFormat? then "CRT"
    else if f.SoapFormat? then "SOAP"
    else "PERMISO_CIRCULACION"
  }

  // ---------------------------------------------------------------------
  // Detection
  // ---------------------------------------------------------------------

  const HomologacionKey: string := "CERTIFICADO DE HOMOLOGACIÓN"
  const CrtKey: string := "CERTIFICADO DE REVISIÓN TÉCNICA"
  const CrtDateKey: string := "FECHA REVISIÓN"
  const SoapKey: string := "SEGURO OBLIGATORIO"
  const SoapShortKey: string := "SOAP"
  const PermisoKey: string := "PERMISO DE CIRCULACIÓN"
  const PlacaKey: string := "PLACA ÚNICA"

  /** Some keyword of the format occurs in the upper-cased text. */
  predicate Mentions(upper: string, f: PdfFormat) {
    if f.CertificadoDeHomologacion? then Contains(upper, HomologacionKey)
    else if f.CrtFormat? then Contains(upper, CrtKey) || Contains(upper, CrtDateKey)
    else if f.SoapFormat? then Contains(upper, SoapKey) || Contains(upper, SoapShortKey)
    else Contains(upper, PermisoKey) || Contains(upper, PlacaKey)
  }

  /** The formats in the order detection tests them. */
  function Rank(f: PdfFormat): nat {
    if f.CertificadoDeHomologacion? then 0
    else if f.CrtFormat? then 1
    else if f.SoapFormat? then 2
    else 3
  }

  /** `detectarFormato(texto)`: the text is upper-cased once, then the
      keywords are tested format by format. */
  function DetectarFormato(texto: string): (d: Detection)
    ensures d.Detected? ==> Mentions(Upper(texto), d.format)
    ensures d.Detected? ==> forall g: PdfFormat :: Rank(g) < Rank(d.format) ==> !Mentions(Upper(texto), g)
    ensures d.Desconocido? <==> forall g: PdfFormat :: !Mentions(Upper(texto), g)
  {
    var upper := Upper(texto);
    if Mentions(upper, CertificadoDeHomologacion) then Detected(CertificadoDeHomologacion)
    else if Mentions(upper, CrtFormat) then Detected(CrtFormat)
    else if Mentions(upper, SoapFormat) then Detected(SoapFormat)
    else if Mentions(upper, PermisoCirculacion) then Detected(PermisoCirculacion)
    else Desconocido
  }

  /** Upper-casing distributes over concatenation. */
  lemma UpperAppend(a: string, b: string)
    ensures Upper(a + b) == Upper(a) + Upper(b)
  {
  }

  /** Detection does not depend on letter case. */
  lemma DetectionIgnoresCase(texto: string)
    ensures DetectarFormato(Upper(texto)) == DetectarFormato(texto)
  {
    UpperIdempotent(texto);
  }

  /** A text that contains the homologation title, in any letter case, is
      a homologation certificate whatever else it contains. */
  lemma {:induction false} HomologationTitleWins(before: string, title: string, after: string)
    requires Upper(title) == HomologacionKey
    ensures DetectarFormato(before + title + after) == Detected(CertificadoDeHomologacion)
  {
    UpperAppend(before + title, after);
    UpperAppend(before, title);
    ContainsInfix(Upper(before), HomologacionKey, Upper(after));
  }

  // ---------------------------------------------------------------------
  // File-name sanitising
  // ---------------------------------------------------------------------

  /** A combining diacritical mark (U+0300 to U+036F). */
  predicate IsCombiningMark(c: char) { '̀' <= c <= 'ͯ' }

  /** The base letter canonical decomposition leaves in front of the mark,
      for the accented letters of Spanish. */
  function BaseLetter(c: char): (b: char)
    ensures !IsCombiningMark(b) || b == c
  {
    if c == 'á' then 'a' else if c == 'é' then 'e' else if c == 'í' then 'i'
    else if c == 'ó' then 'o' else if c == 'ú' || c == 'ü' then 'u' else if c == 'ñ' then 'n'
    else if c == 'Á' then 'A' else if c == 'É' then 'E' else if c == 'Í' then 'I'
    else if c == 'Ó' then 'O' else if c == 'Ú' || c == 'Ü' then 'U' else if c == 'Ñ' then 'N'
    else c
  }

  /** `normalize("NFD").replace(/[̀-ͯ]/g, "")`. */
  function StripAccents(s: string): (r: string)
    ensures |r| <= |s|
    ensures NoneOf(r, IsCombiningMark)
  {
    RemoveWhere(seq(|s|, i requires 0 <= i < |s| => BaseLetter(s[i])), IsCombiningMark)
  }

  /** Text without combining marks keeps its length: every character
      stays in place, an accented letter replaced by its base letter. */
  lemma StripAccentsUnmarked(s: string)
    requires NoneOf(s, IsCombiningMark)
    ensures |StripAccents(s)| == |s|
    ensures forall i :: 0 <= i < |s| ==> StripAccents(s)[i] == BaseLetter(s[i])
  {
    var mapped := seq(|s|, i requires 0 <= i < |s| => BaseLetter(s[i]));
    assert NoneOf(mapped, IsCombiningMark);
    RemoveWhereNothing(mapped, IsCombiningMark);
  }

  /** Text with no accented letter and no combining mark is unchanged. */
  lemma StripAccentsPlain(s: string)
    requires forall i :: 0 <= i < |s| ==> BaseLetter(s[i]) == s[i] && !IsCombiningMark(s[i])
    ensures StripAccents(s) == s
  {
    StripAccentsUnmarked(s);
  }

  /** `[\p{L}\p{N}\s\-_().]`: the characters a sanitised name keeps. */
  predicate IsNameChar(c: char) {
    IsAlnum(c) || IsWhitespace(c) || c == '-' || c == '_' || c == '(' || c == ')' || c == '.'
  }

  /** `replace(/[^\p{L}\p{N}\s\-_().]/gu, "_")`. */
  function ReplaceOthers(s: string): (r: string)
    ensures |r| == |s|
    ensures All(r, IsNameChar)
    ensures forall i :: 0 <= i < |s| ==> r[i] == s[i] || (r[i] == '_' && !IsNameChar(s[i]))
  {
    seq(|s|, i requires 0 <= i < |s| => if IsNameChar(s[i]) then s[i] else '_')
  }

  /** `replace(/\s+A$/, "")` on a trimmed string: a final `A` preceded by
      whitespace goes, with the whole whitespace run before it. */
  function DropTrailingA(s: string): (r: string)
    requires IsTrimmed(s)
    ensures IsTrimmed(r)
    ensures |r| <= |s| && r == s[..|r|]
    ensures r != s <==> |s| >= 2 && s[|s| - 1] == 'A' && IsWhitespace(s[|s| - 2])
    ensures r != s ==> r == TrimEnd(s[..|s| - 1])
  {
    if |s| >= 2 && s[|s| - 1] == 'A' && IsWhitespace(s[|s| - 2]) then
      var r := TrimEnd(s[..|s| - 1]);
      assert s[0] == s[..|s| - 1][0];
      assert r != [] && r[0] == s[0];
      r
    else s
  }

  /** `sanitizarNombre(str)`. */
  function SanitizarNombre(str: string): (r: string)
    ensures All(r, IsNameChar)
    ensures IsTrimmed(r)
    ensures NoneOf(r, IsCombiningMark)
  {
    var cleaned := ReplaceOthers(StripAccents(str));
    ReplaceOthersAddsNoMark(StripAccents(str));
    var trimmed := Trim(cleaned);
    TrimKeeps(cleaned, IsNameChar, IsCombiningMark);
    var r := DropTrailingA(trimmed);
    PrefixKeeps(trimmed, |r|, IsNameChar, IsCombiningMark);
    r
  }

  /** Replacing characters by `_` introduces no combining mark. */
  lemma ReplaceOthersAddsNoMark(s: string)
    requires NoneOf(s, IsCombiningMark)
    ensures NoneOf(ReplaceOthers(s), IsCombiningMark)
  {
    var r := ReplaceOthers(s);
    forall i | 0 <= i < |r| ensures !IsCombiningMark(r[i]) {
      assert r[i] == s[i] || r[i] == '_';
    }
  }

  /** Trimming keeps only characters of the string it trims. */
  lemma TrimKeeps(s: string, p: char -> bool, q: char -> bool)
    requires All(s, p) && NoneOf(s, q)
    ensures All(Trim(s), p) && NoneOf(Trim(s), q)
  {
    var e := TrimEnd(s);
    PrefixKeeps(s, |e|, p, q);
    var t := TrimStart(e);
    SuffixKeeps(e, |e| - |t|, p, q);
  }

  /** A suffix keeps only characters of the whole. */
  lemma SuffixKeeps(s: string, n: nat, p: char -> bool, q: char -> bool)
    requires n <= |s| && All(s, p) && NoneOf(s, q)
    ensures All(s[n..], p) && NoneOf(s[n..], q)
  {
    SliceKeeps(s, n, |s|, p, q);
    assert s[n..|s|] == s[n..];
  }

  /** A prefix keeps only characters of the whole. */
  lemma PrefixKeeps(s: string, n: nat, p: char -> bool, q: char -> bool)
    requires n <= |s| && All(s, p) && NoneOf(s, q)
    ensures All(s[..n], p) && NoneOf(s[..n], q)
  {
    SliceKeeps(s, 0, n, p, q);
    assert s[0..n] == s[..n];
  }

  /** A slice keeps only characters of the whole. */
  lemma SliceKeeps(s: string, lo: nat, hi: nat, p: char -> bool, q: char -> bool)
    requires lo <= hi <= |s| && All(s, p) && NoneOf(s, q)
    ensures All(s[lo..hi], p) && NoneOf(s[lo..hi], q)
  {
    forall i | 0 <= i < hi - lo ensures p(s[lo..hi][i]) && !q(s[lo..hi][i]) {
      assert s[lo..hi][i] == s[lo + i];
    }
  }

  // ---------------------------------------------------------------------
  // The pipeline
  // ---------------------------------------------------------------------

  /** What `procesarPDF` returns: the record, the homologation title and
      the permit's pattern table (`null` is `None`). */
  datatype Processed = Processed(
    datos: Record,
    titulo: Option<string>,
    regexes: Option<seq<(string, Pattern)>>)

  /** The name of a detection in the mismatch message. */
  function DetectedName(d: Detection): string {
    if d.Desconocido? then "Formato Desconocido" else FormatName(d.format)
  }

  /** The error thrown when the detected format is not the expected one. */
  function MismatchMessage(fileName: string, expected: PdfFormat, d: Detection): string {
    "El archivo " + fileName + " no corresponde al formato esperado (" + FormatName(expected)
      + "). Se detectó que pertenece a: " + DetectedName(d) + "."
  }

  /** The error thrown when no format is expected and none is detected. */
  function UnidentifiedMessage(fileName: string): string {
    "El archivo " + fileName + " no pudo ser identificado como un formato válido."
  }

  /** `allText.match(/CERTIFICADO DE HOMOLOGACIÓN\s+(.*?)\s+REEMPLAZA/i)?.[1]?.trim()`:
      unlike `buscar`, an empty group gives the empty title. */
  function Titulo(m: Oracle, text: string): (t: Option<string>)
    ensures t.Some? <==> m(HomTitulo, text).Some? && Group(m(HomTitulo, text).value, 1).Some?
    ensures t.Some? ==> IsTrimmed(t.value)
  {
    var found := m(HomTitulo, text);
    if found.None? then None
    else
      var g := Group(found.value, 1);
      if g.None? then None else Some(Trim(g.value))
  }

  /** The record the extractor of a format produces, or the error it throws. */
  function Extracted(m: Oracle, text: string, f: PdfFormat): Result<Record, string> {
    if f.CertificadoDeHomologacion? then Success(Homologacion.ExtraerDatosHomologacion(m, text))
    else if f.CrtFormat? then Crt.Extraction(m, text)
    else if f.SoapFormat? then Success(Soap.ExtraerDatosSoap(m, text))
    else Success(Permiso.Extraction(m, text))
  }

  /** What the validator of a format decides about a record. */
  function Validated(f: PdfFormat, datos: Record, fileName: string): Outcome {
    if f.CertificadoDeHomologacion? then
      Verdict(DataHeader(fileName), Homologacion.ValidationErrors(datos))
    else if f.CrtFormat? then Verdict(DataHeader(fileName), Crt.ValidationErrors(datos))
    else if f.SoapFormat? then Verdict(DataHeader(fileName), Soap.ValidationErrors(datos))
    else Verdict(Permiso.Header(fileName), Permiso.ValidationErrors(datos))
  }

  /** The outcome of `procesarPDF(file, pdfFormat, returnRegex)`. */
  function Process(m: Oracle, parsed: Result<string, string>, fileName: string,
                   expected: Option<PdfFormat>, returnRegex: bool): Result<Processed, string>
  {
    if parsed.Failure? then Failure(parsed.error)
    else
      var text := parsed.value;
      var d := DetectarFormato(text);
      if expected.Some? && d != Detected(expected.value) then
        Failure(MismatchMessage(fileName, expected.value, d))
      else if d.Desconocido? then Failure(UnidentifiedMessage(fileName))
      else ProcessFormat(m, text, d.format, fileName, returnRegex)
  }

  /** The outcome once the text is known to be of format `f`: extract,
      validate, and attach the title or the pattern table. */
  function ProcessFormat(m: Oracle, text: string, f: PdfFormat, fileName: string,
                         returnRegex: bool): Result<Processed, string>
  {
    var extracted := Extracted(m, text, f);
    if extracted.Failure? then Failure(extracted.error)
    else
      var verdict := Validated(f, extracted.value, fileName);
      if verdict.Invalid? then Failure(verdict.message)
      else
        var titulo := if f.CertificadoDeHomologacion? then Titulo(m, text) else None;
        var regexes := if f.PermisoCirculacion? && returnRegex then Some(Permiso.Regexes) else None;
        Success(Processed(extracted.value, titulo, regexes))
  }

  /** `procesarPDF`: reject a document of the wrong format, then run the
      detected format's extractor and validator; the title and the pattern
      table are set only in their own branch. */
  method ProcesarPDF(m: Oracle, parsed: Result<string, string>, fileName: string,
                     pdfFormat: Option<PdfFormat>, returnRegex: bool)
    returns (r: Result<Processed, string>)
    ensures r == Process(m, parsed, fileName, pdfFormat, returnRegex)
  {
    if parsed.Failure? {
      return Failure(parsed.error);
    }
    var allText := parsed.value;
    var formatoDetectado := DetectarFormato(allText);
    if pdfFormat.Some? && formatoDetectado != Detected(pdfFormat.value) {
      return Failure(MismatchMessage(fileName, pdfFormat.value, formatoDetectado));
    }
    if formatoDetectado.Desconocido? {
      return Failure(UnidentifiedMessage(fileName));
    }
    r := ProcesarFormato(m, allText, formatoDetectado.format, fileName, returnRegex);
  }

  /** The branch of `procesarPDF` for the detected format: its extractor,
      its validator, and the title or pattern table where they apply. */
  method ProcesarFormato(m: Oracle, allText: string, f: PdfFormat, fileName: string, returnRegex: bool)
    returns (r: Result<Processed, string>)
    ensures r == ProcessFormat(m, allText, f, fileName, returnRegex)
  {
    if f == CertificadoDeHomologacion {
      r := ProcesarHomologacion(m, allText, fileName, returnRegex);
    } else if f == CrtFormat {
      r := ProcesarCrt(m, allText, fileName, returnRegex);
    } else if f == SoapFormat {
      r := ProcesarSoap(m, allText, fileName, returnRegex);
    } else {
      r := ProcesarPermiso(m, allText, fileName, returnRegex);
    }
  }

  /** The homologation branch: the title is read only once the record is valid. */
  method ProcesarHomologacion(m: Oracle, allText: string, fileName: string, returnRegex: bool)
    returns (r: Result<Processed, string>)
    ensures r == ProcessFormat(m, allText, CertificadoDeHomologacion, fileName, returnRegex)
  {
    var datos := Homologacion.ExtraerDatosHomologacion(m, allText);
    var verdict := Homologacion.BestEffortValidationHomologacion(datos, fileName);
    if verdict.Invalid? {
      return Failure(verdict.message);
    }
    var titulo := Titulo(m, allText);
    r := Success(Processed(datos, titulo, None));
  }

  /** The CRT branch: the extractor's error stops the pipeline. */
  method ProcesarCrt(m: Oracle, allText: string, fileName: string, returnRegex: bool)
    returns (r: Result<Processed, string>)
    ensures r == ProcessFormat(m, allText, CrtFormat, fileName, returnRegex)
  {
    var extracted := Crt.ExtraerDatosCRT(m, allText);
    if extracted.Failure? {
      return Failure(extracted.error);
    }
    var datos := extracted.value;
    var verdict := Crt.BestEffortValidationCRT(datos, fileName);
    if verdict.Invalid? {
      return Failure(verdict.message);
    }
    r := Success(Processed(datos, None, None));
  }

  /** The SOAP branch. */
  method ProcesarSoap(m: Oracle, allText: string, fileName: string, returnRegex: bool)
    returns (r: Result<Processed, string>)
    ensures r == ProcessFormat(m, allText, SoapFormat, fileName, returnRegex)
  {
    var datos := Soap.ExtraerDatosSoap(m, allText);
    r := ValidarSoap(datos, fileName);
    ValidatedSoap(datos, fileName);
    FormatOutcome(m, allText, SoapFormat, fileName, returnRegex, datos,
                  Verdict(DataHeader(fileName), Soap.ValidationErrors(datos)));
  }

  lemma ValidatedSoap(datos: Record, fileName: string)
    ensures Validated(SoapFormat, datos, fileName)
         == Verdict(DataHeader(fileName), Soap.ValidationErrors(datos))
  {
  }

  /** The validation step of the SOAP branch. */
  method ValidarSoap(datos: Record, fileName: string) returns (r: Result<Processed, string>)
    ensures var verdict := Verdict(DataHeader(fileName), Soap.ValidationErrors(datos));
      r == if verdict.Invalid? then Failure(verdict.message) else Success(Processed(datos, None, None))
  {
    var verdict := Soap.BestEffortValidationSoap(datos, fileName);
    if verdict.Invalid? {
      return Failure(verdict.message);
    }
    r := Success(Processed(datos, None, None));
  }

  /** The outcome of a format's branch, from its extractor's record and
      its validator's verdict. */
  lemma FormatOutcome(m: Oracle, text: string, f: PdfFormat, fileName: string, returnRegex: bool,
                      datos: Record, verdict: Outcome)
    requires Extracted(m, text, f) == Success(datos)
    requires Validated(f, datos, fileName) == verdict
    ensures ProcessFormat(m, text, f, fileName, returnRegex)
         == if verdict.Invalid? then Failure(verdict.message)
            else Success(Processed(datos, if f.CertificadoDeHomologacion? then Titulo(m, text) else None,
                                   if f.PermisoCirculacion? && returnRegex then Some(Permiso.Regexes) else None))
  {
  }

  /** The circulation-permit branch: the pattern table is returned when asked for. */
  method ProcesarPermiso(m: Oracle, allText: string, fileName: string, returnRegex: bool)
    returns (r: Result<Processed, string>)
    ensures r == ProcessFormat(m, allText, PermisoCirculacion, fileName, returnRegex)
  {
    var datos, table := ExtraerPermiso(m, allText);
    var regexes := if returnRegex then Some(table) else None;
    r := ValidarPermiso(datos, fileName, regexes);
    ValidatedPermiso(datos, fileName);
    FormatOutcome(m, allText, PermisoCirculacion, fileName, returnRegex, datos,
                  Verdict(Permiso.Header(fileName), Permiso.ValidationErrors(datos)));
  }

  /** The extraction step of the circulation-permit branch. */
  method ExtraerPermiso(m: Oracle, allText: string) returns (datos: Record, table: seq<(string, Pattern)>)
    ensures Extracted(m, allText, PermisoCirculacion) == Success(datos)
    ensures table == Permiso.Regexes
  {
    datos, table := Permiso.ExtraerDatosPermisoCirculacion(m, allText);
  }

  lemma ValidatedPermiso(datos: Record, fileName: string)
    ensures Validated(PermisoCirculacion, datos, fileName)
         == Verdict(Permiso.Header(fileName), Permiso.ValidationErrors(datos))
  {
  }

  /** The validation step of the circulation-permit branch. */
  method ValidarPermiso(datos: Record, fileName: string, regexes: Option<seq<(string, Pattern)>>)
    returns (r: Result<Processed, string>)
    ensures var verdict := Verdict(Permiso.Header(fileName), Permiso.ValidationErrors(datos));
      r == if verdict.Invalid? then Failure(verdict.message) else Success(Processed(datos, None, regexes))
  {
    var verdict := Permiso.BestEffortValidationPermisoCirculacion(datos, fileName);
    if verdict.Invalid? {
      return Failure(verdict.message);
    }
    r := Success(Processed(datos, None, regexes));
  }

  /** A declared format the detection disagrees with is rejected, and the
      message names both; an unknown detection reads "Formato Desconocido". */
  lemma MismatchRejected(m: Oracle, text: string, fileName: string, expected: PdfFormat, returnRegex: bool)
    requires DetectarFormato(text) != Detected(expected)
    ensures var r := Process(m, Success(text), fileName, Some(expected), returnRegex);
      && r.Failure?
      && Contains(r.error, FormatName(expected))
      && Contains(r.error, DetectedName(DetectarFormato(text)))
  {
    var d := DetectarFormato(text);
    MismatchProcess(m, text, fileName, expected, returnRegex);
    MismatchNames(fileName, expected, d);
  }

  /** A declared format the detection disagrees with stops the pipeline
      with the mismatch message. */
  lemma MismatchProcess(m: Oracle, text: string, fileName: string, expected: PdfFormat, returnRegex: bool)
    requires DetectarFormato(text) != Detected(expected)
    ensures Process(m, Success(text), fileName, Some(expected), returnRegex)
         == Failure(MismatchMessage(fileName, expected, DetectarFormato(text)))
  {
  }

  /** The mismatch message names the declared and the detected format. */
  lemma MismatchNames(fileName: string, expected: PdfFormat, d: Detection)
    ensures Contains(MismatchMessage(fileName, expected, d), FormatName(expected))
    ensures Contains(MismatchMessage(fileName, expected, d), DetectedName(d))
  {
    var head := "El archivo " + fileName + " no corresponde al formato esperado (";
    var middle := "). Se detectó que pertenece a: ";
    assert MismatchMessage(fileName, expected, d)
      == head + FormatName(expected) + (middle + DetectedName(d) + ".");
    ContainsInfix(head, FormatName(expected), middle + DetectedName(d) + ".");
    assert MismatchMessage(fileName, expected, d)
      == (head + FormatName(expected) + middle) + DetectedName(d) + ".";
    ContainsInfix(head + FormatName(expected) + middle, DetectedName(d), ".");
  }

  /** With no declared format, a text no keyword identifies is rejected as
      unidentified, before any extractor runs. */
  lemma UnknownRejected(m: Oracle, text: string, fileName: string, returnRegex: bool)
    requires forall f: PdfFormat :: !Mentions(Upper(text), f)
    ensures Process(m, Success(text), fileName, None, returnRegex) == Failure(UnidentifiedMessage(fileName))
  {
  }

  /** A processed document is one of the detected format, came out of that
      format's extractor and passed that format's validator; a validator
      error is what the pipeline throws. */
  lemma ProcessedIsValidated(m: Oracle, text: string, fileName: string,
                             expected: Option<PdfFormat>, returnRegex: bool)
    ensures var r := Process(m, Success(text), fileName, expected, returnRegex);
      var d := DetectarFormato(text);
      r.Success? ==>
        && d.Detected?
        && (expected.Some? ==> expected.value == d.format)
        && Extracted(m, text, d.format) == Success(r.value.datos)
        && Validated(d.format, r.value.datos, fileName).Valid?
    ensures var r := Process(m, Success(text), fileName, expected, returnRegex);
      var d := DetectarFormato(text);
      (d.Detected? && (expected.None? || expected.value == d.format)
        && Extracted(m, text, d.format).Success?
        && Validated(d.format, Extracted(m, text, d.format).value, fileName).Invalid?) ==>
      r == Failure(Validated(d.format, Extracted(m, text, d.format).value, fileName).message)
  {
  }

  /** `titulo` is set only for a homologation certificate, and `regexes`
      only for a circulation permit processed with `returnRegex`, where it
      is the permit's pattern table. */
  lemma TitleAndPatternsOnlyInTheirBranch(m: Oracle, text: string, fileName: string,
                                          expected: Option<PdfFormat>, returnRegex: bool)
    requires Process(m, Success(text), fileName, expected, returnRegex).Success?
    ensures var p := Process(m, Success(text), fileName, expected, returnRegex).value;
      var f := DetectarFormato(text).format;
      && (p.titulo.Some? ==> f == CertificadoDeHomologacion)
      && (p.regexes.Some? <==> f == PermisoCirculacion && returnRegex)
      && (p.regexes.Some? ==> p.regexes.value == Permiso.Regexes)
  {
  }
}
