/** Field matching (src/utils/pdf/pdfUtils.ts, `buscar`). The regular
    expressions of the four extractors are not re-implemented: each one is
    a constructor of `Pattern`, and matching is an `Oracle` that returns
    the capture groups of the first match (index 0 is the whole match, a
    group that did not participate is `None`) or `None` when the pattern
    does not match. Every extractor receives the oracle as a parameter. */
module Matching {
  import opened Wrappers
  import opened Text

  /** The capture patterns of the source, one per regular-expression literal. */
  datatype Pattern =
    // Homologation certificate: one pattern per field, plus the title.
    | HomFechaEmision | HomCorrelativo | HomCodigoInforme | HomPatente
    | HomValidoHasta | HomTipoVehiculo | HomMarca | HomAnio | HomModelo
    | HomColor | HomVin | HomMotor | HomFirmado | HomTitulo
    // Technical inspection (CRT): fixed fields, the two certificate
    // sections, the "valid until" date inside a section and the folio.
    | CrtFechaRevision | CrtPlanta | CrtPlacaPatente
    | CrtRevisionSection | CrtContaminantesSection | CrtValidoHasta | CrtFolio
    // Compulsory insurance (SOAP).
    | SoapInscripcion | SoapBajoCodigo | SoapRut | SoapRigeDesde | SoapHasta
    | SoapPoliza | SoapPrima
    // Circulation permit.
    | PcPlacaUnica | PcCodigoSii | PcValorPermiso | PcPagoTotal | PcPagoCuota1
    | PcPagoCuota2 | PcTotalAPagar | PcFechaEmision | PcFechaVencimiento
    | PcFormaPago

  /** The result array of `String.prototype.match` for a non-global pattern. */
  type Captures = seq<Option<string>>

  /** The regular-expression engine: `text.match(pattern)`. */
  type Oracle = (Pattern, string) -> Option<Captures>

  /** `match[i]`: `None` both for a group that did not participate and for
      an index past the last group. */
  function Group(caps: Captures, i: nat): Option<string> {
    if i < |caps| then caps[i] else None
  }

  /** A successful match of a pattern with `n` groups: the whole match
      is present and there is one entry per group. */
  predicate Shaped(caps: Captures, n: nat) {
    |caps| == n + 1 && caps[0].Some?
  }

  /** `buscar(text, pattern)`: the first capture group of the first match,
      trimmed; `null` when there is no match or the group is undefined or
      empty. A group made only of whitespace gives the empty string. */
  function Buscar(m: Oracle, p: Pattern, text: string): (r: Option<string>)
    ensures r.None? <==>
      || m(p, text).None?
      || Group(m(p, text).value, 1).None?
      || Group(m(p, text).value, 1).value == ""
    ensures r.Some? ==> IsTrimmed(r.value) && |r.value| <= |Group(m(p, text).value, 1).value|
  {
    var found := m(p, text);
    if found.None? then None
    else
      var g := Group(found.value, 1);
      if g.Some? && g.value != "" then Some(Trim(g.value)) else None
  }

  /** What `buscar` returns is the group with leading and trailing
      whitespace removed, and a group that needs no trimming is returned
      as it is. */
  lemma BuscarTrimsGroup(m: Oracle, p: Pattern, text: string)
    requires Buscar(m, p, text).Some?
    ensures var g := Group(m(p, text).value, 1).value;
      && (exists k: nat :: TrimmedAt(g, Buscar(m, p, text).value, k))
      && (IsTrimmed(g) ==> Buscar(m, p, text).value == g)
  {
    var g := Group(m(p, text).value, 1).value;
    TrimRemovesOnlyWhitespace(g);
    if IsTrimmed(g) {
      TrimOfTrimmed(g);
    }
  }

  /** `buscar(text, pattern) || ""`. */
  function Field(m: Oracle, p: Pattern, text: string): (r: string)
    ensures m(p, text).None? ==> r == ""
    ensures IsTrimmed(r)
  {
    Buscar(m, p, text).GetOr("")
  }
}
