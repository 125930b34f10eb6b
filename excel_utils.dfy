/** The spreadsheet export (src/utils/excel/excelUtils.ts): per-format
    reshaping of the records, key ordering, the uniform check-digit
    column, the header row, the cell layout of the data and statistics
    sheets, and the encoded file name. The workbook itself (styles, the
    binary output) is not part of this model. */
module ExcelUtils {
  import opened Wrappers
  import opened Text
  import opened Records
  import opened Sheets
  import ColumnUtils
  import RowUtils
  import PdfUtils
  import Uri

  const NombrePdf: string := "Nombre PDF"
  const Patente: string := "Patente"
  const PlacaUnica: string := "Placa Única"
  const Inscripcion: string := "INSCRIPCION R.V.M"
  const DigitoVerificador: string := "digito verificador"

  // ---------------------------------------------------------------------
  // Tag stripping
  // ---------------------------------------------------------------------

  /** The position of the first `c` in `s`. */
  function FirstIndex(s: string, c: char): (i: nat)
    requires c in s
    ensures i < |s| && s[i] == c && c !in s[..i]
  {
    if s[0] == c then 0
    else
      var i := FirstIndex(s[1..], c);
      assert s[1..][..i] == s[1..i + 1];
      i + 1
  }

  /** `htmlString.replace(/<[^>]*>/g, "")`: every `<` that has a `>` after
      it goes, with everything up to the first such `>`; a `<` with no `>`
      after it stays. */
  function StripHtmlTags(s: string): (r: string)
    ensures |r| <= |s|
    decreases |s|
  {
    if s == [] then []
    else if s[0] == '<' && '>' in s[1..] then
      StripHtmlTags(s[1..][FirstIndex(s[1..], '>') + 1..])
    else [s[0]] + StripHtmlTags(s[1..])
  }

  /** `a` is `b` with some characters left out. */
  predicate Subsequence(a: string, b: string)
    decreases |b|
  {
    if a == [] then true
    else if b == [] then false
    else (a[0] == b[0] && Subsequence(a[1..], b[1..])) || Subsequence(a, b[1..])
  }

  lemma {:induction false} SubsequenceOfSuffix(a: string, b: string, k: nat)
    requires k <= |b| && Subsequence(a, b[k..])
    ensures Subsequence(a, b)
    decreases k
  {
    if k > 0 {
      assert b[1..][k - 1..] == b[k..];
      SubsequenceOfSuffix(a, b[1..], k - 1);
      if a != [] {
        assert Subsequence(a, b[1..]);
      }
    }
  }

  /** The text without tags is what remains of the text once characters
      are left out. */
  lemma {:induction false} StripIsSubsequence(s: string)
    ensures Subsequence(StripHtmlTags(s), s)
    decreases |s|
  {
    if s == [] {
    } else if s[0] == '<' && '>' in s[1..] {
      var k := FirstIndex(s[1..], '>') + 1;
      StripIsSubsequence(s[1..][k..]);
      assert s[1..][k..] == s[k + 1..];
      SubsequenceOfSuffix(StripHtmlTags(s), s, k + 1);
    } else {
      StripIsSubsequence(s[1..]);
      var r := StripHtmlTags(s);
      assert r[0] == s[0] && r[1..] == StripHtmlTags(s[1..]);
    }
  }

  /** Stripping keeps no character the text does not have. */
  lemma {:induction false} StripKeepsCharacters(s: string, c: char)
    requires c in StripHtmlTags(s)
    ensures c in s
    decreases |s|
  {
    if s[0] == '<' && '>' in s[1..] {
      var k := FirstIndex(s[1..], '>') + 1;
      StripKeepsCharacters(s[1..][k..], c);
    } else if c != s[0] {
      StripKeepsCharacters(s[1..], c);
    }
  }

  /** No `<` is followed, anywhere later, by a `>`. */
  predicate NoTag(s: string) {
    forall i, j :: 0 <= i < j < |s| && s[i] == '<' ==> s[j] != '>'
  }

  /** What stripping leaves holds no tag. */
  lemma {:induction false} StripLeavesNoTag(s: string)
    ensures NoTag(StripHtmlTags(s))
    decreases |s|
  {
    if s == [] {
    } else if s[0] == '<' && '>' in s[1..] {
      var k := FirstIndex(s[1..], '>') + 1;
      StripLeavesNoTag(s[1..][k..]);
    } else {
      StripLeavesNoTag(s[1..]);
      var rest := StripHtmlTags(s[1..]);
      if s[0] == '<' {
        forall j | 0 <= j < |rest| ensures rest[j] != '>' {
          if rest[j] == '>' {
            StripKeepsCharacters(s[1..], '>');
          }
        }
      }
    }
  }

  /** A text without tags is left as it is. */
  lemma {:induction false} StripWithoutTags(s: string)
    requires NoTag(s)
    ensures StripHtmlTags(s) == s
    decreases |s|
  {
    if s != [] {
      if s[0] == '<' {
        assert '>' !in s[1..] by {
          forall j | 0 <= j < |s[1..]| ensures s[1..][j] != '>' {
            assert s[1..][j] == s[j + 1];
          }
        }
      }
      assert NoTag(s[1..]) by {
        forall i, j | 0 <= i < j < |s[1..]| && s[1..][i] == '<' ensures s[1..][j] != '>' {
          assert s[1..][i] == s[i + 1] && s[1..][j] == s[j + 1];
        }
      }
      StripWithoutTags(s[1..]);
    }
  }

  /** Stripping twice is stripping once. */
  lemma StripIdempotent(s: string)
    ensures StripHtmlTags(StripHtmlTags(s)) == StripHtmlTags(s)
  {
    StripLeavesNoTag(s);
    StripWithoutTags(StripHtmlTags(s));
  }

  /** Text before the first `<` passes through. */
  lemma {:induction false} StripPlainPrefix(a: string, b: string)
    requires '<' !in a
    ensures StripHtmlTags(a + b) == a + StripHtmlTags(b)
    decreases |a|
  {
    if a == [] {
      assert a + b == b;
    } else {
      assert (a + b)[0] == a[0] && (a + b)[1..] == a[1..] + b;
      StripPlainPrefix(a[1..], b);
    }
  }

  /** A complete tag is removed. */
  lemma StripTag(inner: string, b: string)
    requires '>' !in inner
    ensures StripHtmlTags("<" + inner + ">" + b) == StripHtmlTags(b)
  {
    var s := "<" + inner + ">" + b;
    assert s[1..] == inner + ">" + b;
    assert s[1..][|inner|] == '>';
    var k := FirstIndex(s[1..], '>');
    assert s[1..][..|inner|] == inner;
    assert k == |inner|;
    assert s[1..][k + 1..] == b;
  }

  // ---------------------------------------------------------------------
  // Plates and check digits
  // ---------------------------------------------------------------------

  /** What `normalizePlateWithCheck` returns; an absent check digit is
      `None`. */
  datatype PlateCheck = PlateCheck(plate: string, checkDigit: Option<string>)

  /** `normalizePlateWithCheck(value)`: hyphens and whitespace removed,
      the first six characters are the plate and the rest, when there is a
      rest, the check digit. */
  function NormalizePlateWithCheck(value: string): (n: PlateCheck)
    ensures var cleaned := RemoveWhere(value, IsPlateSeparator);
      && n.plate + n.checkDigit.GetOr("") == cleaned
      && |n.plate| <= 6
      && (n.checkDigit.Some? <==> |cleaned| > 6)
      && (n.checkDigit.Some? ==> n.checkDigit.value != "")
  {
    var cleaned := RemoveWhere(value, IsPlateSeparator);
    if |cleaned| > 6 then PlateCheck(cleaned[..6], Some(cleaned[6..])) else PlateCheck(cleaned, None)
  }

  /** A six-character plate followed by a hyphen and a check digit, as in
      "LXWJ75-4", splits into the two. */
  lemma PlateAndDigit(plate: string, digit: string)
    requires |plate| == 6 && digit != ""
    requires NoneOf(plate, IsPlateSeparator) && NoneOf(digit, IsPlateSeparator)
    ensures NormalizePlateWithCheck(plate + "-" + digit) == PlateCheck(plate, Some(digit))
  {
    HyphenRemoved(plate, digit);
    assert (plate + digit)[..6] == plate && (plate + digit)[6..] == digit;
  }

  /** Cleaning two separator-free parts joined by a hyphen joins them. */
  lemma HyphenRemoved(head: string, tail: string)
    requires NoneOf(head, IsPlateSeparator) && NoneOf(tail, IsPlateSeparator)
    ensures RemoveWhere(head + "-" + tail, IsPlateSeparator) == head + tail
  {
    RemoveWhereAppend(head, "-" + tail, IsPlateSeparator);
    RemoveWhereAppend("-", tail, IsPlateSeparator);
    RemoveWhereNothing(head, IsPlateSeparator);
    RemoveWhereNothing(tail, IsPlateSeparator);
    assert head + "-" + tail == head + ("-" + tail);
    assert RemoveWhere("-", IsPlateSeparator) == "";
  }

  /** A plate of at most six characters with hyphens inside, as in
      "THJL-11", loses the hyphens and gets no check digit. */
  lemma PlateWithoutDigit(head: string, tail: string)
    requires |head| + |tail| <= 6
    requires NoneOf(head, IsPlateSeparator) && NoneOf(tail, IsPlateSeparator)
    ensures NormalizePlateWithCheck(head + "-" + tail) == PlateCheck(head + tail, None)
  {
    HyphenRemoved(head, tail);
  }

  // ---------------------------------------------------------------------
  // Per-format reshaping of one record
  // ---------------------------------------------------------------------

  /** `registro[key] && typeof registro[key] === "string"`: present and
      not empty. */
  predicate Filled(r: Record, key: string) {
    Get(r, key).Some? && Get(r, key).value != ""
  }

  /** Homologation: hyphens removed from "Patente", the check digit key
      deleted. */
  function HomologacionStep(r: Record): Record {
    var withPlate := if Filled(r, Patente) then Put(r, Patente, Trim(RemoveWhere(Get(r, Patente).value, IsHyphen))) else r;
    Delete(withPlate, DigitoVerificador)
  }

  /** Permit and SOAP: the plate of `key` split from its check digit; the
      check digit key is set, or deleted when there is none. */
  function PlateStep(r: Record, key: string): Record {
    if !Filled(r, key) then r
    else
      var n := NormalizePlateWithCheck(Get(r, key).value);
      var withPlate := Put(r, key, n.plate);
      if n.checkDigit.Some? then Put(withPlate, DigitoVerificador, n.checkDigit.value)
      else Delete(withPlate, DigitoVerificador)
  }

  /** The hyphen `/^(.+)-(.+)$/` splits at: the last one with a character
      on each side, in a text with no line terminator. */
  function SplitHyphen(v: string): (h: Option<nat>)
    ensures h.Some? ==> 1 <= h.value && h.value + 2 <= |v| && v[h.value] == '-' && OneLine(v)
    ensures h.Some? ==> forall j :: h.value < j < |v| - 1 ==> v[j] != '-'
    ensures h.None? ==> !OneLine(v) || forall j :: 1 <= j < |v| - 1 ==> v[j] != '-'
  {
    if !OneLine(v) || |v| < 3 then None else LastHyphen(v, |v| - 2)
  }

  function LastHyphen(v: string, k: nat): (h: Option<nat>)
    requires k < |v|
    ensures h.Some? ==> 1 <= h.value <= k && v[h.value] == '-'
    ensures forall j :: (if h.Some? then h.value else 0) < j <= k ==> v[j] != '-'
  {
    if k == 0 then None
    else if v[k] == '-' then Some(k)
    else LastHyphen(v, k - 1)
  }

  /** SOAP's split of "Patente" or "Placa Única" at its hyphen: the part
      before becomes the value, the part after the check digit. */
  function HyphenStep(r: Record, key: string): Record {
    if !Filled(r, key) then r
    else
      var v := Get(r, key).value;
      var h := SplitHyphen(v);
      if h.None? then r
      else Put(Put(r, key, Trim(v[..h.value])), DigitoVerificador, Trim(v[h.value + 1..]))
  }

  /** Other formats: a value holding a hyphen loses its hyphens; the first
      six characters stay and the rest, possibly empty, becomes the check
      digit. */
  function SimpleStep(r: Record, key: string): Record {
    if !Filled(r, key) || !Contains(Get(r, key).value, "-") then r
    else
      var parts := Split(Get(r, key).value, "-");
      if |parts| <= 1 then r
      else
        var combined := Trim(Join(parts, ""));
        var plate := if |combined| > 6 then combined[..6] else combined;
        var digit := if |combined| > 6 then combined[6..] else "";
        Put(Put(r, key, plate), DigitoVerificador, digit)
  }

  /** The reshaping `generateExcel` applies to one record of a format. */
  function Transform(format: Option<PdfUtils.PdfFormat>, r: Record): Record {
    if format == Some(PdfUtils.CertificadoDeHomologacion) then HomologacionStep(r)
    else if format == Some(PdfUtils.PermisoCirculacion) then PlateStep(r, PlacaUnica)
    else if format == Some(PdfUtils.SoapFormat) then
      HyphenStep(HyphenStep(PlateStep(r, Inscripcion), Patente), PlacaUnica)
    else SimpleStep(SimpleStep(SimpleStep(r, Patente), PlacaUnica), Inscripcion)
  }

  /** The `registros.forEach(...)` pass: every record is reshaped in place. */
  method TransformRegistros(format: Option<PdfUtils.PdfFormat>, registros: array<Record>)
    modifies registros
    ensures forall i :: 0 <= i < registros.Length ==> registros[i] == Transform(format, old(registros[i]))
  {
    MapInPlace(registros, r => Transform(format, r));
  }

  /** `a.forEach((x, i) => a[i] = f(x))`: every element is replaced by its
      image, in place. */
  method MapInPlace<T>(a: array<T>, f: T -> T)
    modifies a
    ensures forall i :: 0 <= i < a.Length ==> a[i] == f(old(a[i]))
  {
    var i := 0;
    while i < a.Length
      invariant 0 <= i <= a.Length
      invariant forall j :: 0 <= j < i ==> a[j] == f(old(a[j]))
      invariant forall j :: i <= j < a.Length ==> a[j] == old(a[j])
    {
      a[i] := f(a[i]);
      i := i + 1;
    }
  }

  /** A homologation record leaves with no check digit key and, when it
      had a plate, a plate without hyphens. */
  lemma HomologacionReshaped(r: Record)
    ensures var t := Transform(Some(PdfUtils.CertificadoDeHomologacion), r);
      && !Has(t, DigitoVerificador)
      && (DistinctKeys(r) && Filled(r, Patente) ==>
            Get(t, Patente).Some? && !Contains(Get(t, Patente).value, "-"))
  {
    if DistinctKeys(r) && Filled(r, Patente) {
      var v := Trim(RemoveWhere(Get(r, Patente).value, IsHyphen));
      var w := Put(r, Patente, v);
      assert Get(Transform(Some(PdfUtils.CertificadoDeHomologacion), r), Patente) == Some(v);
      NoHyphenInTrim(RemoveWhere(Get(r, Patente).value, IsHyphen));
    }
  }

  /** Trimming a text without hyphens leaves none. */
  lemma NoHyphenInTrim(s: string)
    requires NoneOf(s, IsHyphen)
    ensures !Contains(Trim(s), "-")
  {
    var e := TrimEnd(s);
    NoneOfSlice(s, 0, |e|, IsHyphen);
    var t := TrimStart(e);
    NoneOfSlice(e, |e| - |t|, |e|, IsHyphen);
    NoHyphenNoMatch(t);
  }

  lemma NoneOfSlice(s: string, lo: nat, hi: nat, p: char -> bool)
    requires lo <= hi <= |s| && NoneOf(s, p)
    ensures NoneOf(s[lo..hi], p)
  {
    forall j | 0 <= j < hi - lo ensures !p(s[lo..hi][j]) {
      assert s[lo..hi][j] == s[lo + j];
    }
  }

  /** A text without hyphens holds no "-". */
  lemma NoHyphenNoMatch(t: string)
    requires NoneOf(t, IsHyphen)
    ensures !Contains(t, "-")
  {
    forall j: nat | j + 1 <= |t| ensures !OccursAt(t, "-", j) {
      assert t[j..j + 1][0] == t[j];
    }
  }

  /** A permit record with a plate leaves with the cleaned plate cut to six
      characters, and with a check digit exactly when the cleaned plate
      was longer; together they spell the cleaned plate. */
  lemma PermisoReshaped(r: Record)
    requires DistinctKeys(r) && Filled(r, PlacaUnica)
    ensures var t := Transform(Some(PdfUtils.PermisoCirculacion), r);
      var cleaned := RemoveWhere(Get(r, PlacaUnica).value, IsPlateSeparator);
      && Get(t, PlacaUnica).Some?
      && |Get(t, PlacaUnica).value| <= 6
      && (Has(t, DigitoVerificador) <==> |cleaned| > 6)
      && Get(t, PlacaUnica).value + GetOrEmpty(t, DigitoVerificador) == cleaned
  {
    var n := NormalizePlateWithCheck(Get(r, PlacaUnica).value);
    var w := Put(r, PlacaUnica, n.plate);
    assert Get(w, PlacaUnica) == Some(n.plate);
  }

  // ---------------------------------------------------------------------
  // Column order of one record (`orderRegistro`)
  // ---------------------------------------------------------------------

  /** The keys `orderRegistro` places itself; every other key follows in
      the record's own order. */
  predicate IsSpecial(k: string) {
    k == NombrePdf || k == Patente || k == PlacaUnica || k == Inscripcion || k == DigitoVerificador
  }

  /** `if (key in registro) ordered[key] = registro[key]`. */
  function Copy(ordered: Record, r: Record, key: string): Record {
    if Has(r, key) then Put(ordered, key, Get(r, key).value) else ordered
  }

  /** `key` copied and, when it was there, the check digit after it. */
  function CopyWithDigit(ordered: Record, r: Record, key: string): Record {
    if Has(r, key) then Copy(Put(ordered, key, Get(r, key).value), r, DigitoVerificador) else ordered
  }

  /** The leading columns `orderRegistro` builds, branch by branch. */
  function Leading(format: Option<PdfUtils.PdfFormat>, r: Record): Record {
    var o := Copy([], r, NombrePdf);
    if format == Some(PdfUtils.CertificadoDeHomologacion) then Copy(o, r, Patente)
    else if format == Some(PdfUtils.PermisoCirculacion) then CopyWithDigit(o, r, PlacaUnica)
    else if format == Some(PdfUtils.SoapFormat) then
      var o' := CopyWithDigit(o, r, Inscripcion);
      if Has(r, Patente) then CopyWithDigit(o', r, Patente) else CopyWithDigit(o', r, PlacaUnica)
    else if Has(r, Patente) then CopyWithDigit(o, r, Patente)
    else if Has(r, PlacaUnica) then CopyWithDigit(o, r, PlacaUnica)
    else CopyWithDigit(o, r, Inscripcion)
  }

  /** The entries whose keys are not special, in the record's order. */
  function Others(r: Record): (o: Record)
    ensures forall i :: 0 <= i < |o| ==> !IsSpecial(o[i].0) && o[i] in r
  {
    if r == [] then []
    else
      var init := Others(r[..|r| - 1]);
      if IsSpecial(r[|r| - 1].0) then init else init + [r[|r| - 1]]
  }

  /** The record `orderRegistro` returns. */
  function Ordered(format: Option<PdfUtils.PdfFormat>, r: Record): Record {
    Leading(format, r) + Others(r)
  }

  /** Every entry of `o` is a special key of `r` with `r`'s value. */
  ghost predicate CopiedFrom(o: Record, r: Record) {
    && DistinctKeys(o)
    && forall i :: 0 <= i < |o| ==> IsSpecial(o[i].0) && Get(r, o[i].0) == Some(o[i].1)
  }

  lemma PutCopied(o: Record, r: Record, key: string)
    requires CopiedFrom(o, r) && IsSpecial(key) && Has(r, key)
    ensures CopiedFrom(Put(o, key, Get(r, key).value), r)
  {
    var v := Get(r, key).value;
    var i := Find(o, key);
    if i < 0 {
      PutAbsent(o, key, v);
    } else {
      assert NoDuplicates(Keys(o));
      PutAt(o, i, v);
    }
  }

  lemma CopyKeeps(o: Record, r: Record, key: string)
    requires CopiedFrom(o, r) && IsSpecial(key)
    ensures CopiedFrom(Copy(o, r, key), r)
    ensures CopiedFrom(CopyWithDigit(o, r, key), r)
  {
    if Has(r, key) {
      PutCopied(o, r, key);
      var o' := Put(o, key, Get(r, key).value);
      if Has(r, DigitoVerificador) {
        PutCopied(o', r, DigitoVerificador);
      }
    }
  }

  /** The leading columns are special keys copied from the record, each
      once. */
  lemma LeadingCopied(format: Option<PdfUtils.PdfFormat>, r: Record)
    ensures CopiedFrom(Leading(format, r), r)
  {
    CopyKeeps([], r, NombrePdf);
    var o := Copy([], r, NombrePdf);
    if format == Some(PdfUtils.CertificadoDeHomologacion) {
      CopyKeeps(o, r, Patente);
    } else if format == Some(PdfUtils.PermisoCirculacion) {
      CopyKeeps(o, r, PlacaUnica);
    } else if format == Some(PdfUtils.SoapFormat) {
      CopyKeeps(o, r, Inscripcion);
      var o' := CopyWithDigit(o, r, Inscripcion);
      CopyKeeps(o', r, Patente);
      CopyKeeps(o', r, PlacaUnica);
    } else {
      CopyKeeps(o, r, Patente);
      CopyKeeps(o, r, PlacaUnica);
      CopyKeeps(o, r, Inscripcion);
    }
  }

  /** An update keeps the first entry's place. */
  lemma PutKeepsFirst(o: Record, k: string, v: string)
    requires o != [] && k != o[0].0
    ensures Put(o, k, v) != [] && Put(o, k, v)[0] == o[0]
  {
    var o' := Put(o, k, v);
    assert Keys(o')[0] == Keys(o)[0];
    assert Find(o, o[0].0) == 0;
    assert Find(o', o[0].0) == 0;
  }

  lemma CopyKeepsFirst(o: Record, r: Record, key: string)
    requires o != [] && o[0].0 == NombrePdf && key != NombrePdf
    ensures Copy(o, r, key) != [] && Copy(o, r, key)[0] == o[0]
    ensures CopyWithDigit(o, r, key) != [] && CopyWithDigit(o, r, key)[0] == o[0]
  {
    if Has(r, key) {
      PutKeepsFirst(o, key, Get(r, key).value);
      var o' := Put(o, key, Get(r, key).value);
      if Has(r, DigitoVerificador) {
        PutKeepsFirst(o', DigitoVerificador, Get(r, DigitoVerificador).value);
      }
    }
  }

  /** The leading columns start with "Nombre PDF" when the record has it. */
  lemma LeadingFirst(format: Option<PdfUtils.PdfFormat>, r: Record)
    requires Has(r, NombrePdf)
    ensures Leading(format, r) != [] && Leading(format, r)[0] == (NombrePdf, Get(r, NombrePdf).value)
  {
    var o := Copy([], r, NombrePdf);
    assert o == [(NombrePdf, Get(r, NombrePdf).value)];
    if format == Some(PdfUtils.CertificadoDeHomologacion) {
      CopyKeepsFirst(o, r, Patente);
    } else if format == Some(PdfUtils.PermisoCirculacion) {
      CopyKeepsFirst(o, r, PlacaUnica);
    } else if format == Some(PdfUtils.SoapFormat) {
      CopyKeepsFirst(o, r, Inscripcion);
      var o' := CopyWithDigit(o, r, Inscripcion);
      if Has(r, Patente) {
        CopyKeepsFirst(o', r, Patente);
      } else {
        CopyKeepsFirst(o', r, PlacaUnica);
      }
    } else if Has(r, Patente) {
      CopyKeepsFirst(o, r, Patente);
    } else if Has(r, PlacaUnica) {
      CopyKeepsFirst(o, r, PlacaUnica);
    } else {
      CopyKeepsFirst(o, r, Inscripcion);
    }
  }

  /** "Nombre PDF", when the record has it, is the first column. */
  lemma NombrePdfFirst(format: Option<PdfUtils.PdfFormat>, r: Record)
    requires Has(r, NombrePdf)
    ensures Ordered(format, r) != [] && Ordered(format, r)[0] == (NombrePdf, Get(r, NombrePdf).value)
  {
    LeadingFirst(format, r);
  }

  /** The record `[(k, v)]` when `r` has `k`, else nothing. */
  function Entry(r: Record, k: string): Record {
    if Has(r, k) then [(k, Get(r, k).value)] else []
  }

  /** A permit record starts with its name, its plate and its check digit,
      each present only when the record has it. */
  lemma PermisoLeading(r: Record)
    requires Has(r, PlacaUnica)
    ensures Leading(Some(PdfUtils.PermisoCirculacion), r)
      == Entry(r, NombrePdf) + [(PlacaUnica, Get(r, PlacaUnica).value)] + Entry(r, DigitoVerificador)
  {
    var o := Entry(r, NombrePdf);
    assert Copy([], r, NombrePdf) == o;
    PutAbsent(o, PlacaUnica, Get(r, PlacaUnica).value);
    var o' := o + [(PlacaUnica, Get(r, PlacaUnica).value)];
    if Has(r, DigitoVerificador) {
      PutAbsent(o', DigitoVerificador, Get(r, DigitoVerificador).value);
    }
  }

  /** A homologation record starts with its name and its plate, each
      present only when the record has it; no check digit is placed. */
  lemma HomologacionLeading(r: Record)
    ensures Leading(Some(PdfUtils.CertificadoDeHomologacion), r) == Entry(r, NombrePdf) + Entry(r, Patente)
  {
    var o := Entry(r, NombrePdf);
    assert Copy([], r, NombrePdf) == o;
    if Has(r, Patente) {
      PutAbsent(o, Patente, Get(r, Patente).value);
    }
  }

  /** A non-special key keeps its value, and its absence, through the
      reordering. */
  lemma OrderedKeepsOthers(format: Option<PdfUtils.PdfFormat>, r: Record, k: string)
    requires DistinctKeys(r) && !IsSpecial(k)
    ensures Get(Ordered(format, r), k) == Get(r, k)
  {
    LeadingCopied(format, r);
    CopiedThenOthers(Leading(format, r), r, k);
  }

  lemma CopiedThenOthers(l: Record, r: Record, k: string)
    requires CopiedFrom(l, r) && DistinctKeys(r) && !IsSpecial(k)
    ensures Get(l + Others(r), k) == Get(r, k)
  {
    assert Find(l, k) < 0;
    OthersFind(r, k);
    var o := Others(r);
    if Find(o, k) < 0 {
      forall j | 0 <= j < |l + o| ensures (l + o)[j].0 != k {
        if j >= |l| { assert (l + o)[j] == o[j - |l|]; }
      }
    } else {
      var f := Find(o, k);
      assert (l + o)[|l| + f] == o[f];
      forall j | 0 <= j < |l| + f ensures (l + o)[j].0 != k {
        if j >= |l| { assert (l + o)[j] == o[j - |l|]; }
      }
    }
  }

  /** In the non-special entries, a key is found exactly when the record
      has it, with the record's value. */
  lemma {:induction false} OthersFind(r: Record, k: string)
    requires DistinctKeys(r) && !IsSpecial(k)
    ensures Get(Others(r), k) == Get(r, k)
  {
    if r != [] {
      var init := r[..|r| - 1];
      var last := r[|r| - 1];
      InitDistinct(r);
      OthersFind(init, k);
      assert r == init + [last];
      if last.0 == k {
        OthersFindLast(init, k, last.1);
      } else {
        OthersFindOther(init, last, k);
      }
    }
  }

  /** Dropping the last entry keeps the keys distinct, and that key was
      not among the others. */
  lemma InitDistinct(r: Record)
    requires DistinctKeys(r) && r != []
    ensures DistinctKeys(r[..|r| - 1]) && !Has(r[..|r| - 1], r[|r| - 1].0)
  {
    var init := r[..|r| - 1];
    forall i, j | 0 <= i < j < |init| ensures init[i].0 != init[j].0 {
      assert init[i] == r[i] && init[j] == r[j];
    }
    forall j | 0 <= j < |init| ensures init[j].0 != r[|r| - 1].0 {
      assert init[j] == r[j];
    }
  }

  lemma OthersFindLast(init: Record, k: string, v: string)
    requires !IsSpecial(k) && !Has(init, k) && Get(Others(init), k) == Get(init, k)
    ensures Get(Others(init + [(k, v)]), k) == Get(init + [(k, v)], k)
  {
    var r := init + [(k, v)];
    assert r[..|r| - 1] == init;
    assert Others(r) == Others(init) + [(k, v)];
    FindAppended(init, k, v);
    FindAppended(Others(init), k, v);
  }

  lemma OthersFindOther(init: Record, last: (string, string), k: string)
    requires last.0 != k && Get(Others(init), k) == Get(init, k)
    ensures Get(Others(init + [last]), k) == Get(init + [last], k)
  {
    var r := init + [last];
    assert r[..|r| - 1] == init;
    FindPrefix(init, [last], k);
    if !IsSpecial(last.0) {
      FindPrefix(Others(init), [last], k);
    }
  }

  /** The reordered record has distinct keys. */
  lemma OrderedDistinct(format: Option<PdfUtils.PdfFormat>, r: Record)
    requires DistinctKeys(r)
    ensures DistinctKeys(Ordered(format, r))
  {
    LeadingCopied(format, r);
    OthersDistinct(r);
    var l := Leading(format, r);
    var o := Others(r);
    var lo: Record := l + o;
    forall i, j | 0 <= i < j < |lo| ensures lo[i].0 != lo[j].0 {
      if j >= |l| {
        assert lo[j] == o[j - |l|];
        if i < |l| {
          assert lo[i] == l[i];
          HasIffInKeys(l, l[i].0);
          assert Keys(l)[i] == l[i].0;
        } else {
          assert lo[i] == o[i - |l|];
        }
      }
    }
    assert Ordered(format, r) == lo;
  }

  lemma {:induction false} OthersDistinct(r: Record)
    requires DistinctKeys(r)
    ensures DistinctKeys(Others(r))
  {
    if r != [] {
      var init := r[..|r| - 1];
      assert DistinctKeys(init) by {
        forall i, j | 0 <= i < j < |init| ensures init[i].0 != init[j].0 {
          assert init[i] == r[i] && init[j] == r[j];
        }
      }
      OthersDistinct(init);
      var o := Others(init);
      if !IsSpecial(r[|r| - 1].0) {
        forall i | 0 <= i < |o| ensures o[i].0 != r[|r| - 1].0 {
          assert o[i] in init;
          var j :| 0 <= j < |init| && init[j] == o[i];
          assert init[j] == r[j];
        }
      }
    }
  }

  /** `orderRegistro(registro)`: the leading columns, then every other key
      in the record's order. */
  method OrderRegistro(format: Option<PdfUtils.PdfFormat>, registro: Record) returns (ordered: Record)
    requires DistinctKeys(registro)
    ensures ordered == Ordered(format, registro)
  {
    ordered := [];
    if Has(registro, NombrePdf) {
      ordered := Put(ordered, NombrePdf, Get(registro, NombrePdf).value);
    }
    if format == Some(PdfUtils.CertificadoDeHomologacion) {
      ordered := Copy(ordered, registro, Patente);
    } else if format == Some(PdfUtils.PermisoCirculacion) {
      ordered := CopyWithDigit(ordered, registro, PlacaUnica);
    } else if format == Some(PdfUtils.SoapFormat) {
      ordered := CopyWithDigit(ordered, registro, Inscripcion);
      if Has(registro, Patente) {
        ordered := CopyWithDigit(ordered, registro, Patente);
      } else {
        ordered := CopyWithDigit(ordered, registro, PlacaUnica);
      }
    } else if Has(registro, Patente) {
      ordered := CopyWithDigit(ordered, registro, Patente);
    } else if Has(registro, PlacaUnica) {
      ordered := CopyWithDigit(ordered, registro, PlacaUnica);
    } else {
      ordered := CopyWithDigit(ordered, registro, Inscripcion);
    }
    assert ordered == Leading(format, registro);
    LeadingCopied(format, registro);
    ordered := AppendOthers(ordered, registro);
  }

  /** The `Object.keys(registro).forEach(...)` pass of `orderRegistro`:
      every key that is not special is appended, in the record's order. */
  method AppendOthers(leading: Record, registro: Record) returns (ordered: Record)
    requires DistinctKeys(registro) && CopiedFrom(leading, registro)
    ensures ordered == leading + Others(registro)
  {
    ordered := leading;
    var i := 0;
    while i < |registro|
      invariant 0 <= i <= |registro|
      invariant ordered == leading + Others(registro[..i])
    {
      var key := registro[i].0;
      assert registro[..i + 1] == registro[..i] + [registro[i]];
      if !IsSpecial(key) {
        GetAt(registro, i);
        AbsentFromOrdered(leading, registro, i);
        PutAbsent(ordered, key, registro[i].1);
        ordered := Put(ordered, key, Get(registro, key).value);
      }
      i := i + 1;
    }
    assert registro[..i] == registro;
  }

  /** The key at `i` is not yet among the columns built before it. */
  lemma AbsentFromOrdered(l: Record, r: Record, i: nat)
    requires CopiedFrom(l, r) && DistinctKeys(r) && i < |r| && !IsSpecial(r[i].0)
    ensures r[i].0 !in Keys(l + Others(r[..i]))
  {
    var o := Others(r[..i]);
    HasIffInKeys(l, r[i].0);
    var lo: Record := l + o;
    forall j | 0 <= j < |lo| ensures lo[j].0 != r[i].0 {
      if j >= |l| {
        assert lo[j] == o[j - |l|];
        assert o[j - |l|] in r[..i];
        var m :| 0 <= m < i && r[..i][m] == o[j - |l|];
        assert r[m] == r[..i][m];
      } else {
        assert Keys(l)[j] == l[j].0;
      }
    }
  }

  /** `registros.map(orderRegistro)`. */
  method OrderRegistros(format: Option<PdfUtils.PdfFormat>, registros: seq<Record>) returns (ordered: seq<Record>)
    requires forall i :: 0 <= i < |registros| ==> DistinctKeys(registros[i])
    ensures |ordered| == |registros|
    ensures forall i :: 0 <= i < |registros| ==> ordered[i] == Ordered(format, registros[i])
  {
    ordered := [];
    var i := 0;
    while i < |registros|
      invariant 0 <= i <= |registros|
      invariant |ordered| == i
      invariant forall j :: 0 <= j < i ==> ordered[j] == Ordered(format, registros[j])
    {
      var o := OrderRegistro(format, registros[i]);
      ordered := ordered + [o];
      i := i + 1;
    }
  }

  // ---------------------------------------------------------------------
  // The uniform check-digit column
  // ---------------------------------------------------------------------

  /** `orderedRegistros.some(record => record.hasOwnProperty("digito verificador"))`. */
  predicate SomeHasCheckDigit(rs: seq<Record>) {
    exists i :: 0 <= i < |rs| && Has(rs[i], DigitoVerificador)
  }

  /** A record given an empty check digit when it has none. */
  function WithCheckDigit(r: Record): (r': Record)
    ensures Has(r', DigitoVerificador)
    ensures Has(r, DigitoVerificador) ==> r' == r
    ensures !Has(r, DigitoVerificador) ==> r' == r + [(DigitoVerificador, "")]
    ensures DistinctKeys(r) ==> DistinctKeys(r')
  {
    if Has(r, DigitoVerificador) then r
    else
      HasIffInKeys(r, DigitoVerificador);
      PutAbsent(r, DigitoVerificador, "");
      Put(r, DigitoVerificador, "")
  }

  /** The `some` test, as a loop. */
  method AnyHasCheckDigit(rs: seq<Record>) returns (found: bool)
    ensures found <==> SomeHasCheckDigit(rs)
  {
    found := false;
    var i := 0;
    while i < |rs|
      invariant 0 <= i <= |rs|
      invariant found <==> exists j :: 0 <= j < i && Has(rs[j], DigitoVerificador)
    {
      if Has(rs[i], DigitoVerificador) {
        found := true;
      }
      i := i + 1;
    }
  }

  /** The records after the check digit is forced: when one record has it,
      every record has it, an added one being empty. */
  function Forced(rs: seq<Record>): (fs: seq<Record>)
    ensures |fs| == |rs|
    ensures SomeHasCheckDigit(rs) ==> forall i :: 0 <= i < |rs| ==> fs[i] == WithCheckDigit(rs[i])
    ensures !SomeHasCheckDigit(rs) ==> fs == rs
  {
    if SomeHasCheckDigit(rs) then seq(|rs|, i requires 0 <= i < |rs| => WithCheckDigit(rs[i])) else rs
  }

  /** The forcing pass: if any record has "digito verificador", every
      record that lacks it gets it, empty. */
  method ForceCheckDigit(ordered: array<Record>)
    modifies ordered
    ensures ordered[..] == Forced(old(ordered[..]))
  {
    var hasCheckDigit := AnyHasCheckDigit(ordered[..]);
    if hasCheckDigit {
      MapInPlace(ordered, WithCheckDigit);
    }
  }

  /** Forcing is all or nothing: afterwards either every record has the
      check digit or none has it, and every other key keeps its value. */
  lemma {:induction false} ForcedUniform(rs: seq<Record>)
    ensures (forall i :: 0 <= i < |rs| ==> Has(Forced(rs)[i], DigitoVerificador))
      || (forall i :: 0 <= i < |rs| ==> !Has(Forced(rs)[i], DigitoVerificador))
    ensures forall i, k :: 0 <= i < |rs| && k != DigitoVerificador ==> Get(Forced(rs)[i], k) == Get(rs[i], k)
  {
    forall i, k | 0 <= i < |rs| && k != DigitoVerificador
      ensures Get(Forced(rs)[i], k) == Get(rs[i], k)
    {
      if SomeHasCheckDigit(rs) && !Has(rs[i], DigitoVerificador) {
        HasIffInKeys(rs[i], DigitoVerificador);
        PutAbsent(rs[i], DigitoVerificador, "");
      }
    }
  }

  // ---------------------------------------------------------------------
  // Headers
  // ---------------------------------------------------------------------

  /** `keys.forEach(key => headerSet.add(key))`: the keys not yet seen are
      appended, in order. */
  function AddKeys(seen: seq<string>, keys: seq<string>): (r: seq<string>)
    ensures |seen| <= |r| && r[..|seen|] == seen
    decreases |keys|
  {
    if keys == [] then seen
    else
      var next := if keys[0] in seen then seen else seen + [keys[0]];
      assert next[..|seen|] == seen;
      var r := AddKeys(next, keys[1..]);
      assert r[..|seen|] == r[..|next|][..|seen|];
      r
  }

  /** After adding, the set holds exactly the keys seen before and the
      keys added. */
  lemma {:induction false} AddKeysMembers(seen: seq<string>, keys: seq<string>)
    ensures forall k :: k in AddKeys(seen, keys) <==> k in seen || k in keys
    decreases |keys|
  {
    if keys != [] {
      var next := if keys[0] in seen then seen else seen + [keys[0]];
      AddKeysMembers(next, keys[1..]);
      assert forall k :: k in keys <==> k == keys[0] || k in keys[1..];
    }
  }

  /** A key is added only when it has not been seen, so the set never
      holds a key twice. */
  lemma {:induction false} AddKeysNoDuplicates(seen: seq<string>, keys: seq<string>)
    requires NoDuplicates(seen)
    ensures NoDuplicates(AddKeys(seen, keys))
    decreases |keys|
  {
    if keys != [] {
      var next := if keys[0] in seen then seen else seen + [keys[0]];
      AddKeysNoDuplicates(next, keys[1..]);
    }
  }

  /** Adding two runs of keys is adding their concatenation. */
  lemma {:induction false} AddKeysAppend(seen: seq<string>, a: seq<string>, b: seq<string>)
    ensures AddKeys(seen, a + b) == AddKeys(AddKeys(seen, a), b)
    decreases |a|
  {
    if a == [] {
      assert a + b == b;
    } else {
      assert (a + b)[0] == a[0] && (a + b)[1..] == a[1..] + b;
      var next := if a[0] in seen then seen else seen + [a[0]];
      AddKeysAppend(next, a[1..], b);
    }
  }

  lemma AddKeysSingle(seen: seq<string>, k: string)
    ensures AddKeys(seen, [k]) == if k in seen then seen else seen + [k]
  {
    var next := if k in seen then seen else seen + [k];
    assert [k][1..] == [];
    assert AddKeys(seen, [k]) == AddKeys(next, []);
  }

  /** Keys none of which has been seen, and none twice, are all appended. */
  lemma {:induction false} AddKeysFresh(seen: seq<string>, keys: seq<string>)
    requires NoDuplicates(keys) && forall k :: k in keys ==> k !in seen
    ensures AddKeys(seen, keys) == seen + keys
    decreases |keys|
  {
    if keys != [] {
      FreshTail(seen, keys);
      AddKeysFresh(seen + [keys[0]], keys[1..]);
      AddKeysUnseenHead(seen, keys);
      AppendHeadTail(seen, keys);
    }
  }

  /** The tail of fresh keys is fresh once the head has been seen. */
  lemma FreshTail(seen: seq<string>, keys: seq<string>)
    requires keys != [] && NoDuplicates(keys) && forall k :: k in keys ==> k !in seen
    ensures NoDuplicates(keys[1..])
    ensures forall k :: k in keys[1..] ==> k !in seen + [keys[0]]
  {
    forall i, j | 0 <= i < j < |keys[1..]| ensures keys[1..][i] != keys[1..][j] {
      assert keys[1..][i] == keys[i + 1] && keys[1..][j] == keys[j + 1];
    }
    forall k | k in keys[1..] ensures k !in seen + [keys[0]] {
      var j :| 0 <= j < |keys[1..]| && keys[1..][j] == k;
      assert keys[j + 1] == k;
    }
  }

  /** An unseen first key is appended before the rest is added. */
  lemma AddKeysUnseenHead(seen: seq<string>, keys: seq<string>)
    requires keys != [] && keys[0] !in seen
    ensures AddKeys(seen, keys) == AddKeys(seen + [keys[0]], keys[1..])
  {
  }

  lemma AppendHeadTail(seen: seq<string>, keys: seq<string>)
    requires keys != []
    ensures seen + [keys[0]] + keys[1..] == seen + keys
  {
    assert keys == [keys[0]] + keys[1..];
  }

  /** The headers: every key of every record, each once, in the order
      the keys are first seen. */
  function Headers(rs: seq<Record>): (hs: seq<string>)
    ensures NoDuplicates(hs)
  {
    if rs == [] then []
    else
      AddKeysNoDuplicates(Headers(rs[..|rs| - 1]), Keys(rs[|rs| - 1]));
      AddKeys(Headers(rs[..|rs| - 1]), Keys(rs[|rs| - 1]))
  }

  /** A key is a header exactly when some record has it. */
  lemma HeadersCover(rs: seq<Record>, k: string)
    ensures k in Headers(rs) <==> exists i :: 0 <= i < |rs| && k in Keys(rs[i])
  {
    if k in Headers(rs) {
      var i := HeaderSource(rs, k);
    }
    if exists i :: 0 <= i < |rs| && k in Keys(rs[i]) {
      var i :| 0 <= i < |rs| && k in Keys(rs[i]);
      HeaderOfKey(rs, i, k);
    }
  }

  /** Every header is a key of some record. */
  lemma {:induction false} HeaderSource(rs: seq<Record>, k: string) returns (i: nat)
    requires k in Headers(rs)
    ensures i < |rs| && k in Keys(rs[i])
  {
    var init := rs[..|rs| - 1];
    AddKeysMembers(Headers(init), Keys(rs[|rs| - 1]));
    if k in Headers(init) {
      i := HeaderSource(init, k);
      assert rs[i] == init[i];
    } else {
      i := |rs| - 1;
    }
  }

  /** Every key of every record is a header. */
  lemma {:induction false} HeaderOfKey(rs: seq<Record>, i: nat, k: string)
    requires i < |rs| && k in Keys(rs[i])
    ensures k in Headers(rs)
  {
    var init := rs[..|rs| - 1];
    AddKeysMembers(Headers(init), Keys(rs[|rs| - 1]));
    if i < |rs| - 1 {
      assert rs[i] == init[i];
      HeaderOfKey(init, i, k);
    }
  }

  /** The headers of a prefix of the records are a prefix of the headers:
      a key seen earlier is never moved by a key seen later. */
  lemma {:induction false} HeadersGrow(rs: seq<Record>, n: nat)
    requires n <= |rs|
    ensures |Headers(rs[..n])| <= |Headers(rs)| && Headers(rs)[..|Headers(rs[..n])|] == Headers(rs[..n])
    decreases |rs| - n
  {
    if n < |rs| {
      HeadersGrow(rs[..|rs| - 1], n);
      assert rs[..|rs| - 1][..n] == rs[..n];
    } else {
      assert rs[..n] == rs;
    }
  }

  /** The first record's keys, when distinct, are the first headers, in
      that record's order. */
  lemma FirstRecordLeads(rs: seq<Record>)
    requires rs != [] && DistinctKeys(rs[0])
    ensures |Keys(rs[0])| <= |Headers(rs)| && Headers(rs)[..|rs[0]|] == Keys(rs[0])
  {
    HeadersGrow(rs, 1);
    HeadersOfOne(rs[..1]);
    var keys := Keys(rs[0]);
    assert NoDuplicates(keys) by {
      forall i, j | 0 <= i < j < |keys| ensures keys[i] != keys[j] {
        assert keys[i] == rs[0][i].0 && keys[j] == rs[0][j].0;
      }
    }
    AddKeysFresh([], keys);
    assert [] + keys == keys;
  }

  /** The headers of a single record are its keys added to the empty set. */
  lemma HeadersOfOne(rs: seq<Record>)
    requires |rs| == 1
    ensures Headers(rs) == AddKeys([], Keys(rs[0]))
  {
    assert rs[..0] == [];
  }

  /** The header collection: a set filled record by record, key by key,
      read back in insertion order. */
  method CollectHeaders(rs: seq<Record>) returns (headers: seq<string>)
    ensures headers == Headers(rs)
  {
    headers := [];
    var i := 0;
    while i < |rs|
      invariant 0 <= i <= |rs|
      invariant headers == Headers(rs[..i])
    {
      assert rs[..i + 1][..i] == rs[..i];
      headers := AddRecordKeys(headers, Keys(rs[i]));
      i := i + 1;
    }
    assert rs[..i] == rs;
  }

  /** One record's keys added to the header set. */
  method AddRecordKeys(seen: seq<string>, keys: seq<string>) returns (headers: seq<string>)
    ensures headers == AddKeys(seen, keys)
  {
    headers := seen;
    var j := 0;
    while j < |keys|
      invariant 0 <= j <= |keys|
      invariant headers == AddKeys(seen, keys[..j])
    {
      AddKeysAppend(seen, keys[..j], [keys[j]]);
      AddKeysSingle(headers, keys[j]);
      assert keys[..j] + [keys[j]] == keys[..j + 1];
      if keys[j] !in headers {
        headers := headers + [keys[j]];
      }
      j := j + 1;
    }
    assert keys[..j] == keys;
  }

  // ---------------------------------------------------------------------
  // The data sheet
  // ---------------------------------------------------------------------

  const NoDataMessage: string := "No se encontraron datos para generar el Excel."

  /** What the data sheet holds at (`row`, `col`), counted from 1: the
      placeholder in A1 when there are no records; otherwise the headers
      in row 1 and record `r`'s value for header `c` in row `r + 2`,
      column `c + 1`, a missing or empty value being "". */
  function DataCell(headers: seq<string>, rs: seq<Record>, row: nat, col: nat): Option<Cell> {
    if rs == [] then (if row == 1 && col == 1 then Some(Text(NoDataMessage)) else None)
    else if col < 1 || col > |headers| then None
    else if row == 1 then Some(Text(headers[col - 1]))
    else if 2 <= row <= |rs| + 1 then Some(Text(GetOrEmpty(rs[row - 2], headers[col - 1])))
    else None
  }

  /** The cells the first `n` values of a row write: column `c` gets value
      `c - 1`. */
  function RowCells(row: nat, values: seq<string>, n: nat): map<(nat, nat), Cell>
    requires n <= |values|
  {
    if n == 0 then map[] else RowCells(row, values, n - 1)[(row, n) := Text(values[n - 1])]
  }

  lemma {:induction false} RowCellsAt(row: nat, values: seq<string>, n: nat, p: (nat, nat))
    requires n <= |values|
    ensures p in RowCells(row, values, n) <==> p.0 == row && 1 <= p.1 <= n
    ensures p in RowCells(row, values, n) ==> RowCells(row, values, n)[p] == Text(values[p.1 - 1])
  {
    if n > 0 && p != (row, n) {
      RowCellsAt(row, values, n - 1, p);
    }
  }

  /** `registro[header] || ""` for every header. */
  function RowValues(r: Record, headers: seq<string>): (vs: seq<string>)
    ensures |vs| == |headers|
    ensures forall c :: 0 <= c < |headers| ==> vs[c] == GetOrEmpty(r, headers[c])
  {
    seq(|headers|, c requires 0 <= c < |headers| => GetOrEmpty(r, headers[c]))
  }

  /** The header row and the rows of the first `n` records. */
  function Grid(headers: seq<string>, rs: seq<Record>, n: nat): map<(nat, nat), Cell>
    requires n <= |rs|
  {
    if n == 0 then RowCells(1, headers, |headers|)
    else Grid(headers, rs, n - 1) + RowCells(n + 1, RowValues(rs[n - 1], headers), |headers|)
  }

  /** The cells `generateExcel` writes on the data sheet. */
  function DataSheetCells(headers: seq<string>, rs: seq<Record>): map<(nat, nat), Cell> {
    if rs == [] then map[(1, 1) := Text(NoDataMessage)] else Grid(headers, rs, |rs|)
  }

  lemma GridAt(headers: seq<string>, rs: seq<Record>, n: nat, row: nat, col: nat)
    requires 0 < n <= |rs|
    ensures (row, col) in Grid(headers, rs, n) <==> row <= n + 1 && DataCell(headers, rs, row, col).Some?
    ensures (row, col) in Grid(headers, rs, n) ==>
      Grid(headers, rs, n)[(row, col)] == DataCell(headers, rs, row, col).value
  {
    GridHas(headers, rs, n, row, col);
    if (row, col) in Grid(headers, rs, n) {
      GridValue(headers, rs, n, row, col);
    }
  }

  /** The cells of the grid are those `DataCell` describes, up to row
      `n + 1`. */
  lemma {:induction false} GridHas(headers: seq<string>, rs: seq<Record>, n: nat, row: nat, col: nat)
    requires 0 < n <= |rs|
    ensures (row, col) in Grid(headers, rs, n) <==> row <= n + 1 && DataCell(headers, rs, row, col).Some?
  {
    var values := RowValues(rs[n - 1], headers);
    var last := RowCells(n + 1, values, |headers|);
    var before := if n == 1 then RowCells(1, headers, |headers|) else Grid(headers, rs, n - 1);
    assert Grid(headers, rs, n) == before + last;
    UnionAt(before, last, (row, col));
    RowCellsAt(n + 1, values, |headers|, (row, col));
    if n == 1 {
      RowCellsAt(1, headers, |headers|, (row, col));
    } else {
      GridHas(headers, rs, n - 1, row, col);
    }
  }

  /** Each cell of the grid holds what `DataCell` describes. */
  lemma {:induction false} GridValue(headers: seq<string>, rs: seq<Record>, n: nat, row: nat, col: nat)
    requires 0 < n <= |rs| && (row, col) in Grid(headers, rs, n)
    ensures DataCell(headers, rs, row, col).Some?
    ensures Grid(headers, rs, n)[(row, col)] == DataCell(headers, rs, row, col).value
  {
    var values := RowValues(rs[n - 1], headers);
    var last := RowCells(n + 1, values, |headers|);
    var before := if n == 1 then RowCells(1, headers, |headers|) else Grid(headers, rs, n - 1);
    assert Grid(headers, rs, n) == before + last;
    UnionAt(before, last, (row, col));
    RowCellsAt(n + 1, values, |headers|, (row, col));
    if (row, col) in last {
      assert values[col - 1] == GetOrEmpty(rs[n - 1], headers[col - 1]);
      assert DataCell(headers, rs, row, col) == Some(Text(values[col - 1]));
    } else if n == 1 {
      RowCellsAt(1, headers, |headers|, (row, col));
      assert DataCell(headers, rs, row, col) == Some(Text(headers[col - 1]));
    } else {
      GridValue(headers, rs, n - 1, row, col);
    }
  }

  /** A cell of a merged map comes from the second map when it is there,
      and from the first otherwise. */
  lemma UnionAt(a: map<(nat, nat), Cell>, b: map<(nat, nat), Cell>, p: (nat, nat))
    ensures p in a + b <==> p in a || p in b
    ensures p in b ==> (a + b)[p] == b[p]
    ensures p !in b && p in a ==> (a + b)[p] == a[p]
  {
  }

  /** The data sheet's layout: exactly the cells `DataCell` describes
      are written, each with the value it describes. */
  lemma DataSheetLayout(headers: seq<string>, rs: seq<Record>)
    ensures forall row: nat, col: nat :: (row, col) in DataSheetCells(headers, rs) <==>
      DataCell(headers, rs, row, col).Some?
    ensures forall row: nat, col: nat :: (row, col) in DataSheetCells(headers, rs) ==>
      DataSheetCells(headers, rs)[(row, col)] == DataCell(headers, rs, row, col).value
  {
    if rs != [] {
      forall row: nat, col: nat ensures
        && ((row, col) in DataSheetCells(headers, rs) <==> DataCell(headers, rs, row, col).Some?)
        && ((row, col) in DataSheetCells(headers, rs) ==>
              DataSheetCells(headers, rs)[(row, col)] == DataCell(headers, rs, row, col).value)
      {
        GridAt(headers, rs, |rs|, row, col);
      }
    }
  }

  /** The first data row is the first record: with the headers the
      export computes, row 1 starts with the first record's keys and row 2
      with its values, in the record's order. */
  lemma FirstRowIsFirstRecord(rs: seq<Record>, c: nat)
    requires rs != [] && DistinctKeys(rs[0]) && c < |rs[0]|
    ensures (1, c + 1) in DataSheetCells(Headers(rs), rs)
      && DataSheetCells(Headers(rs), rs)[(1, c + 1)] == Text(rs[0][c].0)
    ensures (2, c + 1) in DataSheetCells(Headers(rs), rs)
      && DataSheetCells(Headers(rs), rs)[(2, c + 1)] == Text(rs[0][c].1)
  {
    var hs := Headers(rs);
    FirstRecordLeads(rs);
    assert hs[c] == hs[..|rs[0]|][c] == rs[0][c].0;
    GetAt(rs[0], c);
    DataSheetLayout(hs, rs);
    assert DataCell(hs, rs, 1, c + 1).Some?;
    assert DataCell(hs, rs, 2, c + 1).Some?;
  }

  /** One row written cell by cell. */
  method WriteRow(sheet: Sheet, row: nat, values: seq<string>)
    modifies sheet
    ensures sheet.cells == old(sheet.cells) + RowCells(row, values, |values|)
    ensures sheet.name == old(sheet.name) && sheet.widths == old(sheet.widths)
    ensures sheet.heights == old(sheet.heights)
  {
    var c := 0;
    while c < |values|
      invariant 0 <= c <= |values|
      invariant sheet.cells == old(sheet.cells) + RowCells(row, values, c)
      invariant sheet.name == old(sheet.name) && sheet.widths == old(sheet.widths)
      invariant sheet.heights == old(sheet.heights)
    {
      MergeUpdate(old(sheet.cells), RowCells(row, values, c), (row, c + 1), Text(values[c]));
      sheet.SetCell(row, c + 1, Text(values[c]));
      c := c + 1;
    }
  }

  /** The data sheet: the placeholder when there are no records;
      otherwise the header row, one row per record, the column widths and
      the row heights. */
  method WriteDataSheet(sheet: Sheet, headers: seq<string>, rs: seq<Record>)
    modifies sheet
    ensures sheet.cells == old(sheet.cells) + DataSheetCells(headers, rs)
    ensures rs == [] ==> sheet.widths == old(sheet.widths) && sheet.heights == old(sheet.heights)
    ensures rs != [] ==> sheet.widths == old(sheet.widths) + ColumnUtils.Widths(headers, rs, |headers|)
    ensures rs != [] ==> sheet.heights == old(sheet.heights) + RowUtils.Heights(sheet.cells, |rs|)
    ensures sheet.name == old(sheet.name)
  {
    if |rs| == 0 {
      sheet.SetCell(1, 1, Text(NoDataMessage));
      return;
    }
    WriteRow(sheet, 1, headers);
    var i := 0;
    while i < |rs|
      invariant 0 <= i <= |rs|
      invariant sheet.cells == old(sheet.cells) + Grid(headers, rs, i)
      invariant sheet.name == old(sheet.name) && sheet.widths == old(sheet.widths)
      invariant sheet.heights == old(sheet.heights)
    {
      ghost var before := sheet.cells;
      var values := RowValues(rs[i], headers);
      WriteRow(sheet, i + 2, values);
      MergeAssoc(old(sheet.cells), Grid(headers, rs, i), RowCells(i + 2, values, |values|));
      i := i + 1;
    }
    ghost var written := sheet.cells;
    ColumnUtils.SetColumnWidths(sheet, headers, rs);
    RowUtils.AdjustRowHeights(sheet, rs);
  }

  // ---------------------------------------------------------------------
  // The statistics sheet
  // ---------------------------------------------------------------------

  /** A failed document and the error it was rejected with. */
  datatype Fallo = Fallo(fileName: string, error: string)

  /** `ExcelStats`. */
  datatype ExcelStats = ExcelStats(totalProcesados: nat, totalExitosos: nat, totalFallidos: nat, fallidos: seq<Fallo>)

  /** The first failure row. */
  const FirstFailureRow: nat := 9

  /** The fixed part of the statistics sheet: title, the three totals in
      column B of rows 3 to 5, and the header of the failure table. */
  function StatsHead(stats: ExcelStats): map<(nat, nat), Cell> {
    map[][(1, 1) := Text("Estadísticas de Conversión")]
         [(3, 1) := Text("Total Procesados:")][(3, 2) := Number(stats.totalProcesados)]
         [(4, 1) := Text("Total Exitosos:")][(4, 2) := Number(stats.totalExitosos)]
         [(5, 1) := Text("Total Fallidos:")][(5, 2) := Number(stats.totalFallidos)]
         [(7, 1) := Text("Archivos Fallidos")]
         [(8, 1) := Text("Nombre Archivo")][(8, 2) := Text("Error")]
  }

  /** The rows of the first `n` failures: failure `i` in row `9 + i`, its
      file name in column A and its error, without tags, in column B. */
  function FailureRows(fallidos: seq<Fallo>, n: nat): map<(nat, nat), Cell>
    requires n <= |fallidos|
  {
    if n == 0 then map[]
    else
      var row := FirstFailureRow + n - 1;
      FailureRows(fallidos, n - 1)[(row, 1) := Text(fallidos[n - 1].fileName)]
                                  [(row, 2) := Text(StripHtmlTags(fallidos[n - 1].error))]
  }

  /** The cells of the statistics sheet. */
  function StatsCells(stats: ExcelStats): map<(nat, nat), Cell> {
    StatsHead(stats) + FailureRows(stats.fallidos, |stats.fallidos|)
  }

  lemma {:induction false} FailureRowsAt(fallidos: seq<Fallo>, n: nat, i: nat)
    requires i < n <= |fallidos|
    ensures (FirstFailureRow + i, 1) in FailureRows(fallidos, n)
      && FailureRows(fallidos, n)[(FirstFailureRow + i, 1)] == Text(fallidos[i].fileName)
    ensures (FirstFailureRow + i, 2) in FailureRows(fallidos, n)
      && FailureRows(fallidos, n)[(FirstFailureRow + i, 2)] == Text(StripHtmlTags(fallidos[i].error))
  {
    if i < n - 1 {
      FailureRowsAt(fallidos, n - 1, i);
    }
  }

  lemma {:induction false} FailureRowsBelowHead(fallidos: seq<Fallo>, n: nat, p: (nat, nat))
    requires n <= |fallidos| && p in FailureRows(fallidos, n)
    ensures FirstFailureRow <= p.0 < FirstFailureRow + n
  {
    if p !in FailureRows(fallidos, n - 1)[(FirstFailureRow + n - 1, 1) := Text(fallidos[n - 1].fileName)] {
    } else if p != (FirstFailureRow + n - 1, 1) {
      FailureRowsBelowHead(fallidos, n - 1, p);
    }
  }

  /** The statistics sheet shows the three totals in B3, B4 and B5. */
  lemma StatsTotals(stats: ExcelStats)
    ensures var cells := StatsCells(stats);
      && (3, 2) in cells && cells[(3, 2)] == Number(stats.totalProcesados)
      && (4, 2) in cells && cells[(4, 2)] == Number(stats.totalExitosos)
      && (5, 2) in cells && cells[(5, 2)] == Number(stats.totalFallidos)
  {
    var rows := FailureRows(stats.fallidos, |stats.fallidos|);
    if (3, 2) in rows { FailureRowsBelowHead(stats.fallidos, |stats.fallidos|, (3, 2)); }
    if (4, 2) in rows { FailureRowsBelowHead(stats.fallidos, |stats.fallidos|, (4, 2)); }
    if (5, 2) in rows { FailureRowsBelowHead(stats.fallidos, |stats.fallidos|, (5, 2)); }
  }

  /** Failure `i` is in row `9 + i`, with its error free of tags and made
      only of the error's own characters, in their order. */
  lemma StatsFailureRow(stats: ExcelStats, i: nat)
    requires i < |stats.fallidos|
    ensures var cells := StatsCells(stats);
      && (FirstFailureRow + i, 1) in cells
      && cells[(FirstFailureRow + i, 1)] == Text(stats.fallidos[i].fileName)
      && (FirstFailureRow + i, 2) in cells
      && cells[(FirstFailureRow + i, 2)].Text?
      && NoTag(cells[(FirstFailureRow + i, 2)].text)
      && Subsequence(cells[(FirstFailureRow + i, 2)].text, stats.fallidos[i].error)
  {
    FailureRowsAt(stats.fallidos, |stats.fallidos|, i);
    StripLeavesNoTag(stats.fallidos[i].error);
    StripIsSubsequence(stats.fallidos[i].error);
  }

  /** The statistics sheet, filled row by row on the sheet just added. */
  method WriteStatsSheet(sheet: Sheet, stats: ExcelStats)
    requires sheet.cells == map[]
    modifies sheet
    ensures sheet.cells == StatsCells(stats)
    ensures sheet.name == old(sheet.name) && sheet.widths == old(sheet.widths)
    ensures sheet.heights == old(sheet.heights)
  {
    WriteStatsHead(sheet, stats);
    WriteFailureRows(sheet, stats);
  }

  /** The title, the three totals and the header of the failure table. */
  method WriteStatsHead(sheet: Sheet, stats: ExcelStats)
    requires sheet.cells == map[]
    modifies sheet
    ensures sheet.cells == StatsHead(stats)
    ensures sheet.name == old(sheet.name) && sheet.widths == old(sheet.widths)
    ensures sheet.heights == old(sheet.heights)
  {
    sheet.SetCell(1, 1, Text("Estadísticas de Conversión"));
    sheet.SetCell(3, 1, Text("Total Procesados:"));
    sheet.SetCell(3, 2, Number(stats.totalProcesados));
    sheet.SetCell(4, 1, Text("Total Exitosos:"));
    sheet.SetCell(4, 2, Number(stats.totalExitosos));
    sheet.SetCell(5, 1, Text("Total Fallidos:"));
    sheet.SetCell(5, 2, Number(stats.totalFallidos));
    sheet.SetCell(7, 1, Text("Archivos Fallidos"));
    sheet.SetCell(8, 1, Text("Nombre Archivo"));
    sheet.SetCell(8, 2, Text("Error"));
  }

  /** One row per failure, below the table header. */
  method WriteFailureRows(sheet: Sheet, stats: ExcelStats)
    requires sheet.cells == StatsHead(stats)
    modifies sheet
    ensures sheet.cells == StatsCells(stats)
    ensures sheet.name == old(sheet.name) && sheet.widths == old(sheet.widths)
    ensures sheet.heights == old(sheet.heights)
  {
    var row := FirstFailureRow;
    var k := 0;
    while k < |stats.fallidos|
      invariant 0 <= k <= |stats.fallidos| && row == FirstFailureRow + k
      invariant sheet.cells == StatsHead(stats) + FailureRows(stats.fallidos, k)
      invariant sheet.name == old(sheet.name) && sheet.widths == old(sheet.widths)
      invariant sheet.heights == old(sheet.heights)
    {
      var fallo := stats.fallidos[k];
      var cleanError := StripHtmlTags(fallo.error);
      MergeUpdate(StatsHead(stats), FailureRows(stats.fallidos, k), (row, 1), Text(fallo.fileName));
      sheet.SetCell(row, 1, Text(fallo.fileName));
      MergeUpdate(StatsHead(stats), FailureRows(stats.fallidos, k)[(row, 1) := Text(fallo.fileName)], (row, 2), Text(cleanError));
      sheet.SetCell(row, 2, Text(cleanError));
      row := row + 1;
      k := k + 1;
    }
  }

  // ---------------------------------------------------------------------
  // The file name
  // ---------------------------------------------------------------------

  /** The name with ".xlsx" appended unless it already ends with it. */
  function XlsxName(name: string): (n: string)
    ensures EndsWith(n, ".xlsx")
    ensures n == name || n == name + ".xlsx"
    ensures EndsWith(name, ".xlsx") ==> n == name
  {
    if EndsWith(name, ".xlsx") then name
    else
      var n := name + ".xlsx";
      assert n[|n| - 5..] == ".xlsx";
      n
  }

  /** `encodeURIComponent` of the sanitised name with its extension. */
  function EncodedName(fileName: string): string {
    Uri.EncodeUriComponent(XlsxName(PdfUtils.SanitizarNombre(fileName)))
  }

  /** Appending the extension keeps a name made of name characters. */
  lemma XlsxNameChars(name: string)
    requires All(name, PdfUtils.IsNameChar)
    ensures All(XlsxName(name), PdfUtils.IsNameChar)
  {
    var n := XlsxName(name);
    if n != name {
      forall i | 0 <= i < |n| ensures PdfUtils.IsNameChar(n[i]) {
        if i >= |name| {
          assert n[i] == ".xlsx"[i - |name|];
        }
      }
    }
  }

  /** The encoded name decodes to a sanitised name that ends in ".xlsx"
      and holds only letters, digits, whitespace and `-_().`. */
  lemma EncodedNameDecodes(fileName: string)
    ensures var name := XlsxName(PdfUtils.SanitizarNombre(fileName));
      && Uri.Decode(EncodedName(fileName)) == Uri.Utf8Bytes(name)
      && EndsWith(name, ".xlsx")
      && All(name, PdfUtils.IsNameChar)
  {
    var s := PdfUtils.SanitizarNombre(fileName);
    Uri.DecodeEncode(XlsxName(s));
    XlsxNameChars(s);
  }

  // ---------------------------------------------------------------------
  // generateExcel
  // ---------------------------------------------------------------------

  /** Reshaping keeps keys distinct. */
  lemma TransformDistinct(format: Option<PdfUtils.PdfFormat>, r: Record)
    requires DistinctKeys(r)
    ensures DistinctKeys(Transform(format, r))
  {
    if format == Some(PdfUtils.CertificadoDeHomologacion) {
      HomologacionStepDistinct(r);
    } else if format == Some(PdfUtils.PermisoCirculacion) {
      PlateStepDistinct(r, PlacaUnica);
    } else if format == Some(PdfUtils.SoapFormat) {
      PlateStepDistinct(r, Inscripcion);
      var a := PlateStep(r, Inscripcion);
      HyphenStepDistinct(a, Patente);
      HyphenStepDistinct(HyphenStep(a, Patente), PlacaUnica);
    } else {
      SimpleStepDistinct(r, Patente);
      var a := SimpleStep(r, Patente);
      SimpleStepDistinct(a, PlacaUnica);
      SimpleStepDistinct(SimpleStep(a, PlacaUnica), Inscripcion);
    }
  }

  lemma HomologacionStepDistinct(r: Record)
    requires DistinctKeys(r)
    ensures DistinctKeys(HomologacionStep(r))
  {
  }

  lemma PlateStepDistinct(r: Record, key: string)
    requires DistinctKeys(r)
    ensures DistinctKeys(PlateStep(r, key))
  {
  }

  lemma HyphenStepDistinct(r: Record, key: string)
    requires DistinctKeys(r)
    ensures DistinctKeys(HyphenStep(r, key))
  {
  }

  lemma SimpleStepDistinct(r: Record, key: string)
    requires DistinctKeys(r)
    ensures DistinctKeys(SimpleStep(r, key))
  {
  }

  /** The records the data sheet shows: reshaped, reordered, with the
      check digit forced. */
  function Exported(format: Option<PdfUtils.PdfFormat>, registros: seq<Record>): seq<Record> {
    Forced(seq(|registros|, i requires 0 <= i < |registros| => Ordered(format, Transform(format, registros[i]))))
  }

  lemma ExportedFrom(format: Option<PdfUtils.PdfFormat>, original: seq<Record>,
                     transformed: seq<Record>, ordered: seq<Record>)
    requires |transformed| == |original| == |ordered|
    requires forall i :: 0 <= i < |original| ==> transformed[i] == Transform(format, original[i])
    requires forall i :: 0 <= i < |original| ==> ordered[i] == Ordered(format, transformed[i])
    ensures Forced(ordered) == Exported(format, original)
  {
    assert ordered == seq(|original|, i requires 0 <= i < |original| => Ordered(format, Transform(format, original[i])));
  }

  /** The record pass of `generateExcel`: the records are reshaped in
      place, then reordered into new records whose check digit is forced. */
  method PrepareRecords(pdfFormat: Option<PdfUtils.PdfFormat>, registros: array<Record>)
    returns (rs: seq<Record>)
    requires forall i :: 0 <= i < registros.Length ==> DistinctKeys(registros[i])
    modifies registros
    ensures forall i :: 0 <= i < registros.Length ==> registros[i] == Transform(pdfFormat, old(registros[i]))
    ensures rs == Exported(pdfFormat, old(registros[..]))
  {
    TransformRegistros(pdfFormat, registros);
    forall i | 0 <= i < registros.Length ensures DistinctKeys(registros[i]) {
      TransformDistinct(pdfFormat, old(registros[i]));
    }
    var ordered := OrderRegistros(pdfFormat, registros[..]);
    var orderedRegistros := new Record[|ordered|](i requires 0 <= i < |ordered| => ordered[i]);
    assert orderedRegistros[..] == ordered;
    ForceCheckDigit(orderedRegistros);
    rs := orderedRegistros[..];
    ExportedFrom(pdfFormat, old(registros[..]), registros[..], ordered);
  }

  /** The column widths and row heights of the data sheet: none for the
      placeholder, otherwise one width per header and one height per
      record row, as `adjustColumnWidths` and `adjustRowHeights` set them. */
  predicate SheetSizes(rs: seq<Record>, widths: map<nat, real>, heights: map<nat, nat>) {
    if rs == [] then widths == map[] && heights == map[]
    else
      && widths == ColumnUtils.Widths(Headers(rs), rs, |Headers(rs)|)
      && heights == RowUtils.Heights(DataSheetCells(Headers(rs), rs), |rs|)
  }

  /** `workbook.sheet(0).name("Datos")` filled with the records. */
  method NewDataSheet(rs: seq<Record>) returns (sheet: Sheet)
    ensures fresh(sheet) && sheet.name == "Datos"
    ensures sheet.cells == DataSheetCells(Headers(rs), rs)
    ensures SheetSizes(rs, sheet.widths, sheet.heights)
  {
    sheet := new Sheet("Datos");
    var headers := CollectHeaders(rs);
    WriteDataSheet(sheet, headers, rs);
    MergeEmpty(DataSheetCells(headers, rs));
    if rs != [] {
      MergeEmpty(ColumnUtils.Widths(headers, rs, |headers|));
      MergeEmpty(RowUtils.Heights(sheet.cells, |rs|));
    }
  }

  /** `workbook.addSheet("Estadisticas")` filled with the statistics. */
  method NewStatsSheet(stats: ExcelStats) returns (sheet: Sheet)
    ensures fresh(sheet) && sheet.name == "Estadisticas"
    ensures sheet.cells == StatsCells(stats)
  {
    sheet := new Sheet("Estadisticas");
    WriteStatsSheet(sheet, stats);
  }

  /** The workbook of `generateExcel` for records already prepared. */
  method BuildWorkbook(rs: seq<Record>, fileName: string, stats: Option<ExcelStats>)
    returns (dataSheet: Sheet, statsSheet: Option<Sheet>, encodedName: string)
    ensures fresh(dataSheet) && dataSheet.name == "Datos"
    ensures dataSheet.cells == DataSheetCells(Headers(rs), rs)
    ensures SheetSizes(rs, dataSheet.widths, dataSheet.heights)
    ensures statsSheet.Some? <==> stats.Some?
    ensures statsSheet.Some? ==>
      && fresh(statsSheet.value) && statsSheet.value.name == "Estadisticas"
      && statsSheet.value.cells == StatsCells(stats.value)
    ensures encodedName == EncodedName(fileName)
  {
    dataSheet := NewDataSheet(rs);
    if stats.Some? {
      var sheet := NewStatsSheet(stats.value);
      statsSheet := Some(sheet);
    } else {
      statsSheet := None;
    }
    var finalFileName := PdfUtils.SanitizarNombre(fileName);
    encodedName := Uri.EncodeUriComponent(if EndsWith(finalFileName, ".xlsx") then finalFileName else finalFileName + ".xlsx");
  }

  /** `generateExcel(registros, fileName, pdfFormat, stats)`: the records
      are reshaped in place, the data sheet is laid out from their
      reordered copies, the statistics sheet is added only when `stats`
      is given, and the encoded name is returned. */
  method GenerateExcel(registros: array<Record>, fileName: string,
                       pdfFormat: Option<PdfUtils.PdfFormat>, stats: Option<ExcelStats>)
    returns (dataSheet: Sheet, statsSheet: Option<Sheet>, encodedName: string)
    requires forall i :: 0 <= i < registros.Length ==> DistinctKeys(registros[i])
    modifies registros
    ensures forall i :: 0 <= i < registros.Length ==> registros[i] == Transform(pdfFormat, old(registros[i]))
    ensures fresh(dataSheet) && dataSheet.name == "Datos"
    ensures var rs := Exported(pdfFormat, old(registros[..]));
      dataSheet.cells == DataSheetCells(Headers(rs), rs)
    ensures SheetSizes(Exported(pdfFormat, old(registros[..])), dataSheet.widths, dataSheet.heights)
    ensures statsSheet.Some? <==> stats.Some?
    ensures statsSheet.Some? ==>
      && fresh(statsSheet.value) && statsSheet.value.name == "Estadisticas"
      && statsSheet.value.cells == StatsCells(stats.value)
    ensures encodedName == EncodedName(fileName)
  {
    var rs := PrepareRecords(pdfFormat, registros);
    dataSheet, statsSheet, encodedName := BuildWorkbook(rs, fileName, stats);
  }
}
