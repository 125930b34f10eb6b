/** The batch service (src/services/pdfService.ts): every file goes
    through the document pipeline, one progress event is emitted per
    file, the outcomes are kept in submission order, and the successes
    are turned into the rows of the export. The concurrency gate and the
    batches' `Promise.all` are modelled as one sequential pass; the clock
    is a parameter giving the elapsed milliseconds at each completion. */
module PdfService {
  import opened Wrappers
  import opened Text
  import opened Records
  import opened Matching
  import opened Sheets
  import PdfUtils
  import ExcelUtils

  /** A submitted file: its name and what the PDF parser makes of its
      bytes (the text, or the parser's error message). */
  datatype PdfFile = PdfFile(name: string, parsed: Result<string, string>)

  /** `ConversionSuccess`. */
  datatype ConversionSuccess = ConversionSuccess(
    fileName: string,
    datos: Record,
    titulo: Option<string>,
    regexes: Option<seq<(string, Pattern)>>)

  /** `SettledResult`: fulfilled with the conversion, or rejected with the
      file name and the (highlighted) error message. */
  datatype Settled = Fulfilled(value: ConversionSuccess) | Rejected(fileName: string, error: string)

  /** The object passed to `onEvent` after each file. */
  datatype ProgressEvent = ProgressEvent(
    progress: nat,
    total: nat,
    file: string,
    fulfilled: bool,
    error: Option<string>,
    estimatedMsLeft: nat,
    elapsedMsSoFar: nat,
    successes: nat,
    failures: nat)

  const BatchSize: nat := 100
  const DefaultConcurrency: nat := 15

  // ---------------------------------------------------------------------
  // Error messages
  // ---------------------------------------------------------------------

  const DetectedPhrase: string := "Se detectó " + "que pertenece a:"
  const SpanInner: string := "span style=\"" + "background-color: yellow; " + "font-weight: bold;\""
  const SpanOpen: string := "<" + SpanInner + ">"
  const SpanClose: string := "<" + "/span" + ">"

  /** `error.message || "Error desconocido"`. */
  function ErrorText(message: string): (r: string)
    ensures r != ""
    ensures message != "" ==> r == message
  {
    if message == "" then "Error desconocido" else message
  }

  /** The line terminators end `(.*)`. */
  predicate NotLineTerminator(c: char) { !IsLineTerminator(c) }

  /** `errorMsg.replace(/Se detectó que pertenece a:\s*(.*)/, '<span …>Se detectó que pertenece a: $1</span>')`:
      the first occurrence of the phrase, the whitespace after it (line
      breaks included) and the rest of that line are replaced by the
      phrase, one space and that rest, inside the highlighting span. A
      message without the phrase is left alone. */
  function Highlight(msg: string): (r: string)
    ensures !Contains(msg, DetectedPhrase) ==> r == msg
  {
    var found := IndexOf(msg, DetectedPhrase);
    if found.None? then msg else HighlightAt(msg, found.value)
  }

  /** The replacement once the phrase has been found at `i`. */
  function HighlightAt(msg: string, i: nat): (r: string)
    requires i + |DetectedPhrase| <= |msg|
    ensures |r| > |SpanOpen|
  {
    var rest := msg[i + |DetectedPhrase|..];
    var ws := Span(rest, IsWhitespace);
    var line := Span(rest[ws..], NotLineTerminator);
    Wrapped(msg[..i], rest[ws..][..line], rest[ws..][line..])
  }

  /** `before`, the highlighted phrase followed by `shown`, then `after`. */
  function Wrapped(before: string, shown: string, after: string): string {
    before + SpanOpen + DetectedPhrase + " " + shown + SpanClose + after
  }

  /** The highlighting span holds no `>` inside its opening tag. */
  lemma SpanInnerPlain()
    ensures '>' !in SpanInner
  {
    assert '>' !in "span style=\"";
    assert '>' !in "background-color: yellow; ";
    assert '>' !in "font-weight: bold;\"";
  }

  /** The phrase holds no `<`. */
  lemma PhrasePlain()
    ensures '<' !in DetectedPhrase + " "
  {
    assert '<' !in "Se detectó ";
    assert '<' !in "que pertenece a:";
  }

  /** Stripping removes a complete span around plain words. */
  lemma StripSpan(words: string, after: string)
    requires '<' !in words
    ensures ExcelUtils.StripHtmlTags(SpanOpen + words + SpanClose + after)
         == words + ExcelUtils.StripHtmlTags(after)
  {
    SpanInnerPlain();
    assert SpanOpen + words + SpanClose + after == "<" + SpanInner + ">" + (words + ("<" + "/span" + ">" + after));
    ExcelUtils.StripTag(SpanInner, words + ("<" + "/span" + ">" + after));
    ExcelUtils.StripPlainPrefix(words, "<" + "/span" + ">" + after);
    ExcelUtils.StripTag("/span", after);
  }

  /** Stripping the tags from a highlighted message whose pieces hold no
      `<` leaves the pieces and the phrase, as plain text. */
  lemma WrappedStripped(before: string, shown: string, after: string)
    requires '<' !in before && '<' !in shown && '<' !in after
    ensures ExcelUtils.StripHtmlTags(Wrapped(before, shown, after))
         == before + DetectedPhrase + " " + shown + after
  {
    var words := DetectedPhrase + " " + shown;
    PhrasePlain();
    assert '<' !in words;
    var span := SpanOpen + words + SpanClose + after;
    WrappedAssoc(before, shown, after);
    ExcelUtils.StripPlainPrefix(before, span);
    StripSpan(words, after);
    ExcelUtils.StripWithoutTags(after);
    JoinPieces(before, DetectedPhrase, shown, after);
  }

  lemma JoinPieces(before: string, phrase: string, shown: string, after: string)
    ensures before + ((phrase + " " + shown) + after) == before + phrase + " " + shown + after
  {
  }

  lemma WrappedAssoc(before: string, shown: string, after: string)
    ensures Wrapped(before, shown, after)
         == before + (SpanOpen + (DetectedPhrase + " " + shown) + SpanClose + after)
  {
  }

  /** Removing the tags again gives back the message when it held no `<`
      and exactly one space followed the phrase: the statistics sheet
      shows the message the pipeline threw. */
  lemma HighlightStripped(msg: string)
    requires '<' !in msg && Contains(msg, DetectedPhrase)
    requires var rest := msg[IndexOf(msg, DetectedPhrase).value + |DetectedPhrase|..];
      |rest| > 0 && rest[0] == ' ' && (|rest| == 1 || !IsWhitespace(rest[1]))
    ensures ExcelUtils.StripHtmlTags(Highlight(msg)) == msg
  {
    var i := IndexOf(msg, DetectedPhrase).value;
    var rest := msg[i + |DetectedPhrase|..];
    OneSpace(rest);
    var line := Span(rest[1..], NotLineTerminator);
    var shown := rest[1..][..line];
    var after := rest[1..][line..];
    assert Highlight(msg) == Wrapped(msg[..i], shown, after);
    SplitAfterHead(rest, line);
    PlainPieces(msg, i, i + |DetectedPhrase|, shown, after);
    WrappedStripped(msg[..i], shown, after);
    Reassemble(msg, i, DetectedPhrase, rest, shown, after);
  }

  /** A text is its first character, then its next `k` characters, then
      the remainder. */
  lemma SplitAfterHead(s: string, k: nat)
    requires 0 < |s| && k <= |s| - 1
    ensures s == [s[0]] + s[1..][..k] + s[1..][k..]
  {
    assert s == [s[0]] + s[1..];
    assert s[1..] == s[1..][..k] + s[1..][k..];
  }

  /** `\s*` takes exactly the one space. */
  lemma OneSpace(rest: string)
    requires |rest| > 0 && rest[0] == ' ' && (|rest| == 1 || !IsWhitespace(rest[1]))
    ensures Span(rest, IsWhitespace) == 1
  {
    if |rest| > 1 {
      assert rest[1..][0] == rest[1];
    }
  }

  /** The pieces of a message without `<` hold none either. */
  lemma PlainPieces(msg: string, i: nat, j: nat, shown: string, after: string)
    requires '<' !in msg && i <= j <= |msg| && msg[j..] == [' '] + shown + after
    ensures '<' !in msg[..i]
    ensures '<' !in shown && '<' !in after
  {
    forall c | c in msg[..i] ensures c != '<' {
      assert c in msg;
    }
    forall c | c in shown ensures c != '<' {
      assert c in msg[j..];
    }
    forall c | c in after ensures c != '<' {
      assert c in msg[j..];
    }
  }

  /** A message cut around an occurrence of `phrase` at `i`. */
  lemma Reassemble(msg: string, i: nat, phrase: string, rest: string, shown: string, after: string)
    requires OccursAt(msg, phrase, i) && rest == msg[i + |phrase|..] && rest == [' '] + shown + after
    ensures msg[..i] + phrase + " " + shown + after == msg
  {
    assert msg == msg[..i] + msg[i..i + |phrase|] + msg[i + |phrase|..];
  }

  // ---------------------------------------------------------------------
  // The batch
  // ---------------------------------------------------------------------

  /** The outcome of one file: `procesarPDF` and the catch around it. */
  function Settle(m: Oracle, file: PdfFile, pdfFormat: PdfUtils.PdfFormat, returnRegex: bool): (s: Settled)
    ensures s.Fulfilled? ==> s.value.fileName == file.name
    ensures s.Rejected? ==> s.fileName == file.name && s.error != ""
  {
    var r := PdfUtils.Process(m, file.parsed, file.name, Some(pdfFormat), returnRegex);
    if r.Success? then
      Fulfilled(ConversionSuccess(file.name, r.value.datos, r.value.titulo, r.value.regexes))
    else
      Rejected(file.name, Highlight(ErrorText(r.error)))
  }

  /** The number of fulfilled outcomes. */
  function Successes(results: seq<Settled>): (n: nat)
    ensures n <= |results|
    ensures n == |results| <==> forall i :: 0 <= i < |results| ==> results[i].Fulfilled?
    ensures n == 0 <==> forall i :: 0 <= i < |results| ==> results[i].Rejected?
  {
    if results == [] then 0
    else Successes(results[..|results| - 1]) + (if results[|results| - 1].Fulfilled? then 1 else 0)
  }

  /** `Math.round(elapsed / processed * remaining)`, for non-negative
      whole milliseconds: half-up rounding of the exact quotient. */
  function Estimate(elapsed: nat, processed: nat, total: nat): (ms: nat)
    requires 0 < processed <= total
    ensures processed == total ==> ms == 0
  {
    var remaining := total - processed;
    (2 * elapsed * remaining + processed) / (2 * processed)
  }

  /** The event emitted after the `k`-th completion (counting from 1),
      once `results` holds the first `k` outcomes. */
  function EventAt(results: seq<Settled>, files: seq<PdfFile>, k: nat, elapsedAt: nat -> nat): ProgressEvent
    requires 0 < k <= |results| <= |files|
  {
    var s := results[k - 1];
    var successes := Successes(results[..k]);
    ProgressEvent(
      k, |files|, files[k - 1].name, s.Fulfilled?,
      if s.Rejected? then Some(s.error) else None,
      Estimate(elapsedAt(k), k, |files|), elapsedAt(k),
      successes, k - successes)
  }

  /** `results` holds the outcomes of the first `|results|` files, in
      order, `settle` being the work done for one file. */
  ghost predicate SettledInOrder(settle: PdfFile -> Settled, files: seq<PdfFile>, results: seq<Settled>) {
    && |results| <= |files|
    && forall j :: 0 <= j < |results| ==> results[j] == settle(files[j])
  }

  /** One event per outcome so far, each as `EventAt` describes it. */
  ghost predicate Reported(files: seq<PdfFile>, elapsedAt: nat -> nat, results: seq<Settled>, events: seq<ProgressEvent>)
  {
    && |results| == |events| <= |files|
    && forall k :: 0 <= k < |events| ==> events[k] == EventAt(results, files, k + 1, elapsedAt)
  }

  /** `processPDFFiles`: the files are taken in batches of 100, each file
      is settled and reported by one event, and the outcomes are
      collected in submission order. */
  method ProcessPDFFiles(m: Oracle, files: seq<PdfFile>, pdfFormat: PdfUtils.PdfFormat,
                         returnRegex: bool, elapsedAt: nat -> nat)
    returns (results: seq<Settled>, events: seq<ProgressEvent>)
    ensures |results| == |files| && |events| == |files|
    ensures forall i :: 0 <= i < |files| ==> results[i] == Settle(m, files[i], pdfFormat, returnRegex)
    ensures forall k :: 0 <= k < |events| ==> events[k] == EventAt(results, files, k + 1, elapsedAt)
  {
    var processFile := file => Settle(m, file, pdfFormat, returnRegex);
    var successesCount := 0;
    var failuresCount := 0;
    results := [];
    events := [];
    var i := 0;
    while i < |files|
      invariant i == |results| <= |files|
      invariant SettledInOrder(processFile, files, results)
      invariant Reported(files, elapsedAt, results, events)
      invariant successesCount == Successes(results) && failuresCount == i - successesCount
      decreases |files| - i
    {
      var batchEnd := if i + BatchSize < |files| then i + BatchSize else |files|;
      results, events, successesCount, failuresCount :=
        ProcessBatch(processFile, files, batchEnd, elapsedAt, results, events, successesCount, failuresCount);
      i := batchEnd;
    }
  }

  /** One batch: the files from `|results|` up to `batchEnd`. */
  method ProcessBatch(settle: PdfFile -> Settled, files: seq<PdfFile>, batchEnd: nat, elapsedAt: nat -> nat,
                      results0: seq<Settled>, events0: seq<ProgressEvent>, successes0: nat, failures0: nat)
    returns (results: seq<Settled>, events: seq<ProgressEvent>, successesCount: nat, failuresCount: nat)
    requires |results0| <= batchEnd <= |files|
    requires SettledInOrder(settle, files, results0)
    requires Reported(files, elapsedAt, results0, events0)
    requires successes0 == Successes(results0) && failures0 == |results0| - successes0
    ensures |results| == batchEnd
    ensures SettledInOrder(settle, files, results)
    ensures Reported(files, elapsedAt, results, events)
    ensures successesCount == Successes(results) && failuresCount == batchEnd - successesCount
  {
    results, events, successesCount, failuresCount := results0, events0, successes0, failures0;
    var batch := files[|results0|..batchEnd];
    var b := 0;
    while b < |batch|
      invariant 0 <= b <= |batch| && |results| == |results0| + b
      invariant SettledInOrder(settle, files, results)
      invariant Reported(files, elapsedAt, results, events)
      invariant successesCount == Successes(results) && failuresCount == |results| - successesCount
    {
      var file := batch[b];
      results, events, successesCount, failuresCount :=
        ProcessOne(settle, files, file, elapsedAt, results, events, successesCount, failuresCount);
      b := b + 1;
    }
  }

  /** The work done for one file: settle it, count it, report it. */
  method ProcessOne(settle: PdfFile -> Settled, files: seq<PdfFile>, file: PdfFile, elapsedAt: nat -> nat,
                    results0: seq<Settled>, events0: seq<ProgressEvent>, successes0: nat, failures0: nat)
    returns (results: seq<Settled>, events: seq<ProgressEvent>, successesCount: nat, failuresCount: nat)
    requires |results0| < |files| && file == files[|results0|]
    requires SettledInOrder(settle, files, results0)
    requires Reported(files, elapsedAt, results0, events0)
    requires successes0 == Successes(results0) && failures0 == |results0| - successes0
    ensures results == results0 + [settle(file)]
    ensures SettledInOrder(settle, files, results)
    ensures Reported(files, elapsedAt, results, events)
    ensures successesCount == Successes(results) && failuresCount == |results| - successesCount
  {
    var totalFiles := |files|;
    var settled := settle(file);
    var processedCount := |results0| + 1;
    if settled.Fulfilled? {
      successesCount, failuresCount := successes0 + 1, failures0;
    } else {
      successesCount, failuresCount := successes0, failures0 + 1;
    }
    var elapsedMsSoFar := elapsedAt(processedCount);
    var estimatedMsLeft := Estimate(elapsedMsSoFar, processedCount, totalFiles);
    var event := ProgressEvent(
      processedCount, totalFiles, file.name, settled.Fulfilled?,
      if settled.Rejected? then Some(settled.error) else None,
      estimatedMsLeft, elapsedMsSoFar, successesCount, failuresCount);
    results := results0 + [settled];
    events := events0 + [event];
    NextRecorded(settle, files, elapsedAt, results0, events0, successesCount, event);
  }

  /** Settling and reporting the next file keeps the outcomes in order
      and every event as `EventAt` describes it. */
  lemma NextRecorded(settle: PdfFile -> Settled, files: seq<PdfFile>, elapsedAt: nat -> nat,
                     results: seq<Settled>, events: seq<ProgressEvent>, n: nat, event: ProgressEvent)
    requires |results| < |files|
    requires SettledInOrder(settle, files, results)
    requires Reported(files, elapsedAt, results, events)
    requires var s := settle(files[|results|]);
      && n == Successes(results) + (if s.Fulfilled? then 1 else 0)
      && event == ProgressEvent(|results| + 1, |files|, files[|results|].name, s.Fulfilled?,
                                if s.Rejected? then Some(s.error) else None,
                                Estimate(elapsedAt(|results| + 1), |results| + 1, |files|),
                                elapsedAt(|results| + 1), n, |results| + 1 - n)
    ensures var rs := results + [settle(files[|results|])];
      && SettledInOrder(settle, files, rs)
      && Reported(files, elapsedAt, rs, events + [event])
      && n == Successes(rs)
  {
    var s := settle(files[|results|]);
    var rs := results + [s];
    SuccessesSnoc(results, s);
    NextEvent(files, elapsedAt, results, s);
    assert event == EventAt(rs, files, |rs|, elapsedAt);
    NextReported(files, elapsedAt, results, events, s);
    assert events + [event] == events + [EventAt(rs, files, |rs|, elapsedAt)];
    NextSettled(settle, files, results);
  }

  lemma NextSettled(settle: PdfFile -> Settled, files: seq<PdfFile>, results: seq<Settled>)
    requires SettledInOrder(settle, files, results) && |results| < |files|
    ensures SettledInOrder(settle, files, results + [settle(files[|results|])])
  {
    var rs := results + [settle(files[|results|])];
    forall j | 0 <= j < |rs| ensures rs[j] == settle(files[j]) {
      if j < |results| {
        assert rs[j] == results[j];
      }
    }
  }

  /** The event for the next outcome carries the counts so far. */
  lemma NextEvent(files: seq<PdfFile>, elapsedAt: nat -> nat, results: seq<Settled>, s: Settled)
    requires |results| < |files|
    ensures var k := |results| + 1;
      var n := Successes(results) + (if s.Fulfilled? then 1 else 0);
      EventAt(results + [s], files, k, elapsedAt)
        == ProgressEvent(k, |files|, files[k - 1].name, s.Fulfilled?,
                         if s.Rejected? then Some(s.error) else None,
                         Estimate(elapsedAt(k), k, |files|), elapsedAt(k), n, k - n)
  {
    var rs := results + [s];
    SuccessesSnoc(results, s);
    assert rs[..|rs|] == rs;
  }

  /** Reporting the next outcome keeps the earlier events. */
  lemma NextReported(files: seq<PdfFile>, elapsedAt: nat -> nat, results: seq<Settled>, events: seq<ProgressEvent>,
                     s: Settled)
    requires Reported(files, elapsedAt, results, events) && |results| < |files|
    ensures Reported(files, elapsedAt, results + [s], events + [EventAt(results + [s], files, |results| + 1, elapsedAt)])
  {
    var rs := results + [s];
    forall k | 0 <= k < |events| ensures events[k] == EventAt(rs, files, k + 1, elapsedAt) {
      assert rs[..k + 1] == results[..k + 1];
    }
  }

  lemma SuccessesSnoc(results: seq<Settled>, s: Settled)
    ensures Successes(results + [s]) == Successes(results) + (if s.Fulfilled? then 1 else 0)
  {
    assert (results + [s])[..|results|] == results;
  }

  /** Every event reports as many successes and failures as files
      processed so far; the last one has no time left and its counts are
      the batch's: N - K successes and K failures. */
  lemma EventCounts(results: seq<Settled>, files: seq<PdfFile>, elapsedAt: nat -> nat)
    requires 0 < |results| == |files|
    ensures forall k :: 1 <= k <= |files| ==>
      EventAt(results, files, k, elapsedAt).successes + EventAt(results, files, k, elapsedAt).failures == k
    ensures var last := EventAt(results, files, |files|, elapsedAt);
      && last.estimatedMsLeft == 0
      && last.successes == |FulfilledValues(results)|
      && last.failures == |files| - |FulfilledValues(results)|
  {
    assert results[..|files|] == results;
    SuccessesCountsFulfilled(results);
  }

  /** The fulfilled outcomes, in order. */
  function FulfilledValues(results: seq<Settled>): (s: seq<ConversionSuccess>)
    ensures |s| <= |results|
    ensures forall v :: v in s <==> Fulfilled(v) in results
  {
    if results == [] then []
    else
      var init := FulfilledValues(results[..|results| - 1]);
      var last := results[|results| - 1];
      if last.Fulfilled? then init + [last.value] else init
  }

  lemma {:induction false} SuccessesCountsFulfilled(results: seq<Settled>)
    ensures Successes(results) == |FulfilledValues(results)|
  {
    if results != [] {
      SuccessesCountsFulfilled(results[..|results| - 1]);
    }
  }

  // ---------------------------------------------------------------------
  // generateExcelFromResults
  // ---------------------------------------------------------------------

  /** The file name of a format, "Consolidado" for any other value. */
  function BaseFileName(pdfFormat: Option<PdfUtils.PdfFormat>): string {
    if pdfFormat == Some(PdfUtils.CertificadoDeHomologacion) then "Certificado de Homologación"
    else if pdfFormat == Some(PdfUtils.CrtFormat) then "Certificado de Revisión Técnica (CRT)"
    else if pdfFormat == Some(PdfUtils.SoapFormat) then "Seguro Obligatorio (SOAP)"
    else if pdfFormat == Some(PdfUtils.PermisoCirculacion) then "Permiso de Circulación"
    else "Consolidado"
  }

  /** The base name of the workbook: the extracted title when there is
      exactly one success and it has a non-empty title, else the format's
      fixed name. */
  function NombreArchivo(successes: seq<ConversionSuccess>, pdfFormat: Option<PdfUtils.PdfFormat>): (n: string)
    ensures (|successes| == 1 && successes[0].titulo.Some? && successes[0].titulo.value != "")
      ==> n == successes[0].titulo.value
    ensures !(|successes| == 1 && successes[0].titulo.Some? && successes[0].titulo.value != "")
      ==> n == BaseFileName(pdfFormat)
  {
    if |successes| == 1 && successes[0].titulo.Some? && successes[0].titulo.value != "" then
      successes[0].titulo.value
    else BaseFileName(pdfFormat)
  }

  /** `{ ...base, ...extra }`: the entries of `extra` assigned in order. */
  function Spread(base: Record, extra: Record): (r: Record)
    ensures DistinctKeys(base) ==> DistinctKeys(r)
    decreases |extra|
  {
    if extra == [] then base else Spread(Put(base, extra[0].0, extra[0].1), extra[1..])
  }

  /** Spreading entries whose keys are new and distinct appends them. */
  lemma {:induction false} SpreadFresh(base: Record, extra: Record)
    requires DistinctKeys(base + extra)
    ensures Spread(base, extra) == base + extra
    decreases |extra|
  {
    if extra != [] {
      var all := base + extra;
      var k := extra[0].0;
      forall j | 0 <= j < |base| ensures Keys(base)[j] != k {
        assert all[j] == base[j] && all[|base|] == extra[0];
      }
      PutAbsent(base, k, extra[0].1);
      assert base + [extra[0]] + extra[1..] == all;
      SpreadFresh(base + [extra[0]], extra[1..]);
    }
  }

  /** `{ "Nombre PDF": r.fileName, ...r.datos }`. */
  function Registro(s: ConversionSuccess): (r: Record)
    ensures DistinctKeys(r)
  {
    Spread([(ExcelUtils.NombrePdf, s.fileName)], s.datos)
  }

  /** A row of the export starts with the file name under "Nombre PDF"
      and continues with the extracted fields, in their order. */
  lemma RegistroShape(s: ConversionSuccess)
    requires DistinctKeys(s.datos) && !Has(s.datos, ExcelUtils.NombrePdf)
    ensures Registro(s) == [(ExcelUtils.NombrePdf, s.fileName)] + s.datos
  {
    var all := [(ExcelUtils.NombrePdf, s.fileName)] + s.datos;
    assert DistinctKeys(all) by {
      forall i, j | 0 <= i < j < |all| ensures all[i].0 != all[j].0 {
        assert all[j] == s.datos[j - 1];
      }
    }
    SpreadFresh([(ExcelUtils.NombrePdf, s.fileName)], s.datos);
  }

  /** `generateExcelFromResults(successes, pdfFormat, stats)`. */
  method GenerateExcelFromResults(successes: seq<ConversionSuccess>, pdfFormat: Option<PdfUtils.PdfFormat>,
                                  stats: Option<ExcelUtils.ExcelStats>)
    returns (dataSheet: Sheet, statsSheet: Option<Sheet>, fileName: string)
    ensures fresh(dataSheet)
    ensures var rs := ExcelUtils.Exported(pdfFormat, seq(|successes|, i requires 0 <= i < |successes| => Registro(successes[i])));
      dataSheet.cells == ExcelUtils.DataSheetCells(ExcelUtils.Headers(rs), rs)
    ensures ExcelUtils.SheetSizes(
      ExcelUtils.Exported(pdfFormat, seq(|successes|, i requires 0 <= i < |successes| => Registro(successes[i]))),
      dataSheet.widths, dataSheet.heights)
    ensures statsSheet.Some? <==> stats.Some?
    ensures statsSheet.Some? ==> fresh(statsSheet.value) && statsSheet.value.cells == ExcelUtils.StatsCells(stats.value)
    ensures fileName == ExcelUtils.EncodedName(NombreArchivo(successes, pdfFormat))
  {
    var nombreArchivo := NombreArchivo(successes, pdfFormat);
    var registros := new Record[|successes|](i requires 0 <= i < |successes| => Registro(successes[i]));
    assert registros[..] == seq(|successes|, i requires 0 <= i < |successes| => Registro(successes[i]));
    dataSheet, statsSheet, fileName := ExcelUtils.GenerateExcel(registros, nombreArchivo, pdfFormat, stats);
  }
}
