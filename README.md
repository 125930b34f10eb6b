# proyecto-pdf-excel, modelled in Dafny

This project models the core of a web tool that turns Chilean vehicle documents into an Excel workbook. The documents come as PDFs: homologation certificates, technical-revision certificates (CRT), compulsory insurance policies (SOAP) and circulation permits.

For each uploaded PDF the tool does four things:
- It detects the format from keywords in the text.
- It rejects a document whose detected format differs from the one the user declared.
- It runs the extractor of the format, which turns the text into an ordered record of named fields.
- It runs the validator of the format, which collects every field that is missing or malformed and rejects the document with one aggregated message.

The batch service processes the files in submission order. It emits one progress event per file with success and failure counters and a time estimate. It highlights the "format detected" part of an error message. The successful records then go to the export. The export reshapes plates and check digits per format, puts the leading columns first, forces a uniform check-digit column and collects the headers in first-seen order. It lays out a data sheet and an optional statistics sheet, and it encodes the workbook's file name. Around this sit:
- the upload checks (size limit, type or extension, "%PDF-" signature);
- the upload hook's state;
- the date, integer and bit parsers;
- the browser's `formatTime`;
- the server-sent-event framing that reads progress back from the conversion endpoint.

Modules, one per source file, plus shared helpers:

- `Wrappers`: `Option` and `Result`
- `Text`: JS string operations: `trim`, `toUpperCase`/`toLowerCase`, `includes`, `split`/`join`, line-break replacement, decimal digits
- `Records`: a JS object as an ordered association list: assignment updates in place or appends, `delete` removes
- `Matching`: the regex layer: one constructor per capture pattern, and an `Oracle` that answers each match; `buscar`
- `Validation`: the validators' error-collecting loop and the aggregated message
- `Sheets`: a worksheet: cells, column widths and row heights
- `Uri`: `encodeURIComponent` and the decoding it is undone by
- `PdfUtils`: `detectarFormato`, `sanitizarNombre`, `procesarPDF`
- `Homologacion`, `Crt`, `Soap`, `Permiso`: the four extractors and validators
- `ExcelUtils`, `ColumnUtils`, `RowUtils`: `generateExcel`, `setColumnWidths`, `adjustRowHeights`
- `PdfService`: `processPDFFiles`, `generateExcelFromResults`
- `ParseUtils`, `FileUtils`: `parseDate`, `parseIntOrNull`, `parseBit`; the upload checks
- `UseFileUpload`: the `useFileUpload` hook as a class
- `Page`: `formatTime` and the event-stream reader of the upload page

Where the code and its tests disagree, the model follows the code:
- The CRT test expects a "Válido Hasta" key, but the code produces "Válido Hasta Revisión Técnica" and "Válido Hasta Contaminantes" and throws when a section title is missing.
- The permit and SOAP tests expect warnings, but the validators throw.
- The SOAP test expects the policy "POL123", but the policy pattern requires a hyphen.
- The export test expects an empty record list to be rejected, but `generateExcel` writes a placeholder in A1.

## Model

| member | source | states |
|---|---|---|
| `Matching.Buscar` | src/utils/pdf/pdfUtils.ts:18-21 | null exactly when there is no match, group 1 is absent or group 1 is empty; otherwise the group trimmed, no longer than the group |
| `Matching.BuscarTrimsGroup` | src/utils/pdf/pdfUtils.ts:20 | the value found is the group with only surrounding whitespace removed, and is the group itself when that is already trimmed |
| `Matching.Field` | src/extractors/homologacionExtractor.ts:5 | `buscar(...) \|\| ""`: "" when the pattern does not match, always trimmed |
| `PdfUtils.DetectarFormato` | src/utils/pdf/pdfUtils.ts:73-80 | a detected format has a keyword in the upper-cased text and no format tested before it has one; "DESCONOCIDO" exactly when no format has a keyword |
| `PdfUtils.DetectionIgnoresCase` | src/utils/pdf/pdfUtils.ts:74 | upper-casing the text first changes nothing |
| `PdfUtils.HomologationTitleWins` | src/utils/pdf/pdfUtils.ts:75 | a text containing "CERTIFICADO DE HOMOLOGACIÓN", in any letter case, is homologation whatever else it contains |
| `PdfUtils.StripAccents` | src/utils/pdf/pdfUtils.ts:60-61 | no combining mark is left, and the text never grows |
| `PdfUtils.StripAccentsUnmarked` | src/utils/pdf/pdfUtils.ts:60-61 | text without combining marks keeps its length, each character replaced by its base letter |
| `PdfUtils.StripAccentsPlain` | src/utils/pdf/pdfUtils.ts:60-61 | text with no accented letter and no combining mark is left unchanged |
| `PdfUtils.ReplaceOthers` | src/utils/pdf/pdfUtils.ts:62 | same length; only letters, digits, whitespace and `-_().` remain; each character is kept or, when it is not one of those, replaced by "_" |
| `PdfUtils.DropTrailingA` | src/utils/pdf/pdfUtils.ts:64 | the name changes exactly when it ends in whitespace followed by "A", and then becomes what precedes that whitespace run; the result is a trimmed prefix |
| `PdfUtils.SanitizarNombre` | src/utils/pdf/pdfUtils.ts:58-66 | the sanitised name holds only letters, digits, whitespace and `-_().`, has no combining mark and no surrounding whitespace |
| `PdfUtils.Titulo` | src/utils/pdf/pdfUtils.ts:118 | a title exists exactly when the title pattern matches with its group, and it is trimmed |
| `PdfUtils.ProcesarPDF` | src/utils/pdf/pdfUtils.ts:89-139 | the step-by-step `procesarPDF` returns exactly the outcome the pipeline specification `Process` defines |
| `PdfUtils.MismatchRejected` | src/utils/pdf/pdfUtils.ts:101-107 | a declared format that differs from the detected one is rejected with a message naming both, "Formato Desconocido" for an unknown detection |
| `PdfUtils.UnknownRejected` | src/utils/pdf/pdfUtils.ts:134-135 | with no declared format, an unrecognised text is rejected with "no pudo ser identificado" and nothing is extracted |
| `PdfUtils.ProcessedIsValidated` | src/utils/pdf/pdfUtils.ts:114-133 | a success means a detected format that agrees with the declared one, the extractor's record and a passing validator; a failing validator's message is the outcome |
| `PdfUtils.TitleAndPatternsOnlyInTheirBranch` | src/utils/pdf/pdfUtils.ts:118-138 | the title is set only for homologation; the pattern table is returned exactly for a permit with `returnRegex`, and it is the extractor's table |
| `Homologacion.FieldsDistinct` | src/extractors/homologacionExtractor.ts:4-30 | the thirteen field names are distinct |
| `Homologacion.CleanPlate` | src/extractors/homologacionExtractor.ts:11 | no hyphen or whitespace remains and nothing is added |
| `Homologacion.PatenteValue` | src/extractors/homologacionExtractor.ts:8-14 | the plate is the first min(6, length) characters of the cleaned value, so at most 6 and free of hyphens and whitespace |
| `Homologacion.MotorValue` | src/extractors/homologacionExtractor.ts:22-25 | the motor number is trimmed and no longer than the capture |
| `Homologacion.MotorValueDropsSuffix` | src/extractors/homologacionExtractor.ts:24 | a trailing whitespace-preceded "C" or "El", in any case, is dropped and the rest trimmed |
| `Homologacion.MotorValueWithoutSuffix` | src/extractors/homologacionExtractor.ts:24 | without such a suffix the motor number is the capture trimmed |
| `Homologacion.FirstDate` | src/extractors/homologacionExtractor.ts:28 | the position found holds a dd/dd/dddd token and no earlier position does |
| `Homologacion.FirmadoValue` | src/extractors/homologacionExtractor.ts:26-29 | the signer is trimmed and holds no date; with no date it is the capture trimmed |
| `Homologacion.FirmadoCutsAtDate` | src/extractors/homologacionExtractor.ts:28 | a name followed by a date is cut to the name, trimmed |
| `Homologacion.ExtraerDatosHomologacion` | src/extractors/homologacionExtractor.ts:3-31 | the record has exactly the thirteen keys in declaration order; "Patente" has at most 6 characters and no hyphen or whitespace; "Firmado por" holds no date |
| `Homologacion.ExtractedValues` | src/extractors/homologacionExtractor.ts:4-30 | every value is trimmed, and a field whose pattern does not match is "" |
| `Homologacion.GetExtracted` | src/extractors/homologacionExtractor.ts:4-30 | looking up field i gives that field's extracted value |
| `Homologacion.Check` | src/extractors/homologacionExtractor.ts:53-58 | a field passes exactly when it is non-empty and its trimmed value has its format; an empty field gets "Falta el campo" |
| `Homologacion.BestEffortValidationHomologacion` | src/extractors/homologacionExtractor.ts:33-64 | the validator loop gives the verdict over the errors in declaration order, and passes exactly when every field is present and well formed |
| `Homologacion.PatenteFormatIff` | src/extractors/homologacionExtractor.ts:8-39 | the extracted plate passes `^[A-Z0-9]{6}$` exactly when the cleaned capture has at least 6 characters and its first 6 are alphanumeric |
| `Homologacion.PatenteCheckIff` | src/extractors/homologacionExtractor.ts:8-39 | the same, stated for the extractor's record and the validator's check |
| `Homologacion.MissingFieldRejected` | src/extractors/homologacionExtractor.ts:54-63 | a missing field rejects the document, and the message names it |
| `Crt.FieldsDistinct` | src/extractors/crtExtractor.ts:26-74 | the six extracted keys, and the seven output keys, are distinct |
| `Crt.ValidoValue` | src/extractors/crtExtractor.ts:64-69 | a "Válido Hasta" value is trimmed |
| `Crt.ValidoValueOfMonthYear` | src/extractors/crtExtractor.ts:56-69 | when the mandatory month-year group is present and well formed, the value is that group |
| `Crt.ValuesInOrder` | src/extractors/crtExtractor.ts:26-74 | the six values are, in order, the date, plant, plate, the two "Válido Hasta" values and the folio |
| `Crt.FillFixed` | src/extractors/crtExtractor.ts:26-35 | the date, plant and plate stored into the empty object are its first three keys, in that order |
| `Crt.FillDates` | src/extractors/crtExtractor.ts:64-74 | the two "Válido Hasta" values and the folio are appended after the first three fields, in that order |
| `Crt.StoreFixed` | src/extractors/crtExtractor.ts:26-35 | the first three assignments give the first three fields in order |
| `Crt.StoreDates` | src/extractors/crtExtractor.ts:64-74 | the last three assignments append the last three fields in order |
| `Crt.Extraction` | src/extractors/crtExtractor.ts:21-80 | a record has exactly the six keys in order; a failure is one of the two messages |
| `Crt.ExtraerDatosCRT` | src/extractors/crtExtractor.ts:21-80 | the step-by-step extractor returns exactly `Extraction` |
| `Crt.ExtractionFailsIff` | src/extractors/crtExtractor.ts:39-62 | a missing section title fails with the sections message; with both sections, extraction fails exactly when one lacks a "VÁLIDO HASTA" match |
| `Crt.ExtractionDefaults` | src/extractors/crtExtractor.ts:26-74 | an unmatched date, plant, plate or folio is "" |
| `Crt.ValidoValuesConform` | src/extractors/crtExtractor.ts:56-101 | when the pattern's groups have their stated shape, both "Válido Hasta" values pass the month-year check |
| `Crt.FolioConformsToValidator` | src/extractors/crtExtractor.ts:73-102 | an extracted folio is "" or passes `^N°B\d+$` |
| `Crt.Check` | src/extractors/crtExtractor.ts:106-120 | a field passes exactly when non-empty and of its format; an empty one gets "Falta el campo" |
| `Crt.BestEffortValidationCRT` | src/extractors/crtExtractor.ts:91-127 | the verdict over the errors, passing exactly when all six fields are present and well formed |
| `Crt.Ordered` | src/extractors/crtExtractor.ts:209-221 | the output has the seven keys in the fixed order, "Nombre PDF" first with the file name |
| `Crt.OrderedKeepsValues` | src/extractors/crtExtractor.ts:213-221 | every other output key carries the extracted value, "" when absent |
| `Crt.ProcesarPDFCRT` | src/extractors/crtExtractor.ts:194-231 | a parse or extraction error propagates; otherwise it succeeds exactly when validation passes, with the ordered record, and fails with the validator's message |
| `Soap.FieldsDistinct` | src/extractors/soapExtractor.ts:45-53 | the seven field names are distinct |
| `Soap.RutValue` | src/extractors/soapExtractor.ts:24-25 | no match gives "" |
| `Soap.RutShape` | src/extractors/soapExtractor.ts:23-25 | a matched RUT is the number without dots or whitespace, "-", and the check character: digits, one hyphen, one of `[0-9kK]` |
| `Soap.DottedDigits` | src/extractors/soapExtractor.ts:25 | dotted digit groups lose their dots |
| `Soap.CollapseHyphen` | src/extractors/soapExtractor.ts:40 | a value without a hyphen is unchanged |
| `Soap.CollapseHyphenSpaced` | src/extractors/soapExtractor.ts:40 | the whitespace around the first hyphen goes |
| `Soap.ExtraerDatosSoap` | src/extractors/soapExtractor.ts:9-57 | the record has exactly the seven keys in order |
| `Soap.GetExtracted` | src/extractors/soapExtractor.ts:11-53 | every field is computed on the text with line breaks replaced by spaces |
| `Soap.ExtractionIgnoresLineBreaks` | src/extractors/soapExtractor.ts:11 | replacing the line breaks first changes nothing |
| `Soap.ExtractedRut` | src/extractors/soapExtractor.ts:23-25 | the record's RUT is "" without a match, and otherwise the cleaned number, "-", the check character |
| `Soap.PolizaCollapsed` | src/extractors/soapExtractor.ts:35-40 | a captured policy with whitespace around its hyphen becomes head "-" tail |
| `Soap.ExtractedPoliza` | src/extractors/soapExtractor.ts:35-40 | the same, for the record's "POLIZA N°" |
| `Soap.Check` | src/extractors/soapExtractor.ts:78-83 | a field passes exactly when its trimmed length is at least 3 and it has its format; a shorter one gets the "incompleto" message |
| `Soap.BestEffortValidationSoap` | src/extractors/soapExtractor.ts:62-89 | the verdict over the errors, passing exactly when every field is long enough and well formed |
| `Soap.ShortFieldRejected` | src/extractors/soapExtractor.ts:79-88 | a short field rejects the document, and the message names it |
| `Soap.RutAcceptedIff` | src/extractors/soapExtractor.ts:23-68 | an extracted RUT passes the validator exactly when its number has 7 or 8 digits |
| `Soap.PolizaAcceptedIff` | src/extractors/soapExtractor.ts:72 | a collapsed policy passes exactly when it is 6 to 9 digits, "-", one character |
| `Permiso.TableShape` | src/extractors/permisoCirculacionExtractor.ts:14-35 | ten patterns, keyed by the ten distinct field names in order |
| `Permiso.Normalize` | src/extractors/permisoCirculacionExtractor.ts:46-54 | a non-blank value is kept; a blank payment becomes non-blank ("No aplica"); a blank other field becomes "" |
| `Permiso.Extraction` | src/extractors/permisoCirculacionExtractor.ts:37-54 | the data has exactly the ten keys in table order |
| `Permiso.ExtraerDatosPermisoCirculacion` | src/extractors/permisoCirculacionExtractor.ts:10-58 | the fill and normalisation loops give `Extraction`, and the pattern table returned is the table |
| `Permiso.ExtractionKeysAreRegexKeys` | src/extractors/permisoCirculacionExtractor.ts:37-57 | the data's keys are the table's keys, one for one |
| `Permiso.ExtractedGet` | src/extractors/permisoCirculacionExtractor.ts:37-54 | every field is computed on the text with line breaks replaced by spaces |
| `Permiso.MissingValues` | src/extractors/permisoCirculacionExtractor.ts:46-54 | an empty capture gives "No aplica" for a payment field and "" for any other |
| `Permiso.CheckMandatory` | src/extractors/permisoCirculacionExtractor.ts:73-78 | a mandatory field passes exactly when its trimmed length is at least 3 |
| `Permiso.CheckPayment` | src/extractors/permisoCirculacionExtractor.ts:87-92 | a payment field passes exactly when present and "X" or "No aplica", in any case; the message shows "undefined" for a missing one |
| `Permiso.MandatoryErrorsEmptyIff` | src/extractors/permisoCirculacionExtractor.ts:72-78 | no mandatory error exactly when all seven are long enough |
| `Permiso.PaymentErrorsEmptyIff` | src/extractors/permisoCirculacionExtractor.ts:81-92 | no payment error exactly when all three are well formed |
| `Permiso.BestEffortValidationPermisoCirculacion` | src/extractors/permisoCirculacionExtractor.ts:68-97 | the verdict over the mandatory errors followed by the payment errors, passing exactly when both groups pass |
| `Permiso.MissingPaymentRejected` | src/extractors/permisoCirculacionExtractor.ts:88-90 | a missing payment field rejects the document with its "undefined" message |
| `Permiso.PaymentValue` | src/extractors/permisoCirculacionExtractor.ts:22-54 | whatever the payment pattern captures ("X" or nothing), the extracted payment value passes the payment check |
| `Permiso.ExtractedPaymentsValid` | src/extractors/permisoCirculacionExtractor.ts:46-92 | the extractor's payment fields never fail the validator |
| `Validation.Errors` | src/extractors/homologacionExtractor.ts:51-60 | at most one error per field |
| `Validation.ErrorsEmptyIff` | src/extractors/homologacionExtractor.ts:51-63 | no error exactly when every field passes its check |
| `Validation.ErrorsAppend` | src/extractors/permisoCirculacionExtractor.ts:72-92 | checking two lists of fields in turn gives the first list's errors, then the second's |
| `Validation.ErrorsContain` | src/extractors/homologacionExtractor.ts:54-58 | every failing field's error is reported |
| `Validation.ErrorsFromFields` | src/extractors/homologacionExtractor.ts:54-58 | every reported error comes from a failing field |
| `Validation.CollectErrors` | src/extractors/homologacionExtractor.ts:51-60 | the loop that pushes onto `errors` computes `Errors` |
| `Validation.Report` | src/extractors/homologacionExtractor.ts:62 | the message starts with its header |
| `Validation.ReportContains` | src/extractors/homologacionExtractor.ts:62 | the message contains every error |
| `Validation.Verdict` | src/extractors/homologacionExtractor.ts:61-63 | the document passes exactly when there are no errors; a rejection's message contains every error |
| `ExcelUtils.StripHtmlTags` | src/utils/excel/excelUtils.ts:21-26 | the result is no longer than the input |
| `ExcelUtils.StripIsSubsequence` | src/utils/excel/excelUtils.ts:25 | the result is the input with characters left out |
| `ExcelUtils.StripKeepsCharacters` | src/utils/excel/excelUtils.ts:25 | every character of the result occurs in the input |
| `ExcelUtils.StripLeavesNoTag` | src/utils/excel/excelUtils.ts:25 | no "<" followed later by ">" remains |
| `ExcelUtils.StripWithoutTags` | src/utils/excel/excelUtils.ts:25 | a text without tags is unchanged |
| `ExcelUtils.StripIdempotent` | src/utils/excel/excelUtils.ts:25 | stripping twice is stripping once |
| `ExcelUtils.StripTag` | src/utils/excel/excelUtils.ts:25 | a leading tag disappears entirely |
| `ExcelUtils.NormalizePlateWithCheck` | src/utils/excel/excelUtils.ts:40-47 | plate followed by check digit is the value without hyphens and whitespace; the plate has at most 6 characters; a non-empty check digit exists exactly when that cleaned value is longer than 6 |
| `ExcelUtils.PlateAndDigit` | src/utils/excel/excelUtils.ts:35-47 | "LXWJ75-4"-shaped values split into plate and check digit |
| `ExcelUtils.PlateWithoutDigit` | src/utils/excel/excelUtils.ts:37-47 | "THJL-11"-shaped values lose the hyphen and get no check digit |
| `ExcelUtils.SplitHyphen` | src/utils/excel/excelUtils.ts:101-108 | `^(.+)-(.+)$` splits at the last hyphen with a character on each side, in a one-line text; no split otherwise |
| `ExcelUtils.TransformRegistros` | src/utils/excel/excelUtils.ts:67-133 | every record is reshaped in place by the transform of its format |
| `ExcelUtils.HomologacionReshaped` | src/utils/excel/excelUtils.ts:67-74 | a homologation record loses its check digit key, and its plate loses its hyphens |
| `ExcelUtils.PermisoReshaped` | src/utils/excel/excelUtils.ts:75-87 | a permit plate is cut to at most 6 characters, and plate plus check digit is the cleaned plate; the check digit exists exactly when the cleaned plate is longer than 6 |
| `ExcelUtils.TransformDistinct` | src/utils/excel/excelUtils.ts:67-133 | reshaping keeps the keys distinct |
| `ExcelUtils.Others` | src/utils/excel/excelUtils.ts:194-198 | the trailing columns are entries of the record whose keys are not placed first |
| `ExcelUtils.LeadingCopied` | src/utils/excel/excelUtils.ts:142-193 | every leading column is a placed-first key copied from the record with its value |
| `ExcelUtils.NombrePdfFirst` | src/utils/excel/excelUtils.ts:144-146 | a record with "Nombre PDF" starts with it, with its value |
| `ExcelUtils.HomologacionLeading` | src/utils/excel/excelUtils.ts:147-150 | homologation leads with the name and the plate, each only when present |
| `ExcelUtils.PermisoLeading` | src/utils/excel/excelUtils.ts:151-157 | a permit with a plate leads with the name, the plate and the check digit, each only when present |
| `ExcelUtils.OrderedKeepsOthers` | src/utils/excel/excelUtils.ts:194-198 | every other key keeps its value, or its absence |
| `ExcelUtils.OthersFind` | src/utils/excel/excelUtils.ts:194-198 | the trailing columns hold every other key of the record, with its value |
| `ExcelUtils.OrderedDistinct` | src/utils/excel/excelUtils.ts:142-200 | the reordered record has distinct keys |
| `ExcelUtils.OrderRegistro` | src/utils/excel/excelUtils.ts:142-200 | the step-by-step `orderRegistro` gives the leading columns, then every other key in the record's order |
| `ExcelUtils.AppendOthers` | src/utils/excel/excelUtils.ts:194-198 | the `Object.keys` pass appends exactly the other keys, in order |
| `ExcelUtils.OrderRegistros` | src/utils/excel/excelUtils.ts:202 | each record is reordered, one for one |
| `ExcelUtils.WithCheckDigit` | src/utils/excel/excelUtils.ts:207-211 | afterwards the record has the check digit; an existing one is kept and a missing one added empty at the end |
| `ExcelUtils.AnyHasCheckDigit` | src/utils/excel/excelUtils.ts:205 | true exactly when some record has the check digit |
| `ExcelUtils.Forced` | src/utils/excel/excelUtils.ts:205-212 | when some record has the check digit every record gets it; otherwise nothing changes |
| `ExcelUtils.ForceCheckDigit` | src/utils/excel/excelUtils.ts:205-212 | the in-place pass over the array computes `Forced` |
| `ExcelUtils.ForcedUniform` | src/utils/excel/excelUtils.ts:205-212 | afterwards all records have the check digit or none has it, and every other key keeps its value |
| `ExcelUtils.AddKeys` | src/utils/excel/excelUtils.ts:216 | adding keys to the set extends it, keeps it duplicate-free and holds exactly the old and the new keys |
| `ExcelUtils.AddKeysAppend` | src/utils/excel/excelUtils.ts:215-217 | adding two runs of keys is adding their concatenation |
| `ExcelUtils.Headers` | src/utils/excel/excelUtils.ts:214-218 | the headers have no duplicates |
| `ExcelUtils.HeadersCover` | src/utils/excel/excelUtils.ts:214-218 | a key is a header exactly when some record has it |
| `ExcelUtils.HeadersGrow` | src/utils/excel/excelUtils.ts:214-218 | later records only append headers, so the order is first-seen |
| `ExcelUtils.FirstRecordLeads` | src/utils/excel/excelUtils.ts:214-218 | the first record's keys are the first headers, in its order |
| `ExcelUtils.CollectHeaders` | src/utils/excel/excelUtils.ts:214-218 | the nested loop filling the set computes `Headers` |
| `ExcelUtils.AddRecordKeys` | src/utils/excel/excelUtils.ts:216 | the inner loop computes `AddKeys` |
| `ExcelUtils.RowValues` | src/utils/excel/excelUtils.ts:227-229 | one value per header: the record's value, or "" when missing or empty |
| `ExcelUtils.DataSheetLayout` | src/utils/excel/excelUtils.ts:220-230 | the cells written are exactly those of the layout: the placeholder alone in A1 when there are no records, otherwise headers in row 1 and record r's value for header c at (r+2, c+1) |
| `ExcelUtils.FirstRowIsFirstRecord` | src/utils/excel/excelUtils.ts:223-229 | row 1 starts with the first record's keys and row 2 with its values |
| `ExcelUtils.WriteRow` | src/utils/excel/excelUtils.ts:223-229 | writing a row adds exactly its cells |
| `ExcelUtils.WriteDataSheet` | src/utils/excel/excelUtils.ts:220-233 | the data sheet gets exactly the layout's cells; with records, the widths and heights are set as the column and row rules say |
| `ExcelUtils.StatsTotals` | src/utils/excel/excelUtils.ts:239-245 | the three totals are in B3, B4 and B5 |
| `ExcelUtils.StatsFailureRow` | src/utils/excel/excelUtils.ts:251-257 | failure i is in row 9+i with its file name, and with its error free of tags and made of the error's own characters in order |
| `ExcelUtils.WriteStatsSheet` | src/utils/excel/excelUtils.ts:235-257 | the statistics sheet gets exactly the statistics cells |
| `ExcelUtils.XlsxName` | src/utils/excel/excelUtils.ts:264 | the name ends in ".xlsx", adding it only when missing |
| `ExcelUtils.XlsxNameChars` | src/utils/excel/excelUtils.ts:262-265 | adding ".xlsx" keeps a sanitised name sanitised |
| `ExcelUtils.EncodedNameDecodes` | src/utils/excel/excelUtils.ts:262-265 | the encoded name decodes to a sanitised name that ends in ".xlsx" |
| `ExcelUtils.ExportedFrom` | src/utils/excel/excelUtils.ts:67-212 | reshaping, reordering and forcing together give the exported records |
| `ExcelUtils.PrepareRecords` | src/utils/excel/excelUtils.ts:67-212 | the records are reshaped in place, and the records returned are the exported ones |
| `ExcelUtils.NewDataSheet` | src/utils/excel/excelUtils.ts:137-233 | a fresh "Datos" sheet with the layout's cells; no widths or heights without records, otherwise one width per header and the heights of the record rows |
| `ExcelUtils.BuildWorkbook` | src/utils/excel/excelUtils.ts:137-266 | a fresh "Datos" sheet with the layout's cells, widths and heights; an "Estadisticas" sheet exactly when statistics are given; the encoded name |
| `ExcelUtils.GenerateExcel` | src/utils/excel/excelUtils.ts:60-268 | `generateExcel` up to the workbook's styles and output buffer: records reshaped in place, data sheet laid out from the exported records with its widths and heights, statistics sheet when asked, encoded name |
| `ColumnUtils.MaxLength` | src/utils/excel/columnUtils.ts:17-23 | the longest of the header and the column's values, empty or missing values counting 0 |
| `ColumnUtils.LongestInColumn` | src/utils/excel/columnUtils.ts:17-23 | the inner loop computes `MaxLength` |
| `ColumnUtils.WidthBounds` | src/utils/excel/columnUtils.ts:24 | the width is at least 10, at least 1.2 times the header and every value, and equal to one of these |
| `ColumnUtils.WidthsPerHeader` | src/utils/excel/columnUtils.ts:16-26 | one width per header, at column index+1, and no other column |
| `ColumnUtils.SetColumnWidths` | src/utils/excel/columnUtils.ts:11-27 | the sheet's widths gain exactly those widths; cells and heights are untouched |
| `RowUtils.LineCount` | src/utils/excel/rowUtils.ts:20 | max(1, ⌈L/20⌉): the fewest lines of 20 characters holding L, at least one |
| `RowUtils.RowHeight` | src/utils/excel/rowUtils.ts:20-21 | a positive multiple of 15; 15 for at most 20 characters; enough lines for the text |
| `RowUtils.HeightsPerRow` | src/utils/excel/rowUtils.ts:14-23 | a height is set exactly for rows 2..n+1 whose first cell holds text, from that text's length |
| `RowUtils.AdjustRowHeights` | src/utils/excel/rowUtils.ts:10-24 | the sheet's heights gain exactly those heights; cells and widths are untouched |
| `Sheets.Sheet.constructor` | src/utils/excel/excelUtils.ts:137-139 | a named sheet with no cells, widths or heights |
| `Sheets.Sheet.SetCell` | src/utils/excel/excelUtils.ts:221 | one cell is written and nothing else changes |
| `Sheets.Sheet.SetWidth` | src/utils/excel/columnUtils.ts:25 | one column width is set and nothing else changes |
| `Sheets.Sheet.SetHeight` | src/utils/excel/rowUtils.ts:21 | one row height is set and nothing else changes |
| `Records.Put` | src/utils/excel/excelUtils.ts:145 | assignment: the key now has the value, other keys are unchanged, an existing key keeps its place and a new one is appended |
| `Records.Delete` | src/utils/excel/excelUtils.ts:73 | `delete`: the key is gone and other keys are unchanged |
| `Records.Get` | src/utils/excel/excelUtils.ts:144 | a value exactly when the key is present |
| `Text.Trim` | src/utils/pdf/pdfUtils.ts:20 | `trim()`: no surrounding whitespace, not longer |
| `Text.TrimRemovesOnlyWhitespace` | src/utils/pdf/pdfUtils.ts:20 | only surrounding whitespace is removed |
| `Text.Upper` | src/utils/pdf/pdfUtils.ts:74 | `toUpperCase()` character by character, same length |
| `Text.Lower` | src/utils/pdf/fileUtils.ts:25 | `toLowerCase()` character by character, same length |
| `Text.UpperIdempotent` | src/utils/pdf/pdfUtils.ts:74 | upper-casing twice is upper-casing once |
| `Text.Split` | src/app/page.tsx:162 | `split` gives at least one part |
| `Text.JoinSplit` | src/app/page.tsx:162 | joining the parts with the separator restores the text |
| `Text.SpaceLineBreaksIdempotent` | src/extractors/soapExtractor.ts:11 | replacing line breaks twice is replacing them once |
| `Text.SplitLastHasNoSeparator` | src/app/page.tsx:163 | the last part holds no separator |
| `Text.SpaceLineBreaks` | src/extractors/soapExtractor.ts:11 | no CR or LF remains, nothing is lengthened, and a text without them is unchanged |
| `Text.SpaceLineBreaksExamples` | src/extractors/soapExtractor.ts:11 | CRLF, LF and CR each become one space |
| `Text.RemoveWhere` | src/utils/excel/excelUtils.ts:42 | every character of the class is removed |
| `Text.NatToString` | src/app/page.tsx:19 | the decimal digits of a whole number |
| `Text.DigitsValueOfNatToString` | src/app/page.tsx:19 | the digits read back to the number |
| `Uri.Utf8` | src/utils/excel/excelUtils.ts:263-265 | a code point takes one to four bytes, one exactly when it is below 0x80 |
| `Uri.EncodeUriComponent` | src/utils/excel/excelUtils.ts:263-265 | only unreserved characters, "%" and hexadecimal digits appear |
| `Uri.DecodeEncode` | src/utils/excel/excelUtils.ts:263-265 | decoding the encoding gives the UTF-8 bytes of the text |
| `Uri.EncodeUnreserved` | src/utils/excel/excelUtils.ts:263-265 | a text of unreserved characters is its own encoding |
| `PdfService.ErrorText` | src/services/pdfService.ts:100 | never empty, and the error's own message when that is not empty |
| `PdfService.Highlight` | src/services/pdfService.ts:100-106 | a message without "Se detectó que pertenece a:" is unchanged |
| `PdfService.WrappedStripped` | src/services/pdfService.ts:102-105 | stripping the tags from a highlighted message leaves the text before, the phrase, one space and the rest |
| `PdfService.HighlightStripped` | src/services/pdfService.ts:100-106 | for a message without "<" and with exactly one space after the phrase, stripping the tags of the highlighted message gives the message back |
| `PdfService.Settle` | src/services/pdfService.ts:65-126 | a fulfilled result carries the file's name; a rejected one carries the file's name and a non-empty error |
| `PdfService.Successes` | src/services/pdfService.ts:54-68 | there are no more successes than results; every result succeeded exactly when the count is the number of results, and none did exactly when it is 0 |
| `PdfService.SuccessesSnoc` | src/services/pdfService.ts:68-94 | a fulfilment adds one success and a rejection none |
| `PdfService.Estimate` | src/services/pdfService.ts:69-72 | the rounded estimate is 0 once every file is processed |
| `PdfService.ProcessPDFFiles` | src/services/pdfService.ts:44-140 | one result and one event per file; result i is file i's outcome, in submission order across batches of 100; event k is the k-th progress event |
| `PdfService.ProcessBatch` | src/services/pdfService.ts:61-137 | a batch settles the next files in order, reports each, and keeps the counters equal to the outcomes |
| `PdfService.ProcessOne` | src/services/pdfService.ts:64-127 | one file's outcome is appended, its event reported, and the counters updated |
| `PdfService.NextEvent` | src/services/pdfService.ts:74-118 | the k-th event has progress k, the total, the file's name, its status, its error, the estimate, the elapsed time and the counts so far |
| `PdfService.EventCounts` | src/services/pdfService.ts:67-118 | successes plus failures equal the progress in every event; the last event estimates 0 and counts the fulfilled results |
| `PdfService.FulfilledValues` | src/app/api/convert/route.ts:55-58 | a success is among the fulfilled values exactly when some result was fulfilled with it |
| `PdfService.SuccessesCountsFulfilled` | src/services/pdfService.ts:54-68 | the success counter equals the number of fulfilled results |
| `PdfService.NombreArchivo` | src/services/pdfService.ts:151-173 | the title of a single success when it has a non-empty one, otherwise the format's fixed base name ("Consolidado" for none) |
| `PdfService.Spread` | src/services/pdfService.ts:175-178 | spreading keeps the keys distinct |
| `PdfService.SpreadFresh` | src/services/pdfService.ts:177 | spreading fresh keys appends them in order |
| `PdfService.Registro` | src/services/pdfService.ts:175-178 | every export row has distinct keys |
| `PdfService.RegistroShape` | src/services/pdfService.ts:175-178 | a row is "Nombre PDF" with the file name, then the extracted fields |
| `PdfService.GenerateExcelFromResults` | src/services/pdfService.ts:146-182 | the workbook of the rows built from the successes, with the data sheet's cells, widths and heights; the file name is the encoded chosen name |
| `ParseUtils.MonthIndex` | src/utils/parse/parseUtils.ts:2-5 | a found abbreviation's index is below 12 and names it in the table; no index means no month of the table matches |
| `ParseUtils.ParseDate` | src/utils/parse/parseUtils.ts:11-23 | empty input gives null; otherwise a date exactly when the trimmed, upper-cased text is one or two digits, "/", a month abbreviation of the table, "/" and four digits, and then the date is that text's year, month index and day |
| `ParseUtils.ParseDateOfParts` | src/utils/parse/parseUtils.ts:11-23 | any one- or two-digit day, month abbreviation and four-digit year, leading zeros included, joined with "/" parse back to that year, month index and day |
| `ParseUtils.ParseDateIgnoresCase` | src/utils/parse/parseUtils.ts:13 | texts equal up to letter case parse alike |
| `ParseUtils.ParseDateOfUpper` | src/utils/parse/parseUtils.ts:13 | upper-casing first changes nothing |
| `ParseUtils.ParseDateOfLower` | src/utils/parse/parseUtils.ts:13 | lower-casing first changes nothing |
| `ParseUtils.ParseDateIgnoresWhitespace` | src/utils/parse/parseUtils.ts:13 | surrounding whitespace changes nothing |
| `ParseUtils.ParseInt` | src/utils/parse/parseUtils.ts:30 | `parseInt(s, 10)` is a number exactly when a digit follows the leading whitespace and an optional sign |
| `ParseUtils.ParseIntOfNatToString` | src/utils/parse/parseUtils.ts:30 | a number's digits, followed by a non-digit, read back as the number |
| `ParseUtils.ParseIntOfNegated` | src/utils/parse/parseUtils.ts:30 | "-" then a number's digits read as its negation |
| `ParseUtils.ParseIntOrNull` | src/utils/parse/parseUtils.ts:28-32 | null exactly when the trimmed value has no leading, optionally signed, digit run |
| `ParseUtils.ParseIntOrNullOfNatToString` | src/utils/parse/parseUtils.ts:28-32 | a number's digits surrounded by whitespace read back as the number |
| `ParseUtils.ParseBit` | src/utils/parse/parseUtils.ts:46-48 | true exactly when the trimmed value is "x", "X" or "1" |
| `FileUtils.GetMaxFileSize` | src/utils/pdf/fileUtils.ts:8-17 | the limit is positive, and the 5 MB default when the variable is unset or empty |
| `FileUtils.MaxFileSizeFromEnv` | src/utils/pdf/fileUtils.ts:14-15 | a positive number written in the variable is the limit |
| `FileUtils.MaxFileSizeFallback` | src/utils/pdf/fileUtils.ts:14-15 | "0", a negative number and a value with no number all give the default |
| `FileUtils.IsValidPDF` | src/utils/pdf/fileUtils.ts:24-28 | a valid file is within the limit and has the PDF type or a ".pdf" name in any case |
| `FileUtils.ExtensionIgnoresCase` | src/utils/pdf/fileUtils.ts:25 | a name ending ".PDF" within the limit is valid whatever its type |
| `FileUtils.ValidatePDFFiles` | src/utils/pdf/fileUtils.ts:47-49 | an empty selection passes |
| `FileUtils.ValidateEvery` | src/utils/pdf/fileUtils.ts:47-49 | a selection passes exactly when every file in it is valid |
| `FileUtils.SignatureIsUtf8` | src/utils/pdf/fileUtils.ts:36-37 | the five signature bytes are the UTF-8 encoding of "%PDF-" |
| `FileUtils.IsPDFContentValid` | src/utils/pdf/fileUtils.ts:33-42 | valid exactly when there are at least five bytes and the first five are the UTF-8 encoding of "%PDF-" |
| `FileUtils.ContentValidPrefix` | src/utils/pdf/fileUtils.ts:35 | only the first five bytes matter |
| `UseFileUpload.FileUpload.constructor` | src/hooks/useFileUpload.ts:4-6 | files and error start null, the validator is kept, the invariant holds |
| `UseFileUpload.FileUpload.Accepted` | src/hooks/useFileUpload.ts:15 | with no validator every list is accepted |
| `UseFileUpload.FileUpload.HandleFileChange` | src/hooks/useFileUpload.ts:8-24 | null clears both; a refused list clears the files and sets "Uno o más archivos no son válidos."; an accepted list is stored and the error cleared; an error never coexists with files |
| `UseFileUpload.FileUpload.ClearFiles` | src/hooks/useFileUpload.ts:26-29 | both cells become null, keeping the invariant |
| `Page.ClockOf` | src/app/page.tsx:16-18 | hours·3600 + minutes·60 + seconds is the total, with minutes and seconds below 60 |
| `Page.ClockUnique` | src/app/page.tsx:16-18 | every clock with minutes and seconds below 60 is the decomposition of its total |
| `Page.FormatTime` | src/app/page.tsx:15-20 | "Hh Mm Ss" from an hour up and "Mm Ss" below, from the decomposition |
| `Page.Frame` | src/app/page.tsx:161-163 | the complete events followed by the kept buffer, joined with the blank line, are the old buffer plus the chunk; the kept buffer holds no blank line |
| `Page.DataPayload` | src/app/page.tsx:169 | "data:" is removed, and so is the one whitespace character after it, if any |
| `Page.ReadPayloads` | src/app/page.tsx:164-172 | the loops over events and lines hand `JSON.parse` exactly the specified payloads, in order |
| `Page.ReadEvent` | src/app/page.tsx:165-166 | a blank event gives no payload, another its lines' payloads |
| `Page.ReadLines` | src/app/page.tsx:167-170 | only "data:" lines with a non-blank payload contribute, in order |
| `Page.PayloadsNotBlank` | src/app/page.tsx:170 | no payload handed to `JSON.parse` is blank |
| `Page.MessageRoundTrip` | src/app/api/convert/route.ts:39-43 | a message the endpoint writes frames to exactly one event, leaves the buffer empty, and yields the JSON text as its one payload |

## Left out

- Text extraction from the PDF (`parsePDFBuffer`, pdf2json, the joining of decoded text runs) is not modelled. Each file comes with its parsed text, or the parser's error, as an input.
- The regular-expression engine is not modelled. Each capture pattern is a constructor of `Matching.Pattern`, and its answer comes from an `Oracle` parameter. Properties that need what a pattern guarantees about its groups state that as a precondition. The anchored validator patterns are written out as predicates.
- Unicode: letter case is modelled for ASCII and the accented letters of Spanish only. Canonical decomposition is modelled for those letters only. `\p{L}`/`\p{N}` become a letter-or-digit predicate on the same range.
- Concurrency is not modelled: the p-limit gate, `Promise.all` and `setImmediate`. Files are processed one after another in submission order, which is the order of the results the source returns. The order of events under real concurrency is not captured.
- `Date.now` is not modelled. The elapsed time at the k-th completion is a parameter.
- `Records.Put`: record keys are assumed not to be canonical array-index strings such as "0" or "2024". JavaScript lists those keys first, in ascending numeric order, whatever order they were assigned in. `Records.Keys` and the key order derived from it (`ExcelUtils.AppendOthers`, `ExcelUtils.Headers`, `ExcelUtils.FirstRecordLeads`, `ExcelUtils.HeadersGrow`, `PdfService.SpreadFresh`) follow insertion order only. No key the core creates is such a string: every extractor field name and "Nombre PDF" is a word.
- `ColumnUtils.WidthBounds`: widths are exact reals. The source computes `Math.max(maxLength * 1.2, 10)` in IEEE doubles, whose rounding of the product is not modelled: 9 × 1.2 is 10.8 here but 10.799999999999999 in JavaScript.
- `PdfService.Estimate`: rounds the exact quotient half up. This is what `Math.round(avg × remaining)` gives for non-negative values, but floating-point error is not modelled.
- `ParseUtils.ParseDate`: returns the (year, month index, day) triple, not a JS `Date`. The rollover of impossible days such as 31/FEB is not modelled.
- `ParseUtils.ParseDate`: `new Date(year, monthIndex, day)` reads a year from 0 to 99 as 1900 to 1999, so "01/JAN/0050" gives a date in 1950. The model keeps the year as written.
- `ParseUtils.ParseInt`: returns an exact integer. The loss of precision of JS numbers past 2^53 is not modelled.
- `parseFloatOrNull` is not modelled, because it is floating-point parsing.
- `FileUtils.IsValidPDF`: its contract states the necessary direction (a valid file is within the limit and has the type or extension). The sufficient direction is stated for the extension by `ExtensionIgnoresCase`.
- `PdfService.Highlight`: its own contract only covers messages without the phrase. What the wrapping does is stated through `HighlightStripped`, under its preconditions: no "<" in the message and exactly one space after the phrase.
- `MAX_SIZE` is computed once at load time. The model passes the limit to `isValidPDF` as a parameter, and `GetMaxFileSize` takes the environment value as an argument.
- The xlsx-populate workbook is reduced to cells, widths and heights: no styles, fills or bold, no `outputAsync` buffer. `generarExcel` and `saveAs` in crtExtractor.ts are file I/O and are not part of this model.
- A `pdfFormat` string outside the four formats is not modelled: the model's parameter is one of the four formats or none. In the source, such a non-empty string never equals the detected format. `procesarPDF` (src/utils/pdf/pdfUtils.ts:100-106) therefore rejects every file with the mismatch message, while the Excel side, matching no format, treats it like no format.
- `FileUtils.IsPDFContentValid`: takes the file's bytes as a parameter. A failing `arrayBuffer()` read, which the source turns into `false` (src/utils/pdf/fileUtils.ts:38-41), is not modelled. `TextDecoder` is modelled by comparing the first five bytes with the UTF-8 encoding of "%PDF-", which gives the same answer.
- Lengths are counted in characters, not in the UTF-16 code units that JavaScript's `length` counts. The two differ only for characters outside the Basic Multilingual Plane. This affects `ColumnUtils.MaxLength`, `RowUtils.LineCount`, `RowUtils.HeightsPerRow`, `Homologacion.PatenteValue`, `ExcelUtils.NormalizePlateWithCheck`, `ExcelUtils.SimpleStep`, `Soap.Check` and `Permiso.CheckMandatory`.
- The HTTP endpoint is not modelled: form-data parsing, the `ReadableStream` and the final summary event. The endpoint's event encoding appears only in `Page.MessageRoundTrip`.
- The page's `fetch`, `TextDecoder`, `JSON.parse`, `atob` and `readXlsxFile` are not modelled, nor the state updates of the React page; only the framing and the payload extraction are.
- Logging and configuration are not part of this model.
- The extractor test samples (homologation dates and correlative, the permit's "X" payment) depend on the regex engine. They are covered only through the oracle: `Permiso.PaymentValue` shows that a captured "X" and an empty capture both give a valid payment value.
