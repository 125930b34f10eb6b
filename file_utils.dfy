/** The upload checks of src/utils/pdf/fileUtils.ts: the size limit read
    from the environment, the type-or-extension test, the check of a
    whole selection and the "%PDF-" signature of a file's bytes. */
module FileUtils {
  import opened Wrappers
  import opened Text
  import ParseUtils
  import Uri

  /** What the checks read of a browser `File`. */
  datatype FileInfo = FileInfo(mimeType: string, name: string, size: nat)

  type Byte = Uri.Byte

  /** 5 MB. */
  const DefaultMaxSize: nat := 5 * 1024 * 1024

  /** `getMaxFileSize`, given the value of `NEXT_PUBLIC_MAX_FILE_SIZE`:
      the default when the variable is unset or empty, when `parseInt`
      finds no number in it, or when that number is not positive; the
      number otherwise. */
  function GetMaxFileSize(env: Option<string>): (r: nat)
    ensures r > 0
    ensures env.None? || env.value == "" ==> r == DefaultMaxSize
  {
    if env.None? || env.value == "" then DefaultMaxSize
    else
      var parsed := ParseUtils.ParseInt(env.value);
      if parsed.None? || parsed.value <= 0 then DefaultMaxSize else parsed.value
  }

  /** A positive limit written out in the variable is the limit. */
  lemma MaxFileSizeFromEnv(n: nat)
    requires n > 0
    ensures GetMaxFileSize(Some(NatToString(n))) == n
  {
    ParseUtils.ParseIntOfNatToString(n, []);
    assert NatToString(n) + [] == NatToString(n);
  }

  /** A value that is zero, negative or not a number falls back to the
      default. */
  lemma MaxFileSizeFallback(n: nat, s: string)
    requires !ParseUtils.LeadingDigits(s)
    ensures GetMaxFileSize(Some(NatToString(0))) == DefaultMaxSize
    ensures GetMaxFileSize(Some("-" + NatToString(n))) == DefaultMaxSize
    ensures GetMaxFileSize(Some(s)) == DefaultMaxSize
  {
    ParseUtils.ParseIntOfNatToString(0, []);
    ParseUtils.ParseIntOfNegated(n, []);
    assert NatToString(0) + [] == NatToString(0);
    assert "-" + NatToString(n) + [] == "-" + NatToString(n);
  }

  /** `isValidPDF`: the MIME type is "application/pdf" or the lower-cased
      name ends in ".pdf", and the size is within the limit. */
  function IsValidPDF(file: FileInfo, maxSize: nat): (ok: bool)
    ensures ok ==> file.size <= maxSize
    ensures ok ==> file.mimeType == "application/pdf" || EndsWith(Lower(file.name), ".pdf")
  {
    (file.mimeType == "application/pdf" || EndsWith(Lower(file.name), ".pdf")) && file.size <= maxSize
  }

  /** The extension test ignores the case of the name. */
  lemma ExtensionIgnoresCase(name: string, mimeType: string, size: nat, maxSize: nat)
    requires EndsWith(name, ".PDF") && size <= maxSize
    ensures IsValidPDF(FileInfo(mimeType, name, size), maxSize)
  {
    var l := Lower(name);
    assert l[|l| - 4..] == ".pdf" by {
      forall i | 0 <= i < 4 ensures l[|l| - 4 + i] == ".pdf"[i] {
        assert name[|name| - 4 + i] == ".PDF"[i];
      }
    }
  }

  /** `validatePDFFiles`: `Array.from(files).every(isValidPDF)`. */
  function ValidatePDFFiles(files: seq<FileInfo>, maxSize: nat): (ok: bool)
    ensures files == [] ==> ok
  {
    files == [] || (IsValidPDF(files[0], maxSize) && ValidatePDFFiles(files[1..], maxSize))
  }

  /** A selection passes exactly when every file in it does. */
  lemma {:induction false} ValidateEvery(files: seq<FileInfo>, maxSize: nat)
    ensures ValidatePDFFiles(files, maxSize) <==> forall i :: 0 <= i < |files| ==> IsValidPDF(files[i], maxSize)
  {
    if files != [] {
      ValidateEvery(files[1..], maxSize);
      assert forall i :: 1 <= i < |files| ==> files[1..][i - 1] == files[i];
    }
  }

  /** The bytes of "%PDF-". */
  const PdfSignature: seq<Byte> := [0x25, 0x50, 0x44, 0x46, 0x2D]

  /** The signature is the UTF-8 encoding of the text "%PDF-". */
  lemma SignatureIsUtf8()
    ensures Uri.Utf8Bytes("%PDF-") == PdfSignature
  {
    var s := "%PDF-";
    assert s[1..] == "PDF-" && s[1..][1..] == "DF-";
    assert s[1..][1..][1..] == "F-" && s[1..][1..][1..][1..] == "-";
    assert Uri.Utf8Bytes("-") == [0x2D] by { assert "-"[1..] == ""; }
    assert Uri.Utf8Bytes("F-") == [0x46, 0x2D];
    assert Uri.Utf8Bytes("DF-") == [0x44, 0x46, 0x2D];
    assert Uri.Utf8Bytes("PDF-") == [0x50, 0x44, 0x46, 0x2D];
  }

  /** `isPDFContentValid`: the first five bytes, decoded as UTF-8, read
      "%PDF-". Five ASCII characters come from exactly their five one-byte
      encodings, so the test holds exactly when the first five bytes are
      the encoding of "%PDF-"; a file shorter than five bytes fails. */
  function IsPDFContentValid(content: seq<Byte>): (ok: bool)
    ensures ok <==> |content| >= 5 && content[..5] == Uri.Utf8Bytes("%PDF-")
  {
    SignatureIsUtf8();
    |content| >= 5 && content[..5] == PdfSignature
  }

  /** Only the first five bytes matter. */
  lemma ContentValidPrefix(head: seq<Byte>, tail: seq<Byte>)
    requires |head| >= 5
    ensures IsPDFContentValid(head + tail) == IsPDFContentValid(head)
  {
    assert (head + tail)[..5] == head[..5];
  }
}
