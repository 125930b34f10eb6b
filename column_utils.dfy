/** Column widths of the data sheet (src/utils/excel/columnUtils.ts). */
module ColumnUtils {
  import opened Records
  import opened Sheets

  const WidthFactor: real := 1.2
  const MinColumnWidth: real := 10.0

  /** `registro[header] ? registro[header].toString() : ""`, measured. */
  function ValueLength(registro: Record, header: string): nat {
    |GetOrEmpty(registro, header)|
  }

  /** The longest of the header and the column's values. */
  function MaxLength(header: string, registros: seq<Record>): (n: nat)
    ensures n >= |header|
  {
    if registros == [] then |header|
    else
      var before := MaxLength(header, registros[..|registros| - 1]);
      var last := ValueLength(registros[|registros| - 1], header);
      if last > before then last else before
  }

  /** The longest length is at least every value's length, and is the
      header's length or one of them. */
  lemma {:induction false} MaxLengthBounds(header: string, registros: seq<Record>)
    ensures forall i :: 0 <= i < |registros| ==> MaxLength(header, registros) >= ValueLength(registros[i], header)
    ensures MaxLength(header, registros) == |header|
      || exists i :: 0 <= i < |registros| && MaxLength(header, registros) == ValueLength(registros[i], header)
  {
    if registros != [] {
      var init := registros[..|registros| - 1];
      MaxLengthBounds(header, init);
      assert forall i :: 0 <= i < |init| ==> init[i] == registros[i];
    }
  }

  /** `Math.max(maxLength * 1.2, 10)`. */
  function Width(header: string, registros: seq<Record>): real {
    var scaled := MaxLength(header, registros) as real * WidthFactor;
    if scaled > MinColumnWidth then scaled else MinColumnWidth
  }

  /** A width is at least 10, leaves room for 1.2 units per character of
      the header and of every value (a missing or empty value counts as
      length 0), and is the smallest such width. */
  lemma WidthBounds(header: string, registros: seq<Record>)
    ensures Width(header, registros) >= MinColumnWidth
    ensures Width(header, registros) >= WidthFactor * |header| as real
    ensures forall i :: 0 <= i < |registros| ==>
      Width(header, registros) >= WidthFactor * ValueLength(registros[i], header) as real
    ensures Width(header, registros) == MinColumnWidth
      || Width(header, registros) == WidthFactor * |header| as real
      || exists i :: 0 <= i < |registros| &&
           Width(header, registros) == WidthFactor * ValueLength(registros[i], header) as real
  {
    var n := MaxLength(header, registros);
    MaxLengthBounds(header, registros);
    forall i | 0 <= i < |registros|
      ensures WidthFactor * ValueLength(registros[i], header) as real <= WidthFactor * n as real
    {
    }
  }

  /** The widths the first `n` headers set: column `c` gets the width of
      header `c - 1`. */
  function Widths(headers: seq<string>, registros: seq<Record>, n: nat): map<nat, real>
    requires n <= |headers|
  {
    if n == 0 then map[] else Widths(headers, registros, n - 1)[n := Width(headers[n - 1], registros)]
  }

  /** Exactly the columns `1 .. n` get a width, each the width of its
      header. */
  lemma {:induction false} WidthsPerHeader(headers: seq<string>, registros: seq<Record>, n: nat)
    requires n <= |headers|
    ensures forall c :: c in Widths(headers, registros, n) <==> 1 <= c <= n
    ensures forall c :: 1 <= c <= n ==> Widths(headers, registros, n)[c] == Width(headers[c - 1], registros)
  {
    if n > 0 {
      WidthsPerHeader(headers, registros, n - 1);
    }
  }

  /** The inner loop of `setColumnWidths`: the longest of the header and
      the column's values. */
  method LongestInColumn(header: string, registros: seq<Record>) returns (maxLength: nat)
    ensures maxLength == MaxLength(header, registros)
  {
    maxLength := |header|;
    var i := 0;
    while i < |registros|
      invariant 0 <= i <= |registros|
      invariant maxLength == MaxLength(header, registros[..i])
    {
      assert registros[..i + 1][..i] == registros[..i];
      var valor := GetOrEmpty(registros[i], header);
      if |valor| > maxLength {
        maxLength := |valor|;
      }
      i := i + 1;
    }
    assert registros[..i] == registros;
  }

  /** `setColumnWidths(sheet, headers, registros)`: one width per header,
      at column `index + 1`; no other column and no cell changes. */
  method SetColumnWidths(sheet: Sheet, headers: seq<string>, registros: seq<Record>)
    modifies sheet
    ensures sheet.widths == old(sheet.widths) + Widths(headers, registros, |headers|)
    ensures sheet.cells == old(sheet.cells) && sheet.heights == old(sheet.heights)
    ensures sheet.name == old(sheet.name)
  {
    var colIndex := 0;
    while colIndex < |headers|
      invariant 0 <= colIndex <= |headers|
      invariant sheet.widths == old(sheet.widths) + Widths(headers, registros, colIndex)
      invariant sheet.cells == old(sheet.cells) && sheet.heights == old(sheet.heights)
      invariant sheet.name == old(sheet.name)
    {
      var header := headers[colIndex];
      var maxLength := LongestInColumn(header, registros);
      var scaled := maxLength as real * WidthFactor;
      var width := if scaled > MinColumnWidth then scaled else MinColumnWidth;
      assert width == Width(header, registros);
      assert Widths(headers, registros, colIndex + 1) == Widths(headers, registros, colIndex)[colIndex + 1 := width];
      MergeUpdate(old(sheet.widths), Widths(headers, registros, colIndex), colIndex + 1, width);
      sheet.SetWidth(colIndex + 1, width);
      colIndex := colIndex + 1;
    }
  }
}
