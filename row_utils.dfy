/** Row heights of the data sheet (src/utils/excel/rowUtils.ts). */
module RowUtils {
  import opened Records
  import opened Sheets

  const BaseRowHeight: nat := 15
  const CharsPerLine: nat := 20

  /** `Math.max(1, Math.ceil(textLength / 20))`: the number of 20-character
      lines a text needs, at least one. */
  function LineCount(textLength: nat): (n: nat)
    ensures n >= 1
    ensures CharsPerLine * n >= textLength
    ensures n == 1 || CharsPerLine * (n - 1) < textLength
  {
    if textLength == 0 then 1 else (textLength + CharsPerLine - 1) / CharsPerLine
  }

  /** The height of a row whose first cell holds `textLength` characters. */
  function RowHeight(textLength: nat): (h: nat)
    ensures h > 0 && h % BaseRowHeight == 0
    ensures textLength <= CharsPerLine ==> h == BaseRowHeight
    ensures CharsPerLine * (h / BaseRowHeight) >= textLength
  {
    BaseRowHeight * LineCount(textLength)
  }

  /** The heights set for the first `n` records: row `i + 2` gets a height
      when its first cell holds a string. */
  function Heights(cells: map<(nat, nat), Cell>, n: nat): map<nat, nat> {
    if n == 0 then map[]
    else
      var before := Heights(cells, n - 1);
      var row := n + 1;
      if (row, 1) in cells && cells[(row, 1)].Text? then
        before[row := RowHeight(|cells[(row, 1)].text|)]
      else before
  }

  /** A height is set exactly for the rows `2 .. n + 1` whose first cell
      holds a string, and it is the height for that string's length. */
  lemma {:induction false} HeightsPerRow(cells: map<(nat, nat), Cell>, n: nat)
    ensures forall row :: row in Heights(cells, n) <==>
      2 <= row < n + 2 && (row, 1) in cells && cells[(row, 1)].Text?
    ensures forall row :: row in Heights(cells, n) ==>
      Heights(cells, n)[row] == RowHeight(|cells[(row, 1)].text|)
  {
    if n > 0 {
      HeightsPerRow(cells, n - 1);
    }
  }

  /** `adjustRowHeights(sheet, registros)`: rows whose first-column value
      is not a string, and rows outside `2 .. |registros| + 1`, keep their
      height; no cell or width changes. */
  method AdjustRowHeights(sheet: Sheet, registros: seq<Record>)
    modifies sheet
    ensures sheet.heights == old(sheet.heights) + Heights(old(sheet.cells), |registros|)
    ensures sheet.cells == old(sheet.cells) && sheet.widths == old(sheet.widths)
    ensures sheet.name == old(sheet.name)
  {
    var rowIndex := 0;
    while rowIndex < |registros|
      invariant 0 <= rowIndex <= |registros|
      invariant sheet.heights == old(sheet.heights) + Heights(old(sheet.cells), rowIndex)
      invariant sheet.cells == old(sheet.cells) && sheet.widths == old(sheet.widths)
      invariant sheet.name == old(sheet.name)
    {
      var pos: (nat, nat) := (rowIndex + 2, 1);
      ghost var before := Heights(old(sheet.cells), rowIndex);
      if pos in sheet.cells && sheet.cells[pos].Text? {
        var textLength := |sheet.cells[pos].text|;
        assert Heights(old(sheet.cells), rowIndex + 1) == before[rowIndex + 2 := RowHeight(textLength)];
        MergeUpdate(old(sheet.heights), before, rowIndex + 2, RowHeight(textLength));
        sheet.SetHeight(rowIndex + 2, BaseRowHeight * LineCount(textLength));
      } else {
        assert Heights(old(sheet.cells), rowIndex + 1) == before;
      }
      rowIndex := rowIndex + 1;
    }
  }
}
