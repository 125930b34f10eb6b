/** The worksheet the spreadsheet library provides, reduced to what the
    export writes into it: cell values, column widths and row heights,
    indexed from 1 as the library does. */
module Sheets {
  /** A cell value: the export writes strings and, on the statistics
      sheet, counts. */
  datatype Cell = Text(text: string) | Number(number: int)

  /** Updating a merged map updates its right-hand side. */
  lemma MergeUpdate<K, V>(a: map<K, V>, b: map<K, V>, k: K, v: V)
    ensures (a + b)[k := v] == a + b[k := v]
  {
  }

  /** Merging into an empty map gives the merged map. */
  lemma MergeEmpty<K, V>(m: map<K, V>)
    ensures map[] + m == m
  {
  }

  /** Merging maps is associative. */
  lemma MergeAssoc<K, V>(a: map<K, V>, b: map<K, V>, c: map<K, V>)
    ensures (a + b) + c == a + (b + c)
  {
  }

  class Sheet {
    var name: string
    var cells: map<(nat, nat), Cell>
    var widths: map<nat, real>
    var heights: map<nat, nat>

    /** A blank sheet with the given name. */
    constructor (name: string)
      ensures this.name == name
      ensures cells == map[] && widths == map[] && heights == map[]
    {
      this.name := name;
      cells := map[];
      widths := map[];
      heights := map[];
    }

    /** `sheet.cell(row, col).value(v)`. */
    method SetCell(row: nat, col: nat, v: Cell)
      modifies this
      ensures cells == old(cells)[(row, col) := v]
      ensures name == old(name) && widths == old(widths) && heights == old(heights)
    {
      cells := cells[(row, col) := v];
    }

    /** `sheet.column(col).width(w)`. */
    method SetWidth(col: nat, w: real)
      modifies this
      ensures widths == old(widths)[col := w]
      ensures name == old(name) && cells == old(cells) && heights == old(heights)
    {
      widths := widths[col := w];
    }

    /** `sheet.row(row).height(h)`. */
    method SetHeight(row: nat, h: nat)
      modifies this
      ensures heights == old(heights)[row := h]
      ensures name == old(name) && cells == old(cells) && widths == old(widths)
    {
      heights := heights[row := h];
    }
  }
}
