/** Extraction of header-keyed rows from the first worksheet of an uploaded
    workbook (src/controller/AdminController/leadController.js, lines 24-38).
    Decoding the workbook is done by a library; the model starts from the
    decoded sheet: the occupied cells by address and the sheet's range. */
module SheetRows {
  import opened JsValues
  import opened JsObject

  /** A worksheet: the value of every occupied cell by (row, column), and the
      range `!ref` decodes to (first and last row and column, inclusive).
      The first row of the range holds the headers. */
  datatype Sheet = Sheet(cells: map<(int, int), Value>,
                         startRow: int, startCol: int, endRow: int, endCol: int)

  /** `worksheet[address]?.v` */
  function Cell(sh: Sheet, r: int, c: int): Option<Value> {
    if (r, c) in sh.cells then Some(sh.cells[(r, c)]) else None
  }

  /** `worksheet[address]?.v || ''`: a falsy or missing cell reads as the empty string. */
  function CellValue(sh: Sheet, r: int, c: int): (v: Value)
    ensures Truthy(Cell(sh, r, c)) ==> Some(v) == Cell(sh, r, c)
    ensures !Truthy(Cell(sh, r, c)) ==> v == Str("")
  {
    var cell := Cell(sh, r, c);
    if Truthy(cell) then cell.value else Str("")
  }

  /** The property key column `c` contributes: its header converted to a
      string, when that header is truthy; no key otherwise. */
  function HeaderKey(sh: Sheet, c: int): Option<string> {
    var h := Cell(sh, sh.startRow, c);
    if Truthy(h) then Some(ToStr(h.value)) else None
  }

  /** The row object for sheet row `r` after the columns before `c` are visited. */
  function RowUpTo(sh: Sheet, r: int, c: int): Row
    decreases c - sh.startCol
  {
    if c <= sh.startCol then Empty
    else
      var prev := RowUpTo(sh, r, c - 1);
      match HeaderKey(sh, c - 1)
      case Some(k) => Assign(prev, k, CellValue(sh, r, c - 1))
      case None => prev
  }

  /** The row object for sheet row `r`, every column of the range visited. */
  function RowAt(sh: Sheet, r: int): Row {
    RowUpTo(sh, r, sh.endCol + 1)
  }

  /** The rows emitted for the sheet rows before `r`: the non-empty row objects, top to bottom. */
  function RowsUpTo(sh: Sheet, r: int): seq<Row>
    decreases r - sh.startRow
  {
    if r <= sh.startRow + 1 then []
    else
      var prev := RowsUpTo(sh, r - 1);
      var row := RowAt(sh, r - 1);
      if |row.keys| > 0 then prev + [row] else prev
  }

  /** `data` as lines 21-38 build it. */
  function Rows(sh: Sheet): seq<Row> {
    RowsUpTo(sh, sh.endRow + 1)
  }

  /** Lines 21-38: the nested row and column loops. */
  method ExtractRows(sh: Sheet) returns (data: seq<Row>)
    ensures data == Rows(sh)
  {
    data := [];
    var rowNum := sh.startRow + 1;
    while rowNum <= sh.endRow
      invariant rowNum == sh.startRow + 1 || sh.startRow + 1 < rowNum <= sh.endRow + 1
      invariant data == RowsUpTo(sh, rowNum)
      decreases sh.endRow - rowNum
    {
      var row := Empty;
      var colNum := sh.startCol;
      while colNum <= sh.endCol
        invariant colNum == sh.startCol || sh.startCol < colNum <= sh.endCol + 1
        invariant row == RowUpTo(sh, rowNum, colNum)
        decreases sh.endCol - colNum
      {
        var header := Cell(sh, sh.startRow, colNum);
        var cell := Cell(sh, rowNum, colNum);
        var cellValue := if Truthy(cell) then cell.value else Str("");
        if Truthy(header) {
          row := Assign(row, ToStr(header.value), cellValue);
        }
        colNum := colNum + 1;
      }
      if |row.keys| > 0 {
        data := data + [row];
      }
      rowNum := rowNum + 1;
    }
  }

  /** Some column before `c` has a truthy header. */
  predicate HeaderBefore(sh: Sheet, c: int) {
    exists c' | sh.startCol <= c' < c :: HeaderKey(sh, c').Some?
  }

  /** A row object is empty exactly when no header of the range is truthy,
      whatever the row's own cells hold. */
  lemma {:induction false} RowEmptyIff(sh: Sheet, r: int, c: int)
    ensures |RowUpTo(sh, r, c).keys| > 0 <==> HeaderBefore(sh, c)
    decreases c - sh.startCol
  {
    if c > sh.startCol {
      RowEmptyIff(sh, r, c - 1);
      if HeaderBefore(sh, c) && HeaderKey(sh, c - 1).None? {
        var c' :| sh.startCol <= c' < c && HeaderKey(sh, c').Some?;
        assert c' < c - 1;
      }
      assert HeaderBefore(sh, c - 1) ==> HeaderBefore(sh, c);
    }
  }

  /** Every key of a row object comes from a truthy header: a key no header
      of the columns before `c` yields is absent. */
  lemma {:induction false} RowKeyAbsent(sh: Sheet, r: int, c: int, k: string)
    requires forall c' | sh.startCol <= c' < c :: HeaderKey(sh, c') != Some(k)
    ensures Lookup(RowUpTo(sh, r, c), k) == None
    decreases c - sh.startCol
  {
    if c > sh.startCol {
      RowKeyAbsent(sh, r, c - 1, k);
    }
  }

  /** A truthy header maps to the cell below it (or `''`); when several
      columns share a header, the rightmost one wins. */
  lemma {:induction false} RowKeyValue(sh: Sheet, r: int, c: int, k: string, col: int)
    requires sh.startCol <= col < c && HeaderKey(sh, col) == Some(k)
    requires forall c' | col < c' < c :: HeaderKey(sh, c') != Some(k)
    ensures Lookup(RowUpTo(sh, r, c), k) == Some(CellValue(sh, r, col))
    decreases c - sh.startCol
  {
    if col < c - 1 {
      RowKeyValue(sh, r, c - 1, k, col);
    }
  }

  /** Every row object is well formed. */
  lemma {:induction false} RowValid(sh: Sheet, r: int, c: int)
    ensures Valid(RowUpTo(sh, r, c))
    decreases c - sh.startCol
  {
    if c > sh.startCol {
      RowValid(sh, r, c - 1);
      match HeaderKey(sh, c - 1)
      case Some(k) => AssignValid(RowUpTo(sh, r, c - 1), k, CellValue(sh, r, c - 1));
      case None =>
    }
  }

  /** A sheet row with some truthy header in the range is always emitted, one
      that has none never is: `data` is every row below the header row, in
      order, when the header row has a truthy cell, and empty otherwise. */
  lemma {:induction false} RowsShape(sh: Sheet, r: int)
    requires r <= sh.endRow + 1
    ensures HeaderBefore(sh, sh.endCol + 1) ==>
              |RowsUpTo(sh, r)| == (if r > sh.startRow + 1 then r - sh.startRow - 1 else 0)
              && forall j | 0 <= j < |RowsUpTo(sh, r)| :: RowsUpTo(sh, r)[j] == RowAt(sh, sh.startRow + 1 + j)
    ensures !HeaderBefore(sh, sh.endCol + 1) ==> RowsUpTo(sh, r) == []
    decreases r - sh.startRow
  {
    if r > sh.startRow + 1 {
      RowsShape(sh, r - 1);
      RowEmptyIff(sh, r - 1, sh.endCol + 1);
    }
  }

  predicate AllValid(rows: seq<Row>) {
    forall j | 0 <= j < |rows| :: Valid(rows[j])
  }

  /** Every emitted row is a well-formed object. */
  lemma {:induction false} RowsValid(sh: Sheet, r: int)
    ensures AllValid(RowsUpTo(sh, r))
    decreases r - sh.startRow
  {
    if r > sh.startRow + 1 {
      RowsValid(sh, r - 1);
      var prev, row := RowsUpTo(sh, r - 1), RowAt(sh, r - 1);
      RowValid(sh, r - 1, sh.endCol + 1);
      if |row.keys| > 0 {
        assert RowsUpTo(sh, r) == prev + [row];
        forall j | 0 <= j < |prev| + 1 ensures Valid((prev + [row])[j]) {
          if j < |prev| { assert (prev + [row])[j] == prev[j]; }
        }
      }
    }
  }
}
