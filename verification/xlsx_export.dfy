/**
 The cell layout `XlsxResultWriter.export` writes into its one sheet, as a pure grid.
 Row 0 holds the title, merged across all columns when there is more than one column;
 row 1 holds the column names, which are all keys of all rows in first-seen order; data row
 `k` sits at row `k + 2` and holds, per column, the row's value or `""`. A cell whose value
 holds a line break gets the wrapping style. Empty data, and a grid that does not fit the
 format's row, column or text limits, produce no sheet. Workbook objects, fonts, colours,
 column widths and the output stream are not modelled.
 */
module XlsxExport {
  import opened Wrappers
  import opened Sequences
  import opened LinkedMaps

  /** The name of the only sheet. */
  const SheetName: string := "result"

  /** The cell styles, reduced to what tells them apart. */
  datatype Style = Plain | LineWrap | TitleBand

  datatype Cell = Cell(column: nat, value: string, style: Style)

  datatype SheetRow = SheetRow(index: nat, cells: seq<Cell>)

  /** A rectangular merged area, bounds inclusive. */
  datatype MergedRegion = MergedRegion(firstRow: nat, lastRow: nat, firstColumn: nat, lastColumn: nat)

  datatype Sheet = Sheet(name: string, rows: seq<SheetRow>, merged: seq<MergedRegion>)

  /**
   Why no sheet is produced: the data is empty (`NoSuchElementException`), or a row index,
   a column index or a cell text lies beyond what the spreadsheet format holds
   (`IllegalArgumentException` from the workbook library).
   */
  datatype ExportError = EmptyData | LimitExceeded

  /** The last row index of a sheet. */
  const MaxRowIndex: nat := 1_048_575

  /** The last column index of a sheet. */
  const MaxColumnIndex: nat := 16_383

  /** The longest text a cell can hold. */
  const MaxTextLength: nat := 32_767

  /** One input row; `None` is a `null` value. */
  type DataRow = LinkedMap<Option<string>>

  /** The keys of all rows, row after row, repeats included. */
  function AllKeys(data: seq<DataRow>): seq<string>
    decreases |data|
  {
    if data == [] then [] else AllKeys(data[..|data| - 1]) + Keys(data[|data| - 1])
  }

  /** The column names: the insertion-ordered set that `addAll` of each row's keys builds. */
  function ColumnNames(data: seq<DataRow>): seq<string> {
    Dedup(AllKeys(data))
  }

  /** The text of a data cell: the row's value for the column, or `""` when absent or `null`. */
  function CellText(row: DataRow, column: string): string {
    Get(row, column).GetOr(None).GetOr("")
  }

  /** The style of a data cell. */
  function StyleOf(value: string): Style {
    if '\n' in value then LineWrap else Plain
  }

  /**
   `cells` is the data row written for `row`: one cell per column, in column order, holding
   the row's text for that column and wrapping exactly when that text has a line break.
   */
  predicate CellsOf(cells: seq<Cell>, row: DataRow, cols: seq<string>) {
    && |cells| == |cols|
    && forall i :: 0 <= i < |cols| ==> cells[i] == Cell(i, CellText(row, cols[i]), StyleOf(CellText(row, cols[i])))
  }

  /**
   Every row and cell the export creates fits the format: the last data row is row
   `|data| + 1`, the last column is `|cols| - 1`, and the title, every column name and every
   data text are short enough.
   */
  predicate WithinLimits(data: seq<DataRow>, title: string, cols: seq<string>) {
    && |data| + 1 <= MaxRowIndex
    && |cols| <= MaxColumnIndex + 1
    && |title| <= MaxTextLength
    && (forall i :: 0 <= i < |cols| ==> |cols[i]| <= MaxTextLength)
    && (forall k, i :: 0 <= k < |data| && 0 <= i < |cols| ==> |CellText(data[k], cols[i])| <= MaxTextLength)
  }

  /** The sheet layout for `data` under `title`, or why the export is refused. */
  method Export(data: seq<DataRow>, title: string) returns (r: Result<Sheet, ExportError>)
    ensures r.Failure? <==> data == [] || !WithinLimits(data, title, ColumnNames(data))
    ensures data == [] ==> r == Failure(EmptyData)
    ensures data != [] && !WithinLimits(data, title, ColumnNames(data)) ==> r == Failure(LimitExceeded)
    ensures r.Success? ==> LaidOut(r.value, data, title)
  {
    if |data| == 0 {
      return Failure(EmptyData);
    }
    var cols := Columns(data);
    if !WithinLimits(data, title, cols) {
      return Failure(LimitExceeded);
    }
    var sheet := Layout(data, title, cols);
    r := Success(sheet);
  }

  /**
   `sheet` is laid out as `Export` lays out `data` under `title`: the sheet `result`, the title
   in row 0 (merged across the columns when there are several), the column names in row 1
   and data row `k` in row `k + 2`.
   */
  predicate LaidOut(sheet: Sheet, data: seq<DataRow>, title: string) {
    var cols := ColumnNames(data);
    && sheet.name == SheetName && |sheet.rows| == |data| + 2
    && (forall k :: 0 <= k < |sheet.rows| ==> sheet.rows[k].index == k)
    && sheet.rows[0].cells == [Cell(0, title, TitleBand)]
    && sheet.merged == (if |cols| > 1 then [MergedRegion(0, 0, 0, |cols| - 1)] else [])
    && sheet.rows[1].cells == HeaderCells(cols)
    && (forall k :: 2 <= k < |sheet.rows| ==> CellsOf(sheet.rows[k].cells, data[k - 2], cols))
  }

  /** Builds the sheet once the export is known to succeed. */
  method Layout(data: seq<DataRow>, title: string, cols: seq<string>) returns (sheet: Sheet)
    requires cols == ColumnNames(data)
    ensures LaidOut(sheet, data, title)
  {
    var titleRow := SheetRow(0, [Cell(0, title, TitleBand)]);
    var merged := if |cols| > 1 then [MergedRegion(0, 0, 0, |cols| - 1)] else [];
    var header := Header(cols);
    var body := DataRows(data, cols);
    var rows := [titleRow, SheetRow(1, header)] + body;
    RowsStacked([titleRow, SheetRow(1, header)], body, data, cols);
    sheet := Sheet(SheetName, rows, merged);
  }

  /**
   Sheet row `k + 2` shows, in the column headed `c` (column `i`), what data row `k` holds
   under key `c`: its value, or `""` for `null`.
   */
  ghost predicate CellReadsBack(sheet: Sheet, data: seq<DataRow>, k: nat, c: string, i: nat) {
    && k < |data| && k + 2 < |sheet.rows|
    && i < |sheet.rows[1].cells| && i < |sheet.rows[k + 2].cells|
    && sheet.rows[1].cells[i].value == c
    && (Get(data[k], c).Some? && Get(data[k], c).value.Some? ==>
          sheet.rows[k + 2].cells[i].value == Get(data[k], c).value.value)
    && (Get(data[k], c) == Some(None) ==> sheet.rows[k + 2].cells[i].value == "")
  }

  /**
   Reading a sheet back through its header: for every key `c` of data row `k` some column
   is headed `c` and shows the row's value for it in sheet row `k + 2`; every column is
   headed by a key of some row; no two columns share a name; and a column whose name a row
   lacks is `""` in that row.
   */
  ghost predicate ReadsBack(sheet: Sheet, data: seq<DataRow>) {
    && |sheet.rows| == |data| + 2
    && (forall k: nat, c :: k < |data| && c in Keys(data[k]) ==> exists i: nat :: CellReadsBack(sheet, data, k, c, i))
    && HeaderFromKeys(sheet.rows[1].cells, data)
    && (forall k, i :: 0 <= k < |data| && 0 <= i < |sheet.rows[1].cells| && i < |sheet.rows[k + 2].cells| ==>
          (sheet.rows[1].cells[i].value !in Keys(data[k]) ==> sheet.rows[k + 2].cells[i].value == ""))
  }

  /** Every header cell names a key of some row, and no two header cells the same one. */
  ghost predicate HeaderFromKeys(header: seq<Cell>, data: seq<DataRow>) {
    && (forall i :: 0 <= i < |header| ==> exists k :: 0 <= k < |data| && header[i].value in Keys(data[k]))
    && (forall i, j :: 0 <= i < j < |header| ==> header[i].value != header[j].value)
  }

  /** A sheet laid out as `Export` lays it out reads back to its data. */
  lemma SheetReadBack(data: seq<DataRow>, title: string, sheet: Sheet)
    requires LaidOut(sheet, data, title)
    ensures ReadsBack(sheet, data)
  {
    var cols, header := ColumnNames(data), sheet.rows[1].cells;
    ColumnNamesSpec(data);
    forall k: nat, c | k < |data| && c in Keys(data[k]) ensures exists i: nat :: CellReadsBack(sheet, data, k, c, i) {
      assert CellsOf(sheet.rows[k + 2].cells, data[k], cols);
      CellFound(data, sheet, k, c);
    }
    HeaderReadBack(data, header);
    forall k, i | 0 <= k < |data| && 0 <= i < |header| && i < |sheet.rows[k + 2].cells|
      ensures header[i].value !in Keys(data[k]) ==> sheet.rows[k + 2].cells[i].value == ""
    {
      assert CellsOf(sheet.rows[k + 2].cells, data[k], cols);
    }
  }

  lemma CellFound(data: seq<DataRow>, sheet: Sheet, k: nat, c: string)
    requires k < |data| && |sheet.rows| == |data| + 2
    requires c in ColumnNames(data) && c in Keys(data[k])
    requires sheet.rows[1].cells == HeaderCells(ColumnNames(data))
    requires CellsOf(sheet.rows[k + 2].cells, data[k], ColumnNames(data))
    ensures exists i: nat :: CellReadsBack(sheet, data, k, c, i)
  {
    var cols := ColumnNames(data);
    var i :| 0 <= i < |cols| && cols[i] == c;
    assert sheet.rows[k + 2].cells[i].value == CellText(data[k], c);
    assert CellReadsBack(sheet, data, k, c, i);
  }

  lemma HeaderReadBack(data: seq<DataRow>, header: seq<Cell>)
    requires header == HeaderCells(ColumnNames(data))
    ensures HeaderFromKeys(header, data)
  {
    var cols := ColumnNames(data);
    ColumnNamesSpec(data);
    forall i | 0 <= i < |header| ensures exists k :: 0 <= k < |data| && header[i].value in Keys(data[k]) {
      assert header[i].value == cols[i] && cols[i] in cols;
    }
  }

  /** The title and header rows followed by the data rows keep every row at its index. */
  lemma RowsStacked(head: seq<SheetRow>, body: seq<SheetRow>, data: seq<DataRow>, cols: seq<string>)
    requires |head| == 2 && head[0].index == 0 && head[1].index == 1
    requires |body| == |data|
    requires forall k :: 0 <= k < |body| ==> body[k].index == k + 2 && CellsOf(body[k].cells, data[k], cols)
    ensures forall k :: 0 <= k < |head + body| ==> (head + body)[k].index == k
    ensures forall k :: 2 <= k < |head + body| ==> CellsOf((head + body)[k].cells, data[k - 2], cols)
  {
    var rows := head + body;
    forall k | 2 <= k < |rows| ensures rows[k].index == k && CellsOf(rows[k].cells, data[k - 2], cols) {
      assert rows[k] == body[k - 2];
    }
  }

  /** The data rows, the `k`-th at sheet row `k + 2`. */
  method DataRows(data: seq<DataRow>, cols: seq<string>) returns (rows: seq<SheetRow>)
    ensures |rows| == |data|
    ensures forall k :: 0 <= k < |rows| ==> rows[k].index == k + 2 && CellsOf(rows[k].cells, data[k], cols)
  {
    rows := [];
    var k := 0;
    while k < |data|
      invariant 0 <= k <= |data|
      invariant |rows| == k
      invariant forall j :: 0 <= j < k ==> rows[j].index == j + 2 && CellsOf(rows[j].cells, data[j], cols)
    {
      var cells := DataCells(data[k], cols);
      rows := rows + [SheetRow(k + 2, cells)];
      k := k + 1;
    }
  }

  /** The column names, gathered row by row into an insertion-ordered set. */
  method Columns(data: seq<DataRow>) returns (cols: seq<string>)
    ensures cols == ColumnNames(data)
  {
    cols := [];
    var k := 0;
    while k < |data|
      invariant 0 <= k <= |data|
      invariant cols == ColumnNames(data[..k])
    {
      ColumnNamesStep(data, k);
      cols := InsertAll(cols, Keys(data[k]));
      k := k + 1;
    }
    assert data[..|data|] == data;
  }

  /** The header cells: column `i` holds the `i`-th column name, unwrapped. */
  function HeaderCells(cols: seq<string>): (cells: seq<Cell>)
    ensures |cells| == |cols|
    ensures forall i :: 0 <= i < |cols| ==> cells[i].column == i && cells[i].value == cols[i] && cells[i].style == Plain
  {
    seq(|cols|, i requires 0 <= i < |cols| => Cell(i, cols[i], Plain))
  }

  method Header(cols: seq<string>) returns (header: seq<Cell>)
    ensures header == HeaderCells(cols)
  {
    header := [];
    var c := 0;
    while c < |cols|
      invariant 0 <= c <= |cols|
      invariant |header| == c
      invariant forall i :: 0 <= i < c ==> header[i] == Cell(i, cols[i], Plain)
    {
      header := header + [Cell(c, cols[c], Plain)];
      c := c + 1;
    }
  }

  /** The cells of one data row, one per column, in column order. */
  method DataCells(row: DataRow, cols: seq<string>) returns (cells: seq<Cell>)
    ensures CellsOf(cells, row, cols)
    ensures forall i :: 0 <= i < |cols| && cols[i] !in Keys(row) ==> cells[i].value == ""
    ensures forall i :: 0 <= i < |cols| && Get(row, cols[i]) == Some(None) ==> cells[i].value == ""
    ensures forall i :: 0 <= i < |cols| && Get(row, cols[i]).Some? && Get(row, cols[i]).value.Some? ==>
              cells[i].value == Get(row, cols[i]).value.value
    ensures forall i :: 0 <= i < |cols| ==> (cells[i].style == LineWrap <==> '\n' in cells[i].value)
    ensures forall i :: 0 <= i < |cols| ==> (cells[i].style == Plain <==> '\n' !in cells[i].value)
  {
    cells := [];
    var c := 0;
    while c < |cols|
      invariant 0 <= c <= |cols|
      invariant |cells| == c
      invariant forall i :: 0 <= i < c ==> cells[i] == Cell(i, CellText(row, cols[i]), StyleOf(CellText(row, cols[i])))
    {
      var value := CellText(row, cols[c]);
      cells := cells + [Cell(c, value, StyleOf(value))];
      c := c + 1;
    }
  }

  lemma ColumnNamesStep(data: seq<DataRow>, k: nat)
    requires k < |data|
    ensures ColumnNames(data[..k + 1]) == InsertAll(ColumnNames(data[..k]), Keys(data[k]))
  {
    assert data[..k + 1][..k] == data[..k];
    assert AllKeys(data[..k + 1]) == AllKeys(data[..k]) + Keys(data[k]);
    InsertAllConcat([], AllKeys(data[..k]), Keys(data[k]));
  }

  // ---------------------------------------------------------------------------
  // Properties
  // ---------------------------------------------------------------------------

  /**
   The column names hold every key of every row exactly once, and a key that first appears
   earlier in the rows (row by row, each in its own key order) comes first.
   */
  lemma ColumnNamesSpec(data: seq<DataRow>)
    ensures Distinct(ColumnNames(data))
    ensures forall c :: c in ColumnNames(data) <==> exists k :: 0 <= k < |data| && c in Keys(data[k])
    ensures forall i, j :: 0 <= i < j < |ColumnNames(data)| ==>
              FirstIndex(AllKeys(data), ColumnNames(data)[i]) < FirstIndex(AllKeys(data), ColumnNames(data)[j])
  {
    DedupFirstSeen(AllKeys(data));
    AllKeysMembers(data);
  }

  lemma {:induction false} AllKeysMembers(data: seq<DataRow>)
    ensures forall c :: c in AllKeys(data) <==> exists k :: 0 <= k < |data| && c in Keys(data[k])
    decreases |data|
  {
    if data != [] {
      var init, last := data[..|data| - 1], data[|data| - 1];
      AllKeysMembers(init);
      assert AllKeys(data) == AllKeys(init) + Keys(last);
      forall c | c in AllKeys(data) ensures exists k :: 0 <= k < |data| && c in Keys(data[k]) {
        if c in AllKeys(init) {
          var k :| 0 <= k < |init| && c in Keys(init[k]);
          assert data[k] == init[k];
        } else {
          assert c in Keys(data[|data| - 1]);
        }
      }
      forall c, k | 0 <= k < |data| && c in Keys(data[k]) ensures c in AllKeys(data) {
        if k < |init| {
          assert init[k] == data[k];
        }
      }
    }
  }

  /**
   When every row has the same duplicate-free keys, as after alignment over a schema, the
   column names are exactly those keys in their order.
   */
  lemma {:induction false} ColumnNamesOfUniformRows(data: seq<DataRow>, schema: seq<string>)
    requires data != []
    requires Distinct(schema)
    requires forall k :: 0 <= k < |data| ==> Keys(data[k]) == schema
    ensures ColumnNames(data) == schema
    decreases |data|
  {
    var init := data[..|data| - 1];
    assert AllKeys(data) == AllKeys(init) + schema;
    if init == [] {
      assert AllKeys(data) == schema;
      DedupOfDistinct(schema);
    } else {
      assert forall k :: 0 <= k < |init| ==> init[k] == data[k];
      ColumnNamesOfUniformRows(init, schema);
      InsertAllConcat([], AllKeys(init), schema);
      InsertAllPresent(schema, schema);
    }
  }
}
