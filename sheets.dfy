/** The spreadsheet as the handlers see it through the Google Sheets values API.
    A tab is a grid of strings, held as a sequence of rows; a missing cell reads as "".
    `Read` is what `spreadsheets.values.get` returns for a range that starts in column A:
    the rows from the first requested row on, each cut to the range's width, with trailing
    empty cells and trailing empty rows left out. `Apply` is what `values.append` and
    `values.update` do to the grid. */
module Sheets {
  import opened Wrappers

  type Row = seq<string>
  type Table = seq<Row>

  /** The two tabs the handlers write to: the event registry ("Info") and the blocklist,
      whose tab name the registry names in cell C2. */
  datatype Tab = Info | Blocklist

  /** An A1 range on one tab, such as `H5:K5`: column letters and 1-based row numbers. */
  datatype A1Range = A1Range(startCol: char, startRow: int, endCol: char, endRow: int)

  /** An outbound write: `values.append` of one row, or `values.update` of one range. */
  datatype SheetWrite =
    | Append(tab: Tab, row: Row)
    | Update(tab: Tab, range: A1Range, values: Row)

  // ---------------------------------------------------------------------------
  // Cells, rows, reads

  /** `row[c]` with `undefined` read as "". */
  function CellOf(row: Row, c: nat): string {
    if c < |row| then row[c] else ""
  }

  function RowOf(t: Table, r: nat): Row {
    if r < |t| then t[r] else []
  }

  function Cell(t: Table, r: nat, c: nat): string {
    CellOf(RowOf(t, r), c)
  }

  predicate EmptyRow(row: Row) {
    forall k :: 0 <= k < |row| ==> row[k] == ""
  }

  /** A row without its trailing empty cells, as the values API returns it. */
  function TrimRow(row: Row): Row
    decreases |row|
  {
    if row != [] && row[|row| - 1] == "" then TrimRow(row[..|row| - 1]) else row
  }

  /** A grid without its trailing empty rows. */
  function DropTrailingEmptyRows(t: Table): Table
    decreases |t|
  {
    if t != [] && EmptyRow(t[|t| - 1]) then DropTrailingEmptyRows(t[..|t| - 1]) else t
  }

  function Take(row: Row, width: nat): Row {
    if |row| <= width then row else row[..width]
  }

  /** The rows of the range `A{first+1}:<column width>` before trailing empties are removed. */
  function Window(t: Table, first: nat, width: nat): Table {
    if first <= |t| then seq(|t| - first, i requires 0 <= i < |t| - first => TrimRow(Take(t[first + i], width)))
    else []
  }

  /** `values.get` of `A{first+1}:<column width>`, where `values || []` is taken as given. */
  function Read(t: Table, first: nat, width: nat): Table {
    DropTrailingEmptyRows(Window(t, first, width))
  }

  // ---------------------------------------------------------------------------
  // Writes

  /** `String.fromCharCode(65 + c)`: the letter the source uses for the 0-based column c. */
  function ColumnLetter(c: nat): char
    requires c < 0xD800 - 65
  {
    (65 + c) as char
  }

  /** The 0-based column an A1 letter names; only `A` to `Z` occur in these ranges. */
  function ColumnOf(ch: char): Option<nat> {
    if 'A' <= ch <= 'Z' then Some(ch as int - 65) else None
  }

  /** Whether the API accepts a write. An update range must be one row with valid column
      letters and must hold the values; a range such as `X5:[5` is rejected, and the
      source's `await` then throws. */
  predicate Accepted(w: SheetWrite) {
    match w
    case Append(_, _) => true
    case Update(_, r, vals) =>
      && ColumnOf(r.startCol).Some? && ColumnOf(r.endCol).Some?
      && r.startRow == r.endRow && r.startRow >= 1
      && ColumnOf(r.startCol).value <= ColumnOf(r.endCol).value
      && |vals| <= ColumnOf(r.endCol).value - ColumnOf(r.startCol).value + 1
  }

  /** `vals` written into `row` from column c on, padding the row with "" where needed. */
  function WriteRow(row: Row, c: nat, vals: Row): Row {
    var padded := if |row| >= c + |vals| then row else row + seq(c + |vals| - |row|, _ => "");
    padded[..c] + vals + padded[c + |vals|..]
  }

  /** `vals` written into row r (0-based) from column c on, adding rows where needed. */
  function SetCells(t: Table, r: nat, c: nat, vals: Row): Table {
    var grown := if r < |t| then t else t + seq(r + 1 - |t|, _ => []);
    grown[r := WriteRow(grown[r], c, vals)]
  }

  /** `values.append`: the row goes below the last row that holds anything. */
  function AppendRow(t: Table, row: Row): Table {
    DropTrailingEmptyRows(t) + [row]
  }

  /** The grid after an accepted write; a rejected write changes nothing. */
  function Apply(t: Table, w: SheetWrite): Table {
    if !Accepted(w) then t
    else match w
      case Append(_, row) => AppendRow(t, row)
      case Update(_, r, vals) => SetCells(t, r.startRow - 1, ColumnOf(r.startCol).value, vals)
  }

  /** The grid of `tab` after the writes, in order, that go to it. */
  function ApplyAll(t: Table, tab: Tab, writes: seq<SheetWrite>): Table
    decreases |writes|
  {
    if writes == [] then t
    else
      var before := ApplyAll(t, tab, writes[..|writes| - 1]);
      var w := writes[|writes| - 1];
      if w.tab == tab then Apply(before, w) else before
  }

  // ---------------------------------------------------------------------------
  // Lemmas about reads

  lemma {:induction false} TrimRowCells(row: Row)
    ensures |TrimRow(row)| <= |row|
    ensures TrimRow(row) == row[..|TrimRow(row)|]
    ensures forall c :: |TrimRow(row)| <= c < |row| ==> row[c] == ""
    ensures TrimRow(row) == [] || TrimRow(row)[|TrimRow(row)| - 1] != ""
    decreases |row|
  {
    if row != [] && row[|row| - 1] == "" {
      TrimRowCells(row[..|row| - 1]);
    }
  }

  /** Trimming a row keeps every cell's value. */
  lemma TrimRowCellOf(row: Row, c: nat)
    ensures CellOf(TrimRow(row), c) == CellOf(row, c)
  {
    TrimRowCells(row);
  }

  lemma {:induction false} DropTrailingShape(t: Table)
    ensures |DropTrailingEmptyRows(t)| <= |t|
    ensures DropTrailingEmptyRows(t) == t[..|DropTrailingEmptyRows(t)|]
    ensures forall r :: |DropTrailingEmptyRows(t)| <= r < |t| ==> EmptyRow(t[r])
    decreases |t|
  {
    if t != [] && EmptyRow(t[|t| - 1]) {
      DropTrailingShape(t[..|t| - 1]);
    }
  }

  /** A cell of the read is the cell of the grid, inside the range's width. */
  lemma ReadCell(t: Table, first: nat, width: nat, i: nat, c: nat)
    requires i < |Read(t, first, width)|
    ensures first + i < |t|
    ensures Read(t, first, width)[i] == TrimRow(Take(t[first + i], width))
    ensures CellOf(Read(t, first, width)[i], c) == if c < width then Cell(t, first + i, c) else ""
  {
    DropTrailingShape(Window(t, first, width));
    var row := t[first + i];
    TrimRowCellOf(Take(row, width), c);
  }

  /** Every grid row with something inside the range's width is part of the read. */
  lemma ReadCovers(t: Table, first: nat, width: nat, r: nat, c: nat)
    requires first <= r && c < width && Cell(t, r, c) != ""
    ensures r - first < |Read(t, first, width)|
  {
    var win := Window(t, first, width);
    DropTrailingShape(win);
    var i := r - first;
    assert r < |t|;
    TrimRowCellOf(Take(t[r], width), c);
    assert CellOf(win[i], c) != "";
  }

  /** Rows that are read have a non-empty cell within the width, so they are also below
      the last non-empty row of the whole grid. */
  lemma ReadWithinRows(t: Table, width: nat)
    ensures |Read(t, 0, width)| <= |DropTrailingEmptyRows(t)|
  {
    var n := |Read(t, 0, width)|;
    if n > 0 {
      var k := ReadLastRowHolds(t, width);
      RowBelowLastNonEmpty(t, n - 1, k);
    }
  }

  lemma ReadLastRowHolds(t: Table, width: nat) returns (k: nat)
    requires |Read(t, 0, width)| > 0
    ensures Cell(t, |Read(t, 0, width)| - 1, k) != ""
  {
    var rd := Read(t, 0, width);
    var n := |rd|;
    assert !EmptyRow(rd[n - 1]) by { DropTrailingNotEmptyLast(Window(t, 0, width)); }
    k :| k < |rd[n - 1]| && rd[n - 1][k] != "";
    ReadCell(t, 0, width, n - 1, k);
  }

  lemma RowBelowLastNonEmpty(t: Table, r: nat, k: nat)
    requires Cell(t, r, k) != ""
    ensures r < |DropTrailingEmptyRows(t)|
  {
    DropTrailingShape(t);
  }

  /** No row of a read is wider than the range. */
  lemma ReadRowsWithin(t: Table, first: nat, width: nat)
    ensures forall i :: 0 <= i < |Read(t, first, width)| ==> |Read(t, first, width)[i]| <= width
  {
    forall i | 0 <= i < |Read(t, first, width)|
      ensures |Read(t, first, width)[i]| <= width
    {
      ReadCell(t, first, width, i, 0);
      TrimRowCells(Take(t[first + i], width));
    }
  }

  lemma {:induction false} DropTrailingNotEmptyLast(t: Table)
    ensures var d := DropTrailingEmptyRows(t); d == [] || !EmptyRow(d[|d| - 1])
    decreases |t|
  {
    if t != [] && EmptyRow(t[|t| - 1]) {
      DropTrailingNotEmptyLast(t[..|t| - 1]);
    }
  }

  // ---------------------------------------------------------------------------
  // Lemmas about writes

  /** Writing into a row changes exactly the cells written. */
  lemma WriteRowCell(row: Row, c: nat, vals: Row, c': nat)
    ensures CellOf(WriteRow(row, c, vals), c')
            == if c <= c' < c + |vals| then vals[c' - c] else CellOf(row, c')
  {
    var padded := if |row| >= c + |vals| then row else row + seq(c + |vals| - |row|, _ => "");
    assert CellOf(padded, c') == CellOf(row, c');
    var w := WriteRow(row, c, vals);
    assert |w| == |padded|;
    if c' < c {
      assert w[c'] == padded[c'];
    } else if c' < c + |vals| {
      assert w[c'] == vals[c' - c];
    } else if c' < |w| {
      assert w[c'] == padded[c'];
    }
  }

  /** An update changes exactly the cells it names. */
  lemma SetCellsCell(t: Table, r: nat, c: nat, vals: Row, r': nat, c': nat)
    ensures Cell(SetCells(t, r, c, vals), r', c')
            == if r' == r && c <= c' < c + |vals| then vals[c' - c] else Cell(t, r', c')
  {
    var grown := if r < |t| then t else t + seq(r + 1 - |t|, _ => []);
    assert RowOf(grown, r') == RowOf(t, r') || (RowOf(grown, r') == [] && RowOf(t, r') == []);
    if r' == r {
      WriteRowCell(grown[r], c, vals, c');
    }
  }

  /** An append fills the row below the last non-empty one and leaves every other cell. */
  lemma AppendRowCell(t: Table, row: Row, r: nat, c: nat)
    ensures Cell(AppendRow(t, row), r, c)
            == if r == |DropTrailingEmptyRows(t)| then CellOf(row, c) else Cell(t, r, c)
  {
    DropTrailingShape(t);
    var d := DropTrailingEmptyRows(t);
    if r > |d| && r < |t| {
      assert EmptyRow(t[r]);
    }
  }

  /** Applying two batches of writes is applying their concatenation. */
  lemma {:induction false} ApplyAllConcat(t: Table, tab: Tab, a: seq<SheetWrite>, b: seq<SheetWrite>)
    ensures ApplyAll(t, tab, a + b) == ApplyAll(ApplyAll(t, tab, a), tab, b)
    decreases |b|
  {
    if b == [] {
      assert a + b == a;
    } else {
      assert (a + b)[..|a + b| - 1] == a + b[..|b| - 1];
      ApplyAllConcat(t, tab, a, b[..|b| - 1]);
    }
  }
}
