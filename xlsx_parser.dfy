/**
 * The XLSX worksheet decoder. The zip container and the XML parser are not
 * modelled: an archive is a map from entry name to an already-parsed
 * worksheet (or to a document that does not parse), and a worksheet is its
 * sequence of `<row>` elements with their `<c>` cells.
 */
module Xlsx {
  import opened Wrappers
  import opened PhpText
  import opened Values
  import opened Grids

  // ---------------------------------------------------------------- the parsed worksheet

  /** A cell's `<is>` (inline string) child: absent, present without a `<t>`, or with one. */
  datatype InlineString = NoInline | InlineWithoutText | InlineText(text: string)

  /**
   * A `<c>` element: its `r` attribute (e.g. "B7"), its `t` attribute ("" when
   * absent), its inline string and the text of its `<v>` child, if any.
   */
  datatype Cell = Cell(r: string, t: string, inline: InlineString, v: Option<string>)

  /** A `<row>` element: its `r` attribute and its cells in document order. */
  datatype Row = Row(r: string, cells: seq<Cell>)

  /**
   * What loading an entry's XML gives: an empty entry (which PHP 8's `loadXML`
   * rejects with a ValueError before parsing), a document that does not
   * parse, or a worksheet.
   */
  datatype Xml = EmptyDocument | Malformed | Worksheet(rows: seq<Row>)

  datatype ParseError =
    | FileNotFound(path: string)
    | SheetNumberNotSet
    | CannotOpen(path: string, code: int)
    | SheetNotFound(sheet: int)
    | InvalidWorksheetXml
    | EmptyWorksheetXml

  // ---------------------------------------------------------------- cells

  /**
   * The value of one cell. An inline string wins over everything else; a cell
   * with neither an inline string nor a `<v>` is the empty string; otherwise
   * the type code decides: "b" is a boolean, "n" or no code a number when the
   * text is numeric, any other code the text as it is.
   */
  function CellValue(c: Cell): (r: Value)
    ensures r.Bool? <==> c.inline.NoInline? && c.v.Some? && c.t == "b"
    ensures r.Bool? ==> r.flag == (c.v.value == "1")
    ensures r.Number? <==>
      c.inline.NoInline? && c.v.Some? && (c.t == "n" || c.t == "") && IsNumeric(c.v.value)
    ensures r.Number? ==> r.number == ToNumber(c.v.value)
    ensures c.inline.NoInline? && c.v.Some? && (c.t == "n" || c.t == "") && !IsNumeric(c.v.value) ==>
      r == Text(c.v.value)
  {
    match c.inline
    case InlineText(s) => Text(Trim(s))
    case InlineWithoutText => Text("")
    case NoInline =>
      match c.v
      case None => Text("")
      case Some(s) =>
        if c.t == "b" then Bool(s == "1")
        else if c.t == "n" || c.t == "" then (if IsNumeric(s) then Number(ToNumber(s)) else Text(s))
        else Text(s)
  }

  /** With an inline string present, neither the type code nor a `<v>` child matters. */
  lemma InlineStringWins(c: Cell, t: string, v: Option<string>)
    requires !c.inline.NoInline?
    ensures CellValue(c.(t := t, v := v)) == CellValue(c)
    ensures CellValue(c).Text?
    ensures CellValue(c).text == if c.inline.InlineText? then Trim(c.inline.text) else ""
  {
  }

  /** Without an inline string or a `<v>` child, a cell is the empty string whatever its type code. */
  lemma MissingValueIsEmpty(c: Cell)
    requires c.inline.NoInline? && c.v.None?
    ensures CellValue(c) == Text("")
  {
  }

  /** Under a code other than "b", "n" or none, the `<v>` text is kept verbatim, even when numeric. */
  lemma OtherTypeCodesAreText(c: Cell)
    requires c.inline.NoInline? && c.v.Some?
    requires c.t != "b" && c.t != "n" && c.t != ""
    ensures CellValue(c) == Text(c.v.value)
  {
  }

  /** The cell reference plays no part in the value. */
  lemma CellValueIgnoresReference(c: Cell, r: string)
    ensures CellValue(c.(r := r)) == CellValue(c)
  {
  }

  /** A numeric cell holding an integer literal decodes to that integer as a float ("42" gives 42.0). */
  lemma IntegerCellDecodes(ref: string, t: string, n: int)
    requires t == "n" || t == ""
    ensures CellValue(Cell(ref, t, NoInline, Some(IntToString(n)))) == Number(n as real)
  {
    ToNumberOfIntToString(n);
  }

  /** `preg_replace('/\d+/', '', $ref)`: the reference with every ASCII digit removed. */
  function ColumnFromCellRef(ref: string): (col: string)
    ensures |col| <= |ref|
    ensures forall i :: 0 <= i < |col| ==> !IsDigit(col[i])
    ensures AllDigits(ref) ==> col == ""
  {
    if |ref| == 0 then ""
    else if IsDigit(ref[0]) then ColumnFromCellRef(ref[1..])
    else [ref[0]] + ColumnFromCellRef(ref[1..])
  }

  lemma {:induction false} ColumnFromCellRefAppend(a: string, b: string)
    ensures ColumnFromCellRef(a + b) == ColumnFromCellRef(a) + ColumnFromCellRef(b)
  {
    if |a| > 0 {
      assert (a + b)[1..] == a[1..] + b;
      ColumnFromCellRefAppend(a[1..], b);
    } else {
      assert a + b == b;
    }
  }

  /** A reference written as column letters and a row number gives back the column letters. */
  lemma ColumnOfReference(column: string, row: nat)
    requires forall i :: 0 <= i < |column| ==> !IsDigit(column[i])
    ensures ColumnFromCellRef(column + NatToString(row)) == column
  {
    ColumnFromCellRefAppend(column, NatToString(row));
    NoDigitsKept(column);
  }

  lemma {:induction false} NoDigitsKept(s: string)
    requires forall i :: 0 <= i < |s| ==> !IsDigit(s[i])
    ensures ColumnFromCellRef(s) == s
  {
    if |s| > 0 {
      NoDigitsKept(s[1..]);
    }
  }

  // ---------------------------------------------------------------- rows

  /** The values of a row's cells, keyed 0..k-1 in document order. */
  function RowValues(row: Row): (vs: seq<Value>)
    ensures |vs| == |row.cells|
    ensures forall i :: 0 <= i < |vs| ==> vs[i] == CellValue(row.cells[i])
  {
    seq(|row.cells|, i requires 0 <= i < |row.cells| => CellValue(row.cells[i]))
  }

  /**
   * processRow: one value per cell, at the cell's position in the row. The
   * column letter of each cell is computed and not used.
   */
  method ProcessRow(row: Row) returns (rowData: seq<Value>)
    ensures |rowData| == |row.cells|
    ensures forall i :: 0 <= i < |rowData| ==> rowData[i] == CellValue(row.cells[i])
  {
    rowData := [];
    var key := 0;
    while key < |row.cells|
      invariant 0 <= key <= |row.cells|
      invariant |rowData| == key
      invariant forall i :: 0 <= i < key ==> rowData[i] == CellValue(row.cells[i])
    {
      var cell := row.cells[key];
      var column := ColumnFromCellRef(cell.r);
      var value := CellValue(cell);
      rowData := rowData + [value];
      key := key + 1;
    }
  }

  /** A row is stored under `(int)` of its `r` attribute, provided it has cells. */
  predicate StoredUnder(row: Row, k: int) {
    IntCast(row.r) == k && |row.cells| > 0
  }

  /** The grid a sequence of rows decodes to, row by row. */
  function GridOf(rows: seq<Row>): Grid {
    if |rows| == 0 then []
    else
      var prev := GridOf(rows[..|rows| - 1]);
      var last := rows[|rows| - 1];
      if |last.cells| > 0 then Put(prev, IntCast(last.r), RowValues(last)) else prev
  }

  /** Every row number occurs once in the grid, and no row without cells is stored. */
  lemma {:induction false} GridOfWellFormed(rows: seq<Row>)
    ensures DistinctKeys(GridOf(rows))
    ensures forall i :: 0 <= i < |GridOf(rows)| ==> |GridOf(rows)[i].values| > 0
  {
    if |rows| > 0 {
      var prefix := rows[..|rows| - 1];
      var last := rows[|rows| - 1];
      GridOfWellFormed(prefix);
      if |last.cells| > 0 {
        PutEntries(GridOf(prefix), IntCast(last.r), RowValues(last));
      }
    }
  }

  /** Some row with cells carries the number `k`. */
  predicate AnyStoredUnder(rows: seq<Row>, k: int) {
    exists i :: 0 <= i < |rows| && StoredUnder(rows[i], k)
  }

  lemma AnyStoredUnderStep(rows: seq<Row>, k: int)
    requires |rows| > 0
    ensures AnyStoredUnder(rows, k) <==>
      AnyStoredUnder(rows[..|rows| - 1], k) || StoredUnder(rows[|rows| - 1], k)
  {
    var prefix := rows[..|rows| - 1];
    if AnyStoredUnder(rows, k) {
      var i :| 0 <= i < |rows| && StoredUnder(rows[i], k);
      if i < |prefix| {
        assert prefix[i] == rows[i];
      }
    }
    if AnyStoredUnder(prefix, k) {
      var i :| 0 <= i < |prefix| && StoredUnder(prefix[i], k);
      assert prefix[i] == rows[i];
    }
  }

  /** A row number is in the grid exactly when some row with cells carries it. */
  lemma {:induction false} GridOfHasKey(rows: seq<Row>, k: int)
    ensures Lookup(GridOf(rows), k).Some? <==> AnyStoredUnder(rows, k)
  {
    if |rows| > 0 {
      GridOfHasKey(rows[..|rows| - 1], k);
      GridOfLookupStep(rows, k);
      AnyStoredUnderStep(rows, k);
    }
  }

  /** Adding one row changes the lookup of `k` only when that row is stored under `k`. */
  lemma GridOfLookupStep(rows: seq<Row>, k: int)
    requires |rows| > 0
    ensures Lookup(GridOf(rows), k) ==
      if StoredUnder(rows[|rows| - 1], k) then Some(RowValues(rows[|rows| - 1]))
      else Lookup(GridOf(rows[..|rows| - 1]), k)
  {
  }

  /** A row number holds the values of the last row with cells that carries it. */
  lemma {:induction false} GridOfLastRowWins(rows: seq<Row>, k: int, i: nat)
    requires i < |rows| && StoredUnder(rows[i], k)
    requires forall j :: i < j < |rows| ==> !StoredUnder(rows[j], k)
    ensures Lookup(GridOf(rows), k) == Some(RowValues(rows[i]))
  {
    if i < |rows| - 1 {
      var prefix := rows[..|rows| - 1];
      assert prefix[i] == rows[i];
      assert forall j :: i < j < |prefix| ==> prefix[j] == rows[j];
      GridOfLastRowWins(prefix, k, i);
    }
  }

  lemma GridOfStep(rows: seq<Row>, i: nat)
    requires i < |rows|
    ensures GridOf(rows[..i + 1]) ==
      if |rows[i].cells| > 0 then Put(GridOf(rows[..i]), IntCast(rows[i].r), RowValues(rows[i]))
      else GridOf(rows[..i])
  {
    assert rows[..i + 1][..i] == rows[..i];
  }

  /** Row numbers in first-assignment order. */
  function FirstOccurrences(ks: seq<int>): (r: seq<int>)
    ensures forall k :: k in r <==> k in ks
  {
    if |ks| == 0 then []
    else
      var prev := FirstOccurrences(ks[..|ks| - 1]);
      var k := ks[|ks| - 1];
      assert forall x :: x in ks <==> x in ks[..|ks| - 1] || x == k;
      if k in prev then prev else prev + [k]
  }

  /** The numbers of the rows that have cells, in document order. */
  function StoredNumbers(rows: seq<Row>): seq<int> {
    if |rows| == 0 then []
    else
      var prev := StoredNumbers(rows[..|rows| - 1]);
      var last := rows[|rows| - 1];
      if |last.cells| > 0 then prev + [IntCast(last.r)] else prev
  }

  /** The grid iterates its rows in the order their numbers first appear; a repeat keeps the first place. */
  lemma {:induction false} GridOfOrder(rows: seq<Row>)
    ensures Keys(GridOf(rows)) == FirstOccurrences(StoredNumbers(rows))
  {
    if |rows| > 0 {
      var prefix := rows[..|rows| - 1];
      var last := rows[|rows| - 1];
      GridOfOrder(prefix);
      if |last.cells| > 0 {
        PutKeys(GridOf(prefix), IntCast(last.r), RowValues(last));
      }
    }
  }

  /**
   * parseWorksheet: an empty entry makes `loadXML` throw a ValueError, a
   * document that does not load is an error; otherwise every row with cells is
   * stored under its number, a later row overwriting an earlier one with the
   * same number.
   */
  method ParseWorksheet(xml: Xml) returns (r: Result<Grid, ParseError>)
    ensures xml.EmptyDocument? ==> r == Failure(EmptyWorksheetXml)
    ensures xml.Malformed? ==> r == Failure(InvalidWorksheetXml)
    ensures xml.Worksheet? ==> r == Success(GridOf(xml.rows))
  {
    if xml.EmptyDocument? {
      return Failure(EmptyWorksheetXml);
    }
    if xml.Malformed? {
      return Failure(InvalidWorksheetXml);
    }
    var rows := xml.rows;
    var rawData: Grid := [];
    var i := 0;
    while i < |rows|
      invariant 0 <= i <= |rows|
      invariant rawData == GridOf(rows[..i])
    {
      var row := rows[i];
      var rowNumber := IntCast(row.r);
      var rowData := ProcessRow(row);
      assert rowData == RowValues(row);
      if |rowData| > 0 {
        rawData := Put(rawData, rowNumber, rowData);
      }
      GridOfStep(rows, i);
      i := i + 1;
    }
    assert rows[..|rows|] == rows;
    return Success(rawData);
  }

  // ---------------------------------------------------------------- the archive

  /** The archive entry holding sheet `n`. */
  function SheetPath(n: int): string {
    "xl/worksheets/sheet" + IntToString(n) + ".xml"
  }

  /** Distinct sheet numbers name distinct entries: no sheet is ever read in place of another. */
  lemma SheetPathInjective(a: int, b: int)
    requires SheetPath(a) == SheetPath(b)
    ensures a == b
  {
    var p := "xl/worksheets/sheet";
    assert |p| == 19;
    var sa := SheetPath(a);
    assert sa[19..|sa| - 4] == IntToString(a);
    assert SheetPath(b)[19..|sa| - 4] == IntToString(b);
    IntToStringInjective(a, b);
  }

  datatype ZipState = Unopened | Opened | Closed

  /**
   * The `ZipArchive` that `parse` creates for the file: what opening it
   * returns (None for success, Some(code) for PHP's error code) and the
   * entries it holds. Only `state` changes.
   */
  class ZipArchive {
    const entries: map<string, Xml>
    const openError: Option<int>
    var state: ZipState

    constructor (entries: map<string, Xml>, openError: Option<int>)
      ensures this.entries == entries && this.openError == openError
      ensures state == Unopened
    {
      this.entries := entries;
      this.openError := openError;
      state := Unopened;
    }

    method Open() returns (error: Option<int>)
      requires state == Unopened
      modifies this
      ensures error == openError
      ensures state == if openError.None? then Opened else Unopened
    {
      error := openError;
      if openError.None? {
        state := Opened;
      }
    }

    method GetFromName(name: string) returns (content: Option<Xml>)
      requires state == Opened
      ensures content == if name in entries then Some(entries[name]) else None
    {
      content := if name in entries then Some(entries[name]) else None;
    }

    method Close()
      requires state == Opened
      modifies this
      ensures state == Closed
    {
      state := Closed;
    }
  }

  /** What `parse` returns or throws, checked in the source's order. */
  function ParseOutcome(path: string, fileExists: bool, sheetNumber: Option<int>,
                        openError: Option<int>, entries: map<string, Xml>): Result<Grid, ParseError>
  {
    if !fileExists then Failure(FileNotFound(path))
    else if sheetNumber.None? then Failure(SheetNumberNotSet)
    else if openError.Some? then Failure(CannotOpen(path, openError.value))
    else if SheetPath(sheetNumber.value) !in entries then Failure(SheetNotFound(sheetNumber.value))
    else match entries[SheetPath(sheetNumber.value)]
      case EmptyDocument => Failure(EmptyWorksheetXml)
      case Malformed => Failure(InvalidWorksheetXml)
      case Worksheet(rows) => Success(GridOf(rows))
  }

  /**
   * parse: the file must exist, the sheet number must be set and the archive
   * must open, in that order; once open, the archive is closed again whether
   * the sheet is read, missing or malformed.
   */
  method Parse(path: string, fileExists: bool, sheetNumber: Option<int>, zip: ZipArchive)
    returns (r: Result<Grid, ParseError>)
    requires zip.state == Unopened
    modifies zip
    ensures r == ParseOutcome(path, fileExists, sheetNumber, zip.openError, zip.entries)
    ensures zip.state == if fileExists && sheetNumber.Some? && zip.openError.None? then Closed else Unopened
  {
    if !fileExists {
      return Failure(FileNotFound(path));
    }
    if sheetNumber.None? {
      return Failure(SheetNumberNotSet);
    }
    var error := zip.Open();
    if error.Some? {
      return Failure(CannotOpen(path, error.value));
    }
    var sheetPath := SheetPath(sheetNumber.value);
    var worksheetXml := zip.GetFromName(sheetPath);
    if worksheetXml.None? {
      r := Failure(SheetNotFound(sheetNumber.value));
    } else {
      r := ParseWorksheet(worksheetXml.value);
    }
    zip.Close();
  }

  /** Parsing yields a grid exactly when every check passes and the sheet's entry is a worksheet. */
  lemma ParseSucceeds(path: string, fileExists: bool, sheetNumber: Option<int>,
                      openError: Option<int>, entries: map<string, Xml>)
    ensures ParseOutcome(path, fileExists, sheetNumber, openError, entries).Success? <==>
      fileExists && sheetNumber.Some? && openError.None? &&
      SheetPath(sheetNumber.value) in entries && entries[SheetPath(sheetNumber.value)].Worksheet?
  {
  }

  /** A missing file is reported first, whatever else is wrong. */
  lemma MissingFileFirst(path: string, sheetNumber: Option<int>,
                         openError: Option<int>, entries: map<string, Xml>)
    ensures ParseOutcome(path, false, sheetNumber, openError, entries) == Failure(FileNotFound(path))
  {
  }

  /** With the archive open, a sheet whose entry is absent is reported as not found, never as a grid. */
  lemma MissingSheetNotFound(path: string, n: int, entries: map<string, Xml>)
    requires SheetPath(n) !in entries
    ensures ParseOutcome(path, true, Some(n), None, entries) == Failure(SheetNotFound(n))
  {
  }

  /** Only the entry of the requested sheet is read: archives agreeing on it parse alike. */
  lemma ParseReadsOnlyTheSheet(path: string, n: int, openError: Option<int>,
                               e1: map<string, Xml>, e2: map<string, Xml>)
    requires SheetPath(n) in e1 <==> SheetPath(n) in e2
    requires SheetPath(n) in e1 ==> e1[SheetPath(n)] == e2[SheetPath(n)]
    ensures ParseOutcome(path, true, Some(n), openError, e1) == ParseOutcome(path, true, Some(n), openError, e2)
  {
  }
}
