/**
 * StudentScores reshapes the decoded grid: row 1 is the header, row 2 holds
 * the maximum score of every exam item, and every later row that holds more
 * than its label is a student, numbered 1, 2, 3, ... in grid order.
 *
 * The PHP tables built here have the integer keys 1..n, assigned in order; a
 * table is therefore a sequence whose element j holds key j + 1. This applies
 * to the max-score table (key = item), to each reshaped student row
 * (key = item) and to the student table (key = student id).
 */
module Scores {
  import opened Wrappers
  import opened PhpMath
  import opened Values
  import opened Grids

  // ---------------------------------------------------------------- tables keyed 1..n

  /** A row without its position 0 (the label), the remaining keys kept. */
  function Reshape(row: seq<Value>): (r: seq<Value>)
    ensures |r| == if |row| == 0 then 0 else |row| - 1
    ensures forall j :: 0 <= j < |r| ==> r[j] == row[j + 1]
  {
    if |row| == 0 then [] else row[1..]
  }

  /** `$t[$key] = $x` on a table keyed 1..|t|: overwrite a present key, append the next one. */
  function Assign<T>(t: seq<T>, key: nat, x: T): (r: seq<T>)
    requires 1 <= key <= |t| + 1
    ensures |r| == if key <= |t| then |t| else |t| + 1
    ensures r[key - 1] == x
    ensures forall j :: 0 <= j < |t| && j != key - 1 ==> r[j] == t[j]
  {
    if key <= |t| then t[key - 1 := x] else t + [x]
  }

  /** Writing the keys 1..|written| of `written` over `prior`: higher keys of `prior` survive. */
  function Overlay<T>(prior: seq<T>, written: seq<T>): (r: seq<T>)
    ensures |r| == if |written| >= |prior| then |written| else |prior|
    ensures forall j :: 0 <= j < |r| ==> r[j] == if j < |written| then written[j] else prior[j]
  {
    if |written| >= |prior| then written else written + prior[|written|..]
  }

  lemma OverlaySnoc<T>(prior: seq<T>, written: seq<T>, x: T)
    ensures |written| <= |Overlay(prior, written)|
    ensures Overlay(prior, written + [x]) == Assign(Overlay(prior, written), |written| + 1, x)
  {
  }

  lemma ReshapeSnoc(row: seq<Value>, index: nat)
    requires 1 <= index < |row|
    ensures CoerceAll(Reshape(row[..index + 1])) == CoerceAll(Reshape(row[..index])) + [Coerce(row[index])]
  {
    assert Reshape(row[..index + 1]) == Reshape(row[..index]) + [row[index]];
  }

  // ---------------------------------------------------------------- what format builds

  /** A grid row that becomes a student: numbered above 2, with more than its label. */
  predicate IsStudentRow(e: GridRow) {
    e.number > 2 && |Reshape(e.values)| > 0
  }

  /** The reshaped student rows of a grid, in grid order: element s is student s + 1. */
  function StudentRows(grid: Grid): seq<seq<Value>> {
    if |grid| == 0 then []
    else
      var prev := StudentRows(grid[..|grid| - 1]);
      var last := grid[|grid| - 1];
      if IsStudentRow(last) then prev + [Reshape(last.values)] else prev
  }

  /** The max-score table after the grid's rows numbered 2 were written over `prior`. */
  function MaxScoresAfter(prior: seq<Value>, grid: Grid): seq<Value> {
    if |grid| == 0 then prior
    else
      var prev := MaxScoresAfter(prior, grid[..|grid| - 1]);
      var last := grid[|grid| - 1];
      if last.number == 2 then Overlay(prev, CoerceAll(Reshape(last.values))) else prev
  }

  lemma {:induction false} StudentRowsAppend(a: Grid, b: Grid)
    ensures StudentRows(a + b) == StudentRows(a) + StudentRows(b)
  {
    if |b| > 0 {
      var b' := b[..|b| - 1];
      assert (a + b)[..|a + b| - 1] == a + b';
      StudentRowsAppend(a, b');
    } else {
      assert a + b == a;
    }
  }

  lemma {:induction false} MaxScoresAfterAppend(prior: seq<Value>, a: Grid, b: Grid)
    ensures MaxScoresAfter(prior, a + b) == MaxScoresAfter(MaxScoresAfter(prior, a), b)
  {
    if |b| > 0 {
      var b' := b[..|b| - 1];
      assert (a + b)[..|a + b| - 1] == a + b';
      MaxScoresAfterAppend(prior, a, b');
    } else {
      assert a + b == a;
    }
  }

  /**
   * A row that is not a student row (the header, a label-only row, a row
   * numbered 2 or below) neither receives a student id nor uses one up.
   */
  lemma NonStudentRowGetsNoId(a: Grid, e: GridRow, b: Grid)
    requires !IsStudentRow(e)
    ensures StudentRows(a + [e] + b) == StudentRows(a + b)
  {
    StudentRowsAppend(a + [e], b);
    StudentRowsAppend(a, [e]);
    StudentRowsAppend(a, b);
    assert StudentRows([e]) == [] by {
      assert [e][..0] == [];
    }
  }

  /** Only rows numbered 2 reach the max-score table. */
  lemma OnlyRowTwoSetsMaxScores(prior: seq<Value>, a: Grid, e: GridRow, b: Grid)
    requires e.number != 2
    ensures MaxScoresAfter(prior, a + [e] + b) == MaxScoresAfter(prior, a + b)
  {
    MaxScoresAfterAppend(prior, a + [e], b);
    MaxScoresAfterAppend(prior, a, [e]);
    MaxScoresAfterAppend(prior, a, b);
    assert MaxScoresAfter(MaxScoresAfter(prior, a), [e]) == MaxScoresAfter(prior, a) by {
      assert [e][..0] == [];
    }
  }

  /** The header row, and any row numbered 0 or below, contributes to neither table. */
  lemma HeaderAndLowRowsIgnored(prior: seq<Value>, a: Grid, e: GridRow, b: Grid)
    requires e.number <= 1
    ensures StudentRows(a + [e] + b) == StudentRows(a + b)
    ensures MaxScoresAfter(prior, a + [e] + b) == MaxScoresAfter(prior, a + b)
  {
    NonStudentRowGetsNoId(a, e, b);
    OnlyRowTwoSetsMaxScores(prior, a, e, b);
  }

  /**
   * Student ids are consecutive in grid order: the student row at grid
   * position i gets the id one above the number of student rows before it.
   */
  lemma StudentIdOfRow(grid: Grid, i: nat)
    requires i < |grid| && IsStudentRow(grid[i])
    ensures |StudentRows(grid[..i])| < |StudentRows(grid)|
    ensures StudentRows(grid)[|StudentRows(grid[..i])|] == Reshape(grid[i].values)
  {
    assert grid == grid[..i] + [grid[i]] + grid[i + 1..];
    StudentRowsAppend(grid[..i] + [grid[i]], grid[i + 1..]);
    StudentRowsAppend(grid[..i], [grid[i]]);
    assert StudentRows([grid[i]]) == [Reshape(grid[i].values)] by {
      assert [grid[i]][..0] == [];
    }
  }

  /** The number of grid rows numbered above 2. */
  function RowsAboveTwo(grid: Grid): nat {
    if |grid| == 0 then 0
    else RowsAboveTwo(grid[..|grid| - 1]) + (if grid[|grid| - 1].number > 2 then 1 else 0)
  }

  /** There are never more students than grid rows numbered above 2. */
  lemma {:induction false} StudentCountBound(grid: Grid)
    ensures |StudentRows(grid)| <= RowsAboveTwo(grid)
  {
    if |grid| > 0 {
      StudentCountBound(grid[..|grid| - 1]);
    }
  }

  /**
   * Starting from an empty table, the max-score table is row 2 without its
   * label, numeric values coerced to float, or empty when there is no row 2.
   */
  lemma {:induction false} MaxScoresFromRowTwo(grid: Grid)
    requires DistinctKeys(grid)
    ensures MaxScoresAfter([], grid) ==
      match Lookup(grid, 2)
      case None => []
      case Some(row) => CoerceAll(Reshape(row))
  {
    if |grid| > 0 {
      var prefix := grid[..|grid| - 1];
      var last := grid[|grid| - 1];
      assert grid == prefix + [last];
      assert DistinctKeys(prefix);
      MaxScoresFromRowTwo(prefix);
      IndexOfAppend(prefix, last, 2);
      if last.number == 2 {
        assert forall j :: 0 <= j < |prefix| ==> Keys(prefix)[j] != 2 by {
          forall j | 0 <= j < |prefix|
            ensures Keys(prefix)[j] != 2
          {
            assert grid[j].number != grid[|grid| - 1].number;
          }
        }
        assert Lookup(prefix, 2).None?;
      }
    }
  }

  /**
   * Header, max-score row, one student and a row without cells: one student
   * (id 1, scores [8, 9]); the empty row gets no id.
   */
  lemma FormatExample()
    ensures var g := [
        GridRow(1, [Text("H"), Text("H")]),
        GridRow(2, [Text("lbl"), Number(10.0), Number(10.0)]),
        GridRow(3, [Text("s1"), Number(8.0), Number(9.0)]),
        GridRow(4, [])];
      StudentRows(g) == [[Number(8.0), Number(9.0)]] &&
      MaxScoresAfter([], g) == [Number(10.0), Number(10.0)]
  {
    var g := [
      GridRow(1, [Text("H"), Text("H")]),
      GridRow(2, [Text("lbl"), Number(10.0), Number(10.0)]),
      GridRow(3, [Text("s1"), Number(8.0), Number(9.0)]),
      GridRow(4, [])];
    assert g[..4] == g && g[..4][..3] == g[..3] && g[..3][..2] == g[..2];
    assert g[..2][..1] == g[..1] && g[..1][..0] == [];
    assert !IsStudentRow(g[0]) && !IsStudentRow(g[1]) && !IsStudentRow(g[3]);
    assert StudentRows(g[..1]) == [];
    assert StudentRows(g[..2]) == [];
    assert Reshape(g[2].values) == [Number(8.0), Number(9.0)];
    assert StudentRows(g[..3]) == [[Number(8.0), Number(9.0)]];
    assert MaxScoresAfter([], g[..1]) == [];
    assert CoerceAll(Reshape(g[1].values)) == [Number(10.0), Number(10.0)];
    assert MaxScoresAfter([], g[..2]) == [Number(10.0), Number(10.0)];
  }

  // ---------------------------------------------------------------- the P value

  datatype PValueError = DivisionByZero | NonNumericOperand

  /** `$row[$key]` on a table keyed 1..|row|. */
  function KeyAt(row: seq<Value>, key: int): (r: Option<Value>)
    ensures r.Some? <==> 1 <= key <= |row|
    ensures r.Some? ==> r.value == row[key - 1]
  {
    if 1 <= key <= |row| then Some(row[key - 1]) else None
  }

  /** `$scores[$index]` as an operand of `+=`: a missing key reads as null, which adds as 0. */
  function Addend(row: seq<Value>, key: int): Option<real> {
    match KeyAt(row, key)
    case None => Some(0.0)
    case Some(v) => AsNumber(v)
  }

  /** The loop of getAverageScoreForCol: the column's running sum, or the TypeError it hits. */
  function ColumnSum(rows: seq<seq<Value>>, index: int): (r: Result<real, PValueError>)
    ensures r.Failure? ==> r.error == NonNumericOperand
  {
    if |rows| == 0 then Success(0.0)
    else
      match ColumnSum(rows[..|rows| - 1], index)
      case Failure(e) => Failure(e)
      case Success(sum) =>
        match Addend(rows[|rows| - 1], index)
        case None => Failure(NonNumericOperand)
        case Some(x) => Success(sum + x)
  }

  /** getAverageScoreForCol: the column's sum over the number of students, to 1 decimal. */
  function AverageForCol(rows: seq<seq<Value>>, index: int): Result<real, PValueError> {
    match ColumnSum(rows, index)
    case Failure(e) => Failure(e)
    case Success(sum) =>
      if |rows| == 0 then Failure(DivisionByZero) else Success(Round(sum / |rows| as real, 1))
  }

  /** getPValue: the rounded average over the item's maximum, to 2 decimals. */
  function PValue(rows: seq<seq<Value>>, maxScores: seq<Value>, index: int): Result<real, PValueError> {
    match AverageForCol(rows, index)
    case Failure(e) => Failure(e)
    case Success(average) =>
      match KeyAt(maxScores, index)
      case None => Failure(DivisionByZero)
      case Some(v) =>
        match AsNumber(v)
        case None => Failure(NonNumericOperand)
        case Some(m) => if m == 0.0 then Failure(DivisionByZero) else Success(Round(average / m, 2))
  }

  /** The row has the item `index`, and it is a number. */
  predicate NumericAt(row: seq<Value>, index: int) {
    1 <= index <= |row| && AsNumber(row[index - 1]).Some?
  }

  /** The item's value in a row where it is a number. */
  function Entry(row: seq<Value>, index: int): real
    requires NumericAt(row, index)
  {
    AsNumber(row[index - 1]).value
  }

  /** Every student row has the item `index`, and it is a number. */
  predicate NumericColumn(rows: seq<seq<Value>>, index: int) {
    forall s :: 0 <= s < |rows| ==> NumericAt(rows[s], index)
  }

  /** The column's plain sum, when every entry is a number. */
  function ColumnTotal(rows: seq<seq<Value>>, index: int): real
    requires NumericColumn(rows, index)
  {
    if |rows| == 0 then 0.0
    else
      assert NumericAt(rows[|rows| - 1], index);
      assert NumericColumn(rows[..|rows| - 1], index) by {
        assert forall s :: 0 <= s < |rows| - 1 ==> rows[..|rows| - 1][s] == rows[s];
      }
      ColumnTotal(rows[..|rows| - 1], index) + Entry(rows[|rows| - 1], index)
  }

  lemma {:induction false} ColumnSumNumeric(rows: seq<seq<Value>>, index: int)
    requires NumericColumn(rows, index)
    ensures ColumnSum(rows, index) == Success(ColumnTotal(rows, index))
  {
    if |rows| > 0 {
      var prefix := rows[..|rows| - 1];
      assert forall s :: 0 <= s < |prefix| ==> prefix[s] == rows[s];
      assert NumericAt(rows[|rows| - 1], index);
      ColumnSumNumeric(prefix, index);
    }
  }

  /**
   * With at least one student, the item present and numeric in every student
   * row and a non-zero numeric maximum, the P value is
   * round(round(sum / students, 1) / max, 2).
   */
  lemma PValueFormula(rows: seq<seq<Value>>, maxScores: seq<Value>, index: int, m: real)
    requires |rows| > 0 && NumericColumn(rows, index)
    requires KeyAt(maxScores, index).Some? && AsNumber(maxScores[index - 1]) == Some(m) && m != 0.0
    ensures PValue(rows, maxScores, index) ==
      Success(Round(Round(ColumnTotal(rows, index) / |rows| as real, 1) / m, 2))
  {
    ColumnSumNumeric(rows, index);
  }

  /** Without students the average divides by zero, whatever the tables hold. */
  lemma PValueWithoutStudents(maxScores: seq<Value>, index: int)
    ensures PValue([], maxScores, index) == Failure(DivisionByZero)
  {
  }

  /** An item missing from the max-score table divides by null, i.e. by zero. */
  lemma PValueUnknownItem(rows: seq<seq<Value>>, maxScores: seq<Value>, index: int)
    requires AverageForCol(rows, index).Success?
    requires !(1 <= index <= |maxScores|)
    ensures PValue(rows, maxScores, index) == Failure(DivisionByZero)
  {
  }

  /** Two students scoring 8 and 6 on an item worth 10: P value 0.70. */
  lemma PValueExample()
    ensures PValue([[Number(8.0)], [Number(6.0)]], [Number(10.0)], 1) == Success(0.7)
  {
    var rows := [[Number(8.0)], [Number(6.0)]];
    assert rows[..1][..0] == [];
    assert ColumnSum(rows, 1) == Success(14.0);
    assert Scale(1) == 10.0 && Scale(2) == 100.0;
    IntegralOfInt(7.0 * Scale(1), 70);
    RoundKeepsDecimals(7.0, 1);
    IntegralOfInt(0.7 * Scale(2), 70);
    RoundKeepsDecimals(0.7, 2);
  }

  /** Every entry of the column lies between 0 and `m`. */
  predicate ColumnWithin(rows: seq<seq<Value>>, index: int, m: real)
    requires NumericColumn(rows, index)
  {
    forall s :: 0 <= s < |rows| ==> 0.0 <= Entry(rows[s], index) <= m
  }

  lemma {:induction false} ColumnTotalWithin(rows: seq<seq<Value>>, index: int, m: real)
    requires NumericColumn(rows, index) && ColumnWithin(rows, index, m)
    ensures 0.0 <= ColumnTotal(rows, index) <= |rows| as real * m
  {
    if |rows| > 0 {
      var prefix := rows[..|rows| - 1];
      var last := ColumnWithinStep(rows, index, m);
      ColumnTotalWithin(prefix, index, m);
      AddWithin(ColumnTotal(prefix, index), last, |prefix| as real, |rows| as real, m);
    }
  }

  /** Splitting off the last row: the prefix keeps both column properties, and the total adds the last entry. */
  lemma ColumnWithinStep(rows: seq<seq<Value>>, index: int, m: real) returns (last: real)
    requires |rows| > 0 && NumericColumn(rows, index) && ColumnWithin(rows, index, m)
    ensures NumericColumn(rows[..|rows| - 1], index) && ColumnWithin(rows[..|rows| - 1], index, m)
    ensures last == Entry(rows[|rows| - 1], index) && 0.0 <= last <= m
    ensures ColumnTotal(rows, index) == ColumnTotal(rows[..|rows| - 1], index) + last
  {
    var prefix := rows[..|rows| - 1];
    forall s | 0 <= s < |prefix|
      ensures NumericAt(prefix[s], index) && 0.0 <= Entry(prefix[s], index) <= m
    {
      assert prefix[s] == rows[s];
    }
    assert NumericAt(rows[|rows| - 1], index);
    last := Entry(rows[|rows| - 1], index);
  }

  lemma AddWithin(total: real, x: real, n: real, next: real, m: real)
    requires next == n + 1.0
    requires 0.0 <= total <= n * m && 0.0 <= x <= m
    ensures 0.0 <= total + x <= next * m
  {
  }

  lemma AverageWithin(total: real, n: real, m: real)
    requires n >= 1.0 && 0.0 <= total <= n * m
    ensures 0.0 <= total / n <= m
  {
    ScaleOrder(total / n, m, n);
  }

  lemma RatioWithin(a: real, m: real)
    requires m > 0.0 && 0.0 <= a <= m
    ensures 0.0 <= a / m <= 1.0
  {
    ScaleOrder(a / m, 1.0, m);
  }

  /**
   * When the item's maximum has at most one decimal and every score lies in
   * [0, max], the P value lies in [0, 1]. (The intermediate rounding to one
   * decimal can push it above 1 for a maximum with more decimals.)
   */
  lemma PValueWithinUnit(rows: seq<seq<Value>>, maxScores: seq<Value>, index: int, m: real)
    requires |rows| > 0 && NumericColumn(rows, index)
    requires KeyAt(maxScores, index).Some? && AsNumber(maxScores[index - 1]) == Some(m)
    requires m > 0.0 && HasDecimals(m, 1)
    requires ColumnWithin(rows, index, m)
    ensures PValue(rows, maxScores, index).Success?
    ensures 0.0 <= PValue(rows, maxScores, index).value <= 1.0
  {
    var average := ColumnAverageWithin(rows, index, m);
    RoundedRatioWithinUnit(average, m);
    PValueFormula(rows, maxScores, index, m);
  }

  /** The column's average lies in [0, m] when every entry does. */
  lemma ColumnAverageWithin(rows: seq<seq<Value>>, index: int, m: real) returns (average: real)
    requires |rows| > 0 && NumericColumn(rows, index) && ColumnWithin(rows, index, m)
    ensures average == ColumnTotal(rows, index) / |rows| as real
    ensures 0.0 <= average <= m
  {
    ColumnTotalWithin(rows, index, m);
    AverageWithin(ColumnTotal(rows, index), |rows| as real, m);
    average := ColumnTotal(rows, index) / |rows| as real;
  }

  /** round(round(a, 1) / m, 2) lies in [0, 1] when 0 <= a <= m and m has one decimal. */
  lemma RoundedRatioWithinUnit(a: real, m: real)
    requires 0.0 <= a <= m && m > 0.0 && HasDecimals(m, 1)
    ensures 0.0 <= Round(Round(a, 1) / m, 2) <= 1.0
  {
    var rounded := Round(a, 1);
    assert 0.0 <= rounded <= m by {
      RoundError(a, 1);
      RoundMonotone(a, m, 1);
      RoundKeepsDecimals(m, 1);
    }
    RatioWithin(rounded, m);
    RoundError(rounded / m, 2);
    RoundMonotone(rounded / m, 1.0, 2);
    assert Round(1.0, 2) == 1.0 by {
      IntegralOfInt(1.0 * Scale(2), 100);
      RoundKeepsDecimals(1.0, 2);
    }
  }

  // ---------------------------------------------------------------- the object

  class StudentScores {
    var maxScores: seq<Value>
    var studentScores: seq<seq<Value>>

    constructor ()
      ensures maxScores == [] && studentScores == []
    {
      maxScores := [];
      studentScores := [];
    }

    /** format: build both tables from the grid (see ProcessRawData). */
    method Format(rawData: Grid)
      modifies this
      ensures maxScores == MaxScoresAfter(old(maxScores), rawData)
      ensures studentScores == Overlay(old(studentScores), StudentRows(rawData))
    {
      ProcessRawData(rawData);
    }

    /**
     * processRawData: walk the grid in order; skip row 1, copy row 2 into
     * maxScores, and give every non-empty reshaped row numbered above 2 the
     * next student id.
     */
    method ProcessRawData(rawData: Grid)
      modifies this
      ensures maxScores == MaxScoresAfter(old(maxScores), rawData)
      ensures studentScores == Overlay(old(studentScores), StudentRows(rawData))
    {
      var studentId := 1;
      var i := 0;
      while i < |rawData|
        invariant 0 <= i <= |rawData|
        invariant maxScores == MaxScoresAfter(old(maxScores), rawData[..i])
        invariant studentScores == Overlay(old(studentScores), StudentRows(rawData[..i]))
        invariant studentId == |StudentRows(rawData[..i])| + 1
      {
        var rowNumber := rawData[i].number;
        var rowData := rawData[i].values;
        assert rawData[..i + 1][..i] == rawData[..i];
        assert rawData[..i + 1][i] == rawData[i];
        if rowNumber == 1 {
          // the header row
        } else if rowNumber == 2 {
          ExtractMaxScores(rowData);
        } else if rowNumber > 2 {
          var formattedRowData := ProcessStudentRow(rowData);
          assert formattedRowData == Reshape(rowData);
          if |formattedRowData| > 0 {
            OverlaySnoc(old(studentScores), StudentRows(rawData[..i]), formattedRowData);
            studentScores := Assign(studentScores, studentId, formattedRowData);
            studentId := studentId + 1;
          }
        }
        i := i + 1;
      }
      assert rawData[..i] == rawData;
    }

    /** extractMaxScores: every value but the label, numeric strings coerced to float, written under its key. */
    method ExtractMaxScores(rowData: seq<Value>)
      modifies this
      ensures maxScores == Overlay(old(maxScores), CoerceAll(Reshape(rowData)))
      ensures studentScores == old(studentScores)
    {
      var index := 0;
      while index < |rowData|
        invariant 0 <= index <= |rowData|
        invariant maxScores == Overlay(old(maxScores), CoerceAll(Reshape(rowData[..index])))
        invariant studentScores == old(studentScores)
      {
        if index != 0 {
          ReshapeSnoc(rowData, index);
          OverlaySnoc(old(maxScores), CoerceAll(Reshape(rowData[..index])), Coerce(rowData[index]));
          maxScores := Assign(maxScores, index, Coerce(rowData[index]));
        } else {
          assert Reshape(rowData[..1]) == [];
        }
        index := index + 1;
      }
      assert rowData[..index] == rowData;
    }

    /** processStudentRow: every value but the label, keys and values as they are. */
    static method ProcessStudentRow(rowData: seq<Value>) returns (formattedData: seq<Value>)
      ensures |formattedData| == if |rowData| == 0 then 0 else |rowData| - 1
      ensures forall key :: 1 <= key < |rowData| ==> formattedData[key - 1] == rowData[key]
    {
      formattedData := [];
      var index := 0;
      while index < |rowData|
        invariant 0 <= index <= |rowData|
        invariant |formattedData| == if index == 0 then 0 else index - 1
        invariant forall key :: 1 <= key < index ==> formattedData[key - 1] == rowData[key]
      {
        if index != 0 {
          formattedData := formattedData + [rowData[index]];
        }
        index := index + 1;
      }
    }

    /** getAverageScoreForCol: sum the item over all students, then average and round. */
    method GetAverageScoreForCol(index: int) returns (r: Result<real, PValueError>)
      ensures r == AverageForCol(studentScores, index)
    {
      var total := 0.0;
      var s := 0;
      while s < |studentScores|
        invariant 0 <= s <= |studentScores|
        invariant ColumnSum(studentScores[..s], index) == Success(total)
      {
        assert studentScores[..s + 1][..s] == studentScores[..s];
        var addend := Addend(studentScores[s], index);
        if addend.None? {
          ColumnSumFailureStays(studentScores, s + 1, index);
          assert studentScores[..|studentScores|] == studentScores;
          return Failure(NonNumericOperand);
        }
        total := total + addend.value;
        s := s + 1;
      }
      assert studentScores[..s] == studentScores;
      if |studentScores| == 0 {
        return Failure(DivisionByZero);
      }
      return Success(Round(total / |studentScores| as real, 1));
    }

    /** getPValue: the item's rounded average over its maximum, rounded to 2 decimals. */
    method GetPValue(index: int) returns (r: Result<real, PValueError>)
      ensures r == PValue(studentScores, maxScores, index)
    {
      var average := GetAverageScoreForCol(index);
      if average.Failure? {
        return Failure(average.error);
      }
      var maxScore := KeyAt(maxScores, index);
      if maxScore.None? {
        return Failure(DivisionByZero);
      }
      var divisor := AsNumber(maxScore.value);
      if divisor.None? {
        return Failure(NonNumericOperand);
      }
      if divisor.value == 0.0 {
        return Failure(DivisionByZero);
      }
      return Success(Round(average.value / divisor.value, 2));
    }

    method GetMaxScores() returns (r: seq<Value>)
      ensures r == maxScores
    {
      r := maxScores;
    }

    method GetStudentScores() returns (r: seq<seq<Value>>)
      ensures r == studentScores
    {
      r := studentScores;
    }
  }

  /** Once the running sum has hit a TypeError, the whole loop ends in it. */
  lemma {:induction false} ColumnSumFailureStays(rows: seq<seq<Value>>, s: nat, index: int)
    requires s <= |rows| && ColumnSum(rows[..s], index).Failure?
    ensures ColumnSum(rows, index).Failure?
    decreases |rows| - s
  {
    if s < |rows| {
      assert rows[..s + 1][..s] == rows[..s];
      ColumnSumFailureStays(rows, s + 1, index);
    } else {
      assert rows[..s] == rows;
    }
  }
}
