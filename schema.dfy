/** The puzzle record of the nonogram solver: the three-state cell, label
    validation, construction of an all-unknown grid, and the check that a line
    (or the whole grid) satisfies its labels. */
module Schema {

  /** One grid position: Empty is unknown, Full is filled, Crossed is blocked. */
  datatype Cell = Empty | Full | Crossed

  /** The numbers the source formats into the message of an InvalidLabel error. */
  datatype Reason =
    | SizeMismatch(expected: nat, found: nat)
    | LabelTooLong(required: nat, allowed: nat, index: nat)

  datatype Error = InvalidLabel(reason: Reason)

  /** `Result<T>` of the source. */
  datatype Result<T> = Ok(value: T) | Err(error: Error)

  /** The run lengths of one line, left to right. */
  type Labels = seq<nat>

  function Sum(s: seq<nat>): nat
  {
    if s == [] then 0 else s[0] + Sum(s[1..])
  }

  function Repeat(c: Cell, k: nat): (r: seq<Cell>)
    ensures |r| == k && forall i :: 0 <= i < k ==> r[i] == c
  {
    if k == 0 then [] else [c] + Repeat(c, k - 1)
  }

  /** Cells a non-empty label list needs: its runs plus one separator between
      consecutive runs. */
  function MinLength(labels: Labels): nat
    requires |labels| > 0
  {
    Sum(labels) + |labels| - 1
  }

  predicate NonEmptyLabels(ls: seq<Labels>)
  {
    forall i :: 0 <= i < |ls| ==> |ls[i]| > 0
  }

  /** The lists before index `i` are non-empty and fit in `m` cells. */
  predicate FitBefore(ls: seq<Labels>, m: nat, i: nat)
    requires i <= |ls|
  {
    forall j :: 0 <= j < i ==> |ls[j]| > 0 && MinLength(ls[j]) <= m
  }

  /** Every list that validation reaches is non-empty, so computing the cells
      it needs does not underflow: when the count is right, a list is reached
      once every list before it fits. */
  predicate ReachedNonEmpty(n: nat, ls: seq<Labels>, m: nat)
  {
    |ls| == n ==> forall i :: 0 <= i < |ls| && FitBefore(ls, m, i) ==> |ls[i]| > 0
  }

  /** `n` label lists, each of which is non-empty and fits in a line of `m` cells. */
  predicate Admissible(n: nat, ls: seq<Labels>, m: nat)
  {
    |ls| == n && FitBefore(ls, m, |ls|)
  }

  /** `e` is the error that validating `ls` (expected `n` lists, lines of `m`
      cells) reports: a count mismatch if there is one, otherwise the first
      list that does not fit. */
  predicate Explains(e: Error, n: nat, ls: seq<Labels>, m: nat)
  {
    if |ls| != n then
      e == InvalidLabel(SizeMismatch(n, |ls|))
    else
      e.reason.LabelTooLong? &&
      var i := e.reason.index;
      i < |ls| && FitBefore(ls, m, i) && |ls[i]| > 0 &&
      e == InvalidLabel(LabelTooLong(MinLength(ls[i]), m, i)) && MinLength(ls[i]) > m
  }

  /** Checks that there are `n` label lists and that each fits in `m` cells,
      stopping at the first one that does not. */
  method Validate(n: nat, ls: seq<Labels>, m: nat) returns (r: Result<()>)
    requires ReachedNonEmpty(n, ls, m)
    ensures r.Ok? <==> Admissible(n, ls, m)
    ensures r.Err? ==> Explains(r.error, n, ls, m)
  {
    if |ls| != n {
      return Err(InvalidLabel(SizeMismatch(n, |ls|)));
    }
    for index := 0 to |ls|
      invariant FitBefore(ls, m, index)
    {
      var v := Sum(ls[index]) + |ls[index]| - 1;
      if v > m {
        return Err(InvalidLabel(LabelTooLong(v, m, index)));
      }
    }
    return Ok(());
  }

  /** A rectangular grid of cells stored row by row, with its dimensions kept
      apart so that a grid without rows still knows its column count. */
  datatype Grid = Grid(numRows: nat, numColumns: nat, cells: seq<seq<Cell>>)
  {
    predicate Valid()
    {
      |cells| == numRows && forall i :: 0 <= i < |cells| ==> |cells[i]| == numColumns
    }

    function Column(j: nat): seq<Cell>
      requires Valid() && j < numColumns
    {
      seq(numRows, i requires 0 <= i < numRows => cells[i][j])
    }

    function Columns(): seq<seq<Cell>>
      requires Valid()
    {
      seq(numColumns, j requires 0 <= j < numColumns => Column(j))
    }
  }

  /** `Array2D::filled_with`: a `rows` x `cols` grid holding `c` everywhere. */
  function FilledWith(c: Cell, rows: nat, cols: nat): (g: Grid)
    ensures g.Valid() && g.numRows == rows && g.numColumns == cols
    ensures forall i, j :: 0 <= i < rows && 0 <= j < cols ==> g.cells[i][j] == c
  {
    Grid(rows, cols, seq(rows, _ => Repeat(c, cols)))
  }

  datatype NonogramSchema = NonogramSchema(data: Grid, rowsLabels: seq<Labels>, colsLabels: seq<Labels>)
  {
    function Rows(): nat
    {
      data.numRows
    }

    function Cols(): nat
    {
      data.numColumns
    }

    /** Every row satisfies its row labels and every column its column labels
        (each pairing stops at the shorter of the two lists). */
    predicate Solved()
      requires data.Valid()
      ensures Solved() <==>
                (forall i :: 0 <= i < data.numRows && i < |rowsLabels| ==> IsSolved(data.cells[i], rowsLabels[i])) &&
                (forall j :: 0 <= j < data.numColumns && j < |colsLabels| ==> IsSolved(data.Column(j), colsLabels[j]))
    {
      AllSolvedMeaning(data.cells, rowsLabels);
      AllSolvedMeaning(data.Columns(), colsLabels);
      AllSolved(data.cells, rowsLabels) && AllSolved(data.Columns(), colsLabels)
    }
  }

  predicate AllSolved(lines: seq<seq<Cell>>, ls: seq<Labels>)
  {
    if lines == [] || ls == [] then true
    else IsSolved(lines[0], ls[0]) && AllSolved(lines[1..], ls[1..])
  }

  /** Validates the row labels against the column count, then the column
      labels against the row count, and builds an all-Empty grid. */
  method New(rows: nat, cols: nat, rowsLabels: seq<Labels>, colsLabels: seq<Labels>)
    returns (r: Result<NonogramSchema>)
    requires ReachedNonEmpty(rows, rowsLabels, cols)
    requires Admissible(rows, rowsLabels, cols) ==> ReachedNonEmpty(cols, colsLabels, rows)
    ensures r.Ok? <==> Admissible(rows, rowsLabels, cols) && Admissible(cols, colsLabels, rows)
    ensures !Admissible(rows, rowsLabels, cols) ==> r.Err? && Explains(r.error, rows, rowsLabels, cols)
    ensures Admissible(rows, rowsLabels, cols) && !Admissible(cols, colsLabels, rows) ==>
              r.Err? && Explains(r.error, cols, colsLabels, rows)
    ensures r.Ok? ==>
              r.value.data.Valid() && r.value.Rows() == rows && r.value.Cols() == cols &&
              r.value.rowsLabels == rowsLabels && r.value.colsLabels == colsLabels &&
              forall i, j :: 0 <= i < rows && 0 <= j < cols ==> r.value.data.cells[i][j] == Empty
  {
    var v := Validate(rows, rowsLabels, cols);
    if v.Err? {
      return Err(v.error);
    }
    v := Validate(cols, colsLabels, rows);
    if v.Err? {
      return Err(v.error);
    }
    return Ok(NonogramSchema(FilledWith(Empty, rows, cols), rowsLabels, colsLabels));
  }

  /** Number of Full cells at the start of `line`. */
  function LeadingFull(line: seq<Cell>): (k: nat)
    ensures k <= |line|
    ensures forall i :: 0 <= i < k ==> line[i] == Full
    ensures k < |line| ==> line[k] != Full
  {
    if line == [] || line[0] != Full then 0 else 1 + LeadingFull(line[1..])
  }

  /** Lengths of the maximal groups of Full cells, left to right; Empty and
      Crossed cells both end a group. */
  function RunLengths(line: seq<Cell>): (r: seq<nat>)
    ensures forall k :: 0 <= k < |r| ==> r[k] > 0
    decreases |line|
  {
    if line == [] then []
    else if line[0] != Full then RunLengths(line[1..])
    else
      var k := LeadingFull(line);
      [k] + RunLengths(line[k..])
  }

  /** `is_solved`: the groups of Full cells of `line` are exactly `labels`;
      the labels then count the Full cells of the line. */
  predicate IsSolved(line: seq<Cell>, labels: Labels)
    ensures IsSolved(line, labels) ==> Sum(labels) == CountFull(line)
  {
    RunLengthsCountFull(line);
    RunLengths(line) == labels
  }

  function CountFull(line: seq<Cell>): nat
  {
    if line == [] then 0 else (if line[0] == Full then 1 else 0) + CountFull(line[1..])
  }

  /** The runs account for every Full cell of the line. */
  lemma {:induction false} RunLengthsCountFull(line: seq<Cell>)
    ensures Sum(RunLengths(line)) == CountFull(line)
    decreases |line|
  {
    if line == [] {
    } else if line[0] != Full {
      RunLengthsCountFull(line[1..]);
    } else {
      var k := LeadingFull(line);
      RunLengthsCountFull(line[k..]);
      FullPrefixCount(line, k);
    }
  }

  lemma {:induction false} FullPrefixCount(line: seq<Cell>, k: nat)
    requires k <= |line| && forall i :: 0 <= i < k ==> line[i] == Full
    ensures CountFull(line) == k + CountFull(line[k..])
    decreases k
  {
    if k > 0 {
      FullPrefixCount(line[1..], k - 1);
      assert line[1..][k - 1..] == line[k..];
    }
  }

  /** A line has no runs exactly when it has no Full cell. */
  lemma {:induction false} RunLengthsEmpty(line: seq<Cell>)
    ensures RunLengths(line) == [] <==> forall i :: 0 <= i < |line| ==> line[i] != Full
    decreases |line|
  {
    if line != [] && line[0] != Full {
      RunLengthsEmpty(line[1..]);
      assert forall i :: 1 <= i < |line| ==> line[i] == line[1..][i - 1];
    }
  }

  /** Only where the Full cells are matters: Empty and Crossed separate runs alike. */
  lemma {:induction false} RunLengthsFullMask(a: seq<Cell>, b: seq<Cell>)
    requires |a| == |b| && forall i :: 0 <= i < |a| ==> (a[i] == Full <==> b[i] == Full)
    ensures RunLengths(a) == RunLengths(b)
    decreases |a|
  {
    if a != [] {
      if a[0] != Full {
        RunLengthsFullMask(a[1..], b[1..]);
      } else {
        LeadingFullMask(a, b);
        var k := LeadingFull(a);
        RunLengthsFullMask(a[k..], b[k..]);
      }
    }
  }

  lemma {:induction false} LeadingFullMask(a: seq<Cell>, b: seq<Cell>)
    requires |a| == |b| && forall i :: 0 <= i < |a| ==> (a[i] == Full <==> b[i] == Full)
    ensures LeadingFull(a) == LeadingFull(b)
    decreases |a|
  {
    if a != [] && a[0] == Full {
      LeadingFullMask(a[1..], b[1..]);
    }
  }

  /** Cells before the first Full cell contribute no run. */
  lemma {:induction false} RunLengthsSkip(p: seq<Cell>, s: seq<Cell>)
    requires forall i :: 0 <= i < |p| ==> p[i] != Full
    ensures RunLengths(p + s) == RunLengths(s)
    decreases |p|
  {
    if p == [] {
      assert p + s == s;
    } else {
      var line := p + s;
      assert line[0] != Full && line[1..] == p[1..] + s;
      assert RunLengths(line) == RunLengths(line[1..]);
      RunLengthsSkip(p[1..], s);
    }
  }

  /** `b` Full cells followed by a non-Full cell (or the end of the line)
      form one run of length `b`. */
  lemma RunLengthsRun(b: nat, s: seq<Cell>)
    requires b > 0 && (s == [] || s[0] != Full)
    ensures RunLengths(Repeat(Full, b) + s) == [b] + RunLengths(s)
  {
    var line := Repeat(Full, b) + s;
    LeadingFullOfRun(b, s);
    assert line[b..] == s;
  }

  lemma {:induction false} LeadingFullOfRun(b: nat, s: seq<Cell>)
    requires s == [] || s[0] != Full
    ensures LeadingFull(Repeat(Full, b) + s) == b
    decreases b
  {
    if b > 0 {
      assert (Repeat(Full, b) + s)[1..] == Repeat(Full, b - 1) + s;
      LeadingFullOfRun(b - 1, s);
    }
  }

  /** Zipping lines with label lists and requiring every pair to pass is the
      line check at every index both lists have. */
  lemma {:induction false} AllSolvedMeaning(lines: seq<seq<Cell>>, ls: seq<Labels>)
    ensures AllSolved(lines, ls) <==> forall i :: 0 <= i < |lines| && i < |ls| ==> IsSolved(lines[i], ls[i])
    decreases |lines|
  {
    if lines != [] && ls != [] {
      AllSolvedMeaning(lines[1..], ls[1..]);
      assert forall i :: 1 <= i < |lines| && i < |ls| ==> lines[i] == lines[1..][i - 1] && ls[i] == ls[1..][i - 1];
    }
  }

  /** A freshly built schema (all cells Empty, every label list non-empty) is
      not solved unless the grid has no rows and no columns. */
  lemma BlankNotSolved(rows: nat, cols: nat, rowsLabels: seq<Labels>, colsLabels: seq<Labels>)
    requires NonEmptyLabels(rowsLabels) && NonEmptyLabels(colsLabels)
    requires |rowsLabels| == rows && |colsLabels| == cols
    ensures NonogramSchema(FilledWith(Empty, rows, cols), rowsLabels, colsLabels).Solved() <==> rows == 0 && cols == 0
  {
    var s := NonogramSchema(FilledWith(Empty, rows, cols), rowsLabels, colsLabels);
    if rows > 0 {
      RunLengthsEmpty(s.data.cells[0]);
      assert !IsSolved(s.data.cells[0], rowsLabels[0]);
    } else if cols > 0 {
      RunLengthsEmpty(s.data.Column(0));
      assert !IsSolved(s.data.Column(0), colsLabels[0]);
    }
  }
}
