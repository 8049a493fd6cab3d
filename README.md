# Nonogram line solver in Dafny

This project models the line-deduction kernel of a nonogram solver, together
with the puzzle record that answers are checked against, and proves what each
of them computes.

A line of a nonogram is a row or column of cells. Each cell is `Empty`
(unknown), `Full` (filled) or `Crossed` (blocked). The labels of a line are the
lengths of its runs of `Full` cells, left to right. A gap distribution gives
the number of blocked cells before, between and after the runs.

The model covers these pieces:

- **`Schema`** (`schema.dfy`) models `nonogram/src/schema.rs`:
  - the three-state `Cell`;
  - label validation (`_validate` as the method `Validate`);
  - construction of an all-`Empty` grid (`NonogramSchema::new` as the method `New`);
  - the `rows`/`cols` accessors, as the datatype members `Rows` and `Cols`;
  - the "line satisfies its labels" check (`is_solved` as `IsSolved` over `RunLengths`);
  - the whole-grid check (`solved` as `Solved`).

  The `Array2D` grid is a `Grid` value. It keeps its two dimensions next to the
  rows, so a grid with no rows still knows its column count.
- **`Solver`** (`solver.dfy`) models `nonogram/src/solver.rs`:
  - `intersect` is the method `Intersect`. It overwrites an `array<Cell>` in
    place and is proved against the function `Meet`.
  - `numbers` and `_rec` are the methods `Numbers` and `Rec`. `Rec` fills a
    shared `array<nat>` and appends snapshots to the output buffer. Both are
    proved against the function `Branches`, which lists the recursion's output
    in loop order. `Branches` is in turn proved to yield exactly the gap
    distributions, each once, in increasing lexicographic order, and their
    number is a binomial coefficient.
  - `numbers_to_row` is the function `NumbersToRow`. It is built on
    `Materialize`, and the two are proved to be mutually inverse with the
    run-length view of a line.
  - `get_row` is the method `GetRow`. It folds `Intersect` over every candidate
    row, and each result cell is characterised in terms of what every gap
    distribution forces.
- **`SolverTests`** (`examples.dfy`) restates the unit-test cases of
  `nonogram/src/tests/solver_tests.rs` as lemmas about the model, plus a few
  concrete consequences of the general theorems.

Behaviour of the code that the model keeps as written:

- `get_row` does not discard candidates that conflict with the cells already
  known in the starting line, and it has no "no candidate fits" signal. Started
  from a line that knows something, it keeps a known cell only when every
  candidate agrees with it. Otherwise the cell goes back to `Empty`
  (`SolverTests.GetRowForgetsKnownCell`).
- In `_rec`, the value at every position runs up to the whole free total, not
  just up to what is left of it, and completions with the wrong total are
  dropped at the end. Each position's loop counts upward, so the output comes
  in lexicographic order.
- The unit test `new_ok` (`nonogram/src/schema.rs:110-118`) expects success
  for row labels `[1, 2]` on two columns. Validation rejects this at index 0,
  since those labels need four cells. The model follows the validation code
  (`SolverTests.NewOkInputRejected`).

## Model

| member | source | states |
|---|---|---|
| Schema.Validate | nonogram/src/schema.rs:24-46 | Returns `Ok(())` exactly when there are `n` label lists and each needs at most `m` cells (runs plus one separator between consecutive runs). On failure the error is the count mismatch (expected, found) if there is one, otherwise the first list that does not fit, with its required length, the allowed length and its index. Only the lists the loop reaches must be non-empty |
| Schema.New | nonogram/src/schema.rs:49-64 | Succeeds exactly when the row labels fit the column count and the column labels fit the row count. Row labels are checked first and their error is the one returned. On success the grid is `rows` x `cols` with every cell `Empty`, `Rows()`/`Cols()` return `rows`/`cols`, and both label lists are stored unchanged |
| Schema.LeadingFull | nonogram/src/schema.rs:94-100 | The group at the start of a line is maximal: all its cells are `Full` and the cell after it is not |
| Schema.RunLengths | nonogram/src/schema.rs:94-100 | Every group length reported for a line is positive (only groups of `Full` cells are kept) |
| Schema.RunLengthsCountFull | nonogram/src/schema.rs:94-100 | The group lengths add up to the number of `Full` cells of the line |
| Schema.RunLengthsEmpty | nonogram/src/schema.rs:94-100 | A line has no groups exactly when none of its cells is `Full` |
| Schema.RunLengthsFullMask | nonogram/src/schema.rs:94-100 | Two lines with `Full` cells in the same places have the same groups: `Empty` and `Crossed` separate groups alike |
| Schema.RunLengthsSkip | nonogram/src/schema.rs:94-100 | Non-`Full` cells in front of a line add no group |
| Schema.RunLengthsRun | nonogram/src/schema.rs:94-100 | `b` `Full` cells followed by a non-`Full` cell (or by the end of the line) form one group of length `b` in front of the rest's groups |
| Schema.FilledWith | nonogram/src/schema.rs:59 | The grid built for a new puzzle is `rows` x `cols` and holds the given cell everywhere |
| Schema.IsSolved | nonogram/src/schema.rs:94-102 | A line that satisfies its labels has as many `Full` cells as the labels add up to. What the check means in full is stated by `RunLengthsRun`/`RunLengthsSkip` (how groups are formed) and `Solver.SolvedIffMaterialized` (solved lines are the rows of gap distributions) |
| Schema.NonogramSchema.Solved | nonogram/src/schema.rs:74-92 | `solved()` holds exactly when each row satisfies its row labels and each column satisfies its column labels, for every index both the lines and the label lists have (the `zip` stops at the shorter one) |
| Schema.AllSolvedMeaning | nonogram/src/schema.rs:75-79 | Zipping lines with label lists and requiring all pairs to pass is the line check at every index both lists have |
| Schema.BlankNotSolved | nonogram/src/schema.rs:74-92 | A freshly built grid (all `Empty`, every label list non-empty) is solved only when it has no rows and no columns |
| Solver.Meet | nonogram/src/solver.rs:9-15 | The intersection has `row1`'s length. Its cells are given by `MeetAt` |
| Solver.MeetAt | nonogram/src/solver.rs:9-15 | Cell `i` of the intersection is `Empty` where both rows have a cell and the two differ. Otherwise it is `row1`'s cell, including every cell past the end of `row2` |
| Solver.Intersect | nonogram/src/solver.rs:9-15 | `row1` becomes the intersection of its old contents with `row2`. Each cell turns `Empty` where `row2` disagrees and is unchanged otherwise, so no cell ever becomes `Full` or `Crossed` |
| Solver.RecStep | nonogram/src/solver.rs:40-43 | One round of the worker's loop: appending the completions that put `i` at `index` extends the output for bound `i` to the output for bound `i + 1` |
| Solver.Rec | nonogram/src/solver.rs:28-44 | Appends to `buf`, in loop order, every completion of `cur[..index]` whose total is `sum`. Each position takes values from its lower bound (0 at both ends, 1 inside) up to `sum`. Entries of `cur` before `index` are left as they were |
| Solver.Branches | nonogram/src/solver.rs:28-44 | The output of `_rec` from a given position, in loop order. No contract of its own: `BranchesSound`, `BranchesComplete` and `BranchesSorted` state what it yields, and `CandidatesMeaning` states it for the whole vector |
| Solver.Candidates | nonogram/src/solver.rs:17-26 | Every vector the enumeration produces is a gap distribution |
| Solver.SuffixMeaning | nonogram/src/solver.rs:28-39 | The position-by-position condition of the recursion is the same as: one entry per remaining position, each at least its lower bound, and the entries summing to the remaining total |
| Solver.BranchesSound | nonogram/src/solver.rs:28-44 | Every vector the recursion yields is a valid completion of its prefix |
| Solver.BranchesComplete | nonogram/src/solver.rs:28-44 | Every valid completion whose first value is below the loop bound is yielded |
| Solver.BranchesSorted | nonogram/src/solver.rs:37-43 | The recursion yields its completions in strictly increasing lexicographic order |
| Solver.CandidatesMeaning | nonogram/src/solver.rs:17-44 | A vector is produced exactly when it is a gap distribution: one gap more than there are runs, interior gaps at least 1, and gaps plus runs filling the line |
| Solver.CandidatesSorted | nonogram/src/solver.rs:17-44 | The vectors come in strictly increasing lexicographic order, so none repeats |
| Solver.Numbers | nonogram/src/solver.rs:17-26 | Returns exactly the gap distributions for the labels and line length, each once, in strictly increasing lexicographic order |
| Solver.NoLabelsCandidates | nonogram/src/solver.rs:17-26 | With no labels, the only distribution is one gap covering the whole line, `[length]` |
| Solver.CandidatesExist | nonogram/src/solver.rs:17-26 | Some distribution exists exactly when the runs and their separators fit in the line |
| Solver.TightestVector | nonogram/src/solver.rs:17-26 | When the runs fit, packing them to the left with single separators is a gap distribution |
| Solver.CandidatesCount | nonogram/src/solver.rs:17-44 | `k` runs on a line with `f` free cells have `f + 1` choose `k` distributions |
| Solver.Materialize | nonogram/src/solver.rs:54-66 | The row of a distribution has length `sum(voids) + sum(labels)` and no `Empty` cell |
| Solver.NumbersToRow | nonogram/src/solver.rs:46-67 | Refuses (the source panics) exactly when the number of gaps is not one more than the number of runs. Otherwise the row has length `sum(voids) + sum(labels)` and no `Empty` cell |
| Solver.MaterializeRuns | nonogram/src/solver.rs:54-66 | Round trip: when the labels are positive and the separators non-empty, the `Full` groups of the materialised row are exactly the labels |
| Solver.MaterializeGaps | nonogram/src/solver.rs:54-66 | Round trip: the stretches of non-`Full` cells of the materialised row are exactly the gaps |
| Solver.DecodeMaterialize | nonogram/src/solver.rs:54-66 | Every row without `Empty` cells is the materialised row of its own gaps and groups, with one gap more than groups and non-empty separators |
| Solver.SolvedIffMaterialized | nonogram/src/schema.rs:94-102 | A line with no `Empty` cell satisfies the labels exactly when the labels are positive and the line is the row of some gap distribution of them |
| Solver.MeetAll | nonogram/src/solver.rs:79-82 | Folding the intersection over the candidate rows keeps the line's length. Its cells are given by `MeetAllAt` |
| Solver.MeetAllStep | nonogram/src/solver.rs:79-82 | Intersecting with the next candidate row and folding the rest is folding from that row on |
| Solver.MeetAllAt | nonogram/src/solver.rs:79-82 | After intersecting a start line with every row in turn, a cell keeps its starting value exactly when every row that reaches it agrees; otherwise it is `Empty` |
| Solver.MeetAllFromFirst | nonogram/src/solver.rs:73-82 | Folding from the first row, a cell keeps the first row's value exactly when every row has that value there |
| Solver.ForcedByRows | nonogram/src/solver.rs:69-85 | A value is forced at a cell (every gap distribution's row has it there) exactly when every candidate row has it there |
| Solver.ReduceFromFirst | nonogram/src/solver.rs:73-82 | Started from the first candidate, a cell ends `Full` exactly when it is forced `Full`, `Crossed` exactly when it is forced `Crossed`, and `Empty` otherwise |
| Solver.ForcedAsFirst | nonogram/src/solver.rs:73-77 | A forced value is the value the first candidate row has |
| Solver.ReduceFromStart | nonogram/src/solver.rs:76-82 | Started from a given line, a cell keeps its value exactly when that value is determined and forced; otherwise it is `Empty` |
| Solver.ReduceAllFromFirst | nonogram/src/solver.rs:73-82 | The per-cell statement of `ReduceFromFirst`, for every cell of the line |
| Solver.ReduceAllFromStart | nonogram/src/solver.rs:76-82 | The per-cell statement of `ReduceFromStart`, for every cell, so every cell ends `Empty` or as it started |
| Solver.GetRow | nonogram/src/solver.rs:69-85 | Keeps the line's length. From an all-`Empty` line, each cell is `Full` or `Crossed` exactly when every distribution forces that value, and `Empty` otherwise. From any other line, a cell keeps its starting value exactly when it is determined and every distribution forces it; otherwise it is `Empty` |
| Solver.SingleRunForced | nonogram/src/solver.rs:69-85 | For one run of `b` cells on a line of `length`, a cell is forced `Full` exactly when `length - b <= i < b`, and no cell is forced `Crossed` |
| SolverTests.NumbersSmallCount | nonogram/src/tests/solver_tests.rs:9-12 | `numbers(&[1, 2], 5)` yields 3 vectors |
| SolverTests.NumbersSmallMembers | nonogram/src/tests/solver_tests.rs:13-15 | `[0, 1, 1]`, `[0, 2, 0]` and `[1, 1, 0]` are among them |
| SolverTests.NumbersTwoRunsCount | nonogram/src/tests/solver_tests.rs:19-22 | `numbers(&[1, 2], 7)` yields 10 vectors |
| SolverTests.NumbersTwoRunsMembers | nonogram/src/tests/solver_tests.rs:24-33 | The ten vectors the test lists are among them |
| SolverTests.NumbersOneRunCount | nonogram/src/tests/solver_tests.rs:37-40 | `numbers(&[1], 7)` yields 7 vectors |
| SolverTests.NumbersOneRunMembers | nonogram/src/tests/solver_tests.rs:42-44 | `[i, 6 - i]` is among them for every `i` from 0 to 6 |
| SolverTests.NumbersThreeRunsCount | nonogram/src/tests/solver_tests.rs:59-61 | `numbers(&[1, 1, 1], 7)` yields 10 vectors |
| SolverTests.NumbersThreeRunsMembers | nonogram/src/tests/solver_tests.rs:63-72 | The ten vectors the test lists are among them |
| SolverTests.IntersectFirstCase | nonogram/src/tests/solver_tests.rs:82-87 | `..XOOX.OX.` intersected with `.X.OXXOXO.` is `...O.X....` |
| SolverTests.IntersectSecondCase | nonogram/src/tests/solver_tests.rs:88-93 | `..XOOX.OX.` intersected with `...OOX.XO.` is `...OOX....` |
| SolverTests.NumbersToRowLong | nonogram/src/tests/solver_tests.rs:111-116 | Gaps `[1, 2, 3]` with runs `[2, 4]` draw `XOOXXOOOOXXX` |
| SolverTests.NumbersToRowNoLeadingGap | nonogram/src/tests/solver_tests.rs:117-122 | Gaps `[0, 2, 3]` with runs `[2, 4]` draw `OOXXOOOOXXX` |
| SolverTests.NumbersToRowShort | nonogram/src/tests/solver_tests.rs:123-128 | Gaps `[1, 2]` with run `[2]` draw `XOOXX` |
| SolverTests.NumbersToRowNoGaps | nonogram/src/tests/solver_tests.rs:129-134 | Gaps `[0, 0]` with run `[3]` draw `OOO` |
| SolverTests.NumbersToRowRejects | nonogram/src/tests/solver_tests.rs:140-147 | Gaps too few, too many or absent, and runs absent, are all refused |
| SolverTests.GetRowForgetsKnownCell | nonogram/src/solver.rs:76-82 | With labels `[1]` on three cells, cell 0 of the line `O..` (known `Full`) is not forced `Full`, so `GetRow`'s contract gives `Empty` there. Folding from that line indeed turns the known `Full` cell back to `Empty` |
| SolverTests.ValidateSizeFirst | nonogram/src/schema.rs:25-31 | `_validate(3, &vec![vec![]], 5)` is within `Validate`'s precondition although its list is empty, and the error is the count mismatch (expected 3, found 1) |
| SolverTests.EightOnFifteen | nonogram/src/solver.rs:69-85 | A run of 8 on 15 cells forces only cell 7, and forces nothing `Crossed` |
| SolverTests.NewOkInputRejected | nonogram/src/schema.rs:34-43 | The row labels of the `new_ok` test do not fit two columns, and the error validation reports is the one at index 0, needing 4 cells where 2 are allowed |

## Left out

- Integer width: `usize` is modelled as unbounded `nat`. Two subtractions of the source would underflow, and both become preconditions. In `numbers`, the line length minus the label sum needs `Sum(labels) <= length`. In `_validate`, a label list's length minus one needs that list to be non-empty. The precondition covers only the lists the loop reaches: a count mismatch returns before any list is read, and a list after the first one that does not fit is never read. `New` demands this of the column lists only when the row lists pass, since otherwise it returns before validating the columns.
- Panics: `numbers_to_row`'s panic on a wrong number of gaps is the `None` result of `NumbersToRow`. `get_row`'s `unwrap` of the first candidate becomes a precondition of `GetRow`: when the line is all `Empty`, the runs must fit. `CandidatesExist` proves this is the same as having a first candidate.
- Error messages: the formatted text of `InvalidLabel` is modelled as the numbers it reports (`Reason`), not as a string.
- Laziness: iterators are modelled as the sequences they produce. `numbers_to_row` is a function returning the whole row, and the candidates are produced in full before `get_row` folds over them.
- The buffer capacity hint of `numbers` (`Vec::with_capacity(100)`) has no observable effect and is not modelled.
- `Schema.Rows`, `Schema.Cols`: return the stored grid dimensions. What they return after construction is stated by `Schema.New`'s contract, not by a contract of their own.
- The `solve` and `solve_vec` propagation drivers and `print` are not part of this model. Their source is not among the files modelled.
- The command-line demo, the benchmarks and the module wiring in `lib.rs` hold no logic of the kernel and are left out.
- `GetRow`: the result is stated per cell in terms of forced values. It does not promise any compatibility filtering or contradiction signal, because the code has neither.
