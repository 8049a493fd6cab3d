/** Concrete cases from the unit tests, stated about the model.

    The tests call `numbers`, `intersect` and `get_row`. Their models, the
    methods `Numbers`, `Intersect` and `GetRow`, are proved to return
    `Candidates`, `Meet` and the per-cell `Forced` characterisation of their
    inputs, so the statements below about those functions are statements about
    the methods' results. */
module SolverTests {
  import opened Schema
  import opened Solver

  /** `numbers(&[1, 2], 5)` yields three vectors; `Numbers` promises they are
      distinct. */
  lemma NumbersSmallCount(labels: Labels)
    requires labels == [1, 2]
    ensures Sum(labels) == 3
    ensures |Candidates(labels, 5)| == 3
  {
    SumTwo(labels);
    CandidatesCount(labels, 5);
    assert Binom(3, 2) == 3;
  }

  /** `numbers(&[1, 2], 7)` yields ten vectors. */
  lemma NumbersTwoRunsCount(labels: Labels)
    requires labels == [1, 2]
    ensures Sum(labels) == 3
    ensures |Candidates(labels, 7)| == 10
  {
    SumTwo(labels);
    CandidatesCount(labels, 7);
    assert Binom(5, 2) == 10;
  }

  /** `numbers(&[1], 7)` yields seven vectors. */
  lemma NumbersOneRunCount(labels: Labels)
    requires labels == [1]
    ensures |Candidates(labels, 7)| == 7
  {
    SumOne(labels);
    CandidatesCount(labels, 7);
    assert Binom(7, 1) == 7;
  }

  /** `numbers(&[1, 1, 1], 7)` yields ten vectors. */
  lemma NumbersThreeRunsCount(labels: Labels)
    requires labels == [1, 1, 1]
    ensures Sum(labels) == 3
    ensures |Candidates(labels, 7)| == 10
  {
    SumThree(labels);
    CandidatesCount(labels, 7);
    assert Binom(5, 3) == 10;
  }

  lemma SumThree(v: seq<nat>)
    requires |v| == 3
    ensures Sum(v) == v[0] + v[1] + v[2]
  {
    var u := v[1..];
    var w := u[1..];
    assert w[1..] == [];
    assert Sum(w) == v[2];
    assert Sum(u) == v[1] + Sum(w);
  }

  lemma SumFour(v: seq<nat>)
    requires |v| == 4
    ensures Sum(v) == v[0] + v[1] + v[2] + v[3]
  {
    SumThree(v[1..]);
  }

  lemma GapVectorMember(v: seq<nat>, labels: Labels, length: nat)
    requires Sum(labels) <= length && IsGapVector(v, labels, length)
    ensures v in Candidates(labels, length)
  {
    CandidatesMeaning(labels, length);
  }

  lemma TwoRunsVector(v: seq<nat>, labels: Labels, length: nat)
    requires labels == [1, 2]
    requires |v| == 3 && v[1] >= 1 && Sum(v) + 3 == length
    ensures IsGapVector(v, labels, length)
  {
    SumTwo(labels);
  }

  /** The three vectors of `numbers(&[1, 2], 5)`. */
  lemma NumbersSmallMembers(labels: Labels, v: seq<nat>)
    requires labels == [1, 2]
    requires v in [[0, 1, 1], [0, 2, 0], [1, 1, 0]]
    ensures Sum(labels) == 3
    ensures v in Candidates(labels, 5)
  {
    SumTwo(labels);
    assert |v| == 3 && v[1] >= 1 && v[0] + v[1] + v[2] == 2;
    SumThree(v);
    TwoRunsVector(v, labels, 5);
    GapVectorMember(v, labels, 5);
  }

  /** The ten vectors of `numbers(&[1, 2], 7)`. */
  lemma NumbersTwoRunsMembers(labels: Labels, v: seq<nat>)
    requires labels == [1, 2]
    requires v in [[0, 1, 3], [0, 2, 2], [0, 3, 1], [0, 4, 0], [1, 1, 2],
                   [1, 2, 1], [1, 3, 0], [2, 1, 1], [2, 2, 0], [3, 1, 0]]
    ensures Sum(labels) == 3
    ensures v in Candidates(labels, 7)
  {
    SumTwo(labels);
    assert |v| == 3 && v[1] >= 1 && v[0] + v[1] + v[2] == 4;
    SumThree(v);
    TwoRunsVector(v, labels, 7);
    GapVectorMember(v, labels, 7);
  }

  lemma ThreeRunsVector(v: seq<nat>, labels: Labels)
    requires labels == [1, 1, 1]
    requires |v| == 4 && v[1] >= 1 && v[2] >= 1 && Sum(v) == 4
    ensures IsGapVector(v, labels, 7)
  {
    SumThree(labels);
  }

  /** The ten vectors of `numbers(&[1, 1, 1], 7)`. */
  lemma NumbersThreeRunsMembers(labels: Labels, v: seq<nat>)
    requires labels == [1, 1, 1]
    requires v in [[0, 1, 1, 2], [0, 2, 1, 1], [0, 1, 2, 1], [0, 3, 1, 0], [0, 1, 3, 0],
                   [0, 2, 2, 0], [1, 1, 1, 1], [1, 2, 1, 0], [1, 1, 2, 0], [2, 1, 1, 0]]
    ensures Sum(labels) == 3
    ensures v in Candidates(labels, 7)
  {
    SumThree(labels);
    assert |v| == 4 && v[1] >= 1 && v[2] >= 1 && v[0] + v[1] + v[2] + v[3] == 4;
    SumFour(v);
    ThreeRunsVector(v, labels);
    GapVectorMember(v, labels, 7);
  }

  /** `numbers(&[1], 7)` yields every split `[i, 6 - i]` of the six free cells. */
  lemma NumbersOneRunMembers(labels: Labels, i: nat)
    requires labels == [1] && i <= 6
    ensures [i, 6 - i] in Candidates(labels, 7)
  {
    SumOne(labels);
    var v: seq<nat> := [i, 6 - i];
    assert v[1..][1..] == [];
    assert Sum(v[1..]) == 6 - i;
    CandidatesMeaning(labels, 7);
  }

  lemma MiddleAndLast()
    ensures Materialize([2, 3], [4])
         == [Crossed, Crossed, Full, Full, Full, Full, Crossed, Crossed, Crossed]
  {
    var x3 := [Crossed, Crossed, Crossed];
    var x2 := [Crossed, Crossed];
    var f4 := [Full, Full, Full, Full];
    assert Repeat(Crossed, 3) == x3 && Repeat(Crossed, 2) == x2 && Repeat(Full, 4) == f4;
    assert [2, 3][1..] == [3] && [4][1..] == [];
    assert Materialize([3], []) == x3;
    assert Materialize([2, 3], [4]) == x2 + f4 + x3;
  }

  /** `numbers_to_row(&[1, 2, 3], &[2, 4])` draws "XOOXXOOOOXXX". */
  lemma NumbersToRowLong()
    ensures NumbersToRow([1, 2, 3], [2, 4])
         == Some([Crossed, Full, Full, Crossed, Crossed, Full, Full, Full, Full, Crossed, Crossed, Crossed])
  {
    var rest := [Crossed, Crossed, Full, Full, Full, Full, Crossed, Crossed, Crossed];
    MiddleAndLast();
    assert Repeat(Crossed, 1) == [Crossed] && Repeat(Full, 2) == [Full, Full];
    assert [1, 2, 3][1..] == [2, 3] && [2, 4][1..] == [4];
    assert Materialize([1, 2, 3], [2, 4]) == [Crossed] + [Full, Full] + rest;
    assert [Crossed] + [Full, Full] + rest
        == [Crossed, Full, Full, Crossed, Crossed, Full, Full, Full, Full, Crossed, Crossed, Crossed];
  }

  /** `numbers_to_row(&[0, 2, 3], &[2, 4])` draws "OOXXOOOOXXX": an empty first
      gap draws nothing before the first run. */
  lemma NumbersToRowNoLeadingGap()
    ensures NumbersToRow([0, 2, 3], [2, 4])
         == Some([Full, Full, Crossed, Crossed, Full, Full, Full, Full, Crossed, Crossed, Crossed])
  {
    var rest := [Crossed, Crossed, Full, Full, Full, Full, Crossed, Crossed, Crossed];
    MiddleAndLast();
    assert Repeat(Crossed, 0) == [] && Repeat(Full, 2) == [Full, Full];
    assert [0, 2, 3][1..] == [2, 3] && [2, 4][1..] == [4];
    assert Materialize([0, 2, 3], [2, 4]) == [] + [Full, Full] + rest;
    assert [] + [Full, Full] + rest
        == [Full, Full, Crossed, Crossed, Full, Full, Full, Full, Crossed, Crossed, Crossed];
  }

  /** `numbers_to_row(&[1, 2], &[2])` draws "XOOXX". */
  lemma NumbersToRowShort()
    ensures NumbersToRow([1, 2], [2]) == Some([Crossed, Full, Full, Crossed, Crossed])
  {
    var x2 := [Crossed, Crossed];
    var f2 := [Full, Full];
    assert Repeat(Crossed, 1) == [Crossed] && Repeat(Crossed, 2) == x2 && Repeat(Full, 2) == f2;
    assert [1, 2][1..] == [2] && [2][1..] == [];
    assert Materialize([2], []) == x2;
    assert Materialize([1, 2], [2]) == [Crossed] + f2 + x2;
    assert [Crossed] + f2 + x2 == [Crossed, Full, Full, Crossed, Crossed];
  }

  /** `numbers_to_row(&[0, 0], &[3])` draws "OOO": empty gaps draw nothing. */
  lemma NumbersToRowNoGaps()
    ensures NumbersToRow([0, 0], [3]) == Some([Full, Full, Full])
  {
    var f3 := [Full, Full, Full];
    assert Repeat(Crossed, 0) == [] && Repeat(Full, 3) == f3;
    assert [0, 0][1..] == [0] && [3][1..] == [];
    assert Materialize([0], []) == [];
    assert Materialize([0, 0], [3]) == [] + f3 + [];
    assert [] + f3 + [] == f3;
  }

  /** The four calls the source rejects by panicking. */
  lemma NumbersToRowRejects()
    ensures NumbersToRow([1], [2, 4]).None?
    ensures NumbersToRow([1, 2, 3, 4], [2, 4]).None?
    ensures NumbersToRow([], [2, 4]).None?
    ensures NumbersToRow([1, 2], []).None?
  {
  }

  /** Both intersect test cases, cell by cell. */
  lemma MeetCells(a: seq<Cell>, b: seq<Cell>, expected: seq<Cell>)
    requires |a| == |b| == |expected|
    requires forall i :: 0 <= i < |a| ==> expected[i] == if a[i] == b[i] then a[i] else Empty
    ensures Meet(a, b) == expected
  {
    forall i | 0 <= i < |a|
      ensures Meet(a, b)[i] == expected[i]
    {
      MeetAt(a, b, i);
    }
  }

  /** Case 1: "..XOOX.OX." against ".X.OXXOXO." leaves "...O.X....". */
  lemma IntersectFirstCase()
    ensures Meet([Empty, Empty, Crossed, Full, Full, Crossed, Empty, Full, Crossed, Empty],
                 [Empty, Crossed, Empty, Full, Crossed, Crossed, Full, Crossed, Full, Empty])
         == [Empty, Empty, Empty, Full, Empty, Crossed, Empty, Empty, Empty, Empty]
  {
    MeetCells([Empty, Empty, Crossed, Full, Full, Crossed, Empty, Full, Crossed, Empty],
              [Empty, Crossed, Empty, Full, Crossed, Crossed, Full, Crossed, Full, Empty],
              [Empty, Empty, Empty, Full, Empty, Crossed, Empty, Empty, Empty, Empty]);
  }

  /** Case 2: "..XOOX.OX." against "...OOX.XO." leaves "...OOX....". */
  lemma IntersectSecondCase()
    ensures Meet([Empty, Empty, Crossed, Full, Full, Crossed, Empty, Full, Crossed, Empty],
                 [Empty, Empty, Empty, Full, Full, Crossed, Empty, Crossed, Full, Empty])
         == [Empty, Empty, Empty, Full, Full, Crossed, Empty, Empty, Empty, Empty]
  {
    MeetCells([Empty, Empty, Crossed, Full, Full, Crossed, Empty, Full, Crossed, Empty],
              [Empty, Empty, Empty, Full, Full, Crossed, Empty, Crossed, Full, Empty],
              [Empty, Empty, Empty, Full, Full, Crossed, Empty, Empty, Empty, Empty]);
  }

  /** Reducing from a line that already knows something does not keep what it
      knows: with labels `[1]` on three cells, a Full first cell is lost,
      because the candidate "XOX" has it Crossed. */
  lemma GetRowForgetsKnownCell(labels: Labels, start: seq<Cell>)
    requires labels == [1] && start == [Full, Empty, Empty]
    ensures !AllEmpty(start)
    ensures !Forced(labels, |start|, 0, Full)
    ensures MeetAll(start, CandidateRows(labels, |start|))[0] == Empty
  {
    SumOne(labels);
    var v: seq<nat> := [1, 1];
    assert v[1..][1..] == [] && Sum(v) == 2;
    assert IsGapVector(v, labels, 3);
    assert Materialize(v, labels)[0] == Crossed;
    ReduceFromStart(labels, start, 0);
  }

  /** A run of 8 on 15 cells: only the middle cell is covered by every
      placement, and no cell is blocked in all of them. */
  lemma EightOnFifteen(labels: Labels, i: nat)
    requires labels == [8] && i < 15
    ensures Forced(labels, 15, i, Full) <==> i == 7
    ensures !Forced(labels, 15, i, Crossed)
  {
    SingleRunForced(labels, 15, i);
  }

  /** The schema unit test builds a 3 x 2 grid whose first row labels `[1, 2]`
      need four cells; validation refuses them at index 0. */
  /** A count mismatch is reported before any list is looked at, so an empty
      list there is no obstacle: `_validate(3, &vec![vec![]], 5)` reports the
      mismatch. */
  lemma ValidateSizeFirst(ls: seq<Labels>)
    requires ls == [[]]
    ensures ReachedNonEmpty(3, ls, 5) && !NonEmptyLabels(ls)
    ensures !Admissible(3, ls, 5)
    ensures Explains(InvalidLabel(SizeMismatch(3, 1)), 3, ls, 5)
  {
    assert |ls[0]| == 0;
  }

  lemma NewOkInputRejected(rowsLabels: seq<Labels>)
    requires rowsLabels == [[1, 2], [1, 2], [3, 4]]
    ensures NonEmptyLabels(rowsLabels)
    ensures !Admissible(3, rowsLabels, 2)
    ensures Explains(InvalidLabel(LabelTooLong(4, 2, 0)), 3, rowsLabels, 2)
  {
    var first := rowsLabels[0];
    assert first[1..][1..] == [];
    assert Sum(first) == 3;
    assert MinLength(first) == 4;
  }
}
