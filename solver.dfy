/** The line-deduction kernel of the nonogram solver: enumeration of every gap
    distribution of a line, materialisation of one distribution into a row of
    cells, cell-wise intersection of rows, and the line reducer that folds the
    intersection over every candidate row. */
module Solver {
  import opened Schema

  datatype Option<T> = None | Some(value: T)

  // ---------------------------------------------------------------------------
  // intersect

  /** `a` where it agrees with `b`, Empty where it does not; positions of `a`
      past the end of `b` are kept as they are. */
  function Meet(a: seq<Cell>, b: seq<Cell>): (r: seq<Cell>)
    ensures |r| == |a|
  {
    if a == [] || b == [] then a
    else [if a[0] == b[0] then a[0] else Empty] + Meet(a[1..], b[1..])
  }

  lemma {:induction false} MeetAt(a: seq<Cell>, b: seq<Cell>, i: nat)
    requires i < |a|
    ensures Meet(a, b)[i] == if i < |b| && a[i] != b[i] then Empty else a[i]
  {
    if b != [] && i > 0 {
      MeetAt(a[1..], b[1..], i - 1);
    }
  }

  /** Overwrites with Empty every cell of `row1` that differs from the cell of
      `row2` at the same index. */
  method Intersect(row1: array<Cell>, row2: seq<Cell>)
    modifies row1
    ensures row1[..] == Meet(old(row1[..]), row2)
    ensures forall i :: 0 <= i < row1.Length ==>
              row1[i] == if i < |row2| && old(row1[i]) != row2[i] then Empty else old(row1[i])
    ensures forall i :: 0 <= i < row1.Length ==> row1[i] == Empty || row1[i] == old(row1[i])
  {
    var n := if row1.Length < |row2| then row1.Length else |row2|;
    for i := 0 to n
      invariant forall k :: 0 <= k < i ==> row1[k] == if old(row1[k]) != row2[k] then Empty else old(row1[k])
      invariant forall k :: i <= k < row1.Length ==> row1[k] == old(row1[k])
    {
      if row1[i] != row2[i] {
        row1[i] := Empty;
      }
    }
    ghost var was := old(row1[..]);
    forall k | 0 <= k < row1.Length
      ensures row1[..][k] == Meet(was, row2)[k]
    {
      MeetAt(was, row2, k);
    }
  }

  // ---------------------------------------------------------------------------
  // numbers and _rec

  /** Smallest gap allowed at position `p` of a gap vector with `n` slots: the
      two ends may be empty, a separator between two runs may not. */
  function Lower(n: nat, p: nat): nat
  {
    if p == 0 || p == n - 1 then 0 else 1
  }

  /** Every vector of `xs`, with `p` in front. */
  function Prefixed(p: seq<nat>, xs: seq<seq<nat>>): seq<seq<nat>>
  {
    seq(|xs|, k requires 0 <= k < |xs| => p + xs[k])
  }

  /** What the enumeration appends for positions `index..n-1` of an `n`-slot
      vector, as suffixes: running total `curSum` so far, the value at `index`
      ranging over `Lower(n, index)..hi-1`, and only completions whose total
      is exactly `sum` kept; in the order the loops produce them. */
  function Branches(n: nat, index: nat, curSum: nat, sum: nat, hi: nat): seq<seq<nat>>
    decreases n - index, hi
  {
    if index >= n then (if curSum == sum then [[]] else [])
    else if hi <= Lower(n, index) then []
    else
      Branches(n, index, curSum, sum, hi - 1) +
      Prefixed([hi - 1], Branches(n, index + 1, curSum + hi - 1, sum, sum + 1))
  }

  lemma PrefixedAppend(p: seq<nat>, xs: seq<seq<nat>>, ys: seq<seq<nat>>)
    ensures Prefixed(p, xs + ys) == Prefixed(p, xs) + Prefixed(p, ys)
  {
  }

  lemma PrefixedEmpty(xs: seq<seq<nat>>)
    ensures Prefixed([], xs) == xs
  {
    forall k | 0 <= k < |xs|
      ensures Prefixed([], xs)[k] == xs[k]
    {
      assert [] + xs[k] == xs[k];
    }
  }

  lemma PrefixedSingle(p: seq<nat>)
    ensures Prefixed(p, [[]]) == [p]
  {
    assert p + [] == p;
  }

  lemma PrefixedTwice(p: seq<nat>, q: seq<nat>, xs: seq<seq<nat>>)
    ensures Prefixed(p, Prefixed(q, xs)) == Prefixed(p + q, xs)
  {
    forall k | 0 <= k < |xs|
      ensures Prefixed(p, Prefixed(q, xs))[k] == Prefixed(p + q, xs)[k]
    {
      assert p + (q + xs[k]) == (p + q) + xs[k];
    }
  }

  /** One round of the worker's loop: appending the completions that take `i`
      at `index` extends what the bound `i` yields to what the bound `i + 1`
      yields. */
  lemma RecStep(prefix: seq<nat>, n: nat, index: nat, curSum: nat, sum: nat, i: nat,
                buf: seq<seq<nat>>, before: seq<seq<nat>>, after: seq<seq<nat>>)
    requires index < n && i >= Lower(n, index)
    requires before == buf + Prefixed(prefix, Branches(n, index, curSum, sum, i))
    requires after == before + Prefixed(prefix + [i], Branches(n, index + 1, curSum + i, sum, sum + 1))
    ensures after == buf + Prefixed(prefix, Branches(n, index, curSum, sum, i + 1))
  {
    var tails := Branches(n, index + 1, curSum + i, sum, sum + 1);
    assert Branches(n, index, curSum, sum, i + 1) == Branches(n, index, curSum, sum, i) + Prefixed([i], tails);
    PrefixedTwice(prefix, [i], tails);
    PrefixedAppend(prefix, Branches(n, index, curSum, sum, i), Prefixed([i], tails));
  }

  /** The recursive worker: fills `cur` from `index` on and appends to `buf`
      every completion of `cur[..index]` whose total is `sum`. Entries of `cur`
      before `index` are left as they were. */
  method Rec(cur: array<nat>, index: nat, curSum: nat, sum: nat, buf: seq<seq<nat>>)
    returns (out: seq<seq<nat>>)
    requires 0 < cur.Length && index <= cur.Length
    modifies cur
    ensures cur[..index] == old(cur[..index])
    ensures out == buf + Prefixed(old(cur[..index]), Branches(cur.Length, index, curSum, sum, sum + 1))
    decreases cur.Length - index
  {
    var last := cur.Length - 1;
    if index > last {
      assert cur[..] == cur[..index];
      if curSum == sum {
        out := buf + [cur[..]];
        PrefixedSingle(cur[..index]);
      } else {
        out := buf;
      }
      return;
    }
    var inf := if index == 0 || index == last then 0 else 1;
    ghost var prefix := cur[..index];
    out := buf;
    for i := inf to sum + 1
      invariant cur[..index] == prefix
      invariant out == buf + Prefixed(prefix, Branches(cur.Length, index, curSum, sum, i))
    {
      cur[index] := i;
      assert cur[..index + 1] == prefix + [i];
      ghost var before := out;
      out := Rec(cur, index + 1, curSum + i, sum, out);
      assert cur[..index] == cur[..index + 1][..index];
      RecStep(prefix, cur.Length, index, curSum, sum, i, buf, before, out);
    }
  }

  /** Every admissible gap distribution for `labels` on a line of `length`
      cells, in the order the enumeration produces them. */
  function Candidates(labels: Labels, length: nat): (vs: seq<seq<nat>>)
    requires Sum(labels) <= length
    ensures forall k :: 0 <= k < |vs| ==> IsGapVector(vs[k], labels, length)
  {
    var total := length - Sum(labels);
    var vs := Branches(|labels| + 1, 0, 0, total, total + 1);
    assert forall k :: 0 <= k < |vs| ==> IsGapVector(vs[k], labels, length) by {
      forall k | 0 <= k < |vs|
        ensures IsGapVector(vs[k], labels, length)
      {
        BranchesSound(|labels| + 1, 0, 0, total, total + 1, vs[k]);
        GapVectorIsSuffix(vs[k], labels, length);
      }
    }
    vs
  }

  /** A gap distribution for `labels` on a line of `length` cells: one gap
      before, between and after the runs, at least one cell between two runs,
      and gaps and runs together filling the line exactly. */
  predicate IsGapVector(v: seq<nat>, labels: Labels, length: nat)
  {
    |v| == |labels| + 1 &&
    (forall j :: 0 < j < |labels| ==> v[j] >= 1) &&
    Sum(v) + Sum(labels) == length
  }

  predicate LexLess(a: seq<nat>, b: seq<nat>)
  {
    a != [] && b != [] && (a[0] < b[0] || (a[0] == b[0] && LexLess(a[1..], b[1..])))
  }

  predicate StrictlySorted(xs: seq<seq<nat>>)
  {
    forall i, j :: 0 <= i < j < |xs| ==> LexLess(xs[i], xs[j])
  }

  /** Enumerates every gap distribution for `labels` on a line of `length`
      cells, each exactly once, in increasing lexicographic order. */
  method Numbers(labels: Labels, length: nat) returns (r: seq<seq<nat>>)
    requires Sum(labels) <= length
    ensures r == Candidates(labels, length)
    ensures forall v :: v in r <==> IsGapVector(v, labels, length)
    ensures StrictlySorted(r)
    ensures forall i, j :: 0 <= i < j < |r| ==> r[i] != r[j]
  {
    var len := |labels| + 1;
    var sum := length - Sum(labels);
    var cur := new nat[len](_ => 0);
    r := Rec(cur, 0, 0, sum, []);
    PrefixedEmpty(Candidates(labels, length));
    CandidatesMeaning(labels, length);
    CandidatesSorted(labels, length);
    forall i, j | 0 <= i < j < |r|
      ensures r[i] != r[j]
    {
      LexLessIrreflexive(r[i]);
    }
  }

  /** The suffix condition `Branches` enumerates, position by position: one
      entry per remaining position, each at least its position's lower bound,
      the entries summing to `rest`. */
  predicate ValidSuffix(t: seq<nat>, n: nat, index: nat, rest: int)
    decreases n - index
  {
    if index >= n then t == [] && rest == 0
    else |t| > 0 && t[0] >= Lower(n, index) && ValidSuffix(t[1..], n, index + 1, rest - t[0])
  }

  /** A valid suffix sums to a non-negative `rest`, so its head is at most `rest`. */
  lemma {:induction false} SuffixBound(t: seq<nat>, n: nat, index: nat, rest: int)
    requires ValidSuffix(t, n, index, rest)
    ensures rest >= 0
    ensures index < n ==> t[0] <= rest
    decreases n - index
  {
    if index < n {
      SuffixBound(t[1..], n, index + 1, rest - t[0]);
    }
  }

  /** The position-by-position condition, stated all at once. */
  lemma {:induction false} SuffixMeaning(t: seq<nat>, n: nat, index: nat, rest: int)
    requires index <= n
    ensures ValidSuffix(t, n, index, rest) <==>
            |t| == n - index &&
            (forall j :: 0 <= j < |t| ==> t[j] >= Lower(n, index + j)) &&
            Sum(t) == rest
    decreases n - index
  {
    if index < n && |t| > 0 {
      var u := t[1..];
      SuffixMeaning(u, n, index + 1, rest - t[0]);
      if |t| == n - index {
        assert (forall j :: 0 <= j < |t| ==> t[j] >= Lower(n, index + j)) <==>
               t[0] >= Lower(n, index) && (forall j :: 0 <= j < |u| ==> u[j] >= Lower(n, index + 1 + j)) by {
          forall j | 0 <= j < |u|
            ensures u[j] == t[j + 1]
          {
          }
          assert forall j :: 0 < j < |t| ==> t[j] == u[j - 1];
        }
      }
    }
  }

  /** Membership in `Branches`, one choice at a time and without sequences
      of vectors: either the bound `hi` is lowered, or `hi - 1` is taken at
      this position and the search moves to the next one. */
  predicate Enumerates(n: nat, index: nat, curSum: nat, sum: nat, hi: nat, t: seq<nat>)
    decreases n - index, hi
  {
    if index >= n then t == [] && curSum == sum
    else if hi <= Lower(n, index) then false
    else
      Enumerates(n, index, curSum, sum, hi - 1, t) ||
      (|t| > 0 && t[0] == hi - 1 && Enumerates(n, index + 1, curSum + hi - 1, sum, sum + 1, t[1..]))
  }

  lemma {:induction false} BranchesEnumerated(n: nat, index: nat, curSum: nat, sum: nat, hi: nat, k: nat)
    requires index <= n
    requires k < |Branches(n, index, curSum, sum, hi)|
    ensures Enumerates(n, index, curSum, sum, hi, Branches(n, index, curSum, sum, hi)[k])
    decreases n - index, hi, 1
  {
    var all := Branches(n, index, curSum, sum, hi);
    if index < n {
      var front := Branches(n, index, curSum, sum, hi - 1);
      var tails := Branches(n, index + 1, curSum + hi - 1, sum, sum + 1);
      PickFromSplit(all, front, tails, hi - 1, k);
      if k < |front| {
        FrontEnumerated(n, index, curSum, sum, hi, k);
      } else {
        BackEnumerated(n, index, curSum, sum, hi, k - |front|);
      }
    }
  }

  lemma {:induction false} FrontEnumerated(n: nat, index: nat, curSum: nat, sum: nat, hi: nat, k: nat)
    requires index < n && hi > 0
    requires k < |Branches(n, index, curSum, sum, hi - 1)|
    ensures Enumerates(n, index, curSum, sum, hi, Branches(n, index, curSum, sum, hi - 1)[k])
    decreases n - index, hi, 0
  {
    BranchesEnumerated(n, index, curSum, sum, hi - 1, k);
    EnumeratesFront(n, index, curSum, sum, hi, Branches(n, index, curSum, sum, hi - 1)[k]);
  }

  lemma {:induction false} BackEnumerated(n: nat, index: nat, curSum: nat, sum: nat, hi: nat, j: nat)
    requires index < n && hi > Lower(n, index)
    requires j < |Branches(n, index + 1, curSum + hi - 1, sum, sum + 1)|
    ensures Enumerates(n, index, curSum, sum, hi, [hi - 1] + Branches(n, index + 1, curSum + hi - 1, sum, sum + 1)[j])
    decreases n - index, hi, 0
  {
    var t := [hi - 1] + Branches(n, index + 1, curSum + hi - 1, sum, sum + 1)[j];
    BranchesEnumerated(n, index + 1, curSum + hi - 1, sum, sum + 1, j);
    assert t[1..] == Branches(n, index + 1, curSum + hi - 1, sum, sum + 1)[j];
    EnumeratesBack(n, index, curSum, sum, hi, t);
  }

  /** The `k`-th vector of a split enumeration comes from its front part or
      from its prefixed back part. */
  lemma PickFromSplit(all: seq<seq<nat>>, front: seq<seq<nat>>, tails: seq<seq<nat>>, x: nat, k: nat)
    requires all == front + Prefixed([x], tails) && k < |all|
    ensures k < |front| ==> all[k] == front[k]
    ensures k >= |front| ==> k - |front| < |tails| && all[k] == [x] + tails[k - |front|]
  {
  }

  lemma EnumeratesFront(n: nat, index: nat, curSum: nat, sum: nat, hi: nat, t: seq<nat>)
    requires index < n && hi > 0 && Enumerates(n, index, curSum, sum, hi - 1, t)
    ensures Enumerates(n, index, curSum, sum, hi, t)
  {
    if hi - 1 <= Lower(n, index) {
      assert false;
    }
  }

  lemma EnumeratesBack(n: nat, index: nat, curSum: nat, sum: nat, hi: nat, t: seq<nat>)
    requires index < n && hi > Lower(n, index)
    requires |t| > 0 && t[0] == hi - 1 && Enumerates(n, index + 1, curSum + hi - 1, sum, sum + 1, t[1..])
    ensures Enumerates(n, index, curSum, sum, hi, t)
  {
  }


  lemma {:induction false} EnumeratedBranches(n: nat, index: nat, curSum: nat, sum: nat, hi: nat, t: seq<nat>)
      returns (k: nat)
    requires index <= n
    requires Enumerates(n, index, curSum, sum, hi, t)
    ensures k < |Branches(n, index, curSum, sum, hi)| && Branches(n, index, curSum, sum, hi)[k] == t
    decreases n - index, hi
  {
    if index == n {
      k := 0;
    } else {
      var front := Branches(n, index, curSum, sum, hi - 1);
      var tails := Branches(n, index + 1, curSum + hi - 1, sum, sum + 1);
      assert Branches(n, index, curSum, sum, hi) == front + Prefixed([hi - 1], tails);
      if Enumerates(n, index, curSum, sum, hi - 1, t) {
        k := EnumeratedBranches(n, index, curSum, sum, hi - 1, t);
      } else {
        var j := EnumeratedBranches(n, index + 1, curSum + hi - 1, sum, sum + 1, t[1..]);
        k := |front| + j;
        assert [hi - 1] + tails[j] == t;
      }
    }
  }

  /** Every vector `Enumerates` admits starts below `hi`. */
  lemma {:induction false} EnumeratesHead(n: nat, index: nat, curSum: nat, sum: nat, hi: nat, t: seq<nat>)
    requires index < n
    requires Enumerates(n, index, curSum, sum, hi, t)
    ensures |t| > 0 && t[0] < hi
    decreases hi
  {
    if Enumerates(n, index, curSum, sum, hi - 1, t) {
      EnumeratesHead(n, index, curSum, sum, hi - 1, t);
    }
  }

  lemma {:induction false} EnumeratesSound(n: nat, index: nat, curSum: nat, sum: nat, hi: nat, t: seq<nat>)
    requires Enumerates(n, index, curSum, sum, hi, t)
    ensures ValidSuffix(t, n, index, sum - curSum)
    decreases n - index, hi
  {
    if index < n {
      if Enumerates(n, index, curSum, sum, hi - 1, t) {
        EnumeratesSound(n, index, curSum, sum, hi - 1, t);
      } else {
        EnumeratesSound(n, index + 1, curSum + hi - 1, sum, sum + 1, t[1..]);
      }
    }
  }

  lemma {:induction false} EnumeratesComplete(n: nat, index: nat, curSum: nat, sum: nat, hi: nat, t: seq<nat>)
    requires ValidSuffix(t, n, index, sum - curSum)
    requires index < n ==> t[0] < hi
    ensures Enumerates(n, index, curSum, sum, hi, t)
    decreases n - index, hi
  {
    if index < n {
      if t[0] < hi - 1 {
        EnumeratesComplete(n, index, curSum, sum, hi - 1, t);
      } else {
        var u := t[1..];
        SuffixBound(u, n, index + 1, sum - curSum - t[0]);
        EnumeratesComplete(n, index + 1, curSum + hi - 1, sum, sum + 1, u);
      }
    }
  }

  /** Every vector `Branches` yields is a valid suffix for its position. */
  lemma BranchesSound(n: nat, index: nat, curSum: nat, sum: nat, hi: nat, t: seq<nat>)
    requires index <= n
    requires t in Branches(n, index, curSum, sum, hi)
    ensures ValidSuffix(t, n, index, sum - curSum)
  {
    var k :| 0 <= k < |Branches(n, index, curSum, sum, hi)| && Branches(n, index, curSum, sum, hi)[k] == t;
    BranchesEnumerated(n, index, curSum, sum, hi, k);
    EnumeratesSound(n, index, curSum, sum, hi, t);
  }

  /** Every valid suffix whose head is below `hi` is yielded by `Branches`. */
  lemma BranchesComplete(n: nat, index: nat, curSum: nat, sum: nat, hi: nat, t: seq<nat>)
    requires index <= n
    requires ValidSuffix(t, n, index, sum - curSum)
    requires index < n ==> t[0] < hi
    ensures t in Branches(n, index, curSum, sum, hi)
  {
    EnumeratesComplete(n, index, curSum, sum, hi, t);
    var k := EnumeratedBranches(n, index, curSum, sum, hi, t);
  }

  /** The gap-vector condition is the suffix condition taken from position 0. */
  lemma GapVectorIsSuffix(v: seq<nat>, labels: Labels, length: nat)
    requires Sum(labels) <= length
    ensures IsGapVector(v, labels, length) <==> ValidSuffix(v, |labels| + 1, 0, length - Sum(labels))
  {
    var n := |labels| + 1;
    SuffixMeaning(v, n, 0, length - Sum(labels));
    if |v| == n {
      forall j | 0 <= j < |v|
        ensures v[j] >= Lower(n, 0 + j) <==> (0 < j < |labels| ==> v[j] >= 1)
      {
      }
    }
  }

  /** The enumeration yields exactly the gap distributions. */
  lemma CandidatesMeaning(labels: Labels, length: nat)
    requires Sum(labels) <= length
    ensures forall v :: v in Candidates(labels, length) <==> IsGapVector(v, labels, length)
  {
    var total := length - Sum(labels);
    forall v | IsGapVector(v, labels, length)
      ensures v in Candidates(labels, length)
    {
      GapVectorIsSuffix(v, labels, length);
      SuffixBound(v, |labels| + 1, 0, total);
      BranchesComplete(|labels| + 1, 0, 0, total, total + 1, v);
    }
  }

  lemma {:induction false} LexLessIrreflexive(a: seq<nat>)
    ensures !LexLess(a, a)
    decreases |a|
  {
    if a != [] {
      LexLessIrreflexive(a[1..]);
    }
  }

  /** Every vector of `xs` comes before every vector of `ys`. */
  predicate AllBefore(xs: seq<seq<nat>>, ys: seq<seq<nat>>)
  {
    forall i, j :: 0 <= i < |xs| && 0 <= j < |ys| ==> LexLess(xs[i], ys[j])
  }

  lemma SortedConcat(xs: seq<seq<nat>>, ys: seq<seq<nat>>)
    requires StrictlySorted(xs) && StrictlySorted(ys) && AllBefore(xs, ys)
    ensures StrictlySorted(xs + ys)
  {
    var zs := xs + ys;
    forall i, j | 0 <= i < j < |zs|
      ensures LexLess(zs[i], zs[j])
    {
      if j < |xs| {
        assert zs[i] == xs[i] && zs[j] == xs[j];
      } else if i < |xs| {
        assert zs[i] == xs[i] && zs[j] == ys[j - |xs|];
      } else {
        assert zs[i] == ys[i - |xs|] && zs[j] == ys[j - |xs|];
      }
    }
  }

  lemma PrefixedSorted(x: nat, tails: seq<seq<nat>>)
    requires StrictlySorted(tails)
    ensures StrictlySorted(Prefixed([x], tails))
  {
    var back := Prefixed([x], tails);
    forall i, j | 0 <= i < j < |back|
      ensures LexLess(back[i], back[j])
    {
      assert back[i][1..] == tails[i] && back[j][1..] == tails[j];
    }
  }

  /** Everything a smaller bound yields starts below `hi - 1`, so it comes first. */
  lemma FrontBeforeBack(n: nat, index: nat, curSum: nat, sum: nat, hi: nat)
    requires index < n && hi > Lower(n, index)
    ensures AllBefore(Branches(n, index, curSum, sum, hi - 1),
                      Prefixed([hi - 1], Branches(n, index + 1, curSum + hi - 1, sum, sum + 1)))
  {
    var front := Branches(n, index, curSum, sum, hi - 1);
    var tails := Branches(n, index + 1, curSum + hi - 1, sum, sum + 1);
    var back := Prefixed([hi - 1], tails);
    forall i, j | 0 <= i < |front| && 0 <= j < |back|
      ensures LexLess(front[i], back[j])
    {
      BranchesEnumerated(n, index, curSum, sum, hi - 1, i);
      EnumeratesHead(n, index, curSum, sum, hi - 1, front[i]);
      assert back[j][0] == hi - 1;
    }
  }

  lemma {:induction false} BranchesSorted(n: nat, index: nat, curSum: nat, sum: nat, hi: nat)
    requires index <= n
    ensures StrictlySorted(Branches(n, index, curSum, sum, hi))
    decreases n - index, hi
  {
    if index < n && hi > Lower(n, index) {
      var front := Branches(n, index, curSum, sum, hi - 1);
      var tails := Branches(n, index + 1, curSum + hi - 1, sum, sum + 1);
      BranchesSorted(n, index, curSum, sum, hi - 1);
      BranchesSorted(n, index + 1, curSum + hi - 1, sum, sum + 1);
      PrefixedSorted(hi - 1, tails);
      FrontBeforeBack(n, index, curSum, sum, hi);
      SortedConcat(front, Prefixed([hi - 1], tails));
    }
  }

  lemma CandidatesSorted(labels: Labels, length: nat)
    requires Sum(labels) <= length
    ensures StrictlySorted(Candidates(labels, length))
  {
    var total := length - Sum(labels);
    BranchesSorted(|labels| + 1, 0, 0, total, total + 1);
  }

  /** With no labels the only distribution is one gap covering the whole line. */
  lemma NoLabelsCandidates(labels: Labels, length: nat)
    requires labels == []
    ensures Sum(labels) == 0 && Candidates(labels, length) == [[length]]
  {
    var vs := Candidates(labels, length);
    CandidatesMeaning(labels, length);
    CandidatesSorted(labels, length);
    forall k | 0 <= k < |vs|
      ensures vs[k] == [length]
    {
      WholeLineGap(vs[k], labels, length);
    }
    assert IsGapVector([length], labels, length);
    SortedConstant(vs, [length]);
  }

  lemma WholeLineGap(v: seq<nat>, labels: Labels, length: nat)
    requires labels == [] && IsGapVector(v, labels, length)
    ensures v == [length]
  {
    assert v[1..] == [];
  }

  /** A strictly sorted sequence holding nothing but `x`, and `x` at least once, is `[x]`. */
  lemma SortedConstant(vs: seq<seq<nat>>, x: seq<nat>)
    requires StrictlySorted(vs) && x in vs
    requires forall k :: 0 <= k < |vs| ==> vs[k] == x
    ensures vs == [x]
  {
    if |vs| > 1 {
      assert LexLess(vs[0], vs[1]);
      LexLessIrreflexive(x);
    }
  }

  /** Binomial coefficient, by Pascal's rule. */
  function Binom(a: nat, b: nat): nat
  {
    if b == 0 then 1 else if a == 0 then 0 else Binom(a - 1, b - 1) + Binom(a - 1, b)
  }

  function Min(a: nat, b: nat): nat
  {
    if a <= b then a else b
  }

  /** Lowering the bound at a position by one drops exactly the completions
      that take `hi - 1` there. */
  lemma BranchesSize(n: nat, index: nat, curSum: nat, sum: nat, hi: nat)
    requires index < n && hi > Lower(n, index)
    ensures |Branches(n, index, curSum, sum, hi)| ==
              |Branches(n, index, curSum, sum, hi - 1)| + |Branches(n, index + 1, curSum + hi - 1, sum, sum + 1)|
  {
  }

  /** The last position takes whatever is left of the total, if the bound allows it. */
  lemma {:induction false} LastCount(n: nat, curSum: nat, sum: nat, hi: nat)
    requires n >= 1
    ensures |Branches(n, n - 1, curSum, sum, hi)| == if curSum <= sum < curSum + hi then 1 else 0
    decreases hi
  {
    if hi > 0 {
      LastCount(n, curSum, sum, hi - 1);
      BranchesSize(n, n - 1, curSum, sum, hi);
    }
  }

  /** From a position after the first, the completions of the remaining total
      `sum - curSum`: one per way of choosing the positions before the last. */
  lemma {:induction false} TailCount(n: nat, index: nat, curSum: nat, sum: nat)
    requires 1 <= index < n
    ensures |Branches(n, index, curSum, sum, sum + 1)| ==
              if curSum <= sum then Binom(sum - curSum, n - 1 - index) else 0
    decreases n - index, 1, 0
  {
    if index == n - 1 {
      LastCount(n, curSum, sum, sum + 1);
    } else {
      MiddleCount(n, index, curSum, sum, sum + 1);
    }
  }

  /** Counting at an interior position bound by `hi`: what is still missing
      from the full count is the count of the values not yet reached. */
  lemma {:induction false} MiddleCount(n: nat, index: nat, curSum: nat, sum: nat, hi: nat)
    requires 1 <= index < n - 1 && 1 <= hi <= sum + 1
    ensures curSum <= sum ==>
              |Branches(n, index, curSum, sum, hi)| +
              Binom(sum - curSum - Min(hi - 1, sum - curSum), n - 1 - index) == Binom(sum - curSum, n - 1 - index)
    ensures curSum > sum ==> |Branches(n, index, curSum, sum, hi)| == 0
    decreases n - index, 0, hi
  {
    if hi > 1 {
      MiddleCount(n, index, curSum, sum, hi - 1);
      BranchesSize(n, index, curSum, sum, hi);
      TailCount(n, index + 1, curSum + hi - 1, sum);
    }
  }

  /** Counting at the first position bound by `hi`. */
  lemma {:induction false} HeadCount(n: nat, sum: nat, hi: nat)
    requires n >= 2 && hi <= sum + 1
    ensures |Branches(n, 0, 0, sum, hi)| + Binom(sum + 1 - hi, n - 1) == Binom(sum + 1, n - 1)
    decreases hi
  {
    if hi > 0 {
      HeadCount(n, sum, hi - 1);
      BranchesSize(n, 0, 0, sum, hi);
      TailCount(n, 1, hi - 1, sum);
    }
  }

  /** The number of gap distributions: `k` runs and `f` free cells give
      `f + 1` choose `k`. */
  lemma CandidatesCount(labels: Labels, length: nat)
    requires Sum(labels) <= length
    ensures |Candidates(labels, length)| == Binom(length - Sum(labels) + 1, |labels|)
  {
    var total := length - Sum(labels);
    if labels == [] {
      LastCount(1, 0, total, total + 1);
    } else {
      HeadCount(|labels| + 1, total, total + 1);
    }
  }

  /** Placing the runs at all needs `MinLength(labels)` cells. */
  predicate Placeable(labels: Labels, length: nat)
  {
    labels == [] || MinLength(labels) <= length
  }

  function Ones(k: nat): (r: seq<nat>)
    ensures |r| == k && Sum(r) == k && forall j :: 0 <= j < k ==> r[j] == 1
  {
    if k == 0 then [] else [1] + Ones(k - 1)
  }

  lemma {:induction false} SumAppend(a: seq<nat>, b: seq<nat>)
    ensures Sum(a + b) == Sum(a) + Sum(b)
    decreases |a|
  {
    if a == [] {
      assert a + b == b;
    } else {
      assert (a + b)[1..] == a[1..] + b;
      SumAppend(a[1..], b);
    }
  }

  /** Entries `lo..hi-1` of `v` are all at least 1, so they add up to at least `hi - lo`. */
  lemma {:induction false} SumAtLeast(v: seq<nat>, lo: nat, hi: nat)
    requires lo <= hi <= |v|
    requires forall j :: lo <= j < hi ==> v[j] >= 1
    ensures Sum(v) >= hi - lo
    decreases |v|
  {
    if lo < hi {
      if lo == 0 {
        SumAtLeast(v[1..], 0, hi - 1);
      } else {
        SumAtLeast(v[1..], lo - 1, hi - 1);
      }
    }
  }

  /** Every gap distribution needs room for its runs and separators. */
  lemma GapVectorPlaceable(v: seq<nat>, labels: Labels, length: nat)
    requires IsGapVector(v, labels, length)
    ensures Placeable(labels, length)
  {
    if labels != [] {
      SumAtLeast(v, 1, |labels|);
    }
  }

  /** Some gap distribution exists exactly when the runs fit. */
  lemma CandidatesExist(labels: Labels, length: nat)
    requires Sum(labels) <= length
    ensures |Candidates(labels, length)| > 0 <==> Placeable(labels, length)
  {
    if |Candidates(labels, length)| > 0 {
      GapVectorPlaceable(Candidates(labels, length)[0], labels, length);
    }
    if Placeable(labels, length) {
      var v := TightestVector(labels, length);
      CandidatesMeaning(labels, length);
      assert v in Candidates(labels, length);
    }
  }

  /** The runs packed to the left with single gaps between them. */
  lemma TightestVector(labels: Labels, length: nat) returns (v: seq<nat>)
    requires Placeable(labels, length)
    ensures IsGapVector(v, labels, length)
  {
    var k := |labels|;
    if k == 0 {
      v := [length];
    } else {
      v := [0] + Ones(k - 1) + [length - MinLength(labels)];
      SumAppend([0] + Ones(k - 1), [length - MinLength(labels)]);
      SumAppend([0], Ones(k - 1));
    }
  }

  // ---------------------------------------------------------------------------
  // numbers_to_row

  /** The row a gap distribution describes: for each run, its gap of Crossed
      cells and then its Full cells; finally the trailing gap of Crossed cells. */
  function Materialize(voids: seq<nat>, labels: Labels): (row: seq<Cell>)
    requires |voids| == |labels| + 1
    ensures |row| == Sum(voids) + Sum(labels)
    ensures forall i :: 0 <= i < |row| ==> row[i] != Empty
    decreases |labels|
  {
    if labels == [] then Repeat(Crossed, voids[0])
    else Repeat(Crossed, voids[0]) + Repeat(Full, labels[0]) + Materialize(voids[1..], labels[1..])
  }

  /** `numbers_to_row`: refuses (the source panics) exactly when the number of
      gaps is not one more than the number of runs. */
  function NumbersToRow(voids: seq<nat>, labels: Labels): (r: Option<seq<Cell>>)
    ensures r.None? <==> |voids| != |labels| + 1
    ensures r.Some? ==> |r.value| == Sum(voids) + Sum(labels)
    ensures r.Some? ==> forall i :: 0 <= i < |r.value| ==> r.value[i] != Empty
  {
    if |voids| != |labels| + 1 then None else Some(Materialize(voids, labels))
  }

  predicate Positive(labels: Labels)
  {
    forall k :: 0 <= k < |labels| ==> labels[k] > 0
  }

  /** Separators between runs are non-empty. */
  predicate Separated(voids: seq<nat>, labels: Labels)
  {
    forall j :: 0 < j < |labels| && j < |voids| ==> voids[j] >= 1
  }

  /** The runs of a stretch of `a` Crossed cells, a run of `b` Full cells and
      then a row `rest` that does not start with Full. */
  lemma RunsOfGapAndRun(a: nat, b: nat, rest: seq<Cell>)
    requires b > 0 && (rest == [] || rest[0] != Full)
    ensures RunLengths(Repeat(Crossed, a) + (Repeat(Full, b) + rest)) == [b] + RunLengths(rest)
  {
    RunLengthsRun(b, rest);
    RunLengthsSkip(Repeat(Crossed, a), Repeat(Full, b) + rest);
  }

  lemma RunsOfGap(a: nat)
    ensures RunLengths(Repeat(Crossed, a)) == []
  {
    var gap := Repeat(Crossed, a);
    RunLengthsSkip(gap, []);
    assert gap + [] == gap;
    RunLengthsEmpty([]);
  }

  /** Round trip: the runs of a materialised row are its labels. */
  lemma {:induction false} MaterializeRuns(voids: seq<nat>, labels: Labels)
    requires |voids| == |labels| + 1 && Separated(voids, labels) && Positive(labels)
    ensures RunLengths(Materialize(voids, labels)) == labels
    decreases |labels|
  {
    if labels == [] {
      RunsOfGap(voids[0]);
    } else {
      var rest := Materialize(voids[1..], labels[1..]);
      SeparatedTail(voids, labels);
      MaterializeRuns(voids[1..], labels[1..]);
      if |labels| > 1 {
        assert voids[1..][0] >= 1;
      }
      MaterializeStart(voids[1..], labels[1..]);
      RunsOfGapAndRun(voids[0], labels[0], rest);
      MaterializeCons(voids, labels);
      assert labels == [labels[0]] + labels[1..];
    }
  }

  /** Lengths of the stretches of non-Full cells before, between and after
      the runs of `row`. */
  function GapLengths(row: seq<Cell>): (g: seq<nat>)
    ensures |g| > 0
    decreases |row|
  {
    if row == [] then [0]
    else if row[0] != Full then
      var g := GapLengths(row[1..]);
      [g[0] + 1] + g[1..]
    else
      [0] + GapLengths(row[LeadingFull(row)..])
  }

  /** One more gap than runs: a gap before, between and after each run. */
  lemma {:induction false} GapLengthsSize(row: seq<Cell>)
    ensures |GapLengths(row)| == |RunLengths(row)| + 1
    decreases |row|
  {
    if row == [] {
    } else if row[0] != Full {
      GapLengthsSize(row[1..]);
    } else {
      GapLengthsSize(row[LeadingFull(row)..]);
    }
  }

  lemma {:induction false} GapLengthsSkip(a: nat, s: seq<Cell>)
    ensures GapLengths(Repeat(Crossed, a) + s) == [GapLengths(s)[0] + a] + GapLengths(s)[1..]
    decreases a, 1
  {
    if a == 0 {
      assert Repeat(Crossed, a) + s == s;
    } else {
      GapLengthsSkipOne(a, s);
    }
  }

  lemma {:induction false} GapLengthsSkipOne(a: nat, s: seq<Cell>)
    requires a > 0
    ensures GapLengths(Repeat(Crossed, a) + s) == [GapLengths(s)[0] + a] + GapLengths(s)[1..]
    decreases a, 0
  {
    CrossedPrefix(a, s);
    GapLengthsSkip(a - 1, s);
    SkipStep(Repeat(Crossed, a) + s, Repeat(Crossed, a - 1) + s, GapLengths(s), a);
  }

  lemma CrossedPrefix(a: nat, s: seq<Cell>)
    requires a > 0
    ensures (Repeat(Crossed, a) + s)[0] == Crossed
    ensures (Repeat(Crossed, a) + s)[1..] == Repeat(Crossed, a - 1) + s
  {
  }

  lemma SkipStep(line: seq<Cell>, t: seq<Cell>, g: seq<nat>, a: nat)
    requires a > 0 && |g| > 0 && line != [] && line[0] == Crossed && line[1..] == t
    requires GapLengths(t) == [g[0] + (a - 1)] + g[1..]
    ensures GapLengths(line) == [g[0] + a] + g[1..]
  {
    CrossedGaps(line);
    var h := GapLengths(t);
    assert h[1..] == g[1..];
  }

  lemma {:induction false} GapLengthsRun(b: nat, s: seq<Cell>)
    requires b > 0 && (s == [] || s[0] != Full)
    ensures GapLengths(Repeat(Full, b) + s) == [0] + GapLengths(s)
  {
    var run := Repeat(Full, b) + s;
    LeadingFullOfRun(b, s);
    assert run[b..] == s;
  }

  lemma SeparatedTail(voids: seq<nat>, labels: Labels)
    requires |voids| == |labels| + 1 && |labels| > 0 && Separated(voids, labels)
    ensures Separated(voids[1..], labels[1..])
  {
    forall j | 0 < j < |labels| - 1
      ensures voids[1..][j] >= 1
    {
      assert voids[1..][j] == voids[j + 1];
    }
  }

  /** A materialised row whose first gap is non-empty, or that has no runs,
      does not start with a Full cell. */
  lemma MaterializeStart(voids: seq<nat>, labels: Labels)
    requires |voids| == |labels| + 1 && (voids[0] >= 1 || labels == [])
    ensures Materialize(voids, labels) == [] || Materialize(voids, labels)[0] != Full
  {
  }

  lemma Regroup(a: seq<Cell>, b: seq<Cell>, c: seq<Cell>)
    ensures a + b + c == a + (b + c)
  {
  }

  lemma MaterializeCons(voids: seq<nat>, labels: Labels)
    requires |voids| == |labels| + 1 && |labels| > 0
    ensures Materialize(voids, labels) ==
              Repeat(Crossed, voids[0]) + (Repeat(Full, labels[0]) + Materialize(voids[1..], labels[1..]))
  {
    Regroup(Repeat(Crossed, voids[0]), Repeat(Full, labels[0]), Materialize(voids[1..], labels[1..]));
  }

  /** The gaps of a stretch of `a` Crossed cells, a run of `b` Full cells and
      then a row `rest` that does not start with Full. */
  lemma GapsOfGapAndRun(a: nat, b: nat, rest: seq<Cell>)
    requires b > 0 && (rest == [] || rest[0] != Full)
    ensures GapLengths(Repeat(Crossed, a) + (Repeat(Full, b) + rest)) == [a] + GapLengths(rest)
  {
    var run := Repeat(Full, b) + rest;
    GapLengthsRun(b, rest);
    GapLengthsSkip(a, run);
    assert ([0] + GapLengths(rest))[1..] == GapLengths(rest);
  }

  /** Round trip: the gaps of a materialised row are the distribution it came from. */
  lemma {:induction false} MaterializeGaps(voids: seq<nat>, labels: Labels)
    requires |voids| == |labels| + 1 && Separated(voids, labels) && Positive(labels)
    ensures GapLengths(Materialize(voids, labels)) == voids
    decreases |labels|
  {
    if labels == [] {
      GapLengthsSkip(voids[0], []);
      assert Repeat(Crossed, voids[0]) + [] == Repeat(Crossed, voids[0]);
      assert voids == [voids[0]];
    } else {
      var rest := Materialize(voids[1..], labels[1..]);
      SeparatedTail(voids, labels);
      MaterializeGaps(voids[1..], labels[1..]);
      if |labels| > 1 {
        assert voids[1..][0] >= 1;
      }
      MaterializeStart(voids[1..], labels[1..]);
      GapsOfGapAndRun(voids[0], labels[0], rest);
      MaterializeCons(voids, labels);
      assert voids == [voids[0]] + voids[1..];
    }
  }

  /** One more leading Crossed cell is one more cell in the first gap. */
  lemma MaterializeGapGrow(g: seq<nat>, runs: Labels)
    requires |g| == |runs| + 1
    ensures Materialize([g[0] + 1] + g[1..], runs) == [Crossed] + Materialize(g, runs)
  {
    var g' := [g[0] + 1] + g[1..];
    assert g'[0] == g[0] + 1 && g'[1..] == g[1..];
    assert Repeat(Crossed, g[0] + 1) == [Crossed] + Repeat(Crossed, g[0]);
    if runs != [] {
      MaterializeCons(g', runs);
      MaterializeCons(g, runs);
    }
  }

  /** Round trip the other way: a row with no Empty cell is the row of its own
      gaps and runs, and its gaps between runs are non-empty. */
  lemma {:induction false} DecodeMaterialize(row: seq<Cell>)
    requires forall i :: 0 <= i < |row| ==> row[i] != Empty
    ensures |GapLengths(row)| == |RunLengths(row)| + 1
    ensures Separated(GapLengths(row), RunLengths(row))
    ensures Materialize(GapLengths(row), RunLengths(row)) == row
    ensures row != [] && row[0] != Full ==> GapLengths(row)[0] >= 1
    decreases |row|
  {
    GapLengthsSize(row);
    if row == [] {
    } else if row[0] != Full {
      DecodeMaterialize(row[1..]);
      DecodeCrossed(row);
    } else {
      var k := LeadingFull(row);
      var rest := row[k..];
      DecodeMaterialize(rest);
      DecodeRun(row);
    }
  }

  lemma SeparatedGrow(g: seq<nat>, runs: Labels)
    requires |g| == |runs| + 1 && Separated(g, runs)
    ensures Separated([g[0] + 1] + g[1..], runs)
  {
    var g' := [g[0] + 1] + g[1..];
    forall j | 0 < j < |runs| && j < |g'|
      ensures g'[j] >= 1
    {
      assert g'[j] == g[j];
    }
  }

  lemma SeparatedRun(g: seq<nat>, k: nat, runs: Labels)
    requires |g| == |runs| + 1 && Separated(g, runs) && (runs != [] ==> g[0] >= 1)
    ensures Separated([0] + g, [k] + runs)
  {
    var g' := [0] + g;
    forall j | 0 < j < |runs| + 1 && j < |g'|
      ensures g'[j] >= 1
    {
      assert g'[j] == g[j - 1];
    }
  }

  lemma CrossedGaps(row: seq<Cell>)
    requires row != [] && row[0] == Crossed
    ensures GapLengths(row) == [GapLengths(row[1..])[0] + 1] + GapLengths(row[1..])[1..]
  {
  }

  lemma CrossedRuns(row: seq<Cell>)
    requires row != [] && row[0] == Crossed
    ensures RunLengths(row) == RunLengths(row[1..])
  {
  }

  /** A Crossed cell in front widens the first gap. */
  lemma CrossedStep(row: seq<Cell>, g: seq<nat>, runs: Labels)
    requires row != [] && row[0] == Crossed
    requires |g| == |runs| + 1 && Separated(g, runs) && Materialize(g, runs) == row[1..]
    ensures Separated([g[0] + 1] + g[1..], runs)
    ensures Materialize([g[0] + 1] + g[1..], runs) == row
  {
    MaterializeGapGrow(g, runs);
    SeparatedGrow(g, runs);
    HeadTail(row);
  }

  lemma HeadTail(row: seq<Cell>)
    requires row != []
    ensures row == [row[0]] + row[1..]
  {
  }

  lemma DecodeCrossed(row: seq<Cell>)
    requires row != [] && row[0] == Crossed
    requires |GapLengths(row[1..])| == |RunLengths(row[1..])| + 1
    requires |GapLengths(row)| == |RunLengths(row)| + 1
    requires Separated(GapLengths(row[1..]), RunLengths(row[1..]))
    requires Materialize(GapLengths(row[1..]), RunLengths(row[1..])) == row[1..]
    ensures Separated(GapLengths(row), RunLengths(row))
    ensures Materialize(GapLengths(row), RunLengths(row)) == row
  {
    var g := GapLengths(row[1..]);
    var runs := RunLengths(row[1..]);
    CrossedGaps(row);
    CrossedRuns(row);
    CrossedStep(row, g, runs);
  }

  lemma DecodeRun(row: seq<Cell>)
    requires row != [] && row[0] == Full
    requires |GapLengths(row)| == |RunLengths(row)| + 1
    requires var rest := row[LeadingFull(row)..];
             |GapLengths(rest)| == |RunLengths(rest)| + 1 &&
             Separated(GapLengths(rest), RunLengths(rest)) &&
             Materialize(GapLengths(rest), RunLengths(rest)) == rest &&
             (rest != [] && rest[0] != Full ==> GapLengths(rest)[0] >= 1)
    ensures Separated(GapLengths(row), RunLengths(row))
    ensures Materialize(GapLengths(row), RunLengths(row)) == row
  {
    var k := LeadingFull(row);
    var rest := row[k..];
    var g, runs := GapLengths(rest), RunLengths(rest);
    assert GapLengths(row) == [0] + g && RunLengths(row) == [k] + runs;
    assert runs != [] ==> rest != [] && rest[0] != Full by {
      if rest == [] {
        assert runs == [];
      }
    }
    SeparatedRun(g, k, runs);
    RebuildRun(row, k, g, runs);
  }

  lemma RebuildRun(row: seq<Cell>, k: nat, g: seq<nat>, runs: Labels)
    requires 0 < k <= |row| && forall i :: 0 <= i < k ==> row[i] == Full
    requires |g| == |runs| + 1 && Materialize(g, runs) == row[k..]
    ensures Materialize([0] + g, [k] + runs) == row
  {
    var g', runs' := [0] + g, [k] + runs;
    assert g'[1..] == g && runs'[1..] == runs;
    MaterializeCons(g', runs');
    FullPrefix(row, k);
  }

  lemma FullPrefix(row: seq<Cell>, k: nat)
    requires k <= |row| && forall i :: 0 <= i < k ==> row[i] == Full
    ensures Repeat(Crossed, 0) + (Repeat(Full, k) + row[k..]) == row
  {
    assert row[..k] == Repeat(Full, k);
    assert row == row[..k] + row[k..];
  }

  /** A line with no unknown cell satisfies positive labels exactly when it is
      the row of one of their gap distributions. */
  lemma SolvedIffMaterialized(line: seq<Cell>, labels: Labels)
    requires forall i :: 0 <= i < |line| ==> line[i] != Empty
    ensures IsSolved(line, labels) <==>
              Positive(labels) &&
              exists v :: IsGapVector(v, labels, |line|) && Materialize(v, labels) == line
  {
    if IsSolved(line, labels) {
      DecodeMaterialize(line);
      var v := GapLengths(line);
      assert IsGapVector(v, labels, |line|);
    }
    if Positive(labels) && exists v :: IsGapVector(v, labels, |line|) && Materialize(v, labels) == line {
      var v :| IsGapVector(v, labels, |line|) && Materialize(v, labels) == line;
      MaterializeRuns(v, labels);
    }
  }

  // ---------------------------------------------------------------------------
  // get_row

  /** Intersection folded over `rows`, left to right, starting from `acc`. */
  function MeetAll(acc: seq<Cell>, rows: seq<seq<Cell>>): (r: seq<Cell>)
    ensures |r| == |acc|
    decreases |rows|
  {
    if rows == [] then acc else MeetAll(Meet(acc, rows[0]), rows[1..])
  }

  lemma MeetAllStep(acc: seq<Cell>, rows: seq<seq<Cell>>, k: nat)
    requires k < |rows|
    ensures MeetAll(Meet(acc, rows[k]), rows[k + 1..]) == MeetAll(acc, rows[k..])
  {
    assert rows[k..][1..] == rows[k + 1..];
  }

  /** A cell of the fold keeps its starting value exactly when every row that
      reaches it agrees with that value. */
  lemma {:induction false} MeetAllAt(acc: seq<Cell>, rows: seq<seq<Cell>>, i: nat)
    requires i < |acc|
    ensures MeetAll(acc, rows)[i] ==
              if forall k :: 0 <= k < |rows| && i < |rows[k]| ==> rows[k][i] == acc[i] then acc[i] else Empty
    decreases |rows|
  {
    if rows != [] {
      var next := Meet(acc, rows[0]);
      MeetAt(acc, rows[0], i);
      MeetAllAt(next, rows[1..], i);
      assert forall k :: 1 <= k < |rows| ==> rows[k] == rows[1..][k - 1];
      if next[i] != acc[i] {
        assert next[i] == Empty;
      }
    }
  }

  /** Folding from the first row: a cell keeps the first row's value exactly
      when every row has that value there. */
  lemma MeetAllFromFirst(rows: seq<seq<Cell>>, i: nat)
    requires |rows| > 0 && forall k :: 0 <= k < |rows| ==> i < |rows[k]|
    ensures MeetAll(rows[0], rows[1..])[i] ==
              if forall k :: 0 <= k < |rows| ==> rows[k][i] == rows[0][i] then rows[0][i] else Empty
  {
    MeetAllAt(rows[0], rows[1..], i);
    assert forall k :: 1 <= k < |rows| ==> rows[k] == rows[1..][k - 1];
  }

  /** Every candidate row, in enumeration order. */
  function CandidateRows(labels: Labels, length: nat): (rows: seq<seq<Cell>>)
    requires Sum(labels) <= length
    ensures |rows| == |Candidates(labels, length)|
    ensures forall k :: 0 <= k < |rows| ==> |rows[k]| == length
  {
    var vs := Candidates(labels, length);
    seq(|vs|, k requires 0 <= k < |vs| => Materialize(vs[k], labels))
  }

  /** Every gap distribution for `labels` puts `x` at position `i`. */
  ghost predicate Forced(labels: Labels, length: nat, i: nat, x: Cell)
    requires i < length
  {
    forall v :: IsGapVector(v, labels, length) ==> Materialize(v, labels)[i] == x
  }

  lemma ForcedByRows(labels: Labels, length: nat, i: nat, x: Cell)
    requires Sum(labels) <= length && i < length
    ensures Forced(labels, length, i, x) <==>
              forall k :: 0 <= k < |CandidateRows(labels, length)| ==> CandidateRows(labels, length)[k][i] == x
  {
    CandidatesMeaning(labels, length);
    var vs := Candidates(labels, length);
    var rows := CandidateRows(labels, length);
    if forall k :: 0 <= k < |rows| ==> rows[k][i] == x {
      forall v | IsGapVector(v, labels, length)
        ensures Materialize(v, labels)[i] == x
      {
        var k :| 0 <= k < |vs| && vs[k] == v;
        assert rows[k] == Materialize(v, labels);
      }
    }
    if Forced(labels, length, i, x) {
      forall k | 0 <= k < |rows|
        ensures rows[k][i] == x
      {
        assert vs[k] in vs;
      }
    }
  }

  /** Reducing from the first candidate: a cell ends up Full (or Crossed)
      exactly when every candidate has it Full (or Crossed). */
  lemma ReduceFromFirst(labels: Labels, length: nat, i: nat)
    requires Sum(labels) <= length && Placeable(labels, length) && i < length
    ensures |CandidateRows(labels, length)| > 0
    ensures MeetAll(CandidateRows(labels, length)[0], CandidateRows(labels, length)[1..])[i] ==
              if Forced(labels, length, i, Full) then Full
              else if Forced(labels, length, i, Crossed) then Crossed
              else Empty
  {
    CandidatesExist(labels, length);
    var rows := CandidateRows(labels, length);
    var x := rows[0][i];
    assert x != Empty;
    MeetAllFromFirst(rows, i);
    ForcedByRows(labels, length, i, x);
    ForcedAsFirst(labels, length, i);
  }

  /** A forced value is the value the first candidate has. */
  lemma ForcedAsFirst(labels: Labels, length: nat, i: nat)
    requires Sum(labels) <= length && i < length && |CandidateRows(labels, length)| > 0
    ensures Forced(labels, length, i, Full) ==> CandidateRows(labels, length)[0][i] == Full
    ensures Forced(labels, length, i, Crossed) ==> CandidateRows(labels, length)[0][i] == Crossed
  {
    ForcedByRows(labels, length, i, Full);
    ForcedByRows(labels, length, i, Crossed);
  }

  /** Reducing from a given row: a cell keeps its known value exactly when
      every candidate agrees with it, and becomes Empty otherwise. */
  lemma ReduceFromStart(labels: Labels, start: seq<Cell>, i: nat)
    requires Sum(labels) <= |start| && i < |start|
    ensures MeetAll(start, CandidateRows(labels, |start|))[i] ==
              if start[i] != Empty && Forced(labels, |start|, i, start[i]) then start[i] else Empty
  {
    var rows := CandidateRows(labels, |start|);
    MeetAllAt(start, rows, i);
    ForcedByRows(labels, |start|, i, start[i]);
  }

  lemma ReduceAllFromFirst(labels: Labels, length: nat, r: seq<Cell>)
    requires Sum(labels) <= length && Placeable(labels, length)
    requires |CandidateRows(labels, length)| > 0
    requires r == MeetAll(CandidateRows(labels, length)[0], CandidateRows(labels, length)[1..])
    ensures forall i :: 0 <= i < |r| ==>
              r[i] == if Forced(labels, |r|, i, Full) then Full
                      else if Forced(labels, |r|, i, Crossed) then Crossed
                      else Empty
  {
    forall i | 0 <= i < |r|
      ensures r[i] == if Forced(labels, |r|, i, Full) then Full
                      else if Forced(labels, |r|, i, Crossed) then Crossed
                      else Empty
    {
      ReduceFromFirst(labels, length, i);
    }
  }

  lemma ReduceAllFromStart(labels: Labels, start: seq<Cell>, r: seq<Cell>)
    requires Sum(labels) <= |start|
    requires r == MeetAll(start, CandidateRows(labels, |start|))
    ensures forall i :: 0 <= i < |r| ==>
              r[i] == if start[i] != Empty && Forced(labels, |r|, i, start[i]) then start[i] else Empty
    ensures forall i :: 0 <= i < |r| ==> r[i] == Empty || r[i] == start[i]
  {
    forall i | 0 <= i < |r|
      ensures r[i] == if start[i] != Empty && Forced(labels, |r|, i, start[i]) then start[i] else Empty
    {
      ReduceFromStart(labels, start, i);
    }
  }

  /** The row of a single run of `b` cells after a gap of `a` cells. */
  lemma OneRunRow(v: seq<nat>, labels: Labels, i: nat)
    requires |labels| == 1 && |v| == 2 && i < Sum(v) + Sum(labels)
    ensures Materialize(v, labels)[i] == if v[0] <= i < v[0] + labels[0] then Full else Crossed
  {
    assert v[1..][1..] == [] && labels[1..] == [];
    var row := Repeat(Crossed, v[0]) + Repeat(Full, labels[0]) + Repeat(Crossed, v[1]);
    assert Materialize(v, labels) == row;
  }

  lemma OneRunVector(labels: Labels, length: nat, a: nat)
    requires |labels| == 1 && labels[0] <= length && a <= length - labels[0]
    ensures IsGapVector([a, length - labels[0] - a], labels, length)
  {
    SumTwo([a, length - labels[0] - a]);
    SumOne(labels);
  }

  lemma SumOne(s: seq<nat>)
    requires |s| == 1
    ensures Sum(s) == s[0]
  {
    assert s[1..] == [];
  }

  lemma SumTwo(s: seq<nat>)
    requires |s| == 2
    ensures Sum(s) == s[0] + s[1]
  {
    SumOne(s[1..]);
  }

  /** A single run of `b` cells on a line of `length` cells: exactly the cells
      that every placement covers, from `length - b` up to `b - 1`, are forced
      Full, and no cell is forced Crossed. */
  lemma SingleRunForced(labels: Labels, length: nat, i: nat)
    requires |labels| == 1 && 0 < labels[0] <= length && i < length
    ensures Forced(labels, length, i, Full) <==> length - labels[0] <= i < labels[0]
    ensures !Forced(labels, length, i, Crossed)
  {
    if Forced(labels, length, i, Full) {
      SingleRunForcedInside(labels, length, i);
    }
    if length - labels[0] <= i < labels[0] {
      SingleRunCovered(labels, length, i);
    }
    SingleRunReachable(labels, length, i);
  }

  lemma SingleRunForcedInside(labels: Labels, length: nat, i: nat)
    requires |labels| == 1 && 0 < labels[0] <= length && i < length
    requires Forced(labels, length, i, Full)
    ensures length - labels[0] <= i < labels[0]
  {
    var b := labels[0];
    OneRunVector(labels, length, 0);
    OneRunRow([0, length - b], labels, i);
    OneRunVector(labels, length, length - b);
    OneRunRow([length - b, 0], labels, i);
  }

  lemma SingleRunCovered(labels: Labels, length: nat, i: nat)
    requires |labels| == 1 && 0 < labels[0] <= length && length - labels[0] <= i < labels[0]
    ensures Forced(labels, length, i, Full)
  {
    forall v | IsGapVector(v, labels, length)
      ensures Materialize(v, labels)[i] == Full
    {
      SumTwo(v);
      SumOne(labels);
      OneRunRow(v, labels, i);
    }
  }

  /** Some placement covers any given cell. */
  lemma SingleRunReachable(labels: Labels, length: nat, i: nat)
    requires |labels| == 1 && 0 < labels[0] <= length && i < length
    ensures !Forced(labels, length, i, Crossed)
  {
    var b := labels[0];
    var a := if i <= length - b then i else length - b;
    OneRunVector(labels, length, a);
    SumTwo([a, length - b - a]);
    SumOne(labels);
    OneRunRow([a, length - b - a], labels, i);
  }

  predicate AllEmpty(row: seq<Cell>)
  {
    forall i :: 0 <= i < |row| ==> row[i] == Empty
  }

  /** The line reducer: intersects every candidate row, starting from the
      first candidate when the line is all Empty and from the line itself
      otherwise. */
  method GetRow(labels: Labels, startingRow: seq<Cell>) returns (r: seq<Cell>)
    requires Sum(labels) <= |startingRow|
    requires AllEmpty(startingRow) ==> Placeable(labels, |startingRow|)
    ensures |r| == |startingRow|
    ensures AllEmpty(startingRow) ==>
              forall i :: 0 <= i < |r| ==>
                r[i] == if Forced(labels, |r|, i, Full) then Full
                        else if Forced(labels, |r|, i, Crossed) then Crossed
                        else Empty
    ensures !AllEmpty(startingRow) ==>
              forall i :: 0 <= i < |r| ==>
                r[i] == if startingRow[i] != Empty && Forced(labels, |r|, i, startingRow[i])
                        then startingRow[i] else Empty
    ensures !AllEmpty(startingRow) ==>
              forall i :: 0 <= i < |r| ==> r[i] == Empty || r[i] == startingRow[i]
  {
    var length := |startingRow|;
    var candidates := Numbers(labels, length);
    ghost var rows := CandidateRows(labels, length);
    var cur: array<Cell>;
    var k: nat;
    if AllEmpty(startingRow) {
      CandidatesExist(labels, length);
      var first := NumbersToRow(candidates[0], labels).value;
      cur := new Cell[length](i requires 0 <= i < length => first[i]);
      assert cur[..] == rows[0];
      k := 1;
    } else {
      cur := new Cell[length](i requires 0 <= i < length => startingRow[i]);
      assert cur[..] == startingRow;
      k := 0;
    }
    ghost var init := cur[..];
    ghost var k0 := k;
    while k < |candidates|
      invariant k0 <= k <= |candidates|
      invariant MeetAll(cur[..], rows[k..]) == MeetAll(init, rows[k0..])
    {
      var row := NumbersToRow(candidates[k], labels).value;
      assert row == rows[k];
      ghost var before := cur[..];
      Intersect(cur, row);
      MeetAllStep(before, rows, k);
      k := k + 1;
    }
    r := cur[..];
    assert rows[k..] == [];
    if AllEmpty(startingRow) {
      assert r == MeetAll(rows[0], rows[1..]);
      ReduceAllFromFirst(labels, length, r);
    } else {
      assert rows[0..] == rows;
      ReduceAllFromStart(labels, startingRow, r);
    }
  }
}
