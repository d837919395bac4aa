/**
  The pruning loop as a specification: the state of a run is the list of
  variables removed so far, the working matrix is the diagonal-masked initial
  matrix with those variables masked, and each step removes one endpoint of
  the first exceeding pair until no pair exceeds the threshold.
*/
module Pruning {
  import opened Outcomes
  import opened Entries
  import opened Matrices

  /** The two ways the source raises instead of returning. */
  datatype Failure =
    | EmptyArgmax             // `np.argmax` of an empty array, when there are no variables
    | ColumnIndexOutOfBounds  // `corr_matrix[:, 2]` when there are fewer than three variables

  predicate Distinct(s: seq<nat>) {
    forall a, b :: 0 <= a < b < |s| ==> s[a] != s[b]
  }

  predicate AllBelow(s: seq<nat>, n: nat) {
    forall a :: 0 <= a < |s| ==> s[a] < n
  }

  /** The indices `0 .. n - 1`. */
  ghost function Range(n: nat): (r: set<nat>)
    ensures forall k :: k in r <==> 0 <= k < n
    ensures |r| == n
  {
    if n == 0 then {} else Range(n - 1) + {n - 1}
  }

  ghost function Elements(s: seq<nat>): set<nat> {
    set x | x in s
  }

  lemma {:induction false} DistinctSize(s: seq<nat>)
    requires Distinct(s)
    ensures |Elements(s)| == |s|
  {
    if s != [] {
      var p := s[..|s| - 1];
      DistinctSize(p);
      assert Elements(s) == Elements(p) + {s[|s| - 1]};
    }
  }

  lemma {:induction false} SubsetSize(a: set<nat>, b: set<nat>)
    requires a <= b
    ensures |b - a| == |b| - |a|
  {
    assert b == (b - a) + a;
  }

  /** The live variables: those below `n` that are not in `removed`. */
  ghost function Live(n: nat, removed: seq<nat>): set<nat> {
    Range(n) - Elements(removed)
  }

  /** A run that has removed `|removed|` distinct variables has `n - |removed|` live ones. */
  lemma LiveSize(n: nat, removed: seq<nat>)
    requires Distinct(removed) && AllBelow(removed, n)
    ensures |Live(n, removed)| == n - |removed|
  {
    DistinctSize(removed);
    SubsetSize(Elements(removed), Range(n));
  }

  /** `nanmean(corr_matrix, axis=1)`: each row's mean over its defined entries. */
  function RowMeans(d: Matrix): (r: seq<Entry>)
    ensures |r| == |d| && forall i :: 0 <= i < |d| ==> r[i] == NanMean(d[i])
  {
    seq(|d|, i requires 0 <= i < |d| => NanMean(d[i]))
  }

  /**
    The mean a candidate `k` is judged by: with `exact`, the mean of its column
    in the current matrix; otherwise its row's mean in the initial matrix `d`.
  */
  function CandidateMean(d: Matrix, removed: seq<nat>, exact: bool, k: nat): Entry
    requires IsSquare(d) && k < |d|
  {
    if exact then NanMean(Column(Masked(d, removed), k)) else RowMeans(d)[k]
  }

  /** When the scan finds a pair, both of its variables are live, so there is room for one more removal. */
  lemma ScanPairIsLive(d: Matrix, removed: seq<nat>, threshold: real)
    requires IsSquare(d) && Distinct(removed) && AllBelow(removed, |d|)
    ensures var p := Argmax(Masked(d, removed), threshold);
      p.0 != p.1 ==>
        && Exceeds(d[p.0][p.1], threshold)
        && p.0 !in removed && p.1 !in removed
        && |removed| + 2 <= |d|
  {
    var p := Argmax(Masked(d, removed), threshold);
    if p.0 != p.1 {
      MaskedAt(d, removed, p.0, p.1);
      LiveSize(|d|, removed);
      assert {p.0, p.1} <= Live(|d|, removed);
      assert |{p.0, p.1}| == 2;
      SubsetSize({p.0, p.1}, Live(|d|, removed));
    }
  }

  /**
    The loop from the state in which `removed` have been removed: the list of
    removed variables when it stops, or the failure it raises.
  */
  function Prune(d: Matrix, threshold: real, exact: bool, removed: seq<nat>): Result<seq<nat>, Failure>
    requires IsSquare(d) && Distinct(removed) && AllBelow(removed, |d|)
    decreases |d| - |removed|
  {
    if |d| == 0 then Failure(EmptyArgmax)
    else
      var (idx1, idx2) := Argmax(Masked(d, removed), threshold);
      if idx1 == idx2 then Success(removed)
      else if exact && 2 >= |d| then Failure(ColumnIndexOutOfBounds)
      else
        var k := Loser(d, removed, exact, idx1, idx2);
        ScanPairIsLive(d, removed, threshold);
        Prune(d, threshold, exact, removed + [k])
  }

  /** The variable a step removes: `idx1` only when its mean is strictly the greater. */
  function Loser(d: Matrix, removed: seq<nat>, exact: bool, idx1: nat, idx2: nat): nat
    requires IsSquare(d) && idx1 < |d| && idx2 < |d|
  {
    if Greater(CandidateMean(d, removed, exact, idx1), CandidateMean(d, removed, exact, idx2)) then idx1 else idx2
  }

  /** One step of `Prune`, spelled out for the loop that implements it. */
  lemma PruneUnfold(d: Matrix, threshold: real, exact: bool, removed: seq<nat>)
    requires IsSquare(d) && Distinct(removed) && AllBelow(removed, |d|) && |d| > 0
    ensures var p := Argmax(Masked(d, removed), threshold);
      && (p.0 == p.1 ==> Prune(d, threshold, exact, removed) == Success(removed))
      && (p.0 != p.1 && exact && 2 >= |d| ==> Prune(d, threshold, exact, removed) == Failure(ColumnIndexOutOfBounds))
      && (p.0 != p.1 && !(exact && 2 >= |d|) ==>
            && p.0 < |d| && p.1 < |d| && p.0 !in removed && p.1 !in removed && |removed| + 2 <= |d|
            && var k := Loser(d, removed, exact, p.0, p.1);
               Distinct(removed + [k]) && AllBelow(removed + [k], |d|)
               && Prune(d, threshold, exact, removed) == Prune(d, threshold, exact, removed + [k]))
  {
    ScanPairIsLive(d, removed, threshold);
  }

  /** The whole run on an absolute correlation matrix: mask the diagonal, then prune. */
  function FindCorrelationSpec(corr: Matrix, threshold: real, exact: bool): Result<seq<nat>, Failure>
    requires IsSquare(corr)
  {
    Prune(WithNanDiagonal(corr), threshold, exact, [])
  }
}
