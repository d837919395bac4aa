/**
  What a run of the pruning loop promises: where it stops, what it removed
  and why, when it fails, and how the two mean strategies decide.
*/
module PruningProperties {
  import opened Outcomes
  import opened Entries
  import opened Matrices
  import opened Pruning

  /** No two live variables of `d` have an entry above the threshold. */
  predicate NoLiveExceeding(d: Matrix, removed: seq<nat>, threshold: real)
    requires IsSquare(d)
  {
    forall i, j :: 0 <= i < |d| && 0 <= j < |d| && i !in removed && j !in removed ==> !Exceeds(d[i][j], threshold)
  }

  /** When variables `before` had been removed, `k` still exceeded the threshold with some other live variable. */
  predicate Offending(d: Matrix, threshold: real, before: seq<nat>, k: nat)
    requires IsSquare(d) && k < |d|
  {
    exists j :: 0 <= j < |d| && j != k && j !in before && (Exceeds(d[k][j], threshold) || Exceeds(d[j][k], threshold))
  }

  /** Some pair of distinct variables has an entry above the threshold. */
  predicate OffDiagonalExceeding(corr: Matrix, threshold: real)
    requires IsSquare(corr)
  {
    exists i, j :: 0 <= i < |corr| && 0 <= j < |corr| && i != j && Exceeds(corr[i][j], threshold)
  }

  lemma MaskedKeepsNanDiagonal(d: Matrix, removed: seq<nat>)
    requires IsSquare(d) && NanDiagonal(d)
    ensures NanDiagonal(Masked(d, removed))
  {
    forall i | 0 <= i < |d| ensures Masked(d, removed)[i][i] == NaN {
      MaskedAt(d, removed, i, i);
    }
  }

  /** Masking keeps the matrix symmetric, so every later scan still finds its pair above the diagonal. */
  lemma MaskedKeepsSymmetry(d: Matrix, removed: seq<nat>)
    requires IsSquare(d) && Symmetric(d)
    ensures Symmetric(Masked(d, removed))
  {
    forall i, j | 0 <= i < |d| && 0 <= j < |d| ensures Masked(d, removed)[i][j] == Masked(d, removed)[j][i] {
      MaskedAt(d, removed, i, j);
      MaskedAt(d, removed, j, i);
    }
  }

  /** When the scan finds nothing, no two live variables exceed the threshold. */
  lemma StopMeansNoLiveExceeding(d: Matrix, threshold: real, removed: seq<nat>)
    requires IsSquare(d) && NanDiagonal(d) && |d| > 0
    requires Argmax(Masked(d, removed), threshold).0 == Argmax(Masked(d, removed), threshold).1
    ensures NoLiveExceeding(d, removed, threshold)
  {
    var m := Masked(d, removed);
    MaskedKeepsNanDiagonal(d, removed);
    ArgmaxStopsIffNoneExceeds(m, threshold);
    forall i, j | 0 <= i < |d| && 0 <= j < |d| && i !in removed && j !in removed
      ensures !Exceeds(d[i][j], threshold)
    {
      MaskedAt(d, removed, i, j);
    }
  }

  /** When the scan finds a pair, the variable the step removes exceeds the threshold with the other one. */
  lemma StepRemovesOffending(d: Matrix, threshold: real, exact: bool, removed: seq<nat>)
    requires IsSquare(d) && Distinct(removed) && AllBelow(removed, |d|) && |d| > 0
    requires Argmax(Masked(d, removed), threshold).0 != Argmax(Masked(d, removed), threshold).1
    ensures var p := Argmax(Masked(d, removed), threshold);
      p.0 < |d| && p.1 < |d| && Offending(d, threshold, removed, Loser(d, removed, exact, p.0, p.1))
  {
    ScanPairIsLive(d, removed, threshold);
    var p := Argmax(Masked(d, removed), threshold);
    var k := Loser(d, removed, exact, p.0, p.1);
    MaskedAt(d, removed, p.0, p.1);
    var other := if k == p.0 then p.1 else p.0;
    assert Exceeds(d[k][other], threshold) || Exceeds(d[other][k], threshold);
  }

  /**
    From any reachable state, a successful run extends the removals made so
    far with distinct live variables, each of which was part of an exceeding
    live pair when it was removed, and stops with no live pair exceeding the
    threshold and at least one variable left.
  */
  lemma {:induction false} PruneSucceeds(d: Matrix, threshold: real, exact: bool, removed: seq<nat>, r: seq<nat>)
    requires IsSquare(d) && NanDiagonal(d) && Distinct(removed) && AllBelow(removed, |d|) && |removed| < |d|
    requires Prune(d, threshold, exact, removed) == Success(r)
    ensures |removed| <= |r| < |d| && r[..|removed|] == removed
    ensures Distinct(r) && AllBelow(r, |d|)
    ensures NoLiveExceeding(d, r, threshold)
    ensures forall m :: |removed| <= m < |r| ==> Offending(d, threshold, r[..m], r[m])
    decreases |d| - |removed|
  {
    PruneUnfold(d, threshold, exact, removed);
    var p := Argmax(Masked(d, removed), threshold);
    if p.0 == p.1 {
      StopMeansNoLiveExceeding(d, threshold, removed);
    } else {
      var k := Loser(d, removed, exact, p.0, p.1);
      var next := removed + [k];
      StepRemovesOffending(d, threshold, exact, removed);
      PruneSucceeds(d, threshold, exact, next, r);
      assert r[..|removed|] == r[..|next|][..|removed|];
      assert r[|removed|] == r[..|next|][|removed|] == k;
      forall m | |removed| <= m < |r| ensures Offending(d, threshold, r[..m], r[m]) {
        if m == |removed| {
          assert r[..m] == removed;
        }
      }
    }
  }

  /**
    A successful run returns distinct positions of the matrix, fewer than its
    size, in the order decided; every removed variable exceeded the threshold
    with a variable still live at that moment; and no two distinct variables
    left have a correlation above the threshold.
  */
  lemma FindCorrelationSucceeds(corr: Matrix, threshold: real, exact: bool)
    requires IsSquare(corr) && FindCorrelationSpec(corr, threshold, exact).Success?
    ensures var r := FindCorrelationSpec(corr, threshold, exact).value;
      && Distinct(r) && AllBelow(r, |corr|) && |r| < |corr|
      && (forall i, j :: 0 <= i < |corr| && 0 <= j < |corr| && i != j && i !in r && j !in r ==>
            !Exceeds(corr[i][j], threshold))
      && (forall m :: 0 <= m < |r| ==> Offending(corr, threshold, r[..m], r[m]))
  {
    var d := WithNanDiagonal(corr);
    assert |d| > 0;
    var r := FindCorrelationSpec(corr, threshold, exact).value;
    PruneSucceeds(d, threshold, exact, [], r);
    assert NoLiveExceeding(d, r, threshold);
    forall i, j | 0 <= i < |corr| && 0 <= j < |corr| && i != j && i !in r && j !in r
      ensures !Exceeds(corr[i][j], threshold)
    {
      assert d[i][j] == corr[i][j];
    }
    forall m | 0 <= m < |r| ensures Offending(corr, threshold, r[..m], r[m]) {
      assert Offending(d, threshold, r[..m], r[m]);
      var j :| 0 <= j < |d| && j != r[m] && j !in r[..m] && (Exceeds(d[r[m]][j], threshold) || Exceeds(d[j][r[m]], threshold));
      assert d[r[m]][j] == corr[r[m]][j] && d[j][r[m]] == corr[j][r[m]];
    }
  }

  /** A run fails only in the two ways the source raises: no variables, or `exact` with fewer than three. */
  lemma {:induction false} PruneFailsOnlySmallExact(d: Matrix, threshold: real, exact: bool, removed: seq<nat>)
    requires IsSquare(d) && Distinct(removed) && AllBelow(removed, |d|) && |d| > 0
    requires !exact || |d| >= 3
    ensures Prune(d, threshold, exact, removed).Success?
    decreases |d| - |removed|
  {
    PruneUnfold(d, threshold, exact, removed);
    var p := Argmax(Masked(d, removed), threshold);
    if p.0 != p.1 {
      PruneFailsOnlySmallExact(d, threshold, exact, removed + [Loser(d, removed, exact, p.0, p.1)]);
    }
  }

  /** With the diagonal masked, some entry exceeds the threshold exactly when some off-diagonal one does. */
  lemma MaskedDiagonalExceeding(corr: Matrix, threshold: real)
    requires IsSquare(corr)
    ensures AnyExceeding(WithNanDiagonal(corr), threshold) <==> OffDiagonalExceeding(corr, threshold)
  {
    var d := WithNanDiagonal(corr);
    if AnyExceeding(d, threshold) {
      var i, j :| 0 <= i < |d| && 0 <= j < |d| && Exceeds(d[i][j], threshold);
      assert corr[i][j] == d[i][j];
    }
    if OffDiagonalExceeding(corr, threshold) {
      var i, j :| 0 <= i < |corr| && 0 <= j < |corr| && i != j && Exceeds(corr[i][j], threshold);
      assert Exceeds(d[i][j], threshold);
    }
  }

  /**
    The run raises exactly when there are no variables (the scan's `argmax` of
    an empty array) or when `exact` is set, there are at most two variables
    and a pair exceeds the threshold (the slice `corr_matrix[:, 2]`).
  */
  lemma FindCorrelationFails(corr: Matrix, threshold: real, exact: bool)
    requires IsSquare(corr)
    ensures FindCorrelationSpec(corr, threshold, exact).Failure? <==>
              |corr| == 0 || (exact && |corr| <= 2 && OffDiagonalExceeding(corr, threshold))
    ensures |corr| == 0 ==> FindCorrelationSpec(corr, threshold, exact) == Failure(EmptyArgmax)
    ensures |corr| > 0 && FindCorrelationSpec(corr, threshold, exact).Failure? ==>
              FindCorrelationSpec(corr, threshold, exact) == Failure(ColumnIndexOutOfBounds)
  {
    var d := WithNanDiagonal(corr);
    if |corr| > 0 {
      if !exact || |corr| >= 3 {
        PruneFailsOnlySmallExact(d, threshold, exact, []);
      } else {
        PruneUnfold(d, threshold, exact, []);
        MaskedDiagonalExceeding(corr, threshold);
        ArgmaxStopsIffNoneExceeds(d, threshold);
      }
    }
  }

  /**
    A non-empty matrix has nothing removed exactly when no pair of distinct
    variables exceeds the threshold (so always for one variable, and for a
    threshold at or above every correlation).
  */
  lemma NothingRemovedIffNoneExceeds(corr: Matrix, threshold: real, exact: bool)
    requires IsSquare(corr) && |corr| > 0
    ensures FindCorrelationSpec(corr, threshold, exact) == Success([]) <==> !OffDiagonalExceeding(corr, threshold)
  {
    var d := WithNanDiagonal(corr);
    MaskedDiagonalExceeding(corr, threshold);
    if !OffDiagonalExceeding(corr, threshold) {
      PruneUnfold(d, threshold, exact, []);
    }
    if FindCorrelationSpec(corr, threshold, exact) == Success([]) {
      FindCorrelationSucceeds(corr, threshold, exact);
      var r := FindCorrelationSpec(corr, threshold, exact).value;
      assert r == [];
      forall i, j | 0 <= i < |corr| && 0 <= j < |corr| && i != j ensures !Exceeds(corr[i][j], threshold) {
        assert i !in r && j !in r;
      }
    }
  }
}
