/**
  `findCorrelation` itself: the working matrix is a mutable two-dimensional
  array that the loop masks in place, the removal list is a sequence the loop
  appends to, and the loop is driven by the flag `loop`. The method is proved
  to compute what `FindCorrelationSpec` describes.
*/
module FindCorrelation {
  import opened Outcomes
  import opened Entries
  import opened Matrices
  import opened Pruning

  /** What the function returns: positions in the original table, or with `names` the column labels. */
  datatype Removal = Indices(indices: seq<nat>) | Labels(labels: seq<string>)

  /** `list(df.columns[remove])`: the label of each removed position, in the same order. */
  function ToLabels(indices: seq<nat>, columns: seq<string>): (r: seq<string>)
    requires AllBelow(indices, |columns|)
    ensures |r| == |indices|
    ensures forall k :: 0 <= k < |indices| ==> r[k] == columns[indices[k]]
  {
    seq(|indices|, k requires 0 <= k < |indices| => columns[indices[k]])
  }

  /** With distinct column labels, distinct positions give distinct labels. */
  lemma ToLabelsFaithful(indices: seq<nat>, columns: seq<string>)
    requires AllBelow(indices, |columns|) && Distinct(indices)
    requires forall a, b :: 0 <= a < b < |columns| ==> columns[a] != columns[b]
    ensures forall a, b :: 0 <= a < b < |indices| ==> ToLabels(indices, columns)[a] != ToLabels(indices, columns)[b]
  {
    forall a, b | 0 <= a < b < |indices|
      ensures ToLabels(indices, columns)[a] != ToLabels(indices, columns)[b]
    {
      var x, y := indices[a], indices[b];
      assert x != y;
      if x < y { assert columns[x] != columns[y]; } else { assert columns[y] != columns[x]; }
    }
  }

  /** The current contents of the working array, as a matrix value. */
  function Snapshot(a: array2<Entry>): (m: Matrix)
    reads a
    ensures |m| == a.Length0
    ensures forall i :: 0 <= i < a.Length0 ==> |m[i]| == a.Length1
    ensures forall i, j :: 0 <= i < a.Length0 && 0 <= j < a.Length1 ==> m[i][j] == a[i, j]
  {
    seq(a.Length0, i reads a requires 0 <= i < a.Length0 =>
      seq(a.Length1, j reads a requires 0 <= j < a.Length1 => a[i, j]))
  }

  /** A snapshot equals any matrix of the same shape that agrees with it entry by entry. */
  lemma SnapshotIs(a: array2<Entry>, m: Matrix)
    requires IsSquare(m) && a.Length0 == |m| == a.Length1
    requires forall i, j :: 0 <= i < |m| && 0 <= j < |m| ==> a[i, j] == m[i][j]
    ensures Snapshot(a) == m
  {
    var s := Snapshot(a);
    forall i | 0 <= i < |m| ensures s[i] == m[i] {
      assert |s[i]| == |m[i]|;
    }
  }

  /** `np.array(...)` of the correlation matrix: a fresh array holding its entries. */
  method Load(corr: Matrix) returns (a: array2<Entry>)
    requires IsSquare(corr)
    ensures fresh(a) && a.Length0 == |corr| == a.Length1
    ensures Snapshot(a) == corr
  {
    a := new Entry[|corr|, |corr|];
    forall i, j | 0 <= i < |corr| && 0 <= j < |corr| {
      a[i, j] := corr[i][j];
    }
    SnapshotIs(a, corr);
  }

  /** `np.fill_diagonal(corr_matrix, val=np.nan)`. */
  method FillDiagonal(a: array2<Entry>)
    requires a.Length0 == a.Length1
    modifies a
    ensures Snapshot(a) == WithNanDiagonal(old(Snapshot(a)))
  {
    ghost var before := Snapshot(a);
    forall i | 0 <= i < a.Length0 {
      a[i, i] := NaN;
    }
    SnapshotIs(a, WithNanDiagonal(before));
  }

  /** `corr_matrix[:, k] = np.nan` followed by `corr_matrix[k, :] = np.nan`. */
  method MaskVariable(a: array2<Entry>, k: nat)
    requires a.Length0 == a.Length1 && k < a.Length0
    modifies a
    ensures Snapshot(a) == WithoutVariable(old(Snapshot(a)), k)
  {
    ghost var before := Snapshot(a);
    forall i | 0 <= i < a.Length0 {
      a[i, k] := NaN;
    }
    forall j | 0 <= j < a.Length1 {
      a[k, j] := NaN;
    }
    SnapshotIs(a, WithoutVariable(before, k));
  }

  /**
    `findCorrelation(df, threshold, exact, names)` from the point where the
    absolute correlation matrix `corr` of `df` is known; `columns` are the
    labels of `df`'s columns.
  */
  method FindCorrelation(corr: Matrix, columns: seq<string>, threshold: real, exact: bool, names: bool)
    returns (r: Result<Removal, Failure>)
    requires IsSquare(corr) && |columns| == |corr|
    ensures r.Success? <==> FindCorrelationSpec(corr, threshold, exact).Success?
    ensures r.Failure? ==> FindCorrelationSpec(corr, threshold, exact) == Failure(r.error)
    ensures r.Success? ==> AllBelow(FindCorrelationSpec(corr, threshold, exact).value, |corr|)
    ensures r.Success? ==> r.value == if names then Labels(ToLabels(FindCorrelationSpec(corr, threshold, exact).value, columns))
                                      else Indices(FindCorrelationSpec(corr, threshold, exact).value)
  {
    var n := |corr|;
    var a := Load(corr);
    FillDiagonal(a);
    ghost var d := Snapshot(a);
    var sums: seq<Entry> := [];
    if !exact {
      sums := RowMeans(Snapshot(a));
    }
    var loop := true;
    var remove: seq<nat> := [];
    while loop
      invariant Distinct(remove) && AllBelow(remove, n) && |remove| <= n
      invariant IsSquare(d) && |d| == n
      invariant a.Length0 == n == a.Length1
      invariant Snapshot(a) == Masked(d, remove)
      invariant !exact ==> sums == RowMeans(d)
      invariant loop ==> Prune(d, threshold, exact, remove) == FindCorrelationSpec(corr, threshold, exact)
      invariant !loop ==> FindCorrelationSpec(corr, threshold, exact) == Success(remove)
      decreases n - |remove| + (if loop then 1 else 0)
    {
      if n == 0 {
        r := Failure(EmptyArgmax);
        return;
      }
      var current := Snapshot(a);
      var (idx1, idx2) := Argmax(current, threshold);
      PruneUnfold(d, threshold, exact, remove);
      if idx1 != idx2 {
        var meanCorr1, meanCorr2;
        if exact {
          meanCorr1 := NanMean(Column(current, idx1));
          meanCorr2 := NanMean(Column(current, idx2));
          // `np.delete(corr_matrix[:, 2], 2)`: its value is discarded, but the slice fails without a third column.
          if 2 >= n {
            r := Failure(ColumnIndexOutOfBounds);
            return;
          }
        } else {
          meanCorr1, meanCorr2 := sums[idx1], sums[idx2];
        }
        var k: nat := if Greater(meanCorr1, meanCorr2) then idx1 else idx2;
        assert k == Loser(d, remove, exact, idx1, idx2);
        MaskVariable(a, k);
        MaskedExtend(d, remove, k);
        remove := remove + [k];
      } else {
        loop := false;
      }
    }
    r := Success(if names then Labels(ToLabels(remove, columns)) else Indices(remove));
  }
}
