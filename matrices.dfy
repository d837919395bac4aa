/**
  The working correlation matrix as a value: a square sequence of rows of
  entries. This module holds the pure views of what the pruning loop does to
  the matrix (mask the diagonal, mask a variable's row and column) and the
  row-major scan for the first entry above the threshold.
*/
module Matrices {
  import opened Outcomes
  import opened Entries

  type Matrix = seq<seq<Entry>>

  predicate IsSquare(m: Matrix) {
    forall i :: 0 <= i < |m| ==> |m[i]| == |m|
  }

  predicate Symmetric(m: Matrix)
    requires IsSquare(m)
  {
    forall i, j :: 0 <= i < |m| && 0 <= j < |m| ==> m[i][j] == m[j][i]
  }

  predicate NanDiagonal(m: Matrix)
    requires IsSquare(m)
  {
    forall i :: 0 <= i < |m| ==> m[i][i] == NaN
  }

  /** Column `j` of `m`, the slice `corr_matrix[:, j]`. */
  function Column(m: Matrix, j: nat): (c: seq<Entry>)
    requires IsSquare(m) && j < |m|
    ensures |c| == |m| && forall i :: 0 <= i < |m| ==> c[i] == m[i][j]
  {
    seq(|m|, i requires 0 <= i < |m| => m[i][j])
  }

  /** `m` with its main diagonal set to NaN, as `np.fill_diagonal(corr_matrix, val=np.nan)` leaves it. */
  function WithNanDiagonal(m: Matrix): (d: Matrix)
    requires IsSquare(m)
    ensures IsSquare(d) && |d| == |m|
    ensures forall i, j :: 0 <= i < |m| && 0 <= j < |m| ==> d[i][j] == if i == j then NaN else m[i][j]
  {
    seq(|m|, i requires 0 <= i < |m| =>
      seq(|m|, j requires 0 <= j < |m| => if i == j then NaN else m[i][j]))
  }

  /** `m` with row `k` and column `k` set to NaN: how the loop removes variable `k`. */
  function WithoutVariable(m: Matrix, k: nat): (r: Matrix)
    requires IsSquare(m)
    ensures IsSquare(r) && |r| == |m|
    ensures forall i, j :: 0 <= i < |m| && 0 <= j < |m| ==> r[i][j] == if i == k || j == k then NaN else m[i][j]
  {
    seq(|m|, i requires 0 <= i < |m| =>
      seq(|m|, j requires 0 <= j < |m| => if i == k || j == k then NaN else m[i][j]))
  }

  /** `d` after each variable of `removed`, in turn, has been masked. */
  function Masked(d: Matrix, removed: seq<nat>): (m: Matrix)
    requires IsSquare(d)
    ensures IsSquare(m) && |m| == |d|
  {
    if removed == [] then d
    else WithoutVariable(Masked(d, removed[..|removed| - 1]), removed[|removed| - 1])
  }

  /** Removing one more variable masks it in the matrix reached so far. */
  lemma MaskedExtend(d: Matrix, removed: seq<nat>, k: nat)
    requires IsSquare(d)
    ensures Masked(d, removed + [k]) == WithoutVariable(Masked(d, removed), k)
  {
    assert (removed + [k])[..|removed|] == removed;
  }

  /**
    Masking is independent of order and leaves the live part alone: an entry of
    the masked matrix is NaN when its row or column was removed, and is the
    original entry otherwise.
  */
  lemma {:induction false} MaskedAt(d: Matrix, removed: seq<nat>, i: nat, j: nat)
    requires IsSquare(d) && i < |d| && j < |d|
    ensures Masked(d, removed)[i][j] == if i in removed || j in removed then NaN else d[i][j]
  {
    if removed != [] {
      var p := removed[..|removed| - 1];
      MaskedAt(d, p, i, j);
      assert removed == p + [removed[|removed| - 1]];
    }
  }

  /** Filling the diagonal leaves it NaN and keeps a symmetric matrix symmetric. */
  lemma WithNanDiagonalKeepsSymmetry(m: Matrix)
    requires IsSquare(m)
    ensures NanDiagonal(WithNanDiagonal(m))
    ensures Symmetric(m) ==> Symmetric(WithNanDiagonal(m))
  {
  }

  /** Row-major order on positions: `(i1, j1)` is visited strictly before `(i2, j2)`. */
  predicate Before(i1: int, j1: int, i2: int, j2: int) {
    i1 < i2 || (i1 == i2 && j1 < j2)
  }

  /** Some entry of `m` exceeds the threshold. */
  predicate AnyExceeding(m: Matrix, threshold: real)
    requires IsSquare(m)
  {
    exists i, j :: 0 <= i < |m| && 0 <= j < |m| && Exceeds(m[i][j], threshold)
  }

  /** `(i, j)` is the first entry of `m` in row-major order that exceeds the threshold. */
  predicate IsFirstExceeding(m: Matrix, threshold: real, i: int, j: int)
    requires IsSquare(m)
  {
    && 0 <= i < |m| && 0 <= j < |m|
    && Exceeds(m[i][j], threshold)
    && forall i', j' :: 0 <= i' < |m| && 0 <= j' < |m| && Before(i', j', i, j) ==> !Exceeds(m[i'][j'], threshold)
  }

  /** The first column at or after `j` whose entry in `row` exceeds the threshold. */
  function FirstInRow(row: seq<Entry>, threshold: real, j: nat): (r: Option<nat>)
    requires j <= |row|
    ensures r.Some? ==> j <= r.value < |row| && Exceeds(row[r.value], threshold)
    ensures r.Some? ==> forall c :: j <= c < r.value ==> !Exceeds(row[c], threshold)
    ensures r.None? ==> forall c :: j <= c < |row| ==> !Exceeds(row[c], threshold)
    decreases |row| - j
  {
    if j == |row| then None
    else if Exceeds(row[j], threshold) then Some(j)
    else FirstInRow(row, threshold, j + 1)
  }

  /** The first exceeding entry, in row-major order, of rows `i` onwards. */
  function FirstFrom(m: Matrix, threshold: real, i: nat): (r: Option<(nat, nat)>)
    requires IsSquare(m) && i <= |m|
    ensures r.Some? ==> i <= r.value.0 < |m| && r.value.1 < |m| && Exceeds(m[r.value.0][r.value.1], threshold)
    ensures r.Some? ==> forall i', j' :: i <= i' < |m| && 0 <= j' < |m| && Before(i', j', r.value.0, r.value.1) ==>
                          !Exceeds(m[i'][j'], threshold)
    ensures r.None? ==> forall i', j' :: i <= i' < |m| && 0 <= j' < |m| ==> !Exceeds(m[i'][j'], threshold)
    decreases |m| - i
  {
    if i == |m| then None
    else match FirstInRow(m[i], threshold, 0)
      case Some(j) => Some((i, j))
      case None => FirstFrom(m, threshold, i + 1)
  }

  /**
    `np.unravel_index(np.argmax(corr_matrix > threshold), corr_matrix.shape)`
    on a non-empty matrix: the position of the first exceeding entry in
    row-major order, or `(0, 0)` (the position of the first `False`) when no
    entry exceeds the threshold.
  */
  function Argmax(m: Matrix, threshold: real): (p: (nat, nat))
    requires IsSquare(m)
    ensures AnyExceeding(m, threshold) ==> IsFirstExceeding(m, threshold, p.0, p.1)
    ensures !AnyExceeding(m, threshold) ==> p == (0, 0)
  {
    match FirstFrom(m, threshold, 0)
    case Some(p) => p
    case None => (0, 0)
  }

  /**
    With the diagonal masked, the scan's two coordinates differ exactly when
    some entry exceeds the threshold, which is the loop's test at line 43; and
    then the pair found lies off the diagonal.
  */
  lemma ArgmaxStopsIffNoneExceeds(m: Matrix, threshold: real)
    requires IsSquare(m) && |m| > 0 && NanDiagonal(m)
    ensures Argmax(m, threshold).0 != Argmax(m, threshold).1 <==> AnyExceeding(m, threshold)
  {
    var p := Argmax(m, threshold);
    if AnyExceeding(m, threshold) {
      assert Exceeds(m[p.0][p.1], threshold);
    }
  }

  /**
    On a symmetric matrix with a masked diagonal, the first exceeding entry
    lies above the diagonal: the scan's `idx1` is below its `idx2`.
  */
  lemma FirstExceedingIsAboveDiagonal(m: Matrix, threshold: real, i: int, j: int)
    requires IsSquare(m) && Symmetric(m) && NanDiagonal(m)
    requires IsFirstExceeding(m, threshold, i, j)
    ensures i < j
  {
    assert Exceeds(m[j][i], threshold);
  }

  /** Row-major order is total, so there is only one first exceeding entry. */
  lemma FirstExceedingUnique(m: Matrix, threshold: real, i1: int, j1: int, i2: int, j2: int)
    requires IsSquare(m)
    requires IsFirstExceeding(m, threshold, i1, j1) && IsFirstExceeding(m, threshold, i2, j2)
    ensures i1 == i2 && j1 == j2
  {
    assert !Before(i1, j1, i2, j2) && !Before(i2, j2, i1, j1);
  }

  /** The scan returns whichever entry is the first to exceed the threshold. */
  lemma ArgmaxIsFirst(m: Matrix, threshold: real, i: int, j: int)
    requires IsSquare(m) && IsFirstExceeding(m, threshold, i, j)
    ensures Argmax(m, threshold) == (i, j)
  {
    var p := Argmax(m, threshold);
    FirstExceedingUnique(m, threshold, p.0, p.1, i, j);
  }
}
