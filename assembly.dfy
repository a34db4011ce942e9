/**
 * The assembled global stiffness matrix, as a specification: entry (p, q)
 * is the sum, over the elements and over the local pairs (a, b) whose
 * 1-based DOFs are p + 1 and q + 1, of the element matrices' entries.
 */
module Assembly {
  import opened Linear

  /** Each row of the DOF table names four 1-based DOFs. */
  predicate WellShaped(info: seq<seq<nat>>)
  {
    forall e :: 0 <= e < |info| ==> |info[e]| == 4 && forall a :: 0 <= a < 4 ==> info[e][a] >= 1
  }

  /** Every DOF of the table lies in 1..n, so every 0-based index in 0..n-1. */
  predicate WithinSize(info: seq<seq<nat>>, n: nat)
  {
    forall e, a :: 0 <= e < |info| && 0 <= a < |info[e]| ==> info[e][a] <= n
  }

  /** The element matrices fit the table: one 4x4 matrix per row. */
  predicate Fits(info: seq<seq<nat>>, kes: seq<Matrix>)
  {
    |kes| == |info| && forall e :: 0 <= e < |info| ==> |info[e]| == 4 && IsMatrix(kes[e], 4, 4)
  }

  /** No entry appears twice: the DOFs of one element, or a list of supports. */
  predicate Distinct(s: seq<nat>)
  {
    forall i, j :: 0 <= i < j < |s| ==> s[i] != s[j]
  }

  function Max(x: nat, y: nat): nat
  {
    if x < y then y else x
  }

  /** The largest entry of a row (0 for an empty row). */
  function RowMax(row: seq<nat>): (m: nat)
    ensures forall a :: 0 <= a < |row| ==> row[a] <= m
    ensures |row| > 0 ==> exists a :: 0 <= a < |row| && row[a] == m
  {
    if |row| == 0 then 0
    else
      var m := RowMax(row[..|row| - 1]);
      assert forall a :: 0 <= a < |row| - 1 ==> row[..|row| - 1][a] == row[a];
      Max(m, row[|row| - 1])
  }

  /**
   * The number of DOFs: the largest entry of the whole table, the way the
   * program sizes its matrices. It bounds every entry and is one of them.
   */
  function MaxDof(info: seq<seq<nat>>): (n: nat)
    ensures WithinSize(info, n)
    ensures n == 0 || exists e, a :: 0 <= e < |info| && 0 <= a < |info[e]| && info[e][a] == n
  {
    if |info| == 0 then 0
    else
      var rest := info[..|info| - 1];
      var m := MaxDof(rest);
      assert forall e :: 0 <= e < |info| - 1 ==> rest[e] == info[e];
      Max(m, RowMax(info[|info| - 1]))
  }

  /** A bound on every entry that is itself an entry is the number of DOFs. */
  lemma MaxDofAttained(info: seq<seq<nat>>, n: nat, e: nat, a: nat)
    requires WithinSize(info, n) && e < |info| && a < |info[e]| && info[e][a] == n
    ensures MaxDof(info) == n
  {
    var m := MaxDof(info);
    assert n <= m;
    var e', a' :| 0 <= e' < |info| && 0 <= a' < |info[e']| && info[e'][a'] == m;
    assert m <= n;
  }

  /** The contribution of local pair (a, b) of one element to global cell (p, q). */
  function Term(ke: Matrix, row: seq<nat>, p: int, q: int, a: nat, b: nat): real
    requires IsMatrix(ke, 4, 4) && |row| == 4 && a < 4 && b < 4
  {
    if row[a] == p + 1 && row[b] == q + 1 then ke[a][b] else 0.0
  }

  /** The contributions of the pairs (a, 0) .. (a, nb - 1). */
  function RowSum(ke: Matrix, row: seq<nat>, p: int, q: int, a: nat, nb: nat): real
    requires IsMatrix(ke, 4, 4) && |row| == 4 && a < 4 && nb <= 4
  {
    if nb == 0 then 0.0 else RowSum(ke, row, p, q, a, nb - 1) + Term(ke, row, p, q, a, nb - 1)
  }

  /** The contributions of all pairs whose first index is below na. */
  function BlockSum(ke: Matrix, row: seq<nat>, p: int, q: int, na: nat): real
    requires IsMatrix(ke, 4, 4) && |row| == 4 && na <= 4
  {
    if na == 0 then 0.0 else BlockSum(ke, row, p, q, na - 1) + RowSum(ke, row, p, q, na - 1, 4)
  }

  /** What one element adds to global cell (p, q). */
  function Scatter(ke: Matrix, row: seq<nat>, p: int, q: int): real
    requires IsMatrix(ke, 4, 4) && |row| == 4
  {
    BlockSum(ke, row, p, q, 4)
  }

  /** Global cell (p, q) after the first m elements have been added. */
  function GlobalEntry(info: seq<seq<nat>>, kes: seq<Matrix>, m: nat, p: int, q: int): real
    requires Fits(info, kes) && m <= |info|
  {
    if m == 0 then 0.0 else GlobalEntry(info, kes, m - 1, p, q) + Scatter(kes[m - 1], info[m - 1], p, q)
  }

  /** The assembled n x n global stiffness matrix. */
  function Stiffness(info: seq<seq<nat>>, kes: seq<Matrix>, n: nat): (k: Matrix)
    requires Fits(info, kes)
    ensures IsMatrix(k, n, n)
  {
    seq(n, p requires 0 <= p < n => seq(n, q requires 0 <= q < n => GlobalEntry(info, kes, |info|, p, q)))
  }

  /** A matrix whose every cell is the full element sum is the assembled matrix. */
  lemma StiffnessFromEntries(m: Matrix, info: seq<seq<nat>>, kes: seq<Matrix>, n: nat)
    requires Fits(info, kes) && IsMatrix(m, n, n)
    requires forall p, q :: 0 <= p < n && 0 <= q < n ==> m[p][q] == GlobalEntry(info, kes, |info|, p, q)
    ensures m == Stiffness(info, kes, n)
  {
    var full := Stiffness(info, kes, n);
    forall p | 0 <= p < n
      ensures m[p] == full[p]
    {
      assert forall q :: 0 <= q < n ==> m[p][q] == full[p][q];
    }
  }

  lemma RowSumTerms(ke: Matrix, row: seq<nat>, p: int, q: int, a: nat)
    requires IsMatrix(ke, 4, 4) && |row| == 4 && a < 4
    ensures RowSum(ke, row, p, q, a, 4) ==
      Term(ke, row, p, q, a, 0) + Term(ke, row, p, q, a, 1) + Term(ke, row, p, q, a, 2) + Term(ke, row, p, q, a, 3)
  {
    assert RowSum(ke, row, p, q, a, 1) == Term(ke, row, p, q, a, 0);
    assert RowSum(ke, row, p, q, a, 2) == RowSum(ke, row, p, q, a, 1) + Term(ke, row, p, q, a, 1);
    assert RowSum(ke, row, p, q, a, 3) == RowSum(ke, row, p, q, a, 2) + Term(ke, row, p, q, a, 2);
  }

  /** The sixteen contributions of one element, written out. */
  lemma ScatterTerms(ke: Matrix, row: seq<nat>, p: int, q: int)
    requires IsMatrix(ke, 4, 4) && |row| == 4
    ensures Scatter(ke, row, p, q) ==
      Term(ke, row, p, q, 0, 0) + Term(ke, row, p, q, 0, 1) + Term(ke, row, p, q, 0, 2) + Term(ke, row, p, q, 0, 3) +
      Term(ke, row, p, q, 1, 0) + Term(ke, row, p, q, 1, 1) + Term(ke, row, p, q, 1, 2) + Term(ke, row, p, q, 1, 3) +
      Term(ke, row, p, q, 2, 0) + Term(ke, row, p, q, 2, 1) + Term(ke, row, p, q, 2, 2) + Term(ke, row, p, q, 2, 3) +
      Term(ke, row, p, q, 3, 0) + Term(ke, row, p, q, 3, 1) + Term(ke, row, p, q, 3, 2) + Term(ke, row, p, q, 3, 3)
  {
    RowSumTerms(ke, row, p, q, 0);
    RowSumTerms(ke, row, p, q, 1);
    RowSumTerms(ke, row, p, q, 2);
    RowSumTerms(ke, row, p, q, 3);
    assert BlockSum(ke, row, p, q, 1) == RowSum(ke, row, p, q, 0, 4);
    assert BlockSum(ke, row, p, q, 2) == BlockSum(ke, row, p, q, 1) + RowSum(ke, row, p, q, 1, 4);
    assert BlockSum(ke, row, p, q, 3) == BlockSum(ke, row, p, q, 2) + RowSum(ke, row, p, q, 2, 4);
  }

  /** A symmetric element matrix scatters symmetrically. */
  lemma ScatterSymmetric(ke: Matrix, row: seq<nat>, p: int, q: int)
    requires IsMatrix(ke, 4, 4) && |row| == 4 && IsSymmetric(ke, 4)
    ensures Scatter(ke, row, p, q) == Scatter(ke, row, q, p)
  {
    ScatterTerms(ke, row, p, q);
    ScatterTerms(ke, row, q, p);
    forall a, b | 0 <= a < 4 && 0 <= b < 4
      ensures Term(ke, row, p, q, a, b) == Term(ke, row, q, p, b, a)
    {
    }
  }

  /** The assembled matrix is symmetric when every element matrix is. */
  lemma {:induction false} GlobalEntrySymmetric(info: seq<seq<nat>>, kes: seq<Matrix>, m: nat, p: int, q: int)
    requires Fits(info, kes) && m <= |info|
    requires forall e :: 0 <= e < |kes| ==> IsSymmetric(kes[e], 4)
    ensures GlobalEntry(info, kes, m, p, q) == GlobalEntry(info, kes, m, q, p)
  {
    if m > 0 {
      GlobalEntrySymmetric(info, kes, m - 1, p, q);
      ScatterSymmetric(kes[m - 1], info[m - 1], p, q);
    }
  }

  /** After any number of elements, the partial sum is symmetric. */
  lemma PrefixSymmetric(info: seq<seq<nat>>, kes: seq<Matrix>, m: nat)
    requires Fits(info, kes) && m <= |info|
    requires forall e :: 0 <= e < |kes| ==> IsSymmetric(kes[e], 4)
    ensures forall p: int, q: int :: GlobalEntry(info, kes, m, p, q) == GlobalEntry(info, kes, m, q, p)
  {
    forall p: int, q: int
      ensures GlobalEntry(info, kes, m, p, q) == GlobalEntry(info, kes, m, q, p)
    {
      GlobalEntrySymmetric(info, kes, m, p, q);
    }
  }

  lemma StiffnessSymmetric(info: seq<seq<nat>>, kes: seq<Matrix>, n: nat)
    requires Fits(info, kes)
    requires forall e :: 0 <= e < |kes| ==> IsSymmetric(kes[e], 4)
    ensures IsSymmetric(Stiffness(info, kes, n), n)
  {
    forall p, q | 0 <= p < n && 0 <= q < n
      ensures Stiffness(info, kes, n)[p][q] == Stiffness(info, kes, n)[q][p]
    {
      GlobalEntrySymmetric(info, kes, |info|, p, q);
    }
  }

  /** An element only touches the cells whose row and column are both among its DOFs. */
  lemma ScatterOutside(ke: Matrix, row: seq<nat>, p: int, q: int)
    requires IsMatrix(ke, 4, 4) && |row| == 4
    requires !(p + 1 in row && q + 1 in row)
    ensures Scatter(ke, row, p, q) == 0.0
  {
    ScatterTerms(ke, row, p, q);
    forall a, b | 0 <= a < 4 && 0 <= b < 4
      ensures Term(ke, row, p, q, a, b) == 0.0
    {
      assert row[a] in row && row[b] in row;
    }
  }

  /** With four distinct DOFs, the cell of local pair (a, b) receives exactly ke[a][b]. */
  lemma ScatterDistinct(ke: Matrix, row: seq<nat>, a: nat, b: nat)
    requires IsMatrix(ke, 4, 4) && |row| == 4 && Distinct(row) && a < 4 && b < 4
    ensures Scatter(ke, row, row[a] as int - 1, row[b] as int - 1) == ke[a][b]
  {
    var p, q := row[a] as int - 1, row[b] as int - 1;
    ScatterTerms(ke, row, p, q);
    forall a', b' | 0 <= a' < 4 && 0 <= b' < 4
      ensures Term(ke, row, p, q, a', b') == if a' == a && b' == b then ke[a][b] else 0.0
    {
      if a' != a {
        assert row[a'] != row[a];
      }
      if b' != b {
        assert row[b'] != row[b];
      }
    }
  }

  /** A cell that no element touches stays 0. */
  lemma {:induction false} UntouchedCellZero(info: seq<seq<nat>>, kes: seq<Matrix>, m: nat, p: int, q: int)
    requires Fits(info, kes) && m <= |info|
    requires forall e :: 0 <= e < m ==> !(p + 1 in info[e] && q + 1 in info[e])
    ensures GlobalEntry(info, kes, m, p, q) == 0.0
  {
    if m > 0 {
      UntouchedCellZero(info, kes, m - 1, p, q);
      ScatterOutside(kes[m - 1], info[m - 1], p, q);
    }
  }

  /**
   * With distinct DOFs per element and element matrices whose diagonal is
   * not negative, every diagonal entry of the assembled matrix is not negative.
   */
  lemma {:induction false} DiagonalNonNegative(info: seq<seq<nat>>, kes: seq<Matrix>, m: nat, p: int)
    requires Fits(info, kes) && m <= |info|
    requires forall e :: 0 <= e < |info| ==> Distinct(info[e])
    requires forall e, a :: 0 <= e < |kes| && 0 <= a < 4 ==> kes[e][a][a] >= 0.0
    ensures GlobalEntry(info, kes, m, p, p) >= 0.0
  {
    if m > 0 {
      DiagonalNonNegative(info, kes, m - 1, p);
      var ke, row := kes[m - 1], info[m - 1];
      if p + 1 in row {
        var a :| 0 <= a < 4 && row[a] == p + 1;
        ScatterDistinct(ke, row, a, a);
      } else {
        ScatterOutside(ke, row, p, p);
      }
    }
  }
}
