/**
 * Global force balance. When every element lists its DOFs in the order
 * (x, y) of one end, then (x, y) of the other, and x-DOFs carry odd 1-based
 * numbers, the assembled matrix inherits each element's self-balance: the
 * forces K * U sum to zero over the x-DOFs and over the y-DOFs, for every
 * displacement vector U. For the analysis this means that the loads at the
 * free DOFs and the reactions at the supports balance in each direction.
 *
 * Directions are written on 0-based indices: index p lies in direction
 * p % 2, so 0 is x and 1 is y.
 */
module Equilibrium {
  import opened Wrappers
  import opened Linear
  import opened Element
  import opened Assembly
  import opened Boundary
  import opened Loads
  import opened Pipeline

  /** The sum of v[p] over the indices p < m that lie in direction d. */
  function DirSum(v: Vector, d: nat, m: nat): real
    requires m <= |v|
  {
    if m == 0 then 0.0 else DirSum(v, d, m - 1) + (if (m - 1) % 2 == d then v[m - 1] else 0.0)
  }

  /** DirSum is additive. */
  lemma {:induction false} DirSumAdd(u: Vector, v: Vector, w: Vector, d: nat, m: nat)
    requires m <= |u| && m <= |v| && m <= |w|
    requires forall p :: 0 <= p < m ==> w[p] == u[p] + v[p]
    ensures DirSum(w, d, m) == DirSum(u, d, m) + DirSum(v, d, m)
  {
    if m > 0 {
      DirSumAdd(u, v, w, d, m - 1);
    }
  }

  /** The direction sum of a vector that is zero below m is zero. */
  lemma {:induction false} DirSumZero(v: Vector, d: nat, m: nat)
    requires m <= |v|
    requires forall p :: 0 <= p < m ==> v[p] == 0.0
    ensures DirSum(v, d, m) == 0.0
  {
    if m > 0 {
      DirSumZero(v, d, m - 1);
    }
  }

  /** The element's DOFs alternate x, y, x, y, with x-DOFs odd (1-based). */
  predicate XYOrder(row: seq<nat>)
  {
    |row| == 4 && forall a :: 0 <= a < 4 ==> row[a] % 2 == (a + 1) % 2
  }

  /** The sum of ke[a][b] over the local b whose DOF is q + 1. */
  function RowPart(ke: Matrix, row: seq<nat>, q: int, a: nat): real
    requires IsMatrix(ke, 4, 4) && |row| == 4 && a < 4
  {
    RowSum(ke, row, row[a] as int - 1, q, a, 4)
  }

  /** What local row a of an element adds to cell (p, q): its RowPart if its DOF is p + 1. */
  function RowShare(ke: Matrix, row: seq<nat>, p: int, q: int, a: nat): real
    requires IsMatrix(ke, 4, 4) && |row| == 4 && a < 4
  {
    if row[a] == p + 1 then RowPart(ke, row, q, a) else 0.0
  }

  lemma RowSumOff(ke: Matrix, row: seq<nat>, p: int, q: int, a: nat)
    requires IsMatrix(ke, 4, 4) && |row| == 4 && a < 4 && row[a] != p + 1
    ensures RowSum(ke, row, p, q, a, 4) == 0.0
  {
    RowSumTerms(ke, row, p, q, a);
  }

  /** An element's contribution to cell (p, q), grouped by local row. */
  lemma ScatterByRow(ke: Matrix, row: seq<nat>, p: int, q: int)
    requires IsMatrix(ke, 4, 4) && |row| == 4
    ensures Scatter(ke, row, p, q) ==
      RowShare(ke, row, p, q, 0) + RowShare(ke, row, p, q, 1) + RowShare(ke, row, p, q, 2) + RowShare(ke, row, p, q, 3)
  {
    assert BlockSum(ke, row, p, q, 1) == RowSum(ke, row, p, q, 0, 4);
    assert BlockSum(ke, row, p, q, 2) == BlockSum(ke, row, p, q, 1) + RowSum(ke, row, p, q, 1, 4);
    assert BlockSum(ke, row, p, q, 3) == BlockSum(ke, row, p, q, 2) + RowSum(ke, row, p, q, 2, 4);
    forall a | 0 <= a < 4
      ensures RowSum(ke, row, p, q, a, 4) == RowShare(ke, row, p, q, a)
    {
      if row[a] != p + 1 {
        RowSumOff(ke, row, p, q, a);
      }
    }
  }

  /** Local row a's share of a direction sum over the indices below m. */
  function RowShareBelow(ke: Matrix, row: seq<nat>, q: int, d: nat, m: nat, a: nat): real
    requires IsMatrix(ke, 4, 4) && |row| == 4 && a < 4
  {
    if 1 <= row[a] <= m && (row[a] - 1) % 2 == d then RowPart(ke, row, q, a) else 0.0
  }

  /** The direction sum of column q of one element's contribution, over the indices below m. */
  lemma {:induction false} ElementColumnSum(ke: Matrix, row: seq<nat>, q: int, d: nat, n: nat, m: nat)
    requires IsMatrix(ke, 4, 4) && |row| == 4 && m <= n
    ensures DirSum(seq(n, p requires 0 <= p < n => Scatter(ke, row, p, q)), d, m) ==
      RowShareBelow(ke, row, q, d, m, 0) + RowShareBelow(ke, row, q, d, m, 1) +
      RowShareBelow(ke, row, q, d, m, 2) + RowShareBelow(ke, row, q, d, m, 3)
  {
    if m > 0 {
      ElementColumnSum(ke, row, q, d, n, m - 1);
      ScatterByRow(ke, row, m - 1, q);
      ShareStep(ke, row, q, d, m, 0);
      ShareStep(ke, row, q, d, m, 1);
      ShareStep(ke, row, q, d, m, 2);
      ShareStep(ke, row, q, d, m, 3);
    }
  }

  /** Raising the bound from m - 1 to m adds local row a's share of cell (m - 1, q). */
  lemma ShareStep(ke: Matrix, row: seq<nat>, q: int, d: nat, m: nat, a: nat)
    requires IsMatrix(ke, 4, 4) && |row| == 4 && a < 4 && m > 0
    ensures RowShareBelow(ke, row, q, d, m, a) ==
      RowShareBelow(ke, row, q, d, m - 1, a) + (if (m - 1) % 2 == d then RowShare(ke, row, m - 1, q, a) else 0.0)
  {
  }

  /**
   * Column q of one element's contribution sums to zero over each
   * direction: the element is self-balanced and lists its DOFs x, y, x, y.
   */
  lemma ElementColumnBalanced(ke: Matrix, row: seq<nat>, q: int, d: nat, n: nat)
    requires IsMatrix(ke, 4, 4) && XYOrder(row) && d < 2
    requires forall a :: 0 <= a < 4 ==> 1 <= row[a] <= n
    requires forall b :: 0 <= b < 4 ==> ke[0][b] + ke[2][b] == 0.0 && ke[1][b] + ke[3][b] == 0.0
    ensures DirSum(seq(n, p requires 0 <= p < n => Scatter(ke, row, p, q)), d, n) == 0.0
  {
    ElementColumnSum(ke, row, q, d, n, n);
    assert row[0] % 2 == 1 && row[1] % 2 == 0 && row[2] % 2 == 1 && row[3] % 2 == 0;
    if d == 0 {
      RowPartPair(ke, row, q, 0, 2);
    } else {
      RowPartPair(ke, row, q, 1, 3);
    }
  }

  /** Two local rows whose entries cancel column by column have cancelling parts. */
  lemma RowPartPair(ke: Matrix, row: seq<nat>, q: int, a: nat, c: nat)
    requires IsMatrix(ke, 4, 4) && |row| == 4 && a < 4 && c < 4
    requires forall b :: 0 <= b < 4 ==> ke[a][b] + ke[c][b] == 0.0
    ensures RowPart(ke, row, q, a) + RowPart(ke, row, q, c) == 0.0
  {
    var pa, pc := row[a] as int - 1, row[c] as int - 1;
    RowSumTerms(ke, row, pa, q, a);
    RowSumTerms(ke, row, pc, q, c);
    forall b | 0 <= b < 4
      ensures Term(ke, row, pa, q, a, b) + Term(ke, row, pc, q, c, b) == 0.0
    {
    }
  }

  /** Column q of the partial sum after m elements sums to zero over each direction. */
  lemma {:induction false} GlobalColumnBalanced(info: seq<seq<nat>>, kes: seq<Matrix>, m: nat, q: int, d: nat, n: nat)
    requires Fits(info, kes) && m <= |info| && WithinSize(info, n) && d < 2
    requires forall e :: 0 <= e < |info| ==> XYOrder(info[e])
    requires forall e, a :: 0 <= e < |info| && 0 <= a < 4 ==> info[e][a] >= 1
    requires forall e, b :: 0 <= e < |kes| && 0 <= b < 4 ==>
      kes[e][0][b] + kes[e][2][b] == 0.0 && kes[e][1][b] + kes[e][3][b] == 0.0
    ensures DirSum(seq(n, p requires 0 <= p < n => GlobalEntry(info, kes, m, p, q)), d, n) == 0.0
  {
    var col := seq(n, p requires 0 <= p < n => GlobalEntry(info, kes, m, p, q));
    if m == 0 {
      DirSumZero(col, d, n);
    } else {
      GlobalColumnBalanced(info, kes, m - 1, q, d, n);
      ElementColumnBalanced(kes[m - 1], info[m - 1], q, d, n);
      DirSumAdd(seq(n, p requires 0 <= p < n => GlobalEntry(info, kes, m - 1, p, q)),
                seq(n, p requires 0 <= p < n => Scatter(kes[m - 1], info[m - 1], p, q)), col, d, n);
    }
  }

  /**
   * Exchanging the two sums: the direction sum of K * U is U dotted with
   * the direction sums of K's columns.
   */
  lemma {:induction false} DirSumMatVec(k: Matrix, u: Vector, d: nat, m: nat)
    requires IsMatrix(k, |k|, |u|) && m <= |k|
    ensures DirSum(MatVec(k, u), d, m) ==
      Dot(seq(|u|, q requires 0 <= q < |u| => DirSum(Column(k, q), d, m)), u)
  {
    var sums := seq(|u|, q requires 0 <= q < |u| => DirSum(Column(k, q), d, m));
    if m == 0 {
      DotToZero(sums, u, |u|);
    } else {
      DirSumMatVec(k, u, d, m - 1);
      var prev := seq(|u|, q requires 0 <= q < |u| => DirSum(Column(k, q), d, m - 1));
      if (m - 1) % 2 == d {
        DotToAdd(prev, k[m - 1], sums, u, |u|);
      } else {
        assert sums == prev;
      }
    }
  }

  /**
   * The assembled matrix is balanced: for every displacement vector U, the
   * forces K * U sum to zero over the x-DOFs and over the y-DOFs.
   */
  lemma StiffnessBalanced(info: seq<seq<nat>>, kes: seq<Matrix>, n: nat, u: Vector, d: nat)
    requires Fits(info, kes) && WithinSize(info, n) && |u| == n && d < 2
    requires forall e :: 0 <= e < |info| ==> XYOrder(info[e])
    requires forall e, a :: 0 <= e < |info| && 0 <= a < 4 ==> info[e][a] >= 1
    requires forall e, b :: 0 <= e < |kes| && 0 <= b < 4 ==>
      kes[e][0][b] + kes[e][2][b] == 0.0 && kes[e][1][b] + kes[e][3][b] == 0.0
    ensures DirSum(MatVec(Stiffness(info, kes, n), u), d, n) == 0.0
  {
    var k := Stiffness(info, kes, n);
    DirSumMatVec(k, u, d, n);
    var sums := seq(n, q requires 0 <= q < n => DirSum(Column(k, q), d, n));
    forall q | 0 <= q < n
      ensures sums[q] == 0.0
    {
      GlobalColumnBalanced(info, kes, |info|, q, d, n);
      assert Column(k, q) == seq(n, p requires 0 <= p < n => GlobalEntry(info, kes, |info|, p, q));
    }
    DotToZero(sums, u, n);
  }

  /** The direction sum over the indices below m that are not in s. */
  function FreeDirSum(v: Vector, d: nat, s: seq<nat>, m: nat): real
    requires m <= |v|
  {
    if m == 0 then 0.0
    else FreeDirSum(v, d, s, m - 1) + (if (m - 1) % 2 == d && m - 1 !in s then v[m - 1] else 0.0)
  }

  /** The direction sum over the indices below m that are in s. */
  function SupportDirSum(v: Vector, d: nat, s: seq<nat>, m: nat): real
    requires m <= |v|
  {
    if m == 0 then 0.0
    else SupportDirSum(v, d, s, m - 1) + (if (m - 1) % 2 == d && m - 1 in s then v[m - 1] else 0.0)
  }

  /** The sum of r[i] over the first k positions i whose index s[i] lies in direction d. */
  function ListDirSum(r: Vector, s: seq<nat>, d: nat, k: nat): real
    requires k <= |r| && k <= |s|
  {
    if k == 0 then 0.0 else ListDirSum(r, s, d, k - 1) + (if s[k - 1] % 2 == d then r[k - 1] else 0.0)
  }

  /** A direction sum splits into its free part and its support part. */
  lemma {:induction false} DirSumSplit(v: Vector, d: nat, s: seq<nat>, m: nat)
    requires m <= |v|
    ensures DirSum(v, d, m) == FreeDirSum(v, d, s, m) + SupportDirSum(v, d, s, m)
  {
    if m > 0 {
      DirSumSplit(v, d, s, m - 1);
    }
  }

  /** The free part only reads the entries outside s. */
  lemma {:induction false} FreeDirSumAgree(v: Vector, w: Vector, d: nat, s: seq<nat>, m: nat)
    requires m <= |v| && m <= |w|
    requires forall p :: 0 <= p < m && p !in s ==> v[p] == w[p]
    ensures FreeDirSum(v, d, s, m) == FreeDirSum(w, d, s, m)
  {
    if m > 0 {
      FreeDirSumAgree(v, w, d, s, m - 1);
    }
  }

  /** Adding one new index x to s adds v[x] to the support part, if x is below m and in direction d. */
  lemma {:induction false} SupportDirSumExtend(v: Vector, d: nat, s: seq<nat>, x: nat, m: nat)
    requires m <= |v| && x !in s
    ensures SupportDirSum(v, d, s + [x], m) ==
      SupportDirSum(v, d, s, m) + (if x < m && x % 2 == d then v[x] else 0.0)
  {
    if m > 0 {
      SupportDirSumExtend(v, d, s, x, m - 1);
      assert (m - 1 in s + [x]) <==> (m - 1 in s || m - 1 == x);
    }
  }

  /**
   * For distinct indices below n, summing v over the set s equals summing,
   * in list order, the values r[i] = v[s[i]].
   */
  lemma {:induction false} SupportDirSumByList(v: Vector, r: Vector, d: nat, s: seq<nat>, n: nat, k: nat)
    requires n <= |v| && k <= |s| && k <= |r| && Distinct(s)
    requires forall i :: 0 <= i < k ==> s[i] < n && r[i] == v[s[i]]
    ensures SupportDirSum(v, d, s[..k], n) == ListDirSum(r, s, d, k)
  {
    if k == 0 {
      SupportDirSumEmpty(v, d, n);
    } else {
      SupportDirSumByList(v, r, d, s, n, k - 1);
      assert s[..k] == s[..k - 1] + [s[k - 1]];
      assert s[k - 1] !in s[..k - 1];
      SupportDirSumExtend(v, d, s[..k - 1], s[k - 1], n);
    }
  }

  /** The whole-list case of SupportDirSumByList. */
  lemma SupportDirSumWhole(v: Vector, r: Vector, d: nat, s: seq<nat>, n: nat)
    requires n <= |v| && |s| <= |r| && Distinct(s)
    requires forall i :: 0 <= i < |s| ==> s[i] < n && r[i] == v[s[i]]
    ensures SupportDirSum(v, d, s, n) == ListDirSum(r, s, d, |s|)
  {
    SupportDirSumByList(v, r, d, s, n, |s|);
    assert s[..|s|] == s;
  }

  /** Shifting distinct 1-based supports to 0-based keeps them distinct. */
  lemma ZeroBasedDistinct(supports: seq<nat>)
    requires forall i :: 0 <= i < |supports| ==> supports[i] >= 1
    requires Distinct(supports)
    ensures Distinct(ZeroBased(supports))
  {
    var s := ZeroBased(supports);
    forall i, j | 0 <= i < j < |s|
      ensures s[i] != s[j]
    {
      assert supports[i] != supports[j];
    }
  }

  lemma {:induction false} SupportDirSumEmpty(v: Vector, d: nat, m: nat)
    requires m <= |v|
    ensures SupportDirSum(v, d, [], m) == 0.0
  {
    if m > 0 {
      SupportDirSumEmpty(v, d, m - 1);
    }
  }

  /**
   * The balance argument on plain values: the columns of K u sum to zero,
   * the free rows of K u equal the loads, and each reaction is its support
   * row of K u; split the column sum into free and support parts.
   */
  lemma BalanceFromParts(k: Matrix, u: Vector, f: Vector, r: Vector, supports: seq<nat>, n: nat, d: nat)
    requires IsMatrix(k, n, n) && |u| == n && |f| == n
    requires DirSum(MatVec(k, u), d, n) == 0.0
    requires (forall i :: 0 <= i < |supports| ==> 1 <= supports[i] <= n) && Distinct(supports)
    requires forall p :: 0 <= p < n && p !in ZeroBased(supports) ==> Dot(k[p], u) == f[p]
    requires |r| == |supports| && forall i :: 0 <= i < |supports| ==> r[i] == Dot(k[supports[i] - 1], u)
    ensures FreeDirSum(f, d, ZeroBased(supports), n) + ListDirSum(r, ZeroBased(supports), d, |supports|) == 0.0
  {
    var s := ZeroBased(supports);
    var ku := MatVec(k, u);
    DirSumSplit(ku, d, s, n);
    FreeDirSumAgree(ku, f, d, s, n);
    ZeroBasedDistinct(supports);
    SupportDirSumWhole(ku, r, d, s, n);
  }

  /**
   * Global force balance of the analysis: in each direction, the loads at
   * the free DOFs plus the reported reactions sum to zero. It needs the x,
   * y, x, y DOF order of every element, distinct supports and a sound
   * solver. Loads listed at support DOFs do not enter the reduced system,
   * and the reported reaction at a support is row(K) * U alone, so such
   * loads take no part in the balance.
   */
  lemma ForceBalance(info: seq<seq<nat>>, bars: seq<Bar>, area: real, modulus: real,
                     supports: seq<nat>, forces: seq<Load>, solve: Solver, d: nat)
    requires InputsValid(info, bars, supports, forces) && SolverSized(solve) && SolverSound(solve)
    requires Analysis(info, bars, area, modulus, supports, forces, solve).Ok?
    requires forall e :: 0 <= e < |info| ==> XYOrder(info[e])
    requires Distinct(supports) && d < 2
    ensures var rep := Analysis(info, bars, area, modulus, supports, forces, solve).value;
      var n := MaxDof(info);
      FreeDirSum(LoadVector(forces, n), d, ZeroBased(supports), n) +
      ListDirSum(rep.reactions, ZeroBased(supports), d, |supports|) == 0.0
  {
    var rep := Analysis(info, bars, area, modulus, supports, forces, solve).value;
    var n := MaxDof(info);
    var kes := ElementMatrices(bars, area, modulus);
    var u := rep.displacements;
    ElementMatricesBalanced(bars, area, modulus);
    StiffnessBalanced(info, kes, n, u, d);
    FreeEquilibrium(info, bars, area, modulus, supports, forces, solve);
    ReactionsFromFullSystem(info, bars, area, modulus, supports, forces, solve);
    BalanceFromParts(GlobalStiffness(info, bars, area, modulus), u, LoadVector(forces, n),
                     rep.reactions, supports, n, d);
  }
}
