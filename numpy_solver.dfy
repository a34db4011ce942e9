/**
 * The NumPy implementation: the same pipeline written with whole-array
 * operations. `K[np.ix_(idx, idx)] += ke` is a simultaneous update of a 4x4
 * block, `np.delete` removes a set of positions keeping the rest in order,
 * and `np.put` writes a list of values at a list of positions.
 */
module NumpySolver {
  import opened Wrappers
  import opened Linear
  import opened Element
  import opened Assembly
  import opened Boundary
  import opened Loads
  import opened Pipeline

  /**
   * K[np.ix_(idx, idx)] += ke with idx = row - 1: every cell of the block is
   * read, increased and written back at once. Each row's four DOFs must be
   * distinct, so that no two cells of the block coincide.
   */
  method AddBlock(k: array2<real>, ke: Matrix, row: seq<nat>)
    requires IsMatrix(ke, 4, 4) && |row| == 4 && Distinct(row)
    requires forall a :: 0 <= a < 4 ==> 1 <= row[a] <= k.Length0 && row[a] <= k.Length1
    modifies k
    ensures forall p, q :: 0 <= p < k.Length0 && 0 <= q < k.Length1 ==>
      k[p, q] == old(k[p, q]) + Scatter(ke, row, p, q)
  {
    forall a, b | 0 <= a < 4 && 0 <= b < 4 {
      k[row[a] - 1, row[b] - 1] := k[row[a] - 1, row[b] - 1] + ke[a][b];
    }
    forall p, q | 0 <= p < k.Length0 && 0 <= q < k.Length1
      ensures k[p, q] == old(k[p, q]) + Scatter(ke, row, p, q)
    {
      if p + 1 in row && q + 1 in row {
        var a :| 0 <= a < 4 && row[a] == p + 1;
        var b :| 0 <= b < 4 && row[b] == q + 1;
        ScatterDistinct(ke, row, a, b);
      } else {
        ScatterOutside(ke, row, p, q);
      }
    }
  }

  /** The element loop: build ke for each element and add its block. */
  method AssembleStiffness(info: seq<seq<nat>>, bars: seq<Bar>, area: real, modulus: real, n: nat)
    returns (k: array2<real>)
    requires WellShaped(info) && WithinSize(info, n)
    requires forall e :: 0 <= e < |info| ==> Distinct(info[e])
    requires |bars| == |info| && forall e :: 0 <= e < |bars| ==> WellFormed(bars[e])
    ensures fresh(k) && k.Length0 == n && k.Length1 == n
    ensures Cells(k) == Stiffness(info, ElementMatrices(bars, area, modulus), n)
  {
    ghost var kes := ElementMatrices(bars, area, modulus);
    k := new real[n, n]((_, _) => 0.0);
    assert Fits(info, kes);
    for e := 0 to |info|
      invariant forall p, q :: 0 <= p < n && 0 <= q < n ==> k[p, q] == GlobalEntry(info, kes, e, p, q)
    {
      AddNthBlock(k, info, bars, area, modulus, e);
    }
    StiffnessFromEntries(Cells(k), info, kes, n);
  }

  /** One pass of the element loop: build ke for element e and add its block. */
  method AddNthBlock(k: array2<real>, info: seq<seq<nat>>, bars: seq<Bar>, area: real, modulus: real, e: nat)
    requires WellShaped(info) && WithinSize(info, k.Length0) && k.Length1 == k.Length0
    requires |bars| == |info| && forall i :: 0 <= i < |bars| ==> WellFormed(bars[i])
    requires e < |info| && Distinct(info[e])
    requires forall p, q :: 0 <= p < k.Length0 && 0 <= q < k.Length1 ==>
      k[p, q] == GlobalEntry(info, ElementMatrices(bars, area, modulus), e, p, q)
    modifies k
    ensures forall p, q :: 0 <= p < k.Length0 && 0 <= q < k.Length1 ==>
      k[p, q] == GlobalEntry(info, ElementMatrices(bars, area, modulus), e + 1, p, q)
  {
    ghost var kes := ElementMatrices(bars, area, modulus);
    var ke := ElementStiffness(bars[e], area, modulus);
    var row := info[e];
    assert ke == kes[e] && |row| == 4;
    assert forall a :: 0 <= a < 4 ==> 1 <= row[a] <= k.Length0;
    AddBlock(k, ke, row);
    forall p, q | 0 <= p < k.Length0 && 0 <= q < k.Length1
      ensures k[p, q] == GlobalEntry(info, kes, e + 1, p, q)
    {
      assert k[p, q] == old(k[p, q]) + Scatter(kes[e], info[e], p, q);
    }
  }

  /** np.delete(v, s): v without the positions listed in s, the rest in order. */
  function Delete<T>(v: seq<T>, s: seq<nat>): (r: seq<T>)
    ensures |r| == |FreeDofs(|v|, s)|
  {
    if |v| == 0 then []
    else Delete(v[..|v| - 1], s) + (if |v| - 1 in s then [] else [v[|v| - 1]])
  }

  /** np.delete keeps exactly the free positions, in ascending order. */
  lemma {:induction false} DeleteKeepsFree<T>(v: seq<T>, s: seq<nat>)
    ensures |Delete(v, s)| == |FreeDofs(|v|, s)|
    ensures forall i :: 0 <= i < |Delete(v, s)| ==> Delete(v, s)[i] == v[FreeDofs(|v|, s)[i]]
  {
    if |v| > 0 {
      var w := v[..|v| - 1];
      DeleteKeepsFree(w, s);
      assert |w| == |v| - 1;
      var d := Delete(v, s);
      var free := FreeDofs(|v|, s);
      forall i | 0 <= i < |d|
        ensures d[i] == v[free[i]]
      {
        if i < |Delete(w, s)| {
          assert d[i] == Delete(w, s)[i] == w[FreeDofs(|w|, s)[i]];
          assert free[i] == FreeDofs(|w|, s)[i];
        }
      }
    }
  }

  /** On a vector, np.delete is the gather of the free entries. */
  lemma DeleteIsGather(v: Vector, s: seq<nat>)
    ensures Delete(v, s) == Gather(v, FreeDofs(|v|, s))
  {
    DeleteKeepsFree(v, s);
  }

  /** np.delete(..., axis=1): the same positions removed from every row. */
  function DeleteColumns(m: Matrix, s: seq<nat>): (r: Matrix)
    ensures |r| == |m|
    ensures forall i :: 0 <= i < |m| ==> |r[i]| == |FreeDofs(|m[i]|, s)|
  {
    seq(|m|, i requires 0 <= i < |m| => Delete(m[i], s))
  }

  /**
   * Deleting the support rows and then the support columns leaves the
   * reduced matrix: the free rows and columns, in ascending order.
   */
  lemma DeleteRowsColumns(k: Matrix, n: nat, s: seq<nat>)
    requires IsMatrix(k, n, n)
    ensures DeleteColumns(Delete(k, s), s) == Reduced(k, n, FreeDofs(n, s))
  {
    var free := FreeDofs(n, s);
    DeleteKeepsFree(k, s);
    var rows := Delete(k, s);
    var red := Reduced(k, n, free);
    forall i | 0 <= i < |rows|
      ensures DeleteColumns(rows, s)[i] == red[i]
    {
      DeleteIsGather(rows[i], s);
    }
  }

  /** np.arange(n). */
  function Range(n: nat): (r: seq<nat>)
    ensures |r| == n && forall i :: 0 <= i < n ==> r[i] == i
  {
    seq(n, i requires 0 <= i < n => i)
  }

  /** np.delete(np.arange(n), s) is the free-DOF list. */
  lemma DeleteRangeIsFree(n: nat, s: seq<nat>)
    ensures Delete(Range(n), s) == FreeDofs(n, s)
  {
    DeleteKeepsFree(Range(n), s);
  }

  /**
   * np.put(a, idx, vals): vals[i] is written at idx[i], every other entry
   * is kept. The positions must be distinct and in range.
   */
  method Put(a: array<real>, idx: seq<nat>, vals: seq<real>)
    requires |idx| == |vals|
    requires forall i :: 0 <= i < |idx| ==> idx[i] < a.Length
    requires forall i, j :: 0 <= i < j < |idx| ==> idx[i] != idx[j]
    modifies a
    ensures forall i :: 0 <= i < |idx| ==> a[idx[i]] == vals[i]
    ensures forall p :: 0 <= p < a.Length && p !in idx ==> a[p] == old(a[p])
  {
    forall i | 0 <= i < |idx| {
      a[idx[i]] := vals[i];
    }
  }

  /** The scatter-back: a zero vector with the solution put at np.delete(np.arange(n), s). */
  method ScatterBack(n: nat, s: seq<nat>, u: seq<real>) returns (full: array<real>)
    requires |u| == |FreeDofs(n, s)|
    ensures fresh(full) && full[..] == Expand(n, s, u)
  {
    full := new real[n](_ => 0.0);
    var idx := Delete(Range(n), s);
    DeleteRangeIsFree(n, s);
    FreeDofsIncreasing(n, s);
    Put(full, idx, u);
    forall p | 0 <= p < n
      ensures full[p] == Expand(n, s, u)[p]
    {
      ExpandAt(n, s, u, p);
      if p !in s {
        FreeRank(n, s, p);
      }
    }
    assert full[..] == Expand(n, s, u);
  }

  /** The module-level script from line 48 on. */
  method Analyse(info: seq<seq<nat>>, bars: seq<Bar>, area: real, modulus: real,
                 supports: seq<nat>, forces: seq<Load>, solve: Solver) returns (r: Result<Report>)
    requires InputsValid(info, bars, supports, forces) && SolverSized(solve)
    requires forall e :: 0 <= e < |info| ==> Distinct(info[e])
    ensures r == Analysis(info, bars, area, modulus, supports, forces, solve)
  {
    if |info| == 0 {
      return Err(NoElements);
    }
    var n := MaxDof(info);
    var f := BuildLoads(n, forces);
    var k := AssembleStiffness(info, bars, area, modulus, n);
    var s := ZeroBased(supports);
    var kmod := DeleteColumns(Delete(Cells(k), s), s);
    var fmod := Delete(f[..], s);
    DeleteRowsColumns(Cells(k), n, s);
    DeleteIsGather(f[..], s);
    var solved := solve(kmod, fmod);
    if solved.None? {
      return Err(SingularSystem);
    }
    var full := ScatterBack(n, s, solved.value);
    var reactions := MatVec(SupportRows(Cells(k), n, supports), full[..]);
    r := Ok(Report(full[..], reactions));
  }
}
