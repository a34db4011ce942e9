/**
 * The PyTorch implementation: assembly through `meshgrid` index tensors,
 * loads through one indexed assignment, and the reduction and scatter-back
 * through a boolean mask that is True exactly at the free DOFs.
 */
module TorchSolver {
  import opened Wrappers
  import opened Linear
  import opened Element
  import opened Assembly
  import opened Boundary
  import opened Loads
  import opened Pipeline

  /** torch.meshgrid(idx, idx, indexing='ij'): rows[a][b] = idx[a] and cols[a][b] = idx[b]. */
  function Meshgrid(idx: seq<int>): (grids: (seq<seq<int>>, seq<seq<int>>))
    ensures |grids.0| == |idx| && |grids.1| == |idx|
    ensures forall a :: 0 <= a < |idx| ==> |grids.0[a]| == |idx| && |grids.1[a]| == |idx|
    ensures forall a, b :: 0 <= a < |idx| && 0 <= b < |idx| ==>
      grids.0[a][b] == idx[a] && grids.1[a][b] == idx[b]
  {
    (seq(|idx|, a requires 0 <= a < |idx| => seq(|idx|, _ => idx[a])),
     seq(|idx|, _ => idx))
  }

  /** info[i, :] - 1. */
  function Shifted(row: seq<nat>): (idx: seq<int>)
    ensures |idx| == |row|
    ensures forall a :: 0 <= a < |row| ==> idx[a] + 1 == row[a]
  {
    seq(|row|, a requires 0 <= a < |row| => row[a] as int - 1)
  }

  /**
   * K[meshgrid(idx, idx)] += ke: cell (rows[a][b], cols[a][b]) gains
   * ke[a][b], all sixteen at once. The element's four DOFs must be distinct.
   */
  method AddGrid(k: array2<real>, ke: Matrix, row: seq<nat>)
    requires IsMatrix(ke, 4, 4) && |row| == 4 && Distinct(row)
    requires forall a :: 0 <= a < 4 ==> 1 <= row[a] <= k.Length0 && row[a] <= k.Length1
    modifies k
    ensures forall p, q :: 0 <= p < k.Length0 && 0 <= q < k.Length1 ==>
      k[p, q] == old(k[p, q]) + Scatter(ke, row, p, q)
  {
    var idx := Shifted(row);
    var grids := Meshgrid(idx);
    var rows, cols := grids.0, grids.1;
    assert forall a, b :: 0 <= a < 4 && 0 <= b < 4 ==>
      rows[a][b] == row[a] - 1 && cols[a][b] == row[b] - 1;
    forall a, b | 0 <= a < 4 && 0 <= b < 4 {
      k[rows[a][b], cols[a][b]] := k[rows[a][b], cols[a][b]] + ke[a][b];
    }
    forall p, q | 0 <= p < k.Length0 && 0 <= q < k.Length1
      ensures k[p, q] == old(k[p, q]) + Scatter(ke, row, p, q)
    {
      if p + 1 in row && q + 1 in row {
        var a, b := GridHits(row, p, q);
        assert k[p, q] == old(k[p, q]) + ke[a][b];
        ScatterDistinct(ke, row, a, b);
      } else {
        GridMisses(row, p, q);
        assert k[p, q] == old(k[p, q]);
        ScatterOutside(ke, row, p, q);
      }
    }
  }

  /** A cell in the element's rows and columns is named by the pair of local indices of its DOFs. */
  lemma GridHits(row: seq<nat>, p: int, q: int) returns (a: nat, b: nat)
    requires |row| == 4 && p + 1 in row && q + 1 in row
    ensures a < 4 && b < 4 && row[a] == p + 1 && row[b] == q + 1
    ensures var grids := Meshgrid(Shifted(row));
      grids.0[a][b] == p && grids.1[a][b] == q
  {
    a :| 0 <= a < 4 && row[a] == p + 1;
    b :| 0 <= b < 4 && row[b] == q + 1;
    var grids := Meshgrid(Shifted(row));
    assert grids.0[a][b] == row[a] as int - 1 && grids.1[a][b] == row[b] as int - 1;
  }

  /** A cell outside the element's rows or columns is named by no pair of the grids. */
  lemma GridMisses(row: seq<nat>, p: int, q: int)
    requires |row| == 4 && !(p + 1 in row && q + 1 in row)
    ensures var grids := Meshgrid(Shifted(row));
      forall a, b :: 0 <= a < 4 && 0 <= b < 4 ==> !(grids.0[a][b] == p && grids.1[a][b] == q)
  {
    var grids := Meshgrid(Shifted(row));
    forall a, b | 0 <= a < 4 && 0 <= b < 4
      ensures !(grids.0[a][b] == p && grids.1[a][b] == q)
    {
      assert grids.0[a][b] == row[a] as int - 1 && grids.1[a][b] == row[b] as int - 1;
      assert row[a] in row && row[b] in row;
    }
  }

  /** The element loop: build ke for each element and add it through the grids. */
  method AssembleStiffness(info: seq<seq<nat>>, bars: seq<Bar>, area: real, modulus: real, n: nat)
    returns (k: array2<real>)
    requires WellShaped(info) && WithinSize(info, n)
    requires forall e :: 0 <= e < |info| ==> Distinct(info[e])
    requires |bars| == |info| && forall e :: 0 <= e < |bars| ==> WellFormed(bars[e])
    ensures fresh(k) && k.Length0 == n && k.Length1 == n
    ensures Cells(k) == Stiffness(info, ElementMatrices(bars, area, modulus), n)
  {
    ghost var kes := ElementMatrices(bars, area, modulus);
    k := new real[n, n]((_, _) => 0.0);
    assert Fits(info, kes);
    for e := 0 to |info|
      invariant forall p, q :: 0 <= p < n && 0 <= q < n ==> k[p, q] == GlobalEntry(info, kes, e, p, q)
    {
      AddNthGrid(k, info, bars, area, modulus, e);
    }
    StiffnessFromEntries(Cells(k), info, kes, n);
  }

  /** One pass of the element loop: build ke for element e and add it through the grids. */
  method AddNthGrid(k: array2<real>, info: seq<seq<nat>>, bars: seq<Bar>, area: real, modulus: real, e: nat)
    requires WellShaped(info) && WithinSize(info, k.Length0) && k.Length1 == k.Length0
    requires |bars| == |info| && forall i :: 0 <= i < |bars| ==> WellFormed(bars[i])
    requires e < |info| && Distinct(info[e])
    requires forall p, q :: 0 <= p < k.Length0 && 0 <= q < k.Length1 ==>
      k[p, q] == GlobalEntry(info, ElementMatrices(bars, area, modulus), e, p, q)
    modifies k
    ensures forall p, q :: 0 <= p < k.Length0 && 0 <= q < k.Length1 ==>
      k[p, q] == GlobalEntry(info, ElementMatrices(bars, area, modulus), e + 1, p, q)
  {
    ghost var kes := ElementMatrices(bars, area, modulus);
    var ke := ElementStiffness(bars[e], area, modulus);
    var row := info[e];
    assert ke == kes[e] && |row| == 4;
    assert forall a :: 0 <= a < 4 ==> 1 <= row[a] <= k.Length0;
    AddGrid(k, ke, row);
    forall p, q | 0 <= p < k.Length0 && 0 <= q < k.Length1
      ensures k[p, q] == GlobalEntry(info, kes, e + 1, p, q)
    {
      assert k[p, q] == old(k[p, q]) + Scatter(kes[e], info[e], p, q);
    }
  }

  /** No two loads name the same DOF. */
  predicate DistinctDofs(forces: seq<Load>)
  {
    forall i, j :: 0 <= i < j < |forces| ==> forces[i].dof != forces[j].dof
  }

  /**
   * F[forces[:, 0] - 1] = forces[:, 1] on a zero vector: one simultaneous
   * assignment, which with distinct DOFs gives the same vector as writing
   * the loads one by one.
   */
  method ScatterLoads(n: nat, forces: seq<Load>) returns (f: array<real>)
    requires LoadsWithin(forces, n) && DistinctDofs(forces)
    ensures fresh(f) && f[..] == LoadVector(forces, n)
  {
    f := new real[n](_ => 0.0);
    var idx := seq(|forces|, i requires 0 <= i < |forces| => forces[i].dof - 1);
    var vals := seq(|forces|, i requires 0 <= i < |forces| => forces[i].value);
    forall i | 0 <= i < |forces| {
      f[idx[i]] := vals[i];
    }
    forall p | 0 <= p < n
      ensures f[p] == LoadVector(forces, n)[p]
    {
      if i :| 0 <= i < |forces| && forces[i].dof == p + 1 {
        assert idx[i] == p;
        LoadVectorLastWins(forces, n, i);
      } else {
        assert forall i :: 0 <= i < |forces| ==> idx[i] != p;
        LoadVectorUnlisted(forces, n, p);
      }
    }
    assert f[..] == LoadVector(forces, n);
  }

  /** mask = ones(n); mask[s] = False: True exactly at the indices not in s. */
  method BuildMask(n: nat, s: seq<nat>) returns (mask: array<bool>)
    requires forall i :: 0 <= i < |s| ==> s[i] < n
    ensures fresh(mask) && mask.Length == n
    ensures forall p :: 0 <= p < n ==> mask[p] == (p !in s)
  {
    mask := new bool[n](_ => true);
    forall i | 0 <= i < |s| {
      mask[s[i]] := false;
    }
  }

  /** The number of True entries. */
  function CountTrue(mask: seq<bool>): (c: nat)
    ensures c <= |mask|
  {
    if |mask| == 0 then 0 else CountTrue(mask[..|mask| - 1]) + (if mask[|mask| - 1] then 1 else 0)
  }

  /** v[mask]: the entries at the True positions, in order. */
  function MaskSelect<T>(v: seq<T>, mask: seq<bool>): (r: seq<T>)
    requires |v| == |mask|
    ensures |r| == CountTrue(mask)
  {
    if |v| == 0 then []
    else MaskSelect(v[..|v| - 1], mask[..|mask| - 1]) + (if mask[|mask| - 1] then [v[|v| - 1]] else [])
  }

  /** The free-DOF mask: True exactly at the indices not in s. */
  predicate FreeMask(mask: seq<bool>, s: seq<nat>)
  {
    forall p :: 0 <= p < |mask| ==> mask[p] == (p !in s)
  }

  /** Below p, the free-DOF mask has as many True entries as there are free indices. */
  lemma {:induction false} CountFree(mask: seq<bool>, s: seq<nat>, p: nat)
    requires FreeMask(mask, s) && p <= |mask|
    ensures CountTrue(mask[..p]) == |FreeDofs(p, s)|
  {
    if p > 0 {
      CountFree(mask, s, p - 1);
      assert mask[..p][..p - 1] == mask[..p - 1];
    }
  }

  /** Selecting with the free-DOF mask keeps exactly the free entries, in ascending order. */
  lemma {:induction false} MaskSelectKeepsFree<T>(v: seq<T>, mask: seq<bool>, s: seq<nat>)
    requires |v| == |mask| && FreeMask(mask, s)
    ensures |MaskSelect(v, mask)| == |FreeDofs(|v|, s)|
    ensures forall i :: 0 <= i < |MaskSelect(v, mask)| ==> MaskSelect(v, mask)[i] == v[FreeDofs(|v|, s)[i]]
  {
    CountFree(mask, s, |mask|);
    assert mask[..|mask|] == mask;
    if |v| > 0 {
      var w, m := v[..|v| - 1], mask[..|mask| - 1];
      MaskSelectKeepsFree(w, m, s);
      var d := MaskSelect(v, mask);
      var free := FreeDofs(|v|, s);
      forall i | 0 <= i < |d|
        ensures d[i] == v[free[i]]
      {
        if i < |MaskSelect(w, m)| {
          assert d[i] == MaskSelect(w, m)[i] == w[FreeDofs(|w|, s)[i]];
          assert free[i] == FreeDofs(|w|, s)[i];
        }
      }
    }
  }

  /** M[:, mask]: the True columns of every row. */
  function MaskColumns(m: Matrix, mask: seq<bool>): (r: Matrix)
    requires forall i :: 0 <= i < |m| ==> |m[i]| == |mask|
    ensures IsMatrix(r, |m|, CountTrue(mask))
  {
    seq(|m|, i requires 0 <= i < |m| => MaskSelect(m[i], mask))
  }

  /** K[mask][:, mask] with the free-DOF mask is the reduced matrix. */
  lemma MaskReduces(k: Matrix, n: nat, mask: seq<bool>, s: seq<nat>)
    requires IsMatrix(k, n, n) && |mask| == n && FreeMask(mask, s)
    ensures forall i :: 0 <= i < |MaskSelect(k, mask)| ==> |MaskSelect(k, mask)[i]| == n
    ensures MaskColumns(MaskSelect(k, mask), mask) == Reduced(k, n, FreeDofs(n, s))
  {
    var free := FreeDofs(n, s);
    MaskSelectKeepsFree(k, mask, s);
    var rows := MaskSelect(k, mask);
    var red := Reduced(k, n, free);
    forall i | 0 <= i < |rows|
      ensures MaskColumns(rows, mask)[i] == red[i]
    {
      MaskSelectKeepsFree(rows[i], mask, s);
    }
  }

  /** F[mask] with the free-DOF mask is the reduced load vector. */
  lemma MaskGathers(v: Vector, mask: seq<bool>, s: seq<nat>)
    requires |v| == |mask| && FreeMask(mask, s)
    ensures MaskSelect(v, mask) == Gather(v, FreeDofs(|v|, s))
  {
    MaskSelectKeepsFree(v, mask, s);
  }

  /** A True entry has fewer True entries before it than there are in total. */
  lemma {:induction false} CountBefore(mask: seq<bool>, p: nat)
    requires p < |mask| && mask[p]
    ensures CountTrue(mask[..p]) < CountTrue(mask)
  {
    if p < |mask| - 1 {
      CountBefore(mask[..|mask| - 1], p);
      assert mask[..|mask| - 1][..p] == mask[..p];
    } else {
      assert mask[..|mask| - 1] == mask[..p];
    }
  }

  /**
   * a[mask] = vals: the k-th True position receives vals[k], every False
   * position is kept. vals must have one entry per True position.
   */
  method MaskedAssign(a: array<real>, mask: seq<bool>, vals: seq<real>)
    requires |mask| == a.Length && |vals| == CountTrue(mask)
    modifies a
    ensures forall p :: 0 <= p < a.Length && mask[p] ==>
      CountTrue(mask[..p]) < |vals| && a[p] == vals[CountTrue(mask[..p])]
    ensures forall p :: 0 <= p < a.Length && !mask[p] ==> a[p] == old(a[p])
  {
    forall p | 0 <= p < a.Length && mask[p]
      ensures CountTrue(mask[..p]) < |vals|
    {
      CountBefore(mask, p);
    }
    forall p | 0 <= p < a.Length && mask[p] {
      a[p] := vals[CountTrue(mask[..p])];
    }
  }

  /** The scatter-back: a zero vector whose free-mask positions receive the solution. */
  method ScatterBack(n: nat, s: seq<nat>, mask: seq<bool>, u: seq<real>) returns (full: array<real>)
    requires |mask| == n && FreeMask(mask, s) && |u| == |FreeDofs(n, s)|
    ensures fresh(full) && full[..] == Expand(n, s, u)
  {
    full := new real[n](_ => 0.0);
    CountFree(mask, s, n);
    assert mask[..n] == mask;
    MaskedAssign(full, mask, u);
    forall p | 0 <= p < n
      ensures full[p] == Expand(n, s, u)[p]
    {
      ExpandAt(n, s, u, p);
      if p !in s {
        CountFree(mask, s, p);
      }
    }
    assert full[..] == Expand(n, s, u);
  }

  /** The module-level script from line 41 on. */
  method Analyse(info: seq<seq<nat>>, bars: seq<Bar>, area: real, modulus: real,
                 supports: seq<nat>, forces: seq<Load>, solve: Solver) returns (r: Result<Report>)
    requires InputsValid(info, bars, supports, forces) && SolverSized(solve)
    requires forall e :: 0 <= e < |info| ==> Distinct(info[e])
    requires DistinctDofs(forces)
    ensures r == Analysis(info, bars, area, modulus, supports, forces, solve)
  {
    if |info| == 0 {
      return Err(NoElements);
    }
    var n := MaxDof(info);
    var f := ScatterLoads(n, forces);
    var k := AssembleStiffness(info, bars, area, modulus, n);
    var s := ZeroBased(supports);
    var maskArray := BuildMask(n, s);
    var mask := maskArray[..];
    MaskReduces(Cells(k), n, mask, s);
    MaskGathers(f[..], mask, s);
    var kmod := MaskColumns(MaskSelect(Cells(k), mask), mask);
    var fmod := MaskSelect(f[..], mask);
    var solved := solve(kmod, fmod);
    if solved.None? {
      return Err(SingularSystem);
    }
    var full := ScatterBack(n, s, mask, solved.value);
    var reactions := MatVec(SupportRows(Cells(k), n, supports), full[..]);
    r := Ok(Report(full[..], reactions));
  }
}
