/**
 * The Rust implementation: zero-initialised arrays filled by explicit index
 * loops. Each stage is proved to produce the corresponding value of the
 * pure pipeline.
 */
module RustSolver {
  import opened Wrappers
  import opened Linear
  import opened Element
  import opened Assembly
  import opened Boundary
  import opened Loads
  import opened Pipeline

  /**
   * The element loop: for each element, build ke and scatter-add it into
   * the global matrix.
   */
  method AssembleStiffness(info: seq<seq<nat>>, bars: seq<Bar>, area: real, modulus: real, n: nat)
    returns (k: array2<real>)
    requires WellShaped(info) && WithinSize(info, n)
    requires |bars| == |info| && forall e :: 0 <= e < |bars| ==> WellFormed(bars[e])
    ensures fresh(k) && k.Length0 == n && k.Length1 == n
    ensures Cells(k) == Stiffness(info, ElementMatrices(bars, area, modulus), n)
  {
    ghost var kes := ElementMatrices(bars, area, modulus);
    k := new real[n, n]((_, _) => 0.0);
    assert Fits(info, kes);
    for e := 0 to |info|
      invariant forall p, q :: 0 <= p < n && 0 <= q < n ==> k[p, q] == GlobalEntry(info, kes, e, p, q)
    {
      AddNthElement(k, info, bars, area, modulus, e);
    }
    StiffnessFromEntries(Cells(k), info, kes, n);
  }

  /** One pass of the element loop: build ke for element e and add it. */
  method AddNthElement(k: array2<real>, info: seq<seq<nat>>, bars: seq<Bar>, area: real, modulus: real, e: nat)
    requires WellShaped(info) && WithinSize(info, k.Length0) && k.Length1 == k.Length0
    requires |bars| == |info| && forall i :: 0 <= i < |bars| ==> WellFormed(bars[i])
    requires e < |info|
    requires forall p, q :: 0 <= p < k.Length0 && 0 <= q < k.Length1 ==>
      k[p, q] == GlobalEntry(info, ElementMatrices(bars, area, modulus), e, p, q)
    modifies k
    ensures forall p, q :: 0 <= p < k.Length0 && 0 <= q < k.Length1 ==>
      k[p, q] == GlobalEntry(info, ElementMatrices(bars, area, modulus), e + 1, p, q)
  {
    ghost var kes := ElementMatrices(bars, area, modulus);
    var ke := ElementStiffness(bars[e], area, modulus);
    var row := info[e];
    assert ke == kes[e] && |row| == 4;
    assert forall a :: 0 <= a < 4 ==> 1 <= row[a] <= k.Length0;
    AddElement(k, ke, row);
    forall p, q | 0 <= p < k.Length0 && 0 <= q < k.Length1
      ensures k[p, q] == GlobalEntry(info, kes, e + 1, p, q)
    {
      assert k[p, q] == old(k[p, q]) + Scatter(kes[e], info[e], p, q);
    }
  }

  /**
   * The two nested loops over the local indices: ke[a][b] is added into
   * cell (row[a] - 1, row[b] - 1) for all sixteen pairs, so every cell
   * gains exactly what the element scatters to it.
   */
  method AddElement(k: array2<real>, ke: Matrix, row: seq<nat>)
    requires IsMatrix(ke, 4, 4) && |row| == 4
    requires forall a :: 0 <= a < 4 ==> 1 <= row[a] <= k.Length0 && row[a] <= k.Length1
    modifies k
    ensures forall p, q :: 0 <= p < k.Length0 && 0 <= q < k.Length1 ==>
      k[p, q] == old(k[p, q]) + Scatter(ke, row, p, q)
  {
    for a := 0 to 4
      invariant forall p, q :: 0 <= p < k.Length0 && 0 <= q < k.Length1 ==>
        k[p, q] == old(k[p, q]) + BlockSum(ke, row, p, q, a)
    {
      for b := 0 to 4
        invariant forall p, q :: 0 <= p < k.Length0 && 0 <= q < k.Length1 ==>
          k[p, q] == old(k[p, q]) + BlockSum(ke, row, p, q, a) + RowSum(ke, row, p, q, a, b)
      {
        var i, j := row[a] - 1, row[b] - 1;
        k[i, j] := k[i, j] + ke[a][b];
      }
    }
  }

  /**
   * The reduced system: k_mod[i][j] = k[free[i]][free[j]] and
   * f_mod[i] = f[free[i]].
   */
  method ReduceSystem(k: array2<real>, f: array<real>, free: seq<nat>)
    returns (kmod: array2<real>, fmod: array<real>)
    requires k.Length0 == k.Length1 == f.Length
    requires forall i :: 0 <= i < |free| ==> free[i] < f.Length
    ensures fresh(kmod) && fresh(fmod)
    ensures Cells(kmod) == Reduced(Cells(k), f.Length, free)
    ensures fmod[..] == Gather(f[..], free)
  {
    var m := |free|;
    kmod := new real[m, m]((_, _) => 0.0);
    fmod := new real[m](_ => 0.0);
    for i := 0 to m
      invariant forall i', j :: 0 <= i' < i && 0 <= j < m ==> kmod[i', j] == k[free[i'], free[j]]
      invariant forall i' :: 0 <= i' < i ==> fmod[i'] == f[free[i']]
    {
      fmod[i] := f[free[i]];
      CopyFreeRow(k, kmod, free, i);
    }
    ReducedFromEntries(Cells(kmod), Cells(k), f.Length, free);
  }

  /** The inner loop over j: row i of k_mod receives the free columns of row free[i]. */
  method CopyFreeRow(k: array2<real>, kmod: array2<real>, free: seq<nat>, i: nat)
    requires kmod != k && k.Length0 == k.Length1
    requires forall i' :: 0 <= i' < |free| ==> free[i'] < k.Length0
    requires kmod.Length0 == kmod.Length1 == |free| && i < |free|
    modifies kmod
    ensures forall j :: 0 <= j < |free| ==> kmod[i, j] == k[free[i], free[j]]
    ensures forall i', j :: 0 <= i' < |free| && i' != i && 0 <= j < |free| ==> kmod[i', j] == old(kmod[i', j])
  {
    for j := 0 to |free|
      invariant forall j' :: 0 <= j' < j ==> kmod[i, j'] == k[free[i], free[j']]
      invariant forall i', j' :: 0 <= i' < |free| && i' != i && 0 <= j' < |free| ==> kmod[i', j'] == old(kmod[i', j'])
    {
      kmod[i, j] := k[free[i], free[j]];
    }
  }

  /** The scatter-back: a zero vector of length n receiving u[i] at free[i]. */
  method ScatterBack(n: nat, s: seq<nat>, u: seq<real>) returns (full: array<real>)
    requires |u| == |FreeDofs(n, s)|
    ensures fresh(full) && full[..] == Expand(n, s, u)
  {
    var free := FreeDofs(n, s);
    FreeDofsIncreasing(n, s);
    full := new real[n](_ => 0.0);
    for i := 0 to |free|
      invariant forall j :: 0 <= j < i ==> full[free[j]] == u[j]
      invariant forall p :: 0 <= p < n && p !in free[..i] ==> full[p] == 0.0
    {
      full[free[i]] := u[i];
      assert free[..i + 1] == free[..i] + [free[i]];
    }
    forall p | 0 <= p < n
      ensures full[p] == Expand(n, s, u)[p]
    {
      ExpandAt(n, s, u, p);
      if p !in s {
        FreeRank(n, s, p);
      } else {
        assert free[..|free|] == free;
      }
    }
    assert full[..] == Expand(n, s, u);
  }

  /**
   * The reaction loop: for each support, in order, the accumulated sum of
   * k[support - 1][j] * full[j] over all j.
   */
  method Reactions(k: array2<real>, supports: seq<nat>, full: array<real>) returns (reactions: array<real>)
    requires k.Length0 == k.Length1 == full.Length
    requires SupportsWithin(supports, full.Length)
    ensures fresh(reactions)
    ensures reactions[..] == MatVec(SupportRows(Cells(k), full.Length, supports), full[..])
  {
    var n := full.Length;
    ghost var rows := SupportRows(Cells(k), n, supports);
    reactions := new real[|supports|](_ => 0.0);
    for i := 0 to |supports|
      invariant forall i' :: 0 <= i' < i ==> reactions[i'] == Dot(rows[i'], full[..])
    {
      var reaction := RowTimes(k, supports[i] - 1, full);
      reactions[i] := reaction;
    }
    assert reactions[..] == MatVec(rows, full[..]);
  }

  /** The inner loop over j: the sum of k[r, j] * full[j], row r of K times the displacements. */
  method RowTimes(k: array2<real>, r: nat, full: array<real>) returns (reaction: real)
    requires k.Length0 == k.Length1 == full.Length && r < k.Length0
    ensures reaction == Dot(Cells(k)[r], full[..])
  {
    ghost var row := Cells(k)[r];
    reaction := 0.0;
    for j := 0 to full.Length
      invariant reaction == DotTo(row, full[..], j)
    {
      reaction := reaction + k[r, j] * full[j];
    }
  }

  /**
   * The whole program from line 39 on: size the system, build the loads,
   * assemble, reduce, solve, scatter back, and compute the reactions. An
   * empty table (nothing to take the maximum of) and a failed solve are the
   * two places where the program stops.
   */
  method Analyse(info: seq<seq<nat>>, bars: seq<Bar>, area: real, modulus: real,
                 supports: seq<nat>, forces: seq<Load>, solve: Solver) returns (r: Result<Report>)
    requires InputsValid(info, bars, supports, forces) && SolverSized(solve)
    ensures r == Analysis(info, bars, area, modulus, supports, forces, solve)
  {
    if |info| == 0 {
      return Err(NoElements);
    }
    var n := MaxDof(info);
    var f := BuildLoads(n, forces);
    var k := AssembleStiffness(info, bars, area, modulus, n);
    var s := ZeroBased(supports);
    var free := FreeDofs(n, s);
    var kmod, fmod := ReduceSystem(k, f, free);
    var solved := solve(Cells(kmod), fmod[..]);
    if solved.None? {
      return Err(SingularSystem);
    }
    var full := ScatterBack(n, s, solved.value);
    var reactions := Reactions(k, supports, full);
    r := Ok(Report(full[..], reactions[..]));
  }
}
