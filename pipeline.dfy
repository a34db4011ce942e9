/**
 * The whole analysis as one pure function of its inputs: element matrices,
 * assembly, loads, reduction to the free DOFs, the solve, the scatter back
 * into a full displacement vector and the support reactions. Each of the
 * three implementations is proved to compute exactly this.
 */
module Pipeline {
  import opened Wrappers
  import opened Linear
  import opened Element
  import opened Assembly
  import opened Boundary
  import opened Loads

  /** What the analysis reports: one displacement per DOF, one reaction per support. */
  datatype Report = Report(displacements: Vector, reactions: Vector)

  /** The dense linear solver: None when it fails, otherwise an answer of the right size. */
  type Solver = (Matrix, Vector) -> Option<Vector>

  ghost predicate SolverSized(solve: Solver)
  {
    forall m, v :: solve(m, v).Some? ==> |solve(m, v).value| == |v|
  }

  /** A solver whose answers solve the system they were asked about. */
  ghost predicate SolverSound(solve: Solver)
  {
    forall m: Matrix, v: Vector :: IsMatrix(m, |v|, |v|) && solve(m, v).Some? ==>
      |solve(m, v).value| == |v| && MatVec(m, solve(m, v).value) == v
  }

  /** Every support names a DOF in 1..n. */
  predicate SupportsWithin(supports: seq<nat>, n: nat)
  {
    forall i :: 0 <= i < |supports| ==> 1 <= supports[i] <= n
  }

  /**
   * The inputs the program indexes without failing: four DOFs >= 1 per
   * element, one bar of positive length per element, and supports and loads
   * that name DOFs of the table.
   */
  predicate InputsValid(info: seq<seq<nat>>, bars: seq<Bar>, supports: seq<nat>, forces: seq<Load>)
  {
    WellShaped(info) && |bars| == |info| && (forall e :: 0 <= e < |bars| ==> WellFormed(bars[e])) &&
    SupportsWithin(supports, MaxDof(info)) && LoadsWithin(forces, MaxDof(info))
  }

  /** The assembled global stiffness matrix, N x N with N the largest DOF. */
  function GlobalStiffness(info: seq<seq<nat>>, bars: seq<Bar>, area: real, modulus: real): (k: Matrix)
    requires WellShaped(info) && |bars| == |info| && forall e :: 0 <= e < |bars| ==> WellFormed(bars[e])
    ensures IsMatrix(k, MaxDof(info), MaxDof(info))
  {
    Stiffness(info, ElementMatrices(bars, area, modulus), MaxDof(info))
  }

  /** The free DOFs of the structure, ascending and 0-based. */
  function FreeList(info: seq<seq<nat>>, supports: seq<nat>): (free: seq<nat>)
    requires SupportsWithin(supports, MaxDof(info))
    ensures forall i :: 0 <= i < |free| ==> free[i] < MaxDof(info)
  {
    FreeDofs(MaxDof(info), ZeroBased(supports))
  }

  /**
   * The analysis: Err(NoElements) for an empty table, Err(SingularSystem)
   * when the reduced solve fails, otherwise the full displacements and the
   * support reactions.
   */
  function Analysis(info: seq<seq<nat>>, bars: seq<Bar>, area: real, modulus: real,
                    supports: seq<nat>, forces: seq<Load>, solve: Solver): (r: Result<Report>)
    requires InputsValid(info, bars, supports, forces) && SolverSized(solve)
    ensures r.Ok? ==> |r.value.displacements| == MaxDof(info) && |r.value.reactions| == |supports|
  {
    if |info| == 0 then Err(NoElements)
    else
      var n := MaxDof(info);
      var k := GlobalStiffness(info, bars, area, modulus);
      var free := FreeList(info, supports);
      match solve(Reduced(k, n, free), Gather(LoadVector(forces, n), free))
      case None => Err(SingularSystem)
      case Some(u) =>
        var full := Expand(n, ZeroBased(supports), u);
        Ok(Report(full, MatVec(SupportRows(k, n, supports), full)))
  }

  /**
   * The analysis fails exactly when the table is empty (NoElements) or the
   * solver gives no answer for the reduced system (SingularSystem).
   */
  lemma AnalysisOutcome(info: seq<seq<nat>>, bars: seq<Bar>, area: real, modulus: real,
                        supports: seq<nat>, forces: seq<Load>, solve: Solver)
    requires InputsValid(info, bars, supports, forces) && SolverSized(solve)
    ensures var r := Analysis(info, bars, area, modulus, supports, forces, solve);
      (|info| == 0 <==> r == Err(NoElements)) &&
      (|info| > 0 ==>
        var n := MaxDof(info);
        var free := FreeList(info, supports);
        var k := GlobalStiffness(info, bars, area, modulus);
        (r.Ok? <==> solve(Reduced(k, n, free), Gather(LoadVector(forces, n), free)).Some?))
  {
    var r := Analysis(info, bars, area, modulus, supports, forces, solve);
    if |info| > 0 {
      var n := MaxDof(info);
      var free := FreeList(info, supports);
      var k := GlobalStiffness(info, bars, area, modulus);
      var answer := solve(Reduced(k, n, free), Gather(LoadVector(forces, n), free));
      if answer.None? {
        assert r == Err(SingularSystem);
      } else {
        assert r.Ok?;
      }
    }
  }

  /** Every support DOF has exactly zero displacement. */
  lemma SupportsFixed(info: seq<seq<nat>>, bars: seq<Bar>, area: real, modulus: real,
                      supports: seq<nat>, forces: seq<Load>, solve: Solver)
    requires InputsValid(info, bars, supports, forces) && SolverSized(solve)
    requires Analysis(info, bars, area, modulus, supports, forces, solve).Ok?
    ensures var d := Analysis(info, bars, area, modulus, supports, forces, solve).value.displacements;
      forall i :: 0 <= i < |supports| ==> d[supports[i] - 1] == 0.0
  {
    var n := MaxDof(info);
    var s := ZeroBased(supports);
    var k := GlobalStiffness(info, bars, area, modulus);
    var free := FreeList(info, supports);
    var u := solve(Reduced(k, n, free), Gather(LoadVector(forces, n), free)).value;
    ExpandPlaces(n, s, u);
    forall i | 0 <= i < |supports|
      ensures Expand(n, s, u)[supports[i] - 1] == 0.0
    {
      assert s[i] == supports[i] - 1;
    }
  }

  /**
   * The i-th free DOF receives the i-th entry of the solver's answer, and
   * the free entries of the displacements are that answer, in order.
   */
  lemma FreeDisplacements(info: seq<seq<nat>>, bars: seq<Bar>, area: real, modulus: real,
                          supports: seq<nat>, forces: seq<Load>, solve: Solver)
    requires InputsValid(info, bars, supports, forces) && SolverSized(solve)
    requires Analysis(info, bars, area, modulus, supports, forces, solve).Ok?
    ensures var n := MaxDof(info);
      var free := FreeList(info, supports);
      var k := GlobalStiffness(info, bars, area, modulus);
      var d := Analysis(info, bars, area, modulus, supports, forces, solve).value.displacements;
      Gather(d, free) == solve(Reduced(k, n, free), Gather(LoadVector(forces, n), free)).value
  {
    var n := MaxDof(info);
    var k := GlobalStiffness(info, bars, area, modulus);
    var free := FreeList(info, supports);
    ExpandPlaces(n, ZeroBased(supports), solve(Reduced(k, n, free), Gather(LoadVector(forces, n), free)).value);
  }

  /**
   * Reaction i is support i's row of the unreduced stiffness matrix dotted
   * with the full displacements, in support order.
   */
  lemma ReactionsFromFullSystem(info: seq<seq<nat>>, bars: seq<Bar>, area: real, modulus: real,
                                supports: seq<nat>, forces: seq<Load>, solve: Solver)
    requires InputsValid(info, bars, supports, forces) && SolverSized(solve)
    requires Analysis(info, bars, area, modulus, supports, forces, solve).Ok?
    ensures var rep := Analysis(info, bars, area, modulus, supports, forces, solve).value;
      var k := GlobalStiffness(info, bars, area, modulus);
      |rep.reactions| == |supports| &&
      forall i :: 0 <= i < |supports| ==> rep.reactions[i] == Dot(k[supports[i] - 1], rep.displacements)
  {
    var n := MaxDof(info);
    var k := GlobalStiffness(info, bars, area, modulus);
    var free := FreeList(info, supports);
    var u := solve(Reduced(k, n, free), Gather(LoadVector(forces, n), free)).value;
    var d := Expand(n, ZeroBased(supports), u);
    var rows := SupportRows(k, n, supports);
    assert Analysis(info, bars, area, modulus, supports, forces, solve).value == Report(d, MatVec(rows, d));
    forall i | 0 <= i < |supports|
      ensures MatVec(rows, d)[i] == Dot(k[supports[i] - 1], d)
    {
      assert rows[i] == k[supports[i] - 1];
    }
  }

  /**
   * With a sound solver, the displacements satisfy the unreduced system at
   * every free DOF: row p of K times the displacements is the load at p.
   */
  lemma FreeEquilibrium(info: seq<seq<nat>>, bars: seq<Bar>, area: real, modulus: real,
                        supports: seq<nat>, forces: seq<Load>, solve: Solver)
    requires InputsValid(info, bars, supports, forces) && SolverSized(solve) && SolverSound(solve)
    requires Analysis(info, bars, area, modulus, supports, forces, solve).Ok?
    ensures var d := Analysis(info, bars, area, modulus, supports, forces, solve).value.displacements;
      var n := MaxDof(info);
      var k := GlobalStiffness(info, bars, area, modulus);
      var f := LoadVector(forces, n);
      forall p :: 0 <= p < n && p !in ZeroBased(supports) ==> Dot(k[p], d) == f[p]
  {
    var n := MaxDof(info);
    var s := ZeroBased(supports);
    var k := GlobalStiffness(info, bars, area, modulus);
    var f := LoadVector(forces, n);
    var free := FreeList(info, supports);
    var km := Reduced(k, n, free);
    var fm := Gather(f, free);
    var u := solve(km, fm).value;
    var d := Expand(n, s, u);
    assert MatVec(km, u) == fm;
    forall p | 0 <= p < n && p !in s
      ensures Dot(k[p], d) == f[p]
    {
      FreeRank(n, s, p);
      var i := |FreeDofs(p, s)|;
      DotExpand(k[p], n, s, u);
      assert km[i] == Gather(k[p], free);
      assert MatVec(km, u)[i] == Dot(km[i], u);
    }
  }

  /** With a sound solver, the free part of the displacements solves the reduced system. */
  lemma ReducedSystemSolved(info: seq<seq<nat>>, bars: seq<Bar>, area: real, modulus: real,
                            supports: seq<nat>, forces: seq<Load>, solve: Solver)
    requires InputsValid(info, bars, supports, forces) && SolverSized(solve) && SolverSound(solve)
    requires Analysis(info, bars, area, modulus, supports, forces, solve).Ok?
    ensures var n := MaxDof(info);
      var free := FreeList(info, supports);
      var k := GlobalStiffness(info, bars, area, modulus);
      var d := Analysis(info, bars, area, modulus, supports, forces, solve).value.displacements;
      MatVec(Reduced(k, n, free), Gather(d, free)) == Gather(LoadVector(forces, n), free)
  {
    FreeDisplacements(info, bars, area, modulus, supports, forces, solve);
  }

  /** The global stiffness matrix and the reduced one are symmetric. */
  lemma StiffnessSymmetry(info: seq<seq<nat>>, bars: seq<Bar>, area: real, modulus: real, supports: seq<nat>)
    requires WellShaped(info) && |bars| == |info| && forall e :: 0 <= e < |bars| ==> WellFormed(bars[e])
    requires SupportsWithin(supports, MaxDof(info))
    ensures var n := MaxDof(info);
      var k := GlobalStiffness(info, bars, area, modulus);
      IsSymmetric(k, n) && IsSymmetric(Reduced(k, n, FreeList(info, supports)), |FreeList(info, supports)|)
  {
    var kes := ElementMatrices(bars, area, modulus);
    ElementMatricesSymmetric(bars, area, modulus);
    StiffnessSymmetric(info, kes, MaxDof(info));
    ReducedSymmetric(GlobalStiffness(info, bars, area, modulus), MaxDof(info), FreeList(info, supports));
  }

  /**
   * With A * E >= 0 and four distinct DOFs per element, every diagonal
   * entry of the global stiffness matrix is non-negative.
   */
  lemma GlobalDiagonalNonNegative(info: seq<seq<nat>>, bars: seq<Bar>, area: real, modulus: real)
    requires WellShaped(info) && |bars| == |info| && forall e :: 0 <= e < |bars| ==> WellFormed(bars[e])
    requires forall e :: 0 <= e < |info| ==> Distinct(info[e])
    requires area * modulus >= 0.0
    ensures var k := GlobalStiffness(info, bars, area, modulus);
      forall p :: 0 <= p < MaxDof(info) ==> k[p][p] >= 0.0
  {
    var kes := ElementMatrices(bars, area, modulus);
    var k := GlobalStiffness(info, bars, area, modulus);
    ElementMatricesDiagonal(bars, area, modulus);
    forall p | 0 <= p < MaxDof(info)
      ensures k[p][p] >= 0.0
    {
      DiagonalNonNegative(info, kes, |info|, p);
    }
  }
}
