/**
 * The DOF table, supports and loads hard-coded in all three programs: nine
 * bars over six nodes, supports at DOFs 1, 2 and 12, loads at DOFs 7 and 10.
 * The bar coordinates are not repeated here: several lengths are square
 * roots of non-squares, which a `real` literal cannot write down.
 */
module Dataset {
  import opened Assembly
  import opened Boundary
  import opened Loads
  import opened Pipeline
  import opened Equilibrium

  const Table: seq<seq<nat>> := [
    [1, 2, 3, 4], [1, 2, 9, 10], [3, 4, 9, 10],
    [3, 4, 5, 6], [5, 6, 7, 8], [5, 6, 9, 10],
    [7, 8, 9, 10], [7, 8, 11, 12], [9, 10, 11, 12]
  ]

  const Supports: seq<nat> := [1, 2, 12]

  const Forces: seq<Load> := [Load(7, 20.0), Load(10, -50.0)]

  /** Every row names four distinct DOFs >= 1, in x, y, x, y order. */
  lemma TableShape()
    ensures WellShaped(Table)
    ensures forall e :: 0 <= e < |Table| ==> Distinct(Table[e]) && XYOrder(Table[e])
  {
  }

  /** The program sizes the system to 12 DOFs. */
  lemma TableSize()
    ensures MaxDof(Table) == 12
  {
    assert WithinSize(Table, 12);
    MaxDofAttained(Table, 12, 7, 3);
  }

  /** Supports and loads lie in 1..12, the supports are distinct, and 0-based they are 0, 1, 11. */
  lemma SupportsAndLoads()
    ensures SupportsWithin(Supports, 12) && Distinct(Supports) && LoadsWithin(Forces, 12)
    ensures ZeroBased(Supports) == [0, 1, 11]
  {
  }

  /** The free DOFs are 0-based 2..10: nine unknowns. */
  lemma TableFree()
    ensures FreeDofs(12, [0, 1, 11]) == [2, 3, 4, 5, 6, 7, 8, 9, 10]
  {
    var s: seq<nat> := [0, 1, 11];
    assert FreeDofs(1, s) == [];
    assert FreeDofs(2, s) == [];
    assert FreeDofs(3, s) == [2];
    assert FreeDofs(4, s) == [2, 3];
    assert FreeDofs(5, s) == [2, 3, 4];
    assert FreeDofs(6, s) == [2, 3, 4, 5];
    assert FreeDofs(7, s) == [2, 3, 4, 5, 6];
    assert FreeDofs(8, s) == [2, 3, 4, 5, 6, 7];
    assert FreeDofs(9, s) == [2, 3, 4, 5, 6, 7, 8];
    assert FreeDofs(10, s) == [2, 3, 4, 5, 6, 7, 8, 9];
    assert FreeDofs(11, s) == [2, 3, 4, 5, 6, 7, 8, 9, 10];
  }
}
