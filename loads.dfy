/**
 * The global load vector: zero everywhere, then each (DOF, value) pair in
 * list order writes its value at the 0-based index DOF - 1, so a later pair
 * for the same DOF overwrites an earlier one.
 */
module Loads {
  import opened Linear

  /** A nodal load: a 1-based DOF and the force applied along it. */
  datatype Load = Load(dof: nat, value: real)

  /** Every load names a DOF in 1..n. */
  predicate LoadsWithin(forces: seq<Load>, n: nat)
  {
    forall i :: 0 <= i < |forces| ==> 1 <= forces[i].dof <= n
  }

  /** The value at 0-based index p after the first m loads have been written. */
  function LastLoad(forces: seq<Load>, m: nat, p: nat): real
    requires m <= |forces|
  {
    if m == 0 then 0.0
    else if forces[m - 1].dof == p + 1 then forces[m - 1].value
    else LastLoad(forces, m - 1, p)
  }

  /** The load vector of length n. */
  function LoadVector(forces: seq<Load>, n: nat): (f: Vector)
    ensures |f| == n
  {
    seq(n, p requires 0 <= p < n => LastLoad(forces, |forces|, p))
  }

  lemma {:induction false} LastLoadUnlisted(forces: seq<Load>, m: nat, p: nat)
    requires m <= |forces|
    requires forall i :: 0 <= i < m ==> forces[i].dof != p + 1
    ensures LastLoad(forces, m, p) == 0.0
  {
    if m > 0 {
      LastLoadUnlisted(forces, m - 1, p);
    }
  }

  lemma {:induction false} LastLoadWins(forces: seq<Load>, m: nat, i: nat)
    requires i < m <= |forces| && forces[i].dof >= 1
    requires forall j :: i < j < m ==> forces[j].dof != forces[i].dof
    ensures LastLoad(forces, m, forces[i].dof - 1) == forces[i].value
  {
    if m - 1 > i {
      LastLoadWins(forces, m - 1, i);
    }
  }

  /** A DOF that no load names carries 0. */
  lemma LoadVectorUnlisted(forces: seq<Load>, n: nat, p: nat)
    requires p < n
    requires forall i :: 0 <= i < |forces| ==> forces[i].dof != p + 1
    ensures LoadVector(forces, n)[p] == 0.0
  {
    LastLoadUnlisted(forces, |forces|, p);
  }

  /** A listed DOF carries the value of the last load that names it. */
  lemma LoadVectorLastWins(forces: seq<Load>, n: nat, i: nat)
    requires i < |forces| && LoadsWithin(forces, n)
    requires forall j :: i < j < |forces| ==> forces[j].dof != forces[i].dof
    ensures LoadVector(forces, n)[forces[i].dof - 1] == forces[i].value
  {
    LastLoadWins(forces, |forces|, i);
  }

  /**
   * The force loop: a zero vector of length n, then one write per load in
   * list order.
   */
  method BuildLoads(n: nat, forces: seq<Load>) returns (f: array<real>)
    requires LoadsWithin(forces, n)
    ensures fresh(f) && f[..] == LoadVector(forces, n)
  {
    f := new real[n](_ => 0.0);
    var i := 0;
    while i < |forces|
      invariant 0 <= i <= |forces| && f.Length == n
      invariant forall p :: 0 <= p < n ==> f[p] == LastLoad(forces, i, p)
    {
      f[forces[i].dof - 1] := forces[i].value;
      i := i + 1;
    }
    assert f[..] == LoadVector(forces, n);
  }
}
