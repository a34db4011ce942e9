/**
 * Dense vectors and matrices over `real`, as sequences, with the few
 * operations the direct stiffness method needs.
 */
module Linear {

  type Vector = seq<real>
  type Matrix = seq<seq<real>>

  predicate IsMatrix(m: Matrix, rows: nat, cols: nat)
  {
    |m| == rows && forall i :: 0 <= i < rows ==> |m[i]| == cols
  }

  predicate IsSymmetric(m: Matrix, n: nat)
    requires IsMatrix(m, n, n)
  {
    forall i, j :: 0 <= i < n && 0 <= j < n ==> m[i][j] == m[j][i]
  }

  /** The sum of u[j] * v[j] over the first n positions. */
  function DotTo(u: Vector, v: Vector, n: nat): real
    requires n <= |u| && n <= |v|
  {
    if n == 0 then 0.0 else DotTo(u, v, n - 1) + u[n - 1] * v[n - 1]
  }

  function Dot(u: Vector, v: Vector): real
    requires |u| == |v|
  {
    DotTo(u, v, |u|)
  }

  function MatVec(m: Matrix, v: Vector): (r: Vector)
    requires forall i :: 0 <= i < |m| ==> |m[i]| == |v|
    ensures |r| == |m|
  {
    seq(|m|, i requires 0 <= i < |m| => Dot(m[i], v))
  }

  function Column(m: Matrix, j: nat): (r: Vector)
    requires forall i :: 0 <= i < |m| ==> j < |m[i]|
    ensures |r| == |m|
  {
    seq(|m|, i requires 0 <= i < |m| => m[i][j])
  }

  function Transpose(m: Matrix, rows: nat, cols: nat): (t: Matrix)
    requires IsMatrix(m, rows, cols)
    ensures IsMatrix(t, cols, rows)
    ensures forall i, j :: 0 <= i < cols && 0 <= j < rows ==> t[i][j] == m[j][i]
  {
    seq(cols, j requires 0 <= j < cols => seq(rows, i requires 0 <= i < rows => m[i][j]))
  }

  /** The matrix product a * b, where b has `cols` columns. */
  function MatMul(a: Matrix, b: Matrix, cols: nat): (c: Matrix)
    requires forall i :: 0 <= i < |a| ==> |a[i]| == |b|
    requires IsMatrix(b, |b|, cols)
    ensures IsMatrix(c, |a|, cols)
  {
    seq(|a|, i requires 0 <= i < |a| =>
      seq(cols, j requires 0 <= j < cols => Dot(a[i], Column(b, j))))
  }

  /** The entries of a two-dimensional array, row by row. */
  function Cells(a: array2<real>): (m: Matrix)
    reads a
    ensures IsMatrix(m, a.Length0, a.Length1)
    ensures forall i, j :: 0 <= i < a.Length0 && 0 <= j < a.Length1 ==> m[i][j] == a[i, j]
  {
    seq(a.Length0, i requires 0 <= i < a.Length0 reads a =>
      seq(a.Length1, j requires 0 <= j < a.Length1 reads a => a[i, j]))
  }

  /** The dot product is additive in its first operand. */
  lemma {:induction false} DotToAdd(u: Vector, v: Vector, w: Vector, x: Vector, n: nat)
    requires n <= |u| && n <= |v| && n <= |w| && n <= |x|
    requires forall j :: 0 <= j < n ==> w[j] == u[j] + v[j]
    ensures DotTo(w, x, n) == DotTo(u, x, n) + DotTo(v, x, n)
  {
    if n > 0 {
      DotToAdd(u, v, w, x, n - 1);
      assert w[n - 1] * x[n - 1] == u[n - 1] * x[n - 1] + v[n - 1] * x[n - 1];
    }
  }

  /** Dotting with a vector that is zero on the first n positions gives 0. */
  lemma {:induction false} DotToZero(u: Vector, x: Vector, n: nat)
    requires n <= |u| && n <= |x|
    requires forall j :: 0 <= j < n ==> u[j] == 0.0
    ensures DotTo(u, x, n) == 0.0
  {
    if n > 0 {
      DotToZero(u, x, n - 1);
    }
  }
}
