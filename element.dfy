/**
 * Stiffness of one pin-jointed bar in global coordinates: ke = T^t * kee * T,
 * with T built from the direction cosines (cx, cy) and kee the 2x2 axial
 * stiffness k * [[1, -1], [-1, 1]].
 */
module Element {
  import opened Linear

  /**
   * One bar: the coordinates of its two ends and its length. The length
   * stands in for the square root the program takes: it is positive and its
   * square is dx^2 + dy^2.
   */
  datatype Bar = Bar(x1: real, y1: real, x2: real, y2: real, length: real)
  {
    function Dx(): real { x2 - x1 }
    function Dy(): real { y2 - y1 }
  }

  predicate WellFormed(b: Bar)
  {
    b.length > 0.0 && b.length * b.length == b.Dx() * b.Dx() + b.Dy() * b.Dy()
  }

  /**
   * The axial rigidity coefficient A*E/(12*c). A is in square inches and E
   * in ksi; if the coordinates are in feet, 12*c is the length in inches.
   */
  function Rigidity(area: real, modulus: real, length: real): (k: real)
    requires length > 0.0
    ensures area * modulus >= 0.0 ==> k >= 0.0
    ensures k * (12.0 * length) == area * modulus
  {
    (area * modulus) / (length * 12.0)
  }

  /** T: the two rows project each end's global displacement on the bar axis. */
  function Transform(cx: real, cy: real): (t: Matrix)
    ensures IsMatrix(t, 2, 4)
    ensures t[0][..2] == t[1][2..] == [cx, cy]
    ensures t[0][2..] == t[1][..2] == [0.0, 0.0]
  {
    [[cx, cy, 0.0, 0.0], [0.0, 0.0, cx, cy]]
  }

  /** kee: the axial stiffness of the bar in its own 2-DOF basis. */
  function AxialStiffness(k: real): (kee: Matrix)
    ensures IsMatrix(kee, 2, 2) && IsSymmetric(kee, 2)
    ensures kee[0][0] + kee[0][1] == 0.0 && kee[1][0] + kee[1][1] == 0.0
    ensures kee[0][0] == k
  {
    [[k, -k], [-k, k]]
  }

  /** (dx/c, dy/c) is a unit vector when c is the bar's length. */
  lemma UnitDirection(b: Bar)
    requires WellFormed(b)
    ensures var cx, cy := b.Dx() / b.length, b.Dy() / b.length;
      cx * cx + cy * cy == 1.0
  {
    var c := b.length;
    var dx, dy := b.Dx(), b.Dy();
    var cx, cy := dx / c, dy / c;
    assert c > 0.0 && c * c == dx * dx + dy * dy;
    assert cx * c == dx && cy * c == dy;
    var sum := cx * cx + cy * cy;
    assert sum * (c * c) == (cx * c) * (cx * c) + (cy * c) * (cy * c);
    assert (sum - 1.0) * (c * c) == 0.0;
    ZeroFactor(sum - 1.0, c);
  }

  /** A product with a positive square factor vanishes only when the other factor does. */
  lemma ZeroFactor(x: real, c: real)
    requires c > 0.0
    requires x * (c * c) == 0.0
    ensures x == 0.0
  {
    assert (x * c) * c == 0.0;
    assert x * c == ((x * c) * c) / c;
    assert x == (x * c) / c;
  }

  /**
   * With a unit direction, the two rows of T are orthonormal: each projects
   * one end's displacement on the bar axis, and they act on different ends.
   */
  lemma TransformOrthonormal(cx: real, cy: real)
    requires cx * cx + cy * cy == 1.0
    ensures var t := Transform(cx, cy);
      Dot(t[0], t[0]) == 1.0 && Dot(t[1], t[1]) == 1.0 && Dot(t[0], t[1]) == 0.0
  {
    var t := Transform(cx, cy);
    assert t[0] == [cx, cy, 0.0, 0.0] && t[1] == [0.0, 0.0, cx, cy];
    Dot4(t[0], t[0]);
    assert Dot(t[0], t[0]) == cx * cx + cy * cy + 0.0 * 0.0 + 0.0 * 0.0;
    Dot4(t[1], t[1]);
    assert Dot(t[1], t[1]) == 0.0 * 0.0 + 0.0 * 0.0 + cx * cx + cy * cy;
    Dot4(t[0], t[1]);
    assert Dot(t[0], t[1]) == cx * 0.0 + cy * 0.0 + 0.0 * cx + 0.0 * cy;
  }

  lemma Dot4(u: Vector, v: Vector)
    requires |u| == 4 && |v| == 4
    ensures Dot(u, v) == u[0] * v[0] + u[1] * v[1] + u[2] * v[2] + u[3] * v[3]
  {
    assert DotTo(u, v, 1) == u[0] * v[0];
    assert DotTo(u, v, 2) == DotTo(u, v, 1) + u[1] * v[1];
    assert DotTo(u, v, 3) == DotTo(u, v, 2) + u[2] * v[2];
    assert DotTo(u, v, 4) == DotTo(u, v, 3) + u[3] * v[3];
  }

  /** ke = T^t * kee * T, the 4x4 stiffness in global directions. */
  function ElementMatrix(cx: real, cy: real, k: real): (ke: Matrix)
    ensures IsMatrix(ke, 4, 4)
  {
    var t := Transform(cx, cy);
    MatMul(MatMul(Transpose(t, 2, 4), AxialStiffness(k), 2), t, 4)
  }

  /**
   * The signed direction cosine of local DOF a, s_a * d_a with
   * s = (+,+,-,-) and d = (cx,cy,cx,cy): (cx, cy, -cx, -cy).
   */
  function Direction(cx: real, cy: real, a: nat): real
  {
    if a == 0 then cx else if a == 1 then cy else if a == 2 then -cx else -cy
  }

  lemma Dot2(u: Vector, v: Vector)
    requires |u| == 2 && |v| == 2
    ensures Dot(u, v) == u[0] * v[0] + u[1] * v[1]
  {
    assert DotTo(u, v, 1) == u[0] * v[0];
  }

  /** k * s_a * d_a: the axial stiffness seen along local DOF a. */
  function AxialTerm(cx: real, cy: real, k: real, a: nat): real
  {
    k * Direction(cx, cy, a)
  }

  /** ke[a][b] = k * s_a * d_a * s_b * d_b, the closed form of T^t * kee * T. */
  function ClosedForm(cx: real, cy: real, k: real, a: nat, b: nat): real
  {
    AxialTerm(cx, cy, k, a) * Direction(cx, cy, b)
  }

  /** The first product T^t * kee: row a is k * s_a * d_a * [1, -1]. */
  lemma LeftProduct(cx: real, cy: real, k: real, a: nat)
    requires a < 4
    ensures var left := MatMul(Transpose(Transform(cx, cy), 2, 4), AxialStiffness(k), 2);
      left[a] == [AxialTerm(cx, cy, k, a), -AxialTerm(cx, cy, k, a)]
  {
    var t := Transform(cx, cy);
    var tt := Transpose(t, 2, 4);
    var kee := AxialStiffness(k);
    var left := MatMul(tt, kee, 2);
    assert Column(kee, 0) == [k, -k] && Column(kee, 1) == [-k, k];
    Dot2(tt[a], Column(kee, 0));
    Dot2(tt[a], Column(kee, 1));
    assert |left[a]| == 2;
    assert left[a][0] == Dot(tt[a], Column(kee, 0)) && left[a][1] == Dot(tt[a], Column(kee, 1));
    var d := Direction(cx, cy, a);
    var m := AxialTerm(cx, cy, k, a);
    assert m == k * d;
    if a < 2 {
      assert tt[a] == [d, 0.0];
      assert left[a][0] == d * k + 0.0 * -k && left[a][1] == d * -k + 0.0 * k;
    } else {
      assert tt[a] == [0.0, -d];
      assert left[a][0] == 0.0 * k + -d * -k && left[a][1] == 0.0 * -k + -d * k;
    }
    assert left[a][0] == m && left[a][1] == -m;
    assert left[a] == [left[a][0], left[a][1]];
  }

  /** One entry of T^t * kee * T, in closed form. */
  lemma ElementEntry(cx: real, cy: real, k: real, a: nat, b: nat)
    requires a < 4 && b < 4
    ensures ElementMatrix(cx, cy, k)[a][b] == ClosedForm(cx, cy, k, a, b)
  {
    var t := Transform(cx, cy);
    var left := MatMul(Transpose(t, 2, 4), AxialStiffness(k), 2);
    LeftProduct(cx, cy, k, a);
    var m := AxialTerm(cx, cy, k, a);
    var col := Column(t, b);
    Dot2(left[a], col);
    var d := Direction(cx, cy, b);
    assert ClosedForm(cx, cy, k, a, b) == m * d;
    if b < 2 {
      assert col == [d, 0.0];
      assert ElementMatrix(cx, cy, k)[a][b] == m * d + -m * 0.0;
    } else {
      assert col == [0.0, -d];
      assert ElementMatrix(cx, cy, k)[a][b] == m * 0.0 + -m * -d;
    }
  }

  /** T^t * kee * T has the closed form ke[a][b] = k * s_a * d_a * s_b * d_b. */
  lemma ElementClosedForm(cx: real, cy: real, k: real)
    ensures var ke := ElementMatrix(cx, cy, k);
      forall a, b :: 0 <= a < 4 && 0 <= b < 4 ==> ke[a][b] == ClosedForm(cx, cy, k, a, b)
  {
    forall a, b | 0 <= a < 4 && 0 <= b < 4
      ensures ElementMatrix(cx, cy, k)[a][b] == ClosedForm(cx, cy, k, a, b)
    {
      ElementEntry(cx, cy, k, a, b);
    }
  }

  /** One mirrored pair of entries of the element matrix agrees. */
  lemma EntrySymmetric(cx: real, cy: real, k: real, a: nat, b: nat)
    requires a < 4 && b < 4
    ensures ElementMatrix(cx, cy, k)[a][b] == ElementMatrix(cx, cy, k)[b][a]
  {
    ElementEntry(cx, cy, k, a, b);
    ElementEntry(cx, cy, k, b, a);
    ClosedFormSymmetric(cx, cy, k, a, b);
  }

  lemma ClosedFormSymmetric(cx: real, cy: real, k: real, a: nat, b: nat)
    ensures ClosedForm(cx, cy, k, a, b) == ClosedForm(cx, cy, k, b, a)
  {
    Commute3(k, Direction(cx, cy, a), Direction(cx, cy, b));
  }

  lemma Commute3(k: real, x: real, y: real)
    ensures (k * x) * y == (k * y) * x
  {
    assert (k * x) * y == k * (x * y);
  }

  /** The element matrix is symmetric, as a congruence of the symmetric kee. */
  lemma ElementSymmetric(cx: real, cy: real, k: real)
    ensures IsSymmetric(ElementMatrix(cx, cy, k), 4)
  {
    forall a, b | 0 <= a < 4 && 0 <= b < 4
      ensures ElementMatrix(cx, cy, k)[a][b] == ElementMatrix(cx, cy, k)[b][a]
    {
      EntrySymmetric(cx, cy, k, a, b);
    }
  }

  /** Self-stiffness terms are never negative when the rigidity is not. */
  lemma ElementDiagonalNonNegative(cx: real, cy: real, k: real)
    requires k >= 0.0
    ensures forall a :: 0 <= a < 4 ==> ElementMatrix(cx, cy, k)[a][a] >= 0.0
  {
    forall a | 0 <= a < 4
      ensures ElementMatrix(cx, cy, k)[a][a] >= 0.0
    {
      ElementEntry(cx, cy, k, a, a);
      var d := Direction(cx, cy, a);
      assert ClosedForm(cx, cy, k, a, a) == (k * d) * d;
      NonNegativeSquareMultiple(k, d);
    }
  }

  lemma NonNegativeSquareMultiple(k: real, d: real)
    requires k >= 0.0
    ensures (k * d) * d >= 0.0
  {
    assert (k * d) * d == k * (d * d);
  }

  lemma RowBalanced(cx: real, cy: real, k: real, a: nat)
    requires a < 4
    ensures var ke := ElementMatrix(cx, cy, k);
      ke[a][0] + ke[a][2] == 0.0 && ke[a][1] + ke[a][3] == 0.0
  {
    ElementEntry(cx, cy, k, a, 0);
    ElementEntry(cx, cy, k, a, 1);
    ElementEntry(cx, cy, k, a, 2);
    ElementEntry(cx, cy, k, a, 3);
    ClosedFormRowBalanced(cx, cy, k, a);
  }

  lemma ClosedFormRowBalanced(cx: real, cy: real, k: real, a: nat)
    ensures ClosedForm(cx, cy, k, a, 0) + ClosedForm(cx, cy, k, a, 2) == 0.0
    ensures ClosedForm(cx, cy, k, a, 1) + ClosedForm(cx, cy, k, a, 3) == 0.0
  {
    var m := AxialTerm(cx, cy, k, a);
    assert ClosedForm(cx, cy, k, a, 0) == m * cx && ClosedForm(cx, cy, k, a, 2) == m * -cx;
    assert ClosedForm(cx, cy, k, a, 1) == m * cy && ClosedForm(cx, cy, k, a, 3) == m * -cy;
  }

  /**
   * Each element is self-balanced, as kee = k * [[1,-1],[-1,1]] makes it:
   * a rigid translation of both ends produces no force (rows), and the
   * forces at the two ends are opposite (columns).
   */
  lemma ElementSelfBalanced(cx: real, cy: real, k: real)
    ensures var ke := ElementMatrix(cx, cy, k);
      forall a :: 0 <= a < 4 ==> ke[a][0] + ke[a][2] == 0.0 && ke[a][1] + ke[a][3] == 0.0
    ensures var ke := ElementMatrix(cx, cy, k);
      forall b :: 0 <= b < 4 ==> ke[0][b] + ke[2][b] == 0.0 && ke[1][b] + ke[3][b] == 0.0
  {
    var ke := ElementMatrix(cx, cy, k);
    ElementSymmetric(cx, cy, k);
    forall a | 0 <= a < 4
      ensures ke[a][0] + ke[a][2] == 0.0 && ke[a][1] + ke[a][3] == 0.0
    {
      RowBalanced(cx, cy, k, a);
    }
    forall b | 0 <= b < 4
      ensures ke[0][b] + ke[2][b] == 0.0 && ke[1][b] + ke[3][b] == 0.0
    {
      assert ke[0][b] == ke[b][0] && ke[2][b] == ke[b][2];
      assert ke[1][b] == ke[b][1] && ke[3][b] == ke[b][3];
    }
  }

  /** The element matrix the program builds for bar b. */
  function ElementStiffness(b: Bar, area: real, modulus: real): (ke: Matrix)
    requires WellFormed(b)
    ensures IsMatrix(ke, 4, 4)
  {
    ElementMatrix(b.Dx() / b.length, b.Dy() / b.length, Rigidity(area, modulus, b.length))
  }

  /** The element matrices of a list of bars, in order. */
  function ElementMatrices(bars: seq<Bar>, area: real, modulus: real): (kes: seq<Matrix>)
    requires forall e :: 0 <= e < |bars| ==> WellFormed(bars[e])
    ensures |kes| == |bars|
    ensures forall e :: 0 <= e < |bars| ==> IsMatrix(kes[e], 4, 4)
  {
    seq(|bars|, e requires 0 <= e < |bars| => ElementStiffness(bars[e], area, modulus))
  }

  /** The transformation matrix the program builds for a well-formed bar has orthonormal rows. */
  lemma BarTransformOrthonormal(b: Bar)
    requires WellFormed(b)
    ensures var t := Transform(b.Dx() / b.length, b.Dy() / b.length);
      Dot(t[0], t[0]) == 1.0 && Dot(t[1], t[1]) == 1.0 && Dot(t[0], t[1]) == 0.0
  {
    UnitDirection(b);
    TransformOrthonormal(b.Dx() / b.length, b.Dy() / b.length);
  }

  /** With A * E >= 0, every element matrix of the structure has a non-negative diagonal. */
  lemma ElementMatricesDiagonal(bars: seq<Bar>, area: real, modulus: real)
    requires forall e :: 0 <= e < |bars| ==> WellFormed(bars[e])
    requires area * modulus >= 0.0
    ensures var kes := ElementMatrices(bars, area, modulus);
      forall e, a :: 0 <= e < |kes| && 0 <= a < 4 ==> kes[e][a][a] >= 0.0
  {
    forall e | 0 <= e < |bars|
      ensures forall a :: 0 <= a < 4 ==> ElementMatrices(bars, area, modulus)[e][a][a] >= 0.0
    {
      var bar := bars[e];
      ElementDiagonalNonNegative(bar.Dx() / bar.length, bar.Dy() / bar.length, Rigidity(area, modulus, bar.length));
    }
  }

  /** Every element matrix of the structure has balanced columns. */
  lemma ElementMatricesBalanced(bars: seq<Bar>, area: real, modulus: real)
    requires forall e :: 0 <= e < |bars| ==> WellFormed(bars[e])
    ensures var kes := ElementMatrices(bars, area, modulus);
      forall e, b :: 0 <= e < |kes| && 0 <= b < 4 ==>
        kes[e][0][b] + kes[e][2][b] == 0.0 && kes[e][1][b] + kes[e][3][b] == 0.0
  {
    forall e, b | 0 <= e < |bars| && 0 <= b < 4
      ensures var ke := ElementMatrices(bars, area, modulus)[e];
        ke[0][b] + ke[2][b] == 0.0 && ke[1][b] + ke[3][b] == 0.0
    {
      var bar := bars[e];
      ElementSelfBalanced(bar.Dx() / bar.length, bar.Dy() / bar.length, Rigidity(area, modulus, bar.length));
    }
  }

  /** Every element matrix of the structure is symmetric. */
  lemma ElementMatricesSymmetric(bars: seq<Bar>, area: real, modulus: real)
    requires forall e :: 0 <= e < |bars| ==> WellFormed(bars[e])
    ensures var kes := ElementMatrices(bars, area, modulus);
      forall e :: 0 <= e < |kes| ==> IsSymmetric(kes[e], 4)
  {
    forall e | 0 <= e < |bars|
      ensures IsSymmetric(ElementMatrices(bars, area, modulus)[e], 4)
    {
      var b := bars[e];
      ElementSymmetric(b.Dx() / b.length, b.Dy() / b.length, Rigidity(area, modulus, b.length));
    }
  }
}
