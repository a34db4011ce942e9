/**
 * Boundary reduction: the free DOFs (every 0-based index not restrained by
 * a support, in ascending order), the reduced system, and the scatter of a
 * reduced solution back into a full displacement vector.
 */
module Boundary {
  import opened Linear

  /** The 0-based indices of 1-based support DOFs. */
  function ZeroBased(supports: seq<nat>): (s: seq<nat>)
    requires forall i :: 0 <= i < |supports| ==> supports[i] >= 1
    ensures |s| == |supports|
    ensures forall i :: 0 <= i < |s| ==> s[i] + 1 == supports[i]
  {
    seq(|supports|, i requires 0 <= i < |supports| => supports[i] - 1)
  }

  /**
   * The indices in 0..n-1 that are not in s, in ascending order: exactly the
   * unrestrained DOFs, each once.
   */
  function FreeDofs(n: nat, s: seq<nat>): (free: seq<nat>)
    ensures |free| <= n
    ensures forall i :: 0 <= i < |free| ==> free[i] < n && free[i] !in s
  {
    if n == 0 then [] else FreeDofs(n - 1, s) + (if n - 1 in s then [] else [n - 1])
  }

  /** The free list is strictly increasing, so no DOF appears twice. */
  lemma {:induction false} FreeDofsIncreasing(n: nat, s: seq<nat>)
    ensures var free := FreeDofs(n, s);
      forall i, j :: 0 <= i < j < |free| ==> free[i] < free[j]
  {
    if n > 0 && n - 1 !in s {
      FreeDofsIncreasing(n - 1, s);
      var prev := FreeDofs(n - 1, s);
      var free := FreeDofs(n, s);
      assert free == prev + [n - 1];
      forall i, j | 0 <= i < j < |free|
        ensures free[i] < free[j]
      {
        if j == |prev| {
          assert free[i] == prev[i] && prev[i] < n - 1;
        } else {
          assert free[i] == prev[i] && free[j] == prev[j];
        }
      }
    } else if n > 0 {
      FreeDofsIncreasing(n - 1, s);
      assert FreeDofs(n, s) == FreeDofs(n - 1, s);
    }
  }

  /** Every unrestrained index below n is in the free list. */
  lemma {:induction false} FreeDofsComplete(n: nat, s: seq<nat>)
    ensures forall p :: 0 <= p < n && p !in s ==> p in FreeDofs(n, s)
  {
    if n > 0 {
      FreeDofsComplete(n - 1, s);
      assert forall p :: p in FreeDofs(n - 1, s) ==> p in FreeDofs(n, s);
    }
  }

  /** The free DOFs below p are a prefix of the free DOFs below n. */
  lemma {:induction false} FreeDofsPrefix(p: nat, n: nat, s: seq<nat>)
    requires p <= n
    ensures |FreeDofs(p, s)| <= |FreeDofs(n, s)|
    ensures FreeDofs(n, s)[..|FreeDofs(p, s)|] == FreeDofs(p, s)
  {
    if p < n {
      FreeDofsPrefix(p, n - 1, s);
      var shorter := FreeDofs(n - 1, s);
      assert FreeDofs(n, s)[..|shorter|] == shorter;
      assert FreeDofs(n, s)[..|FreeDofs(p, s)|] == shorter[..|FreeDofs(p, s)|];
    }
  }

  /**
   * A free index p sits in the free list at position |FreeDofs(p, s)|: the
   * number of free indices below it.
   */
  lemma FreeRank(n: nat, s: seq<nat>, p: nat)
    requires p < n && p !in s
    ensures |FreeDofs(p, s)| < |FreeDofs(n, s)|
    ensures FreeDofs(n, s)[|FreeDofs(p, s)|] == p
  {
    FreeDofsPrefix(p + 1, n, s);
    assert FreeDofs(p + 1, s) == FreeDofs(p, s) + [p];
    assert FreeDofs(n, s)[..|FreeDofs(p + 1, s)|][|FreeDofs(p, s)|] == p;
  }

  /** Conversely, the i-th free index has exactly i free indices below it. */
  lemma RankOfFree(n: nat, s: seq<nat>, i: nat)
    requires i < |FreeDofs(n, s)|
    ensures |FreeDofs(FreeDofs(n, s)[i], s)| == i
  {
    var free := FreeDofs(n, s);
    var p := free[i];
    FreeRank(n, s, p);
    FreeDofsIncreasing(n, s);
  }

  /** The free indices below m, once the supports below m are counted. */
  lemma {:induction false} FreeCountBelow(m: nat, s: seq<nat>)
    ensures |FreeDofs(m, s)| == m - |set x | x in s && x < m|
  {
    if m > 0 {
      FreeCountBelow(m - 1, s);
      var below := set x | x in s && x < m - 1;
      var upto := set x | x in s && x < m;
      if m - 1 in s {
        assert upto == below + {m - 1};
      } else {
        assert upto == below;
      }
    }
  }

  /** n_free = N - (number of distinct supports), when every support is in range. */
  lemma FreeCount(n: nat, s: seq<nat>)
    requires forall i :: 0 <= i < |s| ==> s[i] < n
    ensures |FreeDofs(n, s)| == n - |set x | x in s|
  {
    FreeCountBelow(n, s);
    assert (set x | x in s && x < n) == set x | x in s;
  }

  /** The entries of v at the positions idx, in that order. */
  function Gather(v: Vector, idx: seq<nat>): (r: Vector)
    requires forall i :: 0 <= i < |idx| ==> idx[i] < |v|
    ensures |r| == |idx|
  {
    seq(|idx|, i requires 0 <= i < |idx| => v[idx[i]])
  }

  /** The rows and columns of k at the positions idx: the reduced stiffness matrix. */
  function Reduced(k: Matrix, n: nat, idx: seq<nat>): (r: Matrix)
    requires IsMatrix(k, n, n)
    requires forall i :: 0 <= i < |idx| ==> idx[i] < n
    ensures IsMatrix(r, |idx|, |idx|)
  {
    seq(|idx|, i requires 0 <= i < |idx| => Gather(k[idx[i]], idx))
  }

  /** A matrix whose cell (i, j) is k[idx[i]][idx[j]] everywhere is the reduced matrix. */
  lemma ReducedFromEntries(m: Matrix, k: Matrix, n: nat, idx: seq<nat>)
    requires IsMatrix(k, n, n) && IsMatrix(m, |idx|, |idx|)
    requires forall i :: 0 <= i < |idx| ==> idx[i] < n
    requires forall i, j :: 0 <= i < |idx| && 0 <= j < |idx| ==> m[i][j] == k[idx[i]][idx[j]]
    ensures m == Reduced(k, n, idx)
  {
    var red := Reduced(k, n, idx);
    forall i | 0 <= i < |idx|
      ensures m[i] == red[i]
    {
      assert forall j :: 0 <= j < |idx| ==> m[i][j] == red[i][j];
    }
  }

  /** Reduction keeps a symmetric matrix symmetric. */
  lemma ReducedSymmetric(k: Matrix, n: nat, idx: seq<nat>)
    requires IsMatrix(k, n, n) && IsSymmetric(k, n)
    requires forall i :: 0 <= i < |idx| ==> idx[i] < n
    ensures IsSymmetric(Reduced(k, n, idx), |idx|)
  {
    var r := Reduced(k, n, idx);
    forall i, j | 0 <= i < |idx| && 0 <= j < |idx|
      ensures r[i][j] == r[j][i]
    {
      assert r[i][j] == k[idx[i]][idx[j]] && r[j][i] == k[idx[j]][idx[i]];
    }
  }

  /**
   * The full displacement vector: 0 at every restrained index, and at a free
   * index p the entry of u at p's position in the free list.
   */
  function Expand(n: nat, s: seq<nat>, u: Vector): (full: Vector)
    requires |u| == |FreeDofs(n, s)|
    ensures |full| == n
  {
    seq(n, p requires 0 <= p < n =>
      if p in s then 0.0 else FreeRank(n, s, p); u[|FreeDofs(p, s)|])
  }

  /**
   * Expand puts u at the free indices, in order, and exactly 0 at every
   * support; reading the free indices back gives u again.
   */
  lemma ExpandPlaces(n: nat, s: seq<nat>, u: Vector)
    requires |u| == |FreeDofs(n, s)|
    ensures forall p :: 0 <= p < n && p in s ==> Expand(n, s, u)[p] == 0.0
    ensures forall i :: 0 <= i < |u| ==> Expand(n, s, u)[FreeDofs(n, s)[i]] == u[i]
    ensures Gather(Expand(n, s, u), FreeDofs(n, s)) == u
  {
    var free := FreeDofs(n, s);
    forall i | 0 <= i < |u|
      ensures Expand(n, s, u)[free[i]] == u[i]
    {
      RankOfFree(n, s, i);
    }
  }

  /** A full vector that is 0 at the supports is the expansion of its free entries. */
  lemma ExpandGather(n: nat, s: seq<nat>, v: Vector)
    requires |v| == n
    requires forall p :: 0 <= p < n && p in s ==> v[p] == 0.0
    ensures Expand(n, s, Gather(v, FreeDofs(n, s))) == v
  {
    var free := FreeDofs(n, s);
    var e := Expand(n, s, Gather(v, free));
    forall p | 0 <= p < n
      ensures e[p] == v[p]
    {
      if p !in s {
        FreeRank(n, s, p);
      }
    }
  }

  lemma ExpandAt(n: nat, s: seq<nat>, u: Vector, p: nat)
    requires |u| == |FreeDofs(n, s)| && p < n
    ensures p in s ==> Expand(n, s, u)[p] == 0.0
    ensures p !in s ==> |FreeDofs(p, s)| < |u| && Expand(n, s, u)[p] == u[|FreeDofs(p, s)|]
  {
    if p !in s {
      FreeRank(n, s, p);
    }
  }

  /**
   * Dotting a row with an expanded vector only sees the free entries: it
   * equals the dot product of the row's free entries with u.
   */
  lemma {:induction false} DotToExpand(row: Vector, n: nat, s: seq<nat>, u: Vector, m: nat)
    requires |row| == n && |u| == |FreeDofs(n, s)| && m <= n
    ensures |FreeDofs(m, s)| <= |FreeDofs(n, s)| &&
      DotTo(row, Expand(n, s, u), m) ==
      DotTo(Gather(row, FreeDofs(n, s)), u, |FreeDofs(m, s)|)
  {
    FreeDofsPrefix(m, n, s);
    if m > 0 {
      DotToExpand(row, n, s, u, m - 1);
      FreeDofsPrefix(m - 1, n, s);
      DotToExpandStep(row, n, s, u, m - 1);
    }
  }

  /** One step of DotToExpand: index p adds row[p] * u[rank] when p is free, nothing otherwise. */
  lemma DotToExpandStep(row: Vector, n: nat, s: seq<nat>, u: Vector, p: nat)
    requires |row| == n && |u| == |FreeDofs(n, s)| && p < n
    requires |FreeDofs(p + 1, s)| <= |FreeDofs(n, s)|
    ensures DotTo(row, Expand(n, s, u), p + 1) - DotTo(row, Expand(n, s, u), p) ==
      DotTo(Gather(row, FreeDofs(n, s)), u, |FreeDofs(p + 1, s)|) -
      DotTo(Gather(row, FreeDofs(n, s)), u, |FreeDofs(p, s)|)
  {
    var e := Expand(n, s, u);
    var g := Gather(row, FreeDofs(n, s));
    ExpandAt(n, s, u, p);
    if p in s {
      assert FreeDofs(p + 1, s) == FreeDofs(p, s);
      StepMatch(row, e, g, u, p, |FreeDofs(p, s)|, |FreeDofs(p + 1, s)|);
    } else {
      FreeRank(n, s, p);
      assert FreeDofs(p + 1, s) == FreeDofs(p, s) + [p];
      assert g[|FreeDofs(p, s)|] == row[p];
      StepMatch(row, e, g, u, p, |FreeDofs(p, s)|, |FreeDofs(p + 1, s)|);
    }
  }

  /**
   * The two prefix sums grow by the same amount when p contributes nothing
   * and the rank stays, or when p contributes row[p] * u[k] and the rank
   * moves past k.
   */
  lemma StepMatch(row: Vector, e: Vector, g: Vector, u: Vector, p: nat, k: nat, k': nat)
    requires p < |row| && p < |e| && k' <= |g| && k' <= |u|
    requires (k' == k && e[p] == 0.0) || (k' == k + 1 && g[k] == row[p] && e[p] == u[k])
    ensures DotTo(row, e, p + 1) - DotTo(row, e, p) == DotTo(g, u, k') - DotTo(g, u, k)
  {
    DotToLast(row, e, p + 1);
    if k' == k + 1 {
      DotToLast(g, u, k');
    }
  }

  /** The last step of a prefix dot product. */
  lemma DotToLast(x: Vector, y: Vector, m: nat)
    requires 0 < m <= |x| && m <= |y|
    ensures DotTo(x, y, m) - DotTo(x, y, m - 1) == x[m - 1] * y[m - 1]
  {
  }

  lemma DotExpand(row: Vector, n: nat, s: seq<nat>, u: Vector)
    requires |row| == n && |u| == |FreeDofs(n, s)|
    ensures Dot(row, Expand(n, s, u)) == Dot(Gather(row, FreeDofs(n, s)), u)
  {
    DotToExpand(row, n, s, u, n);
  }

  /** The rows of k named by 1-based support DOFs, in support order. */
  function SupportRows(k: Matrix, n: nat, supports: seq<nat>): (r: Matrix)
    requires IsMatrix(k, n, n)
    requires forall i :: 0 <= i < |supports| ==> 1 <= supports[i] <= n
    ensures IsMatrix(r, |supports|, n)
    ensures forall i :: 0 <= i < |supports| ==> r[i] == k[supports[i] - 1]
  {
    seq(|supports|, i requires 0 <= i < |supports| => k[supports[i] - 1])
  }
}
