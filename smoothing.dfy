/** `smooth_mesh` (lines 88-215): the edge-cost graph built from the mesh edges and the node
    hierarchy, the row-normalised weight matrix, and Taubin's alternating Laplacian smoothing.
    Coordinates and weights are exact rationals (`real`); the matrices are dense. */
module Smoothing {
  import opened MeshData

  /** Hierarchy of an interior node and of a boundary node (lines 176, 180). */
  const Interior: int := 2
  const Boundary: int := 4

  /** The default parameters of `smooth_mesh` (line 89). */
  const DefaultIterations: nat := 4
  const DefaultLam: real := 0.6307
  const DefaultMu: real := -0.6347

  /** An undirected mesh edge, as listed by `get_snodes_uedges`. */
  type Edge = (nat, nat)

  /** All ends of all edges are nodes `0 .. n - 1`. */
  predicate EdgesBelow(edges: seq<Edge>, n: nat)
  {
    forall e :: 0 <= e < |edges| ==> edges[e].0 < n && edges[e].1 < n
  }

  /** `node_group` (lines 175-180): every node is interior, and the surface nodes `snodes`
      are raised to boundary when `bconstr` is set. */
  function Tags(n: nat, snodes: set<nat>, bconstr: bool): (tags: seq<int>)
    ensures |tags| == n
  {
    seq(n, i => if bconstr && i in snodes then Boundary else Interior)
  }

  /** The directed cost entries of the first half (lines 183-187): edge `(a, b)` gives entry
      `(a, b)` when `tag[b] >= tag[a]`. */
  function Forward(tags: seq<int>, edges: seq<Edge>): (r: seq<Edge>)
    requires EdgesBelow(edges, |tags|)
  {
    if |edges| == 0 then []
    else
      var (a, b) := edges[|edges| - 1];
      Forward(tags, edges[..|edges| - 1]) + (if tags[b] >= tags[a] then [(a, b)] else [])
  }

  /** The second half (lines 188-190): edge `(a, b)` gives entry `(b, a)` when
      `tag[a] >= tag[b]`. */
  function Backward(tags: seq<int>, edges: seq<Edge>): (r: seq<Edge>)
    requires EdgesBelow(edges, |tags|)
  {
    if |edges| == 0 then []
    else
      var (a, b) := edges[|edges| - 1];
      Backward(tags, edges[..|edges| - 1]) + (if tags[a] >= tags[b] then [(b, a)] else [])
  }

  /** `crows`, `ccols` (lines 191-192), as pairs. */
  function CostEntries(tags: seq<int>, edges: seq<Edge>): seq<Edge>
    requires EdgesBelow(edges, |tags|)
  {
    Forward(tags, edges) + Backward(tags, edges)
  }

  /** The edge `{a, b}` is listed, in either orientation. */
  predicate Adjacent(edges: seq<Edge>, a: nat, b: nat)
  {
    exists e :: 0 <= e < |edges| && (edges[e] == (a, b) || edges[e] == (b, a))
  }

  lemma {:induction false} ForwardExact(tags: seq<int>, edges: seq<Edge>, a: nat, b: nat)
    requires EdgesBelow(edges, |tags|)
    ensures (a, b) in Forward(tags, edges) <==>
      (exists e :: 0 <= e < |edges| && edges[e] == (a, b)) && a < |tags| && b < |tags| &&
      tags[b] >= tags[a]
  {
    if |edges| > 0 {
      var init := edges[..|edges| - 1];
      ForwardExact(tags, init, a, b);
      if exists e :: 0 <= e < |init| && init[e] == (a, b) {
        var e :| 0 <= e < |init| && init[e] == (a, b);
        assert edges[e] == (a, b);
      }
      if exists e :: 0 <= e < |edges| && edges[e] == (a, b) {
        var e :| 0 <= e < |edges| && edges[e] == (a, b);
        if e < |init| {
          assert init[e] == (a, b);
        }
      }
    }
  }

  lemma {:induction false} BackwardExact(tags: seq<int>, edges: seq<Edge>, a: nat, b: nat)
    requires EdgesBelow(edges, |tags|)
    ensures (a, b) in Backward(tags, edges) <==>
      (exists e :: 0 <= e < |edges| && edges[e] == (b, a)) && a < |tags| && b < |tags| &&
      tags[b] >= tags[a]
  {
    if |edges| > 0 {
      var init := edges[..|edges| - 1];
      BackwardExact(tags, init, a, b);
      if exists e :: 0 <= e < |init| && init[e] == (b, a) {
        var e :| 0 <= e < |init| && init[e] == (b, a);
        assert edges[e] == (b, a);
      }
      if exists e :: 0 <= e < |edges| && edges[e] == (b, a) {
        var e :| 0 <= e < |edges| && edges[e] == (b, a);
        if e < |init| {
          assert init[e] == (b, a);
        }
      }
    }
  }

  /** The cost graph has the directed entry `(a, b)` iff `{a, b}` is a mesh edge and `b`
      stands at least as high in the hierarchy as `a`. */
  lemma CostEntryExact(tags: seq<int>, edges: seq<Edge>, a: nat, b: nat)
    requires EdgesBelow(edges, |tags|) && a < |tags| && b < |tags|
    ensures (a, b) in CostEntries(tags, edges) <==> Adjacent(edges, a, b) && tags[b] >= tags[a]
  {
    ForwardExact(tags, edges, a, b);
    BackwardExact(tags, edges, a, b);
  }

  /** Without boundary constraints every mesh edge is entered in both directions. */
  lemma UnconstrainedSymmetric(n: nat, snodes: set<nat>, edges: seq<Edge>, a: nat, b: nat)
    requires EdgesBelow(edges, n) && a < n && b < n
    ensures var entries := CostEntries(Tags(n, snodes, false), edges);
      (a, b) in entries <==> Adjacent(edges, a, b)
    ensures var entries := CostEntries(Tags(n, snodes, false), edges);
      (a, b) in entries <==> (b, a) in entries
  {
    CostEntryExact(Tags(n, snodes, false), edges, a, b);
    CostEntryExact(Tags(n, snodes, false), edges, b, a);
  }

  /** With boundary constraints a boundary node has no entry towards an interior node. */
  lemma BoundaryIgnoresInterior(n: nat, snodes: set<nat>, edges: seq<Edge>, a: nat, b: nat)
    requires EdgesBelow(edges, n) && a < n && b < n && a in snodes
    requires (a, b) in CostEntries(Tags(n, snodes, true), edges)
    ensures b in snodes
  {
    CostEntryExact(Tags(n, snodes, true), edges, a, b);
  }

  /** How many times `(a, b)` occurs among the entries: `coo_matrix` sums duplicates. */
  function Count(entries: seq<Edge>, a: nat, b: nat): (c: nat)
    ensures c <= |entries|
  {
    if |entries| == 0 then 0
    else Count(entries[..|entries| - 1], a, b) + (if entries[|entries| - 1] == (a, b) then 1 else 0)
  }

  lemma {:induction false} CountPositive(entries: seq<Edge>, a: nat, b: nat)
    ensures Count(entries, a, b) > 0 <==> (a, b) in entries
  {
    if |entries| > 0 {
      var init := entries[..|entries| - 1];
      CountPositive(init, a, b);
      assert entries == init + [entries[|entries| - 1]];
    }
  }

  /** `costs` (lines 193-195): the `n x n` matrix counting the entries. */
  function Costs(n: nat, entries: seq<Edge>): (c: seq<seq<real>>)
    ensures |c| == n && forall i :: 0 <= i < n ==> |c[i]| == n
  {
    seq(n, a requires 0 <= a < n => seq(n, b requires 0 <= b < n => Count(entries, a, b) as real))
  }

  /** Sum of a row. */
  function Sum(xs: seq<real>): real
  {
    if |xs| == 0 then 0.0 else xs[0] + Sum(xs[1..])
  }

  /** `aux * costs` with `aux = diag(1 / costs.sum(1))` (lines 199-204): each row divided by
      its sum.  A row without entries stays empty: its infinite factor multiplies no stored
      entry of the sparse product. */
  function Normalise(c: seq<seq<real>>): (w: seq<seq<real>>)
    ensures |w| == |c| && forall i :: 0 <= i < |c| ==> |w[i]| == |c[i]|
  {
    seq(|c|, i requires 0 <= i < |c| =>
      var s := Sum(c[i]);
      seq(|c[i]|, j requires 0 <= j < |c[i]| => if s == 0.0 then 0.0 else c[i][j] / s))
  }

  /** The weight matrix of `smooth_mesh` when no weights are given (lines 171-204). */
  function Weights(n: nat, snodes: set<nat>, edges: seq<Edge>, bconstr: bool): seq<seq<real>>
    requires EdgesBelow(edges, n)
  {
    Normalise(Costs(n, CostEntries(Tags(n, snodes, bconstr), edges)))
  }

  lemma {:induction false} SumDivided(xs: seq<real>, s: real)
    requires s != 0.0
    ensures Sum(seq(|xs|, j requires 0 <= j < |xs| => xs[j] / s)) == Sum(xs) / s
  {
    if |xs| > 0 {
      var d := seq(|xs|, j requires 0 <= j < |xs| => xs[j] / s);
      SumDivided(xs[1..], s);
      assert d[1..] == seq(|xs[1..]|, j requires 0 <= j < |xs[1..]| => xs[1..][j] / s);
    }
  }

  lemma {:induction false} SumNonnegative(xs: seq<real>)
    requires forall j :: 0 <= j < |xs| ==> xs[j] >= 0.0
    ensures Sum(xs) >= 0.0
    ensures forall j :: 0 <= j < |xs| ==> xs[j] <= Sum(xs)
  {
    if |xs| > 0 {
      SumNonnegative(xs[1..]);
      assert forall j :: 1 <= j < |xs| ==> xs[j] == xs[1..][j - 1];
    }
  }

  lemma {:induction false} SumZero(xs: seq<real>)
    requires forall j :: 0 <= j < |xs| ==> xs[j] == 0.0
    ensures Sum(xs) == 0.0
  {
    if |xs| > 0 {
      SumZero(xs[1..]);
    }
  }

  /** Every row of non-negative costs is normalised to sum to 1, unless it has no entry at
      all, in which case it is zero; every weight lies in `[0, 1]`. */
  lemma NormaliseRows(c: seq<seq<real>>, i: nat)
    requires i < |c| && forall j :: 0 <= j < |c[i]| ==> c[i][j] >= 0.0
    ensures Sum(Normalise(c)[i]) == (if Sum(c[i]) == 0.0 then 0.0 else 1.0)
    ensures forall j :: 0 <= j < |c[i]| ==> 0.0 <= Normalise(c)[i][j] <= 1.0
  {
    var s := Sum(c[i]);
    var row := Normalise(c)[i];
    SumNonnegative(c[i]);
    if s == 0.0 {
      SumZero(row);
    } else {
      var d := seq(|c[i]|, j requires 0 <= j < |c[i]| => c[i][j] / s);
      assert row == d;
      SumDivided(c[i], s);
      UnitFraction(s, s);
      forall j | 0 <= j < |c[i]|
        ensures 0.0 <= row[j] <= 1.0
      {
        UnitFraction(c[i][j], s);
      }
    }
  }

  lemma UnitFraction(x: real, s: real)
    requires 0.0 <= x <= s && s != 0.0
    ensures 0.0 <= x / s <= 1.0
    ensures x == s ==> x / s == 1.0
  {
    assert x / s * s == x;
  }

  /** The weights of every node that has a cost entry sum to 1; the others are all zero;
      every weight lies in `[0, 1]`. */
  lemma WeightsRowSum(n: nat, snodes: set<nat>, edges: seq<Edge>, bconstr: bool, a: nat)
    requires EdgesBelow(edges, n) && a < n
    ensures var w := Weights(n, snodes, edges, bconstr);
      var c := Costs(n, CostEntries(Tags(n, snodes, bconstr), edges));
      Sum(w[a]) == (if Sum(c[a]) == 0.0 then 0.0 else 1.0) &&
      forall b :: 0 <= b < n ==> 0.0 <= w[a][b] <= 1.0
  {
    var c := Costs(n, CostEntries(Tags(n, snodes, bconstr), edges));
    NormaliseRows(c, a);
  }

  /** The weight of `(a, b)` is non-zero exactly when the cost graph has that entry. */
  lemma WeightsSupport(n: nat, snodes: set<nat>, edges: seq<Edge>, bconstr: bool, a: nat, b: nat)
    requires EdgesBelow(edges, n) && a < n && b < n
    ensures Weights(n, snodes, edges, bconstr)[a][b] != 0.0 <==>
      (a, b) in CostEntries(Tags(n, snodes, bconstr), edges)
  {
    var entries := CostEntries(Tags(n, snodes, bconstr), edges);
    var c := Costs(n, entries);
    SumNonnegative(c[a]);
    CountPositive(entries, a, b);
    assert Weights(n, snodes, edges, bconstr)[a][b] == (if Sum(c[a]) == 0.0 then 0.0 else c[a][b] / Sum(c[a]));
  }

  /** Coordinates: `n` rows of `dim` reals. */
  predicate Coords(x: seq<seq<real>>, dim: nat)
  {
    forall i :: 0 <= i < |x| ==> |x[i]| == dim
  }

  /** An `n x n` matrix. */
  predicate Square(w: seq<seq<real>>, n: nat)
  {
    |w| == n && forall i :: 0 <= i < n ==> |w[i]| == n
  }

  /** `w . v` for two rows of the same length. */
  function Dot(w: seq<real>, v: seq<real>): real
    requires |w| == |v|
  {
    if |w| == 0 then 0.0 else w[0] * v[0] + Dot(w[1..], v[1..])
  }

  /** Coordinate `k` of all nodes. */
  function Column(x: seq<seq<real>>, k: nat): (col: seq<real>)
    requires forall i :: 0 <= i < |x| ==> k < |x[i]|
    ensures |col| == |x|
  {
    seq(|x|, i requires 0 <= i < |x| => x[i][k])
  }

  /** `laplacian` (lines 126-131): `displ = (W - I) x`. */
  function Laplacian(x: seq<seq<real>>, w: seq<seq<real>>, dim: nat): (d: seq<seq<real>>)
    requires Coords(x, dim) && Square(w, |x|)
    ensures |d| == |x| && Coords(d, dim)
  {
    seq(|x|, i requires 0 <= i < |x| =>
      seq(dim, k requires 0 <= k < dim => Dot(w[i], Column(x, k)) - x[i][k]))
  }

  /** The factor of iteration `ii` (lines 139-142): `lam` on even, `mu` on odd iterations. */
  function Factor(ii: nat, lam: real, mu: real): real
  {
    if ii % 2 == 0 then lam else mu
  }

  /** `coors += f * displ`. */
  function Moved(x: seq<seq<real>>, d: seq<seq<real>>, dim: nat, f: real): (y: seq<seq<real>>)
    requires Coords(x, dim) && Coords(d, dim) && |d| == |x|
    ensures |y| == |x| && Coords(y, dim)
  {
    seq(|x|, i requires 0 <= i < |x| => seq(dim, k requires 0 <= k < dim => x[i][k] + f * d[i][k]))
  }

  /** One smoothing step: every node moves by `f` times its Laplacian. */
  function Step(x: seq<seq<real>>, w: seq<seq<real>>, dim: nat, f: real): (y: seq<seq<real>>)
    requires Coords(x, dim) && Square(w, |x|)
    ensures |y| == |x| && Coords(y, dim)
  {
    Moved(x, Laplacian(x, w, dim), dim, f)
  }

  /** The coordinates after the first `n` iterations of `taubin`. */
  function TaubinSpec(x: seq<seq<real>>, w: seq<seq<real>>, dim: nat, lam: real, mu: real, n: nat)
    : (y: seq<seq<real>>)
    requires Coords(x, dim) && Square(w, |x|)
    ensures |y| == |x| && Coords(y, dim)
  {
    if n == 0 then x
    else Step(TaubinSpec(x, w, dim, lam, mu, n - 1), w, dim, Factor(n - 1, lam, mu))
  }

  /** `coors += f * displ`, row by row in place. */
  method MoveAll(c: array<seq<real>>, displ: seq<seq<real>>, dim: nat, f: real)
    requires Coords(c[..], dim) && Coords(displ, dim) && |displ| == c.Length
    modifies c
    ensures c[..] == Moved(old(c[..]), displ, dim, f)
  {
    ghost var x := c[..];
    for i := 0 to c.Length
      invariant forall j :: 0 <= j < i ==> c[j] == Moved(x, displ, dim, f)[j]
      invariant forall j :: i <= j < c.Length ==> c[j] == x[j]
    {
      var ci := c[i];
      c[i] := seq(dim, k requires 0 <= k < dim => ci[k] + f * displ[i][k]);
    }
  }

  /** `taubin` (lines 133-144): the coordinates are copied, then moved in place `nIter`
      times by `lam` or `mu` times their Laplacian. */
  method Taubin(coors0: seq<seq<real>>, w: seq<seq<real>>, dim: nat, lam: real, mu: real, nIter: nat)
    returns (coors: seq<seq<real>>)
    requires Coords(coors0, dim) && Square(w, |coors0|)
    ensures coors == TaubinSpec(coors0, w, dim, lam, mu, nIter)
    ensures nIter == 0 ==> coors == coors0
  {
    var c := new seq<real>[|coors0|](i requires 0 <= i < |coors0| => coors0[i]);
    assert c[..] == coors0;
    for ii := 0 to nIter
      invariant c[..] == TaubinSpec(coors0, w, dim, lam, mu, ii)
    {
      var displ := Laplacian(c[..], w, dim);
      MoveAll(c, displ, dim, Factor(ii, lam, mu));
    }
    coors := c[..];
  }

  /** `w . v` scales with a constant `v`. */
  lemma {:induction false} DotConstant(w: seq<real>, v: seq<real>, p: real)
    requires |w| == |v| && forall j :: 0 <= j < |v| ==> v[j] == p
    ensures Dot(w, v) == Sum(w) * p
  {
    if |w| > 0 {
      DotConstant(w[1..], v[1..], p);
    }
  }

  /** When all weight rows sum to 1, nodes that all sit at one point have no displacement. */
  lemma LaplacianOfConstant(x: seq<seq<real>>, w: seq<seq<real>>, dim: nat)
    requires Coords(x, dim) && Square(w, |x|)
    requires forall i :: 0 <= i < |x| ==> x[i] == x[0]
    requires forall i :: 0 <= i < |w| ==> Sum(w[i]) == 1.0
    ensures forall i, k :: 0 <= i < |x| && 0 <= k < dim ==> Laplacian(x, w, dim)[i][k] == 0.0
  {
    forall i, k | 0 <= i < |x| && 0 <= k < dim
      ensures Laplacian(x, w, dim)[i][k] == 0.0
    {
      DotConstant(w[i], Column(x, k), x[0][k]);
    }
  }

  /** ... and so Taubin smoothing leaves them where they are, for any number of iterations. */
  lemma {:induction false} TaubinKeepsConstant(x: seq<seq<real>>, w: seq<seq<real>>, dim: nat,
                                               lam: real, mu: real, n: nat)
    requires Coords(x, dim) && Square(w, |x|)
    requires forall i :: 0 <= i < |x| ==> x[i] == x[0]
    requires forall i :: 0 <= i < |w| ==> Sum(w[i]) == 1.0
    ensures TaubinSpec(x, w, dim, lam, mu, n) == x
  {
    if n > 0 {
      TaubinKeepsConstant(x, w, dim, lam, mu, n - 1);
      LaplacianOfConstant(x, w, dim);
      var y := Step(x, w, dim, Factor(n - 1, lam, mu));
      forall i | 0 <= i < |x|
        ensures y[i] == x[i]
      {
        forall k | 0 <= k < dim
          ensures y[i][k] == x[i][k]
        {
          assert Laplacian(x, w, dim)[i][k] == 0.0;
        }
      }
    }
  }

  /** A node whose weight row is zero (one without cost entries) is pulled towards the
      origin: its displacement is minus its position. */
  lemma ZeroRowDisplacement(x: seq<seq<real>>, w: seq<seq<real>>, dim: nat, i: nat)
    requires Coords(x, dim) && Square(w, |x|) && i < |x|
    requires forall j :: 0 <= j < |w[i]| ==> w[i][j] == 0.0
    ensures forall k :: 0 <= k < dim ==> Laplacian(x, w, dim)[i][k] == -x[i][k]
  {
    forall k | 0 <= k < dim
      ensures Laplacian(x, w, dim)[i][k] == -x[i][k]
    {
      DotZeroRow(w[i], Column(x, k));
    }
  }

  lemma {:induction false} DotZeroRow(w: seq<real>, v: seq<real>)
    requires |w| == |v| && forall j :: 0 <= j < |w| ==> w[j] == 0.0
    ensures Dot(w, v) == 0.0
  {
    if |w| > 0 {
      DotZeroRow(w[1..], v[1..]);
    }
  }

  /** `smooth_mesh` without volume correction (lines 88-215): the given weights, or the
      normalised cost graph of the mesh edges, drive `nIter` Taubin iterations.  The surface
      nodes and the edges are those `get_snodes_uedges` lists for the cells, so they name
      existing nodes; a surface node beyond the last node would make `node_group[sndi] = 4`
      raise. */
  method SmoothMesh(points: seq<seq<real>>, dim: nat, snodes: set<nat>, edges: seq<Edge>,
                    nIter: nat := DefaultIterations, lam: real := DefaultLam, mu: real := DefaultMu,
                    weights: Option<seq<seq<real>>> := None, bconstr: bool := true)
    returns (coors: seq<seq<real>>)
    requires Coords(points, dim) && EdgesBelow(edges, |points|)
    requires weights.None? && bconstr ==> forall s :: s in snodes ==> s < |points|
    requires weights.Some? ==> Square(weights.value, |points|)
    ensures var w := if weights.Some? then weights.value else Weights(|points|, snodes, edges, bconstr);
      coors == TaubinSpec(points, w, dim, lam, mu, nIter)
  {
    var w := if weights.Some? then weights.value else Weights(|points|, snodes, edges, bconstr);
    coors := Taubin(points, w, dim, lam, mu, nIter);
  }
}
