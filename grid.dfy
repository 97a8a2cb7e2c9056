/** Row-major (C order) layout of n-dimensional arrays.
    An array of shape `s` is stored as a flat sequence of `Size(s)` entries; the grid point `p`
    lives at flat position `Flat(p, s)`.  This is the layout numpy uses for `voxels`,
    `nodemtx`, `nodeid`, `nn` and `fc`, and the order in which `nm.where` lists positions. */
module Grid {

  type Shape = seq<nat>
  type Point = seq<int>

  /** Number of entries of an array of shape `s`. */
  function Size(s: Shape): nat
  {
    if s == [] then 1 else Size(s[..|s| - 1]) * s[|s| - 1]
  }

  predicate InBounds(p: Point, s: Shape)
  {
    |p| == |s| && forall i :: 0 <= i < |s| ==> 0 <= p[i] < s[i]
  }

  /** Row-major position of `p`: the last axis varies fastest. */
  function Flat(p: Point, s: Shape): int
    requires |p| == |s|
  {
    if s == [] then 0 else Flat(p[..|p| - 1], s[..|s| - 1]) * s[|s| - 1] + p[|p| - 1]
  }

  lemma MulLeft(a: int, b: int, c: int)
    requires a <= b && c >= 0
    ensures a * c <= b * c
  {
  }

  /** Quotient and remainder of `q * c + z` by `c` when `0 <= z < c`. */
  lemma DivModOf(q: int, z: int, c: int)
    requires c > 0 && 0 <= z < c
    ensures (q * c + z) / c == q && (q * c + z) % c == z
  {
    var f := q * c + z;
    var k := q - f / c;
    assert k * c == f % c - z;
    if k >= 1 {
      MulLeft(1, k, c);
    } else if k <= -1 {
      MulLeft(k, -1, c);
    }
  }

  lemma {:induction false} FlatRange(p: Point, s: Shape)
    requires InBounds(p, s)
    ensures 0 <= Flat(p, s) < Size(s)
  {
    if s != [] {
      var n := |s| - 1;
      FlatRange(p[..n], s[..n]);
      MulLeft(Flat(p[..n], s[..n]) + 1, Size(s[..n]), s[n]);
    }
  }

  /** Peeling the last axis off a row-major position. */
  lemma SplitLast(f: nat, s: Shape)
    requires s != [] && f < Size(s)
    ensures s[|s| - 1] > 0 && f / s[|s| - 1] < Size(s[..|s| - 1])
    ensures f == (f / s[|s| - 1]) * s[|s| - 1] + f % s[|s| - 1]
  {
    var n := |s| - 1;
    var c := s[n];
    if c > 0 && f / c >= Size(s[..n]) {
      MulLeft(Size(s[..n]), f / c, c);
    }
  }

  /** The point at row-major position `f`: the inverse of `Flat`. */
  function Unflat(f: nat, s: Shape): (p: Point)
    requires f < Size(s)
    ensures InBounds(p, s) && Flat(p, s) == f
    decreases |s|
  {
    if s == [] then []
    else
      var n := |s| - 1;
      SplitLast(f, s);
      var init := Unflat(f / s[n], s[..n]);
      var p := init + [f % s[n]];
      assert p[..n] == init;
      p
  }

  lemma {:induction false} FlatInjective(p: Point, q: Point, s: Shape)
    requires InBounds(p, s) && InBounds(q, s)
    requires Flat(p, s) == Flat(q, s)
    ensures p == q
  {
    if s != [] {
      var n := |s| - 1;
      DivModOf(Flat(p[..n], s[..n]), p[n], s[n]);
      DivModOf(Flat(q[..n], s[..n]), q[n], s[n]);
      FlatInjective(p[..n], q[..n], s[..n]);
      assert p == p[..n] + [p[n]] && q == q[..n] + [q[n]];
    }
  }

  lemma UnflatFlat(p: Point, s: Shape)
    requires InBounds(p, s)
    ensures 0 <= Flat(p, s) < Size(s) && Unflat(Flat(p, s), s) == p
  {
    FlatRange(p, s);
    FlatInjective(Unflat(Flat(p, s), s), p, s);
  }

  /** `p + o`, componentwise. */
  function Add(p: Point, o: Point): (r: Point)
    requires |o| == |p|
    ensures |r| == |p|
  {
    seq(|p|, i requires 0 <= i < |p| => p[i] + o[i])
  }

  /** `p + delta * e_d`: `p` moved by `delta` along axis `d`. */
  function Shift(p: Point, d: nat, delta: int): (r: Point)
    requires d < |p|
    ensures |r| == |p|
  {
    p[d := p[d] + delta]
  }

  /** The node grid (`nm.array(voxels.shape) + 2`): along an axis of `s` voxels the corners
      use indices `0 .. s`, and one spare point follows at the high end. */
  function Pad(s: Shape): (g: Shape)
    ensures |g| == |s|
  {
    seq(|s|, i requires 0 <= i < |s| => s[i] + 2)
  }

  /** A point of the voxel array moved by an offset of 0s and 1s is still on the node grid. */
  lemma CornerOnGrid(p: Point, o: Point, s: Shape)
    requires InBounds(p, s) && |o| == |p|
    requires forall i :: 0 <= i < |o| ==> 0 <= o[i] <= 1
    ensures InBounds(Add(p, o), Pad(s))
  {
  }

  /** A voxel position is also a node-grid position, and so is the voxel one step further
      along any axis. */
  lemma InPad(p: Point, s: Shape, d: nat)
    requires InBounds(p, s) && d < |p|
    ensures InBounds(p, Pad(s)) && InBounds(Shift(p, d, 1), Pad(s))
  {
  }

  lemma ShiftBack(p: Point, d: nat, delta: int)
    requires d < |p|
    ensures Shift(Shift(p, d, delta), d, -delta) == p
  {
  }
}
