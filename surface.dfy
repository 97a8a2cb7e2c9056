/** Surface mode of `gen_mesh_from_voxels` in 3-D (lines 317-370): boundary faces found by
    parity.  For each axis `d`, every occupied voxel `v` writes its low face at grid position
    `v` and its high face at `v + e_d` into the dense array `fc`, and counts itself in `nn`
    at both positions; the positions counted exactly once hold the boundary faces. */
module SurfaceFaces {
  import opened Grid
  import opened Ranking
  import opened MeshData
  import opened Voxels

  /** For each axis, the low face of a voxel as offsets from the voxel (lines 320-323,
      337-340, 354-357). */
  const LowFaces: seq<seq<Point>> := [
    [[0, 0, 0], [0, 0, 1], [0, 1, 1], [0, 1, 0]],
    [[0, 0, 0], [1, 0, 0], [1, 0, 1], [0, 0, 1]],
    [[0, 0, 0], [0, 1, 0], [1, 1, 0], [1, 0, 0]]]

  /** For each axis, the high face of a voxel as offsets from the voxel (lines 324-327,
      341-344, 358-361). */
  const HighFaces: seq<seq<Point>> := [
    [[1, 0, 0], [1, 1, 0], [1, 1, 1], [1, 0, 1]],
    [[0, 1, 0], [0, 1, 1], [1, 1, 1], [1, 1, 0]],
    [[0, 0, 1], [1, 0, 1], [1, 1, 1], [0, 1, 1]]]

  /** A fresh (or `fill(0)`-ed) row of `fc`. */
  const Zero: seq<int> := [0, 0, 0, 0]

  /** Every face corner is a corner of the voxel. */
  lemma FaceTablesAreCorners()
    ensures |LowFaces| == 3 && |HighFaces| == 3
    ensures forall d :: 0 <= d < 3 ==> |LowFaces[d]| == 4 && |HighFaces[d]| == 4
    ensures forall d, j :: 0 <= d < 3 && 0 <= j < 4 ==>
      LowFaces[d][j] in Corners3 && HighFaces[d][j] in Corners3 &&
      IsOffset(LowFaces[d][j], 3) && IsOffset(HighFaces[d][j], 3)
  {
    assert Corners(3) == Corners3;
  }

  /** The node ids of a face of voxel `v`. */
  function FaceNodes(nodeid: seq<int>, shape: Shape, v: Point, face: seq<Point>): (r: seq<int>)
    requires |nodeid| == Size(Pad(shape)) && InBounds(v, shape)
    requires forall j :: 0 <= j < |face| ==> IsOffset(face[j], |shape|)
    ensures |r| == |face|
  {
    seq(|face|, j requires 0 <= j < |face| => AtCorner(nodeid, shape, v, face[j]))
  }

  /** Grid position `q` carries a boundary face on axis `d` iff exactly one of the voxels
      `q` and `q - e_d` is occupied. */
  predicate IsBoundary(vol: Volume, d: nat, q: Point)
    requires vol.Valid() && d < |q|
  {
    Occupied(vol, q) != Occupied(vol, Shift(q, d, -1))
  }

  /** What one face pass needs: a valid 3-D volume, one of its axes, and a node id for
      every point of the padded node grid. */
  predicate FacePassInput(vol: Volume, nodeid: seq<int>, d: nat)
  {
    vol.Valid() && |vol.shape| == 3 && d < 3 && |nodeid| == Size(Pad(vol.shape))
  }

  /** The face emitted at a boundary position: the high face of voxel `q - e_d` when that
      voxel is the occupied one, else the low face of voxel `q`. */
  function FaceAt(vol: Volume, nodeid: seq<int>, d: nat, q: Point): (r: seq<int>)
    requires FacePassInput(vol, nodeid, d) && |q| == 3
    requires Occupied(vol, q) || Occupied(vol, Shift(q, d, -1))
    ensures |r| == 4
  {
    FaceTablesAreCorners();
    if Occupied(vol, Shift(q, d, -1)) then FaceNodes(nodeid, vol.shape, Shift(q, d, -1), HighFaces[d])
    else FaceNodes(nodeid, vol.shape, q, LowFaces[d])
  }

  /** `items(0) + items(1) + ... + items(n - 1)`. */
  function Concat<T>(items: nat -> seq<T>, n: nat): seq<T>
  {
    if n == 0 then [] else Concat(items, n - 1) + items(n - 1)
  }

  lemma {:induction false} ConcatPrefix<T>(items: nat -> seq<T>, k: nat, n: nat)
    requires k <= n
    ensures Concat(items, k) <= Concat(items, n)
  {
    if k < n {
      ConcatPrefix(items, k, n - 1);
    }
  }

  /** What node-grid position `g` contributes on axis `d`: its face if it is a boundary
      position, else nothing. */
  function PositionFaces(vol: Volume, nodeid: seq<int>, d: nat, g: nat): (r: seq<seq<int>>)
    requires FacePassInput(vol, nodeid, d)
    ensures |r| <= 1
  {
    var G := Pad(vol.shape);
    if g < Size(G) && IsBoundary(vol, d, Unflat(g, G)) then [FaceAt(vol, nodeid, d, Unflat(g, G))]
    else []
  }

  function PositionFacesOf(vol: Volume, nodeid: seq<int>, d: nat): nat -> seq<seq<int>>
    requires FacePassInput(vol, nodeid, d)
  {
    (g: nat) => PositionFaces(vol, nodeid, d, g)
  }

  /** The boundary faces of axis `d` among the first `n` node-grid positions, in row-major
      order. */
  function AxisFacesUpTo(vol: Volume, nodeid: seq<int>, d: nat, n: nat): seq<seq<int>>
    requires FacePassInput(vol, nodeid, d)
  {
    Concat(PositionFacesOf(vol, nodeid, d), n)
  }

  /** The boundary faces of axis `d`, in row-major order of their grid positions. */
  function AxisFaces(vol: Volume, nodeid: seq<int>, d: nat): seq<seq<int>>
    requires FacePassInput(vol, nodeid, d)
  {
    AxisFacesUpTo(vol, nodeid, d, Size(Pad(vol.shape)))
  }

  /** Which node-grid positions carry a boundary face on axis `d`, in row-major order. */
  ghost function BoundaryMask(vol: Volume, d: nat): (m: seq<bool>)
    requires vol.Valid() && |vol.shape| == 3 && d < 3
    ensures |m| == Size(Pad(vol.shape))
  {
    var G := Pad(vol.shape);
    seq(Size(G), g requires 0 <= g < Size(G) => IsBoundary(vol, d, Unflat(g, G)))
  }

  /** Reading the mask at a position. */
  lemma BoundaryMaskAt(vol: Volume, d: nat, g: nat)
    requires vol.Valid() && |vol.shape| == 3 && d < 3 && g < Size(Pad(vol.shape))
    ensures BoundaryMask(vol, d)[g] == IsBoundary(vol, d, Unflat(g, Pad(vol.shape)))
  {
  }

  lemma ConcatLast<T>(items: nat -> seq<T>, n: nat)
    requires n > 0
    ensures Concat(items, n) == Concat(items, n - 1) + items(n - 1)
  {
  }

  /** Every entry of the concatenation satisfies `P` when every entry of every part does. */
  lemma {:induction false} ConcatAll<T>(items: nat -> seq<T>, n: nat, P: T -> bool)
    requires forall g, i :: 0 <= g < n && 0 <= i < |items(g)| ==> P(items(g)[i])
    ensures forall i :: 0 <= i < |Concat(items, n)| ==> P(Concat(items, n)[i])
  {
    if n > 0 {
      ConcatAll(items, n - 1, P);
      ConcatLast(items, n);
    }
  }

  lemma PositionFacesAt(vol: Volume, nodeid: seq<int>, d: nat, g: nat)
    requires FacePassInput(vol, nodeid, d)
    ensures PositionFacesOf(vol, nodeid, d)(g) == PositionFaces(vol, nodeid, d, g)
  {
  }

  /** Position `n - 1` appends its face, if it is a boundary position, after the others. */
  lemma AxisFacesUpToLast(vol: Volume, nodeid: seq<int>, d: nat, n: nat)
    requires FacePassInput(vol, nodeid, d) && 0 < n
    ensures AxisFacesUpTo(vol, nodeid, d, n) ==
      AxisFacesUpTo(vol, nodeid, d, n - 1) + PositionFacesOf(vol, nodeid, d)(n - 1)
  {
    ConcatLast(PositionFacesOf(vol, nodeid, d), n);
  }

  /** One face per boundary position among the first `n`. */
  lemma {:induction false} AxisFacesUpToCount(vol: Volume, nodeid: seq<int>, d: nat, n: nat)
    requires FacePassInput(vol, nodeid, d) && n <= Size(Pad(vol.shape))
    ensures |AxisFacesUpTo(vol, nodeid, d, n)| == CountTrue(BoundaryMask(vol, d)[..n])
  {
    if n > 0 {
      AxisFacesUpToCount(vol, nodeid, d, n - 1);
      AxisFacesUpToLast(vol, nodeid, d, n);
      PositionFacesAt(vol, nodeid, d, n - 1);
      BoundaryMaskAt(vol, d, n - 1);
      CountPrefixStep(BoundaryMask(vol, d), n - 1);
    }
  }

  lemma PrefixAt<T>(a: seq<T>, b: seq<T>, i: nat)
    requires a <= b && i < |a|
    ensures i < |b| && b[i] == a[i]
  {
  }

  /** The faces of axis `d` are exactly `FaceAt` of the boundary positions, one each, in
      row-major order of the positions: a position gets a face iff exactly one of the two
      voxels it separates is occupied. */
  lemma AxisFacesExact(vol: Volume, nodeid: seq<int>, d: nat)
    requires FacePassInput(vol, nodeid, d)
    ensures var m := BoundaryMask(vol, d);
      var w := Where(m);
      |AxisFaces(vol, nodeid, d)| == |w| &&
      forall i :: 0 <= i < |w| ==>
        IsBoundary(vol, d, Unflat(w[i], Pad(vol.shape))) &&
        AxisFaces(vol, nodeid, d)[i] == FaceAt(vol, nodeid, d, Unflat(w[i], Pad(vol.shape)))
  {
    var m := BoundaryMask(vol, d);
    var G := Pad(vol.shape);
    var N := Size(G);
    AxisFacesUpToCount(vol, nodeid, d, N);
    assert m[..N] == m;
    forall i | 0 <= i < |Where(m)|
      ensures IsBoundary(vol, d, Unflat(Where(m)[i], G))
      ensures AxisFaces(vol, nodeid, d)[i] == FaceAt(vol, nodeid, d, Unflat(Where(m)[i], G))
    {
      var g := Where(m)[i];
      BoundaryMaskAt(vol, d, g);
      RankOfWhere(m, i);
      AxisFacesUpToCount(vol, nodeid, d, g);
      AxisFacesUpToLast(vol, nodeid, d, g + 1);
      PositionFacesAt(vol, nodeid, d, g);
      ConcatPrefix(PositionFacesOf(vol, nodeid, d), g + 1, N);
      PrefixAt(AxisFacesUpTo(vol, nodeid, d, g + 1), AxisFacesUpTo(vol, nodeid, d, N), i);
    }
  }

  /** A boundary face names existing nodes: its corners are corners of an occupied voxel. */
  lemma FaceAtIdsBelow(vol: Volume, marks: seq<bool>, d: nat, q: Point)
    requires FacePassInput(vol, DenseIds(marks), d) && CornersMarked(vol, marks) && |q| == 3
    requires Occupied(vol, q) || Occupied(vol, Shift(q, d, -1))
    ensures forall j :: 0 <= j < 4 ==>
      0 <= FaceAt(vol, DenseIds(marks), d, q)[j] < CountTrue(marks)
  {
    FaceTablesAreCorners();
    assert Corners(3) == Corners3;
    var high := Occupied(vol, Shift(q, d, -1));
    var u := if high then Shift(q, d, -1) else q;
    var face := if high then HighFaces[d] else LowFaces[d];
    forall j | 0 <= j < 4
      ensures 0 <= FaceAt(vol, DenseIds(marks), d, q)[j] < CountTrue(marks)
    {
      CornerNode(vol, marks, u, face[j]);
    }
  }

  /** A face row with four node ids in `[0, nnod)`. */
  predicate QuadBelow(nnod: int, row: seq<int>)
  {
    |row| == 4 && forall j :: 0 <= j < 4 ==> 0 <= row[j] < nnod
  }

  lemma PositionFacesIdsBelow(vol: Volume, marks: seq<bool>, d: nat, g: nat)
    requires FacePassInput(vol, DenseIds(marks), d) && CornersMarked(vol, marks)
    ensures var fs := PositionFacesOf(vol, DenseIds(marks), d)(g);
      forall i :: 0 <= i < |fs| ==> QuadBelow(CountTrue(marks), fs[i])
  {
    PositionFacesAt(vol, DenseIds(marks), d, g);
    var G := Pad(vol.shape);
    if g < Size(G) && IsBoundary(vol, d, Unflat(g, G)) {
      FaceAtIdsBelow(vol, marks, d, Unflat(g, G));
    }
  }

  lemma AxisFacesUpToIdsBelow(vol: Volume, marks: seq<bool>, d: nat, n: nat)
    requires FacePassInput(vol, DenseIds(marks), d) && CornersMarked(vol, marks)
    ensures Cells(4, AxisFacesUpTo(vol, DenseIds(marks), d, n)).Valid()
    ensures Cells(4, AxisFacesUpTo(vol, DenseIds(marks), d, n)).IdsBelow(CountTrue(marks))
  {
    var nnod := CountTrue(marks);
    var items := PositionFacesOf(vol, DenseIds(marks), d);
    forall g | 0 <= g < n
      ensures forall i :: 0 <= i < |items(g)| ==> QuadBelow(nnod, items(g)[i])
    {
      PositionFacesIdsBelow(vol, marks, d, g);
    }
    ConcatAll(items, n, row => QuadBelow(nnod, row));
  }

  /** The surface cells: the x, y and z boundary faces, in that order (line 368). */
  function SurfaceCells(vol: Volume, nodeid: seq<int>): Cells
    requires FacePassInput(vol, nodeid, 0)
  {
    Cells(4, AxisFaces(vol, nodeid, 0) + AxisFaces(vol, nodeid, 1) + AxisFaces(vol, nodeid, 2))
  }

  /** The surface cells are quadrilaterals naming existing nodes. */
  lemma SurfaceCellsIdsBelow(vol: Volume, marks: seq<bool>)
    requires FacePassInput(vol, DenseIds(marks), 0) && CornersMarked(vol, marks)
    ensures var el := SurfaceCells(vol, DenseIds(marks));
      el.width == 4 && el.Valid() && el.IdsBelow(CountTrue(marks))
  {
    var N := Size(Pad(vol.shape));
    AxisFacesUpToIdsBelow(vol, marks, 0, N);
    AxisFacesUpToIdsBelow(vol, marks, 1, N);
    AxisFacesUpToIdsBelow(vol, marks, 2, N);
  }

  // The state of the accumulators while the four scatters of one axis run: the low faces
  // (and counts) of the first `lowK` occupied voxels and the high faces (and counts) of the
  // first `highK` have been written.

  ghost predicate LowDone(vol: Volume, q: Point, k: nat)
    requires vol.Valid()
  {
    Occupied(vol, q) && VoxelRank(vol, q) < k
  }

  ghost predicate HighDone(vol: Volume, d: nat, q: Point, k: nat)
    requires vol.Valid() && d < |q|
  {
    Occupied(vol, Shift(q, d, -1)) && VoxelRank(vol, Shift(q, d, -1)) < k
  }

  ghost function FcAfter(vol: Volume, nodeid: seq<int>, d: nat, q: Point, lowK: nat, highK: nat): seq<int>
    requires FacePassInput(vol, nodeid, d) && |q| == 3
  {
    FaceTablesAreCorners();
    if HighDone(vol, d, q, highK) then FaceNodes(nodeid, vol.shape, Shift(q, d, -1), HighFaces[d])
    else if LowDone(vol, q, lowK) then FaceNodes(nodeid, vol.shape, q, LowFaces[d])
    else Zero
  }

  ghost function NnAfter(vol: Volume, d: nat, q: Point, lowK: nat, highK: nat): int
    requires vol.Valid() && d < |q|
  {
    (if LowDone(vol, q, lowK) then 1 else 0) + (if HighDone(vol, d, q, highK) then 1 else 0)
  }

  /** Writing voxel `k`'s low face at `Flat(v, G)` reaches exactly one new position. */
  lemma LowStep(vol: Volume, k: nat, g: nat)
    requires vol.Valid() && |vol.shape| == 3
    requires k < |OccupiedVoxels(vol)| && g < Size(Pad(vol.shape))
    ensures InBounds(OccupiedVoxels(vol)[k], Pad(vol.shape))
    ensures var q := Unflat(g, Pad(vol.shape));
      var v := OccupiedVoxels(vol)[k];
      (g == Flat(v, Pad(vol.shape)) ==> q == v) &&
      (LowDone(vol, q, k + 1) <==> LowDone(vol, q, k) || g == Flat(v, Pad(vol.shape)))
  {
    var G := Pad(vol.shape);
    var v := OccupiedVoxels(vol)[k];
    var q := Unflat(g, G);
    OccupiedVoxelsExact(vol);
    InPad(v, vol.shape, 0);
    UnflatFlat(v, G);
  }

  /** Writing voxel `k`'s high face at `Flat(v + e_d, G)` reaches exactly one new position. */
  lemma HighStep(vol: Volume, d: nat, k: nat, g: nat)
    requires vol.Valid() && |vol.shape| == 3 && d < 3
    requires k < |OccupiedVoxels(vol)| && g < Size(Pad(vol.shape))
    ensures InBounds(Shift(OccupiedVoxels(vol)[k], d, 1), Pad(vol.shape))
    ensures var q := Unflat(g, Pad(vol.shape));
      var v := OccupiedVoxels(vol)[k];
      (g == Flat(Shift(v, d, 1), Pad(vol.shape)) ==> Shift(q, d, -1) == v) &&
      (HighDone(vol, d, q, k + 1) <==> HighDone(vol, d, q, k) || g == Flat(Shift(v, d, 1), Pad(vol.shape)))
  {
    var G := Pad(vol.shape);
    var v := OccupiedVoxels(vol)[k];
    var q := Unflat(g, G);
    OccupiedVoxelsExact(vol);
    InPad(v, vol.shape, d);
    UnflatFlat(Shift(v, d, 1), G);
    ShiftBack(v, d, 1);
    if Occupied(vol, Shift(q, d, -1)) && VoxelRank(vol, Shift(q, d, -1)) == k {
      ShiftBack(q, d, -1);
    }
  }

  /** Once every voxel has written, the count is 1 exactly at the boundary positions, and
      there the accumulator holds `FaceAt`. */
  lemma AccumulatorsAtEnd(vol: Volume, nodeid: seq<int>, d: nat, q: Point)
    requires FacePassInput(vol, nodeid, d) && |q| == 3
    ensures var n := |OccupiedVoxels(vol)|;
      (NnAfter(vol, d, q, n, n) == 1 <==> IsBoundary(vol, d, q)) &&
      (IsBoundary(vol, d, q) ==> FcAfter(vol, nodeid, d, q, n, n) == FaceAt(vol, nodeid, d, q))
  {
    OccupiedVoxelsExact(vol);
  }

  /** `fc.fill(0); nn.fill(0)`. */
  method ClearAccumulators(fc: array<seq<int>>, nn: array<int>)
    modifies fc, nn
    ensures forall g :: 0 <= g < fc.Length ==> fc[g] == Zero
    ensures forall g :: 0 <= g < nn.Length ==> nn[g] == 0
  {
    for g := 0 to fc.Length
      invariant forall h :: 0 <= h < g ==> fc[h] == Zero
    {
      fc[g] := Zero;
    }
    for g := 0 to nn.Length
      invariant forall h :: 0 <= h < g ==> nn[h] == 0
      invariant forall h :: 0 <= h < fc.Length ==> fc[h] == Zero
    {
      nn[g] := 0;
    }
  }

  /** `fc[ix, iy, iz, :] = ...`: every occupied voxel writes its low face at its own
      position. */
  method ScatterLowFaces(vol: Volume, nodeid: seq<int>, d: nat, fc: array<seq<int>>)
    requires FacePassInput(vol, nodeid, d) && fc.Length == Size(Pad(vol.shape))
    requires forall g :: 0 <= g < fc.Length ==> fc[g] == Zero
    modifies fc
    ensures forall g :: 0 <= g < fc.Length ==>
      fc[g] == FcAfter(vol, nodeid, d, Unflat(g, Pad(vol.shape)), |OccupiedVoxels(vol)|, 0)
  {
    var vs := OccupiedVoxels(vol);
    var G := Pad(vol.shape);
    FaceTablesAreCorners();
    for k := 0 to |vs|
      invariant forall g :: 0 <= g < fc.Length ==> fc[g] == FcAfter(vol, nodeid, d, Unflat(g, G), k, 0)
    {
      OccupiedVoxelsExact(vol);
      InPad(vs[k], vol.shape, d);
      FlatRange(vs[k], G);
      fc[Flat(vs[k], G)] := FaceNodes(nodeid, vol.shape, vs[k], LowFaces[d]);
      forall g | 0 <= g < fc.Length
        ensures fc[g] == FcAfter(vol, nodeid, d, Unflat(g, G), k + 1, 0)
      {
        LowStep(vol, k, g);
      }
    }
  }

  /** `fc[ix + e_d, ...] = ...`: every occupied voxel writes its high face at the position of
      its neighbour along `d`, over whatever low face was there. */
  method ScatterHighFaces(vol: Volume, nodeid: seq<int>, d: nat, fc: array<seq<int>>)
    requires FacePassInput(vol, nodeid, d) && fc.Length == Size(Pad(vol.shape))
    requires forall g :: 0 <= g < fc.Length ==>
      fc[g] == FcAfter(vol, nodeid, d, Unflat(g, Pad(vol.shape)), |OccupiedVoxels(vol)|, 0)
    modifies fc
    ensures forall g :: 0 <= g < fc.Length ==>
      fc[g] == FcAfter(vol, nodeid, d, Unflat(g, Pad(vol.shape)), |OccupiedVoxels(vol)|,
                       |OccupiedVoxels(vol)|)
  {
    var vs := OccupiedVoxels(vol);
    var G := Pad(vol.shape);
    FaceTablesAreCorners();
    for k := 0 to |vs|
      invariant forall g :: 0 <= g < fc.Length ==> fc[g] == FcAfter(vol, nodeid, d, Unflat(g, G), |vs|, k)
    {
      OccupiedVoxelsExact(vol);
      InPad(vs[k], vol.shape, d);
      FlatRange(Shift(vs[k], d, 1), G);
      fc[Flat(Shift(vs[k], d, 1), G)] := FaceNodes(nodeid, vol.shape, vs[k], HighFaces[d]);
      forall g | 0 <= g < fc.Length
        ensures fc[g] == FcAfter(vol, nodeid, d, Unflat(g, G), |vs|, k + 1)
      {
        HighStep(vol, d, k, g);
      }
    }
  }

  /** `nn[ix, iy, iz] = 1`. */
  method CountLow(vol: Volume, d: nat, nn: array<int>)
    requires vol.Valid() && |vol.shape| == 3 && d < 3 && nn.Length == Size(Pad(vol.shape))
    requires forall g :: 0 <= g < nn.Length ==> nn[g] == 0
    modifies nn
    ensures forall g :: 0 <= g < nn.Length ==>
      nn[g] == NnAfter(vol, d, Unflat(g, Pad(vol.shape)), |OccupiedVoxels(vol)|, 0)
  {
    var vs := OccupiedVoxels(vol);
    var G := Pad(vol.shape);
    for k := 0 to |vs|
      invariant forall g :: 0 <= g < nn.Length ==> nn[g] == NnAfter(vol, d, Unflat(g, G), k, 0)
    {
      OccupiedVoxelsExact(vol);
      InPad(vs[k], vol.shape, d);
      FlatRange(vs[k], G);
      nn[Flat(vs[k], G)] := 1;
      forall g | 0 <= g < nn.Length
        ensures nn[g] == NnAfter(vol, d, Unflat(g, G), k + 1, 0)
      {
        LowStep(vol, k, g);
      }
    }
  }

  /** `nn[ix + e_d, ...] += 1`. */
  method CountHigh(vol: Volume, d: nat, nn: array<int>)
    requires vol.Valid() && |vol.shape| == 3 && d < 3 && nn.Length == Size(Pad(vol.shape))
    requires forall g :: 0 <= g < nn.Length ==>
      nn[g] == NnAfter(vol, d, Unflat(g, Pad(vol.shape)), |OccupiedVoxels(vol)|, 0)
    modifies nn
    ensures forall g :: 0 <= g < nn.Length ==>
      nn[g] == NnAfter(vol, d, Unflat(g, Pad(vol.shape)), |OccupiedVoxels(vol)|, |OccupiedVoxels(vol)|)
  {
    var vs := OccupiedVoxels(vol);
    var G := Pad(vol.shape);
    for k := 0 to |vs|
      invariant forall g :: 0 <= g < nn.Length ==> nn[g] == NnAfter(vol, d, Unflat(g, G), |vs|, k)
    {
      OccupiedVoxelsExact(vol);
      InPad(vs[k], vol.shape, d);
      FlatRange(Shift(vs[k], d, 1), G);
      var p := Flat(Shift(vs[k], d, 1), G);
      nn[p] := nn[p] + 1;
      forall g | 0 <= g < nn.Length
        ensures nn[g] == NnAfter(vol, d, Unflat(g, G), |vs|, k + 1)
      {
        HighStep(vol, d, k, g);
      }
    }
  }

  /** Visiting position `g` with the final accumulator values extends the collected faces
      as `AxisFacesUpTo` does. */
  lemma CollectStep(vol: Volume, nodeid: seq<int>, d: nat, g: nat, fcg: seq<int>, nng: int)
    requires FacePassInput(vol, nodeid, d) && g < Size(Pad(vol.shape))
    requires var q := Unflat(g, Pad(vol.shape));
      var n := |OccupiedVoxels(vol)|;
      fcg == FcAfter(vol, nodeid, d, q, n, n) && nng == NnAfter(vol, d, q, n, n)
    ensures AxisFacesUpTo(vol, nodeid, d, g + 1) ==
      AxisFacesUpTo(vol, nodeid, d, g) + (if nng == 1 then [fcg] else [])
  {
    AccumulatorsAtEnd(vol, nodeid, d, Unflat(g, Pad(vol.shape)));
    AxisFacesUpToLast(vol, nodeid, d, g + 1);
    PositionFacesAt(vol, nodeid, d, g);
  }

  /** `fc[nm.where(nn == 1)]`: the rows counted once, in row-major order. */
  method CollectOnce(vol: Volume, nodeid: seq<int>, d: nat, fc: array<seq<int>>, nn: array<int>)
      returns (faces: seq<seq<int>>)
    requires FacePassInput(vol, nodeid, d)
    requires fc.Length == Size(Pad(vol.shape)) && nn.Length == fc.Length
    requires forall g :: 0 <= g < fc.Length ==>
      var q := Unflat(g, Pad(vol.shape));
      var n := |OccupiedVoxels(vol)|;
      fc[g] == FcAfter(vol, nodeid, d, q, n, n) && nn[g] == NnAfter(vol, d, q, n, n)
    ensures faces == AxisFaces(vol, nodeid, d)
  {
    faces := [];
    for g := 0 to fc.Length
      invariant faces == AxisFacesUpTo(vol, nodeid, d, g)
    {
      CollectStep(vol, nodeid, d, g, fc[g], nn[g]);
      if nn[g] == 1 {
        faces := faces + [fc[g]];
      }
    }
  }

  /** One axis of the surface pass on cleared accumulators. */
  method AxisPass(vol: Volume, nodeid: seq<int>, d: nat, fc: array<seq<int>>, nn: array<int>)
      returns (faces: seq<seq<int>>)
    requires FacePassInput(vol, nodeid, d)
    requires fc.Length == Size(Pad(vol.shape)) && nn.Length == fc.Length
    requires forall g :: 0 <= g < fc.Length ==> fc[g] == Zero && nn[g] == 0
    modifies fc, nn
    ensures faces == AxisFaces(vol, nodeid, d)
    ensures forall g :: 0 <= g < fc.Length ==>
      var q := Unflat(g, Pad(vol.shape));
      var n := |OccupiedVoxels(vol)|;
      fc[g] == FcAfter(vol, nodeid, d, q, n, n) && nn[g] == NnAfter(vol, d, q, n, n)
  {
    ScatterLowFaces(vol, nodeid, d, fc);
    ScatterHighFaces(vol, nodeid, d, fc);
    CountLow(vol, d, nn);
    CountHigh(vol, d, nn);
    faces := CollectOnce(vol, nodeid, d, fc, nn);
  }

  /** The 3-D surface pass: the x, y and z faces concatenated in that order, with the
      accumulators reset between axes. */
  method SurfaceElems(vol: Volume, nodeid: seq<int>) returns (el: Cells)
    requires FacePassInput(vol, nodeid, 0)
    ensures el == SurfaceCells(vol, nodeid)
  {
    var n := Size(Pad(vol.shape));
    var fc := new seq<int>[n](_ => Zero);
    var nn := new int[n](_ => 0);
    var fx := AxisPass(vol, nodeid, 0, fc, nn);
    ClearAccumulators(fc, nn);
    var fy := AxisPass(vol, nodeid, 1, fc, nn);
    ClearAccumulators(fc, nn);
    var fz := AxisPass(vol, nodeid, 2, fc, nn);
    el := Cells(4, fx + fy + fz);
  }
}
