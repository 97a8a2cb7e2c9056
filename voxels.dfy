/** The voxel side of `gen_mesh_from_voxels`: the segmentation, its occupied voxels in
    row-major order, the padded node grid, node numbering and the volumetric elements. */
module Voxels {
  import opened Grid
  import opened Ranking
  import opened MeshData

  /** The segmentation: a boolean array of shape `shape`, stored row-major. */
  datatype Volume = Volume(shape: Shape, occ: seq<bool>)
  {
    predicate Valid()
    {
      |occ| == Size(shape)
    }
  }

  /** Voxel `p` is material; points outside the array are empty. */
  predicate Occupied(vol: Volume, p: Point)
    requires vol.Valid()
  {
    InBounds(p, vol.shape) && (FlatRange(p, vol.shape); vol.occ[Flat(p, vol.shape)])
  }

  /** `nm.where(voxels)`: the occupied voxels in row-major order. */
  function OccupiedVoxels(vol: Volume): (vs: seq<Point>)
    requires vol.Valid()
    ensures |vs| == CountTrue(vol.occ)
  {
    var w := Where(vol.occ);
    seq(|w|, k requires 0 <= k < |w| => Unflat(w[k], vol.shape))
  }

  /** Position of an occupied voxel in `OccupiedVoxels`. */
  ghost function VoxelRank(vol: Volume, p: Point): nat
    requires vol.Valid() && Occupied(vol, p)
  {
    FlatRange(p, vol.shape);
    CountTrue(vol.occ[..Flat(p, vol.shape)])
  }

  /** `OccupiedVoxels` lists exactly the occupied voxels, each once, in row-major order:
      the voxel of rank `k` is the `k`-th entry. */
  lemma OccupiedVoxelsExact(vol: Volume)
    requires vol.Valid()
    ensures forall k :: 0 <= k < |OccupiedVoxels(vol)| ==>
      Occupied(vol, OccupiedVoxels(vol)[k]) && VoxelRank(vol, OccupiedVoxels(vol)[k]) == k
    ensures forall p :: Occupied(vol, p) ==>
      VoxelRank(vol, p) < |OccupiedVoxels(vol)| && OccupiedVoxels(vol)[VoxelRank(vol, p)] == p
    ensures forall k, l :: 0 <= k < l < |OccupiedVoxels(vol)| ==>
      Flat(OccupiedVoxels(vol)[k], vol.shape) < Flat(OccupiedVoxels(vol)[l], vol.shape)
  {
    var vs := OccupiedVoxels(vol);
    var w := Where(vol.occ);
    forall k | 0 <= k < |vs|
      ensures Occupied(vol, vs[k]) && VoxelRank(vol, vs[k]) == k
    {
      RankOfWhere(vol.occ, k);
    }
    forall p | Occupied(vol, p)
      ensures VoxelRank(vol, p) < |vs| && vs[VoxelRank(vol, p)] == p
    {
      FlatRange(p, vol.shape);
      WhereAtRank(vol.occ, Flat(p, vol.shape));
      UnflatFlat(p, vol.shape);
    }
  }

  /** An offset of the unit cell: a vector of 0s and 1s. */
  predicate IsOffset(o: Point, dim: nat)
  {
    |o| == dim && forall i :: 0 <= i < dim ==> 0 <= o[i] <= 1
  }

  /** Corner order of a volumetric element (lines 267-270 and 306-313). */
  const Corners2: seq<Point> := [[0, 0], [1, 0], [1, 1], [0, 1]]
  const Corners3: seq<Point> :=
    [[0, 0, 0], [1, 0, 0], [1, 1, 0], [0, 1, 0], [0, 0, 1], [1, 0, 1], [1, 1, 1], [0, 1, 1]]

  function Corners(dim: nat): (cs: seq<Point>)
    ensures forall j :: 0 <= j < |cs| ==> IsOffset(cs[j], dim)
  {
    if dim == 2 then Corners2 else if dim == 3 then Corners3 else []
  }

  /** The entry of a node-grid array (shape `Pad(shape)`) at the corner `v + o` of voxel `v`. */
  function AtCorner<T>(a: seq<T>, shape: Shape, v: Point, o: Point): T
    requires |a| == Size(Pad(shape)) && InBounds(v, shape) && IsOffset(o, |shape|)
  {
    CornerOnGrid(v, o, shape);
    FlatRange(Add(v, o), Pad(shape));
    a[Flat(Add(v, o), Pad(shape))]
  }

  /** What `set_nodemtx` guarantees: every corner of every occupied voxel is a node. */
  ghost predicate CornersMarked(vol: Volume, marks: seq<bool>)
    requires vol.Valid() && |marks| == Size(Pad(vol.shape))
  {
    var vs := OccupiedVoxels(vol);
    var cs := Corners(|vol.shape|);
    forall k, j :: 0 <= k < |vs| && 0 <= j < |cs| ==> AtCorner(marks, vol.shape, vs[k], cs[j])
  }

  /** A corner of an occupied voxel is a node, so its id lies in `[0, nnod)`. */
  lemma CornerNode(vol: Volume, marks: seq<bool>, u: Point, o: Point)
    requires vol.Valid() && |marks| == Size(Pad(vol.shape)) && CornersMarked(vol, marks)
    requires Occupied(vol, u) && o in Corners(|vol.shape|)
    ensures 0 <= AtCorner(DenseIds(marks), vol.shape, u, o) < CountTrue(marks)
  {
    var cs := Corners(|vol.shape|);
    OccupiedVoxelsExact(vol);
    var k := VoxelRank(vol, u);
    var j :| 0 <= j < |cs| && cs[j] == o;
    assert AtCorner(marks, vol.shape, OccupiedVoxels(vol)[k], cs[j]);
    CornerOnGrid(u, o, vol.shape);
    FlatRange(Add(u, o), Pad(vol.shape));
    DenseIdsRange(marks);
  }

  /** `nodeid[idx] = arange(len(idx))` for the strictly increasing positions `idx`. */
  method ScatterRange(a: array<int>, idx: seq<nat>)
    requires forall i :: 0 <= i < |idx| ==> idx[i] < a.Length
    requires forall i, j :: 0 <= i < j < |idx| ==> idx[i] < idx[j]
    modifies a
    ensures forall i :: 0 <= i < |idx| ==> a[idx[i]] == i
    ensures forall f :: 0 <= f < a.Length && f !in idx ==> a[f] == old(a[f])
  {
    for i := 0 to |idx|
      invariant forall j :: 0 <= j < i ==> a[idx[j]] == j
      invariant forall f :: 0 <= f < a.Length && f !in idx[..i] ==> a[f] == old(a[f])
    {
      a[idx[i]] := i;
    }
  }

  /** `ids = fill(default); ids[where(m)] = range(count(m))`: every marked position gets its
      rank, the others keep `default`. */
  method RankIds(m: seq<bool>, default: int) returns (ids: seq<int>)
    ensures |ids| == |m|
    ensures forall f :: 0 <= f < |m| ==> ids[f] == (if m[f] then DenseIds(m)[f] else default)
  {
    var a := new int[|m|](_ => default);
    var w := Where(m);
    ScatterRange(a, w);
    DenseIdsOnto(m);
    forall f | 0 <= f < |m|
      ensures a[f] == (if m[f] then DenseIds(m)[f] else default)
    {
      if !m[f] {
        assert f !in w;
      }
    }
    ids := a[..];
  }

  /** The grid points of the nodes in id order (`nm.where(nodemtx)`, before scaling by the
      voxel size). */
  function NodePoints(marks: seq<bool>, g: Shape): (ps: seq<Point>)
    requires |marks| == Size(g)
    ensures |ps| == CountTrue(marks)
  {
    var w := Where(marks);
    seq(|w|, i requires 0 <= i < |w| => Unflat(w[i], g))
  }

  /** Node numbering (lines 249-256): the node grid points in row-major order get the ids
      0, 1, 2, ...; points that are not nodes get -1. */
  method NumberNodes(marks: seq<bool>, g: Shape) returns (nodeid: seq<int>, coors: seq<Point>)
    requires |marks| == Size(g)
    ensures nodeid == DenseIds(marks)
    ensures coors == NodePoints(marks, g)
  {
    var w := Where(marks);
    coors := seq(|w|, i requires 0 <= i < |w| => Unflat(w[i], g));
    nodeid := RankIds(marks, -1);
  }

  /** Node `id` sits at the grid point it was numbered from, and distinct nodes sit at
      distinct points. */
  lemma NodePointsMatchIds(marks: seq<bool>, g: Shape)
    requires |marks| == Size(g)
    ensures forall f :: 0 <= f < |marks| && marks[f] ==>
      0 <= DenseIds(marks)[f] < |NodePoints(marks, g)| &&
      NodePoints(marks, g)[DenseIds(marks)[f]] == Unflat(f, g)
    ensures forall i, j :: 0 <= i < j < |NodePoints(marks, g)| ==>
      NodePoints(marks, g)[i] != NodePoints(marks, g)[j]
  {
    DenseIdsOnto(marks);
    var ps := NodePoints(marks, g);
    forall i, j | 0 <= i < j < |ps|
      ensures ps[i] != ps[j]
    {
      assert Flat(ps[i], g) < Flat(ps[j], g);
    }
  }

  /** Volumetric elements (lines 266-271, 305-314): one row per occupied voxel, in
      row-major voxel order, holding the node ids of its corners in the fixed corner order. */
  function VolumeElems(vol: Volume, nodeid: seq<int>): (el: Cells)
    requires vol.Valid() && |nodeid| == Size(Pad(vol.shape))
    ensures el.Valid()
  {
    var vs := OccupiedVoxels(vol);
    var cs := Corners(|vol.shape|);
    Cells(|cs|, seq(|vs|, k requires 0 <= k < |vs| =>
      seq(|cs|, j requires 0 <= j < |cs| => AtCorner(nodeid, vol.shape, vs[k], cs[j]))))
  }

  /** One element per occupied voxel, quadrilaterals in 2-D and hexahedra in 3-D, and every
      corner id names an existing node. */
  lemma VolumeElemsValid(vol: Volume, marks: seq<bool>)
    requires vol.Valid() && |marks| == Size(Pad(vol.shape)) && CornersMarked(vol, marks)
    ensures var el := VolumeElems(vol, DenseIds(marks));
      |el.rows| == CountTrue(vol.occ) &&
      el.width == (if |vol.shape| == 2 then 4 else if |vol.shape| == 3 then 8 else 0) &&
      el.IdsBelow(CountTrue(marks))
  {
    var el := VolumeElems(vol, DenseIds(marks));
    var vs := OccupiedVoxels(vol);
    var cs := Corners(|vol.shape|);
    var g := Pad(vol.shape);
    DenseIdsRange(marks);
    forall k, j | 0 <= k < |el.rows| && 0 <= j < |el.rows[k]|
      ensures 0 <= el.rows[k][j] < CountTrue(marks)
    {
      assert AtCorner(marks, vol.shape, vs[k], cs[j]);
      CornerOnGrid(vs[k], cs[j], vol.shape);
      FlatRange(Add(vs[k], cs[j]), g);
    }
  }

  /** Each volumetric element sits on its voxel: corner `j` of the element of the `k`-th
      occupied voxel is the node at grid point `voxel + Corners(dim)[j]`. */
  lemma VolumeElemsGeometry(vol: Volume, marks: seq<bool>)
    requires vol.Valid() && |marks| == Size(Pad(vol.shape)) && CornersMarked(vol, marks)
    ensures var el := VolumeElems(vol, DenseIds(marks));
      var vs := OccupiedVoxels(vol);
      var cs := Corners(|vol.shape|);
      var ps := NodePoints(marks, Pad(vol.shape));
      forall k, j :: 0 <= k < |vs| && 0 <= j < |cs| ==>
        0 <= el.rows[k][j] < |ps| && ps[el.rows[k][j]] == Add(vs[k], cs[j])
  {
    var vs := OccupiedVoxels(vol);
    var cs := Corners(|vol.shape|);
    var g := Pad(vol.shape);
    NodePointsMatchIds(marks, g);
    forall k, j | 0 <= k < |vs| && 0 <= j < |cs|
      ensures var f := Flat(Add(vs[k], cs[j]), g);
        0 <= f < |marks| && marks[f] && Unflat(f, g) == Add(vs[k], cs[j])
    {
      assert AtCorner(marks, vol.shape, vs[k], cs[j]);
      CornerOnGrid(vs[k], cs[j], vol.shape);
      FlatRange(Add(vs[k], cs[j]), g);
      UnflatFlat(Add(vs[k], cs[j]), g);
    }
  }
}
