/** Two worked instances of the 3-D surface pass: a single voxel is bounded by 6
    quadrilaterals, and two voxels side by side by 10 (the 2 faces they share are dropped);
    after compaction the two surface meshes keep 8 and 12 nodes, the corners of the voxels. */
module SurfaceCounts {
  import opened Grid
  import opened Ranking
  import opened MeshData
  import opened Voxels
  import opened SurfaceFaces
  import opened Compaction
  import opened VoxelMesh

  /** A single occupied voxel. */
  const OneVoxel: Volume := Volume([1, 1, 1], [true])

  /** Two occupied voxels next to each other along the first axis (shape 2 x 1 x 1). */
  const TwoVoxels: Volume := Volume([2, 1, 1], [true, true])

  lemma Size3(a: nat, b: nat, c: nat)
    ensures Size([a, b, c]) == a * b * c
  {
    assert [a][..0] == [];
    assert Size([a]) == a;
    assert [a, b][..1] == [a];
    assert Size([a, b]) == a * b;
    assert [a, b, c][..2] == [a, b];
  }

  lemma Flat3(p: Point, a: nat, b: nat, c: nat)
    requires |p| == 3
    ensures Flat(p, [a, b, c]) == (p[0] * b + p[1]) * c + p[2]
  {
    var p1 := p[..2][..1];
    assert [a][..0] == [] && p1[..0] == [];
    assert Flat(p1, [a]) == p[0];
    assert [a, b][..1] == [a];
    assert Flat(p[..2], [a, b]) == p[0] * b + p[1];
    assert [a, b, c][..2] == [a, b];
  }

  lemma OccupiedOne(p: Point)
    requires |p| == 3
    ensures OneVoxel.Valid()
    ensures Occupied(OneVoxel, p) <==> p == [0, 0, 0]
  {
    Size3(1, 1, 1);
    Flat3(p, 1, 1, 1);
    if InBounds(p, [1, 1, 1]) {
      assert p == [p[0], p[1], p[2]];
    }
  }

  lemma OccupiedTwo(p: Point)
    requires |p| == 3
    ensures TwoVoxels.Valid()
    ensures Occupied(TwoVoxels, p) <==> p == [0, 0, 0] || p == [1, 0, 0]
  {
    Size3(2, 1, 1);
    Flat3(p, 2, 1, 1);
    if InBounds(p, [2, 1, 1]) {
      assert p == [p[0], p[1], p[2]];
    }
  }

  /** A mask that is true at exactly the grid points `qs`, listed in increasing row-major
      order, has `|qs|` boundary positions on axis `d`. */
  lemma BoundaryListed(vol: Volume, d: nat, qs: seq<Point>, ps: seq<nat>)
    requires vol.Valid() && |vol.shape| == 3 && d < 3 && |qs| == |ps|
    requires forall i :: 0 <= i < |qs| ==>
      InBounds(qs[i], Pad(vol.shape)) && Flat(qs[i], Pad(vol.shape)) == ps[i]
    requires forall i, j :: 0 <= i < j < |ps| ==> ps[i] < ps[j]
    requires forall q :: InBounds(q, Pad(vol.shape)) ==> (IsBoundary(vol, d, q) <==> q in qs)
    ensures CountTrue(BoundaryMask(vol, d)) == |ps|
  {
    var G := Pad(vol.shape);
    var m := BoundaryMask(vol, d);
    forall i | 0 <= i < |ps|
      ensures ps[i] < |m|
    {
      FlatRange(qs[i], G);
    }
    forall g | 0 <= g < |m|
      ensures m[g] <==> g in ps
    {
      var q := Unflat(g, G);
      BoundaryMaskAt(vol, d, g);
      if q in qs {
        var i :| 0 <= i < |qs| && qs[i] == q;
        assert ps[i] == g;
      }
      if g in ps {
        var i :| 0 <= i < |ps| && ps[i] == g;
        UnflatFlat(qs[i], G);
        assert q == qs[i];
      }
    }
    CountListed(m, ps);
  }

  /** The surface cells number as many as the boundary positions of the three axes. */
  lemma SurfaceSize(vol: Volume, nodeid: seq<int>)
    requires FacePassInput(vol, nodeid, 0)
    ensures |SurfaceCells(vol, nodeid).rows| ==
      CountTrue(BoundaryMask(vol, 0)) + CountTrue(BoundaryMask(vol, 1)) + CountTrue(BoundaryMask(vol, 2))
  {
    AxisFacesExact(vol, nodeid, 0);
    AxisFacesExact(vol, nodeid, 1);
    AxisFacesExact(vol, nodeid, 2);
  }

  /** Around a single voxel, the boundary positions of axis `d` are the voxel itself (its
      low face) and its neighbour along `d` (its high face). */
  lemma OneVoxelBoundary(d: nat, q: Point)
    requires d < 3 && |q| == 3
    ensures OneVoxel.Valid()
    ensures IsBoundary(OneVoxel, d, q) <==> q in [[0, 0, 0], Shift([0, 0, 0], d, 1)]
  {
    OccupiedOne(q);
    OccupiedOne(Shift(q, d, -1));
    ShiftBack(q, d, -1);
    ShiftBack(Shift([0, 0, 0], d, 1), d, -1);
  }

  lemma OneVoxelAxis(d: nat)
    requires d < 3
    ensures OneVoxel.Valid() && CountTrue(BoundaryMask(OneVoxel, d)) == 2
  {
    OccupiedOne([0, 0, 0]);
    var e := Shift([0, 0, 0], d, 1);
    forall q | InBounds(q, Pad(OneVoxel.shape))
      ensures IsBoundary(OneVoxel, d, q) <==> q in [[0, 0, 0], e]
    {
      OneVoxelBoundary(d, q);
    }
    assert Pad(OneVoxel.shape) == [3, 3, 3];
    Flat3([0, 0, 0], 3, 3, 3);
    Flat3(e, 3, 3, 3);
    BoundaryListed(OneVoxel, d, [[0, 0, 0], e], [0, [9, 3, 1][d]]);
  }

  /** A single voxel is bounded by 6 quadrilaterals. */
  lemma OneVoxelFaces(nodeid: seq<int>)
    requires |nodeid| == Size(Pad(OneVoxel.shape))
    ensures FacePassInput(OneVoxel, nodeid, 0) && |SurfaceCells(OneVoxel, nodeid).rows| == 6
  {
    OneVoxelAxis(0);
    OneVoxelAxis(1);
    OneVoxelAxis(2);
    SurfaceSize(OneVoxel, nodeid);
  }

  /** The boundary positions around two voxels side by side, in row-major order: on the
      first axis the outer ends only, on the others the low and high faces of both. */
  function TwoVoxelQs(d: nat): seq<Point>
  {
    if d == 0 then [[0, 0, 0], [2, 0, 0]]
    else if d == 1 then [[0, 0, 0], [0, 1, 0], [1, 0, 0], [1, 1, 0]]
    else [[0, 0, 0], [0, 0, 1], [1, 0, 0], [1, 0, 1]]
  }

  lemma TwoVoxelBoundary(d: nat, q: Point)
    requires d < 3 && |q| == 3
    ensures TwoVoxels.Valid()
    ensures IsBoundary(TwoVoxels, d, q) <==> q in TwoVoxelQs(d)
  {
    var r := Shift(q, d, -1);
    OccupiedTwo(q);
    OccupiedTwo(r);
    assert q == [q[0], q[1], q[2]];
    assert r == [r[0], r[1], r[2]];
  }

  /** Their row-major positions on the node grid of shape 4 x 3 x 3. */
  function TwoVoxelPs(d: nat): seq<nat>
  {
    if d == 0 then [0, 18] else if d == 1 then [0, 3, 9, 12] else [0, 1, 9, 10]
  }

  lemma TwoVoxelLayout(d: nat)
    requires d < 3
    ensures Pad(TwoVoxels.shape) == [4, 3, 3]
    ensures |TwoVoxelQs(d)| == |TwoVoxelPs(d)|
    ensures forall i :: 0 <= i < |TwoVoxelQs(d)| ==>
      InBounds(TwoVoxelQs(d)[i], [4, 3, 3]) && Flat(TwoVoxelQs(d)[i], [4, 3, 3]) == TwoVoxelPs(d)[i]
  {
    assert Pad(TwoVoxels.shape) == [4, 3, 3];
    var qs := TwoVoxelQs(d);
    forall i | 0 <= i < |qs|
      ensures Flat(qs[i], [4, 3, 3]) == TwoVoxelPs(d)[i]
    {
      Flat3(qs[i], 4, 3, 3);
    }
  }

  lemma TwoVoxelPsIncreasing(d: nat)
    ensures forall i, j :: 0 <= i < j < |TwoVoxelPs(d)| ==> TwoVoxelPs(d)[i] < TwoVoxelPs(d)[j]
  {
    var ps := TwoVoxelPs(d);
    forall i, j | 0 <= i < j < |ps|
      ensures ps[i] < ps[j]
    {
      if d == 0 {
        assert ps == [0, 18];
      } else if d == 1 {
        assert ps == [0, 3, 9, 12];
      } else {
        assert ps == [0, 1, 9, 10];
      }
    }
  }

  lemma TwoVoxelAxis(d: nat)
    requires d < 3
    ensures TwoVoxels.Valid() && CountTrue(BoundaryMask(TwoVoxels, d)) == |TwoVoxelQs(d)|
  {
    OccupiedTwo([0, 0, 0]);
    TwoVoxelLayout(d);
    forall q | InBounds(q, Pad(TwoVoxels.shape))
      ensures IsBoundary(TwoVoxels, d, q) <==> q in TwoVoxelQs(d)
    {
      TwoVoxelBoundary(d, q);
    }
    TwoVoxelPsIncreasing(d);
    BoundaryListed(TwoVoxels, d, TwoVoxelQs(d), TwoVoxelPs(d));
  }

  /** Two voxels side by side are bounded by 10 quadrilaterals: the 12 faces of the two
      voxels less the 2 they share. */
  lemma TwoVoxelFaces(nodeid: seq<int>)
    requires |nodeid| == Size(Pad(TwoVoxels.shape))
    ensures FacePassInput(TwoVoxels, nodeid, 0) && |SurfaceCells(TwoVoxels, nodeid).rows| == 10
  {
    TwoVoxelAxis(0);
    TwoVoxelAxis(1);
    TwoVoxelAxis(2);
    SurfaceSize(TwoVoxels, nodeid);
  }

  /** Where the faces of axis `d` start among the surface cells. */
  function AxisOffset(vol: Volume, nodeid: seq<int>, d: nat): nat
    requires FacePassInput(vol, nodeid, 0) && d < 3
  {
    if d == 0 then 0
    else if d == 1 then |AxisFaces(vol, nodeid, 0)|
    else |AxisFaces(vol, nodeid, 0)| + |AxisFaces(vol, nodeid, 1)|
  }

  lemma SurfaceRow(vol: Volume, nodeid: seq<int>, d: nat, i: nat)
    requires FacePassInput(vol, nodeid, 0) && d < 3 && i < |AxisFaces(vol, nodeid, d)|
    ensures AxisOffset(vol, nodeid, d) + i < |SurfaceCells(vol, nodeid).rows|
    ensures SurfaceCells(vol, nodeid).rows[AxisOffset(vol, nodeid, d) + i] == AxisFaces(vol, nodeid, d)[i]
  {
  }

  lemma EntryReferenced(el: Cells, k: nat, j: nat)
    requires k < |el.rows| && j < |el.rows[k]|
    ensures IsReferenced(el, el.rows[k][j])
  {
  }

  /** Corner `j` of the face at a boundary position is a node some surface cell names. */
  lemma FaceReferenced(vol: Volume, nodeid: seq<int>, d: nat, q: Point, j: nat)
    requires FacePassInput(vol, nodeid, 0) && d < 3 && j < 4
    requires InBounds(q, Pad(vol.shape)) && IsBoundary(vol, d, q)
    ensures IsReferenced(SurfaceCells(vol, nodeid), FaceAt(vol, nodeid, d, q)[j])
  {
    var G := Pad(vol.shape);
    UnflatFlat(q, G);
    var g := Flat(q, G);
    var m := BoundaryMask(vol, d);
    BoundaryMaskAt(vol, d, g);
    WhereAtRank(m, g);
    var i := CountTrue(m[..g]);
    AxisFacesExact(vol, nodeid, d);
    assert AxisFaces(vol, nodeid, d)[i] == FaceAt(vol, nodeid, d, q);
    SurfaceRow(vol, nodeid, d, i);
    EntryReferenced(SurfaceCells(vol, nodeid), AxisOffset(vol, nodeid, d) + i, j);
  }

  /** The low face of an occupied voxel with an empty neighbour below it is on the surface. */
  lemma LowCornerReferenced(vol: Volume, nodeid: seq<int>, d: nat, v: Point, j: nat)
    requires FacePassInput(vol, nodeid, 0) && d < 3 && j < 4
    requires Occupied(vol, v) && !Occupied(vol, Shift(v, d, -1))
    ensures IsOffset(LowFaces[d][j], 3) &&
      IsReferenced(SurfaceCells(vol, nodeid), AtCorner(nodeid, vol.shape, v, LowFaces[d][j]))
  {
    FaceTablesAreCorners();
    CornerOnGrid(v, [0, 0, 0], vol.shape);
    assert Add(v, [0, 0, 0]) == v;
    FaceReferenced(vol, nodeid, d, v, j);
  }

  /** The high face of an occupied voxel with an empty neighbour above it is on the surface. */
  lemma HighCornerReferenced(vol: Volume, nodeid: seq<int>, d: nat, v: Point, j: nat)
    requires FacePassInput(vol, nodeid, 0) && d < 3 && j < 4
    requires Occupied(vol, v) && !Occupied(vol, Shift(v, d, 1))
    ensures IsOffset(HighFaces[d][j], 3) &&
      IsReferenced(SurfaceCells(vol, nodeid), AtCorner(nodeid, vol.shape, v, HighFaces[d][j]))
  {
    FaceTablesAreCorners();
    var e := seq(3, i requires 0 <= i < 3 => if i == d then 1 else 0);
    CornerOnGrid(v, e, vol.shape);
    assert Add(v, e) == Shift(v, d, 1);
    ShiftBack(v, d, 1);
    FaceReferenced(vol, nodeid, d, Shift(v, d, 1), j);
  }

  /** Every id a surface cell names is the node at a corner of an occupied voxel. */
  lemma SurfaceEntryCorner(vol: Volume, nodeid: seq<int>, k: nat, j: nat) returns (v: Point, c: Point)
    requires FacePassInput(vol, nodeid, 0)
    requires k < |SurfaceCells(vol, nodeid).rows| && j < |SurfaceCells(vol, nodeid).rows[k]|
    ensures Occupied(vol, v) && c in Corners3 && IsOffset(c, 3)
    ensures SurfaceCells(vol, nodeid).rows[k][j] == AtCorner(nodeid, vol.shape, v, c)
  {
    var rows := SurfaceCells(vol, nodeid).rows;
    var a0, a1 := AxisFaces(vol, nodeid, 0), AxisFaces(vol, nodeid, 1);
    var d, i;
    if k < |a0| {
      d, i := 0, k;
    } else if k < |a0| + |a1| {
      d, i := 1, k - |a0|;
    } else {
      d, i := 2, k - |a0| - |a1|;
    }
    assert rows[k] == AxisFaces(vol, nodeid, d)[i];
    AxisFacesExact(vol, nodeid, d);
    var q := Unflat(Where(BoundaryMask(vol, d))[i], Pad(vol.shape));
    FaceTablesAreCorners();
    if Occupied(vol, Shift(q, d, -1)) {
      v, c := Shift(q, d, -1), HighFaces[d][j];
    } else {
      v, c := q, LowFaces[d][j];
    }
  }

  /** The listed point `pts[i]` sits at the marked row-major position `fs[i]`. */
  ghost predicate ListedCorner(vol: Volume, marks: seq<bool>, pts: seq<Point>, fs: seq<nat>, i: nat)
    requires i < |pts| == |fs|
  {
    fs[i] < |marks| && marks[fs[i]] &&
    InBounds(pts[i], Pad(vol.shape)) && Flat(pts[i], Pad(vol.shape)) == fs[i]
  }

  /** The node ids at the positions `fs`. */
  function ListedIds(marks: seq<bool>, fs: seq<nat>): (ps: seq<int>)
    ensures |ps| == |fs|
  {
    seq(|fs|, i requires 0 <= i < |fs| => if fs[i] < |marks| then DenseIds(marks)[fs[i]] else -1)
  }

  /** Every corner of every occupied voxel is listed in `pts`. */
  ghost predicate CornersListed(vol: Volume, pts: seq<Point>)
    requires vol.Valid() && |vol.shape| == 3
  {
    forall v, c :: Occupied(vol, v) && c in Corners3 ==> Add(v, c) in pts
  }

  /** Every id a surface cell names is the node of one of the listed points. */
  lemma EntryListed(vol: Volume, marks: seq<bool>, pts: seq<Point>, fs: seq<nat>, k: nat, j: nat)
    returns (i: nat)
    requires vol.Valid() && |vol.shape| == 3 && |marks| == Size(Pad(vol.shape)) && |pts| == |fs|
    requires forall i :: 0 <= i < |fs| ==> ListedCorner(vol, marks, pts, fs, i)
    requires CornersListed(vol, pts)
    requires k < |SurfaceCells(vol, DenseIds(marks)).rows|
    requires j < |SurfaceCells(vol, DenseIds(marks)).rows[k]|
    ensures i < |fs| && SurfaceCells(vol, DenseIds(marks)).rows[k][j] == ListedIds(marks, fs)[i]
  {
    var v, c := SurfaceEntryCorner(vol, DenseIds(marks), k, j);
    i :| 0 <= i < |pts| && pts[i] == Add(v, c);
    assert ListedCorner(vol, marks, pts, fs, i);
  }

  /** `m` is true exactly at the entries of `ps`. */
  ghost predicate MaskOf(m: seq<bool>, ps: seq<int>)
  {
    forall o :: 0 <= o < |m| ==> (m[o] <==> o in ps)
  }

  /** `ps` is a strictly increasing list of ids below `n`. */
  ghost predicate IdsIncreasing(ps: seq<int>, n: nat)
  {
    (forall i :: 0 <= i < |ps| ==> 0 <= ps[i] < n) &&
    (forall i, j :: 0 <= i < j < |ps| ==> ps[i] < ps[j])
  }

  /** A mask over `n` ids that is true exactly at the increasing ids `ps` counts `|ps|`. */
  lemma CountMask(m: seq<bool>, ps: seq<int>, n: nat)
    requires |m| == n && MaskOf(m, ps) && IdsIncreasing(ps, n)
    ensures CountTrue(m) == |ps|
  {
    var qs: seq<nat> := ps;
    CountListed(m, qs);
  }

  /** The mask of used nodes is true exactly at the listed ids. */
  lemma UsedMaskListed(vol: Volume, marks: seq<bool>, pts: seq<Point>, fs: seq<nat>)
    requires vol.Valid() && |vol.shape| == 3 && |marks| == Size(Pad(vol.shape)) && |pts| == |fs|
    requires forall i :: 0 <= i < |fs| ==> ListedCorner(vol, marks, pts, fs, i)
    requires forall i :: 0 <= i < |fs| ==>
      IsReferenced(SurfaceCells(vol, DenseIds(marks)), ListedIds(marks, fs)[i])
    requires CornersListed(vol, pts)
    ensures MaskOf(Referenced(SurfaceCells(vol, DenseIds(marks)), CountTrue(marks)), ListedIds(marks, fs))
  {
    var faces := SurfaceCells(vol, DenseIds(marks));
    var used := Referenced(faces, CountTrue(marks));
    var ps := ListedIds(marks, fs);
    forall o | 0 <= o < |used|
      ensures used[o] <==> o in ps
    {
      if IsReferenced(faces, o) {
        var k, j :| 0 <= k < |faces.rows| && 0 <= j < |faces.rows[k]| && faces.rows[k][j] == o;
        var i := EntryListed(vol, marks, pts, fs, k, j);
      }
    }
  }

  /** The ids of marked positions listed in increasing order are increasing node ids. */
  lemma ListedIdsIncreasing(vol: Volume, marks: seq<bool>, pts: seq<Point>, fs: seq<nat>)
    requires |pts| == |fs|
    requires forall i :: 0 <= i < |fs| ==> ListedCorner(vol, marks, pts, fs, i)
    requires forall i, j :: 0 <= i < j < |fs| ==> fs[i] < fs[j]
    ensures IdsIncreasing(ListedIds(marks, fs), CountTrue(marks))
  {
    var ps := ListedIds(marks, fs);
    DenseIdsRange(marks);
    forall i | 0 <= i < |ps|
      ensures 0 <= ps[i] < CountTrue(marks)
    {
      assert ListedCorner(vol, marks, pts, fs, i);
    }
    forall i, j | 0 <= i < j < |ps|
      ensures ps[i] < ps[j]
    {
      assert ListedCorner(vol, marks, pts, fs, i) && ListedCorner(vol, marks, pts, fs, j);
      DenseIdsOrdered(marks, fs[i], fs[j]);
    }
  }

  /** When the corners of the occupied voxels are exactly the points `pts`, at the
      increasing positions `fs`, and each of their nodes is named by a surface cell, the
      compacted surface mesh keeps `|fs|` nodes. */
  lemma NodesListed(vol: Volume, marks: seq<bool>, pts: seq<Point>, fs: seq<nat>)
    requires vol.Valid() && |vol.shape| == 3 && |marks| == Size(Pad(vol.shape)) && |pts| == |fs|
    requires forall i :: 0 <= i < |fs| ==> ListedCorner(vol, marks, pts, fs, i)
    requires forall i :: 0 <= i < |fs| ==>
      IsReferenced(SurfaceCells(vol, DenseIds(marks)), ListedIds(marks, fs)[i])
    requires CornersListed(vol, pts)
    requires forall i, j :: 0 <= i < j < |fs| ==> fs[i] < fs[j]
    ensures CountTrue(Referenced(SurfaceCells(vol, DenseIds(marks)), CountTrue(marks))) == |fs|
  {
    ListedIdsIncreasing(vol, marks, pts, fs);
    UsedMaskListed(vol, marks, pts, fs);
    CountMask(Referenced(SurfaceCells(vol, DenseIds(marks)), CountTrue(marks)), ListedIds(marks, fs), CountTrue(marks));
  }

  /** A corner `o` of a voxel `v` is a marked node of the grid. */
  lemma CornerMarked(vol: Volume, marks: seq<bool>, v: Point, o: Point)
    requires Input(vol, marks) && Occupied(vol, v) && o in Corners(|vol.shape|)
    ensures InBounds(Add(v, o), Pad(vol.shape))
    ensures 0 <= Flat(Add(v, o), Pad(vol.shape)) < |marks| && marks[Flat(Add(v, o), Pad(vol.shape))]
  {
    CornerNode(vol, marks, v, o);
    CornerOnGrid(v, o, vol.shape);
    FlatRange(Add(v, o), Pad(vol.shape));
    DenseIdsRange(marks);
  }

  /** The eight corners of the single voxel, in row-major order on the 3 x 3 x 3 node grid. */
  const OneVoxelPts: seq<Point> :=
    [[0, 0, 0], [0, 0, 1], [0, 1, 0], [0, 1, 1], [1, 0, 0], [1, 0, 1], [1, 1, 0], [1, 1, 1]]
  const OneVoxelFs: seq<nat> := [0, 1, 3, 4, 9, 10, 12, 13]

  lemma OneVoxelCornerMarked(marks: seq<bool>, i: nat)
    requires Input(OneVoxel, marks) && i < 8
    ensures OneVoxelPts[i] in Corners(3) && Add([0, 0, 0], OneVoxelPts[i]) == OneVoxelPts[i]
    ensures ListedCorner(OneVoxel, marks, OneVoxelPts, OneVoxelFs, i)
  {
    var p := OneVoxelPts[i];
    assert Pad(OneVoxel.shape) == [3, 3, 3];
    OccupiedOne([0, 0, 0]);
    assert Add([0, 0, 0], p) == p;
    assert p in Corners(3);
    CornerMarked(OneVoxel, marks, [0, 0, 0], p);
    Flat3(p, 3, 3, 3);
  }

  /** Which face reaches corner `i`: the low x face for the corners with x = 0, the high x
      face for the others. */
  lemma OneVoxelCorner(marks: seq<bool>, i: nat)
    requires Input(OneVoxel, marks) && i < 8
    ensures ListedCorner(OneVoxel, marks, OneVoxelPts, OneVoxelFs, i)
    ensures IsReferenced(SurfaceCells(OneVoxel, DenseIds(marks)), ListedIds(marks, OneVoxelFs)[i])
  {
    OneVoxelCornerMarked(marks, i);
    var o := [0, 0, 0];
    var p := OneVoxelPts[i];
    var nodeid := DenseIds(marks);
    OccupiedOne(o);
    if i < 4 {
      var j := [0, 1, 3, 2][i];
      assert LowFaces[0][j] == p;
      LowCornerReferenced(OneVoxel, nodeid, 0, o, j);
    } else {
      OccupiedOne(Shift(o, 0, 1));
      var j := [0, 3, 1, 2][i - 4];
      assert HighFaces[0][j] == p;
      HighCornerReferenced(OneVoxel, nodeid, 0, o, j);
    }
  }

  lemma OneVoxelClosed()
    ensures OneVoxel.Valid() && CornersListed(OneVoxel, OneVoxelPts)
  {
    OccupiedOne([0, 0, 0]);
    forall v, c | Occupied(OneVoxel, v) && c in Corners3
      ensures Add(v, c) in OneVoxelPts
    {
      OccupiedOne(v);
      assert Add(v, c) == c;
    }
  }

  /** The surface mesh of one voxel keeps its 8 corner nodes. */
  lemma OneVoxelNodes(marks: seq<bool>)
    requires Input(OneVoxel, marks)
    ensures CountTrue(Referenced(SurfaceCells(OneVoxel, DenseIds(marks)), CountTrue(marks))) == 8
  {
    forall i | 0 <= i < 8
      ensures ListedCorner(OneVoxel, marks, OneVoxelPts, OneVoxelFs, i)
      ensures IsReferenced(SurfaceCells(OneVoxel, DenseIds(marks)), ListedIds(marks, OneVoxelFs)[i])
    {
      OneVoxelCorner(marks, i);
    }
    OneVoxelClosed();
    NodesListed(OneVoxel, marks, OneVoxelPts, OneVoxelFs);
  }

  /** The twelve corners of the two voxels, in row-major order on the 4 x 3 x 3 node grid. */
  const TwoVoxelPts: seq<Point> :=
    [[0, 0, 0], [0, 0, 1], [0, 1, 0], [0, 1, 1], [1, 0, 0], [1, 0, 1],
     [1, 1, 0], [1, 1, 1], [2, 0, 0], [2, 0, 1], [2, 1, 0], [2, 1, 1]]
  const TwoVoxelFs: seq<nat> := [0, 1, 3, 4, 9, 10, 12, 13, 18, 19, 21, 22]

  /** Corner `i` of the two-voxel box is corner `TwoVoxelOffset(i)` of the first voxel
      (`i < 8`) or of the second. */
  function TwoVoxelOffset(i: nat): Point
    requires i < 12
  {
    if i < 8 then OneVoxelPts[i] else OneVoxelPts[i - 4]
  }

  lemma TwoVoxelCornerMarked(marks: seq<bool>, i: nat)
    requires Input(TwoVoxels, marks) && i < 12
    ensures var v: Point := if i < 8 then [0, 0, 0] else [1, 0, 0];
      Occupied(TwoVoxels, v) && TwoVoxelOffset(i) in Corners(3) &&
      Add(v, TwoVoxelOffset(i)) == TwoVoxelPts[i]
    ensures InBounds(TwoVoxelPts[i], Pad(TwoVoxels.shape))
    ensures Flat(TwoVoxelPts[i], Pad(TwoVoxels.shape)) == TwoVoxelFs[i]
    ensures TwoVoxelFs[i] < |marks| && marks[TwoVoxelFs[i]]
  {
    var v: Point := if i < 8 then [0, 0, 0] else [1, 0, 0];
    var o := TwoVoxelOffset(i);
    assert Pad(TwoVoxels.shape) == [4, 3, 3];
    OccupiedTwo(v);
    assert o in Corners(3);
    assert Add(v, o) == TwoVoxelPts[i];
    CornerMarked(TwoVoxels, marks, v, o);
    Flat3(TwoVoxelPts[i], 4, 3, 3);
  }

  /** Which face reaches corner `i`: the low x face of the first voxel, its low and high y
      faces for the middle corners, and the high x face of the second voxel. */
  lemma TwoVoxelCorner(marks: seq<bool>, i: nat)
    requires Input(TwoVoxels, marks) && i < 12
    ensures ListedCorner(TwoVoxels, marks, TwoVoxelPts, TwoVoxelFs, i)
    ensures IsReferenced(SurfaceCells(TwoVoxels, DenseIds(marks)), ListedIds(marks, TwoVoxelFs)[i])
  {
    TwoVoxelCornerMarked(marks, i);
    var v: Point := if i < 8 then [0, 0, 0] else [1, 0, 0];
    var o := TwoVoxelOffset(i);
    var nodeid := DenseIds(marks);
    if i < 4 {
      OccupiedTwo(Shift(v, 0, -1));
      var j := [0, 1, 3, 2][i];
      assert LowFaces[0][j] == o;
      LowCornerReferenced(TwoVoxels, nodeid, 0, v, j);
    } else if i < 6 {
      OccupiedTwo(Shift(v, 1, -1));
      var j := [1, 2][i - 4];
      assert LowFaces[1][j] == o;
      LowCornerReferenced(TwoVoxels, nodeid, 1, v, j);
    } else if i < 8 {
      OccupiedTwo(Shift(v, 1, 1));
      var j := [3, 2][i - 6];
      assert HighFaces[1][j] == o;
      HighCornerReferenced(TwoVoxels, nodeid, 1, v, j);
    } else {
      OccupiedTwo(Shift(v, 0, 1));
      var j := [0, 3, 1, 2][i - 8];
      assert HighFaces[0][j] == o;
      HighCornerReferenced(TwoVoxels, nodeid, 0, v, j);
    }
  }

  lemma TwoVoxelClosed()
    ensures TwoVoxels.Valid() && CornersListed(TwoVoxels, TwoVoxelPts)
  {
    OccupiedTwo([0, 0, 0]);
    forall v, c | Occupied(TwoVoxels, v) && c in Corners3
      ensures Add(v, c) in TwoVoxelPts
    {
      OccupiedTwo(v);
      assert v == [0, 0, 0] || v == [1, 0, 0];
      assert Add(v, c) == [v[0] + c[0], c[1], c[2]];
    }
  }

  /** The surface mesh of two voxels side by side keeps their 12 corner nodes. */
  lemma TwoVoxelNodes(marks: seq<bool>)
    requires Input(TwoVoxels, marks)
    ensures CountTrue(Referenced(SurfaceCells(TwoVoxels, DenseIds(marks)), CountTrue(marks))) == 12
  {
    forall i | 0 <= i < 12
      ensures ListedCorner(TwoVoxels, marks, TwoVoxelPts, TwoVoxelFs, i)
      ensures IsReferenced(SurfaceCells(TwoVoxels, DenseIds(marks)), ListedIds(marks, TwoVoxelFs)[i])
    {
      TwoVoxelCorner(marks, i);
    }
    TwoVoxelClosed();
    NodesListed(TwoVoxels, marks, TwoVoxelPts, TwoVoxelFs);
  }

  /** `gen_mesh_from_voxels` in surface mode: 6 quadrilaterals (12 triangles) on the 8
      corner nodes for one voxel. */
  lemma OneVoxelSurfaceMesh(marks: seq<bool>, etype: string)
    requires Input(OneVoxel, marks)
    ensures var r := GenMesh(OneVoxel, marks, etype, "s");
      r.Ok? && |r.value.points| == 8 &&
      |r.value.cells.rows| == (if etype == "t" then 12 else 6)
  {
    SurfaceMeshSize(OneVoxel, marks, etype);
    OneVoxelFaces(DenseIds(marks));
    SurfaceMeshNodes(OneVoxel, marks, etype);
    OneVoxelNodes(marks);
  }

  /** ... and 10 quadrilaterals (20 triangles) on 12 nodes for two voxels side by side. */
  lemma TwoVoxelSurfaceMesh(marks: seq<bool>, etype: string)
    requires Input(TwoVoxels, marks)
    ensures var r := GenMesh(TwoVoxels, marks, etype, "s");
      r.Ok? && |r.value.points| == 12 &&
      |r.value.cells.rows| == (if etype == "t" then 20 else 10)
  {
    SurfaceMeshSize(TwoVoxels, marks, etype);
    TwoVoxelFaces(DenseIds(marks));
    SurfaceMeshNodes(TwoVoxels, marks, etype);
    TwoVoxelNodes(marks);
  }
}
