/** `gen_mesh_from_voxels` (lines 218-398): nodes are numbered on the padded node grid,
    elements are built from the occupied voxels (volumetric mode) or from the boundary faces
    (surface mode, 3-D only), the surface mesh drops the nodes no face uses, quadrilaterals
    and hexahedra are optionally split, and the cell type is looked up in `meshio_types`. */
module VoxelMesh {
  import opened Grid
  import opened Ranking
  import opened MeshData
  import opened Voxels
  import opened SurfaceFaces
  import opened Compaction
  import opened CellSplit

  /** What the voxel meshing needs from its input: a valid volume and a node mask on the
      padded grid that marks every corner of every occupied voxel (as `set_nodemtx` does). */
  ghost predicate Input(vol: Volume, marks: seq<bool>)
  {
    vol.Valid() && |marks| == Size(Pad(vol.shape)) && CornersMarked(vol, marks)
  }

  /** The dimension and mesh type for which some branch assigns `elems`. */
  predicate Supported(dim: nat, mtype: string)
  {
    (dim == 2 && mtype == "v") || (dim == 3 && (mtype == "v" || mtype == "s"))
  }

  /** The elements before the optional split: the element dimension `edim`, the cells and
      the node coordinates. */
  datatype Stage = Stage(edim: nat, cells: Cells, points: seq<Point>)

  /** Lines 262-388: the volumetric elements on all nodes, or the surface faces on the
      compacted nodes. */
  ghost function Elements(vol: Volume, marks: seq<bool>, mtype: string): (st: Stage)
    requires Input(vol, marks) && Supported(|vol.shape|, mtype)
    ensures st.cells.Valid() && st.cells.IdsBelow(|st.points|)
    ensures st.edim == (if mtype == "v" then |vol.shape| else 2)
    ensures st.cells.width == (if mtype == "v" && |vol.shape| == 3 then 8 else 4)
  {
    var nodeid := DenseIds(marks);
    var coors := NodePoints(marks, Pad(vol.shape));
    if mtype == "v" then
      VolumeElemsValid(vol, marks);
      Stage(|vol.shape|, VolumeElems(vol, nodeid), coors)
    else
      var faces := SurfaceCells(vol, nodeid);
      SurfaceCellsIdsBelow(vol, marks);
      var used := Referenced(faces, |coors|);
      CompactIdsInRange(faces, |coors|);
      Stage(2, MapIds(faces, DenseIds(used)), Select(coors, used))
  }

  /** The whole function, error paths included: the `NameError`s and the `IndexError` of
      unsupported combinations, the `IndexError` of `elems_q2t` on a width it has no table
      for and the `KeyError` of `meshio_types`. */
  ghost function GenMesh(vol: Volume, marks: seq<bool>, etype: string, mtype: string)
    : Result<Mesh<Point>, MeshError>
    requires Input(vol, marks)
  {
    var dim := |vol.shape|;
    if dim != 2 && dim != 3 then Err(ElemsUnbound)
    else if dim == 2 && mtype != "v" then Err(FaceArrayRank)
    else if dim == 3 && mtype != "v" && mtype != "s" then Err(AccumulatorUndefined)
    else
      var st := Elements(vol, marks, mtype);
      var split: Result<Cells, MeshError> :=
        if etype != "t" then Ok(st.cells)
        else if TableFits(st.cells.width) then Ok(Split(st.cells))
        else Err(SplitIndexOutOfRange);
      if split.Err? then Err(split.error)
      else match CellType(st.edim, split.value.width)
        case None => Err(UnknownCellType(st.edim, split.value.width))
        case Some(kind) => Ok(Mesh(st.points, kind, split.value))
  }

  /** The error an unsupported combination raises first. */
  function Failure(dim: nat): MeshError
  {
    if dim != 2 && dim != 3 then ElemsUnbound
    else if dim == 2 then FaceArrayRank
    else AccumulatorUndefined
  }

  /** The cell kind of each supported combination. */
  function ExpectedKind(dim: nat, etype: string, mtype: string): CellKind
  {
    if mtype == "v" && dim == 3 then (if etype == "t" then Tetra else Hexahedron)
    else if etype == "t" then Triangle
    else Quad
  }

  /** Lines 218-398, with the voxel size left out (node coordinates are grid points). */
  method GenMeshFromVoxels(vol: Volume, marks: seq<bool>,
                           etype: string := "q", mtype: string := "v")
    returns (r: Result<Mesh<Point>, MeshError>)
    requires Input(vol, marks)
    ensures r == GenMesh(vol, marks, etype, mtype)
  {
    var nodeid, coors := NumberNodes(marks, Pad(vol.shape));
    var dim := |vol.shape|;
    var elems: Cells;
    var edim: nat;
    if dim == 2 {
      if mtype != "v" {
        return Err(FaceArrayRank);
      }
      elems, edim := VolumeElems(vol, nodeid), 2;
    } else if dim == 3 {
      if mtype == "v" {
        elems, edim := VolumeElems(vol, nodeid), 3;
      } else if mtype == "s" {
        elems := SurfaceElems(vol, nodeid);
        edim := 2;
      } else {
        return Err(AccumulatorUndefined);
      }
    } else {
      return Err(ElemsUnbound);
    }
    ghost var st := Elements(vol, marks, mtype);
    if mtype == "s" {
      SurfaceCellsIdsBelow(vol, marks);
      elems, coors := CompactNodes(elems, coors);
    }
    assert elems == st.cells && coors == st.points;
    if etype == "t" {
      TableFitsExactly(elems.width);
      var s := ElemsQ2T(elems);
      assert s.Ok?;
      elems := s.value;
    }
    var kind := CellType(edim, elems.width);
    assert kind.Some?;
    return Ok(Mesh(coors, kind.value, elems));
  }

  /** Which inputs fail, and with which error; every other input yields a well-formed mesh
      of the expected kind. */
  lemma GenMeshOutcome(vol: Volume, marks: seq<bool>, etype: string, mtype: string)
    requires Input(vol, marks)
    ensures var r := GenMesh(vol, marks, etype, mtype);
      (r.Err? <==> !Supported(|vol.shape|, mtype)) &&
      (r.Err? ==> r.error == Failure(|vol.shape|)) &&
      (r.Ok? ==> r.value.WellFormed() && r.value.kind == ExpectedKind(|vol.shape|, etype, mtype))
  {
    if Supported(|vol.shape|, mtype) {
      var st := Elements(vol, marks, mtype);
      TableFitsExactly(st.cells.width);
      if etype == "t" {
        SplitKeepsIds(st.cells, |st.points|);
      }
    }
  }

  /** A volumetric mesh keeps every node and has one element per occupied voxel, or its 2
      or 6 pieces when split. */
  lemma VolumeMeshSize(vol: Volume, marks: seq<bool>, etype: string)
    requires Input(vol, marks) && Supported(|vol.shape|, "v")
    ensures var r := GenMesh(vol, marks, etype, "v");
      var pieces := if etype != "t" then 1 else if |vol.shape| == 2 then 2 else 6;
      r.Ok? && r.value.points == NodePoints(marks, Pad(vol.shape)) &&
      |r.value.cells.rows| == CountTrue(vol.occ) * pieces
  {
    var st := Elements(vol, marks, "v");
    VolumeElemsValid(vol, marks);
    TableFitsExactly(st.cells.width);
  }

  /** Each unsplit volumetric element has its corners at the corners of its voxel. */
  lemma VolumeMeshGeometry(vol: Volume, marks: seq<bool>, etype: string)
    requires Input(vol, marks) && Supported(|vol.shape|, "v") && etype != "t"
    ensures var r := GenMesh(vol, marks, etype, "v");
      var vs := OccupiedVoxels(vol);
      var cs := Corners(|vol.shape|);
      r.Ok? &&
      forall k, j :: 0 <= k < |vs| && 0 <= j < |cs| ==>
        0 <= r.value.cells.rows[k][j] < |r.value.points| &&
        r.value.points[r.value.cells.rows[k][j]] == Add(vs[k], cs[j])
  {
    VolumeElemsValid(vol, marks);
    VolumeElemsGeometry(vol, marks);
  }

  /** A surface mesh keeps exactly the nodes its faces use: every point is a corner of some
      cell, and no node of the grid that a face uses is dropped. */
  lemma SurfaceMeshNodes(vol: Volume, marks: seq<bool>, etype: string)
    requires Input(vol, marks) && |vol.shape| == 3
    ensures var r := GenMesh(vol, marks, etype, "s");
      var faces := SurfaceCells(vol, DenseIds(marks));
      r.Ok? &&
      |r.value.points| == CountTrue(Referenced(faces, CountTrue(marks))) &&
      forall i :: 0 <= i < |r.value.points| ==> IsReferenced(r.value.cells, i)
  {
    var nodeid := DenseIds(marks);
    var st := Elements(vol, marks, "s");
    var faces := SurfaceCells(vol, nodeid);
    SurfaceCellsIdsBelow(vol, marks);
    CompactKeepsOnlyReferenced(faces, CountTrue(marks));
    TableFitsExactly(4);
    if etype == "t" {
      forall i | 0 <= i < |st.points|
        ensures IsReferenced(Split(st.cells), i)
      {
        SplitKeepsReferenced(st.cells, i);
      }
    }
  }

  /** A surface mesh has one cell per boundary face, or two triangles per face when split. */
  lemma SurfaceMeshSize(vol: Volume, marks: seq<bool>, etype: string)
    requires Input(vol, marks) && |vol.shape| == 3
    ensures var r := GenMesh(vol, marks, etype, "s");
      r.Ok? &&
      |r.value.cells.rows| == |SurfaceCells(vol, DenseIds(marks)).rows| * (if etype == "t" then 2 else 1)
  {
    var st := Elements(vol, marks, "s");
    TableFitsExactly(4);
  }
}
