/** The values that `seg2fem` passes around: a connectivity block, the cell kinds of the
    `meshio_types` table and the mesh record handed to `meshio.Mesh`. */
module MeshData {

  datatype Option<T> = None | Some(value: T)

  datatype Result<T, E> = Ok(value: T) | Err(error: E)

  /** The ways the meshing functions fail, each named after the Python error it stands for. */
  datatype MeshError =
    | ElemsUnbound          // NameError: no branch assigns `elems` (dimension not 2 or 3)
    | AccumulatorUndefined  // NameError: `nn` only exists when mtype == 's'
    | FaceArrayRank         // IndexError: 2-D `fc` is allocated with two axes, indexed with three
    | SplitIndexOutOfRange  // IndexError: a split table names a column the cells do not have
    | UnknownCellType(edim: nat, nelnd: nat)  // KeyError in `meshio_types`
    | EmptyWeldKey          // IndexError: a vertex group without any vertex

  /** A connectivity array of shape `(|rows|, width)`: one row of node ids per cell.
      The width is kept separately because an empty array still has one. */
  datatype Cells = Cells(width: nat, rows: seq<seq<int>>)
  {
    predicate Valid()
    {
      forall k :: 0 <= k < |rows| ==> |rows[k]| == width
    }

    /** Every node id lies in `[0, n)`. */
    predicate IdsBelow(n: int)
    {
      forall k, j :: 0 <= k < |rows| && 0 <= j < |rows[k]| ==> 0 <= rows[k][j] < n
    }
  }

  /** Some cell names node `o`. */
  ghost predicate IsReferenced(el: Cells, o: int)
  {
    exists k, j :: 0 <= k < |el.rows| && 0 <= j < |el.rows[k]| && el.rows[k][j] == o
  }

  datatype CellKind = Triangle | Quad | Tetra | Hexahedron

  /** `meshio_types`: the cell kind for `'%d_%d' % (edim, nelnd)`; `None` for a key the
      table does not have. */
  function CellType(edim: nat, nelnd: nat): (k: Option<CellKind>)
    ensures k.Some? <==> (edim, nelnd) in {(2, 3), (2, 4), (3, 4), (3, 8)}
  {
    if edim == 2 && nelnd == 3 then Some(Triangle)
    else if edim == 2 && nelnd == 4 then Some(Quad)
    else if edim == 3 && nelnd == 4 then Some(Tetra)
    else if edim == 3 && nelnd == 8 then Some(Hexahedron)
    else None
  }

  /** Nodes per cell of each kind. */
  function Arity(k: CellKind): nat
  {
    match k
    case Triangle => 3
    case Quad => 4
    case Tetra => 4
    case Hexahedron => 8
  }

  /** Points and one typed cell block, as given to `meshio.Mesh(coors, [(type, elems)])`. */
  datatype Mesh<P> = Mesh(points: seq<P>, kind: CellKind, cells: Cells)
  {
    /** The mesh invariant: every cell has the arity of its kind and names existing nodes. */
    predicate WellFormed()
    {
      cells.Valid() && cells.width == Arity(kind) && cells.IdsBelow(|points|)
    }
  }
}
