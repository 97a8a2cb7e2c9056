# seg2fem in Dafny

A verified model of the meshing core of `dicom2fem/seg2fem.py`. It covers four pieces:

- `gen_mesh_from_voxels` turns a voxel segmentation into a finite-element mesh:
  - it numbers the nodes of a padded node grid;
  - it emits one quadrilateral or hexahedron per occupied voxel (volumetric mode), or the
    boundary faces found by a parity count (surface mode, 3-D);
  - in surface mode it drops the nodes no face uses and renumbers the others;
  - it optionally splits cells into triangles or tetrahedra (`elems_q2t`);
  - it looks the cell type up in `meshio_types`.
- `smooth_mesh` builds an edge-cost graph from a node hierarchy (interior 2, boundary 4),
  normalises it row by row into a weight matrix, and runs Taubin's alternating `lam`/`mu`
  Laplacian smoothing (`taubin`).
- `gen_mesh_from_voxels_mc` welds marching-cubes vertices: a vertex's sorted list of close
  vertices is its key, the distinct keys become nodes, and the corners are relabelled.

Numpy arrays are modelled as follows:

- n-dimensional arrays are flat row-major sequences plus a shape (`Grid`);
- `nm.where` on a mask is `Ranking.Where`;
- `x[where(m)] = arange(n)` is `Ranking.DenseIds`, the rank of each marked position.

Arrays that the source fills in place are Dafny arrays, written by methods proved equal to
a specification function. These are `nodeid`, `fc`/`nn`, `aux`, `out`, `coors` in `taubin`,
and `ntri`. Each method's specification function carries the lemmas about it.

Modules, one per file:

| module | file | what it holds |
|---|---|---|
| `Grid` | grid.dfy | row-major layout: `Flat`, `Unflat`, the padded node grid |
| `Ranking` | ranking.dfy | `CountTrue`, `Where`, `DenseIds` |
| `MeshData` | mesh_data.dfy | cells, cell kinds, the mesh record, errors |
| `CellSplit` | cell_split.dfy | `elems_q2t` |
| `Voxels` | voxels.dfy | occupied voxels, node numbering, volumetric elements |
| `SurfaceFaces` | surface.dfy | the parity face pass of surface mode |
| `SurfaceCounts` | surface_counts.dfy | the one-voxel and two-voxel surface examples |
| `Compaction` | compaction.dfy | the surface-mode node compaction |
| `VoxelMesh` | gen_mesh.dfy | `gen_mesh_from_voxels` with its error paths |
| `Smoothing` | smoothing.dfy | cost graph, weights, `taubin`, `smooth_mesh` |
| `Weld` | weld.dfy | vertex welding of `gen_mesh_from_voxels_mc` |

Where the code and its documentation disagree, the model follows the code:

- **Sub-cell order in `elems_q2t`.** The split writes table row `ii` to the output rows
  `ii, ii + ns, ...`. The pieces of one cell are therefore contiguous: row `k * ns + i` is
  piece `i` of cell `k`.
- **2-D surface mode.** It does not produce line elements. `nddims + (2,)` adds 2 to every
  entry of a numpy array, so `fc` is two-dimensional, and `fc[ix, iy, :]` raises
  `IndexError` (`FaceArrayRank`). This happens before the `'1_2'` key could be looked up.
- **Mesh types other than `'v'`/`'s'`.** In 3-D they reach the face branch and fail on
  the undefined `nn` (`AccumulatorUndefined`). In 2-D they fail as above.
- **The dimension.** The code reads it from `len(dims)`, the voxel-size vector. The model
  reads it from the rank of the voxel array, which is the same whenever the code works.
- **Zero-cost rows.** `1 / 0` in `aux` multiplies no stored entry of the sparse product,
  so a node without cost entries gets a zero weight row. Its displacement is then minus its
  position (`Smoothing.ZeroRowDisplacement`).
- **Welding.** `ntri` starts as ones, so a vertex that no key lists keeps id 1. When keys
  overlap, the last group written wins (`Weld.RelabelLastWriter`).

## Model

| member | source | states |
|---|---|---|
| Grid.Unflat | dicom2fem/seg2fem.py:249-252 | the grid point at a row-major position is in bounds and flattens back to that position |
| Grid.UnflatFlat | dicom2fem/seg2fem.py:249-252 | flattening an in-bounds point and unflattening it gives the point back (row-major layout is a bijection) |
| Grid.FlatInjective | dicom2fem/seg2fem.py:249-252 | distinct in-bounds points have distinct row-major positions |
| Grid.CornerOnGrid | dicom2fem/seg2fem.py:243 | a voxel corner lies on the node grid of shape `voxels.shape + 2` |
| Ranking.Where | dicom2fem/seg2fem.py:249 | `nm.where` of a mask lists exactly `CountTrue` positions, each marked, strictly increasing |
| Ranking.WhereAtRank | dicom2fem/seg2fem.py:249 | a marked position appears in `Where` at the index equal to its rank |
| Ranking.CountListed | dicom2fem/seg2fem.py:249 | a mask marked exactly at the increasing positions `ps` counts `\|ps\|` |
| Ranking.DenseIdsRange | dicom2fem/seg2fem.py:255-256 | unmarked positions get -1 and marked ones an id in `[0, nnod)` |
| Ranking.DenseIdsOrdered | dicom2fem/seg2fem.py:255-256 | ids grow with row-major position, so they are injective |
| Ranking.DenseIdsOnto | dicom2fem/seg2fem.py:255-256 | every id in `[0, nnod)` is used, and `Where` and `DenseIds` are inverse |
| MeshData.CellType | dicom2fem/seg2fem.py:47-52 | the table has a cell type exactly for `2_3`, `2_4`, `3_4`, `3_8` |
| CellSplit.TableFitsExactly | dicom2fem/seg2fem.py:64-84 | the chosen table indexes only existing columns iff the width is 4 or at least 8 |
| CellSplit.ElemsQ2T | dicom2fem/seg2fem.py:61-86 | fails with `IndexError` iff the width is not 4 and below 8; otherwise returns exactly `Split(el)` |
| CellSplit.SplitRow | dicom2fem/seg2fem.py:76-84 | 2 pieces per quadrilateral, 6 per hexahedron; `nel * ns` rows; row `k*ns + i` is cell `k` permuted by table row `i` |
| CellSplit.SplitKeepsIds | dicom2fem/seg2fem.py:84 | every id of a piece is an id of its original cell, so ids in `[0, n)` stay in `[0, n)` |
| CellSplit.SplitCoversCorners | dicom2fem/seg2fem.py:65-74 | every corner of a quadrilateral or hexahedron appears in some table row |
| CellSplit.SplitKeepsReferenced | dicom2fem/seg2fem.py:81-84 | every node a cell names is named by one of its pieces |
| CellSplit.SplitOnlyReferenced | dicom2fem/seg2fem.py:81-84 | every node a piece names is named by its original cell |
| Voxels.OccupiedVoxels | dicom2fem/seg2fem.py:246 | `nm.where(voxels)` has one entry per occupied voxel |
| Voxels.OccupiedVoxelsExact | dicom2fem/seg2fem.py:246 | it lists exactly the occupied voxels, each once, in row-major order |
| Voxels.CornerNode | dicom2fem/seg2fem.py:247-256 | a corner of an occupied voxel has a node id in `[0, nnod)` |
| Voxels.ScatterRange | dicom2fem/seg2fem.py:256 | `a[idx] = arange` writes `i` at `idx[i]` and leaves every other entry alone |
| Voxels.RankIds | dicom2fem/seg2fem.py:255-256 | every marked position gets its rank, every other keeps the default |
| Voxels.NumberNodes | dicom2fem/seg2fem.py:249-256 | node ids are `DenseIds(marks)`; node coordinates are the marked grid points in id order |
| Voxels.NodePointsMatchIds | dicom2fem/seg2fem.py:249-256 | node `id` sits at the grid point it was numbered from; distinct nodes sit at distinct points |
| Voxels.VolumeElemsValid | dicom2fem/seg2fem.py:266-271 | one element per occupied voxel (4 corners in 2-D, 8 in 3-D), every corner id in `[0, nnod)` |
| Voxels.VolumeElemsGeometry | dicom2fem/seg2fem.py:305-314 | corner `j` of element `k` is the node at `voxel_k + Corners[j]` |
| SurfaceFaces.FaceTablesAreCorners | dicom2fem/seg2fem.py:320-361 | every face corner is a corner of its voxel |
| SurfaceFaces.ScatterLowFaces | dicom2fem/seg2fem.py:320-363 | on any axis `d` (the x, y and z passes at 320-323, 337-340 and 354-357), after the loop, `fc` holds each occupied voxel's low face at its own position and zero elsewhere |
| SurfaceFaces.ScatterHighFaces | dicom2fem/seg2fem.py:320-363 | on any axis `d` (lines 324-327, 341-344 and 358-361), the high faces are written one step along the axis, over any low face there |
| SurfaceFaces.CountLow | dicom2fem/seg2fem.py:320-363 | on any axis `d` (lines 328, 345 and 362), `nn[v] = 1` for every occupied voxel `v` |
| SurfaceFaces.CountHigh | dicom2fem/seg2fem.py:320-363 | on any axis `d` (lines 329, 346 and 363), `nn[v + e_d] += 1` for every occupied voxel `v` |
| SurfaceFaces.AccumulatorsAtEnd | dicom2fem/seg2fem.py:320-363 | on any axis `d`, the count is 1 exactly where one of the two voxels a position separates is occupied, and `fc` holds that voxel's face there |
| SurfaceFaces.ClearAccumulators | dicom2fem/seg2fem.py:335-336 | `fill(0)` zeroes `fc` and `nn` |
| SurfaceFaces.CollectOnce | dicom2fem/seg2fem.py:331-332 | `fc[nn == 1]` is the axis's boundary faces in row-major order |
| SurfaceFaces.AxisPass | dicom2fem/seg2fem.py:319-332 | one axis pass on cleared accumulators yields `AxisFaces`, and leaves in `fc` and `nn` the end state of `AccumulatorsAtEnd` |
| SurfaceFaces.AxisFacesExact | dicom2fem/seg2fem.py:317-366 | a position carries a face iff exactly one of its two voxels is occupied; faces come in row-major order |
| SurfaceFaces.SurfaceElems | dicom2fem/seg2fem.py:317-368 | the 3-D surface cells are the x faces, then y, then z |
| SurfaceFaces.SurfaceCellsIdsBelow | dicom2fem/seg2fem.py:317-368 | every surface cell is a quadrilateral of node ids in `[0, nnod)` |
| SurfaceCounts.SurfaceSize | dicom2fem/seg2fem.py:331-368 | the number of surface cells is the number of boundary positions over the three axes |
| SurfaceCounts.OneVoxelFaces | dicom2fem/seg2fem.py:317-368 | a single voxel gives 6 faces |
| SurfaceCounts.TwoVoxelFaces | dicom2fem/seg2fem.py:317-368 | two voxels side by side give 10 faces (the 2 shared faces are dropped) |
| SurfaceCounts.FaceReferenced | dicom2fem/seg2fem.py:331-368 | every corner of the face at a boundary position is named by some surface cell |
| SurfaceCounts.SurfaceEntryCorner | dicom2fem/seg2fem.py:317-368 | every id a surface cell names is the node at a corner of an occupied voxel |
| SurfaceCounts.NodesListed | dicom2fem/seg2fem.py:317-388 | if the corners of the occupied voxels sit at `n` increasing grid positions and all lie on the surface, compaction keeps exactly `n` nodes |
| SurfaceCounts.OneVoxelNodes | dicom2fem/seg2fem.py:317-388 | the surface of one voxel uses its 8 corner nodes and no other |
| SurfaceCounts.TwoVoxelNodes | dicom2fem/seg2fem.py:317-388 | the surface of two voxels side by side uses their 12 corner nodes and no other |
| SurfaceCounts.OneVoxelSurfaceMesh | dicom2fem/seg2fem.py:218-398 | surface meshing of one voxel succeeds with 8 nodes and 6 quadrilaterals, or 12 triangles when split |
| SurfaceCounts.TwoVoxelSurfaceMesh | dicom2fem/seg2fem.py:218-398 | surface meshing of two voxels side by side succeeds with 12 nodes and 10 quadrilaterals, or 20 triangles |
| Compaction.MarkReferenced | dicom2fem/seg2fem.py:374-377 | `aux` marks exactly the nodes some cell names |
| Compaction.RemapColumns | dicom2fem/seg2fem.py:387-388 | rewriting column by column sends every id through `aux` |
| Compaction.MapIdsAgree | dicom2fem/seg2fem.py:384-388 | lookup tables that agree on referenced nodes rewrite the cells alike |
| Compaction.CompactNodes | dicom2fem/seg2fem.py:373-388 | coordinates are filtered to the referenced nodes; cells are rewritten with their dense ids |
| Compaction.CompactIdsInRange | dicom2fem/seg2fem.py:379-388 | after compaction every id lies in `[0, nnod)` of the surviving nodes |
| Compaction.CompactKeepsOnlyReferenced | dicom2fem/seg2fem.py:379-388 | every surviving node is named by some cell |
| Compaction.CompactPreservesOrder | dicom2fem/seg2fem.py:384-388 | renumbering preserves the order and the equality of old ids |
| Compaction.CompactKeepsGeometry | dicom2fem/seg2fem.py:385-388 | every cell corner keeps its coordinates |
| VoxelMesh.Elements | dicom2fem/seg2fem.py:262-388 | the cells before splitting are valid, name existing nodes, and have the width and element dimension of the mode |
| VoxelMesh.GenMeshFromVoxels | dicom2fem/seg2fem.py:218-398 | the method's result equals `GenMesh`, error paths included; `etype` defaults to `'q'` and `mtype` to `'v'` |
| VoxelMesh.GenMeshOutcome | dicom2fem/seg2fem.py:263-396 | fails iff not (2-D `'v'` or 3-D `'v'`/`'s'`), with the first error the code raises; otherwise a well-formed mesh of the expected cell type |
| VoxelMesh.VolumeMeshSize | dicom2fem/seg2fem.py:266-314 | a volumetric mesh keeps every node and has one element per occupied voxel, times 2 or 6 when split |
| VoxelMesh.VolumeMeshGeometry | dicom2fem/seg2fem.py:266-314 | each unsplit element's corners are the nodes at its voxel's corners |
| VoxelMesh.SurfaceMeshNodes | dicom2fem/seg2fem.py:373-391 | a surface mesh keeps exactly the referenced nodes, and every point is used by some cell |
| VoxelMesh.SurfaceMeshSize | dicom2fem/seg2fem.py:317-391 | a surface mesh has one cell per boundary face, two when split |
| Smoothing.Tags | dicom2fem/seg2fem.py:176-180 | one hierarchy tag per node |
| Smoothing.ForwardExact | dicom2fem/seg2fem.py:183-187 | the first half holds `(a, b)` iff `(a, b)` is an edge and `tag[b] >= tag[a]` |
| Smoothing.BackwardExact | dicom2fem/seg2fem.py:188-190 | the second half holds `(a, b)` iff `(b, a)` is an edge and `tag[b] >= tag[a]` |
| Smoothing.CostEntryExact | dicom2fem/seg2fem.py:183-192 | entry `(a, b)` exists iff `{a, b}` is an edge and `tag[b] >= tag[a]` |
| Smoothing.UnconstrainedSymmetric | dicom2fem/seg2fem.py:179-192 | without `bconstr` every edge is entered in both directions, and the graph is symmetric |
| Smoothing.BoundaryIgnoresInterior | dicom2fem/seg2fem.py:179-192 | with `bconstr` a boundary node has no entry towards an interior node |
| Smoothing.CountPositive | dicom2fem/seg2fem.py:193-195 | a cost is positive iff its entry exists (`coo_matrix` sums duplicates) |
| Smoothing.SumDivided | dicom2fem/seg2fem.py:199-204 | dividing a row by `s` divides its sum by `s` |
| Smoothing.SumNonnegative | dicom2fem/seg2fem.py:199-204 | a non-negative row has a non-negative sum bounding each entry |
| Smoothing.NormaliseRows | dicom2fem/seg2fem.py:199-204 | a normalised row sums to 1, or to 0 when it had no entries; every weight lies in `[0, 1]` |
| Smoothing.WeightsRowSum | dicom2fem/seg2fem.py:174-204 | each weight row sums to 1 when its node has cost entries and to 0 otherwise; weights lie in `[0, 1]` |
| Smoothing.WeightsSupport | dicom2fem/seg2fem.py:174-204 | `w[a][b] != 0` iff `(a, b)` is a cost entry |
| Smoothing.MoveAll | dicom2fem/seg2fem.py:139-142 | the in-place update adds `f * displ` to every row |
| Smoothing.Taubin | dicom2fem/seg2fem.py:133-144 | equals `TaubinSpec` (`lam` on even, `mu` on odd steps); `n_iter = 0` returns the input |
| Smoothing.LaplacianOfConstant | dicom2fem/seg2fem.py:126-131 | with unit row sums, coincident nodes have zero displacement |
| Smoothing.TaubinKeepsConstant | dicom2fem/seg2fem.py:126-144 | ... so Taubin smoothing leaves them in place for any number of iterations |
| Smoothing.ZeroRowDisplacement | dicom2fem/seg2fem.py:126-131 | a node with a zero weight row is displaced by minus its position |
| Smoothing.SmoothMesh | dicom2fem/seg2fem.py:88-206 | smoothing runs `taubin` on the given weights, or else on the normalised cost graph; the defaults are 4 iterations, `lam = 0.6307`, `mu = -0.6347`, no weights, `bconstr` set |
| Weld.BelowMembers | dicom2fem/seg2fem.py:415 | `ii[ii < tree.n]` keeps exactly the listed entries below `n` |
| Weld.InsertMultiset | dicom2fem/seg2fem.py:416 | insertion adds exactly one element |
| Weld.SortMultiset | dicom2fem/seg2fem.py:416 | sorting is a permutation |
| Weld.SortSorted | dicom2fem/seg2fem.py:416 | the sorted key is ordered |
| Weld.SortedUnique | dicom2fem/seg2fem.py:416-417 | two sorted sequences with the same elements are equal |
| Weld.KeyMembers | dicom2fem/seg2fem.py:414-417 | a key lists exactly the existing neighbours |
| Weld.KeyEqual | dicom2fem/seg2fem.py:414-417 | two vertices get the same key iff they have the same existing neighbours with multiplicity, in any order |
| Weld.CollectKeys | dicom2fem/seg2fem.py:413-417 | `uniq` is the set of all keys, each naming vertices only |
| Weld.KeySetMembers | dicom2fem/seg2fem.py:413-417 | a key is in `uniq` iff some vertex has it |
| Weld.WriteGroup | dicom2fem/seg2fem.py:424 | `ntri[idxs] = ii` sets exactly the listed vertices |
| Weld.RelabelLastWriter | dicom2fem/seg2fem.py:419-424 | a vertex gets the id of the last group listing it, or keeps 1 |
| Weld.RelabelDisjoint | dicom2fem/seg2fem.py:422-424 | with disjoint keys every listed vertex gets its key's group id |
| Weld.NumberGroups | dicom2fem/seg2fem.py:419-424 | numbering fails only at an empty key; otherwise every key is numbered once, `ntri` is `Relabel`, and `ncoors[g]` is the first vertex of key `g` |
| Weld.WeldVertices | dicom2fem/seg2fem.py:413-427 | fails iff some vertex has an empty key; otherwise the groups enumerate `uniq` and the mesh is `WeldMesh` |
| Weld.EnumeratesCount | dicom2fem/seg2fem.py:420 | the welded mesh has one node per distinct key |
| Weld.Reshape | dicom2fem/seg2fem.py:427 | the relabelled corners form `nel` cells of `nnd` nodes |
| Weld.VertexGroup | dicom2fem/seg2fem.py:419-424 | a vertex among its own neighbours is relabelled with the id of a group that lists it |
| Weld.WeldWellFormed | dicom2fem/seg2fem.py:426-427 | with triangles and every vertex among its own neighbours, the welded mesh is well formed |

## Left out

- `dicom2fem/viewer.py`, `main` and the command line (`seg2fem.py:451-486`): user interface, file loading and writing.
- The gmsh re-meshing branch (`seg2fem.py:430-446`): temporary files and an external process.
- `marching_cubes` and the kd-tree query (`seg2fem.py:405-411`), including the `eps` bound: foreign numeric code. The per-vertex neighbour lists are an input of `Weld.WeldVertices`.
- `set_nodemtx` and `get_snodes_uedges` live in `genfem_base`, which is not part of this model. The node mask is an input, required to mark every corner of every occupied voxel. The surface nodes and the edge list are inputs of `Smoothing.SmoothMesh`.
- `meshio.Mesh` is a record of points, one cell kind and one cell block.
- `get_volume` and the volume correction (`seg2fem.py:146-169, 208-213`): floating-point determinants.
- Scaling by the voxel size `dims` (`seg2fem.py:252`): node coordinates are integer grid points.
- `Smoothing.SmoothMesh` requires, when it builds the weights with `bconstr` set, that every surface node names an existing node, as `get_snodes_uedges` provides. The `IndexError` of `node_group[sndi] = 4` (line 180) on a larger id is not modelled.
- `Smoothing.Taubin` uses exact rationals (`real`) where the code uses doubles, and dense matrices where it uses sparse ones.
- Integer widths: `int32` ids and `int8` counts are unbounded integers. Counts never exceed 2, and ids stay below the number of nodes.
- `Weld.WeldVertices` leaves the iteration order of the set `uniq` open as a ghost output `groups`. Its contract holds for every order, but says nothing about which order Python picks.
- `Weld.WeldVertices` takes the neighbour lists from the caller and does not assume that each vertex lists itself. `Weld.WeldWellFormed` adds that assumption and does not check it. The query (`k=24`, `distance_upper_bound=eps`, line 411) returns a vertex in its own list when `eps > 0` and at most 23 other vertices coincide with it, since the vertex lies at distance 0 from itself; more coincident vertices can push it out of its 24 nearest.
- The `output` print helper and `my_types`, the reverse of `meshio_types`, are used only by parts left out above.
