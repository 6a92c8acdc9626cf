# fealpy mesh topology in Dafny

This project models the integer topology engine of fealpy's unstructured
meshes:

- **The two-dimensional data structure** (`Mesh2dDataStructure`,
  `Mesh2d.entity` and the `number_of_*` counts, in fealpy/mesh/Mesh2d.py).
  - `construct` sorts the vertex pair of every (cell, local edge) slot.
  - It deduplicates those pairs with the contract of NumPy's
    `unique(axis=0, return_index, return_inverse)`.
  - It then scatters the result into the edge array and the four-column
    `edge2cell` table: left cell, right cell, left slot, right slot.
  - Every query derives from those two arrays: `cell_to_edge`,
    `cell_to_edge_sign`, `cell_to_cell`, `cell_to_node`, `edge_to_node`,
    `node_to_edge`, `node_to_cell`, `node_to_node` and the boundary flags
    and indices.
  - `EdgeTable` states what `construct` produces without saying how it is
    computed. Every edge is a distinct sorted vertex pair of `total_edge`.
    Its left side is the first place the pair occurs and its right side
    the last. The queries are proved against this characterisation.
- **The tetrahedral mesh** (`TetrahedronMesh` in
  fealpy/mesh/TetrahedronMesh.py).
  - The constant local tables.
  - `label`, which permutes cell rows in place so that a chosen local
    edge sits in columns 0 and 1.
  - `bisect`: a `while` loop over over-allocated buffers. It keeps a
    ledger of cut edges and their midpoints, reuses midpoints, records node
    generations as `uint8`, splits each marked cell in two, and marks for
    the next round every cell that holds both ends of a still
    non-conforming cut edge.
  - `uniform_bisect`.
  - `uniform_refine`: the 8-way split driven by `cell_to_edge`.
  - `delete_cell`: drops cells and compacts and renumbers the nodes.

Node coordinates are `real` triples, and a midpoint is the exact mean of
its ends. The geometric decisions are inputs:

- the longest edge of a cell in `label`, given as a `choose` function;
- the shortest interior diagonal in `uniform_refine`, given as `diag`;
- the threshold's verdict on each barycenter in `delete_cell`, given as
  `isDeleted`.

The imperative code is imperative Dafny, proved against specification
functions over sequences:

- `bisect` writes into `array` buffers, one method per step of a round
  (`TetBisectArrays`). Each step is proved equal to the function that
  specifies it (`TetBisect.Round`, `TetBisect.Run`, `TetBisect.Bisected`).
- `label` permutes an `array` of rows in place.
- `uniform_refine` fills the new cell array block by block.
- `construct` scatters `i1` through an array.
- The mesh classes hold the node coordinates and the cells as fields.
  Their methods replace those fields and rebuild the edges, as `reinit`
  does.

Modules, in dependency order:

- `UniqueRow`: NumPy's `unique` on rows.
- `Arith`: row-major positions.
- `ArrayOps`: `nonzero`, last-write-wins scatter, CSR rows.
- `Mesh2dTopology`
- `TetTables`
- `TetTopology`: tetrahedral edges, `cell_to_edge`, `label`.
- `TetBisect`
- `TetBisectArrays`
- `TetRefine`
- `TetDelete`
- `TetMesh`: the classes of TetrahedronMesh.py.

## Model

| member | source | states |
|---|---|---|
| UniqueRow.UniqueRows | fealpy/mesh/Mesh2d.py:256 | `unique_row`: the keys are strictly increasing and are exactly the distinct rows; `first[e]` is the first row equal to key `e`; `inverse[k]` is the key of row `k` |
| UniqueRow.InverseExact | fealpy/mesh/Mesh2d.py:256 | the inverse map sends row `k` to key `e` exactly when row `k` equals key `e` |
| UniqueRow.KeyCountIsDistinctRows | fealpy/mesh/Mesh2d.py:256-258 | the number of keys is the number of distinct rows |
| UniqueRow.StrictlySortedCard | fealpy/mesh/Mesh2d.py:256-258 | a strictly sorted key list has as many members as entries |
| ArrayOps.Nonzero | fealpy/mesh/Mesh2d.py:485-498 | `np.nonzero(flag)`: increasing, and holds exactly the positions whose flag is set |
| ArrayOps.RankFinds | fealpy/mesh/TetrahedronMesh.py:70-71 | a set flag's rank is its place in `nonzero`, so `idxMap[isValidNode] = range(sum)` inverts `nonzero` |
| ArrayOps.RankOfNonzero | fealpy/mesh/TetrahedronMesh.py:70-71 | the rank of the `k`-th set position is `k` |
| ArrayOps.LastMatch | fealpy/mesh/Mesh2d.py:261-262 | a fancy-index scatter with repeated targets keeps the last write: present exactly when `x` occurs, and no later entry equals `x` |
| ArrayOps.LastMatchIsLast | fealpy/mesh/Mesh2d.py:261-262 | the last occurrence of `x` is the one `LastMatch` finds |
| ArrayOps.RowOf | fealpy/mesh/Mesh2d.py:413-419 | a CSR row of a relation: increasing, and holds exactly the related columns below `n` |
| ArrayOps.CsrRow | fealpy/mesh/Mesh2d.py:413-419 | `(adj, adjLocation)`: `adjLocation` starts at 0, and row `i` of `adj` is that CSR row, its length the row's degree |
| Mesh2dTopology.SortPair | fealpy/mesh/Mesh2d.py:247-248 | `np.sort(axis=1)` of one pair: ascending, and the same two vertices |
| Mesh2dTopology.TotalEdge | fealpy/mesh/Mesh2d.py:241-248 | `total_edge()` has `E * NC` rows |
| Mesh2dTopology.TotalEdgeAt | fealpy/mesh/Mesh2d.py:241-248 | row `c * E + l` of `total_edge` is local edge `l` of cell `c`, sorted |
| Mesh2dTopology.LastIndexOf | fealpy/mesh/Mesh2d.py:261-262 | `i1[e]` after `i1[j] = arange(E*NC)`: the last `k` with `j[k] == e` |
| Mesh2dTopology.SplitPlace | fealpy/mesh/Mesh2d.py:264-267 | the four `edge2cell` columns `i0//E, i1//E, i0%E, i1%E` place the left side at `i0` and the right side at `i1` |
| Mesh2dTopology.EdgeCellAt | fealpy/mesh/Mesh2d.py:256-267 | row `e` of `edge2cell` has its left side at the first occurrence and its right side at the last occurrence of key `e` |
| Mesh2dTopology.EdgeToCell | fealpy/mesh/Mesh2d.py:256-267 | `edge2cell` has one row per distinct key |
| Mesh2dTopology.Orient | fealpy/mesh/Mesh2d.py:271-274 | `edge` has one row per row of `edge2cell` |
| Mesh2dTopology.ConstructRow | fealpy/mesh/Mesh2d.py:256-269 | each `edge2cell` row names existing cells and slots, the key at its left side is the edge's key, and its sides are the first and last occurrences |
| Mesh2dTopology.ConstructIsEdgeTable | fealpy/mesh/Mesh2d.py:250-274 | `construct` meets `EdgeTable`, and the keys at the left sides are the deduplicated keys in order |
| Mesh2dTopology.ConstructedIsWf | fealpy/mesh/Mesh2d.py:250-274 | the topology `construct` leaves is well formed |
| Mesh2dTopology.SplitPlaces | fealpy/mesh/Mesh2d.py:264-267 | the columnwise split of `i0` and `i1` places every row's sides at `i0[e]` and `i1[e]` |
| Mesh2dTopology.SplitIsEdgeToCell | fealpy/mesh/Mesh2d.py:259-267 | splitting the first indices and the scattered `i1` gives `EdgeToCell` |
| Mesh2dTopology.ScatterLast | fealpy/mesh/Mesh2d.py:261-262 | the scatter loop `i1[j] = arange(E*NC)` leaves in `i1[e]` the last position of key `e` |
| Mesh2dTopology.Mesh2dDataStructure.constructor | fealpy/mesh/Mesh2d.py:219-223 | `__init__(N, cell)` stores `N` and the cells and constructs a well-formed edge table |
| Mesh2dTopology.Mesh2dDataStructure.Reinit | fealpy/mesh/Mesh2d.py:225-229 | `reinit` replaces `N`, `NC` and the cells and constructs the edge table again |
| Mesh2dTopology.Mesh2dDataStructure.Clear | fealpy/mesh/Mesh2d.py:231-233 | `clear` drops `edge` and `edge2cell` and touches nothing else |
| Mesh2dTopology.Mesh2dDataStructure.Construct | fealpy/mesh/Mesh2d.py:250-274 | `construct` keeps `N` and the cells and leaves `edge2cell == EdgeToCell` and a well-formed topology |
| Mesh2dTopology.KeysDistinct | fealpy/mesh/Mesh2d.py:256-259 | two edges with the same key are the same edge |
| Mesh2dTopology.KeyCovered | fealpy/mesh/Mesh2d.py:256-259 | every pair of `total_edge` is the key of some edge |
| Mesh2dTopology.SidesAreFirstAndLast | fealpy/mesh/Mesh2d.py:259-269 | every occurrence of an edge's key lies between its left and right sides, and the right side holds the key |
| Mesh2dTopology.SingleOccurrenceIsOneSided | fealpy/mesh/Mesh2d.py:263-269 | a key occurring once gives equal left and right cells and slots |
| Mesh2dTopology.DoubleOccurrenceIsTwoSided | fealpy/mesh/Mesh2d.py:263-269 | a key occurring exactly twice has its right side at the other occurrence |
| Mesh2dTopology.DistinctLocalKeys | fealpy/mesh/Mesh2d.py:241-248 | in a cell with distinct vertices, two local edges of a simple template have different keys |
| Mesh2dTopology.OneSidedIsSingleOccurrence | fealpy/mesh/Mesh2d.py:469-471 | an edge whose left and right cells agree occurs once in `total_edge` (cells with distinct vertices) |
| Mesh2dTopology.BoundaryIffSingleOccurrence | fealpy/mesh/Mesh2d.py:469-471 | `boundary_edge_flag`: left cell equals right cell exactly when the key occurs once |
| Mesh2dTopology.EdgeMatchesKey | fealpy/mesh/Mesh2d.py:271-274 | `edge[e]` is the local edge of its left cell at its left slot, oriented as there, and its sorted form is its key |
| Mesh2dTopology.EdgeCountIsDistinctPairs | fealpy/mesh/Mesh2d.py:256-259 | `NE` is the number of distinct sorted vertex pairs |
| Mesh2dTopology.EdgesAreDistinctPairs | fealpy/mesh/Mesh2d.py:250-274 | a sorted pair occurs in `total_edge` exactly when some edge sorts to it |
| Mesh2dTopology.SlotOwner | fealpy/mesh/Mesh2d.py:299-303 | no two edges own the same (cell, slot), so the two scatters of `cell_to_edge` do not collide |
| Mesh2dTopology.SlotWriterAtSide | fealpy/mesh/Mesh2d.py:299-303 | the surviving write at a side of edge `e` is `e`'s, the right-side write winning |
| Mesh2dTopology.CellToEdge | fealpy/mesh/Mesh2d.py:299-303 | dense `cell_to_edge` is `NC` by `E` |
| Mesh2dTopology.CellToEdgeSign | fealpy/mesh/Mesh2d.py:317-320 | dense `cell_to_edge_sign` is `NC` by `E` |
| Mesh2dTopology.CellToCell | fealpy/mesh/Mesh2d.py:338-342 | dense `cell_to_cell` is `NC` by `E` |
| Mesh2dTopology.SidesFit | fealpy/mesh/Mesh2d.py:264-267 | both sides of an edge name existing cells and slots |
| Mesh2dTopology.SlotOfSide | fealpy/mesh/Mesh2d.py:299-342 | at a side of edge `e`, `cell_to_edge` is `e` and `cell_to_cell` is the cell at the other side |
| Mesh2dTopology.TablesAtSlot | fealpy/mesh/Mesh2d.py:299-342 | each entry of `cell_to_edge` and `cell_to_cell` is given by the write that survives at its slot |
| Mesh2dTopology.CellToEdgeRoundTrip | fealpy/mesh/Mesh2d.py:299-303 | `cell2edge[edge2cell[e,0], edge2cell[e,2]] == e` and `cell2edge[edge2cell[e,1], edge2cell[e,3]] == e` |
| Mesh2dTopology.CellToCellAcrossEdge | fealpy/mesh/Mesh2d.py:338-342 | `cell2cell` at each side of an edge is the cell at its other side, so a boundary edge's cell names itself |
| Mesh2dTopology.SignIsLeftSide | fealpy/mesh/Mesh2d.py:317-320 | `cell_to_edge_sign[c, l]` is true exactly where some edge has its left side |
| Mesh2dTopology.LeftSideIsFirst | fealpy/mesh/Mesh2d.py:259-267 | a left side is the first occurrence of its key |
| Mesh2dTopology.FirstIsLeftSide | fealpy/mesh/Mesh2d.py:259-267 | a first occurrence is some edge's left side |
| Mesh2dTopology.LeftSideIsFirstOccurrence | fealpy/mesh/Mesh2d.py:259-267 | a slot is a left side if and only if it is the first occurrence of its key |
| Mesh2dTopology.CellToEdgeSignAtFirstOccurrence | fealpy/mesh/Mesh2d.py:313-320 | the sign is true exactly at the first occurrence of a key in `total_edge` |
| Mesh2dTopology.SlotIsCovered | fealpy/mesh/Mesh2d.py:299-303 | in a mesh where no key occurs more than twice, every slot is a side of some edge |
| Mesh2dTopology.CellToEdgeIsInverse | fealpy/mesh/Mesh2d.py:299-303 | in such a mesh, `cell_to_edge[c, l]` is the edge whose key is local edge `l` of cell `c` |
| Mesh2dTopology.CellToEdgeRelation | fealpy/mesh/Mesh2d.py:304-311 | sparse `cell_to_edge`: cell `c` and edge `e` are related exactly when `c` is a side of `e` |
| Mesh2dTopology.CellToEdgeRelationMatchesDense | fealpy/mesh/Mesh2d.py:290-311 | in such a mesh, the sparse relation holds exactly where the dense table has `e` in row `c` |
| Mesh2dTopology.CellToNode | fealpy/mesh/Mesh2d.py:276-288 | `cell_to_node`: on cells whose nodes are below `N`, as the `(NC, N)` shape demands, cell `c` is related to exactly its vertices, all below `N` |
| Mesh2dTopology.EdgeEndsFit | fealpy/mesh/Mesh2d.py:250-274 | when every cell names nodes below `N`, so does every edge `construct` builds, so the edge-based queries cannot raise |
| Mesh2dTopology.EdgeToNode | fealpy/mesh/Mesh2d.py:372-385 | `edge_to_node(sparse=True)`: on edges whose ends are below `N`, as the `(NE, N)` shape demands, edge `e` is related to exactly its two ends |
| Mesh2dTopology.NodeToEdge | fealpy/mesh/Mesh2d.py:429-438 | `node_to_edge` is the transpose of `edge_to_node` |
| Mesh2dTopology.NodeToCell | fealpy/mesh/Mesh2d.py:440-458 | `node_to_cell` is the transpose of `cell_to_node` |
| Mesh2dTopology.NodeToNode | fealpy/mesh/Mesh2d.py:403-412 | on edges whose ends are below `N`, `node_to_node` is symmetric, two nodes are related exactly when an edge joins them, and both are below `N` |
| Mesh2dTopology.EdgeIsLocalEdge | fealpy/mesh/Mesh2d.py:403-412 | every edge is a local edge of some cell |
| Mesh2dTopology.LocalEdgeIsEdge | fealpy/mesh/Mesh2d.py:271-274 | every local edge of every cell is an edge, in one orientation or the other |
| Mesh2dTopology.NodeToNodeIsCellAdjacency | fealpy/mesh/Mesh2d.py:403-412 | two nodes are adjacent exactly when some cell has them as the ends of a local edge |
| Mesh2dTopology.NodeToNodeDegree | fealpy/mesh/Mesh2d.py:413-419 | `node_to_node(return_array=True)`: `adjLocation[0] == 0`, and `adjLocation[i+1] - adjLocation[i]` is the degree of node `i`, whose neighbours, all of them, are listed in increasing order |
| Mesh2dTopology.CellToCellRelation | fealpy/mesh/Mesh2d.py:343-362 | sparse `cell_to_cell`: symmetric, without self-loops when boundary edges are excluded, and relating exactly the two sides of some (interior) edge |
| Mesh2dTopology.CellToCellDegree | fealpy/mesh/Mesh2d.py:328-370 | `cell_to_cell(return_array=True)`: `adjLocation[0] == 0`, and row `c` lists in increasing order exactly the cells sharing an interior edge with `c` |
| Mesh2dTopology.BoundaryEdgeFlag | fealpy/mesh/Mesh2d.py:469-471 | `boundary_edge_flag` has one flag per edge |
| Mesh2dTopology.BoundaryEdgeIndex | fealpy/mesh/Mesh2d.py:469-493 | `boundary_edge_index`: increasing, and exactly the edges whose left and right cells agree |
| Mesh2dTopology.Endpoints | fealpy/mesh/Mesh2d.py:465-466 | `edge[idx, :]` as a set: exactly the ends of the selected edges |
| Mesh2dTopology.BoundaryNodeFlag | fealpy/mesh/Mesh2d.py:461-467 | on edges whose ends are below `N` (otherwise the scatter raises), `boundary_node_flag` is set exactly at the ends of boundary edges, and every such end is below `N` |
| Mesh2dTopology.BoundaryNodeIndex | fealpy/mesh/Mesh2d.py:485-488 | `boundary_node_index`: increasing, and exactly the ends of boundary edges, with none dropped |
| Mesh2dTopology.BoundaryCellFlag | fealpy/mesh/Mesh2d.py:477-483 | `boundary_cell_flag` is set exactly at the left cells of boundary edges |
| Mesh2dTopology.BoundaryCellIndex | fealpy/mesh/Mesh2d.py:495-498 | `boundary_cell_index`: increasing, and exactly the left cells of boundary edges |
| Mesh2dTopology.BoundaryEdges | fealpy/mesh/Mesh2d.py:473-475 | `boundary_edge()` lists the boundary edges' rows, in edge order |
| Mesh2dTopology.Mesh2d.EntityRows | fealpy/mesh/Mesh2d.py:93-101 | `entity(dim)` raises exactly for `dim` outside 0..2, and otherwise has as many rows as `number_of_nodes`, `number_of_edges` or `number_of_cells` |
| Mesh2dTopology.Mesh2d.EdgesOfCellsIsE | fealpy/mesh/Mesh2d.py:24-25 | `Mesh2d.number_of_edges_of_cells` returns the vertex count; for a polygon template, with as many edges as vertices, this equals `E` |
| TetTables.LabelPerm | fealpy/mesh/TetrahedronMesh.py:290-308 | each of `label`'s column orders is a permutation of 0..3 |
| TetTables.LocalFaceIsOpposite | fealpy/mesh/TetrahedronMesh.py:9 | `localFace[i]` holds the three vertices other than `i`, and `i` followed by them is an even permutation |
| TetTables.FaceEdgeIsOpposite | fealpy/mesh/TetrahedronMesh.py:9-11 | `localFace2edge[i][k]` is the edge of face `i` that joins its two vertices other than its `k`-th |
| TetTables.IndexRows | fealpy/mesh/TetrahedronMesh.py:12-16 | every row of `index` is an even permutation of 0..3, and row `3 i` starts with vertex `i` |
| TetTables.IndexRowsDistinct | fealpy/mesh/TetrahedronMesh.py:12-16 | the twelve rows of `index` are distinct |
| TetTables.LabelPermsAreEven | fealpy/mesh/TetrahedronMesh.py:290-308 | the five column orders of `label` are even permutations, so relabelling keeps a cell's orientation |
| TetTables.LabelPermLeadsWithEdge | fealpy/mesh/TetrahedronMesh.py:290-308 | the order for local edge `l` puts `l`'s two vertices first |
| TetTables.PermuteKeepsVertices | fealpy/mesh/TetrahedronMesh.py:290-308 | a permuted row holds each vertex as often as the old row |
| TetTables.SameVerticesMembers | fealpy/mesh/TetrahedronMesh.py:290-308 | a reordered row holds each entry of the other |
| TetTopology.Midpoint | fealpy/mesh/TetrahedronMesh.py:396 | the midpoint is equidistant from both ends in every coordinate |
| TetTopology.TetTemplate | fealpy/mesh/TetrahedronMesh.py:10-18 | the tetrahedron template: four vertices and the six local edges |
| TetTopology.Edges | fealpy/mesh/TetrahedronMesh.py:475 | the edges of the tetrahedra: one per `edge2cell` row of the six-edge template |
| TetTopology.CellToEdge | fealpy/mesh/TetrahedronMesh.py:477 | `cell_to_edge()` is `NC` by 6 |
| TetTopology.CellToEdgeJoins | fealpy/mesh/TetrahedronMesh.py:477 | `cell2edge[c, l]` is the edge whose ends are `cell[c, localEdge[l]]` |
| TetTopology.CellToEdgeBelow | fealpy/mesh/TetrahedronMesh.py:477-484 | every entry of `cell2edge` is an edge number below `NE` |
| TetTopology.LabelClass | fealpy/mesh/TetrahedronMesh.py:290-308 | one `flag = lidx == f` statement keeps the row count, and every row stays a tetrahedron |
| TetTopology.Labelled | fealpy/mesh/TetrahedronMesh.py:290-308 | the five statements keep the row count, and every row stays a tetrahedron |
| TetTopology.LabelKeepsVertices | fealpy/mesh/TetrahedronMesh.py:290-308 | every relabelled row is a permutation of its old row |
| TetTopology.LabelLeavesOthers | fealpy/mesh/TetrahedronMesh.py:290-308 | rows not in `cellidx`, and rows whose `lidx` is 0, are unchanged |
| TetTopology.LabelSelectedOnce | fealpy/mesh/TetrahedronMesh.py:290-308 | a row selected once ends up permuted by its own edge's order if that edge is among those applied so far, and unchanged otherwise |
| TetTopology.LabelMovesEdgeFirst | fealpy/mesh/TetrahedronMesh.py:288-308 | after `label`, a row selected once has the ends of its chosen local edge in columns 0 and 1 and holds the same vertices |
| TetTopology.LabelClassStep | fealpy/mesh/TetrahedronMesh.py:290-292 | one more selected position reorders its cell if it chose `f`, and nothing else |
| TetTopology.LabelRows | fealpy/mesh/TetrahedronMesh.py:290-308 | the in-place permutation of the array of rows leaves `Labelled` of the old rows |
| TetTopology.Relabel | fealpy/mesh/TetrahedronMesh.py:256-308 | `label` on a copy of the rows returns `Labelled` |
| TetBisect.LargestMidpoint | fealpy/mesh/TetrahedronMesh.py:369-373 | `p4[j] = i` over `nv2v[:, p0] * nv2v[:, p1]`: none exactly when no flagged cut edge joins `p0` and `p1`, else the largest such midpoint |
| TetBisect.LabelledRowsBelow | fealpy/mesh/TetrahedronMesh.py:348 | relabelling keeps every used row below any node bound |
| TetBisect.Rows | fealpy/mesh/TetrahedronMesh.py:348 | the buffer rows after `label` keep their count and their node bounds |
| TetBisect.Lookup | fealpy/mesh/TetrahedronMesh.py:360-374 | one lookup per marked cell |
| TetBisect.Found | fealpy/mesh/TetrahedronMesh.py:360-374 | the first lookup, among the non-conforming cut edges: one result per marked cell |
| TetBisect.UncutPairs | fealpy/mesh/TetrahedronMesh.py:374-380 | the sorted `(p0, p1)` of exactly the marked cells whose first lookup found nothing |
| TetBisect.UncutPairsBelow | fealpy/mesh/TetrahedronMesh.py:376-380 | those pairs are sorted and name existing nodes |
| TetBisect.Pairs | fealpy/mesh/TetrahedronMesh.py:376-391 | `s.nonzero()` of the sparse pair matrix: strictly sorted, sorted within, and below `NN` |
| TetBisect.PairsMembers | fealpy/mesh/TetrahedronMesh.py:376-391 | the new cut edges are exactly the distinct pairs of the cells that found no midpoint |
| TetBisect.NewCuts | fealpy/mesh/TetrahedronMesh.py:392-395 | writing the new rows of `cutEdge` keeps its size |
| TetBisect.WithMidpoints | fealpy/mesh/TetrahedronMesh.py:396 | writing the new midpoints keeps the size of the node buffer |
| TetBisect.Second | fealpy/mesh/TetrahedronMesh.py:411-419 | the second lookup among the new edges: one result per marked cell |
| TetBisect.P4 | fealpy/mesh/TetrahedronMesh.py:358-419 | `p4`: one midpoint per marked cell |
| TetBisect.MaxGen | fealpy/mesh/TetrahedronMesh.py:423-425 | the largest generation among a cell's four vertices |
| TetBisect.Scattered | fealpy/mesh/TetrahedronMesh.py:421-427 | a node's generation after the scatter is its old one, or a `uint8` value where the old one was 0 |
| TetBisect.NewGeneration | fealpy/mesh/TetrahedronMesh.py:421-427 | the same, for every node |
| TetBisect.SplitRow | fealpy/mesh/TetrahedronMesh.py:428-435 | each row after the first `n` splits has four vertices |
| TetBisect.SplitRows | fealpy/mesh/TetrahedronMesh.py:428-436 | splitting keeps the buffer size, and every row stays a tetrahedron |
| TetBisect.StillNonConforming | fealpy/mesh/TetrahedronMesh.py:457-458 | a cut edge can only stop being non-conforming; edges past `nCut` are untouched |
| TetBisect.NextMarked | fealpy/mesh/TetrahedronMesh.py:439-456 | `np.unique(i)`: increasing, and below the new `NC` |
| TetBisect.NextCut | fealpy/mesh/TetrahedronMesh.py:392-395 | `cutEdge` after the round keeps its size |
| TetBisect.NextNode | fealpy/mesh/TetrahedronMesh.py:396 | `node` after the round keeps its size |
| TetBisect.NextCell | fealpy/mesh/TetrahedronMesh.py:428-436 | `cell` after the round keeps its size, with tetrahedral rows |
| TetBisect.NextGeneration | fealpy/mesh/TetrahedronMesh.py:421-427 | `generation` after the round keeps its size |
| TetBisect.Advance | fealpy/mesh/TetrahedronMesh.py:436-458 | `NC` grows by the number of marked cells, and the cells are the split ones |
| TetBisect.Next | fealpy/mesh/TetrahedronMesh.py:346-458 | one pass keeps the buffer size, and `NC` grows by the number of marked cells |
| TetBisect.Overrun | fealpy/mesh/TetrahedronMesh.py:329-435 | the model reports an error exactly when a write of the round runs past a buffer; NumPy raises in every such case but the one-marked-cell case under Left out |
| TetBisect.Round | fealpy/mesh/TetrahedronMesh.py:346-458 | in the model a pass succeeds exactly when its writes fit, and then gives `Next`; it fails in the one-marked-cell case under Left out, where the source goes on |
| TetBisect.LedgerGrows | fealpy/mesh/TetrahedronMesh.py:392-409 | new cut edges get consecutive midpoint ids from the old `NN`, sorted ends older than the midpoint and the midpoint's coordinates; `NN` and `nCut` both grow by their number |
| TetBisect.SplitRowsBelow | fealpy/mesh/TetrahedronMesh.py:428-436 | every row after the split names nodes below `NN` |
| TetBisect.SplitRowsAt | fealpy/mesh/TetrahedronMesh.py:428-435 | marked cell `(p0,p1,p2,p3)` becomes `(p3,p0,p2,p4)`, and `(p2,p1,p3,p4)` is written at `NC + k` |
| TetBisect.SplitRowsElsewhere | fealpy/mesh/TetrahedronMesh.py:428-435 | an unmarked used cell is unchanged by the split |
| TetBisect.NewPairFound | fealpy/mesh/TetrahedronMesh.py:411-419 | a pair just cut is found again by the second lookup |
| TetBisect.SameEdgeSameSearch | fealpy/mesh/TetrahedronMesh.py:369-373 | the lookup depends only on the unordered pair `{p0, p1}` |
| TetBisect.SearchesResolve | fealpy/mesh/TetrahedronMesh.py:360-419 | after both lookups a cell has a midpoint, and it is the midpoint of a ledger edge joining `p0` and `p1` |
| TetBisect.EveryMarkedCellResolves | fealpy/mesh/TetrahedronMesh.py:360-419 | every marked cell's `p4` is the midpoint of a ledger edge joining its `p0` and `p1` |
| TetBisect.RoundKeepsInv | fealpy/mesh/TetrahedronMesh.py:346-458 | a pass keeps the buffer invariant: the ledger, the node bounds of the used rows, `uint8` generations, and an increasing marked list of used cells |
| TetBisect.RoundChildren | fealpy/mesh/TetrahedronMesh.py:428-435 | after a pass, the two children of marked cell `k` are `(p3,p0,p2,p4)` in place and `(p2,p1,p3,p4)` at `NC + k` |
| TetBisect.ChildVertices | fealpy/mesh/TetrahedronMesh.py:428-435 | counted with multiplicity, each child is its parent with one end of the cut edge traded for `p4` |
| TetBisect.RoundKeepsUnmarked | fealpy/mesh/TetrahedronMesh.py:428-435 | used cells that are not marked are unchanged |
| TetBisect.NewCutsAppend | fealpy/mesh/TetrahedronMesh.py:392-395 | the used ledger after the writes is the old one followed by the new edges |
| TetBisect.MidpointsAppend | fealpy/mesh/TetrahedronMesh.py:396 | the used nodes keep their coordinates |
| TetBisect.RoundNewCuts | fealpy/mesh/TetrahedronMesh.py:376-409 | `NN` and `nCut` grow by the number of new pairs, the ledger is extended by exactly the new edges, and old nodes keep their coordinates |
| TetBisect.RoundReuses | fealpy/mesh/TetrahedronMesh.py:360-374 | a cell whose first lookup found a non-conforming cut edge reuses its midpoint and adds no new pair |
| TetBisect.NoNewEdgeForFound | fealpy/mesh/TetrahedronMesh.py:360-409 | a cell whose pair is among the new pairs, or is joined by a new edge, had found nothing |
| TetBisect.FoundSameEdge | fealpy/mesh/TetrahedronMesh.py:369-373 | two marked cells with the same edge get the same first lookup |
| TetBisect.SameEdgeSameLookup | fealpy/mesh/TetrahedronMesh.py:369-373 | the same, for any flags |
| TetBisect.GenerationKept | fealpy/mesh/TetrahedronMesh.py:421-427 | a node whose generation is nonzero, or which is no `p4`, keeps its generation |
| TetBisect.GenerationOfMidpoint | fealpy/mesh/TetrahedronMesh.py:421-427 | a midpoint of generation 0 gets `1 +` the largest generation of its cell's vertices, modulo 256 (last writer wins) |
| TetBisect.LiveHoldersAgree | fealpy/mesh/TetrahedronMesh.py:439-458 | a cell holds a non-conforming edge before the flags are updated exactly when it does after |
| TetBisect.AdvanceMarks | fealpy/mesh/TetrahedronMesh.py:439-458 | the next marked cells are exactly the used cells holding both ends of a still non-conforming cut edge, and a checked edge stays non-conforming exactly when such a cell exists |
| TetBisect.RoundNextMarked | fealpy/mesh/TetrahedronMesh.py:439-458 | the same, for a whole pass |
| TetBisect.RoundStep | fealpy/mesh/TetrahedronMesh.py:346-458 | a successful pass keeps the invariant, extends the buffers, grows `NC` by the marked count, and leaves a conforming mesh when nothing is marked |
| TetBisect.Choices | fealpy/mesh/TetrahedronMesh.py:348 | one chosen edge per marked cell |
| TetBisect.Run | fealpy/mesh/TetrahedronMesh.py:346 | the loop stops with no cell marked, the invariant kept, and the buffers extended; if anything was marked the result is conforming |
| TetBisect.RunFrom | fealpy/mesh/TetrahedronMesh.py:346-458 | a loop entered with marked cells ends conforming |
| TetBisect.RunStep | fealpy/mesh/TetrahedronMesh.py:346-458 | a successful pass continues the loop from its result |
| TetBisect.RunStops | fealpy/mesh/TetrahedronMesh.py:346-458 | a failing pass ends the loop with its error |
| TetBisect.Start | fealpy/mesh/TetrahedronMesh.py:328-344 | the buffers `bisect` allocates hold the mesh in their used parts and meet the invariant |
| TetBisect.InitialMarked | fealpy/mesh/TetrahedronMesh.py:323-326 | `markedCell`: every cell when no flags are given, else exactly the flagged cells, increasing |
| TetBisect.UsedPartsGrown | fealpy/mesh/TetrahedronMesh.py:461-463 | the used parts of the final buffers keep the old nodes, lose no cell, and name existing nodes |
| TetBisect.Bisected | fealpy/mesh/TetrahedronMesh.py:318-463 | a successful `bisect` keeps the old nodes in place, loses no cell, and every row names existing nodes |
| TetBisect.UniformBisected | fealpy/mesh/TetrahedronMesh.py:314-316 | repeated `bisect()` grows the mesh the same way |
| TetBisect.BisectedThen | fealpy/mesh/TetrahedronMesh.py:314-316 | an error ends the repetition with that error |
| TetBisect.UniformBisectedStep | fealpy/mesh/TetrahedronMesh.py:314-316 | one call: its error ends the repetition, its result starts the rest |
| TetBisectArrays.WriteCuts | fealpy/mesh/TetrahedronMesh.py:392-395 | the rows written into the `cutEdge` array are `NewCuts` |
| TetBisectArrays.WriteMidpoints | fealpy/mesh/TetrahedronMesh.py:396 | the midpoints written into the node array are `WithMidpoints` |
| TetBisectArrays.ScatteredAt | fealpy/mesh/TetrahedronMesh.py:427 | one more scatter write sets node `v` only if it is this cell's `p4` and still of generation 0 |
| TetBisectArrays.ScatteredStep | fealpy/mesh/TetrahedronMesh.py:427 | the same, for the whole array |
| TetBisectArrays.WriteGenerations | fealpy/mesh/TetrahedronMesh.py:421-427 | the generation array after the scatter is `NewGeneration` |
| TetBisectArrays.SplitAt | fealpy/mesh/TetrahedronMesh.py:428-435 | one more split rewrites only the marked row and its appended row |
| TetBisectArrays.SplitStep | fealpy/mesh/TetrahedronMesh.py:428-435 | the same, for the whole array |
| TetBisectArrays.SplitCells | fealpy/mesh/TetrahedronMesh.py:428-436 | the cell array after the split is `SplitRows` |
| TetBisectArrays.UpdateLive | fealpy/mesh/TetrahedronMesh.py:457-458 | the `nonConforming` array after the update is `StillNonConforming` |
| TetBisectArrays.WriteRound | fealpy/mesh/TetrahedronMesh.py:392-436 | the four arrays after one pass's writes are `NextNode`, `NextCell`, `NextGeneration` and `NextCut` |
| TetBisectArrays.CheckEdges | fealpy/mesh/TetrahedronMesh.py:439-458 | the conformity check leaves the buffers `Advance` describes |
| TetBisectArrays.BisectRound | fealpy/mesh/TetrahedronMesh.py:347-458 | one pass on the arrays: the error `Round` gives, or the buffers it gives |
| TetBisectArrays.Allocate | fealpy/mesh/TetrahedronMesh.py:328-344 | the fresh arrays hold `Start` |
| TetBisectArrays.RunRounds | fealpy/mesh/TetrahedronMesh.py:346-458 | the `while` loop on the arrays: the error `Run` gives, or its buffers |
| TetBisectArrays.BisectMesh | fealpy/mesh/TetrahedronMesh.py:318-463 | `bisect` on arrays returns `Bisected` |
| TetBisectArrays.BisectRepeatedly | fealpy/mesh/TetrahedronMesh.py:314-316 | the loop of `bisect()` calls returns `UniformBisected`, and a grown mesh even on an error |
| TetRefine.CornerEdges | fealpy/mesh/TetrahedronMesh.py:488-491 | the three midpoints of corner block `i` lie on local edges through vertex `i` |
| TetRefine.CornerEdgesMeetAtCorner | fealpy/mesh/TetrahedronMesh.py:487-491 | corner block `i` uses three distinct local edges, exactly the ones through vertex `i` |
| TetRefine.DiagonalOrder | fealpy/mesh/TetrahedronMesh.py:502-505 | a row of `T` orders the six local edges |
| TetRefine.DiagonalOrderShape | fealpy/mesh/TetrahedronMesh.py:493-506 | each row of `T` is a permutation of the local edges ending with a pair of opposite edges, the chosen diagonal; the first four form a cycle of adjacent edges around it |
| TetRefine.EdgesBelow | fealpy/mesh/TetrahedronMesh.py:478-480 | every edge names existing nodes |
| TetRefine.RefinedNodes | fealpy/mesh/TetrahedronMesh.py:479-482 | the node count grows by `NE`, and the old nodes stay in place |
| TetRefine.EdgeMidpoint | fealpy/mesh/TetrahedronMesh.py:479-482 | node `N + e` is the midpoint of edge `e` |
| TetRefine.MidpointOfLocalEdge | fealpy/mesh/TetrahedronMesh.py:477-484 | node `N + cell2edge[c, l]` is the midpoint of local edge `l` of cell `c` |
| TetRefine.NewNodesOf | fealpy/mesh/TetrahedronMesh.py:484 | `p = edge2newNode[cell2edge]`: entry `l` is `N + cell2edge[c, l]` |
| TetRefine.Child | fealpy/mesh/TetrahedronMesh.py:486-525 | each child has four vertices |
| TetRefine.RefinedRow | fealpy/mesh/TetrahedronMesh.py:486-525 | each new row has four vertices |
| TetRefine.RefinedCells | fealpy/mesh/TetrahedronMesh.py:486-525 | `newCell` has `8 NC` tetrahedral rows |
| TetRefine.RefinedCellsAt | fealpy/mesh/TetrahedronMesh.py:486-525 | row `q NC + c` is child `q` of cell `c` |
| TetRefine.RefinedCellsBelow | fealpy/mesh/TetrahedronMesh.py:486-525 | every new row names a node below `N + NE` |
| TetRefine.CornerChildRow | fealpy/mesh/TetrahedronMesh.py:487-491 | row `i NC + c` holds vertex `i` of cell `c` in column 3, and `N + cell2edge` of its three corner edges in columns 0..2 |
| TetRefine.CornerChild | fealpy/mesh/TetrahedronMesh.py:479-491 | the first three vertices of corner child `i` are the midpoints of cell `c`'s edges through vertex `i` |
| TetRefine.InteriorChild | fealpy/mesh/TetrahedronMesh.py:507-525 | each of the four interior children has the chosen diagonal's two midpoints in columns 2 and 3 |
| TetRefine.RefineOnce | fealpy/mesh/TetrahedronMesh.py:470-528 | one pass: the node count grows by `NE` with the old nodes in place, and there are `8 NC` cells that name existing nodes |
| TetRefine.Diagonals | fealpy/mesh/TetrahedronMesh.py:501 | one diagonal per cell |
| TetRefine.UniformRefined | fealpy/mesh/TetrahedronMesh.py:468-528 | `n` passes keep the old nodes in place and leave `8^n NC` cells that name existing nodes |
| TetRefine.UniformRefinedStep | fealpy/mesh/TetrahedronMesh.py:469 | pass `n + 1` refines the result of the first `n` |
| TetRefine.RefineCells | fealpy/mesh/TetrahedronMesh.py:486-525 | the filled `newCell` array is `RefinedCells` |
| TetRefine.WriteChildren | fealpy/mesh/TetrahedronMesh.py:486-525 | writing the eight blocks fills the array with the wanted rows |
| TetRefine.WriteBlock | fealpy/mesh/TetrahedronMesh.py:486-525 | writing block `q` extends the filled prefix by `NC` rows |
| TetRefine.Refine | fealpy/mesh/TetrahedronMesh.py:470-528 | one pass on arrays returns `RefineOnce` |
| TetDelete.Select | fealpy/mesh/TetrahedronMesh.py:65-68 | `a[flag]`: entry `k` is the `k`-th flagged entry |
| TetDelete.KeepFlags | fealpy/mesh/TetrahedronMesh.py:64 | `isKeepCell = ~threshold(bc)` |
| TetDelete.UsedNodes | fealpy/mesh/TetrahedronMesh.py:66-67 | `isValidNode[v]` holds exactly when some kept cell uses `v` |
| TetDelete.IndexMap | fealpy/mesh/TetrahedronMesh.py:70-71 | a valid node's new number is its place among the valid nodes |
| TetDelete.Renumber | fealpy/mesh/TetrahedronMesh.py:72 | `idxMap[cell]` keeps the shape of the cell array |
| TetDelete.KeptCells | fealpy/mesh/TetrahedronMesh.py:63-65 | `cell[isKeepCell]` has one row per kept cell, each still a tetrahedron on the same nodes |
| TetDelete.Deleted | fealpy/mesh/TetrahedronMesh.py:57-75 | the new nodes are no more than the old, and every renumbered vertex is below the new node count |
| TetDelete.DeleteKeepsUnflaggedCells | fealpy/mesh/TetrahedronMesh.py:63-65 | the kept cells are exactly the unflagged ones, in their old order |
| TetDelete.DeleteKeepsCoordinates | fealpy/mesh/TetrahedronMesh.py:65-72 | each vertex of a new cell has the coordinates of the same vertex of the old cell it comes from |
| TetDelete.DeleteKeepsUsedNodes | fealpy/mesh/TetrahedronMesh.py:66-68 | the kept nodes are exactly those the kept cells use, in their old order |
| TetDelete.DeleteLeavesNoOrphan | fealpy/mesh/TetrahedronMesh.py:66-72 | every new node is a vertex of some new cell |
| TetMesh.TetrahedronMeshDataStructure.constructor | fealpy/mesh/TetrahedronMesh.py:21-22 | `__init__(N, cell)` stores the cells and constructs the edges |
| TetMesh.TetrahedronMeshDataStructure.Reinit | fealpy/mesh/TetrahedronMesh.py:75 | `reinit(N, cell)` replaces `N` and the cells and rebuilds the edges |
| TetMesh.TetrahedronMeshDataStructure.Construct | fealpy/mesh/TetrahedronMesh.py:310-311 | `construct()` rebuilds the edges from the cells |
| TetMesh.TetrahedronMeshDataStructure.CellToEdge | fealpy/mesh/TetrahedronMesh.py:477 | `cell_to_edge()` is `NC` by 6 with entries below `NE` |
| TetMesh.TetrahedronMesh.constructor | fealpy/mesh/TetrahedronMesh.py:35-38 | the mesh holds the nodes and a data structure built on `N = len(node)` and the cells, which must name nodes below `N` (see Left out) |
| TetMesh.TetrahedronMesh.Label | fealpy/mesh/TetrahedronMesh.py:256-311 | `label(cell=None, cellidx)` leaves `Labelled` of the old cells, over every cell when `cellidx` is `None`, and rebuilt edges |
| TetMesh.TetrahedronMesh.Bisect | fealpy/mesh/TetrahedronMesh.py:318-463 | `bisect` leaves the mesh `Bisected` gives, or reports its error with the mesh unchanged |
| TetMesh.TetrahedronMesh.UniformBisect | fealpy/mesh/TetrahedronMesh.py:314-316 | `uniform_bisect(n)` is `2 n` calls of `bisect()`: the mesh `UniformBisected` gives, or its error and a mesh grown from the old one |
| TetMesh.TetrahedronMesh.UniformRefine | fealpy/mesh/TetrahedronMesh.py:468-528 | `uniform_refine(n)` leaves `UniformRefined` of the old mesh |
| TetMesh.TetrahedronMesh.RefinePass | fealpy/mesh/TetrahedronMesh.py:470-528 | one pass of the loop leaves `RefineOnce` of the mesh before it |
| TetMesh.TetrahedronMesh.DeleteCell | fealpy/mesh/TetrahedronMesh.py:57-75 | `delete_cell` leaves `Deleted` of the old mesh |

## Left out

- Floating-point geometry is left out because it only chooses edges and shapes; the integer topology does not depend on its values.
  - Coordinates are exact `real`s, so rounding is not modelled.
  - The volume, area, normal, length, angle and quality methods are not modelled.
  - The edge tangents and normals, `geo_dimension`, `top_dimension` and `direction` are not modelled.
- The edge choices are inputs.
  - `label`'s squared lengths with the random `0.1 * rand` perturbation and `argmax` become `choose(round, c)`.
  - `uniform_refine`'s `argmin` over the three diagonal lengths becomes `diag(pass, c)`.
  - `delete_cell`'s `threshold` on barycenters becomes one flag per cell.
- `bisect`'s `returnim` interpolation matrix is float sparse algebra and is left out. Its `data` argument is unused and is left out too.
- `label` can be called on arrays that are not the mesh's own, as `bisect` does on its buffers. That form appears only inside the bisection model (`TetBisect.Rows`) and not as a class method. The class's `Label` does not take the `node` argument, because only the chosen edges depend on it.
- `Mesh3dDataStructure` is not part of this model.
  - Tetrahedral edges use the same sorted-unique construction as `Mesh2dDataStructure.construct`, with the six local edges.
  - The only property used of `cell_to_edge` is `TetTopology.CellToEdgeJoins`.
  - Faces (`face`, `face2cell`, `face_to_edge`) are not modelled.
- These methods are left out because they fail when called:
  - `face_to_edge_sign` uses undefined `NF`, `FE` and `face`.
  - `edge_to_edge` misspells `transpose`.
  - Sparse `edge_to_cell` uses undefined `NF`.
  - Sparse `cell_to_edge_sign` uses undefined `NE`.
  - The second `edge_length` and `edge_frame` use undefined names.
- `edge_to_cell` and dense `edge_to_node` return the `edge2cell` and `edge` fields and are not modelled separately.
- `node_to_cell(localidx=True)` is not modelled; its values are local vertex numbers and the relation is `NodeToCell`.
- `node_to_node_in_edge` is not modelled separately; it is `NodeToNode`'s relation over a caller's edge list.
- Integer widths are not modelled except `generation`, which is `uint8`: a 256th generation wraps to 0.
- The meshes hold their arrays as `seq` fields. Aliasing between `ds.cell` and arrays held elsewhere is not modelled.
- TetBisect.LedgerGrows: states that a cut edge's ends are sorted (`i <= j`), not the strict `i < j`, because a cell row with a repeated vertex is not excluded.
- TetBisect.RoundReuses: requires the marked cell's `p0` and `p1` to differ, for the same reason.
- TetBisect.Run: does not show that the loop ends before the buffers overflow. Termination is by buffer size: a pass whose writes do not fit ends the run with the error `Overrun` names.
- TetBisect.Overrun: reports an error when exactly one cell is marked and the `cell` buffer is full (`NC == 4 * NC0`). NumPy raises nothing there. Each `cell[NC:NC+1, k] = ...` writes a one-element array into an empty slice, so the second child is dropped while `NC` still grows, and the mesh ends one cell short. The model does not follow a run past that point. `TetBisect.Round` and `TetBisect.Run` inherit this. No other overrun is silent. The cut-edge buffer fills at the same moment as the node buffer, and the cut-edge write, a fancy index, raises first.
- TetBisect.Run: the 2:1 balance of neighbouring cells is not stated; conformity of the final cells with the cut-edge ledger is.
- TetMesh.TetrahedronMesh.UniformBisect: on an error the contract says only that the mesh grew from the old one, not which earlier call's result it holds.
- TetMesh.TetrahedronMesh.Bisect: requires one flag per cell in `isMarkedCell`; a flag array of another length is not modelled.
- TetMesh.TetrahedronMesh.constructor: requires every cell to name nodes below `len(node)` (`NodesBelow`). The source's `__init__` stores any cell array. `Valid()` carries this requirement into `Label`, `Bisect`, `UniformBisect`, `UniformRefine` and `DeleteCell`. Two source paths on such cells are not modelled. First, the IndexError that `label`, `uniform_refine` and `delete_cell` raise when they index `node` with a vertex number past its end. Second, `bisect` with no cell marked, which never enters its loop and passes the cells to `reinit` unchanged.
- Mesh2dTopology.Mesh2dDataStructure.constructor: requires every cell to name nodes below `N` (`NodesFit`), and so do `Reinit`, `Construct` and `Valid`. The source's `__init__` and `construct` accept a larger node number, and the error appears only later, in `cell_to_node`, `node_to_cell`, `edge_to_node`, `node_to_edge`, `node_to_node` and `boundary_node_flag`. Those queries require `NodesFit` or `EdgesFit` and do not model the error, which the source does not handle.
- Mesh2dTopology.SlotIsCovered: requires that no key occurs more than twice. In a mesh where three cells share an edge, a middle occurrence owns no slot and its `cell_to_edge` entry stays 0.
- The `number_of_*` counts of both meshes are plain field reads without contracts of their own. `Mesh2dTopology.Mesh2d.EntityRows` relates them to `entity`.
