/**
 * `uniform_refine` of fealpy/mesh/TetrahedronMesh.py: every edge gets its
 * midpoint as a new node, and every cell is split into eight, four corner
 * cells and four cells around an interior diagonal. The diagonal is the
 * shortest of the three joining midpoints of opposite edges; which one that
 * is depends on the coordinates and is an input here.
 */
module TetRefine {
  import opened Arith
  import opened Mesh2dTopology
  import opened TetTables
  import opened TetTopology

  /** The interior diagonal of a cell: the one joining the midpoints of local edges `d` and `5 - d`. */
  type DiagonalId = d: nat | d < 3

  /** The local edges whose midpoints, in this order, the corner cell at vertex `i` takes. */
  function CornerEdges(i: nat): (r: seq<nat>)
    requires i < 4
    ensures |r| == 3 && forall k :: 0 <= k < 3 ==> r[k] < 6 && Incident(r[k], i)
  {
    match i
    case 0 => [0, 2, 1]
    case 1 => [0, 3, 4]
    case 2 => [1, 5, 3]
    case _ => [2, 4, 5]
  }

  /**
   * `T[d]`: for diagonal `d`, the four local edges around it in cyclic order,
   * followed by the two edges the diagonal joins.
   */
  function DiagonalOrder(d: DiagonalId): (t: seq<nat>)
    ensures |t| == 6 && forall k :: 0 <= k < 6 ==> t[k] < 6
  {
    match d
    case 0 => [1, 3, 4, 2, 5, 0]
    case 1 => [0, 2, 5, 3, 4, 1]
    case _ => [0, 4, 5, 1, 3, 2]
  }

  /** Local edge `l` ends at local vertex `i`. */
  predicate Incident(l: nat, i: nat)
    requires l < 6
  {
    LocalEdge[l].0 == i || LocalEdge[l].1 == i
  }

  /** Local edges `l` and `l'` share a vertex. */
  predicate Adjacent(l: nat, l': nat)
    requires l < 6 && l' < 6
  {
    Incident(l, LocalEdge[l'].0) || Incident(l, LocalEdge[l'].1)
  }

  /** The corner cell at vertex `i` takes the midpoints of exactly the three edges ending at `i`. */
  lemma CornerEdgesMeetAtCorner(i: nat)
    requires i < 4
    ensures |CornerEdges(i)| == 3
    ensures CornerEdges(i)[0] != CornerEdges(i)[1] && CornerEdges(i)[0] != CornerEdges(i)[2] &&
            CornerEdges(i)[1] != CornerEdges(i)[2]
    ensures forall l :: 0 <= l < 6 ==> (Incident(l, i) <==> l in CornerEdges(i))
  {
  }

  /**
   * Row `d` of `T` lists every local edge once; its last two entries are the
   * opposite edges `5 - d` and `d`, and the first four go round them, each
   * sharing a vertex with the next.
   */
  lemma DiagonalOrderShape(d: DiagonalId)
    ensures |DiagonalOrder(d)| == 6
    ensures forall k :: 0 <= k < 6 ==> DiagonalOrder(d)[k] < 6
    ensures forall l :: 0 <= l < 6 ==> l in DiagonalOrder(d)
    ensures DiagonalOrder(d)[4] == 5 - d && DiagonalOrder(d)[5] == d && !Adjacent(d, 5 - d)
    ensures var t := DiagonalOrder(d);
      Adjacent(t[0], t[1]) && Adjacent(t[1], t[2]) && Adjacent(t[2], t[3]) && Adjacent(t[3], t[0])
  {
    if d == 0 {
    } else if d == 1 {
    } else {
    }
  }

  // ----- nodes --------------------------------------------------------------

  /** Every edge of the cells joins nodes below `n`. */
  lemma EdgesBelow(cell: seq<Cell>, n: nat)
    requires Tets(cell) && NodesBelow(cell, n)
    ensures forall e :: 0 <= e < |TetTopology.Edges(cell)| ==> TetTopology.Edges(cell)[e].0 < n && TetTopology.Edges(cell)[e].1 < n
  {
    var t := TetTemplate();
    var m := Topology(t, 0, cell, TetTopology.Edges(cell), EdgeToCell(t, cell));
    ConstructedIsWf(t, 0, cell);
    forall e | 0 <= e < |TetTopology.Edges(cell)|
      ensures TetTopology.Edges(cell)[e].0 < n && TetTopology.Edges(cell)[e].1 < n
    {
      EdgeMatchesKey(m, e);
    }
  }

  /**
   * `concatenate((node, (node[edge[:, 0]] + node[edge[:, 1]]) / 2))` with
   * `edge = ds.edge`: the old nodes, then one midpoint per edge.
   */
  function RefinedNodes(node: seq<Point>, cell: seq<Cell>): (r: seq<Point>)
    requires Tets(cell) && NodesBelow(cell, |node|)
    ensures |r| == |node| + |TetTopology.Edges(cell)| && r[..|node|] == node
  {
    EdgesBelow(cell, |node|);
    var edge := TetTopology.Edges(cell);
    var mid := seq(|edge|, e requires 0 <= e < |edge| => Midpoint(node[edge[e].0], node[edge[e].1]));
    assert (node + mid)[..|node|] == node;
    node + mid
  }

  /** `edge2newNode = arange(N, N + NE)`: the midpoint of edge `e` is node `N + e`. */
  lemma EdgeMidpoint(node: seq<Point>, cell: seq<Cell>, e: nat)
    requires Tets(cell) && NodesBelow(cell, |node|) && e < |TetTopology.Edges(cell)|
    ensures TetTopology.Edges(cell)[e].0 < |node| && TetTopology.Edges(cell)[e].1 < |node|
    ensures RefinedNodes(node, cell)[|node| + e] == Midpoint(node[TetTopology.Edges(cell)[e].0], node[TetTopology.Edges(cell)[e].1])
  {
    EdgesBelow(cell, |node|);
  }

  /** The new node of local edge `l` of cell `c` is the midpoint of that edge's two vertices. */
  lemma MidpointOfLocalEdge(node: seq<Point>, cell: seq<Cell>, c: nat, l: nat)
    requires Tets(cell) && NodesBelow(cell, |node|) && c < |cell| && l < 6
    ensures |node| + TetTopology.CellToEdge(cell)[c][l] < |RefinedNodes(node, cell)|
    ensures RefinedNodes(node, cell)[|node| + TetTopology.CellToEdge(cell)[c][l]] ==
      Midpoint(node[cell[c][LocalEdge[l].0]], node[cell[c][LocalEdge[l].1]])
  {
    CellToEdgeJoins(cell, c, l);
    EdgeMidpoint(node, cell, TetTopology.CellToEdge(cell)[c][l]);
  }

  // ----- cells --------------------------------------------------------------

  /** `p = edge2newNode[cell2edge[c]]`: the new node of each local edge of a cell. */
  function NewNodesOf(c2e: seq<nat>, N: nat): (p: seq<nat>)
    ensures |p| == |c2e| && forall l :: 0 <= l < |c2e| ==> p[l] == N + c2e[l]
  {
    seq(|c2e|, l requires 0 <= l < |c2e| => N + c2e[l])
  }

  /**
   * Child `q` of a cell with vertices `row`, new edge nodes `p` and diagonal
   * `d`: for `q < 4` the corner cell at vertex `q`, whose last column is that
   * vertex; for `q = 4 + j` the cell with two consecutive edges around the
   * diagonal `T[j], T[j + 1]` followed by the diagonal's two ends.
   */
  function Child(row: Cell, p: seq<nat>, q: nat, d: DiagonalId): (r: Cell)
    requires |row| == 4 && |p| == 6 && q < 8
    ensures |r| == 4
  {
    if q < 4 then
      [p[CornerEdges(q)[0]], p[CornerEdges(q)[1]], p[CornerEdges(q)[2]], row[q]]
    else
      var t, j := DiagonalOrder(d), q - 4;
      [p[t[j]], p[t[(j + 1) % 4]], p[t[4]], p[t[5]]]
  }

  /** Row `k = q NC + c` of `newCell`: child `q` of cell `c`. */
  function RefinedRow(cell: seq<Cell>, c2e: seq<seq<nat>>, N: nat, diag: seq<DiagonalId>, k: nat): (r: Cell)
    requires Tets(cell) && |c2e| == |cell| == |diag| && (forall c :: 0 <= c < |c2e| ==> |c2e[c]| == 6)
    requires k < 8 * |cell|
    ensures |r| == 4
  {
    PosIsProduct(8, 0, |cell|);
    RowBelow(k, 8, |cell|);
    var (q, c) := RowCol(k, |cell|);
    Child(cell[c], NewNodesOf(c2e[c], N), q, diag[c])
  }

  /** `newCell`: eight blocks of `NC` rows, block `q` holding child `q` of every cell. */
  function RefinedCells(cell: seq<Cell>, c2e: seq<seq<nat>>, N: nat, diag: seq<DiagonalId>): (r: seq<Cell>)
    requires Tets(cell) && |c2e| == |cell| == |diag| && (forall c :: 0 <= c < |c2e| ==> |c2e[c]| == 6)
    ensures |r| == 8 * |cell| && Tets(r)
  {
    seq(8 * |cell|, k requires 0 <= k < 8 * |cell| => RefinedRow(cell, c2e, N, diag, k))
  }

  /** Child `q` of cell `c` sits at row `q NC + c`. */
  lemma RefinedCellsAt(cell: seq<Cell>, c2e: seq<seq<nat>>, N: nat, diag: seq<DiagonalId>, q: nat, c: nat)
    requires Tets(cell) && |c2e| == |cell| == |diag| && (forall c :: 0 <= c < |c2e| ==> |c2e[c]| == 6)
    requires q < 8 && c < |cell|
    ensures Pos(q, c, |cell|) < 8 * |cell|
    ensures RefinedCells(cell, c2e, N, diag)[Pos(q, c, |cell|)] == Child(cell[c], NewNodesOf(c2e[c], N), q, diag[c])
  {
    PosBelow(q, c, 8, |cell|);
    PosIsProduct(8, 0, |cell|);
    RowColOfPos(q, c, |cell|);
  }

  /** With every edge number below `NE`, the new cells name nodes below `N + NE`. */
  lemma RefinedCellsBelow(cell: seq<Cell>, c2e: seq<seq<nat>>, N: nat, NE: nat, diag: seq<DiagonalId>)
    requires Tets(cell) && |c2e| == |cell| == |diag| && (forall c :: 0 <= c < |c2e| ==> |c2e[c]| == 6)
    requires NodesBelow(cell, N)
    requires forall c, l :: 0 <= c < |c2e| && 0 <= l < 6 ==> c2e[c][l] < NE
    ensures NodesBelow(RefinedCells(cell, c2e, N, diag), N + NE)
  {
    var r := RefinedCells(cell, c2e, N, diag);
    forall k, i | 0 <= k < |r| && 0 <= i < |r[k]|
      ensures r[k][i] < N + NE
    {
      PosIsProduct(8, 0, |cell|);
      RowBelow(k, 8, |cell|);
      var (q, c) := RowCol(k, |cell|);
      var d := diag[c];
      if q >= 4 {
        DiagonalOrderShape(d);
      }
    }
  }

  /** Corner child `i` of cell `c` holds, in order, the new nodes of the local edges `CornerEdges(i)` and vertex `i`. */
  lemma CornerChildRow(cell: seq<Cell>, c2e: seq<seq<nat>>, N: nat, diag: seq<DiagonalId>, i: nat, c: nat)
    requires Tets(cell) && |c2e| == |cell| == |diag| && (forall c :: 0 <= c < |c2e| ==> |c2e[c]| == 6)
    requires i < 4 && c < |cell|
    ensures Pos(i, c, |cell|) < 8 * |cell|
    ensures var row := RefinedCells(cell, c2e, N, diag)[Pos(i, c, |cell|)];
      row[3] == cell[c][i] && forall k :: 0 <= k < 3 ==> row[k] == N + c2e[c][CornerEdges(i)[k]]
  {
    RefinedCellsAt(cell, c2e, N, diag, i, c);
    var p, e := NewNodesOf(c2e[c], N), CornerEdges(i);
    assert Child(cell[c], p, i, diag[c]) == [p[e[0]], p[e[1]], p[e[2]], cell[c][i]];
  }

  /**
   * The first three nodes of corner child `i` of cell `c` are the midpoints
   * of the local edges `CornerEdges(i)`, the three edges ending at vertex `i`
   * (`CornerEdgesMeetAtCorner`); its last node is vertex `i` itself
   * (`CornerChildRow`).
   */
  lemma CornerChild(node: seq<Point>, cell: seq<Cell>, diag: seq<DiagonalId>, i: nat, c: nat, k: nat)
    requires Tets(cell) && NodesBelow(cell, |node|) && |diag| == |cell|
    requires i < 4 && c < |cell| && k < 3
    ensures Pos(i, c, |cell|) < 8 * |cell|
    ensures var row := RefinedCells(cell, TetTopology.CellToEdge(cell), |node|, diag)[Pos(i, c, |cell|)];
      var l := CornerEdges(i)[k];
      row[k] < |RefinedNodes(node, cell)| &&
      RefinedNodes(node, cell)[row[k]] == Midpoint(node[cell[c][LocalEdge[l].0]], node[cell[c][LocalEdge[l].1]])
  {
    var c2e, l := TetTopology.CellToEdge(cell), CornerEdges(i)[k];
    CornerChildRow(cell, c2e, |node|, diag, i, c);
    MidpointOfLocalEdge(node, cell, c, l);
    assert RefinedCells(cell, c2e, |node|, diag)[Pos(i, c, |cell|)][k] == |node| + c2e[c][l];
  }

  /**
   * Each of the four interior children of cell `c` ends with the two nodes
   * the chosen diagonal `d` joins: the midpoints of the opposite local edges
   * `5 - d` and `d`.
   */
  lemma InteriorChild(node: seq<Point>, cell: seq<Cell>, diag: seq<DiagonalId>, j: nat, c: nat)
    requires Tets(cell) && NodesBelow(cell, |node|) && |diag| == |cell|
    requires j < 4 && c < |cell|
    ensures Pos(4 + j, c, |cell|) < 8 * |cell|
    ensures var row := RefinedCells(cell, TetTopology.CellToEdge(cell), |node|, diag)[Pos(4 + j, c, |cell|)];
      row[2] == |node| + TetTopology.CellToEdge(cell)[c][5 - diag[c]] &&
      row[3] == |node| + TetTopology.CellToEdge(cell)[c][diag[c]]
  {
    RefinedCellsAt(cell, TetTopology.CellToEdge(cell), |node|, diag, 4 + j, c);
    DiagonalOrderShape(diag[c]);
  }

  /**
   * One pass of `uniform_refine`: the new nodes and the new cells, built
   * from `ds.edge` and `ds.cell_to_edge()`; `diag[c]` is the diagonal of
   * cell `c` (`argmin` of the three diagonal lengths).
   */
  function RefineOnce(node: seq<Point>, cell: seq<Cell>, diag: seq<DiagonalId>): (r: (seq<Point>, seq<Cell>))
    requires Tets(cell) && NodesBelow(cell, |node|) && |diag| == |cell|
    ensures |r.0| == |node| + |TetTopology.Edges(cell)| && r.0[..|node|] == node
    ensures |r.1| == 8 * |cell| && Tets(r.1) && NodesBelow(r.1, |r.0|)
  {
    var c2e := TetTopology.CellToEdge(cell);
    forall c, l | 0 <= c < |c2e| && 0 <= l < 6
      ensures c2e[c][l] < |TetTopology.Edges(cell)|
    {
      CellToEdgeJoins(cell, c, l);
    }
    RefinedCellsBelow(cell, c2e, |node|, |TetTopology.Edges(cell)|, diag);
    (RefinedNodes(node, cell), RefinedCells(cell, c2e, |node|, diag))
  }

  /** The diagonals of the `NC` cells in pass `i`. */
  function Diagonals(diag: (nat, nat) -> DiagonalId, i: nat, NC: nat): (r: seq<DiagonalId>)
    ensures |r| == NC
  {
    seq(NC, c requires 0 <= c < NC => diag(i, c))
  }

  /**
   * `uniform_refine(n)`: `n` passes, pass `i` taking diagonal `diag(i, c)`
   * in cell `c`. The old nodes keep their places and every cell names
   * existing nodes.
   */
  function UniformRefined(node: seq<Point>, cell: seq<Cell>, n: nat, diag: (nat, nat) -> DiagonalId):
    (r: (seq<Point>, seq<Cell>))
    requires Tets(cell) && NodesBelow(cell, |node|)
    ensures |node| <= |r.0| && r.0[..|node|] == node && Tets(r.1) && NodesBelow(r.1, |r.0|)
    ensures |r.1| == Times8(n, |cell|)
  {
    if n == 0 then
      assert node[..|node|] == node;
      (node, cell)
    else
      var prev := UniformRefined(node, cell, n - 1, diag);
      var r := RefineOnce(prev.0, prev.1, Diagonals(diag, n - 1, |prev.1|));
      assert r.0[..|node|] == r.0[..|prev.0|][..|node|];
      r
  }

  /** Pass `n + 1` refines the mesh pass `n` left. */
  lemma UniformRefinedStep(node: seq<Point>, cell: seq<Cell>, n: nat, diag: (nat, nat) -> DiagonalId)
    requires Tets(cell) && NodesBelow(cell, |node|)
    ensures var prev := UniformRefined(node, cell, n, diag);
      UniformRefined(node, cell, n + 1, diag) == RefineOnce(prev.0, prev.1, Diagonals(diag, n, |prev.1|))
  {
  }

  /** Every pass multiplies the cell count by eight. */
  function Times8(n: nat, NC: nat): nat
  {
    if n == 0 then NC else 8 * Times8(n - 1, NC)
  }

  /**
   * `newCell`, written block by block: row `q NC + c` receives child `q` of
   * cell `c`.
   */
  method RefineCells(cell: seq<Cell>, c2e: seq<seq<nat>>, N: nat, diag: seq<DiagonalId>)
    returns (newCell: array<Cell>)
    requires Tets(cell) && |c2e| == |cell| == |diag| && (forall c :: 0 <= c < |c2e| ==> |c2e[c]| == 6)
    ensures newCell[..] == RefinedCells(cell, c2e, N, diag)
  {
    ghost var want := RefinedCells(cell, c2e, N, diag);
    forall q, c | 0 <= q < 8 && 0 <= c < |cell|
      ensures Pos(q, c, |cell|) < |want| && want[Pos(q, c, |cell|)] == Child(cell[c], NewNodesOf(c2e[c], N), q, diag[c])
    {
      RefinedCellsAt(cell, c2e, N, diag, q, c);
    }
    newCell := new Cell[8 * |cell|](_ => [0, 0, 0, 0]);
    WriteChildren(newCell, want, cell, c2e, N, diag);
  }

  /** The outer loop of `RefineCells`, filling `newCell` with the rows `want` lists block by block. */
  method WriteChildren(newCell: array<Cell>, ghost want: seq<Cell>,
                       cell: seq<Cell>, c2e: seq<seq<nat>>, N: nat, diag: seq<DiagonalId>)
    requires Tets(cell) && |c2e| == |cell| == |diag| && (forall c :: 0 <= c < |c2e| ==> |c2e[c]| == 6)
    requires newCell.Length == |want| == 8 * |cell|
    requires forall q, c {:trigger want[Pos(q, c, |cell|)]} :: 0 <= q < 8 && 0 <= c < |cell| ==>
      Pos(q, c, |cell|) < |want| && want[Pos(q, c, |cell|)] == Child(cell[c], NewNodesOf(c2e[c], N), q, diag[c])
    modifies newCell
    ensures newCell[..] == want
  {
    var NC := |cell|;
    PosIsProduct(8, 0, NC);
    var q, base := 0, 0;
    while q < 8
      invariant q <= 8 && base == Pos(q, 0, NC) && base + Pos(8 - q, 0, NC) == 8 * NC
      invariant forall k :: 0 <= k < base ==> newCell[k] == want[k]
    {
      forall c | 0 <= c < NC
        ensures base + c < |want| && want[base + c] == Child(cell[c], NewNodesOf(c2e[c], N), q, diag[c])
      {
        PosShift(q, c, NC);
      }
      WriteBlock(newCell, want, base, q, cell, c2e, N, diag);
      q, base := q + 1, base + NC;
    }
  }

  /** The inner loop of `RefineCells`: block `q`, rows `base` to `base + NC`, gets child `q` of every cell. */
  method WriteBlock(newCell: array<Cell>, ghost want: seq<Cell>, base: nat, q: nat,
                    cell: seq<Cell>, c2e: seq<seq<nat>>, N: nat, diag: seq<DiagonalId>)
    requires Tets(cell) && |c2e| == |cell| == |diag| && (forall c :: 0 <= c < |c2e| ==> |c2e[c]| == 6)
    requires q < 8 && newCell.Length == |want| && base + |cell| <= |want|
    requires forall c :: 0 <= c < |cell| ==> want[base + c] == Child(cell[c], NewNodesOf(c2e[c], N), q, diag[c])
    requires forall k :: 0 <= k < base ==> newCell[k] == want[k]
    modifies newCell
    ensures forall k :: 0 <= k < base + |cell| ==> newCell[k] == want[k]
  {
    var c := 0;
    while c < |cell|
      invariant c <= |cell|
      invariant forall k :: 0 <= k < base + c ==> newCell[k] == want[k]
    {
      newCell[base + c] := Child(cell[c], NewNodesOf(c2e[c], N), q, diag[c]);
      c := c + 1;
    }
  }

  /**
   * One pass of `uniform_refine`: the midpoints appended to the nodes and
   * the children written into a fresh cell array.
   */
  method Refine(node: seq<Point>, cell: seq<Cell>, diag: seq<DiagonalId>)
    returns (newNode: seq<Point>, newCell: seq<Cell>)
    requires Tets(cell) && NodesBelow(cell, |node|) && |diag| == |cell|
    ensures (newNode, newCell) == RefineOnce(node, cell, diag)
  {
    var c2e := TetTopology.CellToEdge(cell);
    newNode := RefinedNodes(node, cell);
    var a := RefineCells(cell, c2e, |node|, diag);
    newCell := a[..];
  }
}
