/**
 * The cell-level view of a tetrahedral mesh: node coordinates, the edges
 * the data structure derives from the cells, the cell-to-edge table, and
 * the relabelling `label` of fealpy/mesh/TetrahedronMesh.py that moves a
 * chosen edge of each selected cell to columns 0 and 1.
 *
 * The three-dimensional data structure is not part of this model; its
 * edges are taken to come from the same unique-row construction as the
 * two-dimensional one, applied to the tetrahedron's six local edges.
 */
module TetTopology {
  import opened UniqueRow
  import opened Arith
  import opened Mesh2dTopology
  import opened TetTables

  /** Node coordinates. Only midpoints are ever formed from them. */
  datatype Point = Point(x: real, y: real, z: real)

  /** `(node[i] + node[j]) / 2`. */
  function Midpoint(p: Point, q: Point): (r: Point)
    ensures r.x - p.x == q.x - r.x && r.y - p.y == q.y - r.y && r.z - p.z == q.z - r.z
  {
    Point((p.x + q.x) / 2.0, (p.y + q.y) / 2.0, (p.z + q.z) / 2.0)
  }

  /** The tetrahedron as a cell type: four vertices and its six local edges. */
  function TetTemplate(): (t: Template)
    ensures t.Valid() && t.V == 4 && t.E() == 6 && t.localEdge == LocalEdge
  {
    Template(4, LocalEdge)
  }

  /** Every row has four vertices. */
  predicate Tets(cell: seq<Cell>) {
    forall c :: 0 <= c < |cell| ==> |cell[c]| == 4
  }

  /** Every vertex number is below `n`. */
  predicate NodesBelow(cell: seq<Cell>, n: nat) {
    forall c, i :: 0 <= c < |cell| && 0 <= i < |cell[c]| ==> cell[c][i] < n
  }

  // ----- edges --------------------------------------------------------------

  /** `ds.edge`: one edge per distinct vertex pair, oriented as in its first cell. */
  function Edges(cell: seq<Cell>): (r: seq<(nat, nat)>)
    requires Tets(cell)
    ensures |r| == |EdgeToCell(TetTemplate(), cell)|
  {
    ConstructIsEdgeTable(TetTemplate(), cell);
    Orient(TetTemplate(), cell, EdgeToCell(TetTemplate(), cell))
  }

  /** `ds.cell_to_edge()`: entry `(c, l)` is the edge of local edge `l` of cell `c`. */
  function CellToEdge(cell: seq<Cell>): (r: seq<seq<nat>>)
    requires Tets(cell)
    ensures |r| == |cell| && forall c :: 0 <= c < |r| ==> |r[c]| == 6
  {
    var u := Dedup(TetTemplate(), cell);
    seq(|cell|, c requires 0 <= c < |cell| => seq(6, l requires 0 <= l < 6 =>
      PosBelow(c, l, |cell|, 6);
      u.inverse[Pos(c, l, 6)]))
  }

  /**
   * The contract of `cell_to_edge`: entry `(c, l)` names an edge, and that
   * edge joins the two vertices of local edge `l` of cell `c`.
   */
  lemma CellToEdgeJoins(cell: seq<Cell>, c: nat, l: nat)
    requires Tets(cell) && c < |cell| && l < 6
    ensures CellToEdge(cell)[c][l] < |Edges(cell)|
    ensures var e := CellToEdge(cell)[c][l];
      SortPair(Edges(cell)[e].0, Edges(cell)[e].1) == SortPair(cell[c][LocalEdge[l].0], cell[c][LocalEdge[l].1])
  {
    var t := TetTemplate();
    var u := Dedup(t, cell);
    var m := Topology(t, 0, cell, Edges(cell), EdgeToCell(t, cell));
    ConstructedIsWf(t, 0, cell);
    ConstructIsEdgeTable(t, cell);
    TotalEdgeAt(t, cell, c, l);
    var e := CellToEdge(cell)[c][l];
    assert e == u.inverse[Pos(c, l, 6)];
    EdgeMatchesKey(m, e);
  }

  /** Every entry of `cell_to_edge` names an edge. */
  lemma CellToEdgeBelow(cell: seq<Cell>)
    requires Tets(cell)
    ensures forall c, l :: 0 <= c < |cell| && 0 <= l < 6 ==> CellToEdge(cell)[c][l] < |Edges(cell)|
  {
    forall c, l | 0 <= c < |cell| && 0 <= l < 6
      ensures CellToEdge(cell)[c][l] < |Edges(cell)|
    {
      CellToEdgeJoins(cell, c, l);
    }
  }

  // ----- label --------------------------------------------------------------

  /** Some selected position names cell `c` and chose local edge `f` for it. */
  predicate Selected(idx: seq<nat>, lidx: seq<nat>, c: nat, f: nat)
    requires |lidx| == |idx|
  {
    exists k :: 0 <= k < |idx| && idx[k] == c && lidx[k] == f
  }

  /**
   * `cell[cellidx[flag]] = cell[cellidx[flag]][:, LabelPerm(f)]` for
   * `flag = lidx == f`: every selected cell that chose edge `f` is reordered.
   */
  function LabelClass(rows: seq<Cell>, idx: seq<nat>, lidx: seq<nat>, f: nat): (r: seq<Cell>)
    requires Tets(rows) && |lidx| == |idx| && f < 6
    ensures |r| == |rows| && Tets(r)
  {
    seq(|rows|, c requires 0 <= c < |rows| =>
      if Selected(idx, lidx, c, f) then Permute(rows[c], LabelPerm(f)) else rows[c])
  }

  /** The rows after the assignments for edges `1..f`, in that order. */
  function LabelUpTo(rows: seq<Cell>, idx: seq<nat>, lidx: seq<nat>, f: nat): (r: seq<Cell>)
    requires Tets(rows) && |lidx| == |idx| && f < 6
    ensures |r| == |rows| && Tets(r)
  {
    if f == 0 then rows else LabelClass(LabelUpTo(rows, idx, lidx, f - 1), idx, lidx, f)
  }

  /**
   * `label(node, cell, cellidx)` with `lidx[k]` the local edge chosen for
   * cell `cellidx[k]` (the longest one, up to the random perturbation).
   */
  function Labelled(rows: seq<Cell>, idx: seq<nat>, lidx: seq<nat>): (r: seq<Cell>)
    requires Tets(rows) && |lidx| == |idx|
    ensures |r| == |rows| && Tets(r)
  {
    LabelUpTo(rows, idx, lidx, 5)
  }

  /** Relabelling only reorders: every row keeps its vertices. */
  lemma {:induction false} LabelKeepsVertices(rows: seq<Cell>, idx: seq<nat>, lidx: seq<nat>, f: nat, c: nat)
    requires Tets(rows) && |lidx| == |idx| && f < 6 && c < |rows|
    ensures SameVertices(LabelUpTo(rows, idx, lidx, f)[c], rows[c])
  {
    if f > 0 {
      LabelKeepsVertices(rows, idx, lidx, f - 1, c);
      PermuteKeepsVertices(LabelUpTo(rows, idx, lidx, f - 1)[c], f);
    }
  }

  /** A row no selected position chose a nonzero edge for is left as it is. */
  lemma {:induction false} LabelLeavesOthers(rows: seq<Cell>, idx: seq<nat>, lidx: seq<nat>, f: nat, c: nat)
    requires Tets(rows) && |lidx| == |idx| && f < 6 && c < |rows|
    requires forall k :: 0 <= k < |idx| && idx[k] == c ==> lidx[k] == 0
    ensures LabelUpTo(rows, idx, lidx, f)[c] == rows[c]
  {
    if f > 0 {
      LabelLeavesOthers(rows, idx, lidx, f - 1, c);
    }
  }

  /** A cell selected once is reordered exactly by the order of its chosen edge. */
  lemma {:induction false} LabelSelectedOnce(rows: seq<Cell>, idx: seq<nat>, lidx: seq<nat>, f: nat, k: nat)
    requires Tets(rows) && |lidx| == |idx| && f < 6 && k < |idx| && idx[k] < |rows|
    requires forall k' :: 0 <= k' < |idx| && idx[k'] == idx[k] ==> k' == k
    ensures LabelUpTo(rows, idx, lidx, f)[idx[k]] ==
      if 1 <= lidx[k] <= f then Permute(rows[idx[k]], LabelPerm(lidx[k])) else rows[idx[k]]
  {
    if f > 0 {
      LabelSelectedOnce(rows, idx, lidx, f - 1, k);
      if Selected(idx, lidx, idx[k], f) {
        var k' :| 0 <= k' < |idx| && idx[k'] == idx[k] && lidx[k'] == f;
      }
    }
  }

  /**
   * After `label`, a cell selected once holds the endpoints of its chosen
   * local edge in columns 0 and 1, and is a reordering of its old row.
   */
  lemma LabelMovesEdgeFirst(rows: seq<Cell>, idx: seq<nat>, lidx: seq<nat>, k: nat)
    requires Tets(rows) && |lidx| == |idx| && k < |idx| && idx[k] < |rows| && lidx[k] < 6
    requires forall k' :: 0 <= k' < |idx| && idx[k'] == idx[k] ==> k' == k
    ensures var (row, was) := (Labelled(rows, idx, lidx)[idx[k]], rows[idx[k]]);
      {row[0], row[1]} == {was[LocalEdge[lidx[k]].0], was[LocalEdge[lidx[k]].1]} &&
      SameVertices(row, was)
  {
    LabelSelectedOnce(rows, idx, lidx, 5, k);
    LabelPermLeadsWithEdge(lidx[k]);
    LabelKeepsVertices(rows, idx, lidx, 5, idx[k]);
  }

  /** One more selected position reorders its cell, if it chose `f`, and nothing else. */
  lemma LabelClassStep(rows: seq<Cell>, idx: seq<nat>, lidx: seq<nat>, f: nat, k: nat)
    requires Tets(rows) && |lidx| == |idx| && f < 6 && k < |idx| && idx[k] < |rows|
    ensures LabelClass(rows, idx[..k + 1], lidx[..k + 1], f) ==
      if lidx[k] == f then LabelClass(rows, idx[..k], lidx[..k], f)[idx[k] := Permute(rows[idx[k]], LabelPerm(f))]
      else LabelClass(rows, idx[..k], lidx[..k], f)
  {
    var before, after := LabelClass(rows, idx[..k], lidx[..k], f), LabelClass(rows, idx[..k + 1], lidx[..k + 1], f);
    var want := if lidx[k] == f then before[idx[k] := Permute(rows[idx[k]], LabelPerm(f))] else before;
    forall c | 0 <= c < |rows| ensures after[c] == want[c] {
      var now := idx[k] == c && lidx[k] == f;
      if Selected(idx[..k + 1], lidx[..k + 1], c, f) && !now {
        var j :| 0 <= j < k + 1 && idx[..k + 1][j] == c && lidx[..k + 1][j] == f;
        assert idx[..k][j] == c && lidx[..k][j] == f;
      }
      if Selected(idx[..k], lidx[..k], c, f) {
        var j :| 0 <= j < k && idx[..k][j] == c && lidx[..k][j] == f;
        assert idx[..k + 1][j] == c && lidx[..k + 1][j] == f;
      }
      if now {
        assert idx[..k + 1][k] == c && lidx[..k + 1][k] == f;
      }
    }
  }

  /**
   * `label` on an array of rows: for each edge `f = 1..5` in turn, the
   * selected cells that chose `f` are reordered, each from the row the
   * array held when that edge's turn began.
   */
  method LabelRows(cell: array<Cell>, idx: seq<nat>, lidx: seq<nat>)
    requires Tets(cell[..]) && |lidx| == |idx|
    requires forall k :: 0 <= k < |idx| ==> idx[k] < cell.Length
    modifies cell
    ensures cell[..] == Labelled(old(cell[..]), idx, lidx)
  {
    ghost var rows := cell[..];
    var f := 1;
    while f < 6
      invariant 1 <= f <= 6
      invariant cell[..] == LabelUpTo(rows, idx, lidx, f - 1)
    {
      var snap := cell[..];
      var k := 0;
      while k < |idx|
        invariant k <= |idx|
        invariant cell[..] == LabelClass(snap, idx[..k], lidx[..k], f)
      {
        LabelClassStep(snap, idx, lidx, f, k);
        if lidx[k] == f {
          cell[idx[k]] := Permute(snap[idx[k]], LabelPerm(f));
        }
        k := k + 1;
      }
      assert idx[..k] == idx && lidx[..k] == lidx;
      f := f + 1;
    }
  }

  /** `label` on a copy of the rows: the array `LabelRows` works on, read back. */
  method Relabel(rows: seq<Cell>, idx: seq<nat>, lidx: seq<nat>) returns (r: seq<Cell>)
    requires Tets(rows) && |lidx| == |idx|
    requires forall k :: 0 <= k < |idx| ==> idx[k] < |rows|
    ensures r == Labelled(rows, idx, lidx)
  {
    var a := new Cell[|rows|](c requires 0 <= c < |rows| => rows[c]);
    assert a[..] == rows;
    LabelRows(a, idx, lidx);
    r := a[..];
  }
}
