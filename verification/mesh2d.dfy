/**
 * The topology of a two-dimensional mesh (`Mesh2dDataStructure` and the
 * entity access of `Mesh2d` in fealpy/mesh/Mesh2d.py). From the cell table
 * and the cell type's local-edge template, `construct` builds the edges and
 * the four-column edge-to-cell table (left cell, right cell, local slot in
 * the left cell, local slot in the right cell); cell-to-edge, cell-to-cell,
 * node-to-node and the boundary flags are derived from those two arrays.
 *
 * `EdgeTable` characterises the result of `construct` without reference to
 * how it is computed: every edge is a distinct vertex pair of the total
 * edge table, its left side is the first and its right side the last place
 * the pair occurs. The queries are stated and proved against it.
 */
module Mesh2dTopology {
  import opened UniqueRow
  import opened ArrayOps
  import opened Arith

  /**
   * The cell type: `V` vertices per cell and `localEdge[l]`, the two local
   * vertices of local edge `l` (`E` local edges per cell).
   */
  datatype Template = Template(V: nat, localEdge: seq<(nat, nat)>)
  {
    function E(): nat { |localEdge| }

    predicate Valid() {
      |localEdge| > 0 &&
      forall l :: 0 <= l < |localEdge| ==> localEdge[l].0 < V && localEdge[l].1 < V
    }

    /** No local edge joins a vertex to itself and no two name the same pair. */
    predicate Simple() {
      (forall l :: 0 <= l < |localEdge| ==> localEdge[l].0 != localEdge[l].1) &&
      forall l, l' :: 0 <= l < l' < |localEdge| ==>
        localEdge[l] != localEdge[l'] && localEdge[l] != (localEdge[l'].1, localEdge[l'].0)
    }
  }

  /** One row of the cell table: the cell's vertex numbers. */
  type Cell = seq<nat>

  predicate CellsFit(t: Template, cell: seq<Cell>) {
    forall c :: 0 <= c < |cell| ==> |cell[c]| == t.V
  }

  /** No cell repeats a vertex. */
  predicate NonDegenerate(cell: seq<Cell>) {
    forall c, i, j :: 0 <= c < |cell| && 0 <= i < j < |cell[c]| ==> cell[c][i] != cell[c][j]
  }

  /** A vertex pair in ascending order, as `np.sort(..., axis=1)` leaves it. */
  function SortPair(a: nat, b: nat): (k: Key)
    ensures k.0 <= k.1
    ensures (k.0 == a && k.1 == b) || (k.0 == b && k.1 == a)
  {
    if a <= b then (a, b) else (b, a)
  }

  /** The two vertices of local edge `l` of a cell, in local order. */
  function CellEdge(t: Template, row: Cell, l: nat): (nat, nat)
    requires t.Valid() && |row| == t.V && l < t.E()
  {
    (row[t.localEdge[l].0], row[t.localEdge[l].1])
  }

  /** The sorted vertex pair of local edge `l` of a cell. */
  function LocalKey(t: Template, row: Cell, l: nat): Key
    requires t.Valid() && |row| == t.V && l < t.E()
  {
    SortPair(CellEdge(t, row, l).0, CellEdge(t, row, l).1)
  }

  /**
   * `total_edge`: row `c * E + l` is local edge `l` of cell `c`, its two
   * vertices sorted.
   */
  function TotalEdge(t: Template, cell: seq<Cell>): (r: seq<Key>)
    requires t.Valid() && CellsFit(t, cell)
    ensures |r| == Pos(|cell|, 0, t.E())
  {
    seq(Pos(|cell|, 0, t.E()), k requires 0 <= k < Pos(|cell|, 0, t.E()) =>
      RowBelow(k, |cell|, t.E());
      LocalKey(t, cell[RowCol(k, t.E()).0], RowCol(k, t.E()).1))
  }

  /** Local edge `l` of cell `c` sits at row `c * E + l` of the total edge table. */
  lemma TotalEdgeAt(t: Template, cell: seq<Cell>, c: nat, l: nat)
    requires t.Valid() && CellsFit(t, cell) && c < |cell| && l < t.E()
    ensures Pos(c, l, t.E()) < |TotalEdge(t, cell)|
    ensures TotalEdge(t, cell)[Pos(c, l, t.E())] == LocalKey(t, cell[c], l)
  {
    PosBelow(c, l, |cell|, t.E());
    RowColOfPos(c, l, t.E());
  }

  /** A row of the edge-to-cell table. */
  datatype EdgeCell = EdgeCell(left: nat, right: nat, leftSlot: nat, rightSlot: nat)

  /** Where the left and the right side of an edge sit in the total edge table. */
  function LeftAt(ec: EdgeCell, E: nat): nat { Pos(ec.left, ec.leftSlot, E) }

  function RightAt(ec: EdgeCell, E: nat): nat { Pos(ec.right, ec.rightSlot, E) }

  predicate RowFits(total: seq<Key>, n: nat, E: nat, ec: EdgeCell) {
    ec.left < n && ec.right < n && ec.leftSlot < E && ec.rightSlot < E &&
    LeftAt(ec, E) < |total| && RightAt(ec, E) < |total|
  }

  /** Both sides carry the same pair; the left side is its first place, the right side its last. */
  predicate FirstAndLast(total: seq<Key>, E: nat, ec: EdgeCell)
    requires LeftAt(ec, E) < |total| && RightAt(ec, E) < |total|
  {
    total[LeftAt(ec, E)] == total[RightAt(ec, E)] &&
    (forall i :: 0 <= i < LeftAt(ec, E) ==> total[i] != total[LeftAt(ec, E)]) &&
    (forall i :: RightAt(ec, E) < i < |total| ==> total[i] != total[LeftAt(ec, E)])
  }

  /** The vertex pair of each edge. */
  function KeysOf(total: seq<Key>, E: nat, e2c: seq<EdgeCell>): (r: seq<Key>)
    requires forall e :: 0 <= e < |e2c| ==> LeftAt(e2c[e], E) < |total|
    ensures |r| == |e2c|
  {
    seq(|e2c|, e requires 0 <= e < |e2c| => total[LeftAt(e2c[e], E)])
  }

  /**
   * What `construct` produces: one row per distinct pair of the total edge
   * table, numbered in increasing pair order, each row pointing at the first
   * and the last place of its pair.
   */
  predicate EdgeTable(total: seq<Key>, n: nat, E: nat, e2c: seq<EdgeCell>) {
    && E > 0
    && (forall e :: 0 <= e < |e2c| ==> RowFits(total, n, E, e2c[e]) && FirstAndLast(total, E, e2c[e]))
    && StrictlySorted(KeysOf(total, E, e2c))
    && (forall k :: 0 <= k < |total| ==> total[k] in KeysOf(total, E, e2c))
  }

  /** `edge`: each edge oriented as local edge `leftSlot` of its left cell. */
  function Orient(t: Template, cell: seq<Cell>, e2c: seq<EdgeCell>): (r: seq<(nat, nat)>)
    requires t.Valid() && CellsFit(t, cell)
    requires forall e :: 0 <= e < |e2c| ==> e2c[e].left < |cell| && e2c[e].leftSlot < t.E()
    ensures |r| == |e2c|
  {
    seq(|e2c|, e requires 0 <= e < |e2c| => CellEdge(t, cell[e2c[e].left], e2c[e].leftSlot))
  }

  // ----- construct --------------------------------------------------------

  /** The deduplicated total edge table. */
  function Dedup(t: Template, cell: seq<Cell>): Unique
    requires t.Valid() && CellsFit(t, cell)
  {
    UniqueRows(TotalEdge(t, cell))
  }

  /**
   * The value `i1[e]` holds after `i1[j] = np.arange(len(j))` on a zeroed
   * `i1`: the last index carrying `e`, or 0 if none does.
   */
  function LastIndexOf(j: seq<nat>, e: nat): (k: nat)
    ensures e in j ==> k < |j| && j[k] == e && forall i :: k < i < |j| ==> j[i] != e
    ensures e !in j ==> k == 0
  {
    if j == [] then 0
    else if j[|j| - 1] == e then |j| - 1
    else
      assert j == j[..|j| - 1] + [j[|j| - 1]];
      LastIndexOf(j[..|j| - 1], e)
  }

  /** An edge-table row from the first place `i0` and the last place `i1` of its pair. */
  function SplitPlace(i0: nat, i1: nat, E: nat): (ec: EdgeCell)
    requires E > 0
    ensures LeftAt(ec, E) == i0 && RightAt(ec, E) == i1
  {
    PosOfRowCol(i0, E);
    PosOfRowCol(i1, E);
    EdgeCell(RowCol(i0, E).0, RowCol(i1, E).0, RowCol(i0, E).1, RowCol(i1, E).1)
  }

  /** Row `e` of the edge-to-cell table: `i0 // E, i1 // E, i0 % E, i1 % E`. */
  function EdgeCellAt(t: Template, cell: seq<Cell>, e: nat): (ec: EdgeCell)
    requires t.Valid() && CellsFit(t, cell) && e < |Dedup(t, cell).keys|
    ensures LeftAt(ec, t.E()) == Dedup(t, cell).first[e]
    ensures RightAt(ec, t.E()) == LastIndexOf(Dedup(t, cell).inverse, e)
  {
    var u := Dedup(t, cell);
    SplitPlace(u.first[e], LastIndexOf(u.inverse, e), t.E())
  }

  /** The edge-to-cell table `construct` stores. */
  function EdgeToCell(t: Template, cell: seq<Cell>): (r: seq<EdgeCell>)
    requires t.Valid() && CellsFit(t, cell)
    ensures |r| == |Dedup(t, cell).keys|
  {
    seq(|Dedup(t, cell).keys|, e requires 0 <= e < |Dedup(t, cell).keys| => EdgeCellAt(t, cell, e))
  }

  /** One row of the constructed table points at the first and last place of its pair. */
  lemma ConstructRow(t: Template, cell: seq<Cell>, e: nat)
    requires t.Valid() && CellsFit(t, cell) && e < |Dedup(t, cell).keys|
    ensures RowFits(TotalEdge(t, cell), |cell|, t.E(), EdgeCellAt(t, cell, e))
    ensures FirstAndLast(TotalEdge(t, cell), t.E(), EdgeCellAt(t, cell, e))
    ensures TotalEdge(t, cell)[LeftAt(EdgeCellAt(t, cell, e), t.E())] == Dedup(t, cell).keys[e]
  {
    var total := TotalEdge(t, cell);
    var u := Dedup(t, cell);
    var ec := EdgeCellAt(t, cell, e);
    var i0 := u.first[e];
    InverseExact(total, i0, e);
    var i1 := LastIndexOf(u.inverse, e);
    InverseExact(total, i1, e);
    forall i | i1 < i < |total| ensures total[i] != u.keys[e] {
      InverseExact(total, i, e);
    }
    RowBelow(i0, |cell|, t.E());
    RowBelow(i1, |cell|, t.E());
  }

  /**
   * `construct` meets its characterisation: the table it builds is an edge
   * table of the total edge table, and its pairs are the distinct pairs.
   */
  lemma ConstructIsEdgeTable(t: Template, cell: seq<Cell>)
    requires t.Valid() && CellsFit(t, cell)
    ensures EdgeTable(TotalEdge(t, cell), |cell|, t.E(), EdgeToCell(t, cell))
    ensures KeysOf(TotalEdge(t, cell), t.E(), EdgeToCell(t, cell)) == Dedup(t, cell).keys
  {
    var total := TotalEdge(t, cell);
    var e2c := EdgeToCell(t, cell);
    forall e | 0 <= e < |e2c|
      ensures RowFits(total, |cell|, t.E(), e2c[e]) && FirstAndLast(total, t.E(), e2c[e])
      ensures total[LeftAt(e2c[e], t.E())] == Dedup(t, cell).keys[e]
    {
      ConstructRow(t, cell, e);
    }
    assert KeysOf(total, t.E(), e2c) == Dedup(t, cell).keys;
  }

  // ----- the constructed topology ----------------------------------------

  /** The template, the node count, the cells, the edges and the edge-to-cell table. */
  datatype Topology = Topology(tmpl: Template, N: nat, cell: seq<Cell>,
                               edge: seq<(nat, nat)>, edge2cell: seq<EdgeCell>)

  function Total(m: Topology): seq<Key>
    requires m.tmpl.Valid() && CellsFit(m.tmpl, m.cell)
  {
    TotalEdge(m.tmpl, m.cell)
  }

  /** The edge-to-cell table is an edge table of the cells and the edges are oriented from it. */
  predicate Wf(m: Topology) {
    && m.tmpl.Valid()
    && CellsFit(m.tmpl, m.cell)
    && EdgeTable(Total(m), |m.cell|, m.tmpl.E(), m.edge2cell)
    && m.edge == Orient(m.tmpl, m.cell, m.edge2cell)
  }

  /**
   * Every cell refers to nodes `0..N`. The node-indexed queries build arrays
   * and sparse matrices with `N` columns, which raise on a larger node number.
   */
  predicate NodesFit(cell: seq<Cell>, N: nat) {
    forall c, i :: 0 <= c < |cell| && 0 <= i < |cell[c]| ==> cell[c][i] < N
  }

  /** Every edge joins two of the nodes `0..N`, with one edge per row of `edge2cell`. */
  predicate EdgesFit(m: Topology) {
    |m.edge| == |m.edge2cell| &&
    forall e :: 0 <= e < |m.edge| ==> m.edge[e].0 < m.N && m.edge[e].1 < m.N
  }

  /** The edges of a well-formed topology whose cells fit refer to nodes `0..N` too. */
  lemma EdgeEndsFit(m: Topology)
    requires Wf(m) && NodesFit(m.cell, m.N)
    ensures EdgesFit(m)
  {
    forall e | 0 <= e < |m.edge| ensures m.edge[e].0 < m.N && m.edge[e].1 < m.N {
      EdgeMatchesKey(m, e);
    }
  }

  function LeftPos(m: Topology, e: nat): nat
    requires e < |m.edge2cell|
  {
    LeftAt(m.edge2cell[e], m.tmpl.E())
  }

  function RightPos(m: Topology, e: nat): nat
    requires e < |m.edge2cell|
  {
    RightAt(m.edge2cell[e], m.tmpl.E())
  }

  /** The sorted vertex pair of edge `e`. */
  function KeyOf(m: Topology, e: nat): Key
    requires Wf(m) && e < |m.edge2cell|
  {
    Total(m)[LeftPos(m, e)]
  }

  /** Different edges have different pairs. */
  lemma KeysDistinct(m: Topology, e: nat, e': nat)
    requires Wf(m) && e < |m.edge2cell| && e' < |m.edge2cell| && KeyOf(m, e) == KeyOf(m, e')
    ensures e == e'
  {
    var keys := KeysOf(Total(m), m.tmpl.E(), m.edge2cell);
    StrictlySortedInjective(keys, e, e');
  }

  /** Every pair of the total edge table is the pair of some edge. */
  lemma KeyCovered(m: Topology, k: nat) returns (e: nat)
    requires Wf(m) && k < |Total(m)|
    ensures e < |m.edge2cell| && KeyOf(m, e) == Total(m)[k]
  {
    var keys := KeysOf(Total(m), m.tmpl.E(), m.edge2cell);
    var i :| 0 <= i < |keys| && keys[i] == Total(m)[k];
    e := i;
  }

  /** The left side of edge `e` is the first place of its pair, the right side the last. */
  lemma SidesAreFirstAndLast(m: Topology, e: nat)
    requires Wf(m) && e < |m.edge2cell|
    ensures LeftPos(m, e) <= RightPos(m, e) < |Total(m)|
    ensures Total(m)[RightPos(m, e)] == KeyOf(m, e)
    ensures forall i :: 0 <= i < |Total(m)| && Total(m)[i] == KeyOf(m, e) ==> LeftPos(m, e) <= i <= RightPos(m, e)
  {
    assert FirstAndLast(Total(m), m.tmpl.E(), m.edge2cell[e]);
  }

  /** A pair that occurs once gives a boundary edge: both sides are the same (cell, slot). */
  lemma SingleOccurrenceIsOneSided(m: Topology, e: nat)
    requires Wf(m) && e < |m.edge2cell|
    requires forall k :: 0 <= k < |Total(m)| && Total(m)[k] == KeyOf(m, e) ==> k == LeftPos(m, e)
    ensures m.edge2cell[e].left == m.edge2cell[e].right
    ensures m.edge2cell[e].leftSlot == m.edge2cell[e].rightSlot
  {
    SidesAreFirstAndLast(m, e);
    var ec := m.edge2cell[e];
    assert RowFits(Total(m), |m.cell|, m.tmpl.E(), ec);
    PosInjective(ec.left, ec.leftSlot, ec.right, ec.rightSlot, m.tmpl.E());
  }

  /** A pair that occurs exactly twice: the right side is the other place. */
  lemma DoubleOccurrenceIsTwoSided(m: Topology, e: nat, p: nat)
    requires Wf(m) && e < |m.edge2cell|
    requires p < |Total(m)| && p != LeftPos(m, e) && Total(m)[p] == KeyOf(m, e)
    requires forall k :: 0 <= k < |Total(m)| && Total(m)[k] == KeyOf(m, e) ==> k == LeftPos(m, e) || k == p
    ensures RightPos(m, e) == p
    ensures RowCol(p, m.tmpl.E()) == (m.edge2cell[e].right, m.edge2cell[e].rightSlot)
  {
    SidesAreFirstAndLast(m, e);
    assert RowFits(Total(m), |m.cell|, m.tmpl.E(), m.edge2cell[e]);
    RowColOfPos(m.edge2cell[e].right, m.edge2cell[e].rightSlot, m.tmpl.E());
  }

  /** Two local edges of a cell without repeated vertices have different pairs. */
  lemma DistinctLocalKeys(t: Template, row: Cell, l: nat, l': nat)
    requires t.Valid() && t.Simple() && |row| == t.V && l < t.E() && l' < t.E() && l != l'
    requires forall i, j :: 0 <= i < j < |row| ==> row[i] != row[j]
    ensures LocalKey(t, row, l) != LocalKey(t, row, l')
  {
    if l > l' {
      DistinctLocalKeys(t, row, l', l);
    }
  }

  /** A pair that occurs once is exactly a pair whose only place is the edge's left side. */
  predicate SingleOccurrence(m: Topology, e: nat)
    requires Wf(m) && e < |m.edge2cell|
  {
    forall k :: 0 <= k < |Total(m)| && Total(m)[k] == KeyOf(m, e) ==> k == LeftPos(m, e)
  }

  /** With no repeated vertex in a cell, an edge with one cell has a pair that occurs once. */
  lemma OneSidedIsSingleOccurrence(m: Topology, e: nat)
    requires Wf(m) && e < |m.edge2cell| && m.tmpl.Simple() && NonDegenerate(m.cell)
    requires m.edge2cell[e].left == m.edge2cell[e].right
    ensures SingleOccurrence(m, e)
  {
    SidesAreFirstAndLast(m, e);
    var ec := m.edge2cell[e];
    assert RowFits(Total(m), |m.cell|, m.tmpl.E(), ec);
    if ec.leftSlot != ec.rightSlot {
      TotalEdgeAt(m.tmpl, m.cell, ec.left, ec.leftSlot);
      TotalEdgeAt(m.tmpl, m.cell, ec.right, ec.rightSlot);
      var row := m.cell[ec.left];
      assert forall i, j :: 0 <= i < j < |row| ==> row[i] != row[j];
      DistinctLocalKeys(m.tmpl, row, ec.leftSlot, ec.rightSlot);
      assert false;
    }
  }

  /**
   * `boundary_edge_flag`: when no cell repeats a vertex and no two local
   * edges name the same pair, an edge has the same left and right cell
   * exactly when its pair occurs once in the total edge table.
   */
  lemma BoundaryIffSingleOccurrence(m: Topology, e: nat)
    requires Wf(m) && e < |m.edge2cell| && m.tmpl.Simple() && NonDegenerate(m.cell)
    ensures m.edge2cell[e].left == m.edge2cell[e].right <==> SingleOccurrence(m, e)
  {
    if m.edge2cell[e].left == m.edge2cell[e].right {
      OneSidedIsSingleOccurrence(m, e);
    } else if SingleOccurrence(m, e) {
      SingleOccurrenceIsOneSided(m, e);
    }
  }

  /** Edge `e` is local edge `leftSlot` of its left cell, and its sorted form is its pair. */
  lemma EdgeMatchesKey(m: Topology, e: nat)
    requires Wf(m) && e < |m.edge2cell|
    ensures var ec := m.edge2cell[e];
      ec.left < |m.cell| && ec.leftSlot < m.tmpl.E() &&
      m.edge[e] == CellEdge(m.tmpl, m.cell[ec.left], ec.leftSlot) &&
      SortPair(m.edge[e].0, m.edge[e].1) == KeyOf(m, e)
  {
    var ec := m.edge2cell[e];
    assert RowFits(Total(m), |m.cell|, m.tmpl.E(), ec);
    TotalEdgeAt(m.tmpl, m.cell, ec.left, ec.leftSlot);
  }

  /** As many edges as distinct sorted vertex pairs of the local edges. */
  lemma EdgeCountIsDistinctPairs(m: Topology)
    requires Wf(m)
    ensures |m.edge| == |m.edge2cell| == |set k | k in Total(m)|
  {
    var keys := KeysOf(Total(m), m.tmpl.E(), m.edge2cell);
    StrictlySortedCard(keys);
    forall k ensures k in keys <==> k in Total(m) {
      if k in keys {
        var e :| 0 <= e < |keys| && keys[e] == k;
        assert keys[e] == KeyOf(m, e);
      }
    }
    SameMembersSameCount(keys, Total(m));
  }

  /** The edges, sorted, are exactly the sorted vertex pairs of the local edges. */
  lemma EdgesAreDistinctPairs(m: Topology, k: Key)
    requires Wf(m)
    ensures k in Total(m) <==> exists e :: 0 <= e < |m.edge| && SortPair(m.edge[e].0, m.edge[e].1) == k
  {
    if k in Total(m) {
      var i :| 0 <= i < |Total(m)| && Total(m)[i] == k;
      var e := KeyCovered(m, i);
      EdgeMatchesKey(m, e);
    }
    if e :| 0 <= e < |m.edge| && SortPair(m.edge[e].0, m.edge[e].1) == k {
      EdgeMatchesKey(m, e);
    }
  }

  // ----- scatter queries -------------------------------------------------

  /** The (left cell, left slot) and (right cell, right slot) columns as pairs. */
  function Lefts(m: Topology): (r: seq<(nat, nat)>)
    ensures |r| == |m.edge2cell|
  {
    seq(|m.edge2cell|, e requires 0 <= e < |m.edge2cell| => (m.edge2cell[e].left, m.edge2cell[e].leftSlot))
  }

  function Rights(m: Topology): (r: seq<(nat, nat)>)
    ensures |r| == |m.edge2cell|
  {
    seq(|m.edge2cell|, e requires 0 <= e < |m.edge2cell| => (m.edge2cell[e].right, m.edge2cell[e].rightSlot))
  }

  /** Two edges that occupy the same (cell, slot), on any side, are the same edge. */
  lemma SlotOwner(m: Topology, e: nat, e': nat)
    requires Wf(m) && e < |m.edge2cell| && e' < |m.edge2cell|
    requires Lefts(m)[e] == Lefts(m)[e'] || Lefts(m)[e] == Rights(m)[e'] ||
             Rights(m)[e] == Lefts(m)[e'] || Rights(m)[e] == Rights(m)[e']
    ensures e == e'
  {
    SidesAreFirstAndLast(m, e);
    SidesAreFirstAndLast(m, e');
    KeysDistinct(m, e, e');
  }

  /**
   * Which write survives at slot `(c, l)` of a zeroed `(NC, E)` array after
   * `a[left, leftSlot] = ...` and then `a[right, rightSlot] = ...`: the last
   * right-side write if there is one, else the last left-side write.
   */
  datatype Writer = NoWrite | LeftWrite(edge: nat) | RightWrite(edge: nat)

  function SlotWriter(m: Topology, c: nat, l: nat): Writer
  {
    match LastMatch(Rights(m), (c, l))
    case Some(e) => RightWrite(e)
    case None =>
      match LastMatch(Lefts(m), (c, l))
      case Some(e) => LeftWrite(e)
      case None => NoWrite
  }

  /** At a side of edge `e` the surviving write is `e`'s own. */
  lemma SlotWriterAtSide(m: Topology, e: nat, c: nat, l: nat)
    requires Wf(m) && e < |m.edge2cell|
    requires Lefts(m)[e] == (c, l) || Rights(m)[e] == (c, l)
    ensures SlotWriter(m, c, l) == if Rights(m)[e] == (c, l) then RightWrite(e) else LeftWrite(e)
  {
    match LastMatch(Rights(m), (c, l)) {
      case Some(e') => SlotOwner(m, e, e');
      case None =>
        SlotOwner(m, e, LastMatch(Lefts(m), (c, l)).value);
    }
  }

  /** `cell_to_edge()`: the edge at each local slot of each cell. */
  function CellToEdge(m: Topology): (r: seq<seq<nat>>)
    ensures |r| == |m.cell| && forall c :: 0 <= c < |r| ==> |r[c]| == m.tmpl.E()
  {
    seq(|m.cell|, c requires 0 <= c => seq(m.tmpl.E(), l requires 0 <= l => EdgeOfSlot(m, c, l)))
  }

  /** The edge whose write survives at slot `(c, l)`; `0` where none writes. */
  function EdgeOfSlot(m: Topology, c: nat, l: nat): nat {
    match SlotWriter(m, c, l)
    case LeftWrite(e) => e
    case RightWrite(e) => e
    case NoWrite => 0
  }

  /** The cell across the edge whose write survives at slot `(c, l)`; `0` where none writes. */
  function CellAcross(m: Topology, c: nat, l: nat): nat {
    match SlotWriter(m, c, l)
    case LeftWrite(e) => if e < |m.edge2cell| then m.edge2cell[e].right else 0
    case RightWrite(e) => if e < |m.edge2cell| then m.edge2cell[e].left else 0
    case NoWrite => 0
  }

  /** `cell_to_edge_sign()`: true exactly where some edge has its left side. */
  function CellToEdgeSign(m: Topology): (r: seq<seq<bool>>)
    ensures |r| == |m.cell| && forall c :: 0 <= c < |r| ==> |r[c]| == m.tmpl.E()
  {
    seq(|m.cell|, c requires 0 <= c => seq(m.tmpl.E(), l requires 0 <= l =>
      LastMatch(Lefts(m), (c, l)).Some?))
  }

  /** `cell_to_cell()`: across each local edge, the neighbouring cell. */
  function CellToCell(m: Topology): (r: seq<seq<nat>>)
    ensures |r| == |m.cell| && forall c :: 0 <= c < |r| ==> |r[c]| == m.tmpl.E()
  {
    seq(|m.cell|, c requires 0 <= c => seq(m.tmpl.E(), l requires 0 <= l => CellAcross(m, c, l)))
  }

  /** Both sides of every edge lie inside the cell table. */
  lemma SidesFit(m: Topology, e: nat)
    requires Wf(m) && e < |m.edge2cell|
    ensures var ec := m.edge2cell[e];
      ec.left < |m.cell| && ec.right < |m.cell| && ec.leftSlot < m.tmpl.E() && ec.rightSlot < m.tmpl.E()
  {
    assert RowFits(Total(m), |m.cell|, m.tmpl.E(), m.edge2cell[e]);
  }

  /** The edge recorded at one side of edge `e` is `e`, and the cell across it is the other side. */
  lemma SlotOfSide(m: Topology, e: nat, c: nat, l: nat)
    requires Wf(m) && e < |m.edge2cell| && c < |m.cell| && l < m.tmpl.E()
    requires Lefts(m)[e] == (c, l) || Rights(m)[e] == (c, l)
    ensures CellToEdge(m)[c][l] == e
    ensures CellToCell(m)[c][l] == if Rights(m)[e] == (c, l) then m.edge2cell[e].left else m.edge2cell[e].right
  {
    SlotWriterAtSide(m, e, c, l);
    TablesAtSlot(m, c, l);
  }

  lemma TablesAtSlot(m: Topology, c: nat, l: nat)
    requires c < |m.cell| && l < m.tmpl.E()
    ensures CellToEdge(m)[c][l] == EdgeOfSlot(m, c, l) && CellToCell(m)[c][l] == CellAcross(m, c, l)
  {
  }

  /**
   * The cell-to-edge table and the edge-to-cell table are inverse views:
   * the edge recorded at either side of edge `e` is `e`.
   */
  lemma CellToEdgeRoundTrip(m: Topology, e: nat)
    requires Wf(m) && e < |m.edge2cell|
    ensures var ec := m.edge2cell[e];
      ec.left < |m.cell| && ec.right < |m.cell| && ec.leftSlot < m.tmpl.E() && ec.rightSlot < m.tmpl.E() &&
      CellToEdge(m)[ec.left][ec.leftSlot] == e && CellToEdge(m)[ec.right][ec.rightSlot] == e
  {
    var ec := m.edge2cell[e];
    SidesFit(m, e);
    SlotOfSide(m, e, ec.left, ec.leftSlot);
    SlotOfSide(m, e, ec.right, ec.rightSlot);
  }

  /** The left and right cells of every edge see each other across it. */
  lemma CellToCellAcrossEdge(m: Topology, e: nat)
    requires Wf(m) && e < |m.edge2cell|
    ensures var ec := m.edge2cell[e];
      ec.left < |m.cell| && ec.right < |m.cell| && ec.leftSlot < m.tmpl.E() && ec.rightSlot < m.tmpl.E() &&
      CellToCell(m)[ec.left][ec.leftSlot] == ec.right && CellToCell(m)[ec.right][ec.rightSlot] == ec.left
  {
    var ec := m.edge2cell[e];
    SidesFit(m, e);
    SlotOfSide(m, e, ec.left, ec.leftSlot);
    SlotOfSide(m, e, ec.right, ec.rightSlot);
  }

  /** `cell_to_edge_sign()` is true exactly at the slots that are some edge's left side. */
  lemma SignIsLeftSide(m: Topology, c: nat, l: nat)
    requires c < |m.cell| && l < m.tmpl.E()
    ensures CellToEdgeSign(m)[c][l] <==> exists e :: 0 <= e < |m.edge2cell| && Lefts(m)[e] == (c, l)
  {
  }

  /** An edge's left side is the first place of its pair. */
  lemma LeftSideIsFirst(m: Topology, c: nat, l: nat, e: nat)
    requires Wf(m) && c < |m.cell| && l < m.tmpl.E() && e < |m.edge2cell| && Lefts(m)[e] == (c, l)
    requires Pos(c, l, m.tmpl.E()) < |Total(m)|
    ensures forall i :: 0 <= i < Pos(c, l, m.tmpl.E()) ==> Total(m)[i] != Total(m)[Pos(c, l, m.tmpl.E())]
  {
    SidesAreFirstAndLast(m, e);
    assert LeftPos(m, e) == Pos(c, l, m.tmpl.E());
  }

  /** The first place of a pair is some edge's left side. */
  lemma FirstIsLeftSide(m: Topology, c: nat, l: nat) returns (e: nat)
    requires Wf(m) && c < |m.cell| && l < m.tmpl.E() && Pos(c, l, m.tmpl.E()) < |Total(m)|
    requires forall i :: 0 <= i < Pos(c, l, m.tmpl.E()) ==> Total(m)[i] != Total(m)[Pos(c, l, m.tmpl.E())]
    ensures e < |m.edge2cell| && Lefts(m)[e] == (c, l)
  {
    var E := m.tmpl.E();
    var p := Pos(c, l, E);
    e := KeyCovered(m, p);
    SidesAreFirstAndLast(m, e);
    assert LeftPos(m, e) == p;
    assert RowFits(Total(m), |m.cell|, E, m.edge2cell[e]);
    PosInjective(c, l, m.edge2cell[e].left, m.edge2cell[e].leftSlot, E);
  }

  /** A slot is some edge's left side exactly when it is the first place of its pair. */
  lemma LeftSideIsFirstOccurrence(m: Topology, c: nat, l: nat)
    requires Wf(m) && c < |m.cell| && l < m.tmpl.E()
    ensures Pos(c, l, m.tmpl.E()) < |Total(m)|
    ensures (exists e :: 0 <= e < |m.edge2cell| && Lefts(m)[e] == (c, l)) <==>
            forall i :: 0 <= i < Pos(c, l, m.tmpl.E()) ==> Total(m)[i] != Total(m)[Pos(c, l, m.tmpl.E())]
  {
    TotalEdgeAt(m.tmpl, m.cell, c, l);
    if e :| 0 <= e < |m.edge2cell| && Lefts(m)[e] == (c, l) {
      LeftSideIsFirst(m, c, l, e);
    }
    if forall i :: 0 <= i < Pos(c, l, m.tmpl.E()) ==> Total(m)[i] != Total(m)[Pos(c, l, m.tmpl.E())] {
      var e := FirstIsLeftSide(m, c, l);
    }
  }

  /** `cell_to_edge_sign()` is true exactly at the first place of a pair. */
  lemma CellToEdgeSignAtFirstOccurrence(m: Topology, c: nat, l: nat)
    requires Wf(m) && c < |m.cell| && l < m.tmpl.E()
    ensures Pos(c, l, m.tmpl.E()) < |Total(m)|
    ensures CellToEdgeSign(m)[c][l] <==>
            forall i :: 0 <= i < Pos(c, l, m.tmpl.E()) ==> Total(m)[i] != Total(m)[Pos(c, l, m.tmpl.E())]
  {
    SignIsLeftSide(m, c, l);
    LeftSideIsFirstOccurrence(m, c, l);
  }

  /** No pair occurs at three places of the total edge table. */
  predicate Manifold(m: Topology)
    requires m.tmpl.Valid() && CellsFit(m.tmpl, m.cell)
  {
    forall i, j, k :: 0 <= i < j < k < |Total(m)| ==> !(Total(m)[i] == Total(m)[j] == Total(m)[k])
  }

  /**
   * On a manifold mesh every local slot is the left or the right side of the
   * edge that carries the slot's pair.
   */
  lemma SlotIsCovered(m: Topology, c: nat, l: nat) returns (e: nat)
    requires Wf(m) && Manifold(m) && c < |m.cell| && l < m.tmpl.E()
    ensures e < |m.edge2cell| && (Lefts(m)[e] == (c, l) || Rights(m)[e] == (c, l))
  {
    var E := m.tmpl.E();
    var p := Pos(c, l, E);
    TotalEdgeAt(m.tmpl, m.cell, c, l);
    e := KeyCovered(m, p);
    SidesAreFirstAndLast(m, e);
    var ec := m.edge2cell[e];
    assert RowFits(Total(m), |m.cell|, E, ec);
    if p == LeftPos(m, e) {
      PosInjective(c, l, ec.left, ec.leftSlot, E);
    } else if p == RightPos(m, e) {
      PosInjective(c, l, ec.right, ec.rightSlot, E);
    } else {
      assert false;
    }
  }

  /**
   * On a manifold mesh every slot of the cell-to-edge table names an edge,
   * and that edge's sorted endpoints are the slot's local edge.
   */
  lemma CellToEdgeIsInverse(m: Topology, c: nat, l: nat)
    requires Wf(m) && Manifold(m) && c < |m.cell| && l < m.tmpl.E()
    ensures CellToEdge(m)[c][l] < |m.edge|
    ensures SortPair(m.edge[CellToEdge(m)[c][l]].0, m.edge[CellToEdge(m)[c][l]].1) == LocalKey(m.tmpl, m.cell[c], l)
  {
    var e := SlotIsCovered(m, c, l);
    CellToEdgeRoundTrip(m, e);
    EdgeMatchesKey(m, e);
    SidesAreFirstAndLast(m, e);
    var ec := m.edge2cell[e];
    TotalEdgeAt(m.tmpl, m.cell, c, l);
    if Lefts(m)[e] == (c, l) {
      assert LeftPos(m, e) == Pos(c, l, m.tmpl.E());
    } else {
      assert RightPos(m, e) == Pos(c, l, m.tmpl.E());
    }
  }

  // ----- sparse relations ------------------------------------------------

  /** `cell_to_edge(sparse=True)`: each edge is incident to its left and right cell. */
  function CellToEdgeRelation(m: Topology): (r: set<(nat, nat)>)
    ensures forall c: nat, e: nat :: (c, e) in r <==>
              e < |m.edge2cell| && (c == m.edge2cell[e].left || c == m.edge2cell[e].right)
  {
    (set e | 0 <= e < |m.edge2cell| :: (m.edge2cell[e].left, e)) +
    (set e | 0 <= e < |m.edge2cell| :: (m.edge2cell[e].right, e))
  }

  /**
   * On a manifold mesh the sparse incidence agrees with the dense table: a
   * cell is incident to an edge exactly when the edge sits at one of its slots.
   */
  lemma CellToEdgeRelationMatchesDense(m: Topology, c: nat, e: nat)
    requires Wf(m) && Manifold(m) && c < |m.cell| && e < |m.edge2cell|
    ensures (c, e) in CellToEdgeRelation(m) <==> exists l :: 0 <= l < m.tmpl.E() && CellToEdge(m)[c][l] == e
  {
    var ec := m.edge2cell[e];
    CellToEdgeRoundTrip(m, e);
    if c == ec.left {
      assert CellToEdge(m)[c][ec.leftSlot] == e;
    } else if c == ec.right {
      assert CellToEdge(m)[c][ec.rightSlot] == e;
    }
    if l :| 0 <= l < m.tmpl.E() && CellToEdge(m)[c][l] == e {
      var e' := SlotIsCovered(m, c, l);
      CellToEdgeRoundTrip(m, e');
    }
  }

  /** `cell_to_node()`: each cell is incident to its vertices. */
  function CellToNode(m: Topology): (r: set<(nat, nat)>)
    requires NodesFit(m.cell, m.N)
    ensures forall c: nat, v: nat :: (c, v) in r <==> c < |m.cell| && v in m.cell[c]
    ensures forall c: nat, v: nat :: (c, v) in r ==> v < m.N
  {
    set c, i | 0 <= c < |m.cell| && 0 <= i < |m.cell[c]| :: (c, m.cell[c][i])
  }

  /** `node_to_cell()`: the transpose of the cell-to-node incidence. */
  function NodeToCell(m: Topology): (r: set<(nat, nat)>)
    requires NodesFit(m.cell, m.N)
    ensures forall v, c :: (v, c) in r <==> (c, v) in CellToNode(m)
  {
    set c, i | 0 <= c < |m.cell| && 0 <= i < |m.cell[c]| :: (m.cell[c][i], c)
  }

  /** `edge_to_node(sparse=True)`: each edge is incident to its two endpoints. */
  function EdgeToNode(m: Topology): (r: set<(nat, nat)>)
    requires EdgesFit(m)
    ensures forall e: nat, v: nat :: (e, v) in r <==> e < |m.edge| && (v == m.edge[e].0 || v == m.edge[e].1)
    ensures forall e: nat, v: nat :: (e, v) in r ==> v < m.N
  {
    (set e | 0 <= e < |m.edge| :: (e, m.edge[e].0)) + (set e | 0 <= e < |m.edge| :: (e, m.edge[e].1))
  }

  /** `node_to_edge()`: the transpose of the edge-to-node incidence. */
  function NodeToEdge(m: Topology): (r: set<(nat, nat)>)
    requires EdgesFit(m)
    ensures forall v, e :: (v, e) in r <==> (e, v) in EdgeToNode(m)
  {
    (set e | 0 <= e < |m.edge| :: (m.edge[e].0, e)) + (set e | 0 <= e < |m.edge| :: (m.edge[e].1, e))
  }

  /** `node_to_node()`: two nodes are adjacent when an edge joins them, in either direction. */
  function NodeToNode(m: Topology): (r: set<(nat, nat)>)
    requires EdgesFit(m)
    ensures forall a, b :: (a, b) in r <==> (b, a) in r
    ensures forall a, b :: (a, b) in r <==>
              exists e :: 0 <= e < |m.edge| && (m.edge[e] == (a, b) || m.edge[e] == (b, a))
    ensures forall a, b :: (a, b) in r ==> a < m.N && b < m.N
  {
    (set e | 0 <= e < |m.edge| :: m.edge[e]) + (set e | 0 <= e < |m.edge| :: (m.edge[e].1, m.edge[e].0))
  }

  /** An edge's endpoints are the two vertices of a local edge of some cell. */
  lemma EdgeIsLocalEdge(m: Topology, a: nat, b: nat)
    requires Wf(m)
    requires exists e :: 0 <= e < |m.edge| && (m.edge[e] == (a, b) || m.edge[e] == (b, a))
    ensures exists c, l :: 0 <= c < |m.cell| && 0 <= l < m.tmpl.E() && LocalKey(m.tmpl, m.cell[c], l) == SortPair(a, b)
  {
    var e :| 0 <= e < |m.edge| && (m.edge[e] == (a, b) || m.edge[e] == (b, a));
    EdgeMatchesKey(m, e);
    var ec := m.edge2cell[e];
    assert LocalKey(m.tmpl, m.cell[ec.left], ec.leftSlot) == SortPair(a, b);
  }

  /** The two vertices of every local edge of every cell are joined by an edge. */
  lemma LocalEdgeIsEdge(m: Topology, c: nat, l: nat)
    requires Wf(m) && c < |m.cell| && l < m.tmpl.E()
    ensures exists e :: 0 <= e < |m.edge| && (m.edge[e] == CellEdge(m.tmpl, m.cell[c], l) ||
                                              m.edge[e] == (CellEdge(m.tmpl, m.cell[c], l).1, CellEdge(m.tmpl, m.cell[c], l).0))
  {
    TotalEdgeAt(m.tmpl, m.cell, c, l);
    var e := KeyCovered(m, Pos(c, l, m.tmpl.E()));
    EdgeMatchesKey(m, e);
  }

  /**
   * Two nodes are adjacent exactly when they are the two vertices of a local
   * edge of some cell.
   */
  lemma NodeToNodeIsCellAdjacency(m: Topology, a: nat, b: nat)
    requires Wf(m) && NodesFit(m.cell, m.N)
    ensures EdgesFit(m)
    ensures (a, b) in NodeToNode(m) <==>
            exists c, l :: 0 <= c < |m.cell| && 0 <= l < m.tmpl.E() && LocalKey(m.tmpl, m.cell[c], l) == SortPair(a, b)
  {
    EdgeEndsFit(m);
    if (a, b) in NodeToNode(m) {
      EdgeIsLocalEdge(m, a, b);
    }
    if c, l :| 0 <= c < |m.cell| && 0 <= l < m.tmpl.E() && LocalKey(m.tmpl, m.cell[c], l) == SortPair(a, b) {
      LocalEdgeIsEdge(m, c, l);
    }
  }

  /** `node_to_node(return_array=True)`: neighbour lists and their offsets. */
  function NodeToNodeArray(m: Topology): (r: (seq<nat>, seq<nat>))
    requires EdgesFit(m)
  {
    Csr(NodeToNode(m), m.N)
  }

  /**
   * The offsets start at 0 and grow by each node's degree; row `i` lists
   * exactly the neighbours of node `i`, in increasing order.
   */
  lemma NodeToNodeDegree(m: Topology, i: nat)
    requires EdgesFit(m) && i < m.N
    ensures var (adj, loc) := NodeToNodeArray(m);
      |loc| == m.N + 1 && loc[0] == 0 && loc[i] <= loc[i + 1] <= |adj| &&
      loc[i + 1] - loc[i] == |RowOf(NodeToNode(m), i, m.N)| &&
      Increasing(adj[loc[i]..loc[i + 1]]) &&
      forall b: nat :: b in adj[loc[i]..loc[i + 1]] <==> (i, b) in NodeToNode(m)
  {
    CsrRow(NodeToNode(m), m.N, i);
  }

  /**
   * `cell_to_cell(return_sparse=True)`: left and right cells of every edge,
   * both ways; with `return_boundary=False` only interior edges count, so
   * no cell is its own neighbour.
   */
  function CellToCellRelation(m: Topology, withBoundary: bool): (r: set<(nat, nat)>)
    ensures forall a, b :: (a, b) in r <==> (b, a) in r
    ensures !withBoundary ==> forall a :: (a, a) !in r
    ensures forall a, b :: (a, b) in r <==>
              exists e :: 0 <= e < |m.edge2cell| &&
                (withBoundary || m.edge2cell[e].left != m.edge2cell[e].right) &&
                ((a, b) == (m.edge2cell[e].left, m.edge2cell[e].right) ||
                 (b, a) == (m.edge2cell[e].left, m.edge2cell[e].right))
  {
    var es := set e | 0 <= e < |m.edge2cell| && (withBoundary || m.edge2cell[e].left != m.edge2cell[e].right);
    (set e | e in es :: (m.edge2cell[e].left, m.edge2cell[e].right)) +
    (set e | e in es :: (m.edge2cell[e].right, m.edge2cell[e].left))
  }

  /** `cell_to_cell(return_array=True)`: interior neighbours in compressed rows. */
  function CellToCellArray(m: Topology): (r: (seq<nat>, seq<nat>))
  {
    Csr(CellToCellRelation(m, false), |m.cell|)
  }

  /** Row `c` of the compressed form lists the interior neighbours of cell `c`, never `c` itself. */
  lemma CellToCellDegree(m: Topology, c: nat)
    requires c < |m.cell|
    ensures var (adj, loc) := CellToCellArray(m);
      |loc| == |m.cell| + 1 && loc[0] == 0 && loc[c] <= loc[c + 1] <= |adj| &&
      Increasing(adj[loc[c]..loc[c + 1]]) &&
      forall d: nat :: d in adj[loc[c]..loc[c + 1]] <==> d < |m.cell| && d != c && (c, d) in CellToCellRelation(m, false)
  {
    CsrRow(CellToCellRelation(m, false), |m.cell|, c);
  }

  // ----- boundary --------------------------------------------------------

  /** `boundary_edge_flag()`: an edge is on the boundary when it has one cell. */
  function BoundaryEdgeFlag(m: Topology): (r: seq<bool>)
    ensures |r| == |m.edge2cell|
  {
    seq(|m.edge2cell|, e requires 0 <= e < |m.edge2cell| => m.edge2cell[e].left == m.edge2cell[e].right)
  }

  /** `boundary_edge_index()`: the boundary edges in increasing order. */
  function BoundaryEdgeIndex(m: Topology): (r: seq<nat>)
    ensures Increasing(r)
    ensures forall e: nat :: e in r <==> e < |m.edge2cell| && m.edge2cell[e].left == m.edge2cell[e].right
  {
    Nonzero(BoundaryEdgeFlag(m))
  }

  /** The endpoints of the listed edges, flattened: `edge[idx, :]`. */
  function Endpoints(edge: seq<(nat, nat)>, idx: seq<nat>): (r: seq<nat>)
    requires forall k :: 0 <= k < |idx| ==> idx[k] < |edge|
    ensures forall v :: v in r <==> exists k :: 0 <= k < |idx| && (v == edge[idx[k]].0 || v == edge[idx[k]].1)
  {
    if idx == [] then []
    else
      var n := |idx| - 1;
      var head := Endpoints(edge, idx[..n]);
      assert forall k :: 0 <= k < n ==> idx[..n][k] == idx[k];
      head + [edge[idx[n]].0, edge[idx[n]].1]
  }

  /** Whether node `v` ends a boundary edge. */
  predicate OnBoundaryEdge(m: Topology, v: nat)
    requires |m.edge| == |m.edge2cell|
  {
    exists e :: 0 <= e < |m.edge| && m.edge2cell[e].left == m.edge2cell[e].right &&
                (v == m.edge[e].0 || v == m.edge[e].1)
  }

  /**
   * `boundary_node_flag()`: `isBdPoint[edge[isBdEdge, :]] = True`, which
   * raises unless every edge end is below `N`.
   */
  function BoundaryNodeFlag(m: Topology): (r: seq<bool>)
    requires EdgesFit(m)
    ensures |r| == m.N
    ensures forall v :: 0 <= v < m.N ==> (r[v] <==> OnBoundaryEdge(m, v))
    ensures forall v: nat :: OnBoundaryEdge(m, v) ==> v < m.N
  {
    var idx := BoundaryEdgeIndex(m);
    var pts := Endpoints(m.edge, idx);
    assert forall v :: v in pts <==> OnBoundaryEdge(m, v) by {
      forall v ensures v in pts <==> OnBoundaryEdge(m, v) {
        if OnBoundaryEdge(m, v) {
          var e :| 0 <= e < |m.edge| && m.edge2cell[e].left == m.edge2cell[e].right &&
                   (v == m.edge[e].0 || v == m.edge[e].1);
          assert e in idx;
          var k :| 0 <= k < |idx| && idx[k] == e;
        }
      }
    }
    seq(m.N, v requires 0 <= v < m.N => v in pts)
  }

  /** `boundary_node_index()`: the boundary nodes in increasing order. */
  function BoundaryNodeIndex(m: Topology): (r: seq<nat>)
    requires EdgesFit(m)
    ensures Increasing(r)
    ensures forall v: nat :: v in r <==> OnBoundaryEdge(m, v)
  {
    Nonzero(BoundaryNodeFlag(m))
  }

  /** Whether cell `c` is the left cell of a boundary edge. */
  predicate OwnsBoundaryEdge(m: Topology, c: nat) {
    exists e :: 0 <= e < |m.edge2cell| && m.edge2cell[e].left == m.edge2cell[e].right && m.edge2cell[e].left == c
  }

  /** `boundary_cell_flag()`: `isBdCell[edge2cell[isBdEdge, 0]] = True`. */
  function BoundaryCellFlag(m: Topology): (r: seq<bool>)
    ensures |r| == |m.cell|
    ensures forall c :: 0 <= c < |m.cell| ==> (r[c] <==> OwnsBoundaryEdge(m, c))
  {
    var idx := BoundaryEdgeIndex(m);
    var owners := seq(|idx|, k requires 0 <= k < |idx| => m.edge2cell[idx[k]].left);
    assert forall c :: c in owners <==> OwnsBoundaryEdge(m, c) by {
      forall c ensures c in owners <==> OwnsBoundaryEdge(m, c) {
        if OwnsBoundaryEdge(m, c) {
          var e :| 0 <= e < |m.edge2cell| && m.edge2cell[e].left == m.edge2cell[e].right && m.edge2cell[e].left == c;
          assert e in idx;
          var k :| 0 <= k < |idx| && idx[k] == e;
          assert owners[k] == c;
        }
      }
    }
    seq(|m.cell|, c requires 0 <= c < |m.cell| => c in owners)
  }

  /** `boundary_cell_index()`: the boundary cells in increasing order. */
  function BoundaryCellIndex(m: Topology): (r: seq<nat>)
    ensures Increasing(r)
    ensures forall c: nat :: c in r <==> c < |m.cell| && OwnsBoundaryEdge(m, c)
  {
    Nonzero(BoundaryCellFlag(m))
  }

  /** `boundary_edge()`: the boundary edges themselves, in index order. */
  function BoundaryEdges(m: Topology): (r: seq<(nat, nat)>)
    requires |m.edge| == |m.edge2cell|
    ensures |r| == |BoundaryEdgeIndex(m)|
    ensures forall k :: 0 <= k < |r| ==> r[k] == m.edge[BoundaryEdgeIndex(m)[k]]
  {
    var idx := BoundaryEdgeIndex(m);
    seq(|idx|, k requires 0 <= k < |idx| => m.edge[idx[k]])
  }

  /** The arrays `construct` stores form a well-formed topology with the cells. */
  lemma ConstructedIsWf(t: Template, N: nat, cell: seq<Cell>)
    requires t.Valid() && CellsFit(t, cell)
    ensures EdgeTable(TotalEdge(t, cell), |cell|, t.E(), EdgeToCell(t, cell))
    ensures Wf(Topology(t, N, cell, Orient(t, cell, EdgeToCell(t, cell)), EdgeToCell(t, cell)))
  {
    ConstructIsEdgeTable(t, cell);
  }

  // ----- the data structure and the mesh ---------------------------------

  /**
   * `Mesh2dDataStructure`: the node count, the cells and the edge arrays
   * `construct` derives from them. `tmpl` is the cell type's constant
   * template (`V`, `E` and `localEdge` of the concrete mesh class).
   */
  class Mesh2dDataStructure {
    const tmpl: Template
    var N: nat
    var NC: nat
    var cell: seq<Cell>
    var NE: nat
    var edge: seq<(nat, nat)>
    var edge2cell: seq<EdgeCell>

    /** The fields as a topology value, on which the queries are defined. */
    function Topo(): Topology
      reads this
    {
      Topology(tmpl, N, cell, edge, edge2cell)
    }

    /** The counts agree with the arrays and the edge arrays are those of the cells. */
    predicate Valid()
      reads this
    {
      NC == |cell| && NE == |edge2cell| && NodesFit(cell, N) && Wf(Topo())
    }

    /**
     * `__init__(N, cell)`: store the cells and construct the edges. The
     * cells name nodes below `N`, as every node-indexed query requires.
     */
    constructor (tmpl: Template, N: nat, cell: seq<Cell>)
      requires tmpl.Valid() && CellsFit(tmpl, cell) && NodesFit(cell, N)
      ensures this.tmpl == tmpl && this.N == N && this.cell == cell
      ensures Valid() && edge2cell == EdgeToCell(tmpl, cell)
    {
      this.tmpl := tmpl;
      this.N := N;
      NC := |cell|;
      this.cell := cell;
      NE := 0;
      edge := [];
      edge2cell := [];
      new;
      Construct();
    }

    /** `reinit(N, cell)`: replace the cells and rebuild the edges. */
    method Reinit(N: nat, cell: seq<Cell>)
      requires tmpl.Valid() && CellsFit(tmpl, cell) && NodesFit(cell, N)
      modifies this
      ensures this.N == N && this.cell == cell
      ensures Valid() && edge2cell == EdgeToCell(tmpl, cell)
    {
      this.N := N;
      NC := |cell|;
      this.cell := cell;
      Construct();
    }

    /** `clear()`: drop the edge arrays, keeping the cells. */
    method Clear()
      modifies this`edge, this`edge2cell
      ensures edge == [] && edge2cell == []
    {
      edge := [];
      edge2cell := [];
    }

    /** `number_of_vertices_of_cells()`. */
    function NumberOfVerticesOfCells(): (r: nat)
    {
      tmpl.V
    }

    /** `number_of_edges_of_cells()`. */
    function NumberOfEdgesOfCells(): (r: nat)
    {
      tmpl.E()
    }

    /**
     * `construct()`: deduplicate the total edge table, scatter
     * `i1[j] = arange(E * NC)` so that `i1[e]` is the last place of edge
     * `e`'s pair, and split the first and last places into cell and slot.
     */
    method Construct()
      requires tmpl.Valid() && CellsFit(tmpl, cell) && NodesFit(cell, N) && NC == |cell|
      modifies this
      ensures N == old(N) && cell == old(cell)
      ensures Valid() && edge2cell == EdgeToCell(tmpl, cell)
    {
      var t, cs := tmpl, cell;
      var E := t.E();
      var u := Dedup(t, cs);
      var n := |u.first|;
      var last := ScatterLast(u.inverse, n);
      var e2c := SplitPlaces(u.first, last, E);
      SplitIsEdgeToCell(t, cs, last);
      ConstructedIsWf(t, N, cs);
      NE := n;
      edge2cell := e2c;
      edge := Orient(t, cs, e2c);
    }
  }

  /** `(i0 // E, i1 // E, i0 % E, i1 % E)` row by row. */
  function SplitPlaces(i0: seq<nat>, i1: seq<nat>, E: nat): (r: seq<EdgeCell>)
    requires E > 0 && |i0| == |i1|
    ensures |r| == |i0|
    ensures forall e :: 0 <= e < |r| ==> LeftAt(r[e], E) == i0[e] && RightAt(r[e], E) == i1[e]
  {
    seq(|i0|, e requires 0 <= e < |i0| => SplitPlace(i0[e], i1[e], E))
  }

  /** Splitting the first and last places of every pair gives the edge-to-cell table. */
  lemma SplitIsEdgeToCell(t: Template, cell: seq<Cell>, last: seq<nat>)
    requires t.Valid() && CellsFit(t, cell)
    requires |last| == |Dedup(t, cell).first|
    requires forall e :: 0 <= e < |last| ==> last[e] == LastIndexOf(Dedup(t, cell).inverse, e)
    ensures SplitPlaces(Dedup(t, cell).first, last, t.E()) == EdgeToCell(t, cell)
  {
  }

  /**
   * `i1 = zeros(n); i1[j] = arange(len(j))`: every `i1[e]` ends up holding
   * the last place of `e` in `j`, or 0 where `e` does not occur.
   */
  method ScatterLast(j: seq<nat>, n: nat) returns (i1: seq<nat>)
    requires forall k :: 0 <= k < |j| ==> j[k] < n
    ensures |i1| == n
    ensures forall e :: 0 <= e < n ==> i1[e] == LastIndexOf(j, e)
  {
    var a := new nat[n](_ => 0);
    var k := 0;
    while k < |j|
      invariant k <= |j|
      invariant forall e :: 0 <= e < n ==> a[e] == LastIndexOf(j[..k], e)
    {
      assert j[..k + 1][..k] == j[..k];
      a[j[k]] := k;
      k := k + 1;
    }
    assert j[..k] == j;
    i1 := a[..];
  }

  /** What `entity(dim)` returns. */
  datatype Entity = Nodes(node: seq<seq<real>>) | Edges(edge: seq<(nat, nat)>) | Cells(cell: seq<Cell>)

  /** The number of rows of an entity array. */
  function Rows(x: Entity): nat
  {
    match x
    case Nodes(node) => |node|
    case Edges(edge) => |edge|
    case Cells(cell) => |cell|
  }

  /** `Mesh2d`: node coordinates and the topology data structure. */
  class Mesh2d {
    var node: seq<seq<real>>
    var ds: Mesh2dDataStructure

    constructor (node: seq<seq<real>>, ds: Mesh2dDataStructure)
      ensures this.node == node && this.ds == ds
    {
      this.node := node;
      this.ds := ds;
    }

    function NumberOfNodes(): (r: nat)
      reads this
    {
      |node|
    }

    function NumberOfEdges(): (r: nat)
      reads this, ds
    {
      ds.NE
    }

    function NumberOfCells(): (r: nat)
      reads this, ds
    {
      ds.NC
    }

    function NumberOfVerticesOfCells(): (r: nat)
      reads this
    {
      ds.NumberOfVerticesOfCells()
    }

    /** As written, `number_of_edges_of_cells()` asks the data structure for its vertex count. */
    function NumberOfEdgesOfCells(): (r: nat)
      reads this
    {
      ds.NumberOfVerticesOfCells()
    }

    /** `entity(dim)`: the cells, the edges or the nodes; any other `dim` raises. */
    function Entity(dim: int): (r: Result<Entity>)
      reads this, ds
    {
      if dim == 2 then Ok(Cells(ds.cell))
      else if dim == 1 then Ok(Edges(ds.edge))
      else if dim == 0 then Ok(Nodes(node))
      else Err("dim must be in [0, 1, 2]!")
    }

    /**
     * `entity(dim)` fails exactly outside `0..2`, and otherwise has as many
     * rows as the matching `number_of_*` count.
     */
    lemma EntityRows(dim: int)
      requires ds.Valid()
      ensures Entity(dim).Err? <==> dim !in {0, 1, 2}
      ensures dim == 0 ==> Rows(Entity(dim).value) == NumberOfNodes()
      ensures dim == 1 ==> Rows(Entity(dim).value) == NumberOfEdges()
      ensures dim == 2 ==> Rows(Entity(dim).value) == NumberOfCells()
    {
    }

    /** For a polygon, where the cell has as many edges as vertices, the two counts agree. */
    lemma EdgesOfCellsIsE()
      requires |ds.tmpl.localEdge| == ds.tmpl.V
      ensures NumberOfEdgesOfCells() == ds.NumberOfEdgesOfCells()
    {
    }
  }
}
