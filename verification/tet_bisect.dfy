/**
 * The bookkeeping of `bisect` in fealpy/mesh/TetrahedronMesh.py, as a
 * function of its buffers. One round relabels the marked cells so that
 * their chosen edge `(p0, p1)` comes first, finds or creates the midpoint
 * `p4` of that edge, splits each marked cell `(p0, p1, p2, p3)` into
 * `(p3, p0, p2, p4)` in place and `(p2, p1, p3, p4)` appended, and marks
 * for the next round every cell that holds both ends of a cut edge that
 * is still non-conforming. The loop runs until no cell is marked.
 *
 * Node coordinates enter only through midpoints; the choice of the edge
 * to cut (the longest one, with a random perturbation) is an input.
 */
module TetBisect {
  import opened ArrayOps
  import opened UniqueRow
  import opened Mesh2dTopology
  import opened TetTables
  import opened TetTopology

  /** A local edge number, as `argmax` over a cell's six edge lengths returns it. */
  type LocalEdgeId = l: nat | l < 6

  /** A row of `cutEdge`: a bisected edge `(i, j)` and the id of its midpoint. */
  datatype CutEdge = CutEdge(i: nat, j: nat, mid: nat)

  /** Both `a` and `b` are ends of `e`: `nv2v[e.mid, a] * nv2v[e.mid, b]` is set. */
  predicate Joins(e: CutEdge, a: nat, b: nat) {
    (a == e.i || a == e.j) && (b == e.i || b == e.j)
  }

  /** The cell row holds both ends of `e`: `cell2node[c, e.i] * cell2node[c, e.j]` is set. */
  predicate Holds(row: Cell, e: CutEdge) {
    e.i in row && e.j in row
  }

  function Max(a: nat, b: nat): nat {
    if a < b then b else a
  }

  /**
   * `p4[j] = i` over the nonzero entries `(i, j)` of
   * `nv2v[:, p0].multiply(nv2v[:, p1])`, for one marked cell: the entries
   * come in increasing `i` and the last write wins, so the cell receives
   * the largest midpoint among the flagged cut edges joining `a` and `b`.
   */
  function LargestMidpoint(cut: seq<CutEdge>, flag: seq<bool>, a: nat, b: nat): (r: Option<nat>)
    requires |flag| == |cut|
    ensures r.None? <==> forall k :: 0 <= k < |cut| && flag[k] ==> !Joins(cut[k], a, b)
    ensures r.Some? ==>
      (exists k :: 0 <= k < |cut| && flag[k] && Joins(cut[k], a, b) && cut[k].mid == r.value) &&
      forall k :: 0 <= k < |cut| && flag[k] && Joins(cut[k], a, b) ==> cut[k].mid <= r.value
  {
    if cut == [] then None
    else
      var n := |cut| - 1;
      var rest := LargestMidpoint(cut[..n], flag[..n], a, b);
      assert forall k :: 0 <= k < n ==> cut[..n][k] == cut[k] && flag[..n][k] == flag[k];
      if flag[n] && Joins(cut[n], a, b) && (rest.None? || rest.value < cut[n].mid) then Some(cut[n].mid)
      else rest
  }

  // ----- the state between rounds -----------------------------------------

  /**
   * The local state of `bisect` at the head of its loop: the over-allocated
   * buffers `node` (9 NN rows), `cell` (4 NC rows), `generation` (NN + 6 NC
   * entries), `cutEdge` and `nonConforming` (8 NN rows each), the counters
   * `NN`, `NC` and `nCut` of their used parts, and `markedCell`.
   */
  datatype Buffers = Buffers(node: seq<Point>, cell: seq<Cell>, generation: seq<nat>,
                             cutEdge: seq<CutEdge>, nonConforming: seq<bool>,
                             NN: nat, NC: nat, nCut: nat, marked: seq<nat>)

  /** Every used cell row names vertices below `n`. */
  predicate RowsBelow(cell: seq<Cell>, NC: nat, n: nat)
    requires Tets(cell) && NC <= |cell|
  {
    forall c, i :: 0 <= c < NC && 0 <= i < 4 ==> cell[c][i] < n
  }

  /** Every marked position names a cell below `n`. */
  predicate MarkedIn(marked: seq<nat>, n: nat) {
    forall k :: 0 <= k < |marked| ==> marked[k] < n
  }

  /**
   * The cut-edge ledger: edge `k` has midpoint `NN0 + k`, where `NN0` is the
   * node count `bisect` started from, its ends are sorted and older than its
   * midpoint, and the midpoint's coordinates are the mean of theirs.
   */
  predicate Ledger(node: seq<Point>, cutEdge: seq<CutEdge>, NN: nat, nCut: nat)
    requires nCut <= |cutEdge| && nCut <= NN <= |node|
  {
    forall k :: 0 <= k < nCut ==>
      cutEdge[k].mid == NN - nCut + k &&
      cutEdge[k].i <= cutEdge[k].j < cutEdge[k].mid &&
      node[cutEdge[k].mid] == Midpoint(node[cutEdge[k].i], node[cutEdge[k].j])
  }

  /** What holds of the buffers at the head of every round. */
  predicate Inv(b: Buffers) {
    Tets(b.cell) && b.NC <= |b.cell| &&
    b.nCut <= |b.cutEdge| == |b.nonConforming| && b.nCut <= b.NN <= |b.node| &&
    RowsBelow(b.cell, b.NC, b.NN) && RowsBelow(b.cell, b.NC, |b.generation|) &&
    Ledger(b.node, b.cutEdge, b.NN, b.nCut) &&
    (forall k :: b.nCut <= k < |b.nonConforming| ==> b.nonConforming[k]) &&
    Increasing(b.marked) && MarkedIn(b.marked, b.NC) &&
    (forall v :: 0 <= v < |b.generation| ==> b.generation[v] < 256)
  }

  /** A round can start: the invariant holds and every marked cell has a chosen edge. */
  predicate Ready(b: Buffers, lidx: seq<LocalEdgeId>) {
    Inv(b) && |lidx| == |b.marked|
  }

  // ----- one round, step by step --------------------------------------------

  /** Relabelling keeps every row's vertices, so rows stay below any bound they were below. */
  lemma LabelledRowsBelow(cell: seq<Cell>, idx: seq<nat>, lidx: seq<nat>, NC: nat, n: nat)
    requires Tets(cell) && NC <= |cell| && |lidx| == |idx| && RowsBelow(cell, NC, n)
    ensures RowsBelow(Labelled(cell, idx, lidx), NC, n)
  {
    forall c, i | 0 <= c < NC && 0 <= i < 4
      ensures Labelled(cell, idx, lidx)[c][i] < n
    {
      LabelKeepsVertices(cell, idx, lidx, 5, c);
      SameVerticesMembers(Labelled(cell, idx, lidx)[c], cell[c], i);
    }
  }

  /** `label(node, cell, markedCell)`: the buffer after relabelling the marked cells. */
  function Rows(b: Buffers, lidx: seq<LocalEdgeId>): (r: seq<Cell>)
    requires Ready(b, lidx)
    ensures |r| == |b.cell| && Tets(r)
    ensures RowsBelow(r, b.NC, b.NN) && RowsBelow(r, b.NC, |b.generation|)
  {
    LabelledRowsBelow(b.cell, b.marked, lidx, b.NC, b.NN);
    LabelledRowsBelow(b.cell, b.marked, lidx, b.NC, |b.generation|);
    Labelled(b.cell, b.marked, lidx)
  }

  /** `cell[markedCell, i]` for the `k`-th marked cell. */
  function Corner(rows: seq<Cell>, marked: seq<nat>, k: nat, i: nat): nat
    requires Tets(rows) && MarkedIn(marked, |rows|) && k < |marked| && i < 4
  {
    rows[marked[k]][i]
  }

  /** The `k`-th marked cell's chosen edge, sorted: a column of `cellCutEdge`. */
  function PairOf(rows: seq<Cell>, marked: seq<nat>, k: nat): Key
    requires Tets(rows) && MarkedIn(marked, |rows|) && k < |marked|
  {
    SortPair(Corner(rows, marked, k, 0), Corner(rows, marked, k, 1))
  }

  /** The midpoint each marked cell's edge `(p0, p1)` finds among the flagged cut edges. */
  function Lookup(rows: seq<Cell>, marked: seq<nat>, cut: seq<CutEdge>, flag: seq<bool>): (r: seq<Option<nat>>)
    requires Tets(rows) && MarkedIn(marked, |rows|) && |flag| == |cut|
    ensures |r| == |marked|
  {
    seq(|marked|, k requires 0 <= k < |marked| =>
      LargestMidpoint(cut, flag, Corner(rows, marked, k, 0), Corner(rows, marked, k, 1)))
  }

  /**
   * The first search for `p4`: none on the first round (`nCut == 0`), else
   * among the non-conforming cut edges.
   */
  function Found(b: Buffers, lidx: seq<LocalEdgeId>): (r: seq<Option<nat>>)
    requires Ready(b, lidx)
    ensures |r| == |b.marked|
  {
    if b.nCut == 0 then seq(|b.marked|, k => None)
    else Lookup(Rows(b, lidx), b.marked, b.cutEdge[..b.nCut], b.nonConforming[..b.nCut])
  }

  /** The sorted pairs of the first `n` marked cells that found no midpoint (`p4 == 0`). */
  function UncutPairs(rows: seq<Cell>, marked: seq<nat>, found: seq<Option<nat>>, n: nat): (r: seq<Key>)
    requires Tets(rows) && MarkedIn(marked, |rows|) && |found| == |marked| && n <= |marked|
    ensures forall y :: y in r <==>
      exists k :: 0 <= k < n && found[k].None? && y == PairOf(rows, marked, k)
  {
    if n == 0 then []
    else
      var head := UncutPairs(rows, marked, found, n - 1);
      head + (if found[n - 1].None? then [PairOf(rows, marked, n - 1)] else [])
  }

  /** The uncut pairs join nodes the marked cells name, smaller one first. */
  lemma UncutPairsBelow(rows: seq<Cell>, marked: seq<nat>, found: seq<Option<nat>>, NC: nat, NN: nat)
    requires Tets(rows) && NC <= |rows| && RowsBelow(rows, NC, NN) && MarkedIn(marked, NC) && |found| == |marked|
    ensures forall y :: y in UncutPairs(rows, marked, found, |marked|) ==> y.0 <= y.1 < NN
  {
    forall y | y in UncutPairs(rows, marked, found, |marked|) ensures y.0 <= y.1 < NN {
      var k :| 0 <= k < |marked| && found[k].None? && y == PairOf(rows, marked, k);
      assert rows[marked[k]][0] < NN && rows[marked[k]][1] < NN;
    }
  }

  /**
   * `i, j = s.nonzero()` for the boolean matrix `s` with an entry at every
   * uncut pair: the distinct new cut edges, in increasing order, each a pair
   * of existing nodes with the smaller one first.
   */
  function Pairs(b: Buffers, lidx: seq<LocalEdgeId>): (r: seq<Key>)
    requires Ready(b, lidx)
    ensures StrictlySorted(r)
    ensures forall t :: 0 <= t < |r| ==> r[t].0 <= r[t].1 < b.NN
  {
    var rows := Rows(b, lidx);
    var uncut := UncutPairs(rows, b.marked, Found(b, lidx), |b.marked|);
    UncutPairsBelow(rows, b.marked, Found(b, lidx), b.NC, b.NN);
    var r := SortedDistinct(uncut);
    assert forall t :: 0 <= t < |r| ==> r[t] in uncut;
    r
  }

  /**
   * The new cut edges are exactly the sorted edges of the marked cells that
   * found no midpoint among the non-conforming cut edges.
   */
  lemma PairsMembers(b: Buffers, lidx: seq<LocalEdgeId>)
    requires Ready(b, lidx)
    ensures forall y :: y in Pairs(b, lidx) <==>
      exists k :: 0 <= k < |b.marked| && Found(b, lidx)[k].None? && y == PairOf(Rows(b, lidx), b.marked, k)
  {
  }

  /** The rows `cutEdge[newCutEdge]`: pair `t` with midpoint `NN + t`. */
  function FreshEdges(pairs: seq<Key>, NN: nat): (r: seq<CutEdge>)
    ensures |r| == |pairs|
  {
    seq(|pairs|, t requires 0 <= t < |pairs| => CutEdge(pairs[t].0, pairs[t].1, NN + t))
  }

  /** `cutEdge` after the new edges are written at `nCut`. */
  function NewCuts(cutEdge: seq<CutEdge>, nCut: nat, NN: nat, pairs: seq<Key>): (r: seq<CutEdge>)
    requires nCut + |pairs| <= |cutEdge|
    ensures |r| == |cutEdge|
  {
    seq(|cutEdge|, k requires 0 <= k < |cutEdge| =>
      if nCut <= k < nCut + |pairs| then FreshEdges(pairs, NN)[k - nCut] else cutEdge[k])
  }

  /** `node` after `node[NN:NN+nNew] = (node[i] + node[j]) / 2`. */
  function WithMidpoints(node: seq<Point>, NN: nat, pairs: seq<Key>): (r: seq<Point>)
    requires NN + |pairs| <= |node|
    requires forall t :: 0 <= t < |pairs| ==> pairs[t].0 < |node| && pairs[t].1 < |node|
    ensures |r| == |node|
  {
    seq(|node|, v requires 0 <= v < |node| =>
      if NN <= v < NN + |pairs| then Midpoint(node[pairs[v - NN].0], node[pairs[v - NN].1]) else node[v])
  }

  function AllTrue(n: nat): (r: seq<bool>)
    ensures |r| == n && forall t :: 0 <= t < n ==> r[t]
  {
    seq(n, t => true)
  }

  /** The second search for `p4`, among the edges cut in this round. */
  function Second(b: Buffers, lidx: seq<LocalEdgeId>): (r: seq<Option<nat>>)
    requires Ready(b, lidx)
    ensures |r| == |b.marked|
  {
    var pairs := Pairs(b, lidx);
    Lookup(Rows(b, lidx), b.marked, FreshEdges(pairs, b.NN), AllTrue(|pairs|))
  }

  /**
   * `p4` after both searches: the midpoint among the new cut edges if there
   * is one, else the one the first search found, else `0` as `p4` was
   * allocated.
   */
  function P4(b: Buffers, lidx: seq<LocalEdgeId>): (r: seq<nat>)
    requires Ready(b, lidx)
    ensures |r| == |b.marked|
  {
    var found, second := Found(b, lidx), Second(b, lidx);
    seq(|b.marked|, k requires 0 <= k < |b.marked| =>
      if second[k].Some? then second[k].value else if found[k].Some? then found[k].value else 0)
  }

  /** The largest generation among a row's vertices. */
  function MaxGen(gen: seq<nat>, row: Cell): (g: nat)
    requires |row| == 4 && forall i :: 0 <= i < 4 ==> row[i] < |gen|
    ensures forall i :: 0 <= i < 4 ==> gen[row[i]] <= g
    ensures exists i :: 0 <= i < 4 && gen[row[i]] == g
  {
    Max(Max(gen[row[0]], gen[row[1]]), Max(gen[row[2]], gen[row[3]]))
  }

  /**
   * Generation `v` after the first `n` writes of `generation[p4[idx]] =
   * cellGeneration + 1`, `idx = generation[p4] == 0`, in `uint8`: a
   * midpoint still of generation 0 takes one more than the newest vertex of
   * the last of those marked cells that it splits.
   */
  function Scattered(gen: seq<nat>, rows: seq<Cell>, marked: seq<nat>, p4: seq<nat>, n: nat, v: nat): (g: nat)
    requires Tets(rows) && MarkedIn(marked, |rows|) && |p4| == |marked| && n <= |p4| && v < |gen|
    requires forall k, i :: 0 <= k < |marked| && 0 <= i < 4 ==> rows[marked[k]][i] < |gen|
    ensures g == gen[v] || (gen[v] == 0 && g < 256)
  {
    match LastMatch(p4[..n], v)
    case Some(k) => if gen[v] == 0 then (MaxGen(gen, rows[marked[k]]) + 1) % 256 else gen[v]
    case None => gen[v]
  }

  /** `generation` after the whole scatter. */
  function NewGeneration(gen: seq<nat>, rows: seq<Cell>, marked: seq<nat>, p4: seq<nat>): (r: seq<nat>)
    requires Tets(rows) && MarkedIn(marked, |rows|) && |p4| == |marked|
    requires forall k, i :: 0 <= k < |marked| && 0 <= i < 4 ==> rows[marked[k]][i] < |gen|
    ensures |r| == |gen|
    ensures forall v :: 0 <= v < |gen| ==> r[v] == gen[v] || (gen[v] == 0 && r[v] < 256)
  {
    seq(|gen|, v requires 0 <= v < |gen| => Scattered(gen, rows, marked, p4, |p4|, v))
  }

  /**
   * Row `c` after the first `n` marked cells are split: a marked cell `(p0,
   * p1, p2, p3)` becomes `(p3, p0, p2, p4)` in place, the last write winning,
   * and its sibling `(p2, p1, p3, p4)` goes to `NC + k`.
   */
  function SplitRow(rows: seq<Cell>, NC: nat, marked: seq<nat>, p4: seq<nat>, n: nat, c: nat): (r: Cell)
    requires Tets(rows) && NC + |marked| <= |rows| && MarkedIn(marked, NC) && |p4| == |marked|
    requires n <= |marked| && c < |rows|
    ensures |r| == 4
  {
    if c < NC then
      match LastMatch(marked[..n], c)
      case Some(k) => [rows[c][3], rows[c][0], rows[c][2], p4[k]]
      case None => rows[c]
    else if c < NC + n then
      var row := rows[marked[c - NC]];
      [row[2], row[1], row[3], p4[c - NC]]
    else rows[c]
  }

  /** `cell[markedCell] = (p3, p0, p2, p4)` and `cell[NC:NC+nMarked] = (p2, p1, p3, p4)`. */
  function SplitRows(rows: seq<Cell>, NC: nat, marked: seq<nat>, p4: seq<nat>): (r: seq<Cell>)
    requires Tets(rows) && NC + |marked| <= |rows| && MarkedIn(marked, NC) && |p4| == |marked|
    ensures |r| == |rows| && Tets(r)
  {
    seq(|rows|, c requires 0 <= c < |rows| => SplitRow(rows, NC, marked, p4, |marked|, c))
  }

  /** Some used cell holds both ends of cut edge `e`. */
  predicate HeldByCell(cell: seq<Cell>, NC: nat, e: CutEdge)
    requires NC <= |cell|
  {
    exists c :: 0 <= c < NC && Holds(cell[c], e)
  }

  /**
   * `nonConforming[checkEdge] = False; nonConforming[checkEdge[j]] = True`:
   * a non-conforming edge stays so iff some cell holds both its ends.
   */
  function StillNonConforming(cell: seq<Cell>, NC: nat, cut: seq<CutEdge>, live: seq<bool>, nCut: nat): (r: seq<bool>)
    requires NC <= |cell| && |cut| == |live| && nCut <= |live|
    ensures |r| == |live|
    ensures forall k :: 0 <= k < |live| ==> (r[k] ==> live[k]) && (nCut <= k ==> r[k] == live[k])
  {
    seq(|live|, k requires 0 <= k < |live| =>
      if k < nCut then live[k] && HeldByCell(cell, NC, cut[k]) else live[k])
  }

  /** Cell `c` holds both ends of some non-conforming cut edge. */
  predicate HoldsLive(row: Cell, cut: seq<CutEdge>, live: seq<bool>, nCut: nat)
    requires |cut| == |live| && nCut <= |live|
  {
    exists k :: 0 <= k < nCut && live[k] && Holds(row, cut[k])
  }

  /** `markedCell = np.unique(i)`: the cells holding both ends of a non-conforming edge. */
  function NextMarked(cell: seq<Cell>, NC: nat, cut: seq<CutEdge>, live: seq<bool>, nCut: nat): (r: seq<nat>)
    requires NC <= |cell| && |cut| == |live| && nCut <= |live|
    ensures Increasing(r) && MarkedIn(r, NC)
  {
    Nonzero(seq(NC, c requires 0 <= c < NC => HoldsLive(cell[c], cut, live, nCut)))
  }

  /** No write of the round runs past a buffer. */
  predicate Fits(b: Buffers, lidx: seq<LocalEdgeId>)
    requires Ready(b, lidx)
  {
    b.nCut + |Pairs(b, lidx)| <= |b.cutEdge| && b.NN + |Pairs(b, lidx)| <= |b.node| &&
    (forall k :: 0 <= k < |b.marked| ==> P4(b, lidx)[k] < |b.generation|) &&
    b.NC + |b.marked| <= |b.cell|
  }

  /** `cutEdge` after the round. */
  function NextCut(b: Buffers, lidx: seq<LocalEdgeId>): (r: seq<CutEdge>)
    requires Ready(b, lidx) && Fits(b, lidx)
    ensures |r| == |b.cutEdge|
  {
    NewCuts(b.cutEdge, b.nCut, b.NN, Pairs(b, lidx))
  }

  /** `node` after the round. */
  function NextNode(b: Buffers, lidx: seq<LocalEdgeId>): (r: seq<Point>)
    requires Ready(b, lidx) && Fits(b, lidx)
    ensures |r| == |b.node|
  {
    WithMidpoints(b.node, b.NN, Pairs(b, lidx))
  }

  /** `cell` after the round. */
  function NextCell(b: Buffers, lidx: seq<LocalEdgeId>): (r: seq<Cell>)
    requires Ready(b, lidx) && Fits(b, lidx)
    ensures |r| == |b.cell| && Tets(r)
  {
    SplitRows(Rows(b, lidx), b.NC, b.marked, P4(b, lidx))
  }

  /** `generation` after the round. */
  function NextGeneration(b: Buffers, lidx: seq<LocalEdgeId>): (r: seq<nat>)
    requires Ready(b, lidx) && Fits(b, lidx)
    ensures |r| == |b.generation|
  {
    NewGeneration(b.generation, Rows(b, lidx), b.marked, P4(b, lidx))
  }

  /**
   * The buffers once `node`, `cell`, `generation` and `cutEdge` are written
   * with `nNew` new cut edges: the flags are checked against the new cells,
   * and the cells holding a still non-conforming edge are the next marked.
   */
  function Advance(b: Buffers, node: seq<Point>, cell: seq<Cell>, gen: seq<nat>, cut: seq<CutEdge>, nNew: nat): (t: Buffers)
    requires b.NC + |b.marked| <= |cell| && |cut| == |b.nonConforming| && b.nCut + nNew <= |cut|
    ensures t.NC == b.NC + |b.marked| && t.cell == cell
  {
    var NC, nCut := b.NC + |b.marked|, b.nCut + nNew;
    Buffers(node, cell, gen, cut, StillNonConforming(cell, NC, cut, b.nonConforming, nCut),
            b.NN + nNew, NC, nCut, NextMarked(cell, NC, cut, b.nonConforming, nCut))
  }

  /** The buffers after one pass of the loop, when every write fits. */
  function Next(b: Buffers, lidx: seq<LocalEdgeId>): (t: Buffers)
    requires Ready(b, lidx) && Fits(b, lidx)
    ensures |t.cell| == |b.cell| && t.NC == b.NC + |b.marked|
  {
    Advance(b, NextNode(b, lidx), NextCell(b, lidx), NextGeneration(b, lidx), NextCut(b, lidx), |Pairs(b, lidx)|)
  }

  /**
   * The error reported when a write of the round runs past one of the
   * buffers, checked in the order the writes happen: the new rows of
   * `cutEdge`, the midpoints in `node`, the scatter into `generation`, and
   * the appended cells. NumPy raises in each of these cases except one: a
   * single marked cell meeting a full `cell` buffer, where the slice
   * assignment broadcasts into an empty slice and drops the second child.
   */
  function Overrun(b: Buffers, lidx: seq<LocalEdgeId>): (e: Option<string>)
    requires Ready(b, lidx)
    ensures e.None? <==> Fits(b, lidx)
  {
    var pairs := Pairs(b, lidx);
    if b.nCut + |pairs| > |b.cutEdge| then Some("index out of bounds: cutEdge")
    else if b.NN + |pairs| > |b.node| then Some("could not broadcast: node")
    else
      var p4 := P4(b, lidx);
      if exists k :: 0 <= k < |p4| && p4[k] >= |b.generation| then Some("index out of bounds: generation")
      else if b.NC + |b.marked| > |b.cell| then Some("could not broadcast: cell")
      else None
  }

  /** One pass of the `while` loop of `bisect`, or the error it raises. */
  function Round(b: Buffers, lidx: seq<LocalEdgeId>): (r: Result<Buffers>)
    requires Ready(b, lidx)
    ensures r.Ok? <==> Fits(b, lidx)
    ensures r.Ok? ==> r.value == Next(b, lidx)
  {
    match Overrun(b, lidx)
    case Some(m) => Err(m)
    case None => Ok(Next(b, lidx))
  }

  // ----- facts about the steps ---------------------------------------------

  /** Writing new edges and their midpoints just past the used parts keeps the ledger. */
  lemma LedgerGrows(node: seq<Point>, cutEdge: seq<CutEdge>, NN: nat, nCut: nat, pairs: seq<Key>)
    requires nCut <= NN && NN + |pairs| <= |node| && nCut + |pairs| <= |cutEdge|
    requires forall t :: 0 <= t < |pairs| ==> pairs[t].0 <= pairs[t].1 < NN
    requires Ledger(node, cutEdge, NN, nCut)
    ensures Ledger(WithMidpoints(node, NN, pairs), NewCuts(cutEdge, nCut, NN, pairs), NN + |pairs|, nCut + |pairs|)
  {
    var node', cut' := WithMidpoints(node, NN, pairs), NewCuts(cutEdge, nCut, NN, pairs);
    forall q | 0 <= q < nCut + |pairs|
      ensures cut'[q].mid == NN + |pairs| - (nCut + |pairs|) + q
      ensures cut'[q].i <= cut'[q].j < cut'[q].mid
      ensures node'[cut'[q].mid] == Midpoint(node'[cut'[q].i], node'[cut'[q].j])
    {
      var e := cut'[q];
      if q < nCut {
        assert e == cutEdge[q];
      } else {
        var s := q - nCut;
        assert e == FreshEdges(pairs, NN)[s] == CutEdge(pairs[s].0, pairs[s].1, NN + s);
        assert node'[e.mid] == Midpoint(node[e.i], node[e.j]);
      }
      assert node'[e.i] == node[e.i] && node'[e.j] == node[e.j];
    }
  }

  /** Splitting keeps every used row below a bound the midpoints are below too. */
  lemma SplitRowsBelow(rows: seq<Cell>, NC: nat, marked: seq<nat>, p4: seq<nat>, n: nat)
    requires Tets(rows) && NC + |marked| <= |rows| && MarkedIn(marked, NC) && |p4| == |marked|
    requires RowsBelow(rows, NC, n) && forall k :: 0 <= k < |p4| ==> p4[k] < n
    ensures RowsBelow(SplitRows(rows, NC, marked, p4), NC + |marked|, n)
  {
    var r := SplitRows(rows, NC, marked, p4);
    assert marked[..|marked|] == marked;
    forall c, i | 0 <= c < NC + |marked| && 0 <= i < 4 ensures r[c][i] < n {
      if c < NC {
        var m := LastMatch(marked, c);
        if m.Some? {
          assert r[c] == [rows[c][3], rows[c][0], rows[c][2], p4[m.value]];
        }
      }
    }
  }

  /** The `k`-th marked cell is rewritten in place and its sibling written at `NC + k`. */
  lemma SplitRowsAt(rows: seq<Cell>, NC: nat, marked: seq<nat>, p4: seq<nat>, k: nat)
    requires Tets(rows) && NC + |marked| <= |rows| && MarkedIn(marked, NC) && |p4| == |marked|
    requires Increasing(marked) && k < |marked|
    ensures SplitRows(rows, NC, marked, p4)[marked[k]] ==
      [rows[marked[k]][3], rows[marked[k]][0], rows[marked[k]][2], p4[k]]
    ensures SplitRows(rows, NC, marked, p4)[NC + k] ==
      [rows[marked[k]][2], rows[marked[k]][1], rows[marked[k]][3], p4[k]]
  {
    assert marked[..|marked|] == marked;
  }

  /** A used row no marked position names is left as it is. */
  lemma SplitRowsElsewhere(rows: seq<Cell>, NC: nat, marked: seq<nat>, p4: seq<nat>, c: nat)
    requires Tets(rows) && NC + |marked| <= |rows| && MarkedIn(marked, NC) && |p4| == |marked|
    requires c < NC && c !in marked
    ensures SplitRows(rows, NC, marked, p4)[c] == rows[c]
  {
    assert marked[..|marked|] == marked;
  }

  /** A cell whose sorted edge is one of the new pairs finds that pair's midpoint. */
  lemma NewPairFound(pairs: seq<Key>, NN: nat, a: nat, b: nat, t: nat)
    requires t < |pairs| && pairs[t] == SortPair(a, b)
    ensures LargestMidpoint(FreshEdges(pairs, NN), AllTrue(|pairs|), a, b).Some?
  {
    assert AllTrue(|pairs|)[t] && Joins(FreshEdges(pairs, NN)[t], a, b);
  }

  /** The search depends on the edge only, not on the order of its ends. */
  lemma {:induction false} SameEdgeSameSearch(cut: seq<CutEdge>, flag: seq<bool>, a: nat, b: nat, a': nat, b': nat)
    requires |flag| == |cut| && SortPair(a, b) == SortPair(a', b')
    ensures LargestMidpoint(cut, flag, a, b) == LargestMidpoint(cut, flag, a', b')
  {
    if cut != [] {
      var n := |cut| - 1;
      SameEdgeSameSearch(cut[..n], flag[..n], a, b, a', b');
      assert Joins(cut[n], a, b) == Joins(cut[n], a', b');
    }
  }

  // ----- what one round does ------------------------------------------------

  /**
   * The two searches for one cell's edge `(a, b)`: if the first found
   * nothing, the edge is among the new pairs; then one of them finds a
   * midpoint, and that midpoint belongs to a cut edge, old or new, joining
   * `a` and `b`.
   */
  lemma SearchesResolve(cutEdge: seq<CutEdge>, nCut: nat, NN: nat, pairs: seq<Key>, flag: seq<bool>,
                        found: Option<nat>, a: nat, b: nat)
    requires nCut + |pairs| <= |cutEdge| && |flag| == nCut
    requires found.Some? ==> found == LargestMidpoint(cutEdge[..nCut], flag, a, b)
    requires found.None? ==> SortPair(a, b) in pairs
    ensures var second := LargestMidpoint(FreshEdges(pairs, NN), AllTrue(|pairs|), a, b);
      (found.Some? || second.Some?) &&
      exists q :: 0 <= q < nCut + |pairs| && Joins(NewCuts(cutEdge, nCut, NN, pairs)[q], a, b) &&
        NewCuts(cutEdge, nCut, NN, pairs)[q].mid == (if second.Some? then second.value else found.value)
  {
    var newEdges := FreshEdges(pairs, NN);
    var second := LargestMidpoint(newEdges, AllTrue(|pairs|), a, b);
    var cut := NewCuts(cutEdge, nCut, NN, pairs);
    if found.None? {
      var t :| 0 <= t < |pairs| && pairs[t] == SortPair(a, b);
      NewPairFound(pairs, NN, a, b, t);
    }
    if second.Some? {
      var t :| 0 <= t < |newEdges| && AllTrue(|pairs|)[t] && Joins(newEdges[t], a, b) && newEdges[t].mid == second.value;
      assert cut[nCut + t] == newEdges[t];
    } else {
      var q :| 0 <= q < nCut && flag[q] && Joins(cutEdge[..nCut][q], a, b) && cutEdge[..nCut][q].mid == found.value;
      assert cut[q] == cutEdge[q];
    }
  }

  /**
   * Neither search leaves a marked cell without a midpoint, so `p4` never
   * keeps the `0` it was allocated with: it is the midpoint of a cut edge,
   * old or new, joining the cell's `p0` and `p1`.
   */
  lemma EveryMarkedCellResolves(b: Buffers, lidx: seq<LocalEdgeId>, k: nat)
    requires Ready(b, lidx) && k < |b.marked| && b.nCut + |Pairs(b, lidx)| <= |b.cutEdge|
    ensures Found(b, lidx)[k].Some? || Second(b, lidx)[k].Some?
    ensures var cut := NewCuts(b.cutEdge, b.nCut, b.NN, Pairs(b, lidx));
      exists q :: 0 <= q < b.nCut + |Pairs(b, lidx)| && cut[q].mid == P4(b, lidx)[k] &&
        Joins(cut[q], Corner(Rows(b, lidx), b.marked, k, 0), Corner(Rows(b, lidx), b.marked, k, 1))
  {
    var rows, pairs, found := Rows(b, lidx), Pairs(b, lidx), Found(b, lidx);
    var p0, p1 := Corner(rows, b.marked, k, 0), Corner(rows, b.marked, k, 1);
    if found[k].None? {
      PairsMembers(b, lidx);
      assert PairOf(rows, b.marked, k) in pairs;
    }
    SearchesResolve(b.cutEdge, b.nCut, b.NN, pairs, b.nonConforming[..b.nCut], found[k], p0, p1);
  }

  /** One round keeps the invariant of the loop. */
  lemma RoundKeepsInv(b: Buffers, lidx: seq<LocalEdgeId>)
    requires Ready(b, lidx) && Fits(b, lidx)
    ensures Inv(Next(b, lidx))
  {
    var t := Next(b, lidx);
    var rows, pairs, p4 := Rows(b, lidx), Pairs(b, lidx), P4(b, lidx);
    LedgerGrows(b.node, b.cutEdge, b.NN, b.nCut, pairs);
    assert Ledger(t.node, t.cutEdge, t.NN, t.nCut);
    forall k | 0 <= k < |b.marked| ensures p4[k] < t.NN {
      EveryMarkedCellResolves(b, lidx, k);
    }
    SplitRowsBelow(rows, b.NC, b.marked, p4, t.NN);
    SplitRowsBelow(rows, b.NC, b.marked, p4, |b.generation|);
  }

  /**
   * A marked cell `(p0, p1, p2, p3)`, as relabelled, becomes `(p3, p0, p2,
   * p4)` in place and `(p2, p1, p3, p4)` at `NC + k`.
   */
  lemma RoundChildren(b: Buffers, lidx: seq<LocalEdgeId>, k: nat)
    requires Ready(b, lidx) && Fits(b, lidx) && k < |b.marked|
    ensures var (cell, row, p4) := (Next(b, lidx).cell, Rows(b, lidx)[b.marked[k]], P4(b, lidx)[k]);
      cell[b.marked[k]] == [row[3], row[0], row[2], p4] && cell[b.NC + k] == [row[2], row[1], row[3], p4]
  {
    SplitRowsAt(Rows(b, lidx), b.NC, b.marked, P4(b, lidx), k);
  }

  /**
   * The two children of a row `(p0, p1, p2, p3)` that is a reordering of
   * `parent`: the first is the parent with `p1` traded for the midpoint, the
   * second the parent with `p0` traded for it.
   */
  lemma ChildVertices(parent: Cell, row: Cell, p4: nat)
    requires |parent| == 4 && |row| == 4 && SameVertices(row, parent)
    ensures forall v ::
      Occurrences([row[3], row[0], row[2], p4], v) + (if v == row[1] then 1 else 0) ==
        Occurrences(parent, v) + (if v == p4 then 1 else 0)
    ensures forall v ::
      Occurrences([row[2], row[1], row[3], p4], v) + (if v == row[0] then 1 else 0) ==
        Occurrences(parent, v) + (if v == p4 then 1 else 0)
  {
  }

  /** A cell that is not marked is not touched by the round. */
  lemma RoundKeepsUnmarked(b: Buffers, lidx: seq<LocalEdgeId>, c: nat)
    requires Ready(b, lidx) && Fits(b, lidx) && c < b.NC && c !in b.marked
    ensures Next(b, lidx).cell[c] == b.cell[c]
  {
    LabelLeavesOthers(b.cell, b.marked, lidx, 5, c);
    SplitRowsElsewhere(Rows(b, lidx), b.NC, b.marked, P4(b, lidx), c);
  }

  /** The new edges go right after the used part of `cutEdge`, the rest stays. */
  lemma NewCutsAppend(cutEdge: seq<CutEdge>, nCut: nat, NN: nat, pairs: seq<Key>)
    requires nCut + |pairs| <= |cutEdge|
    ensures NewCuts(cutEdge, nCut, NN, pairs)[..nCut + |pairs|] == cutEdge[..nCut] + FreshEdges(pairs, NN)
  {
    var r := NewCuts(cutEdge, nCut, NN, pairs);
    assert forall k :: 0 <= k < nCut + |pairs| ==> r[..nCut + |pairs|][k] == (cutEdge[..nCut] + FreshEdges(pairs, NN))[k];
  }

  /** Midpoints are written past the used part of `node`; the used part stays. */
  lemma MidpointsAppend(node: seq<Point>, NN: nat, pairs: seq<Key>)
    requires NN + |pairs| <= |node|
    requires forall t :: 0 <= t < |pairs| ==> pairs[t].0 < |node| && pairs[t].1 < |node|
    ensures WithMidpoints(node, NN, pairs)[..NN] == node[..NN]
  {
  }

  /**
   * The round appends the distinct new cut edges after the old ones, with
   * midpoints numbered on from `NN`; `NN` and `nCut` both grow by their
   * number and the old nodes keep their coordinates.
   */
  lemma RoundNewCuts(b: Buffers, lidx: seq<LocalEdgeId>)
    requires Ready(b, lidx) && Fits(b, lidx)
    ensures var (t, pairs) := (Next(b, lidx), Pairs(b, lidx));
      t.NN == b.NN + |pairs| && t.nCut == b.nCut + |pairs| &&
      t.cutEdge[..t.nCut] == b.cutEdge[..b.nCut] + FreshEdges(pairs, b.NN) &&
      t.node[..b.NN] == b.node[..b.NN]
  {
    NewCutsAppend(b.cutEdge, b.nCut, b.NN, Pairs(b, lidx));
    MidpointsAppend(b.node, b.NN, Pairs(b, lidx));
  }

  /**
   * Reuse: a cell whose edge `(p0, p1)`, with `p0 != p1`, already has a
   * non-conforming cut edge takes that edge's midpoint and creates no node
   * for it; no new cut edge joins its ends.
   */
  lemma RoundReuses(b: Buffers, lidx: seq<LocalEdgeId>, k: nat)
    requires Ready(b, lidx) && k < |b.marked| && Found(b, lidx)[k].Some?
    requires Corner(Rows(b, lidx), b.marked, k, 0) != Corner(Rows(b, lidx), b.marked, k, 1)
    ensures P4(b, lidx)[k] == Found(b, lidx)[k].value
    ensures forall s :: 0 <= s < |Pairs(b, lidx)| ==> Pairs(b, lidx)[s] != PairOf(Rows(b, lidx), b.marked, k)
  {
    var rows, pairs := Rows(b, lidx), Pairs(b, lidx);
    var p0, p1 := Corner(rows, b.marked, k, 0), Corner(rows, b.marked, k, 1);
    forall s | 0 <= s < |pairs|
      ensures pairs[s] != PairOf(rows, b.marked, k)
      ensures !Joins(FreshEdges(pairs, b.NN)[s], p0, p1)
    {
      NoNewEdgeForFound(b, lidx, k, s);
    }
    assert Second(b, lidx)[k] == LargestMidpoint(FreshEdges(pairs, b.NN), AllTrue(|pairs|), p0, p1);
  }

  /** A new pair that matches a marked cell's edge means that cell found no midpoint. */
  lemma NoNewEdgeForFound(b: Buffers, lidx: seq<LocalEdgeId>, k: nat, s: nat)
    requires Ready(b, lidx) && k < |b.marked| && s < |Pairs(b, lidx)|
    requires Corner(Rows(b, lidx), b.marked, k, 0) != Corner(Rows(b, lidx), b.marked, k, 1)
    ensures var (rows, pairs) := (Rows(b, lidx), Pairs(b, lidx));
      (pairs[s] == PairOf(rows, b.marked, k) || Joins(FreshEdges(pairs, b.NN)[s], Corner(rows, b.marked, k, 0), Corner(rows, b.marked, k, 1)))
        ==> Found(b, lidx)[k].None?
  {
    var rows, pairs, found := Rows(b, lidx), Pairs(b, lidx), Found(b, lidx);
    var p0, p1 := Corner(rows, b.marked, k, 0), Corner(rows, b.marked, k, 1);
    if pairs[s] == PairOf(rows, b.marked, k) || Joins(FreshEdges(pairs, b.NN)[s], p0, p1) {
      assert pairs[s] == PairOf(rows, b.marked, k);
      PairsMembers(b, lidx);
      assert pairs[s] in pairs;
      var k' :| 0 <= k' < |b.marked| && found[k'].None? && pairs[s] == PairOf(rows, b.marked, k');
      FoundSameEdge(b, lidx, k, k');
    }
  }

  /** Two marked cells with the same edge find the same midpoint. */
  lemma FoundSameEdge(b: Buffers, lidx: seq<LocalEdgeId>, k: nat, k': nat)
    requires Ready(b, lidx) && k < |b.marked| && k' < |b.marked|
    requires PairOf(Rows(b, lidx), b.marked, k) == PairOf(Rows(b, lidx), b.marked, k')
    ensures Found(b, lidx)[k] == Found(b, lidx)[k']
  {
    if b.nCut > 0 {
      SameEdgeSameLookup(Rows(b, lidx), b.marked, b.cutEdge[..b.nCut], b.nonConforming[..b.nCut], k, k');
    }
  }

  lemma SameEdgeSameLookup(rows: seq<Cell>, marked: seq<nat>, cut: seq<CutEdge>, flag: seq<bool>, k: nat, k': nat)
    requires Tets(rows) && MarkedIn(marked, |rows|) && |flag| == |cut| && k < |marked| && k' < |marked|
    requires PairOf(rows, marked, k) == PairOf(rows, marked, k')
    ensures Lookup(rows, marked, cut, flag)[k] == Lookup(rows, marked, cut, flag)[k']
  {
    SameEdgeSameSearch(cut, flag, Corner(rows, marked, k, 0), Corner(rows, marked, k, 1),
                       Corner(rows, marked, k', 0), Corner(rows, marked, k', 1));
  }


  /**
   * Generations: a node of nonzero generation keeps it, and so does a node
   * no marked cell took as its midpoint.
   */
  lemma GenerationKept(gen: seq<nat>, rows: seq<Cell>, marked: seq<nat>, p4: seq<nat>, v: nat)
    requires Tets(rows) && MarkedIn(marked, |rows|) && |p4| == |marked|
    requires forall k, i :: 0 <= k < |marked| && 0 <= i < 4 ==> rows[marked[k]][i] < |gen|
    requires v < |gen| && (gen[v] != 0 || v !in p4)
    ensures NewGeneration(gen, rows, marked, p4)[v] == gen[v]
  {
    assert p4[..|p4|] == p4;
  }

  /**
   * A midpoint of generation 0 gets one more than the newest vertex of the
   * last marked cell that took it, modulo 256 as `uint8` wraps.
   */
  lemma GenerationOfMidpoint(gen: seq<nat>, rows: seq<Cell>, marked: seq<nat>, p4: seq<nat>, k: nat)
    requires Tets(rows) && MarkedIn(marked, |rows|) && |p4| == |marked|
    requires forall k, i :: 0 <= k < |marked| && 0 <= i < 4 ==> rows[marked[k]][i] < |gen|
    requires k < |p4| && p4[k] < |gen| && gen[p4[k]] == 0
    requires forall k' :: k < k' < |p4| ==> p4[k'] != p4[k]
    ensures NewGeneration(gen, rows, marked, p4)[p4[k]] == (MaxGen(gen, rows[marked[k]]) + 1) % 256
  {
    assert p4[..|p4|] == p4;
    LastMatchIsLast(p4, p4[k], k);
  }

  /**
   * A cut edge stays non-conforming iff it was and some cell still holds
   * both its ends; the cells holding both ends of such an edge are the same
   * whether the flags are read before or after that update.
   */
  lemma LiveHoldersAgree(cell: seq<Cell>, NC: nat, cut: seq<CutEdge>, live: seq<bool>, nCut: nat, c: nat)
    requires NC <= |cell| && |cut| == |live| && nCut <= |live| && c < NC
    ensures HoldsLive(cell[c], cut, live, nCut) <==>
            HoldsLive(cell[c], cut, StillNonConforming(cell, NC, cut, live, nCut), nCut)
  {
    var r := StillNonConforming(cell, NC, cut, live, nCut);
    if HoldsLive(cell[c], cut, live, nCut) {
      var k :| 0 <= k < nCut && live[k] && Holds(cell[c], cut[k]);
      assert HeldByCell(cell, NC, cut[k]);
      assert r[k];
    }
  }

  /**
   * After the flags are checked against the new cells, the marked cells are
   * exactly the cells holding both ends of a cut edge still non-conforming,
   * and such an edge is one that was non-conforming and is held by some
   * cell.
   */
  lemma AdvanceMarks(b: Buffers, node: seq<Point>, cell: seq<Cell>, gen: seq<nat>, cut: seq<CutEdge>, nNew: nat)
    requires b.NC + |b.marked| <= |cell| && |cut| == |b.nonConforming| && b.nCut + nNew <= |cut|
    ensures var t := Advance(b, node, cell, gen, cut, nNew);
      (forall c: nat :: c in t.marked <==>
         c < t.NC && exists q :: 0 <= q < t.nCut && t.nonConforming[q] && Holds(t.cell[c], t.cutEdge[q])) &&
      forall q :: 0 <= q < t.nCut ==>
        (t.nonConforming[q] <==> b.nonConforming[q] && HeldByCell(t.cell, t.NC, t.cutEdge[q]))
  {
    var NC, nCut := b.NC + |b.marked|, b.nCut + nNew;
    var live := StillNonConforming(cell, NC, cut, b.nonConforming, nCut);
    forall c: nat | c < NC
      ensures HoldsLive(cell[c], cut, b.nonConforming, nCut) <==> HoldsLive(cell[c], cut, live, nCut)
    {
      LiveHoldersAgree(cell, NC, cut, b.nonConforming, nCut, c);
    }
  }

  /**
   * The next round's marked cells are exactly the cells holding both ends of
   * a cut edge still non-conforming after the update, and such an edge is
   * one that was non-conforming and is held by some cell.
   */
  lemma RoundNextMarked(b: Buffers, lidx: seq<LocalEdgeId>)
    requires Ready(b, lidx) && Fits(b, lidx)
    ensures var t := Next(b, lidx);
      (forall c: nat :: c in t.marked <==>
         c < t.NC && exists q :: 0 <= q < t.nCut && t.nonConforming[q] && Holds(t.cell[c], t.cutEdge[q])) &&
      forall q :: 0 <= q < t.nCut ==>
        (t.nonConforming[q] <==> b.nonConforming[q] && HeldByCell(t.cell, t.NC, t.cutEdge[q]))
  {
    AdvanceMarks(b, NextNode(b, lidx), NextCell(b, lidx), NextGeneration(b, lidx), NextCut(b, lidx), |Pairs(b, lidx)|);
  }

  // ----- the loop and the call -----------------------------------------------

  /** No used cell holds both ends of a cut edge that is still non-conforming. */
  predicate Conforming(b: Buffers)
    requires Inv(b)
  {
    forall c, q :: 0 <= c < b.NC && 0 <= q < b.nCut && b.nonConforming[q] ==> !Holds(b.cell[c], b.cutEdge[q])
  }

  /**
   * `t` grows out of `b`: the buffers keep their sizes, the used nodes keep
   * their coordinates, and the used parts only grow.
   */
  predicate Extends(b: Buffers, t: Buffers) {
    |t.node| == |b.node| && b.NN <= t.NN <= |t.node| && t.node[..b.NN] == b.node[..b.NN] &&
    |t.cell| == |b.cell| && b.NC <= t.NC
  }

  lemma ExtendsTransitive(b: Buffers, t: Buffers, u: Buffers)
    requires Extends(b, t) && Extends(t, u)
    ensures Extends(b, u)
  {
    assert u.node[..b.NN] == u.node[..t.NN][..b.NN];
  }

  /**
   * What the loop needs of one round: the invariant holds again, nodes and
   * cells are only appended, and a round that leaves no cell marked leaves
   * every cut edge conforming.
   */
  lemma RoundStep(b: Buffers, lidx: seq<LocalEdgeId>, t: Buffers)
    requires Ready(b, lidx) && Round(b, lidx) == Ok(t)
    ensures Inv(t) && Extends(b, t) && t.NC == b.NC + |b.marked|
    ensures t.marked == [] ==> Conforming(t)
  {
    RoundKeepsInv(b, lidx);
    RoundNewCuts(b, lidx);
    RoundNextMarked(b, lidx);
  }

  /** The local edges `label` takes as longest in round `round` for the marked cells. */
  function Choices(marked: seq<nat>, choose: (nat, nat) -> LocalEdgeId, round: nat): (r: seq<LocalEdgeId>)
    ensures |r| == |marked|
  {
    seq(|marked|, k requires 0 <= k < |marked| => choose(round, marked[k]))
  }

  /**
   * `while len(markedCell) != 0`: rounds until no cell is marked, or the
   * first error. `choose(round, c)` is the local edge `label` finds longest
   * in cell `c` in that round. The loop ends with every cut edge conforming
   * once it has run a round, and it only appends nodes and cells.
   */
  function Run(b: Buffers, choose: (nat, nat) -> LocalEdgeId, round: nat): (r: Result<Buffers>)
    requires Inv(b)
    ensures r.Ok? ==> Inv(r.value) && r.value.marked == [] && Extends(b, r.value)
    ensures r.Ok? && b.marked != [] ==> Conforming(r.value)
    decreases |b.cell| - b.NC, 1
  {
    if |b.marked| == 0 then Ok(b) else RunFrom(b, choose, round)
  }

  /** One pass of the loop with some cell marked: a round, then the rest of the loop. */
  function RunFrom(b: Buffers, choose: (nat, nat) -> LocalEdgeId, round: nat): (r: Result<Buffers>)
    requires Inv(b) && b.marked != []
    ensures r.Ok? ==> Inv(r.value) && r.value.marked == [] && Extends(b, r.value) && Conforming(r.value)
    decreases |b.cell| - b.NC, 0
  {
    var lidx := Choices(b.marked, choose, round);
    match Round(b, lidx)
    case Err(m) => Err(m)
    case Ok(t) =>
      RoundStep(b, lidx, t);
      match Run(t, choose, round + 1)
      case Err(m) => Err(m)
      case Ok(u) => ExtendsTransitive(b, t, u); Ok(u)
  }

  /** A round that succeeds hands the rest of the loop to the buffers it leaves. */
  lemma RunStep(b: Buffers, choose: (nat, nat) -> LocalEdgeId, round: nat, t: Buffers)
    requires Inv(b) && b.marked != [] && Round(b, Choices(b.marked, choose, round)) == Ok(t)
    ensures Inv(t) && t.NC == b.NC + |b.marked| && |t.cell| == |b.cell|
    ensures Run(b, choose, round) == Run(t, choose, round + 1)
  {
    RoundStep(b, Choices(b.marked, choose, round), t);
  }

  /** A round that fails ends the loop with its error. */
  lemma RunStops(b: Buffers, choose: (nat, nat) -> LocalEdgeId, round: nat, m: string)
    requires Inv(b) && b.marked != [] && Round(b, Choices(b.marked, choose, round)) == Err(m)
    ensures Run(b, choose, round) == Err(m)
  {
  }

  /**
   * The buffers `bisect` allocates: `node` and `cell` copied into buffers of
   * 9 NN and 4 NC rows, `generation` of NN + 6 NC zeros, `cutEdge` of 8 NN
   * rows and `nonConforming` of 8 NN ones.
   */
  function Start(node: seq<Point>, cell: seq<Cell>, marked: seq<nat>): (b: Buffers)
    requires Tets(cell) && NodesBelow(cell, |node|) && Increasing(marked) && MarkedIn(marked, |cell|)
    ensures Inv(b)
    ensures b.NN == |node| && b.node[..b.NN] == node && b.NC == |cell| && b.cell[..b.NC] == cell
  {
    Buffers(node + seq(8 * |node|, v => Point(0.0, 0.0, 0.0)),
            cell + seq(3 * |cell|, c => [0, 0, 0, 0]),
            seq(|node| + 6 * |cell|, v => 0),
            seq(8 * |node|, k => CutEdge(0, 0, 0)),
            seq(8 * |node|, k => true),
            |node|, |cell|, 0, marked)
  }

  /** `markedCell`: every cell when no flags are given, else the flagged cells. */
  function InitialMarked(NC: nat, isMarkedCell: Option<seq<bool>>): (r: seq<nat>)
    requires isMarkedCell.Some? ==> |isMarkedCell.value| == NC
    ensures Increasing(r) && MarkedIn(r, NC)
    ensures forall c: nat :: c in r <==> c < NC && (isMarkedCell.None? || isMarkedCell.value[c])
  {
    match isMarkedCell
    case None =>
      var all := seq(NC, c requires 0 <= c < NC => c);
      assert forall i :: 0 <= i < |all| ==> all[i] == i;
      assert forall c: nat :: c in all <==> c < NC by {
        forall c: nat | c < NC ensures c in all {
          assert all[c] == c;
        }
      }
      all
    case Some(flag) => Nonzero(flag)
  }

  /**
   * A mesh `(node', cell')` grown out of `(node, cell)`: the old nodes keep
   * their places and coordinates, no cell is lost, and every row names four
   * existing nodes.
   */
  predicate Grown(node: seq<Point>, cell: seq<Cell>, node': seq<Point>, cell': seq<Cell>) {
    |node| <= |node'| && node'[..|node|] == node &&
    |cell| <= |cell'| && Tets(cell') && NodesBelow(cell', |node'|)
  }

  lemma GrownTransitive(node: seq<Point>, cell: seq<Cell>, node': seq<Point>, cell': seq<Cell>,
                        node'': seq<Point>, cell'': seq<Cell>)
    requires Grown(node, cell, node', cell') && Grown(node', cell', node'', cell'')
    ensures Grown(node, cell, node'', cell'')
  {
    assert node''[..|node|] == node''[..|node'|][..|node|];
  }

  /** The used parts of buffers grown from the start buffers of a mesh form a grown mesh. */
  lemma UsedPartsGrown(node: seq<Point>, cell: seq<Cell>, b: Buffers, t: Buffers)
    requires b.NN == |node| <= |b.node| && b.node[..b.NN] == node && b.NC == |cell|
    requires Inv(t) && Extends(b, t)
    ensures Grown(node, cell, t.node[..t.NN], t.cell[..t.NC])
  {
    assert t.node[..t.NN][..|node|] == t.node[..|node|];
  }

  /**
   * `bisect(isMarkedCell)`: the node coordinates `node[:NN]` and cell rows
   * `cell[:NC]` it hands to `reinit`, or the error it raises. The old nodes
   * stay, in their places, and every row names four existing nodes.
   */
  function Bisected(node: seq<Point>, cell: seq<Cell>, isMarkedCell: Option<seq<bool>>,
                    choose: (nat, nat) -> LocalEdgeId): (r: Result<(seq<Point>, seq<Cell>)>)
    requires Tets(cell) && NodesBelow(cell, |node|)
    requires isMarkedCell.Some? ==> |isMarkedCell.value| == |cell|
    ensures r.Ok? ==> Grown(node, cell, r.value.0, r.value.1)
  {
    var b := Start(node, cell, InitialMarked(|cell|, isMarkedCell));
    match Run(b, choose, 0)
    case Err(m) => Err(m)
    case Ok(t) =>
      UsedPartsGrown(node, cell, b, t);
      Ok((t.node[..t.NN], t.cell[..t.NC]))
  }

  /** The edge choices of call `i` of `bisect`. */
  function Call(choose: (nat, nat, nat) -> LocalEdgeId, i: nat): (nat, nat) -> LocalEdgeId
  {
    (round, c) => choose(i, round, c)
  }

  /**
   * `uniform_bisect(n)` from call `i` on, with `calls` calls left: `bisect()`
   * of every cell, again and again, stopping at the first error;
   * `choose(i, round, c)` is the edge taken in call `i`. The whole of
   * `uniform_bisect(n)` is `calls = 2 n` from `i = 0`.
   */
  function UniformBisected(node: seq<Point>, cell: seq<Cell>, calls: nat, i: nat,
                           choose: (nat, nat, nat) -> LocalEdgeId): (r: Result<(seq<Point>, seq<Cell>)>)
    requires Tets(cell) && NodesBelow(cell, |node|)
    ensures r.Ok? ==> Grown(node, cell, r.value.0, r.value.1)
    decreases calls, 1
  {
    if calls == 0 then
      assert node[..|node|] == node;
      Ok((node, cell))
    else
      BisectedThen(node, cell, Bisected(node, cell, None, Call(choose, i)), calls - 1, i + 1, choose)
  }

  /** The calls after one that left `after`: none after an error, the remaining `calls` after a mesh. */
  function BisectedThen(node: seq<Point>, cell: seq<Cell>, after: Result<(seq<Point>, seq<Cell>)>,
                        calls: nat, i: nat, choose: (nat, nat, nat) -> LocalEdgeId): (r: Result<(seq<Point>, seq<Cell>)>)
    requires Tets(cell) && NodesBelow(cell, |node|)
    requires after.Ok? ==> Grown(node, cell, after.value.0, after.value.1)
    ensures after.Err? ==> r == after
    ensures r.Ok? ==> Grown(node, cell, r.value.0, r.value.1)
    decreases calls + 1, 0
  {
    match after
    case Err(m) => Err(m)
    case Ok(mesh) =>
      var r := UniformBisected(mesh.0, mesh.1, calls, i, choose);
      if r.Ok? then
        GrownTransitive(node, cell, mesh.0, mesh.1, r.value.0, r.value.1);
        r
      else
        r
  }

  /** One call of `uniform_bisect`: an error ends it, a mesh goes on to the next call. */
  lemma UniformBisectedStep(node: seq<Point>, cell: seq<Cell>, calls: nat, i: nat,
                            choose: (nat, nat, nat) -> LocalEdgeId)
    requires Tets(cell) && NodesBelow(cell, |node|) && calls > 0
    ensures match Bisected(node, cell, None, Call(choose, i))
      case Err(m) => UniformBisected(node, cell, calls, i, choose) == Err(m)
      case Ok(mesh) => UniformBisected(node, cell, calls, i, choose) == UniformBisected(mesh.0, mesh.1, calls - 1, i + 1, choose)
  {
  }
}
