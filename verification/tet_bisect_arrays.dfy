/**
 * One round of `bisect` (fealpy/mesh/TetrahedronMesh.py) as the source runs
 * it: in place, on the over-allocated `node`, `cell`, `generation`,
 * `cutEdge` and `nonConforming` buffers. Each write is a method proved
 * equal to the function of module TetBisect that specifies it, and the
 * round as a whole is proved equal to `Round`.
 */
module TetBisectArrays {
  import opened ArrayOps
  import opened UniqueRow
  import opened Mesh2dTopology
  import opened TetTopology
  import opened TetBisect

  /** `cutEdge[newCutEdge] = (i, j, NN + t)` for the new pairs. */
  method WriteCuts(cutEdge: array<CutEdge>, nCut: nat, NN: nat, pairs: seq<Key>)
    requires nCut + |pairs| <= cutEdge.Length
    modifies cutEdge
    ensures cutEdge[..] == NewCuts(old(cutEdge[..]), nCut, NN, pairs)
  {
    ghost var was := cutEdge[..];
    var t := 0;
    while t < |pairs|
      invariant t <= |pairs|
      invariant forall k :: 0 <= k < cutEdge.Length ==>
        cutEdge[k] == if nCut <= k < nCut + t then FreshEdges(pairs, NN)[k - nCut] else was[k]
    {
      cutEdge[nCut + t] := CutEdge(pairs[t].0, pairs[t].1, NN + t);
      t := t + 1;
    }
  }

  /** `node[NN:NN+nNew] = (node[i] + node[j]) / 2`, the pairs being old nodes. */
  method WriteMidpoints(node: array<Point>, NN: nat, pairs: seq<Key>)
    requires NN + |pairs| <= node.Length
    requires forall t :: 0 <= t < |pairs| ==> pairs[t].0 < NN && pairs[t].1 < NN
    modifies node
    ensures node[..] == WithMidpoints(old(node[..]), NN, pairs)
  {
    ghost var was := node[..];
    var t := 0;
    while t < |pairs|
      invariant t <= |pairs|
      invariant forall v :: 0 <= v < node.Length && !(NN <= v < NN + t) ==> node[v] == was[v]
      invariant forall v :: NN <= v < NN + t ==> node[v] == Midpoint(was[pairs[v - NN].0], was[pairs[v - NN].1])
    {
      var (i, j) := pairs[t];
      assert node[i] == was[i] && node[j] == was[j];
      node[NN + t] := Midpoint(node[i], node[j]);
      t := t + 1;
    }
    assert forall v :: 0 <= v < node.Length ==> node[v] == WithMidpoints(was, NN, pairs)[v];
  }

  /** `generation` after the first `n` writes of the scatter. */
  function ScatteredUpTo(gen: seq<nat>, rows: seq<Cell>, marked: seq<nat>, p4: seq<nat>, n: nat): (r: seq<nat>)
    requires Tets(rows) && MarkedIn(marked, |rows|) && |p4| == |marked| && n <= |p4|
    requires forall k, i :: 0 <= k < |marked| && 0 <= i < 4 ==> rows[marked[k]][i] < |gen|
    ensures |r| == |gen|
  {
    seq(|gen|, v requires 0 <= v < |gen| => Scattered(gen, rows, marked, p4, n, v))
  }

  /** One more write of the scatter, at one entry. */
  lemma ScatteredAt(gen: seq<nat>, rows: seq<Cell>, marked: seq<nat>, p4: seq<nat>, n: nat, v: nat)
    requires Tets(rows) && MarkedIn(marked, |rows|) && |p4| == |marked| && n < |p4| && v < |gen|
    requires forall k, i :: 0 <= k < |marked| && 0 <= i < 4 ==> rows[marked[k]][i] < |gen|
    ensures Scattered(gen, rows, marked, p4, n + 1, v) ==
      if p4[n] == v && gen[v] == 0 then (MaxGen(gen, rows[marked[n]]) + 1) % 256
      else Scattered(gen, rows, marked, p4, n, v)
  {
    LastMatchExtend(p4, n, v);
  }

  /**
   * One more write of the scatter: it lands on `p4[n]` if that generation
   * was 0, and everywhere else the earlier writes stand.
   */
  lemma ScatteredStep(gen: seq<nat>, rows: seq<Cell>, marked: seq<nat>, p4: seq<nat>, n: nat)
    requires Tets(rows) && MarkedIn(marked, |rows|) && |p4| == |marked| && n < |p4| && p4[n] < |gen|
    requires forall k, i :: 0 <= k < |marked| && 0 <= i < 4 ==> rows[marked[k]][i] < |gen|
    ensures ScatteredUpTo(gen, rows, marked, p4, n + 1) ==
      if gen[p4[n]] == 0
      then ScatteredUpTo(gen, rows, marked, p4, n)[p4[n] := (MaxGen(gen, rows[marked[n]]) + 1) % 256]
      else ScatteredUpTo(gen, rows, marked, p4, n)
  {
    var before, after := ScatteredUpTo(gen, rows, marked, p4, n), ScatteredUpTo(gen, rows, marked, p4, n + 1);
    var g := (MaxGen(gen, rows[marked[n]]) + 1) % 256;
    var want := if gen[p4[n]] == 0 then before[p4[n] := g] else before;
    forall v | 0 <= v < |gen| ensures after[v] == want[v] {
      ScatteredAt(gen, rows, marked, p4, n, v);
    }
  }

  /**
   * `generation[p4[idx]] = cellGeneration + 1`: both `idx` and
   * `cellGeneration` are read before the scatter, and a later marked cell
   * overwrites an earlier one with the same midpoint.
   */
  method WriteGenerations(generation: array<nat>, rows: seq<Cell>, marked: seq<nat>, p4: seq<nat>)
    requires Tets(rows) && MarkedIn(marked, |rows|) && |p4| == |marked|
    requires forall k, i :: 0 <= k < |marked| && 0 <= i < 4 ==> rows[marked[k]][i] < generation.Length
    requires forall k :: 0 <= k < |p4| ==> p4[k] < generation.Length
    modifies generation
    ensures generation[..] == NewGeneration(old(generation[..]), rows, marked, p4)
  {
    var was := generation[..];
    var k := 0;
    while k < |p4|
      invariant k <= |p4|
      invariant generation[..] == ScatteredUpTo(was, rows, marked, p4, k)
    {
      ScatteredStep(was, rows, marked, p4, k);
      if was[p4[k]] == 0 {
        generation[p4[k]] := (MaxGen(was, rows[marked[k]]) + 1) % 256;
      }
      k := k + 1;
    }
  }

  /** `cell` after the first `n` marked cells are split. */
  function SplitUpTo(rows: seq<Cell>, NC: nat, marked: seq<nat>, p4: seq<nat>, n: nat): (r: seq<Cell>)
    requires Tets(rows) && NC + |marked| <= |rows| && MarkedIn(marked, NC) && |p4| == |marked| && n <= |marked|
    ensures |r| == |rows|
  {
    seq(|rows|, c requires 0 <= c < |rows| => SplitRow(rows, NC, marked, p4, n, c))
  }

  /** Splitting one more marked cell, at one row. */
  lemma SplitAt(rows: seq<Cell>, NC: nat, marked: seq<nat>, p4: seq<nat>, n: nat, c: nat)
    requires Tets(rows) && NC + |marked| <= |rows| && MarkedIn(marked, NC) && |p4| == |marked| && n < |marked|
    requires c < |rows|
    ensures SplitRow(rows, NC, marked, p4, n + 1, c) ==
      if c == marked[n] then [rows[c][3], rows[c][0], rows[c][2], p4[n]]
      else if c == NC + n then [rows[marked[n]][2], rows[marked[n]][1], rows[marked[n]][3], p4[n]]
      else SplitRow(rows, NC, marked, p4, n, c)
  {
    if c < NC {
      LastMatchExtend(marked, n, c);
    }
  }

  /** Splitting one more marked cell writes its two children and nothing else. */
  lemma SplitStep(rows: seq<Cell>, NC: nat, marked: seq<nat>, p4: seq<nat>, n: nat)
    requires Tets(rows) && NC + |marked| <= |rows| && MarkedIn(marked, NC) && |p4| == |marked| && n < |marked|
    ensures SplitUpTo(rows, NC, marked, p4, n + 1) ==
      SplitUpTo(rows, NC, marked, p4, n)
        [marked[n] := [rows[marked[n]][3], rows[marked[n]][0], rows[marked[n]][2], p4[n]]]
        [NC + n := [rows[marked[n]][2], rows[marked[n]][1], rows[marked[n]][3], p4[n]]]
  {
    var row := rows[marked[n]];
    var want := SplitUpTo(rows, NC, marked, p4, n)[marked[n] := [row[3], row[0], row[2], p4[n]]]
                  [NC + n := [row[2], row[1], row[3], p4[n]]];
    var after := SplitUpTo(rows, NC, marked, p4, n + 1);
    forall c | 0 <= c < |rows| ensures after[c] == want[c] {
      SplitAt(rows, NC, marked, p4, n, c);
    }
  }

  /**
   * `cell[markedCell] = (p3, p0, p2, p4)` and `cell[NC:NC+nMarked] =
   * (p2, p1, p3, p4)`, with `p0..p3` read before either write.
   */
  method SplitCells(cell: array<Cell>, NC: nat, marked: seq<nat>, p4: seq<nat>)
    requires Tets(cell[..]) && NC + |marked| <= cell.Length && MarkedIn(marked, NC) && |p4| == |marked|
    modifies cell
    ensures cell[..] == SplitRows(old(cell[..]), NC, marked, p4)
  {
    var was := cell[..];
    var k := 0;
    while k < |marked|
      invariant k <= |marked|
      invariant cell[..] == SplitUpTo(was, NC, marked, p4, k)
    {
      SplitStep(was, NC, marked, p4, k);
      var row := was[marked[k]];
      cell[marked[k]] := [row[3], row[0], row[2], p4[k]];
      cell[NC + k] := [row[2], row[1], row[3], p4[k]];
      k := k + 1;
    }
  }

  /** `nonConforming[checkEdge] = False; nonConforming[checkEdge[j]] = True`. */
  method UpdateLive(nonConforming: array<bool>, cell: seq<Cell>, NC: nat, cut: seq<CutEdge>, nCut: nat)
    requires NC <= |cell| && |cut| == nonConforming.Length && nCut <= nonConforming.Length
    modifies nonConforming
    ensures nonConforming[..] == StillNonConforming(cell, NC, cut, old(nonConforming[..]), nCut)
  {
    ghost var was := nonConforming[..];
    var q := 0;
    while q < nCut
      invariant q <= nCut
      invariant forall k :: 0 <= k < nonConforming.Length ==>
        nonConforming[k] == if k < q then was[k] && HeldByCell(cell, NC, cut[k]) else was[k]
    {
      nonConforming[q] := nonConforming[q] && HeldByCell(cell, NC, cut[q]);
      q := q + 1;
    }
  }

  /** The buffers and counters `bisect` works on, as one value. */
  function State(node: array<Point>, cell: array<Cell>, generation: array<nat>, cutEdge: array<CutEdge>,
                 nonConforming: array<bool>, NN: nat, NC: nat, nCut: nat, marked: seq<nat>): Buffers
    reads node, cell, generation, cutEdge, nonConforming
  {
    Buffers(node[..], cell[..], generation[..], cutEdge[..], nonConforming[..], NN, NC, nCut, marked)
  }

  /**
   * The writes of one pass, once every one of them fits: `cutEdge`, `node`,
   * `generation` and `cell` become what `Next` says. `cell` arrives already
   * relabelled, and `pairs` and `p4` are the new cut edges and the
   * midpoints the marked cells found.
   */
  method WriteRound(node: array<Point>, cell: array<Cell>, generation: array<nat>, cutEdge: array<CutEdge>,
                    b: Buffers, lidx: seq<LocalEdgeId>, pairs: seq<Key>, p4: seq<nat>)
    requires Ready(b, lidx) && Fits(b, lidx) && pairs == Pairs(b, lidx) && p4 == P4(b, lidx)
    requires node[..] == b.node && cell[..] == TetBisect.Rows(b, lidx) && generation[..] == b.generation
    requires cutEdge[..] == b.cutEdge
    modifies node, cell, generation, cutEdge
    ensures node[..] == NextNode(b, lidx) && cell[..] == NextCell(b, lidx)
    ensures generation[..] == NextGeneration(b, lidx) && cutEdge[..] == NextCut(b, lidx)
  {
    WriteCuts(cutEdge, b.nCut, b.NN, pairs);
    WriteMidpoints(node, b.NN, pairs);
    WriteGenerations(generation, cell[..], b.marked, p4);
    SplitCells(cell, b.NC, b.marked, p4);
  }

  /**
   * The end of a pass: the cells that hold both ends of a non-conforming
   * cut edge become the next marked cells, and the edges no cell holds
   * stop being non-conforming.
   */
  method CheckEdges(node: array<Point>, cell: array<Cell>, generation: array<nat>, cutEdge: array<CutEdge>,
                    nonConforming: array<bool>, b: Buffers, nNew: nat)
    returns (next: seq<nat>)
    requires b.NC + |b.marked| <= cell.Length && cutEdge.Length == |b.nonConforming| && b.nCut + nNew <= cutEdge.Length
    requires nonConforming[..] == b.nonConforming
    modifies nonConforming
    ensures State(node, cell, generation, cutEdge, nonConforming, b.NN + nNew, b.NC + |b.marked|, b.nCut + nNew, next) ==
      Advance(b, node[..], cell[..], generation[..], cutEdge[..], nNew)
  {
    var NC, nCut := b.NC + |b.marked|, b.nCut + nNew;
    next := NextMarked(cell[..], NC, cutEdge[..], nonConforming[..], nCut);
    UpdateLive(nonConforming, cell[..], NC, cutEdge[..], nCut);
  }

  /**
   * One pass of the `while` loop of `bisect`, in place: relabel the marked
   * cells, find or cut their edges, and, if every write fits, write the new
   * cut edges, midpoints, generations and cells and find the next marked
   * cells. It does what `Round` says, and on an error it reports the one
   * `Round` reports.
   */
  method BisectRound(node: array<Point>, cell: array<Cell>, generation: array<nat>, cutEdge: array<CutEdge>,
                     nonConforming: array<bool>, NN: nat, NC: nat, nCut: nat, marked: seq<nat>,
                     lidx: seq<LocalEdgeId>)
    returns (r: Result<(nat, nat, nat, seq<nat>)>)
    requires Ready(State(node, cell, generation, cutEdge, nonConforming, NN, NC, nCut, marked), lidx)
    modifies node, cell, generation, cutEdge, nonConforming
    ensures var b := old(State(node, cell, generation, cutEdge, nonConforming, NN, NC, nCut, marked));
      match Round(b, lidx)
      case Err(m) => r == Err(m)
      case Ok(t) => r.Ok? && t == State(node, cell, generation, cutEdge, nonConforming, r.value.0, r.value.1, r.value.2, r.value.3)
  {
    var b := State(node, cell, generation, cutEdge, nonConforming, NN, NC, nCut, marked);
    LabelRows(cell, marked, lidx);
    match Overrun(b, lidx) {
      case Some(m) => return Err(m);
      case None =>
    }
    var pairs := Pairs(b, lidx);
    var p4 := P4(b, lidx);
    WriteRound(node, cell, generation, cutEdge, b, lidx, pairs, p4);
    var next := CheckEdges(node, cell, generation, cutEdge, nonConforming, b, |pairs|);
    r := Ok((NN + |pairs|, NC + |marked|, nCut + |pairs|, next));
  }

  /**
   * The buffers `bisect` allocates before its loop: the nodes and cells
   * copied into buffers of 9 NN and 4 NC rows, NN + 6 NC zero generations,
   * and 8 NN cut-edge rows, all of them flagged non-conforming.
   */
  method Allocate(nodes: seq<Point>, cells: seq<Cell>, marked: seq<nat>)
    returns (node: array<Point>, cell: array<Cell>, generation: array<nat>, cutEdge: array<CutEdge>,
             nonConforming: array<bool>)
    requires Tets(cells) && NodesBelow(cells, |nodes|) && Increasing(marked) && MarkedIn(marked, |cells|)
    ensures fresh(node) && fresh(cell) && fresh(generation) && fresh(cutEdge) && fresh(nonConforming)
    ensures State(node, cell, generation, cutEdge, nonConforming, |nodes|, |cells|, 0, marked) ==
      Start(nodes, cells, marked)
  {
    var NN, NC := |nodes|, |cells|;
    node := new Point[9 * NN]((v: nat) => if v < NN then nodes[v] else Point(0.0, 0.0, 0.0));
    cell := new Cell[4 * NC]((c: nat) => if c < NC then cells[c] else [0, 0, 0, 0]);
    generation := new nat[NN + 6 * NC](_ => 0);
    cutEdge := new CutEdge[8 * NN](_ => CutEdge(0, 0, 0));
    nonConforming := new bool[8 * NN](_ => true);
    var b := Start(nodes, cells, marked);
    assert node[..] == b.node;
    assert cell[..] == b.cell;
    assert generation[..] == b.generation;
    assert cutEdge[..] == b.cutEdge;
    assert nonConforming[..] == b.nonConforming;
  }

  /**
   * The `while` loop of `bisect`: passes until no cell is marked, pass
   * `round` taking the edges `choose(round, c)`. It ends as `Run` does,
   * with the same error or with the counters of the buffers `Run` leaves.
   */
  method RunRounds(node: array<Point>, cell: array<Cell>, generation: array<nat>, cutEdge: array<CutEdge>,
                   nonConforming: array<bool>, NN: nat, NC: nat, nCut: nat, marked: seq<nat>,
                   choose: (nat, nat) -> LocalEdgeId)
    returns (r: Result<(nat, nat, nat)>)
    requires Inv(State(node, cell, generation, cutEdge, nonConforming, NN, NC, nCut, marked))
    modifies node, cell, generation, cutEdge, nonConforming
    ensures match Run(old(State(node, cell, generation, cutEdge, nonConforming, NN, NC, nCut, marked)), choose, 0)
      case Err(m) => r == Err(m)
      case Ok(t) => r.Ok? && t == State(node, cell, generation, cutEdge, nonConforming, r.value.0, r.value.1, r.value.2, [])
  {
    ghost var b0 := State(node, cell, generation, cutEdge, nonConforming, NN, NC, nCut, marked);
    var nn, nc, ncut, mk := NN, NC, nCut, marked;
    var round: nat := 0;
    while |mk| != 0
      invariant Inv(State(node, cell, generation, cutEdge, nonConforming, nn, nc, ncut, mk))
      invariant Run(State(node, cell, generation, cutEdge, nonConforming, nn, nc, ncut, mk), choose, round) ==
        Run(b0, choose, 0)
      decreases cell.Length - nc
    {
      ghost var b := State(node, cell, generation, cutEdge, nonConforming, nn, nc, ncut, mk);
      var lidx := Choices(mk, choose, round);
      var step := BisectRound(node, cell, generation, cutEdge, nonConforming, nn, nc, ncut, mk, lidx);
      match step {
        case Err(m) =>
          RunStops(b, choose, round, m);
          return Err(m);
        case Ok(v) =>
          RunStep(b, choose, round, State(node, cell, generation, cutEdge, nonConforming, v.0, v.1, v.2, v.3));
          nn, nc, ncut, mk := v.0, v.1, v.2, v.3;
      }
      round := round + 1;
    }
    r := Ok((nn, nc, ncut));
  }

  /**
   * The body of `bisect(isMarkedCell)` up to `reinit`: allocate the
   * buffers, run the loop, and cut the buffers down to their used parts.
   */
  method BisectMesh(nodes: seq<Point>, cells: seq<Cell>, isMarkedCell: Option<seq<bool>>,
                    choose: (nat, nat) -> LocalEdgeId)
    returns (r: Result<(seq<Point>, seq<Cell>)>)
    requires Tets(cells) && NodesBelow(cells, |nodes|)
    requires isMarkedCell.Some? ==> |isMarkedCell.value| == |cells|
    ensures r == Bisected(nodes, cells, isMarkedCell, choose)
  {
    var marked := InitialMarked(|cells|, isMarkedCell);
    var node, cell, generation, cutEdge, nonConforming := Allocate(nodes, cells, marked);
    var done := RunRounds(node, cell, generation, cutEdge, nonConforming, |nodes|, |cells|, 0, marked, choose);
    match done {
      case Err(m) =>
        r := Err(m);
      case Ok(v) =>
        r := Ok((node[..v.0], cell[..v.1]));
    }
  }

  /**
   * The loop of `uniform_bisect`: `calls` calls of `bisect()`, each on the
   * mesh the one before left, until one fails. The mesh returned is the one
   * the successful calls left.
   */
  method BisectRepeatedly(nodes: seq<Point>, cells: seq<Cell>, calls: nat, choose: (nat, nat, nat) -> LocalEdgeId)
    returns (err: Option<string>, node: seq<Point>, cell: seq<Cell>)
    requires Tets(cells) && NodesBelow(cells, |nodes|)
    ensures Grown(nodes, cells, node, cell)
    ensures match UniformBisected(nodes, cells, calls, 0, choose)
      case Ok(mesh) => err == None && (node, cell) == mesh
      case Err(m) => err == Some(m)
  {
    ghost var outcome := UniformBisected(nodes, cells, calls, 0, choose);
    node, cell := nodes, cells;
    assert nodes[..|nodes|] == nodes;
    var i: nat, left: nat := 0, calls;
    while left > 0
      invariant Grown(nodes, cells, node, cell)
      invariant outcome == UniformBisected(node, cell, left, i, choose)
    {
      UniformBisectedStep(node, cell, left, i, choose);
      var r := BisectMesh(node, cell, None, Call(choose, i));
      match r {
        case Err(m) =>
          return Some(m), node, cell;
        case Ok(mesh) =>
          GrownTransitive(nodes, cells, node, cell, mesh.0, mesh.1);
          node, cell := mesh.0, mesh.1;
      }
      i, left := i + 1, left - 1;
    }
    err := None;
  }
}
