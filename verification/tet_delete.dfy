/**
 * `delete_cell` of fealpy/mesh/TetrahedronMesh.py: drop the cells a
 * threshold flags, keep only the nodes the remaining cells use, and
 * renumber those nodes in their old order. The threshold is evaluated on
 * the cell barycenters; its verdicts are an input here.
 */
module TetDelete {
  import opened ArrayOps
  import opened Mesh2dTopology
  import opened TetTopology

  /** `a[flag]`: the entries whose flag is set, in their old order. */
  function Select<T>(s: seq<T>, flag: seq<bool>): (r: seq<T>)
    requires |flag| == |s|
    ensures |r| == |Nonzero(flag)|
    ensures forall k :: 0 <= k < |r| ==> r[k] == s[Nonzero(flag)[k]]
  {
    var idx := Nonzero(flag);
    seq(|idx|, k requires 0 <= k < |idx| => s[idx[k]])
  }

  /** `isKeepCell = ~threshold(bc)`. */
  function KeepFlags(isDeleted: seq<bool>): (r: seq<bool>)
    ensures |r| == |isDeleted| && forall c :: 0 <= c < |r| ==> r[c] != isDeleted[c]
  {
    seq(|isDeleted|, c requires 0 <= c < |isDeleted| => !isDeleted[c])
  }

  /** Some row of `cell` names node `v`. */
  predicate Uses(cell: seq<Cell>, v: nat) {
    exists c, i :: 0 <= c < |cell| && 0 <= i < |cell[c]| && cell[c][i] == v
  }

  /** `isValidNode = zeros(NN); isValidNode[cell] = True`. */
  function UsedNodes(cell: seq<Cell>, NN: nat): (r: seq<bool>)
    ensures |r| == NN && forall v :: 0 <= v < NN ==> (r[v] <==> Uses(cell, v))
  {
    seq(NN, v requires 0 <= v < NN => Uses(cell, v))
  }

  /** `idxMap[isValidNode] = range(isValidNode.sum())`: each valid node's place among the valid nodes. */
  function IndexMap(flag: seq<bool>): (r: seq<nat>)
    ensures |r| == |flag|
    ensures forall v :: 0 <= v < |flag| && flag[v] ==> r[v] < |Nonzero(flag)| && Nonzero(flag)[r[v]] == v
  {
    forall v | 0 <= v < |flag| && flag[v]
      ensures Rank(flag, v) < |Nonzero(flag)| && Nonzero(flag)[Rank(flag, v)] == v
    {
      RankFinds(flag, v);
    }
    seq(|flag|, v requires 0 <= v < |flag| => if flag[v] then Rank(flag, v) else 0)
  }

  /** `idxMap[cell]`: every vertex number replaced by its new number. */
  function Renumber(cell: seq<Cell>, idxMap: seq<nat>): (r: seq<Cell>)
    requires NodesBelow(cell, |idxMap|)
    ensures |r| == |cell| && forall c :: 0 <= c < |r| ==> |r[c]| == |cell[c]|
  {
    seq(|cell|, c requires 0 <= c < |cell| =>
      seq(|cell[c]|, i requires 0 <= i < |cell[c]| => idxMap[cell[c][i]]))
  }

  /** The cells `delete_cell` keeps: `cell[isKeepCell]`. */
  function KeptCells(cell: seq<Cell>, isDeleted: seq<bool>): (r: seq<Cell>)
    requires |isDeleted| == |cell|
    ensures |r| == |Nonzero(KeepFlags(isDeleted))|
    ensures Tets(cell) ==> Tets(r)
    ensures forall n :: NodesBelow(cell, n) ==> NodesBelow(r, n)
  {
    Select(cell, KeepFlags(isDeleted))
  }

  /**
   * `delete_cell(threshold)`: the nodes and cells it hands to `reinit`.
   * `isDeleted[c]` is `threshold` at the barycenter of cell `c`.
   */
  function Deleted(node: seq<Point>, cell: seq<Cell>, isDeleted: seq<bool>): (r: (seq<Point>, seq<Cell>))
    requires Tets(cell) && NodesBelow(cell, |node|) && |isDeleted| == |cell|
    ensures |r.0| <= |node| && Tets(r.1) && NodesBelow(r.1, |r.0|)
  {
    var kept := KeptCells(cell, isDeleted);
    var valid := UsedNodes(kept, |node|);
    var cell' := Renumber(kept, IndexMap(valid));
    NonzeroCount(valid);
    assert NodesBelow(cell', |Nonzero(valid)|) by {
      forall c, i | 0 <= c < |cell'| && 0 <= i < |cell'[c]|
        ensures cell'[c][i] < |Nonzero(valid)|
      {
        assert valid[kept[c][i]];
      }
    }
    (Select(node, valid), cell')
  }

  /**
   * The cells kept are exactly the ones not flagged, in their old order:
   * new cell `k` comes from old cell `Nonzero(KeepFlags(isDeleted))[k]`.
   */
  lemma DeleteKeepsUnflaggedCells(isDeleted: seq<bool>, c: nat)
    requires c < |isDeleted|
    ensures Increasing(Nonzero(KeepFlags(isDeleted)))
    ensures c in Nonzero(KeepFlags(isDeleted)) <==> !isDeleted[c]
  {
  }

  /**
   * Renumbering moves no vertex: every vertex of new cell `k` has the
   * coordinates of the same vertex of the old cell it comes from.
   */
  lemma DeleteKeepsCoordinates(node: seq<Point>, cell: seq<Cell>, isDeleted: seq<bool>, k: nat, i: nat)
    requires Tets(cell) && NodesBelow(cell, |node|) && |isDeleted| == |cell|
    requires k < |Deleted(node, cell, isDeleted).1| && i < 4
    ensures Nonzero(KeepFlags(isDeleted))[k] < |cell|
    ensures var (node', cell') := Deleted(node, cell, isDeleted);
      node'[cell'[k][i]] == node[cell[Nonzero(KeepFlags(isDeleted))[k]][i]]
  {
    var kept := KeptCells(cell, isDeleted);
    var valid := UsedNodes(kept, |node|);
    assert valid[kept[k][i]];
  }

  /**
   * The nodes kept are exactly the ones the kept cells use, in their old
   * order: new node `v` is old node `Nonzero(valid)[v]`.
   */
  lemma DeleteKeepsUsedNodes(node: seq<Point>, cell: seq<Cell>, isDeleted: seq<bool>, w: nat)
    requires Tets(cell) && NodesBelow(cell, |node|) && |isDeleted| == |cell| && w < |node|
    ensures var valid := UsedNodes(KeptCells(cell, isDeleted), |node|);
      Increasing(Nonzero(valid)) &&
      (w in Nonzero(valid) <==> Uses(KeptCells(cell, isDeleted), w)) &&
      |Deleted(node, cell, isDeleted).0| == |Nonzero(valid)| &&
      forall v :: 0 <= v < |Nonzero(valid)| ==> Deleted(node, cell, isDeleted).0[v] == node[Nonzero(valid)[v]]
  {
  }

  /** No node is left unused: every new node is a vertex of some new cell. */
  lemma DeleteLeavesNoOrphan(node: seq<Point>, cell: seq<Cell>, isDeleted: seq<bool>, v: nat)
    requires Tets(cell) && NodesBelow(cell, |node|) && |isDeleted| == |cell|
    requires v < |Deleted(node, cell, isDeleted).0|
    ensures Uses(Deleted(node, cell, isDeleted).1, v)
  {
    var kept := KeptCells(cell, isDeleted);
    var valid := UsedNodes(kept, |node|);
    var w := Nonzero(valid)[v];
    assert valid[w];
    var c, i :| 0 <= c < |kept| && 0 <= i < |kept[c]| && kept[c][i] == w;
    RankOfNonzero(valid, v);
    assert Deleted(node, cell, isDeleted).1[c][i] == v;
  }
}
