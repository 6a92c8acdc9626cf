/**
 * The classes of fealpy/mesh/TetrahedronMesh.py: the data structure that
 * holds the cells and the edges derived from them, and the mesh that owns
 * the node coordinates and the data structure, with the operations that
 * replace both in place: `label`, `bisect`, `uniform_bisect`,
 * `uniform_refine` and `delete_cell`.
 */
module TetMesh {
  import opened ArrayOps
  import opened Mesh2dTopology
  import opened TetTables
  import opened TetTopology
  import opened TetBisect
  import opened TetBisectArrays
  import opened TetRefine
  import opened TetDelete

  /**
   * `TetrahedronMeshDataStructure`: the node count, the cells, and the edge
   * array `construct` derives from them. The local tables are the constants
   * of `TetTables`.
   */
  class TetrahedronMeshDataStructure {
    var N: nat
    var NC: nat
    var cell: seq<Cell>
    var NE: nat
    var edge: seq<(nat, nat)>

    /** The counts agree with the arrays and the edges are those of the cells. */
    predicate Valid()
      reads this
    {
      NC == |cell| && Tets(cell) && edge == TetTopology.Edges(cell) && NE == |edge|
    }

    /** `__init__(N, cell)`: store the cells and construct the edges. */
    constructor (N: nat, cell: seq<Cell>)
      requires Tets(cell)
      ensures this.N == N && this.cell == cell && Valid()
    {
      this.N := N;
      NC := |cell|;
      this.cell := cell;
      NE := |TetTopology.Edges(cell)|;
      edge := TetTopology.Edges(cell);
    }

    /** `reinit(N, cell)`: replace the cells and rebuild the edges. */
    method Reinit(N: nat, cell: seq<Cell>)
      requires Tets(cell)
      modifies this
      ensures this.N == N && this.cell == cell && Valid()
    {
      this.N := N;
      NC := |cell|;
      this.cell := cell;
      Construct();
    }

    /** `construct()`: derive the edges from the cells. */
    method Construct()
      requires Tets(cell) && NC == |cell|
      modifies this`NE, this`edge
      ensures Valid()
    {
      edge := TetTopology.Edges(cell);
      NE := |edge|;
    }

    /**
     * `cell_to_edge()`: entry `(c, l)` is the edge joining the two vertices
     * of local edge `l` of cell `c`.
     */
    function CellToEdge(): (r: seq<seq<nat>>)
      requires Valid()
      reads this
      ensures |r| == NC && forall c :: 0 <= c < NC ==> |r[c]| == 6
      ensures forall c, l :: 0 <= c < NC && 0 <= l < 6 ==> r[c][l] < NE
    {
      CellToEdgeBelow(cell);
      TetTopology.CellToEdge(cell)
    }
  }

  /** `TetrahedronMesh`: node coordinates and the topology data structure. */
  class TetrahedronMesh {
    var node: seq<Point>
    const ds: TetrahedronMeshDataStructure

    /** The data structure is valid, counts the nodes, and every cell names existing nodes. */
    predicate Valid()
      reads this, ds
    {
      ds.Valid() && ds.N == |node| && NodesBelow(ds.cell, |node|)
    }

    /** `__init__(node, cell)`. */
    constructor (node: seq<Point>, cell: seq<Cell>)
      requires Tets(cell) && NodesBelow(cell, |node|)
      ensures this.node == node && ds.cell == cell && Valid()
    {
      this.node := node;
      ds := new TetrahedronMeshDataStructure(|node|, cell);
    }

    function NumberOfNodes(): (r: nat)
      reads this
    {
      |node|
    }

    function NumberOfCells(): (r: nat)
      reads this, ds
    {
      ds.NC
    }

    function NumberOfEdges(): (r: nat)
      reads this, ds
    {
      ds.NE
    }

    /**
     * `label(cell=None, cellidx)`: relabel the mesh's own cells `cellidx`
     * (all of them when it is `None`) so that the local edge `lidx[k]` of cell
     * `cellidx[k]` comes first, then construct the edges again.
     */
    method Label(cellidx: Option<seq<nat>>, lidx: seq<LocalEdgeId>)
      requires Valid()
      requires cellidx.Some? ==> forall k :: 0 <= k < |cellidx.value| ==> cellidx.value[k] < |ds.cell|
      requires |lidx| == if cellidx.Some? then |cellidx.value| else |ds.cell|
      modifies ds
      ensures Valid()
      ensures var idx := if cellidx.Some? then cellidx.value else seq(|old(ds.cell)|, c => c);
        ds.cell == Labelled(old(ds.cell), idx, lidx)
    {
      var rows := ds.cell;
      var idx := if cellidx.Some? then cellidx.value else seq(|rows|, c => c);
      var relabelled := Relabel(rows, idx, lidx);
      LabelledRowsBelow(rows, idx, lidx, |rows|, |node|);
      ds.cell := relabelled;
      ds.Construct();
    }

    /**
     * `bisect(isMarkedCell)`: copy the nodes and cells into buffers, run
     * rounds until no cell is marked, and hand the used parts of the buffers
     * to `reinit`. `choose(round, c)` is the edge `label` takes in cell `c`
     * in that round. What it leaves is what `Bisected` says; on an error the
     * mesh is as it was.
     */
    method Bisect(isMarkedCell: Option<seq<bool>>, choose: (nat, nat) -> LocalEdgeId) returns (err: Option<string>)
      requires Valid() && (isMarkedCell.Some? ==> |isMarkedCell.value| == |ds.cell|)
      modifies this, ds
      ensures Valid()
      ensures match Bisected(old(node), old(ds.cell), isMarkedCell, choose)
        case Ok(mesh) => err == None && node == mesh.0 && ds.cell == mesh.1
        case Err(m) => err == Some(m) && node == old(node) && ds.cell == old(ds.cell)
    {
      var r := BisectMesh(node, ds.cell, isMarkedCell, choose);
      match r {
        case Err(m) =>
          err := Some(m);
        case Ok(mesh) =>
          node := mesh.0;
          ds.Reinit(|mesh.0|, mesh.1);
          err := None;
      }
    }

    /**
     * `uniform_bisect(n)`: `bisect()` of every cell `2 n` times; call `i`
     * takes the edges `choose(i, round, c)`. An error ends the loop and is
     * reported, and the mesh is the one the calls before it left; otherwise
     * the mesh becomes what `UniformBisected` says.
     */
    method UniformBisect(n: nat, choose: (nat, nat, nat) -> LocalEdgeId) returns (err: Option<string>)
      requires Valid()
      modifies this, ds
      ensures Valid() && Grown(old(node), old(ds.cell), node, ds.cell)
      ensures match UniformBisected(old(node), old(ds.cell), 2 * n, 0, choose)
        case Ok(mesh) => err == None && node == mesh.0 && ds.cell == mesh.1
        case Err(m) => err == Some(m)
    {
      var nodes, cells;
      err, nodes, cells := BisectRepeatedly(node, ds.cell, 2 * n, choose);
      node := nodes;
      ds.Reinit(|nodes|, cells);
    }

    /**
     * `uniform_refine(n)`: `n` passes, each appending the edge midpoints to
     * the nodes and replacing every cell by its eight children; pass `i`
     * takes the diagonal `diag(i, c)` in cell `c`.
     */
    method UniformRefine(n: nat, diag: (nat, nat) -> DiagonalId)
      requires Valid()
      modifies this, ds
      ensures Valid() && (node, ds.cell) == UniformRefined(old(node), old(ds.cell), n, diag)
    {
      ghost var node0, cell0 := node, ds.cell;
      var i := 0;
      while i < n
        invariant i <= n && Valid()
        invariant (node, ds.cell) == UniformRefined(node0, cell0, i, diag)
      {
        UniformRefinedStep(node0, cell0, i, diag);
        RefinePass(Diagonals(diag, i, |ds.cell|));
        i := i + 1;
      }
    }

    /** One pass of the loop of `uniform_refine`, with the diagonals `d` of its cells. */
    method RefinePass(d: seq<DiagonalId>)
      requires Valid() && |d| == |ds.cell|
      modifies this, ds
      ensures Valid() && (node, ds.cell) == RefineOnce(old(node), old(ds.cell), d)
    {
      var newNode, newCell := Refine(node, ds.cell, d);
      node := newNode;
      ds.Reinit(|newNode|, newCell);
    }

    /**
     * `delete_cell(threshold)`: `isDeleted[c]` is the threshold's verdict on
     * cell `c`. The mesh becomes what `Deleted` says.
     */
    method DeleteCell(isDeleted: seq<bool>)
      requires Valid() && |isDeleted| == |ds.cell|
      modifies this, ds
      ensures Valid() && (node, ds.cell) == Deleted(old(node), old(ds.cell), isDeleted)
    {
      var r := Deleted(node, ds.cell, isDeleted);
      node := r.0;
      ds.Reinit(|r.0|, r.1);
    }
  }
}
