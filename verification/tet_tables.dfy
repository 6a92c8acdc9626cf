/**
 * The constant local tables of a tetrahedron (`TetrahedronMeshDataStructure`
 * in fealpy/mesh/TetrahedronMesh.py): its four faces, its six edges, the
 * edges of each face, the twelve vertex orderings `index`, and the five
 * vertex permutations `label` applies to move a chosen edge to columns 0
 * and 1.
 */
module TetTables {

  /** Vertices, edges and faces per cell. */
  const V: nat := 4
  const E: nat := 6
  const F: nat := 4

  /** `localFace[i]`: the face opposite vertex `i`. */
  const LocalFace: seq<seq<nat>> := [[1, 2, 3], [0, 3, 2], [0, 1, 3], [0, 2, 1]]

  /** `localEdge[l]`: the two local vertices of edge `l`. */
  const LocalEdge: seq<(nat, nat)> := [(0, 1), (0, 2), (0, 3), (1, 2), (1, 3), (2, 3)]

  /** `localFace2edge[i][k]`: the edge of face `i` opposite its `k`-th vertex. */
  const LocalFace2Edge: seq<seq<nat>> := [[5, 4, 3], [5, 1, 2], [4, 2, 0], [3, 0, 1]]

  /** `index[r]`: twelve orderings of the four vertices, three starting with each vertex. */
  function Index(r: nat): seq<nat>
    requires r < 12
  {
    match r
    case 0 => [0, 1, 2, 3]  case 1 => [0, 2, 3, 1]  case 2 => [0, 3, 1, 2]
    case 3 => [1, 2, 0, 3]  case 4 => [1, 0, 3, 2]  case 5 => [1, 3, 2, 0]
    case 6 => [2, 0, 1, 3]  case 7 => [2, 1, 3, 0]  case 8 => [2, 3, 0, 1]
    case 9 => [3, 0, 2, 1]  case 10 => [3, 2, 1, 0] case _ => [3, 1, 0, 2]
  }

  /** `p` lists each of `0..4` exactly once. */
  predicate IsPermutation(p: seq<nat>) {
    |p| == 4 && p[0] < 4 && p[1] < 4 && p[2] < 4 && p[3] < 4 &&
    p[0] != p[1] && p[0] != p[2] && p[0] != p[3] && p[1] != p[2] && p[1] != p[3] && p[2] != p[3]
  }

  /**
   * The column order `label` applies to a cell whose chosen local edge is
   * `l`: `cell[c, :] = cell[c][:, LabelPerm(l)]`; edge 0 leaves the cell as it is.
   */
  function LabelPerm(l: nat): (p: seq<nat>)
    requires l < 6
    ensures IsPermutation(p)
  {
    match l
    case 0 => [0, 1, 2, 3]
    case 1 => [2, 0, 1, 3]
    case 2 => [0, 3, 1, 2]
    case 3 => [1, 2, 0, 3]
    case 4 => [1, 3, 2, 0]
    case _ => [3, 2, 1, 0]
  }

  /** How often vertex `v` occurs in a four-vertex row. */
  function Occurrences(row: seq<nat>, v: nat): nat
    requires |row| == 4
  {
    (if row[0] == v then 1 else 0) + (if row[1] == v then 1 else 0) +
    (if row[2] == v then 1 else 0) + (if row[3] == v then 1 else 0)
  }

  /** Two four-vertex rows hold the same vertices with the same multiplicities. */
  ghost predicate SameVertices(r: seq<nat>, s: seq<nat>)
    requires |r| == 4 && |s| == 4
  {
    forall v :: Occurrences(r, v) == Occurrences(s, v)
  }

  /** Whether the pair of columns `i < j` of `p` is out of order. */
  function Inverted(p: seq<nat>, i: nat, j: nat): nat
    requires i < j < |p|
  {
    if p[i] > p[j] then 1 else 0
  }

  /** The number of inversions of a four-entry order: pairs `i < j` with `p[i] > p[j]`. */
  function Inversions(p: seq<nat>): nat
    requires |p| == 4
  {
    Inverted(p, 0, 1) + Inverted(p, 0, 2) + Inverted(p, 0, 3) +
    Inverted(p, 1, 2) + Inverted(p, 1, 3) + Inverted(p, 2, 3)
  }

  /** An even permutation: an even number of inversions. */
  predicate Even(p: seq<nat>)
    requires |p| == 4
  {
    Inversions(p) % 2 == 0
  }

  /** A four-vertex row with its columns reordered by `p`: `row[p]`. */
  function Permute(row: seq<nat>, p: seq<nat>): (r: seq<nat>)
    requires |row| == 4 && IsPermutation(p)
  {
    [row[p[0]], row[p[1]], row[p[2]], row[p[3]]]
  }

  /** A vertex of a row occurs in every row with the same vertices. */
  lemma SameVerticesMembers(r: seq<nat>, s: seq<nat>, i: nat)
    requires |r| == 4 && |s| == 4 && i < 4 && SameVertices(r, s)
    ensures r[i] in s
  {
    assert Occurrences(s, r[i]) == Occurrences(r, r[i]) >= 1;
  }

  /** The label orders are even permutations of the four vertices. */
  lemma LabelPermsAreEven(l: nat)
    requires l < 6
    ensures IsPermutation(LabelPerm(l)) && Even(LabelPerm(l))
  {
  }

  /** Order `l` brings the two vertices of local edge `l` to the first two columns. */
  lemma LabelPermLeadsWithEdge(l: nat)
    requires l < 6
    ensures {LabelPerm(l)[0], LabelPerm(l)[1]} == {LocalEdge[l].0, LocalEdge[l].1}
  {
  }

  /**
   * Reordering the columns of a four-vertex row by a label order keeps the
   * row's vertices: the new row is a permutation of the old one.
   */
  lemma PermuteKeepsVertices(row: seq<nat>, l: nat)
    requires |row| == 4 && l < 6
    ensures IsPermutation(LabelPerm(l))
    ensures SameVertices(Permute(row, LabelPerm(l)), row)
  {
  }

  /** Face `i` holds the three vertices other than `i`, and `i` followed by it is an even order. */
  lemma LocalFaceIsOpposite(i: nat)
    requires i < F
    ensures |LocalFace[i]| == 3 && i !in LocalFace[i]
    ensures IsPermutation([i] + LocalFace[i]) && Even([i] + LocalFace[i])
  {
  }

  /** The `k`-th edge of face `i` joins the face's two vertices other than its `k`-th one. */
  lemma FaceEdgeIsOpposite(i: nat, k: nat)
    requires i < F && k < 3
    ensures LocalFace2Edge[i][k] < E
    ensures var (a, b) := LocalEdge[LocalFace2Edge[i][k]];
      a in LocalFace[i] && b in LocalFace[i] && a != LocalFace[i][k] && b != LocalFace[i][k] && a != b
  {
  }

  /** Every `index` row is an even ordering of the four vertices, and row `3 i` starts with `i`. */
  lemma IndexRows(r: nat)
    requires r < 12
    ensures IsPermutation(Index(r)) && Even(Index(r))
    ensures r % 3 == 0 ==> Index(r)[0] == r / 3
  {
  }

  /** The twelve `index` rows are distinct: together they are all even orderings of four vertices. */
  lemma IndexRowsDistinct(r: nat, s: nat)
    requires r < s < 12
    ensures Index(r) != Index(s)
  {
  }
}
