/**
 * The array idioms the mesh code is written in: fancy-index assignment
 * with repeated indices (the last write wins), `nonzero` of a flag array,
 * and row-wise listing of a boolean relation as compressed sparse rows.
 */
module ArrayOps {

  datatype Option<T> = None | Some(value: T)

  /** The outcome of an operation that raises on bad input. */
  datatype Result<T> = Ok(value: T) | Err(message: string)

  /**
   * The last index at which `x` occurs in `s`: the write that survives when
   * `a[idx] = vals` assigns to the same place several times.
   */
  function LastMatch<T(==)>(s: seq<T>, x: T): (r: Option<nat>)
    ensures r.Some? <==> x in s
    ensures r.Some? ==> r.value < |s| && s[r.value] == x &&
                        forall i :: r.value < i < |s| ==> s[i] != x
  {
    if s == [] then None
    else if s[|s| - 1] == x then Some(|s| - 1)
    else
      assert s == s[..|s| - 1] + [s[|s| - 1]];
      LastMatch(s[..|s| - 1], x)
  }

  /** One more write in a scatter: it wins where it lands, and elsewhere the earlier writes stand. */
  lemma LastMatchExtend<T>(s: seq<T>, k: nat, x: T)
    requires k < |s|
    ensures LastMatch(s[..k + 1], x) == if s[k] == x then Some(k) else LastMatch(s[..k], x)
  {
    assert s[..k + 1][..k] == s[..k];
  }

  /** The write at `k` survives exactly when no later write goes to the same place. */
  lemma LastMatchIsLast<T>(s: seq<T>, x: T, k: nat)
    requires k < |s| && s[k] == x && forall i :: k < i < |s| ==> s[i] != x
    ensures LastMatch(s, x) == Some(k)
  {
    assert x in s;
    var m := LastMatch(s, x);
    assert m.value >= k;
    assert m.value <= k;
  }

  predicate Increasing(s: seq<nat>) {
    forall i, j :: 0 <= i < j < |s| ==> s[i] < s[j]
  }

  /** `nonzero(flag)`: the positions of the true entries, in increasing order. */
  function Nonzero(flag: seq<bool>): (r: seq<nat>)
    ensures Increasing(r)
    ensures forall i: nat :: i in r <==> i < |flag| && flag[i]
    ensures forall k :: 0 <= k < |r| ==> r[k] < |flag|
  {
    if flag == [] then []
    else
      var n := |flag| - 1;
      var head := Nonzero(flag[..n]);
      head + (if flag[n] then [n] else [])
  }

  /** `nonzero` of a prefix of the flags is a prefix of `nonzero` of all of them. */
  lemma {:induction false} NonzeroPrefix(flag: seq<bool>, v: nat)
    requires v <= |flag|
    ensures |Nonzero(flag[..v])| <= |Nonzero(flag)|
    ensures Nonzero(flag)[..|Nonzero(flag[..v])|] == Nonzero(flag[..v])
  {
    if v == |flag| {
      assert flag[..v] == flag;
    } else {
      var n := |flag| - 1;
      NonzeroPrefix(flag[..n], v);
      assert flag[..n][..v] == flag[..v];
      var h := Nonzero(flag[..n]);
      assert Nonzero(flag)[..|h|] == h;
    }
  }

  /** The number of set flags before position `v`: `v`'s place in `range(flag.sum())`. */
  function Rank(flag: seq<bool>, v: nat): (r: nat)
    requires v <= |flag|
    ensures r <= v
  {
    NonzeroPrefix(flag, v);
    NonzeroCount(flag[..v]);
    |Nonzero(flag[..v])|
  }

  /** There are no more set flags than flags. */
  lemma {:induction false} NonzeroCount(flag: seq<bool>)
    ensures |Nonzero(flag)| <= |flag|
  {
    if flag != [] {
      NonzeroCount(flag[..|flag| - 1]);
    }
  }

  /** A set flag is found in `nonzero` at its rank. */
  lemma RankFinds(flag: seq<bool>, v: nat)
    requires v < |flag| && flag[v]
    ensures Rank(flag, v) < |Nonzero(flag)| && Nonzero(flag)[Rank(flag, v)] == v
  {
    NonzeroPrefix(flag, v + 1);
    assert flag[..v + 1][..v] == flag[..v];
    assert Nonzero(flag[..v + 1]) == Nonzero(flag[..v]) + [v];
  }

  /** The `k`-th set flag has rank `k`: numbering the set flags in order inverts `nonzero`. */
  lemma RankOfNonzero(flag: seq<bool>, k: nat)
    requires k < |Nonzero(flag)|
    ensures Rank(flag, Nonzero(flag)[k]) == k
  {
    var idx := Nonzero(flag);
    var v := idx[k];
    assert v in idx;
    RankFinds(flag, v);
    var r := Rank(flag, v);
    assert idx[r] == idx[k];
  }

  /** The members `b < n` of row `a` of a relation, in increasing order. */
  function RowOf(rel: set<(nat, nat)>, a: nat, n: nat): (r: seq<nat>)
    ensures Increasing(r)
    ensures forall b: nat :: b in r <==> b < n && (a, b) in rel
  {
    Nonzero(seq(n, b requires 0 <= b => (a, b) in rel))
  }

  /** Rows `0..m` of a relation on `0..n`, one after the other. */
  function RowsUpTo(rel: set<(nat, nat)>, n: nat, m: nat): seq<nat>
  {
    if m == 0 then [] else RowsUpTo(rel, n, m - 1) + RowOf(rel, m - 1, n)
  }

  /**
   * The compressed-sparse-row form of a relation on `0..n` that `nonzero`
   * and a cumulative sum of the row counts give: the column indices `adj`
   * of all rows one after the other, and the offsets `loc` of the rows.
   */
  function Csr(rel: set<(nat, nat)>, n: nat): (r: (seq<nat>, seq<nat>))
  {
    (RowsUpTo(rel, n, n), seq(n + 1, i requires 0 <= i => |RowsUpTo(rel, n, i)|))
  }

  lemma {:induction false} RowsUpToPrefix(rel: set<(nat, nat)>, n: nat, i: nat, m: nat)
    requires i <= m
    ensures |RowsUpTo(rel, n, i)| <= |RowsUpTo(rel, n, m)|
    ensures RowsUpTo(rel, n, m)[..|RowsUpTo(rel, n, i)|] == RowsUpTo(rel, n, i)
  {
    if i < m {
      RowsUpToPrefix(rel, n, i, m - 1);
      var a, b := RowsUpTo(rel, n, m - 1), RowOf(rel, m - 1, n);
      assert (a + b)[..|a|] == a;
    }
  }

  /**
   * Row `i` of the compressed form starts where the previous one ends, holds
   * exactly as many entries as node `i` has partners, and lists them.
   */
  lemma CsrRow(rel: set<(nat, nat)>, n: nat, i: nat)
    requires i < n
    ensures var (adj, loc) := Csr(rel, n);
      |loc| == n + 1 && loc[0] == 0 &&
      loc[i] <= loc[i + 1] <= |adj| &&
      loc[i + 1] - loc[i] == |RowOf(rel, i, n)| &&
      adj[loc[i]..loc[i + 1]] == RowOf(rel, i, n)
  {
    var (adj, loc) := Csr(rel, n);
    RowsUpToPrefix(rel, n, i + 1, n);
    var a, b := RowsUpTo(rel, n, i), RowOf(rel, i, n);
    assert RowsUpTo(rel, n, i + 1) == a + b;
    assert adj[..|a| + |b|] == a + b;
    assert adj[|a|..|a| + |b|] == (a + b)[|a|..];
  }
}
