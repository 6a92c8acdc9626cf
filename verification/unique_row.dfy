/**
 * Row deduplication of a table of vertex pairs, as the mesh code uses it:
 * the sorted distinct rows, the index of the first occurrence of each
 * distinct row, and the inverse map from every row to its distinct row.
 * This is the contract of NumPy's `unique(axis=0, return_index=True,
 * return_inverse=True)`, which `unique_row` of the mesh tools provides.
 */
module UniqueRow {

  /** A row of two vertex numbers. */
  type Key = (nat, nat)

  /** Lexicographic order on rows. */
  predicate Lt(p: Key, q: Key) {
    p.0 < q.0 || (p.0 == q.0 && p.1 < q.1)
  }

  predicate StrictlySorted(s: seq<Key>) {
    forall i, j :: 0 <= i < j < |s| ==> Lt(s[i], s[j])
  }

  /** Adds `x` to a strictly sorted sequence, keeping it strictly sorted. */
  function Insert(s: seq<Key>, x: Key): (r: seq<Key>)
    requires StrictlySorted(s)
    ensures StrictlySorted(r)
    ensures forall y :: y in r <==> y in s || y == x
  {
    if s == [] then [x]
    else if x == s[0] then s
    else if Lt(x, s[0]) then [x] + s
    else
      var tail := Insert(s[1..], x);
      assert forall y :: y in tail ==> Lt(s[0], y);
      [s[0]] + tail
  }

  /** The distinct rows of `t` in increasing order. */
  function SortedDistinct(t: seq<Key>): (r: seq<Key>)
    ensures StrictlySorted(r)
    ensures forall y :: y in r <==> y in t
  {
    if t == [] then []
    else
      var n := |t| - 1;
      assert forall y :: y in t <==> y in t[..n] || y == t[n] by {
        assert t == t[..n] + [t[n]];
      }
      Insert(SortedDistinct(t[..n]), t[n])
  }

  /** Index of the first occurrence of `x` in `t`. */
  function FirstIndex<T(==)>(t: seq<T>, x: T): (k: nat)
    requires x in t
    ensures k < |t| && t[k] == x
    ensures forall i :: 0 <= i < k ==> t[i] != x
  {
    if t[0] == x then 0 else 1 + FirstIndex(t[1..], x)
  }

  /** In a strictly sorted sequence every row occurs at exactly one index. */
  lemma StrictlySortedInjective(s: seq<Key>, i: nat, j: nat)
    requires StrictlySorted(s) && i < |s| && j < |s| && s[i] == s[j]
    ensures i == j
  {
  }

  /** The result of the deduplication. */
  datatype Unique = Unique(keys: seq<Key>, first: seq<nat>, inverse: seq<nat>)

  /**
   * The deduplicated table: `keys` are the distinct rows of `t` in
   * increasing order, `first[e]` is where `keys[e]` first occurs in `t`, and
   * `inverse[k]` is the position of `t[k]` among the keys.
   */
  function UniqueRows(t: seq<Key>): (u: Unique)
    ensures StrictlySorted(u.keys)
    ensures forall y :: y in u.keys <==> y in t
    ensures |u.first| == |u.keys| && |u.inverse| == |t|
    ensures forall e {:trigger u.first[e]} :: 0 <= e < |u.keys| ==>
              u.first[e] < |t| && t[u.first[e]] == u.keys[e] &&
              forall i :: 0 <= i < u.first[e] ==> t[i] != u.keys[e]
    ensures forall k {:trigger u.inverse[k]} :: 0 <= k < |t| ==> u.inverse[k] < |u.keys| && u.keys[u.inverse[k]] == t[k]
  {
    var keys := SortedDistinct(t);
    Unique(keys,
           seq(|keys|, e requires 0 <= e < |keys| => FirstIndex(t, keys[e])),
           seq(|t|, k requires 0 <= k < |t| => FirstIndex(keys, t[k])))
  }

  /** The inverse map sends exactly the occurrences of `keys[e]` to `e`. */
  lemma InverseExact(t: seq<Key>, k: nat, e: nat)
    requires k < |t| && e < |UniqueRows(t).keys|
    ensures UniqueRows(t).inverse[k] == e <==> t[k] == UniqueRows(t).keys[e]
  {
    var u := UniqueRows(t);
    if t[k] == u.keys[e] {
      StrictlySortedInjective(u.keys, u.inverse[k], e);
    }
  }

  /** Number of distinct elements of a strictly sorted sequence. */
  lemma {:induction false} StrictlySortedCard(s: seq<Key>)
    requires StrictlySorted(s)
    ensures |set y | y in s| == |s|
  {
    if s != [] {
      var n := |s| - 1;
      StrictlySortedCard(s[..n]);
      assert (set y | y in s) == (set y | y in s[..n]) + {s[n]} by {
        assert s == s[..n] + [s[n]];
      }
      assert s[n] !in s[..n] by {
        forall i | 0 <= i < n ensures s[..n][i] != s[n] {
          assert Lt(s[i], s[n]);
        }
      }
    }
  }

  /** Two sequences with the same members have as many distinct members. */
  lemma SameMembersSameCount(a: seq<Key>, b: seq<Key>)
    requires forall y :: y in a <==> y in b
    ensures |set y | y in a| == |set y | y in b|
  {
    assert (set y | y in a) == (set y | y in b);
  }

  /** The number of keys is the number of distinct rows of the table. */
  lemma KeyCountIsDistinctRows(t: seq<Key>)
    ensures |UniqueRows(t).keys| == |set y | y in t|
  {
    var keys := UniqueRows(t).keys;
    StrictlySortedCard(keys);
    assert (set y | y in keys) == (set y | y in t);
  }
}
