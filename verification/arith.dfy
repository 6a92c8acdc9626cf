/**
 * Row-major flattening of a table with `w` columns: row `c`, column `l`
 * sits at position `c * w + l`, and position `k` holds row `k / w`,
 * column `k % w`. The two maps are defined by recursion so that the mesh
 * modules can reason about positions without nonlinear arithmetic; the
 * lemmas at the end tie them to `*`, `/` and `%`.
 */
module Arith {

  /** The position of row `c`, column `l`. */
  function Pos(c: nat, l: nat, w: nat): nat
  {
    if c == 0 then l else w + Pos(c - 1, l, w)
  }

  /** The row and the column of position `k`. */
  function RowCol(k: nat, w: nat): (rc: (nat, nat))
    requires w > 0
    ensures rc.1 < w
    decreases k
  {
    if k < w then (0, k) else (RowCol(k - w, w).0 + 1, RowCol(k - w, w).1)
  }

  /** Splitting the position of row `c`, column `l` gives `c` and `l` back. */
  lemma {:induction false} RowColOfPos(c: nat, l: nat, w: nat)
    requires l < w
    ensures RowCol(Pos(c, l, w), w) == (c, l)
  {
    if c > 0 {
      RowColOfPos(c - 1, l, w);
    }
  }

  /** Every position is the position of its row and column. */
  lemma {:induction false} PosOfRowCol(k: nat, w: nat)
    requires w > 0
    ensures Pos(RowCol(k, w).0, RowCol(k, w).1, w) == k
  {
    if k >= w {
      PosOfRowCol(k - w, w);
    }
  }

  /** A position below the end of an `n`-row table lies in a row below `n`. */
  lemma {:induction false} RowBelow(k: nat, n: nat, w: nat)
    requires w > 0 && k < Pos(n, 0, w)
    ensures RowCol(k, w).0 < n
  {
    if k >= w {
      RowBelow(k - w, n - 1, w);
    }
  }

  /** Row `c < n`, column `l < w` lies below the end of an `n`-row table. */
  lemma {:induction false} PosBelow(c: nat, l: nat, n: nat, w: nat)
    requires c < n && l < w
    ensures Pos(c, l, w) < Pos(n, 0, w)
  {
    if c > 0 {
      PosBelow(c - 1, l, n - 1, w);
    } else {
      assert Pos(n, 0, w) == w + Pos(n - 1, 0, w);
    }
  }

  /** Column `l` of row `c` is `l` places past the start of that row. */
  lemma {:induction false} PosShift(c: nat, l: nat, w: nat)
    ensures Pos(c, 0, w) + l == Pos(c, l, w)
  {
    if c > 0 {
      PosShift(c - 1, l, w);
    }
  }

  /** Two cells with the same row and column are the same position. */
  lemma PosInjective(c: nat, l: nat, c': nat, l': nat, w: nat)
    requires l < w && l' < w && Pos(c, l, w) == Pos(c', l', w)
    ensures c == c' && l == l'
  {
    RowColOfPos(c, l, w);
    RowColOfPos(c', l', w);
  }

  /** `Pos` is the product form `c * w + l`. */
  lemma {:induction false} PosIsProduct(c: nat, l: nat, w: nat)
    ensures Pos(c, l, w) == c * w + l
  {
    if c > 0 {
      PosIsProduct(c - 1, l, w);
      assert c * w == (c - 1) * w + w;
    }
  }

  lemma MulMono(a: nat, b: nat, w: nat)
    requires a <= b
    ensures a * w <= b * w
  {
  }

  /** Division with remainder is unique. */
  lemma DivModUnique(c: nat, l: nat, w: nat)
    requires l < w
    ensures (c * w + l) / w == c && (c * w + l) % w == l
  {
    var k := c * w + l;
    var q, r := k / w, k % w;
    assert k == q * w + r;
    if q < c {
      MulMono(q + 1, c, w);
      assert false;
    } else if q > c {
      MulMono(c + 1, q, w);
      assert false;
    }
  }

  /** `RowCol` is floor division and remainder. */
  lemma RowColIsDivMod(k: nat, w: nat)
    requires w > 0
    ensures RowCol(k, w) == (k / w, k % w)
  {
    var (c, l) := RowCol(k, w);
    PosOfRowCol(k, w);
    PosIsProduct(c, l, w);
    DivModUnique(c, l, w);
  }
}
