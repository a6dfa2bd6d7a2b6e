/** Counting over rectangular grids.

    A grid is a sequence of rows, each a sequence of cells.  Positions outside
    the grid are allowed everywhere and never count, which is how the mine field
    treats out-of-range coordinates.  Counts are taken over a box of rows
    [r0, r1) and columns [c0, c1), in the row-major order the nested loops of
    the game use, so that a loop's partial count is a prefix of the box.
 */
module Grids {

  /** Cell (i, j) exists in g and its value satisfies p. */
  predicate At<T>(g: seq<seq<T>>, p: T -> bool, i: int, j: int) {
    0 <= i < |g| && 0 <= j < |g[i]| && p(g[i][j])
  }

  function Bit(b: bool): nat {
    if b then 1 else 0
  }

  /** Every row of g has cols cells, and there are rows of them. */
  predicate Rect<T>(g: seq<seq<T>>, rows: int, cols: int) {
    |g| == rows && forall i | 0 <= i < |g| :: |g[i]| == cols
  }

  function Width<T>(g: seq<seq<T>>): nat {
    if |g| == 0 then 0 else |g[0]|
  }

  /** Number of columns j in [c0, c1) such that At(g, p, i, j). */
  function CountRow<T>(g: seq<seq<T>>, p: T -> bool, i: int, c0: int, c1: int): nat
    decreases c1 - c0
  {
    if c1 <= c0 then 0 else CountRow(g, p, i, c0, c1 - 1) + Bit(At(g, p, i, c1 - 1))
  }

  /** Number of positions (i, j) in [r0, r1) x [c0, c1) such that At(g, p, i, j). */
  function CountIn<T>(g: seq<seq<T>>, p: T -> bool, r0: int, r1: int, c0: int, c1: int): nat
    decreases r1 - r0
  {
    if r1 <= r0 then 0 else CountIn(g, p, r0, r1 - 1, c0, c1) + CountRow(g, p, r1 - 1, c0, c1)
  }

  /** Number of cells of g whose value satisfies p. */
  function Count<T>(g: seq<seq<T>>, p: T -> bool): nat {
    CountIn(g, p, 0, |g|, 0, Width(g))
  }

  /** The first n cells of row i of a. */
  ghost function RowOf<T>(a: array2<T>, i: int, n: int): (r: seq<T>)
    requires 0 <= i < a.Length0 && 0 <= n <= a.Length1
    reads a
    ensures |r| == n && forall j | 0 <= j < n :: r[j] == a[i, j]
    decreases n
  {
    if n == 0 then [] else RowOf(a, i, n - 1) + [a[i, n - 1]]
  }

  /** The first m rows of a. */
  ghost function RowsOf<T>(a: array2<T>, m: int): (s: seq<seq<T>>)
    requires 0 <= m <= a.Length0
    reads a
    ensures Rect(s, m, a.Length1)
    ensures forall i, j | 0 <= i < m && 0 <= j < a.Length1 :: s[i][j] == a[i, j]
    decreases m
  {
    if m == 0 then [] else RowsOf(a, m - 1) + [RowOf(a, m - 1, a.Length1)]
  }

  /** The contents of a two-dimensional array, row by row. */
  ghost function Snapshot<T>(a: array2<T>): (s: seq<seq<T>>)
    reads a
    ensures Rect(s, a.Length0, a.Length1)
    ensures forall i, j | 0 <= i < a.Length0 && 0 <= j < a.Length1 :: s[i][j] == a[i, j]
  {
    RowsOf(a, a.Length0)
  }

  // ---------------------------------------------------------------------------
  // Comparing two counts cell by cell

  lemma {:induction false} RowMono<A, B>(g: seq<seq<A>>, p: A -> bool, h: seq<seq<B>>, q: B -> bool,
                                         i: int, c0: int, c1: int)
    requires forall j | c0 <= j < c1 :: At(g, p, i, j) ==> At(h, q, i, j)
    ensures CountRow(g, p, i, c0, c1) <= CountRow(h, q, i, c0, c1)
    ensures CountRow(g, p, i, c0, c1) == CountRow(h, q, i, c0, c1) ==>
              forall j | c0 <= j < c1 :: At(h, q, i, j) ==> At(g, p, i, j)
    decreases c1 - c0
  {
    if c0 < c1 {
      RowMono(g, p, h, q, i, c0, c1 - 1);
    }
  }

  /** If every cell counted on the left is counted on the right, the left count
      is no larger, and the two counts are equal only if the cells coincide. */
  lemma {:induction false} CountMono<A, B>(g: seq<seq<A>>, p: A -> bool, h: seq<seq<B>>, q: B -> bool,
                                           r0: int, r1: int, c0: int, c1: int)
    requires forall i, j | r0 <= i < r1 && c0 <= j < c1 :: At(g, p, i, j) ==> At(h, q, i, j)
    ensures CountIn(g, p, r0, r1, c0, c1) <= CountIn(h, q, r0, r1, c0, c1)
    ensures CountIn(g, p, r0, r1, c0, c1) == CountIn(h, q, r0, r1, c0, c1) ==>
              forall i, j | r0 <= i < r1 && c0 <= j < c1 :: At(h, q, i, j) ==> At(g, p, i, j)
    decreases r1 - r0
  {
    if r0 < r1 {
      CountMono(g, p, h, q, r0, r1 - 1, c0, c1);
      RowMono(g, p, h, q, r1 - 1, c0, c1);
    }
  }

  /** Cells counted alike give equal counts. */
  lemma CountSame<A, B>(g: seq<seq<A>>, p: A -> bool, h: seq<seq<B>>, q: B -> bool,
                        r0: int, r1: int, c0: int, c1: int)
    requires forall i, j | r0 <= i < r1 && c0 <= j < c1 :: At(g, p, i, j) == At(h, q, i, j)
    ensures CountIn(g, p, r0, r1, c0, c1) == CountIn(h, q, r0, r1, c0, c1)
  {
    CountMono(g, p, h, q, r0, r1, c0, c1);
    CountMono(h, q, g, p, r0, r1, c0, c1);
  }

  lemma {:induction false} RowOneMore<A, B>(g: seq<seq<A>>, p: A -> bool, h: seq<seq<B>>, q: B -> bool,
                                            i: int, c0: int, c1: int, c: int)
    requires c0 <= c < c1
    requires forall j | c0 <= j < c1 && j != c :: At(g, p, i, j) == At(h, q, i, j)
    requires !At(g, p, i, c) && At(h, q, i, c)
    ensures CountRow(h, q, i, c0, c1) == CountRow(g, p, i, c0, c1) + 1
    decreases c1 - c0
  {
    if c == c1 - 1 {
      RowMono(g, p, h, q, i, c0, c1 - 1);
      RowMono(h, q, g, p, i, c0, c1 - 1);
    } else {
      RowOneMore(g, p, h, q, i, c0, c1 - 1, c);
    }
  }

  /** Counts that differ in exactly one cell differ by one. */
  lemma {:induction false} CountOneMore<A, B>(g: seq<seq<A>>, p: A -> bool, h: seq<seq<B>>, q: B -> bool,
                                              r0: int, r1: int, c0: int, c1: int, r: int, c: int)
    requires r0 <= r < r1 && c0 <= c < c1
    requires forall i, j | r0 <= i < r1 && c0 <= j < c1 && (i != r || j != c) :: At(g, p, i, j) == At(h, q, i, j)
    requires !At(g, p, r, c) && At(h, q, r, c)
    ensures CountIn(h, q, r0, r1, c0, c1) == CountIn(g, p, r0, r1, c0, c1) + 1
    decreases r1 - r0
  {
    if r == r1 - 1 {
      CountSame(g, p, h, q, r0, r1 - 1, c0, c1);
      RowOneMore(g, p, h, q, r1 - 1, c0, c1, c);
    } else {
      CountOneMore(g, p, h, q, r0, r1 - 1, c0, c1, r, c);
      RowMono(g, p, h, q, r1 - 1, c0, c1);
      RowMono(h, q, g, p, r1 - 1, c0, c1);
    }
  }

  lemma {:induction false} RowSplit<A, B, C>(g: seq<seq<A>>, p: A -> bool, h: seq<seq<B>>, q: B -> bool,
                                            k: seq<seq<C>>, r: C -> bool, i: int, c0: int, c1: int)
    requires forall j | c0 <= j < c1 :: At(g, p, i, j) == (At(h, q, i, j) || At(k, r, i, j))
    requires forall j | c0 <= j < c1 :: !(At(h, q, i, j) && At(k, r, i, j))
    ensures CountRow(g, p, i, c0, c1) == CountRow(h, q, i, c0, c1) + CountRow(k, r, i, c0, c1)
    decreases c1 - c0
  {
    if c0 < c1 {
      RowSplit(g, p, h, q, k, r, i, c0, c1 - 1);
    }
  }

  /** A count whose cells are split between two disjoint counts is their sum. */
  lemma {:induction false} CountSplit<A, B, C>(g: seq<seq<A>>, p: A -> bool, h: seq<seq<B>>, q: B -> bool,
                                              k: seq<seq<C>>, r: C -> bool, r0: int, r1: int, c0: int, c1: int)
    requires forall i, j | r0 <= i < r1 && c0 <= j < c1 :: At(g, p, i, j) == (At(h, q, i, j) || At(k, r, i, j))
    requires forall i, j | r0 <= i < r1 && c0 <= j < c1 :: !(At(h, q, i, j) && At(k, r, i, j))
    ensures CountIn(g, p, r0, r1, c0, c1) == CountIn(h, q, r0, r1, c0, c1) + CountIn(k, r, r0, r1, c0, c1)
    decreases r1 - r0
  {
    if r0 < r1 {
      CountSplit(g, p, h, q, k, r, r0, r1 - 1, c0, c1);
      RowSplit(g, p, h, q, k, r, r1 - 1, c0, c1);
    }
  }

  /** Two grids of the same shape are alike: the same number of rows, and rows of the same lengths. */
  predicate SameShape<A, B>(g: seq<seq<A>>, h: seq<seq<B>>) {
    |h| == |g| && forall i | 0 <= i < |g| :: |h[i]| == |g[i]|
  }

  /** The grid of the pairs of corresponding cells of g and h. */
  function Zip<A, B>(g: seq<seq<A>>, h: seq<seq<B>>): (z: seq<seq<(A, B)>>)
    requires SameShape(g, h)
    ensures SameShape(g, z)
    ensures forall i, j | 0 <= i < |g| && 0 <= j < |g[i]| :: z[i][j] == (g[i][j], h[i][j])
  {
    seq(|g|, i requires 0 <= i < |g| => seq(|g[i]|, j requires 0 <= j < |g[i]| => (g[i][j], h[i][j])))
  }

  // ---------------------------------------------------------------------------
  // Extreme counts

  lemma {:induction false} RowFull<T>(g: seq<seq<T>>, p: T -> bool, i: int, c0: int, c1: int)
    requires c0 <= c1
    requires forall j | c0 <= j < c1 :: At(g, p, i, j)
    ensures CountRow(g, p, i, c0, c1) == c1 - c0
    decreases c1 - c0
  {
    if c0 < c1 {
      RowFull(g, p, i, c0, c1 - 1);
    }
  }

  /** A box whose every cell is counted has its area as count. */
  lemma {:induction false} CountFull<T>(g: seq<seq<T>>, p: T -> bool, r0: int, r1: int, c0: int, c1: int)
    requires r0 <= r1 && c0 <= c1
    requires forall i, j | r0 <= i < r1 && c0 <= j < c1 :: At(g, p, i, j)
    ensures CountIn(g, p, r0, r1, c0, c1) == (r1 - r0) * (c1 - c0)
    decreases r1 - r0
  {
    if r0 < r1 {
      CountFull(g, p, r0, r1 - 1, c0, c1);
      RowFull(g, p, r1 - 1, c0, c1);
      assert (r1 - r0) * (c1 - c0) == (r1 - 1 - r0) * (c1 - c0) + (c1 - c0);
    }
  }

  lemma {:induction false} RowBound<T>(g: seq<seq<T>>, p: T -> bool, i: int, c0: int, c1: int)
    requires c0 <= c1
    ensures CountRow(g, p, i, c0, c1) <= c1 - c0
    decreases c1 - c0
  {
    if c0 < c1 {
      RowBound(g, p, i, c0, c1 - 1);
    }
  }

  /** No box counts more cells than its area. */
  lemma {:induction false} CountBound<T>(g: seq<seq<T>>, p: T -> bool, r0: int, r1: int, c0: int, c1: int)
    requires r0 <= r1 && c0 <= c1
    ensures CountIn(g, p, r0, r1, c0, c1) <= (r1 - r0) * (c1 - c0)
    decreases r1 - r0
  {
    if r0 < r1 {
      CountBound(g, p, r0, r1 - 1, c0, c1);
      RowBound(g, p, r1 - 1, c0, c1);
      assert (r1 - r0) * (c1 - c0) == (r1 - 1 - r0) * (c1 - c0) + (c1 - c0);
    }
  }

  lemma {:induction false} RowZero<T>(g: seq<seq<T>>, p: T -> bool, i: int, c0: int, c1: int)
    ensures CountRow(g, p, i, c0, c1) == 0 <==> forall j | c0 <= j < c1 :: !At(g, p, i, j)
    decreases c1 - c0
  {
    if c0 < c1 {
      RowZero(g, p, i, c0, c1 - 1);
    }
  }

  /** A box counts nothing exactly when none of its cells is counted. */
  lemma {:induction false} CountZero<T>(g: seq<seq<T>>, p: T -> bool, r0: int, r1: int, c0: int, c1: int)
    ensures CountIn(g, p, r0, r1, c0, c1) == 0 <==> forall i, j | r0 <= i < r1 && c0 <= j < c1 :: !At(g, p, i, j)
    decreases r1 - r0
  {
    if r0 < r1 {
      CountZero(g, p, r0, r1 - 1, c0, c1);
      RowZero(g, p, r1 - 1, c0, c1);
    }
  }
}
