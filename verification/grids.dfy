/** Rectangular integer grids: the representation shared by square-ice height
    functions and boxed plane partitions, with the pointwise order of the coupling and
    the volume difference `volume_diff` / `different`. */
module Grids {

  type Grid = seq<seq<int>>

  datatype Site = Site(row: int, col: int)

  predicate HasShape(g: Grid, rows: nat, cols: nat)
  {
    |g| == rows && forall r :: 0 <= r < rows ==> |g[r]| == cols
  }

  predicate InBounds(g: Grid, s: Site)
  {
    0 <= s.row < |g| && 0 <= s.col < |g[s.row]|
  }

  /** The grid with one entry replaced. */
  function Set(g: Grid, s: Site, v: int): (h: Grid)
    requires InBounds(g, s)
    ensures |h| == |g| && forall r :: 0 <= r < |g| ==> |h[r]| == |g[r]|
    ensures h[s.row][s.col] == v
    ensures forall r, c :: 0 <= r < |g| && 0 <= c < |g[r]| && Site(r, c) != s ==> h[r][c] == g[r][c]
  {
    g[s.row := g[s.row][s.col := v]]
  }

  /** The constant grid with the given shape. */
  function Const(rows: nat, cols: nat, v: int): (g: Grid)
    ensures HasShape(g, rows, cols)
    ensures forall r, c :: 0 <= r < rows && 0 <= c < cols ==> g[r][c] == v
  {
    seq(rows, r => seq(cols, c => v))
  }

  /** The sites of a `rows` x `cols` rectangle with top-left corner (r0, c0), in the
      row-major order of the source's nested `row`/`col` loops. */
  function Block(r0: int, rows: nat, c0: int, cols: nat): (s: seq<Site>)
    ensures |s| == rows * cols
    ensures forall i :: 0 <= i < |s| ==> r0 <= s[i].row < r0 + rows && c0 <= s[i].col < c0 + cols
    decreases rows
  {
    if rows == 0 then []
    else seq(cols, j => Site(r0, c0 + j)) + Block(r0 + 1, rows - 1, c0, cols)
  }

  /** Every site of the rectangle is visited. */
  lemma {:induction false} BlockCovers(r0: int, rows: nat, c0: int, cols: nat, r: int, c: int)
    requires r0 <= r < r0 + rows && c0 <= c < c0 + cols
    ensures Site(r, c) in Block(r0, rows, c0, cols)
    decreases rows
  {
    var s := Block(r0, rows, c0, cols);
    if r == r0 {
      assert s[c - c0] == Site(r, c);
    } else {
      BlockCovers(r0 + 1, rows - 1, c0, cols, r, c);
    }
  }

  /** Same shape, and every entry of `a` is at most the matching entry of `b`. */
  predicate Le(a: Grid, b: Grid)
  {
    && |a| == |b|
    && (forall r :: 0 <= r < |a| ==> |a[r]| == |b[r]|)
    && (forall r, c :: 0 <= r < |a| && 0 <= c < |a[r]| && c < |b[r]| ==> a[r][c] <= b[r][c])
  }

  lemma LeAntisymmetric(a: Grid, b: Grid)
    requires Le(a, b) && Le(b, a)
    ensures a == b
  {
    forall r | 0 <= r < |a|
      ensures a[r] == b[r]
    {
      assert forall c :: 0 <= c < |a[r]| ==> a[r][c] == b[r][c];
    }
  }

  /** Sum of `hi[c] - lo[c]` along one row (over the common prefix; the two rows
      always have the same length where it is used). */
  function RowDiff(lo: seq<int>, hi: seq<int>): int
  {
    if |lo| == 0 || |hi| == 0 then 0 else (hi[0] - lo[0]) + RowDiff(lo[1..], hi[1..])
  }

  /** `volume_diff(minimum, maximum)`: the sum over every entry of maximum - minimum. */
  function VolumeDiff(lo: Grid, hi: Grid): int
  {
    if |lo| == 0 || |hi| == 0 then 0 else RowDiff(lo[0], hi[0]) + VolumeDiff(lo[1..], hi[1..])
  }

  lemma {:induction false} RowDiffZeroIffEqual(lo: seq<int>, hi: seq<int>)
    requires |lo| == |hi|
    requires forall c :: 0 <= c < |lo| ==> lo[c] <= hi[c]
    ensures RowDiff(lo, hi) >= 0
    ensures RowDiff(lo, hi) == 0 <==> lo == hi
    decreases |lo|
  {
    if |lo| > 0 {
      RowDiffZeroIffEqual(lo[1..], hi[1..]);
      if lo[0] == hi[0] && lo[1..] == hi[1..] {
        assert lo == [lo[0]] + lo[1..] && hi == [hi[0]] + hi[1..];
      }
    }
  }

  /** Under the pointwise order the volume difference is nonnegative, and it is zero
      exactly when the two grids are equal: the loop test of the coupling. */
  lemma {:induction false} VolumeDiffZeroIffEqual(lo: Grid, hi: Grid)
    requires Le(lo, hi)
    ensures VolumeDiff(lo, hi) >= 0
    ensures VolumeDiff(lo, hi) == 0 <==> lo == hi
    decreases |lo|
  {
    if |lo| > 0 {
      RowDiffZeroIffEqual(lo[0], hi[0]);
      assert Le(lo[1..], hi[1..]) by {
        forall r, c | 0 <= r < |lo| - 1 && 0 <= c < |lo[r + 1]|
          ensures lo[1..][r][c] <= hi[1..][r][c]
        {
          assert lo[1..][r] == lo[r + 1];
        }
      }
      VolumeDiffZeroIffEqual(lo[1..], hi[1..]);
      if lo[0] == hi[0] && lo[1..] == hi[1..] {
        assert lo == [lo[0]] + lo[1..] && hi == [hi[0]] + hi[1..];
      }
    }
  }
}
