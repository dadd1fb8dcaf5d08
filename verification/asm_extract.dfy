/** Reading an alternating sign matrix and its corner-sum matrix off a square-ice
    height function: the value formulas of `print_asm` / `drawasm`, `print_csum` /
    `drawcsum` and the three-way classification of `print_asm_to_file`. */
module AsmExtract {
  import opened Grids
  import opened SquareIce

  /** C's `/ 2` on `int`, which truncates toward zero. */
  function TruncDiv2(x: int): (q: int)
    ensures x >= 0 ==> 0 <= x - 2 * q <= 1
    ensures x < 0 ==> 0 <= 2 * q - x <= 1
  {
    if x >= 0 then x / 2 else -((-x) / 2)
  }

  /** Twice the ASM entry at height-function position (r, c): north plus west minus
      here minus north-west. */
  function Twice(h: Grid, n: nat, r: int, c: int): int
    requires IsSquare(h, n) && 1 <= r < n && 1 <= c < n
  {
    h[r - 1][c] + h[r][c - 1] - h[r][c] - h[r - 1][c - 1]
  }

  /** The printed entry: `Twice` halved with C division. */
  function AsmEntry(h: Grid, n: nat, r: int, c: int): int
    requires IsSquare(h, n) && 1 <= r < n && 1 <= c < n
  {
    TruncDiv2(Twice(h, n, r, c))
  }

  /** The side of the printed matrix: the loops run from 1 to n - 1. */
  function AsmSide(n: nat): nat
  {
    if n == 0 then 0 else n - 1
  }

  /** The matrix `print_asm` prints, entry (i, j) read at height position (i+1, j+1). */
  function ExtractAsm(h: Grid, n: nat): (a: Grid)
    requires IsSquare(h, n)
    ensures HasShape(a, AsmSide(n), AsmSide(n))
    ensures forall i, j :: 0 <= i < AsmSide(n) && 0 <= j < AsmSide(n) ==> a[i][j] == AsmEntry(h, n, i + 1, j + 1)
  {
    var m := AsmSide(n);
    seq(m, i requires 0 <= i < m => seq(m, j requires 0 <= j < m => AsmEntry(h, n, i + 1, j + 1)))
  }

  /** a[i][0] + ... + a[i][k-1]. */
  function RowSum(a: Grid, i: int, k: nat): int
    requires 0 <= i < |a| && k <= |a[i]|
  {
    if k == 0 then 0 else RowSum(a, i, k - 1) + a[i][k - 1]
  }

  /** a[0][j] + ... + a[k-1][j]. */
  function ColSum(a: Grid, m: nat, j: int, k: nat): int
    requires HasShape(a, m, m) && 0 <= j < m && k <= m
  {
    if k == 0 then 0 else ColSum(a, m, j, k - 1) + a[k - 1][j]
  }

  /** The sum of the entries a[i][j] with i < r and j < c. */
  function BlockSum(a: Grid, m: nat, r: nat, c: nat): int
    requires HasShape(a, m, m) && r <= m && c <= m
  {
    if r == 0 then 0 else BlockSum(a, m, r - 1, c) + RowSum(a, r - 1, c)
  }

  /** An alternating sign matrix of order m: entries in {-1, 0, 1}, every partial row
      and column sum in {0, 1}, every full row and column sum equal to 1. */
  predicate IsAsm(a: Grid, m: nat)
  {
    && HasShape(a, m, m)
    && (forall i, j :: 0 <= i < m && 0 <= j < m ==> -1 <= a[i][j] <= 1)
    && (forall i, k :: 0 <= i < m && 0 <= k <= m ==> 0 <= RowSum(a, i, k) <= 1)
    && (forall i :: 0 <= i < m ==> RowSum(a, i, m) == 1)
    && (forall j, k :: 0 <= j < m && 0 <= k <= m ==> 0 <= ColSum(a, m, j, k) <= 1)
    && (forall j :: 0 <= j < m ==> ColSum(a, m, j, m) == 1)
  }

  /** On a height function the numerator is -2, 0 or 2, so the halving is exact and the
      entry is -1, 0 or 1. */
  lemma AsmEntryExact(h: Grid, n: nat, r: int, c: int)
    requires IsHeightFn(h, n) && 1 <= r < n && 1 <= c < n
    ensures 2 * AsmEntry(h, n, r, c) == Twice(h, n, r, c)
    ensures -1 <= AsmEntry(h, n, r, c) <= 1
  {
    assert HStep(h, n, r - 1, c - 1) && HStep(h, n, r, c - 1);
  }

  /** Row prefix sums telescope: twice the first k entries of ASM row i is the drop
      from height row i to row i + 1 at column k, less the same drop at column 0. */
  lemma {:induction false} RowTelescope(h: Grid, n: nat, i: nat, k: nat)
    requires IsHeightFn(h, n) && n >= 1 && i < n - 1 && k <= n - 1
    ensures 2 * RowSum(ExtractAsm(h, n), i, k) == (h[i][k] - h[i + 1][k]) - (h[i][0] - h[i + 1][0])
  {
    if k > 0 {
      RowTelescope(h, n, i, k - 1);
      AsmEntryExact(h, n, i + 1, k);
    }
  }

  /** Column prefix sums telescope the same way. */
  lemma {:induction false} ColTelescope(h: Grid, n: nat, j: nat, k: nat)
    requires IsHeightFn(h, n) && n >= 1 && j < n - 1 && k <= n - 1
    ensures 2 * ColSum(ExtractAsm(h, n), n - 1, j, k) == (h[k][j] - h[k][j + 1]) - (h[0][j] - h[0][j + 1])
  {
    if k > 0 {
      ColTelescope(h, n, j, k - 1);
      AsmEntryExact(h, n, k, j + 1);
    }
  }

  /** Twice a block sum is the height change around the block's corners. */
  lemma {:induction false} BlockTelescope(h: Grid, n: nat, r: nat, c: nat)
    requires IsHeightFn(h, n) && n >= 1 && r <= n - 1 && c <= n - 1
    ensures 2 * BlockSum(ExtractAsm(h, n), n - 1, r, c) == h[0][c] + h[r][0] - h[r][c] - h[0][0]
  {
    if r > 0 {
      BlockTelescope(h, n, r - 1, c);
      RowTelescope(h, n, r - 1, c);
    }
  }

  /** The matrix printed for a height function with the domain-wall boundary is an
      alternating sign matrix of order n - 1. */
  lemma AsmOfHeightFn(h: Grid, n: nat)
    requires IsHeightFn(h, n) && n >= 1
    ensures IsAsm(ExtractAsm(h, n), n - 1)
  {
    var a, m := ExtractAsm(h, n), n - 1;
    forall i, j | 0 <= i < m && 0 <= j < m
      ensures -1 <= a[i][j] <= 1
    {
      AsmEntryExact(h, n, i + 1, j + 1);
    }
    forall i, k | 0 <= i < m && 0 <= k <= m
      ensures 0 <= RowSum(a, i, k) <= 1
      ensures k == m ==> RowSum(a, i, k) == 1
    {
      RowTelescope(h, n, i, k);
      assert WallAt(h, n, i) && WallAt(h, n, i + 1);
      assert VStep(h, n, i, k);
    }
    forall j, k | 0 <= j < m && 0 <= k <= m
      ensures 0 <= ColSum(a, m, j, k) <= 1
      ensures k == m ==> ColSum(a, m, j, k) == 1
    {
      ColTelescope(h, n, j, k);
      assert WallAt(h, n, j) && WallAt(h, n, j + 1);
      assert HStep(h, n, k, j);
    }
  }

  /** The value `print_csum` / `drawcsum` prints at (r, c). */
  function CornerSum(h: Grid, n: nat, r: int, c: int): int
    requires IsSquare(h, n) && 0 <= r < n && 0 <= c < n
  {
    TruncDiv2(r + c + 2 - h[r][c])
  }

  /** The printed corner sum at (r, c) is the sum of the ASM entries strictly above and
      to the left of height position (r, c): the corner-sum matrix of the ASM. */
  lemma CornerSumIsBlockSum(h: Grid, n: nat, r: nat, c: nat)
    requires IsHeightFn(h, n) && r < n && c < n
    ensures CornerSum(h, n, r, c) == BlockSum(ExtractAsm(h, n), n - 1, r, c)
    ensures 2 * CornerSum(h, n, r, c) == r + c + 1 - h[r][c]
  {
    BlockTelescope(h, n, r, c);
    RowDistance(h, n, r, 0, c);
    assert WallAt(h, n, 0) && WallAt(h, n, r) && WallAt(h, n, c);
  }

  /** The height function rebuilt from an ASM of order n - 1 by its corner sums:
      h[r][c] = r + c + 1 - 2 * (sum of the entries above and left of (r, c)). */
  function HeightOfAsm(a: Grid, n: nat): (h: Grid)
    requires n >= 1 && HasShape(a, n - 1, n - 1)
    ensures IsSquare(h, n)
  {
    seq(n, r requires 0 <= r < n => seq(n, c requires 0 <= c < n => r + c + 1 - 2 * BlockSum(a, n - 1, r, c)))
  }

  /** Extraction loses nothing: the height function is recovered from its ASM. */
  lemma HeightOfAsmOfHeightFn(h: Grid, n: nat)
    requires IsHeightFn(h, n) && n >= 1
    ensures HeightOfAsm(ExtractAsm(h, n), n) == h
  {
    var g := HeightOfAsm(ExtractAsm(h, n), n);
    forall r | 0 <= r < n
      ensures g[r] == h[r]
    {
      forall c | 0 <= c < n
        ensures g[r][c] == h[r][c]
      {
        CornerSumIsBlockSum(h, n, r, c);
      }
    }
  }

  /** Moving the block's right edge one column out adds that column's partial sum. */
  lemma {:induction false} BlockSumNextCol(a: Grid, m: nat, r: nat, c: nat)
    requires HasShape(a, m, m) && r <= m && c < m
    ensures BlockSum(a, m, r, c + 1) == BlockSum(a, m, r, c) + ColSum(a, m, c, r)
  {
    if r > 0 {
      BlockSumNextCol(a, m, r - 1, c);
    }
  }

  /** Every matrix is the ASM of the heights built from its corner sums. */
  lemma ExtractAsmOfHeightOfAsm(a: Grid, n: nat)
    requires n >= 1 && HasShape(a, n - 1, n - 1)
    ensures ExtractAsm(HeightOfAsm(a, n), n) == a
  {
    var m, h := n - 1, HeightOfAsm(a, n);
    var e := ExtractAsm(h, n);
    forall i | 0 <= i < m
      ensures e[i] == a[i]
    {
      forall j | 0 <= j < m
        ensures e[i][j] == a[i][j]
      {
        BlockSumNextCol(a, m, i, j);
        BlockSumNextCol(a, m, i + 1, j);
        assert Twice(h, n, i + 1, j + 1) == 2 * a[i][j];
      }
    }
  }

  /** A block with no columns sums to 0. */
  lemma {:induction false} EmptyBlock(a: Grid, m: nat, r: nat)
    requires HasShape(a, m, m) && r <= m
    ensures BlockSum(a, m, r, 0) == 0
  {
    if r > 0 {
      EmptyBlock(a, m, r - 1);
    }
  }

  /** The bottom row of corner sums counts the columns: each column of an ASM sums to 1. */
  lemma {:induction false} FullBlockRow(a: Grid, m: nat, c: nat)
    requires IsAsm(a, m) && c <= m
    ensures BlockSum(a, m, m, c) == c
  {
    if c > 0 {
      FullBlockRow(a, m, c - 1);
      BlockSumNextCol(a, m, m, c - 1);
      assert ColSum(a, m, c - 1, m) == 1;
    } else {
      EmptyBlock(a, m, m);
    }
  }

  /** The right column of corner sums counts the rows: each row of an ASM sums to 1. */
  lemma {:induction false} FullBlockCol(a: Grid, m: nat, r: nat)
    requires IsAsm(a, m) && r <= m
    ensures BlockSum(a, m, r, m) == r
  {
    if r > 0 {
      FullBlockCol(a, m, r - 1);
    }
  }

  /** The heights built from the corner sums of an ASM of order m form a height
      function of side m + 1 with the domain-wall boundary, so together with
      `HeightOfAsmOfHeightFn` and `ExtractAsmOfHeightOfAsm` extraction is a bijection
      between the two. */
  lemma HeightOfAsmIsHeightFn(a: Grid, m: nat)
    requires IsAsm(a, m)
    ensures IsHeightFn(HeightOfAsm(a, m + 1), m + 1)
  {
    var n, h := m + 1, HeightOfAsm(a, m + 1);
    forall r, c | 0 <= r < n && 0 <= c < n - 1
      ensures HStep(h, n, r, c)
    {
      BlockSumNextCol(a, m, r, c);
    }
    forall r, c | 0 <= r < n - 1 && 0 <= c < n
      ensures VStep(h, n, r, c)
    {
    }
    forall i | 0 <= i < n
      ensures WallAt(h, n, i)
    {
      EmptyBlock(a, m, i);
      FullBlockRow(a, m, i);
      FullBlockCol(a, m, i);
    }
  }

  /** The permutation matrix of the identity. */
  function Identity(m: nat): (a: Grid)
    ensures HasShape(a, m, m)
  {
    seq(m, i => seq(m, j => if i == j then 1 else 0))
  }

  /** The permutation matrix of i |-> m - 1 - i. */
  function AntiDiagonal(m: nat): (a: Grid)
    ensures HasShape(a, m, m)
  {
    seq(m, i => seq(m, j => if i + j == m - 1 then 1 else 0))
  }

  /** `-min_only` with ASM output prints the identity matrix. */
  lemma MinHtAsm(n: nat)
    requires n >= 1
    ensures ExtractAsm(MinHt(n), n) == Identity(n - 1)
  {
    var a, e := ExtractAsm(MinHt(n), n), Identity(n - 1);
    forall i | 0 <= i < n - 1
      ensures a[i] == e[i]
    {
      forall j | 0 <= j < n - 1
        ensures a[i][j] == e[i][j]
      {
        var h := MinHt(n);
        assert h[i][j + 1] == Abs(i - j - 1) + 1 && h[i + 1][j] == Abs(i - j + 1) + 1;
        assert h[i + 1][j + 1] == Abs(i - j) + 1 && h[i][j] == Abs(i - j) + 1;
      }
    }
  }

  /** `-max_only` with ASM output prints the anti-diagonal permutation matrix. */
  lemma MaxHtAsm(n: nat)
    requires n >= 1
    ensures ExtractAsm(MaxHt(n), n) == AntiDiagonal(n - 1)
  {
    var a, e := ExtractAsm(MaxHt(n), n), AntiDiagonal(n - 1);
    forall i | 0 <= i < n - 1
      ensures a[i] == e[i]
    {
      forall j | 0 <= j < n - 1
        ensures a[i][j] == e[i][j]
      {
        var h := MaxHt(n);
        var d := n - i - j - 2;
        assert h[i][j + 1] == n - Abs(d) && h[i + 1][j] == n - Abs(d);
        assert h[i + 1][j + 1] == n - Abs(d - 1) && h[i][j] == n - Abs(d + 1);
      }
    }
  }

  /** The two characters `print_asm_to_file` writes to asm_pretty.txt for an entry:
      blank for 0, '-' for -1, '+' for anything else. */
  function PrettyCell(e: int): (s: string)
    ensures |s| == 2 && s[1] == ' '
  {
    if e == 0 then "  " else if e == -1 then "- " else "+ "
  }

  /** One line of asm_pretty.txt. */
  function PrettyLine(row: seq<int>): (s: string)
    ensures |s| == 2 * |row|
    ensures forall j :: 0 <= j < |row| ==> s[2 * j .. 2 * j + 2] == PrettyCell(row[j])
  {
    if row == [] then []
    else
      var rest := PrettyLine(row[1..]);
      assert forall j :: 1 <= j < |row| ==> row[j] == row[1..][j - 1];
      PrettyCell(row[0]) + rest
  }

  /** On a height function the classification is exact: the pretty cell shows '+'
      exactly for entry 1, '-' exactly for -1 and a blank exactly for 0. */
  lemma PrettyCellOfHeightFn(h: Grid, n: nat, r: int, c: int)
    requires IsHeightFn(h, n) && 1 <= r < n && 1 <= c < n
    ensures PrettyCell(AsmEntry(h, n, r, c)) == "+ " <==> AsmEntry(h, n, r, c) == 1
    ensures PrettyCell(AsmEntry(h, n, r, c)) == "- " <==> AsmEntry(h, n, r, c) == -1
    ensures PrettyCell(AsmEntry(h, n, r, c)) == "  " <==> AsmEntry(h, n, r, c) == 0
  {
    AsmEntryExact(h, n, r, c);
  }
}
