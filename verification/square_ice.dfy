/** Square-ice height functions on an n x n grid (n = ASM order + 1 in the C++ copies,
    n = the `order` argument itself in squareice.c), the two extremal states, and the
    local flip of `is_extreme` / `evolve_ht`. */
module SquareIce {
  import opened Grids

  function Abs(x: int): nat
  {
    if x < 0 then -x else x
  }

  predicate Step1(x: int, y: int)
  {
    x - y == 1 || y - x == 1
  }

  predicate IsSquare(g: Grid, n: nat)
  {
    HasShape(g, n, n)
  }

  /** Entry (r, c) and its east neighbour differ by one. */
  predicate HStep(g: Grid, n: nat, r: int, c: int)
    requires IsSquare(g, n) && 0 <= r < n && 0 <= c < n - 1
  {
    Step1(g[r][c], g[r][c + 1])
  }

  /** Entry (r, c) and its south neighbour differ by one. */
  predicate VStep(g: Grid, n: nat, r: int, c: int)
    requires IsSquare(g, n) && 0 <= r < n - 1 && 0 <= c < n
  {
    Step1(g[r][c], g[r + 1][c])
  }

  /** Horizontally and vertically adjacent entries differ by exactly one. */
  predicate Adjacent(g: Grid, n: nat)
    requires IsSquare(g, n)
  {
    && (forall r, c :: 0 <= r < n && 0 <= c < n - 1 ==> HStep(g, n, r, c))
    && (forall r, c :: 0 <= r < n - 1 && 0 <= c < n ==> VStep(g, n, r, c))
  }

  /** The fixed (domain-wall) boundary: row 0 is c + 1, column 0 is r + 1, the last row
      is n - c and the last column is n - r. */
  predicate WallAt(g: Grid, n: nat, i: int)
    requires IsSquare(g, n) && 0 <= i < n
  {
    g[0][i] == i + 1 && g[i][0] == i + 1 && g[n - 1][i] == n - i && g[i][n - 1] == n - i
  }

  predicate DomainWall(g: Grid, n: nat)
    requires IsSquare(g, n)
  {
    forall i :: 0 <= i < n ==> WallAt(g, n, i)
  }

  predicate IsHeightFn(g: Grid, n: nat)
  {
    IsSquare(g, n) && Adjacent(g, n) && DomainWall(g, n)
  }

  /** The minimum state of `initialize_ht` / `createmin`: |r - c| + 1. */
  function MinHt(n: nat): (h: Grid)
    ensures IsSquare(h, n)
    ensures forall r, c :: 0 <= r < n && 0 <= c < n ==> h[r][c] == Abs(r - c) + 1
  {
    seq(n, r => seq(n, c => if r >= c then r - c + 1 else c - r + 1))
  }

  /** The maximum state of `initialize_ht` / `createmax`: n - |n - c - r - 1|. */
  function MaxHt(n: nat): (h: Grid)
    ensures IsSquare(h, n)
    ensures forall r, c :: 0 <= r < n && 0 <= c < n ==> h[r][c] == n - Abs(n - c - r - 1)
  {
    seq(n, r => seq(n, c => if n - c - r - 1 >= 0 then c + r + 1 else 2 * n - c - r - 1))
  }

  /** The minimum state is a height function with the domain-wall boundary. */
  lemma MinHtIsHeightFn(n: nat)
    ensures IsHeightFn(MinHt(n), n)
  {
    var h := MinHt(n);
    assert forall r, c :: 0 <= r < n && 0 <= c < n - 1 ==> HStep(h, n, r, c) by {
      forall r, c | 0 <= r < n && 0 <= c < n - 1
        ensures HStep(h, n, r, c)
      {
        assert h[r][c] == Abs(r - c) + 1 && h[r][c + 1] == Abs(r - (c + 1)) + 1;
      }
    }
    assert forall r, c :: 0 <= r < n - 1 && 0 <= c < n ==> VStep(h, n, r, c) by {
      forall r, c | 0 <= r < n - 1 && 0 <= c < n
        ensures VStep(h, n, r, c)
      {
        assert h[r][c] == Abs(r - c) + 1 && h[r + 1][c] == Abs((r + 1) - c) + 1;
      }
    }
    assert DomainWall(h, n) by {
      forall i | 0 <= i < n
        ensures WallAt(h, n, i)
      {
        assert h[0][i] == Abs(0 - i) + 1 && h[i][0] == Abs(i - 0) + 1;
        assert h[n - 1][i] == Abs((n - 1) - i) + 1 && h[i][n - 1] == Abs(i - (n - 1)) + 1;
      }
    }
  }

  /** The maximum state is a height function with the domain-wall boundary. */
  lemma MaxHtIsHeightFn(n: nat)
    ensures IsHeightFn(MaxHt(n), n)
  {
    var h := MaxHt(n);
    assert forall r, c :: 0 <= r < n && 0 <= c < n - 1 ==> HStep(h, n, r, c) by {
      forall r, c | 0 <= r < n && 0 <= c < n - 1
        ensures HStep(h, n, r, c)
      {
        assert h[r][c] == n - Abs(n - c - r - 1) && h[r][c + 1] == n - Abs(n - (c + 1) - r - 1);
      }
    }
    assert forall r, c :: 0 <= r < n - 1 && 0 <= c < n ==> VStep(h, n, r, c) by {
      forall r, c | 0 <= r < n - 1 && 0 <= c < n
        ensures VStep(h, n, r, c)
      {
        assert h[r][c] == n - Abs(n - c - r - 1) && h[r + 1][c] == n - Abs(n - c - (r + 1) - 1);
      }
    }
    assert DomainWall(h, n) by {
      forall i | 0 <= i < n
        ensures WallAt(h, n, i)
      {
        assert h[0][i] == n - Abs(n - i - 0 - 1) && h[i][0] == n - Abs(n - 0 - i - 1);
        assert h[n - 1][i] == n - Abs(n - i - (n - 1) - 1) && h[i][n - 1] == n - Abs(n - (n - 1) - i - 1);
      }
    }
  }

  /** Along a row, entries differ by at most the distance between them. */
  lemma {:induction false} RowDistance(g: Grid, n: nat, r: int, c1: int, c2: int)
    requires IsSquare(g, n) && Adjacent(g, n)
    requires 0 <= r < n && 0 <= c1 <= c2 < n
    ensures Abs(g[r][c2] - g[r][c1]) <= c2 - c1
    decreases c2 - c1
  {
    if c1 < c2 {
      RowDistance(g, n, r, c1, c2 - 1);
      assert HStep(g, n, r, c2 - 1);
    }
  }

  /** Along a column, entries differ by at most the distance between them. */
  lemma {:induction false} ColDistance(g: Grid, n: nat, c: int, r1: int, r2: int)
    requires IsSquare(g, n) && Adjacent(g, n)
    requires 0 <= c < n && 0 <= r1 <= r2 < n
    ensures Abs(g[r2][c] - g[r1][c]) <= r2 - r1
    decreases r2 - r1
  {
    if r1 < r2 {
      ColDistance(g, n, c, r1, r2 - 1);
      assert VStep(g, n, r2 - 1, c);
    }
  }

  /** Every height function with the fixed boundary lies between the two extremal
      states; in particular the minimum lies below the maximum. */
  lemma HeightFnBetweenExtremes(g: Grid, n: nat)
    requires IsHeightFn(g, n)
    ensures Le(MinHt(n), g) && Le(g, MaxHt(n))
  {
    forall r, c | 0 <= r < n && 0 <= c < n
      ensures MinHt(n)[r][c] <= g[r][c] <= MaxHt(n)[r][c]
    {
      RowDistance(g, n, r, 0, c);
      RowDistance(g, n, r, c, n - 1);
      ColDistance(g, n, c, 0, r);
      assert WallAt(g, n, c) && WallAt(g, n, r);
    }
  }

  lemma MinBelowMax(n: nat)
    ensures Le(MinHt(n), MaxHt(n))
  {
    MaxHtIsHeightFn(n);
    HeightFnBetweenExtremes(MaxHt(n), n);
  }

  predicate IsInterior(n: nat, s: Site)
  {
    1 <= s.row <= n - 2 && 1 <= s.col <= n - 2
  }

  /** `is_extreme` / `extreme`: north equals east, east equals south, south equals west. */
  predicate IsExtreme(g: Grid, n: nat, s: Site)
    requires IsSquare(g, n) && IsInterior(n, s)
  {
    var (r, c) := (s.row, s.col);
    g[r - 1][c] == g[r][c + 1] && g[r][c + 1] == g[r + 1][c] && g[r + 1][c] == g[r][c - 1]
  }

  function Min4(a: int, b: int, c: int, d: int): int
  {
    var ab := if a <= b then a else b;
    var cd := if c <= d then c else d;
    if ab <= cd then ab else cd
  }

  function Max4(a: int, b: int, c: int, d: int): int
  {
    var ab := if a >= b then a else b;
    var cd := if c >= d then c else d;
    if ab >= cd then ab else cd
  }

  function MinNbr(g: Grid, n: nat, s: Site): int
    requires IsSquare(g, n) && IsInterior(n, s)
  {
    Min4(g[s.row - 1][s.col], g[s.row][s.col + 1], g[s.row + 1][s.col], g[s.row][s.col - 1])
  }

  function MaxNbr(g: Grid, n: nat, s: Site): int
    requires IsSquare(g, n) && IsInterior(n, s)
  {
    Max4(g[s.row - 1][s.col], g[s.row][s.col + 1], g[s.row + 1][s.col], g[s.row][s.col - 1])
  }

  /** One site update of `evolve_ht` / `evolve`: an extreme site becomes its north
      neighbour plus the coin. On a valid grid this is the same as setting the site to
      (smallest neighbour + 1) for coin +1 and (largest neighbour - 1) for coin -1, the
      form from which monotonicity follows. No other entry changes. */
  function FlipSite(g: Grid, n: nat, s: Site, coin: int): (h: Grid)
    requires IsSquare(g, n) && IsInterior(n, s)
    ensures IsSquare(h, n)
    ensures forall r, c :: 0 <= r < n && 0 <= c < n && Site(r, c) != s ==> h[r][c] == g[r][c]
    ensures Adjacent(g, n) && (coin == 1 || coin == -1) ==>
      h[s.row][s.col] == (if coin == 1 then MinNbr(g, n, s) + 1 else MaxNbr(g, n, s) - 1)
  {
    var (r, c) := (s.row, s.col);
    assert Adjacent(g, n) ==>
      VStep(g, n, r - 1, c) && VStep(g, n, r, c) && HStep(g, n, r, c - 1) && HStep(g, n, r, c);
    if IsExtreme(g, n, s) then Set(g, s, g[r - 1][c] + coin) else g
  }

  /** A flip with a coin of +1 or -1 maps height functions to height functions: the
      boundary is never written and the new value differs by one from every neighbour. */
  lemma FlipSitePreservesHeightFn(g: Grid, n: nat, s: Site, coin: int)
    requires IsHeightFn(g, n) && IsInterior(n, s) && (coin == 1 || coin == -1)
    ensures IsHeightFn(FlipSite(g, n, s, coin), n)
  {
    var h := FlipSite(g, n, s, coin);
    if IsExtreme(g, n, s) {
      forall r, c | 0 <= r < n && 0 <= c < n - 1
        ensures HStep(h, n, r, c)
      {
        assert HStep(g, n, r, c);
      }
      forall r, c | 0 <= r < n - 1 && 0 <= c < n
        ensures VStep(h, n, r, c)
      {
        assert VStep(g, n, r, c);
      }
      forall i | 0 <= i < n
        ensures WallAt(h, n, i)
      {
        assert WallAt(g, n, i);
      }
    }
  }

  /** Monotonicity of one site update: with a shared coin, A <= B stays A <= B. */
  lemma FlipSiteMonotone(a: Grid, b: Grid, n: nat, s: Site, coin: int)
    requires IsHeightFn(a, n) && IsHeightFn(b, n) && Le(a, b)
    requires IsInterior(n, s) && (coin == 1 || coin == -1)
    ensures Le(FlipSite(a, n, s, coin), FlipSite(b, n, s, coin))
  {
    var a', b' := FlipSite(a, n, s, coin), FlipSite(b, n, s, coin);
    forall r, c | 0 <= r < n && 0 <= c < n
      ensures a'[r][c] <= b'[r][c]
    {
      if Site(r, c) == s {
        assert a[r - 1][c] <= b[r - 1][c] && a[r + 1][c] <= b[r + 1][c];
        assert a[r][c - 1] <= b[r][c - 1] && a[r][c + 1] <= b[r][c + 1];
      }
    }
  }

  /** Two sites of the same checkerboard phase are never neighbours. */
  lemma SamePhaseNotAdjacent(s: Site, t: Site)
    requires s != t && (s.row + s.col) % 2 == (t.row + t.col) % 2
    ensures Abs(s.row - t.row) + Abs(s.col - t.col) >= 2
  {
  }

  /** Updates at two distinct sites of the same phase commute: neither reads the
      entry the other writes, so the order of the sites within a phase does not matter. */
  lemma FlipSitesCommute(g: Grid, n: nat, s: Site, t: Site, a: int, b: int)
    requires IsSquare(g, n) && IsInterior(n, s) && IsInterior(n, t)
    requires s != t && (s.row + s.col) % 2 == (t.row + t.col) % 2
    ensures FlipSite(FlipSite(g, n, s, a), n, t, b) == FlipSite(FlipSite(g, n, t, b), n, s, a)
  {
    SamePhaseNotAdjacent(s, t);
    var gs, gt := FlipSite(g, n, s, a), FlipSite(g, n, t, b);
    assert IsExtreme(gs, n, t) == IsExtreme(g, n, t);
    assert IsExtreme(gt, n, s) == IsExtreme(g, n, s);
    var x, y := FlipSite(gs, n, t, b), FlipSite(gt, n, s, a);
    assert x[t.row][t.col] == gt[t.row][t.col];
    assert y[s.row][s.col] == gs[s.row][s.col];
    LeAntisymmetric(x, y);
  }

  /** t can be obtained from s by deleting entries: the entries of t occur in s, in
      the same order. */
  predicate IsSubsequence<T(==)>(t: seq<T>, s: seq<T>)
    decreases |s|
  {
    if t == [] then true
    else if s == [] then false
    else (t[0] == s[0] && IsSubsequence(t[1..], s[1..])) || IsSubsequence(t, s[1..])
  }

  /** Keeping or dropping the head of s extends a subsequence of its tail. */
  lemma SubsequenceCons<T>(keep: bool, t: seq<T>, s: seq<T>)
    requires s != [] && IsSubsequence(t, s[1..])
    ensures IsSubsequence((if keep then [s[0]] else []) + t, s)
  {
    if keep {
      assert ([s[0]] + t)[1..] == t;
    } else {
      assert [] + t == t;
    }
  }

  /** The sites with row + col of the given parity, in their original order: the sites
      a checkerboard phase of `evolve_ht` visits. */
  function OfPhase(sites: seq<Site>, p: int): (t: seq<Site>)
    ensures |t| <= |sites|
    ensures IsSubsequence(t, sites)
    ensures forall i :: 0 <= i < |t| ==> (t[i].row + t[i].col) % 2 == p
    decreases |sites|
  {
    if sites == [] then []
    else
      SubsequenceCons((sites[0].row + sites[0].col) % 2 == p, OfPhase(sites[1..], p), sites);
      (if (sites[0].row + sites[0].col) % 2 == p then [sites[0]] else [])
      + OfPhase(sites[1..], p)
  }

  /** A phase holds exactly the sites of that parity. */
  lemma {:induction false} OfPhaseMembers(sites: seq<Site>, p: int)
    ensures forall i :: 0 <= i < |OfPhase(sites, p)| ==>
      OfPhase(sites, p)[i] in sites && (OfPhase(sites, p)[i].row + OfPhase(sites, p)[i].col) % 2 == p
    ensures forall x :: x in sites && (x.row + x.col) % 2 == p ==> x in OfPhase(sites, p)
    decreases |sites|
  {
    if sites != [] {
      OfPhaseMembers(sites[1..], p);
      var t, rest := OfPhase(sites, p), OfPhase(sites[1..], p);
      var keep := (sites[0].row + sites[0].col) % 2 == p;
      assert t == (if keep then [sites[0]] else []) + rest;
      forall x | x in sites && (x.row + x.col) % 2 == p
        ensures x in t
      {
        if x != sites[0] {
          assert x in sites[1..];
        }
      }
    }
  }

  lemma {:induction false} PhasesSplit(sites: seq<Site>)
    ensures |OfPhase(sites, 0)| + |OfPhase(sites, 1)| == |sites|
    decreases |sites|
  {
    if sites != [] {
      PhasesSplit(sites[1..]);
    }
  }

  /** The interior side length: rows and columns 1 .. n - 2. */
  function InteriorSide(n: nat): nat
  {
    if n >= 2 then n - 2 else 0
  }

  /** The interior sites in the row-major order of the nested loops. */
  function InteriorSites(n: nat): seq<Site>
  {
    Block(1, InteriorSide(n), 1, InteriorSide(n))
  }

  /** The visiting order of one sweep of `evolve_ht`: phase 0, then phase 1, each in
      row-major order over the interior. */
  function SweepSites(n: nat): (sites: seq<Site>)
    ensures forall i :: 0 <= i < |sites| ==> IsInterior(n, sites[i])
  {
    OfPhaseMembers(InteriorSites(n), 0);
    OfPhaseMembers(InteriorSites(n), 1);
    OfPhase(InteriorSites(n), 0) + OfPhase(InteriorSites(n), 1)
  }

  /** A sweep visits every interior site, and draws exactly (n - 2)^2 coins
      whatever the state. */
  lemma SweepSitesCount(n: nat)
    ensures |SweepSites(n)| == InteriorSide(n) * InteriorSide(n)
    ensures forall s :: IsInterior(n, s) ==> s in SweepSites(n)
  {
    PhasesSplit(InteriorSites(n));
    OfPhaseMembers(InteriorSites(n), 0);
    OfPhaseMembers(InteriorSites(n), 1);
    forall s | IsInterior(n, s)
      ensures s in SweepSites(n)
    {
      BlockCovers(1, InteriorSide(n), 1, InteriorSide(n), s.row, s.col);
    }
  }
}
