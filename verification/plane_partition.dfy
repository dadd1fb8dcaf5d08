/** Boxed plane partitions (bpp.c): an a x b array of parts between 0 and c that do
    not increase to the right or downwards, with the box-adding and box-removing moves
    of `flippable_up` / `flippable_down` / `evolve`. */
module PlanePartition {
  import opened Grids

  /** The conditions at one cell: the part lies in [0, c] and is at least its east and
      south neighbours. */
  predicate CellOk(g: Grid, a: nat, b: nat, cmax: int, r: int, c: int)
    requires HasShape(g, a, b) && 0 <= r < a && 0 <= c < b
  {
    && 0 <= g[r][c] <= cmax
    && (c + 1 < b ==> g[r][c] >= g[r][c + 1])
    && (r + 1 < a ==> g[r][c] >= g[r + 1][c])
  }

  predicate IsPP(g: Grid, a: nat, b: nat, cmax: int)
  {
    HasShape(g, a, b) && forall r, c :: 0 <= r < a && 0 <= c < b ==> CellOk(g, a, b, cmax, r, c)
  }

  predicate OnFloor(a: nat, b: nat, s: Site)
  {
    0 <= s.row < a && 0 <= s.col < b
  }

  /** `createmin`: the empty box. */
  function EmptyBox(a: nat, b: nat, cmax: int): (g: Grid)
    requires cmax >= 0
    ensures IsPP(g, a, b, cmax)
  {
    Const(a, b, 0)
  }

  /** Every plane partition in the box lies above the empty box. */
  lemma EmptyBoxIsLeast(a: nat, b: nat, cmax: int, h: Grid)
    requires cmax >= 0 && IsPP(h, a, b, cmax)
    ensures Le(EmptyBox(a, b, cmax), h)
  {
    var g := EmptyBox(a, b, cmax);
    forall r, c | 0 <= r < a && 0 <= c < b
      ensures g[r][c] <= h[r][c]
    {
      assert CellOk(h, a, b, cmax, r, c);
    }
  }

  /** `createmax`: the full box. */
  function FullBox(a: nat, b: nat, cmax: int): (g: Grid)
    requires cmax >= 0
    ensures IsPP(g, a, b, cmax)
  {
    Const(a, b, cmax)
  }

  /** Every plane partition in the box lies below the full box. */
  lemma FullBoxIsGreatest(a: nat, b: nat, cmax: int, h: Grid)
    requires cmax >= 0 && IsPP(h, a, b, cmax)
    ensures Le(h, FullBox(a, b, cmax))
  {
    var g := FullBox(a, b, cmax);
    forall r, c | 0 <= r < a && 0 <= c < b
      ensures h[r][c] <= g[r][c]
    {
      assert CellOk(h, a, b, cmax, r, c);
    }
  }

  /** The part above the cell; c above the first row. */
  function Above(g: Grid, a: nat, b: nat, cmax: int, s: Site): int
    requires HasShape(g, a, b) && OnFloor(a, b, s)
  {
    if s.row == 0 then cmax else g[s.row - 1][s.col]
  }

  /** The part left of the cell; c left of the first column. */
  function LeftOf(g: Grid, a: nat, b: nat, cmax: int, s: Site): int
    requires HasShape(g, a, b) && OnFloor(a, b, s)
  {
    if s.col == 0 then cmax else g[s.row][s.col - 1]
  }

  /** The part below the cell; 0 below the last row. */
  function Below(g: Grid, a: nat, b: nat, s: Site): int
    requires HasShape(g, a, b) && OnFloor(a, b, s)
  {
    if s.row == a - 1 then 0 else g[s.row + 1][s.col]
  }

  /** The part right of the cell; 0 right of the last column. */
  function RightOf(g: Grid, a: nat, b: nat, s: Site): int
    requires HasShape(g, a, b) && OnFloor(a, b, s)
  {
    if s.col == b - 1 then 0 else g[s.row][s.col + 1]
  }

  /** `flippable_up`: the parts above and to the left are both above the current one. */
  predicate FlippableUp(g: Grid, a: nat, b: nat, cmax: int, s: Site)
    requires HasShape(g, a, b) && OnFloor(a, b, s)
  {
    var h := g[s.row][s.col];
    Above(g, a, b, cmax, s) >= h + 1 && LeftOf(g, a, b, cmax, s) >= h + 1
  }

  /** `flippable_down`: the parts to the right and below are both below the current one. */
  predicate FlippableDown(g: Grid, a: nat, b: nat, s: Site)
    requires HasShape(g, a, b) && OnFloor(a, b, s)
  {
    var h := g[s.row][s.col];
    h - 1 >= RightOf(g, a, b, s) && h - 1 >= Below(g, a, b, s)
  }

  /** A box can be added at a cell exactly when the result is again a plane
      partition in the box. */
  lemma FlippableUpIffStaysPP(g: Grid, a: nat, b: nat, cmax: int, s: Site)
    requires IsPP(g, a, b, cmax) && OnFloor(a, b, s)
    ensures FlippableUp(g, a, b, cmax, s) <==> IsPP(Set(g, s, g[s.row][s.col] + 1), a, b, cmax)
  {
    var (r, c) := (s.row, s.col);
    var h := Set(g, s, g[r][c] + 1);
    if FlippableUp(g, a, b, cmax, s) {
      forall i, j | 0 <= i < a && 0 <= j < b
        ensures CellOk(h, a, b, cmax, i, j)
      {
        assert CellOk(g, a, b, cmax, i, j);
        if r > 0 { assert CellOk(g, a, b, cmax, r - 1, c); }
        if c > 0 { assert CellOk(g, a, b, cmax, r, c - 1); }
      }
    }
    if IsPP(h, a, b, cmax) {
      assert CellOk(h, a, b, cmax, r, c);
      if r > 0 { assert CellOk(h, a, b, cmax, r - 1, c); }
      if c > 0 { assert CellOk(h, a, b, cmax, r, c - 1); }
    }
  }

  /** A box can be removed at a cell exactly when the result is again a plane
      partition in the box. */
  lemma FlippableDownIffStaysPP(g: Grid, a: nat, b: nat, cmax: int, s: Site)
    requires IsPP(g, a, b, cmax) && OnFloor(a, b, s)
    ensures FlippableDown(g, a, b, s) <==> IsPP(Set(g, s, g[s.row][s.col] - 1), a, b, cmax)
  {
    var (r, c) := (s.row, s.col);
    var h := Set(g, s, g[r][c] - 1);
    if FlippableDown(g, a, b, s) {
      forall i, j | 0 <= i < a && 0 <= j < b
        ensures CellOk(h, a, b, cmax, i, j)
      {
        assert CellOk(g, a, b, cmax, i, j);
        if r + 1 < a { assert CellOk(g, a, b, cmax, r + 1, c); }
        if c + 1 < b { assert CellOk(g, a, b, cmax, r, c + 1); }
      }
    }
    if IsPP(h, a, b, cmax) {
      assert CellOk(h, a, b, cmax, r, c);
      if r + 1 < a { assert CellOk(h, a, b, cmax, r + 1, c); }
      if c + 1 < b { assert CellOk(h, a, b, cmax, r, c + 1); }
    }
  }

  /** One cell of `evolve`: a coin of 1 adds a box when `flippable_up` allows it, any
      other coin removes one when `flippable_down` allows it. No other part changes. */
  function BoxMove(g: Grid, a: nat, b: nat, cmax: int, s: Site, coin: int): (h: Grid)
    requires HasShape(g, a, b) && OnFloor(a, b, s)
    ensures HasShape(h, a, b)
    ensures forall r, c :: 0 <= r < a && 0 <= c < b && Site(r, c) != s ==> h[r][c] == g[r][c]
  {
    var v := g[s.row][s.col];
    if coin == 1 then
      (if FlippableUp(g, a, b, cmax, s) then Set(g, s, v + 1) else g)
    else
      (if FlippableDown(g, a, b, s) then Set(g, s, v - 1) else g)
  }

  /** A move keeps a plane partition in the box, and it changes the part exactly when
      the changed array would still be one: with coin 1 the part grows by one iff a
      box fits, otherwise it shrinks by one iff a box can be taken away. */
  lemma BoxMovePreservesPP(g: Grid, a: nat, b: nat, cmax: int, s: Site, coin: int)
    requires IsPP(g, a, b, cmax) && OnFloor(a, b, s)
    ensures IsPP(BoxMove(g, a, b, cmax, s, coin), a, b, cmax)
    ensures var v := g[s.row][s.col];
      var w := BoxMove(g, a, b, cmax, s, coin)[s.row][s.col];
      if coin == 1 then
        (w == v + 1 <==> IsPP(Set(g, s, v + 1), a, b, cmax)) && (w == v || w == v + 1)
      else
        (w == v - 1 <==> IsPP(Set(g, s, v - 1), a, b, cmax)) && (w == v || w == v - 1)
  {
    FlippableUpIffStaysPP(g, a, b, cmax, s);
    FlippableDownIffStaysPP(g, a, b, cmax, s);
  }

  /** The coupling of `evolve` is monotone: with a shared coin, A <= B stays A <= B. */
  lemma BoxMoveMonotone(x: Grid, y: Grid, a: nat, b: nat, cmax: int, s: Site, coin: int)
    requires IsPP(x, a, b, cmax) && IsPP(y, a, b, cmax) && Le(x, y) && OnFloor(a, b, s)
    ensures Le(BoxMove(x, a, b, cmax, s, coin), BoxMove(y, a, b, cmax, s, coin))
  {
    var x', y' := BoxMove(x, a, b, cmax, s, coin), BoxMove(y, a, b, cmax, s, coin);
    var (r, c) := (s.row, s.col);
    if r > 0 { assert x[r - 1][c] <= y[r - 1][c]; }
    if c > 0 { assert x[r][c - 1] <= y[r][c - 1]; }
    if r + 1 < a { assert x[r + 1][c] <= y[r + 1][c]; }
    if c + 1 < b { assert x[r][c + 1] <= y[r][c + 1]; }
    assert x[r][c] <= y[r][c];
    forall i, j | 0 <= i < a && 0 <= j < b
      ensures x'[i][j] <= y'[i][j]
    {
      assert x[i][j] <= y[i][j];
    }
  }
}
