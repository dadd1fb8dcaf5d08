/** Monotone coupling from the past (`run_cftp` in the C++ copies, the main loop of
    squareice.c and bpp.c), shared by the two lattice models. Both chains of an
    attempt are driven by the same coins; the coins of time step s come from the
    stream reseeded with seeds[log2(s)], so a longer attempt replays the randomness of
    every shorter one over its last steps. */
module Coupling {
  import opened CeilLog
  import opened BitStream
  import opened Grids
  import SquareIce
  import PlanePartition

  /** The reseeding table, filled once from the master seed. */
  type Seeds = seq<int>

  /** `seeds[p]`. The source's table has 256 entries and a horizon that fits an `int`
      never asks past entry 31; past the end of the table the model reads 0. */
  function SeedAt(seeds: Seeds, p: nat): (v: int)
    ensures p < |seeds| ==> v == seeds[p]
  {
    if p < |seeds| then seeds[p] else 0
  }

  /** The chain being sampled: square ice on a side x side grid, or plane partitions
      in an a x b x c box whose sweep visits columns 0 .. sweptCols - 1 of each row
      (sweptCols == cols for a full sweep; bpp.c bounds the column loop by a). */
  datatype Model =
    | Ice(side: nat)
    | Boxes(rows: nat, cols: nat, maxPart: int, sweptCols: nat)

  predicate ValidModel(m: Model)
  {
    match m
    case Ice(_) => true
    case Boxes(_, cols, maxPart, sweptCols) => maxPart >= 0 && sweptCols <= cols
  }

  predicate Shaped(m: Model, g: Grid)
  {
    match m
    case Ice(n) => HasShape(g, n, n)
    case Boxes(a, b, _, _) => HasShape(g, a, b)
  }

  /** The states of the chain: height functions with the domain-wall boundary, or
      plane partitions in the box. */
  predicate Inv(m: Model, g: Grid)
  {
    match m
    case Ice(n) => SquareIce.IsHeightFn(g, n)
    case Boxes(a, b, c, _) => PlanePartition.IsPP(g, a, b, c)
  }

  /** The state the lower chain starts from. */
  function Bottom(m: Model): (g: Grid)
    requires ValidModel(m)
    ensures Inv(m, g)
  {
    match m
    case Ice(n) => SquareIce.MinHtIsHeightFn(n); SquareIce.MinHt(n)
    case Boxes(a, b, c, _) => PlanePartition.EmptyBox(a, b, c)
  }

  /** The state the upper chain starts from. */
  function Top(m: Model): (g: Grid)
    requires ValidModel(m)
    ensures Inv(m, g)
  {
    match m
    case Ice(n) => SquareIce.MaxHtIsHeightFn(n); SquareIce.MaxHt(n)
    case Boxes(a, b, c, _) => PlanePartition.FullBox(a, b, c)
  }

  /** Every state lies between the two starting states. */
  lemma BetweenExtremes(m: Model, h: Grid)
    requires ValidModel(m) && Inv(m, h)
    ensures Le(Bottom(m), h) && Le(h, Top(m))
  {
    match m
    case Ice(n) => SquareIce.HeightFnBetweenExtremes(h, n);
    case Boxes(a, b, c, _) =>
      PlanePartition.EmptyBoxIsLeast(a, b, c, h);
      PlanePartition.FullBoxIsGreatest(a, b, c, h);
  }

  predicate SiteOk(m: Model, s: Site)
  {
    match m
    case Ice(n) => SquareIce.IsInterior(n, s)
    case Boxes(a, b, _, _) => PlanePartition.OnFloor(a, b, s)
  }

  predicate AllSitesOk(m: Model, sites: seq<Site>)
  {
    forall i :: 0 <= i < |sites| ==> SiteOk(m, sites[i])
  }

  /** The sites one sweep visits, in order, one coin each. */
  function Sites(m: Model): (sites: seq<Site>)
    ensures ValidModel(m) ==> AllSitesOk(m, sites)
  {
    match m
    case Ice(n) => SquareIce.SweepSites(n)
    case Boxes(a, _, _, w) => Block(0, a, 0, w)
  }

  /** The number of coins one sweep draws, whatever the state: (side - 2)^2 for
      square ice, rows * sweptCols for the box. */
  function PerStep(m: Model): nat
  {
    match m
    case Ice(n) => Mul(SquareIce.InteriorSide(n), SquareIce.InteriorSide(n))
    case Boxes(a, _, _, w) => Mul(a, w)
  }

  /** One coin per visited site. */
  lemma PerStepCount(m: Model)
    ensures PerStep(m) == |Sites(m)|
    ensures m.Ice? ==> PerStep(m) == SquareIce.InteriorSide(m.side) * SquareIce.InteriorSide(m.side)
    ensures m.Boxes? ==> PerStep(m) == m.rows * m.sweptCols
  {
    match m
    case Ice(n) =>
      SquareIce.SweepSitesCount(n);
      MulIsProduct(SquareIce.InteriorSide(n), SquareIce.InteriorSide(n));
    case Boxes(a, _, _, w) =>
      MulIsProduct(a, w);
  }

  /** The update of one site with one coin. The guard only excludes grids and sites
      no sweep of the source produces. */
  function Flip(m: Model, g: Grid, s: Site, coin: int): Grid
  {
    if !(Shaped(m, g) && SiteOk(m, s)) then g
    else
      match m
      case Ice(n) => SquareIce.FlipSite(g, n, s, coin)
      case Boxes(a, b, c, _) => PlanePartition.BoxMove(g, a, b, c, s, coin)
  }

  predicate IsCoins(cs: seq<int>)
  {
    forall i :: 0 <= i < |cs| ==> cs[i] == 1 || cs[i] == -1
  }

  lemma FlipPreservesInv(m: Model, g: Grid, s: Site, coin: int)
    requires Inv(m, g) && SiteOk(m, s) && (coin == 1 || coin == -1)
    ensures Inv(m, Flip(m, g, s, coin))
  {
    match m
    case Ice(n) => SquareIce.FlipSitePreservesHeightFn(g, n, s, coin);
    case Boxes(a, b, c, _) => PlanePartition.BoxMovePreservesPP(g, a, b, c, s, coin);
  }

  lemma FlipMonotone(m: Model, x: Grid, y: Grid, s: Site, coin: int)
    requires Inv(m, x) && Inv(m, y) && Le(x, y) && SiteOk(m, s) && (coin == 1 || coin == -1)
    ensures Le(Flip(m, x, s, coin), Flip(m, y, s, coin))
  {
    match m
    case Ice(n) => SquareIce.FlipSiteMonotone(x, y, n, s, coin);
    case Boxes(a, b, c, _) => PlanePartition.BoxMoveMonotone(x, y, a, b, c, s, coin);
  }

  /** An update writes only its own site. */
  lemma FlipKeepsOthers(m: Model, g: Grid, s: Site, coin: int, t: Site)
    requires InBounds(g, t) && t != s
    ensures InBounds(Flip(m, g, s, coin), t)
    ensures Flip(m, g, s, coin)[t.row][t.col] == g[t.row][t.col]
  {
  }

  /** The sites updated one after the other, the i-th with the i-th coin. */
  function ApplySites(m: Model, g: Grid, sites: seq<Site>, coins: seq<int>): Grid
    decreases |sites|
  {
    if sites == [] || coins == [] then g
    else ApplySites(m, Flip(m, g, sites[0], coins[0]), sites[1..], coins[1..])
  }

  lemma {:induction false} ApplySitesPreservesInv(m: Model, g: Grid, sites: seq<Site>, coins: seq<int>)
    requires Inv(m, g) && AllSitesOk(m, sites) && IsCoins(coins)
    ensures Inv(m, ApplySites(m, g, sites, coins))
    decreases |sites|
  {
    if sites != [] && coins != [] {
      FlipPreservesInv(m, g, sites[0], coins[0]);
      ApplySitesPreservesInv(m, Flip(m, g, sites[0], coins[0]), sites[1..], coins[1..]);
    }
  }

  lemma {:induction false} ApplySitesMonotone(m: Model, x: Grid, y: Grid, sites: seq<Site>, coins: seq<int>)
    requires Inv(m, x) && Inv(m, y) && Le(x, y)
    requires AllSitesOk(m, sites) && IsCoins(coins)
    ensures Le(ApplySites(m, x, sites, coins), ApplySites(m, y, sites, coins))
    decreases |sites|
  {
    if sites != [] && coins != [] {
      FlipPreservesInv(m, x, sites[0], coins[0]);
      FlipPreservesInv(m, y, sites[0], coins[0]);
      FlipMonotone(m, x, y, sites[0], coins[0]);
      ApplySitesMonotone(m, Flip(m, x, sites[0], coins[0]), Flip(m, y, sites[0], coins[0]),
                         sites[1..], coins[1..]);
    }
  }

  /** A site no update visits keeps its value. */
  lemma {:induction false} ApplySitesKeepsUnvisited(m: Model, g: Grid, sites: seq<Site>, coins: seq<int>, t: Site)
    requires InBounds(g, t) && t !in sites
    ensures InBounds(ApplySites(m, g, sites, coins), t)
    ensures ApplySites(m, g, sites, coins)[t.row][t.col] == g[t.row][t.col]
    decreases |sites|
  {
    if sites != [] && coins != [] {
      assert t != sites[0] && t !in sites[1..];
      FlipKeepsOthers(m, g, sites[0], coins[0], t);
      ApplySitesKeepsUnvisited(m, Flip(m, g, sites[0], coins[0]), sites[1..], coins[1..], t);
    }
  }

  /** One sweep of the coupled chains with the given coins. */
  function Sweep(m: Model, g: Grid, coins: seq<int>): Grid
  {
    ApplySites(m, g, Sites(m), coins)
  }

  /** A sweep with coins of +1 and -1 maps states to states. */
  lemma SweepPreservesInv(m: Model, g: Grid, cs: seq<int>)
    requires ValidModel(m) && Inv(m, g) && IsCoins(cs)
    ensures Inv(m, Sweep(m, g, cs))
  {
    ApplySitesPreservesInv(m, g, Sites(m), cs);
  }

  /** A sweep with shared coins keeps two ordered states ordered. */
  lemma SweepMonotone(m: Model, x: Grid, y: Grid, cs: seq<int>)
    requires ValidModel(m) && Inv(m, x) && Inv(m, y) && Le(x, y) && IsCoins(cs)
    ensures Le(Sweep(m, x, cs), Sweep(m, y, cs))
  {
    ApplySitesMonotone(m, x, y, Sites(m), cs);
  }

  /** A sweep leaves alone every site it does not visit. */
  lemma SweepKeepsUnvisited(m: Model, g: Grid, cs: seq<int>, t: Site)
    requires InBounds(g, t) && t !in Sites(m)
    ensures InBounds(Sweep(m, g, cs), t) && Sweep(m, g, cs)[t.row][t.col] == g[t.row][t.col]
  {
    ApplySitesKeepsUnvisited(m, g, Sites(m), cs, t);
  }

  datatype Evolved = Evolved(low: Grid, high: Grid, buf: Buffer, coins: seq<int>)

  /** `evolve_ht` / `evolve` as written: at each site draw one coin, then update the
      lower and the upper chain with it. */
  function SweepBuf(m: Model, src: Source, lo: Grid, hi: Grid, sites: seq<Site>, buf: Buffer): (e: Evolved)
    ensures |e.coins| == |sites|
    decreases |sites|
  {
    if sites == [] then Evolved(lo, hi, buf, [])
    else
      var d := NextCoin(src, buf);
      var r := SweepBuf(m, src, Flip(m, lo, sites[0], d.coin), Flip(m, hi, sites[0], d.coin),
                        sites[1..], d.buf);
      Evolved(r.low, r.high, r.buf, [d.coin] + r.coins)
  }

  /** Interleaving the draws with the updates is the same as drawing one coin per
      site first and then applying them: both chains see exactly the drawn coins. */
  lemma {:induction false} SweepBufDrawsThenFlips(m: Model, src: Source, lo: Grid, hi: Grid, sites: seq<Site>, buf: Buffer)
    ensures var e := SweepBuf(m, src, lo, hi, sites, buf);
      var d := DrawN(src, buf, |sites|);
      && e.coins == d.coins && e.buf == d.buf
      && e.low == ApplySites(m, lo, sites, d.coins)
      && e.high == ApplySites(m, hi, sites, d.coins)
    decreases |sites|
  {
    if sites != [] {
      var d := NextCoin(src, buf);
      SweepBufDrawsThenFlips(m, src, Flip(m, lo, sites[0], d.coin), Flip(m, hi, sites[0], d.coin),
                             sites[1..], d.buf);
      var rest := DrawN(src, d.buf, |sites| - 1);
      assert DrawN(src, buf, |sites|).coins == [d.coin] + rest.coins;
      assert ([d.coin] + rest.coins)[1..] == rest.coins;
    }
  }

  /** One call of `evolve_ht` / `evolve`. */
  function EvolveBuf(m: Model, src: Source, lo: Grid, hi: Grid, buf: Buffer): (e: Evolved)
    ensures |e.coins| == PerStep(m)
  {
    PerStepCount(m);
    SweepBuf(m, src, lo, hi, Sites(m), buf)
  }

  /** One call of `evolve_ht` / `evolve` reads the next PerStep coins of the stream and
      sweeps both chains with them. */
  lemma EvolveBufSweeps(m: Model, src: Source, lo: Grid, hi: Grid, buf: Buffer)
    ensures var e := EvolveBuf(m, src, lo, hi, buf);
      var d := DrawN(src, buf, PerStep(m));
      && e.coins == d.coins && e.buf == d.buf
      && e.low == Sweep(m, lo, d.coins) && e.high == Sweep(m, hi, d.coins)
  {
    PerStepCount(m);
    SweepBufDrawsThenFlips(m, src, lo, hi, Sites(m), buf);
  }

  /** A sequence of coin vectors, one per time step, the earliest step first. */
  type Trace = seq<seq<int>>

  predicate IsTrace(tr: Trace)
  {
    forall i :: 0 <= i < |tr| ==> IsCoins(tr[i])
  }

  /** Reference evolution: one sweep per entry of the trace, in order. */
  function Run(m: Model, g: Grid, tr: Trace): Grid
    decreases |tr|
  {
    if tr == [] then g else Run(m, Sweep(m, g, tr[0]), tr[1..])
  }

  /** The first step of a run is a sweep with the first coins. */
  lemma RunCons(m: Model, g: Grid, cs: seq<int>, tr: Trace)
    ensures Run(m, g, [cs] + tr) == Run(m, Sweep(m, g, cs), tr)
  {
    assert ([cs] + tr)[1..] == tr;
  }

  lemma {:induction false} RunPreservesInv(m: Model, g: Grid, tr: Trace)
    requires ValidModel(m) && Inv(m, g) && IsTrace(tr)
    ensures Inv(m, Run(m, g, tr))
    decreases |tr|
  {
    if tr != [] {
      SweepPreservesInv(m, g, tr[0]);
      assert IsTrace(tr[1..]);
      RunPreservesInv(m, Sweep(m, g, tr[0]), tr[1..]);
    }
  }

  /** Runs with shared coins keep two ordered states ordered. */
  lemma {:induction false} RunMonotone(m: Model, x: Grid, y: Grid, tr: Trace)
    requires ValidModel(m) && Inv(m, x) && Inv(m, y) && Le(x, y) && IsTrace(tr)
    ensures Le(Run(m, x, tr), Run(m, y, tr))
    decreases |tr|
  {
    if tr != [] {
      SweepPreservesInv(m, x, tr[0]);
      SweepPreservesInv(m, y, tr[0]);
      SweepMonotone(m, x, y, tr[0]);
      assert IsTrace(tr[1..]);
      RunMonotone(m, Sweep(m, x, tr[0]), Sweep(m, y, tr[0]), tr[1..]);
    }
  }

  /** Running two traces one after the other is running their concatenation. */
  lemma {:induction false} RunAppend(m: Model, g: Grid, a: Trace, b: Trace)
    ensures Run(m, g, a + b) == Run(m, Run(m, g, a), b)
    decreases |a|
  {
    if a == [] {
      assert a + b == b;
    } else {
      assert a + b == [a[0]] + (a[1..] + b);
      RunCons(m, g, a[0], a[1..] + b);
      RunAppend(m, Sweep(m, g, a[0]), a[1..], b);
    }
  }

  /** The extremal chains meet after the sweeps of the trace. */
  predicate CoalescesOn(m: Model, tr: Trace)
    requires ValidModel(m)
  {
    Run(m, Bottom(m), tr) == Run(m, Top(m), tr)
  }

  /** The heart of coupling from the past: once the extremal chains meet after the
      sweeps of tr, every state run through any earlier sweeps followed by tr ends in
      the same state. */
  lemma CoalescenceIsSound(m: Model, pre: Trace, tr: Trace, g: Grid)
    requires ValidModel(m) && IsTrace(pre) && IsTrace(tr) && CoalescesOn(m, tr)
    requires Inv(m, g)
    ensures Run(m, g, pre + tr) == Run(m, Top(m), tr)
  {
    RunAppend(m, g, pre, tr);
    var g' := Run(m, g, pre);
    RunPreservesInv(m, g, pre);
    BetweenExtremes(m, g');
    RunMonotone(m, Bottom(m), g', tr);
    RunMonotone(m, g', Top(m), tr);
    LeAntisymmetric(Run(m, g', tr), Run(m, Top(m), tr));
  }

  /** The number of coins read from the stream of power p before time step s. */
  function StepOffset(p: nat, s: int, per: nat): nat
  {
    if s <= Pow2(p) then
      var d: nat := Pow2(p) - s;
      Mul(d, per)
    else 0
  }

  /** The coins of time step s (counting down to 1) for sweeps of `per` coins: the
      stream seeded with seeds[log2(s)], read from the point where the steps since the
      last power of two left it. */
  function StepCoins(src: Source, seeds: Seeds, per: nat, s: int): (cs: seq<int>)
    ensures |cs| == per && IsCoins(cs)
  {
    var p := Log2Int(s);
    StreamSlice(src, SeedAt(seeds, p), StepOffset(p, s, per), per)
  }

  /** [f(s), f(s - 1), ..., f(1)]. */
  function Countdown<T>(f: int -> T, s: int): (r: seq<T>)
    ensures |r| == (if s <= 0 then 0 else s)
    decreases s
  {
    if s <= 0 then [] else [f(s)] + Countdown(f, s - 1)
  }

  /** The entry for t sits at index s - t. */
  lemma {:induction false} CountdownAt<T>(f: int -> T, s: int, t: int)
    requires 1 <= t <= s
    ensures Countdown(f, s)[s - t] == f(t)
    decreases s
  {
    if t < s {
      CountdownAt(f, s - 1, t);
    }
  }

  lemma DropCons<T>(x: T, r: seq<T>, k: nat)
    requires 1 <= k <= |r| + 1
    ensures ([x] + r)[k..] == r[k - 1..]
  {
  }

  /** The last t entries of a countdown from s are the countdown from t. */
  lemma {:induction false} CountdownSuffix<T>(f: int -> T, s: int, t: int)
    requires 0 <= t <= s
    ensures Countdown(f, s)[s - t..] == Countdown(f, t)
    decreases s
  {
    if t < s {
      DropCons(f(s), Countdown(f, s - 1), s - t);
      CountdownSuffix(f, s - 1, t);
    }
  }

  function StepCoinsOf(src: Source, seeds: Seeds, per: nat): int -> seq<int>
  {
    s => StepCoins(src, seeds, per, s)
  }

  /** The coins of time steps s, s - 1, ..., 1, in that order. */
  function ScheduleTrace(src: Source, seeds: Seeds, per: nat, s: int): (tr: Trace)
    ensures |tr| == (if s <= 0 then 0 else s)
    ensures IsTrace(tr)
  {
    var tr := Countdown(StepCoinsOf(src, seeds, per), s);
    assert IsTrace(tr) by {
      forall i | 0 <= i < |tr|
        ensures IsCoins(tr[i])
      {
        CountdownAt(StepCoinsOf(src, seeds, per), s, s - i);
      }
    }
    tr
  }

  /** The schedule from -s starts with the coins of step s. */
  lemma ScheduleTraceCons(src: Source, seeds: Seeds, per: nat, s: int)
    requires s >= 1
    ensures ScheduleTrace(src, seeds, per, s) == [StepCoins(src, seeds, per, s)] + ScheduleTrace(src, seeds, per, s - 1)
  {
  }

  /** The entry for time step t. */
  lemma ScheduleTraceAt(src: Source, seeds: Seeds, per: nat, s: int, t: int)
    requires 1 <= t <= s
    ensures ScheduleTrace(src, seeds, per, s)[s - t] == StepCoins(src, seeds, per, t)
  {
    CountdownAt(StepCoinsOf(src, seeds, per), s, t);
  }

  /** The last t entries of the schedule from time -s are the schedule from -t: the
      coins of a time step do not depend on where the run started. */
  lemma ScheduleTraceSuffix(src: Source, seeds: Seeds, per: nat, s: int, t: int)
    requires 0 <= t <= s
    ensures ScheduleTrace(src, seeds, per, s)[s - t..] == ScheduleTrace(src, seeds, per, t)
  {
    CountdownSuffix(StepCoinsOf(src, seeds, per), s, t);
  }

  /** The evolution from time -T to time 0 under the sampler's randomness. */
  function RunFrom(m: Model, src: Source, seeds: Seeds, g: Grid, T: int): Grid
  {
    Run(m, g, ScheduleTrace(src, seeds, PerStep(m), T))
  }

  /** The two chains started from time -T meet at time 0. */
  predicate Coalesces(m: Model, src: Source, seeds: Seeds, T: int)
  {
    ValidModel(m) && CoalescesOn(m, ScheduleTrace(src, seeds, PerStep(m), T))
  }

  /** Soundness of coupling from the past: once the extremal chains started at -T
      meet, every state started at any earlier time -T' ends in the same state. */
  lemma CoalescenceFromIsSound(m: Model, src: Source, seeds: Seeds, T: int, T': int, g: Grid)
    requires ValidModel(m) && 0 <= T <= T' && Coalesces(m, src, seeds, T)
    requires Inv(m, g)
    ensures RunFrom(m, src, seeds, g, T') == RunFrom(m, src, seeds, Top(m), T)
  {
    var tr := ScheduleTrace(src, seeds, PerStep(m), T');
    ScheduleTraceSuffix(src, seeds, PerStep(m), T', T);
    assert tr == tr[..T' - T] + tr[T' - T..];
    assert IsTrace(tr[..T' - T]);
    CoalescenceIsSound(m, tr[..T' - T], ScheduleTrace(src, seeds, PerStep(m), T), g);
  }

  /** Coalescence at -T persists for every earlier start. */
  lemma CoalescenceIsMonotone(m: Model, src: Source, seeds: Seeds, T: int, T': int)
    requires ValidModel(m) && 0 <= T <= T' && Coalesces(m, src, seeds, T)
    ensures Coalesces(m, src, seeds, T')
  {
    CoalescenceFromIsSound(m, src, seeds, T, T', Bottom(m));
    CoalescenceFromIsSound(m, src, seeds, T, T', Top(m));
  }

  /** The buffer to sweep with at step s: reseeded when log2(s) differs from the
      remembered power. */
  function StepBuffer(src: Source, seeds: Seeds, s: int, power: int, buf: Buffer): Buffer
  {
    var p := Log2Int(s);
    if p != power then Reseed(src, buf, SeedAt(seeds, p)) else buf
  }

  datatype Attempted = Attempted(low: Grid, high: Grid, buf: Buffer, power: int, trace: Trace)

  /** The inner loop of one attempt as written, for any per-step evolution of the two
      chains: while step > 0, reseed with seeds[log2(step)] when log2(step) differs
      from the remembered power, evolve, and count down. `trace` records the coins
      drawn, step by step. */
  function InnerLoop(evolve: (Grid, Grid, Buffer) -> Evolved, src: Source, seeds: Seeds,
                     lo: Grid, hi: Grid, step: int, power: int, buf: Buffer): (a: Attempted)
    ensures |a.trace| == (if step <= 0 then 0 else step)
    decreases step
  {
    if step <= 0 then Attempted(lo, hi, buf, power, [])
    else
      var e := evolve(lo, hi, StepBuffer(src, seeds, step, power, buf));
      var r := InnerLoop(evolve, src, seeds, e.low, e.high, step - 1, Log2Int(step), e.buf);
      Attempted(r.low, r.high, r.buf, r.power, [e.coins] + r.trace)
  }

  /** `evolve_ht` / `evolve` of the model, as a value. */
  function Evolver(m: Model, src: Source): (Grid, Grid, Buffer) -> Evolved
  {
    (lo, hi, buf) => EvolveBuf(m, src, lo, hi, buf)
  }

  /** The inner loop of the sampler. */
  function AttemptLoop(m: Model, src: Source, seeds: Seeds, lo: Grid, hi: Grid,
                       step: int, power: int, buf: Buffer): (a: Attempted)
    ensures |a.trace| == (if step <= 0 then 0 else step)
  {
    InnerLoop(Evolver(m, src), src, seeds, lo, hi, step, power, buf)
  }

  /** One attempt from time -T: reset both chains, forget the stream, run the loop. */
  function Attempt(m: Model, src: Source, seeds: Seeds, T: int, buf: Buffer): (a: Attempted)
    requires ValidModel(m)
    ensures |a.trace| == (if T <= 0 then 0 else T)
  {
    AttemptLoop(m, src, seeds, Bottom(m), Top(m), T, -2, buf)
  }

  lemma TraceCons(cs: seq<int>, tr: Trace)
    requires IsCoins(cs) && IsTrace(tr)
    ensures IsTrace([cs] + tr)
  {
  }

  /** `evolve` sweeps both chains with the coins it reports. */
  ghost predicate Evolves(evolve: (Grid, Grid, Buffer) -> Evolved, sweep: (Grid, seq<int>) -> Grid)
  {
    forall lo: Grid, hi: Grid, b: Buffer ::
      && IsCoins(evolve(lo, hi, b).coins)
      && evolve(lo, hi, b).low == sweep(lo, evolve(lo, hi, b).coins)
      && evolve(lo, hi, b).high == sweep(hi, evolve(lo, hi, b).coins)
  }

  /** Reading the next per coins of the stream, as a value. */
  function Drawer(src: Source, per: nat): Buffer -> Draws
  {
    b => DrawN(src, b, per)
  }

  /** `evolve` reads what `draw` reads, whatever the chains. */
  ghost predicate Draws(evolve: (Grid, Grid, Buffer) -> Evolved, draw: Buffer -> Draws)
  {
    forall lo: Grid, hi: Grid, b: Buffer ::
      && evolve(lo, hi, b).coins == draw(b).coins
      && evolve(lo, hi, b).buf == draw(b).buf
  }

  /** Sweeps of the model, as a value. */
  function Sweeper(m: Model): (Grid, seq<int>) -> Grid
  {
    (g, cs) => Sweep(m, g, cs)
  }

  lemma EvolverEvolves(m: Model, src: Source)
    ensures Evolves(Evolver(m, src), Sweeper(m))
    ensures Draws(Evolver(m, src), Drawer(src, PerStep(m)))
  {
    var evolve, sweep := Evolver(m, src), Sweeper(m);
    forall lo: Grid, hi: Grid, b: Buffer
      ensures IsCoins(evolve(lo, hi, b).coins)
      ensures evolve(lo, hi, b).coins == DrawN(src, b, PerStep(m)).coins
      ensures evolve(lo, hi, b).buf == DrawN(src, b, PerStep(m)).buf
      ensures evolve(lo, hi, b).low == sweep(lo, evolve(lo, hi, b).coins)
      ensures evolve(lo, hi, b).high == sweep(hi, evolve(lo, hi, b).coins)
    {
      EvolveBufSweeps(m, src, lo, hi, b);
    }
  }

  /** The sweeps of tr one after the other, for any sweep. */
  function RunWith(sweep: (Grid, seq<int>) -> Grid, g: Grid, tr: Trace): Grid
    decreases |tr|
  {
    if tr == [] then g else RunWith(sweep, sweep(g, tr[0]), tr[1..])
  }

  lemma {:induction false} RunIsRunWith(m: Model, g: Grid, tr: Trace)
    ensures Run(m, g, tr) == RunWith(Sweeper(m), g, tr)
    decreases |tr|
  {
    if tr != [] {
      RunIsRunWith(m, Sweep(m, g, tr[0]), tr[1..]);
    }
  }

  /** Whatever state the stream is in, the loop runs both chains through the sweeps
      of the coins it draws. */
  lemma {:induction false} InnerLoopRuns(evolve: (Grid, Grid, Buffer) -> Evolved, sweep: (Grid, seq<int>) -> Grid,
                                         src: Source, seeds: Seeds, lo: Grid, hi: Grid,
                                         step: int, power: int, buf: Buffer)
    requires Evolves(evolve, sweep)
    ensures var a := InnerLoop(evolve, src, seeds, lo, hi, step, power, buf);
      IsTrace(a.trace) && a.low == RunWith(sweep, lo, a.trace) && a.high == RunWith(sweep, hi, a.trace)
    decreases step
  {
    if step > 0 {
      var e := evolve(lo, hi, StepBuffer(src, seeds, step, power, buf));
      InnerLoopRuns(evolve, sweep, src, seeds, e.low, e.high, step - 1, Log2Int(step), e.buf);
      var r := InnerLoop(evolve, src, seeds, e.low, e.high, step - 1, Log2Int(step), e.buf);
      assert ([e.coins] + r.trace)[1..] == r.trace;
      TraceCons(e.coins, r.trace);
    }
  }

  /** Whatever state the stream is in, the sampler's loop runs both chains through
      the reference evolution with the coins it draws. */
  lemma AttemptLoopRuns(m: Model, src: Source, seeds: Seeds, lo: Grid, hi: Grid,
                        step: int, power: int, buf: Buffer)
    ensures var a := AttemptLoop(m, src, seeds, lo, hi, step, power, buf);
      IsTrace(a.trace) && a.low == Run(m, lo, a.trace) && a.high == Run(m, hi, a.trace)
  {
    var a := AttemptLoop(m, src, seeds, lo, hi, step, power, buf);
    EvolverEvolves(m, src);
    InnerLoopRuns(Evolver(m, src), Sweeper(m), src, seeds, lo, hi, step, power, buf);
    RunIsRunWith(m, lo, a.trace);
    RunIsRunWith(m, hi, a.trace);
  }

  /** Where the stream stands before step s: if the remembered power is log2(s),
      the steps from 2^power down to s + 1 have been read; otherwise s is itself a
      power of two and a reseed is due. */
  predicate OnSchedule(src: Source, seeds: Seeds, per: nat, s: int, power: int, buf: Buffer)
  {
    s >= 1 ==>
      if Log2Int(s) == power then
        Canonical(src, buf, SeedAt(seeds, power), StepOffset(power, s, per))
      else
        s == Pow2(Log2Int(s))
  }

  /** On schedule, the buffer to sweep with stands at coin StepOffset of the stream
      of power log2(s). */
  lemma ScheduledBuffer(src: Source, seeds: Seeds, per: nat, s: int, power: int, buf: Buffer)
    requires s >= 1 && OnSchedule(src, seeds, per, s, power, buf)
    ensures Canonical(src, StepBuffer(src, seeds, s, power, buf), SeedAt(seeds, Log2Int(s)),
                      StepOffset(Log2Int(s), s, per))
  {
    var p := Log2Int(s);
    if p != power {
      ReseedCanonical(src, buf, SeedAt(seeds, p));
      assert StepOffset(p, s, per) == 0;
    }
  }

  /** The stream position after the coins of step s is the one step s - 1 expects. */
  lemma NextOnSchedule(src: Source, seeds: Seeds, per: nat, s: int, b: Buffer)
    requires s >= 1
    requires Canonical(src, b, SeedAt(seeds, Log2Int(s)), StepOffset(Log2Int(s), s, per) + per)
    ensures OnSchedule(src, seeds, per, s - 1, Log2Int(s), b)
  {
    var p := Log2Int(s);
    if s - 1 >= 1 {
      Log2IntStep(s - 1);
      if Log2Int(s - 1) == p {
        assert StepOffset(p, s - 1, per) == StepOffset(p, s, per) + per;
      }
    }
  }

  /** One step on schedule draws StepCoins(s) and leaves the stream on schedule for
      step s - 1. */
  lemma ScheduledDraw(src: Source, seeds: Seeds, per: nat, s: int, power: int, buf: Buffer)
    requires s >= 1 && OnSchedule(src, seeds, per, s, power, buf)
    ensures var d := DrawN(src, StepBuffer(src, seeds, s, power, buf), per);
      d.coins == StepCoins(src, seeds, per, s) && OnSchedule(src, seeds, per, s - 1, Log2Int(s), d.buf)
  {
    var p := Log2Int(s);
    var b := StepBuffer(src, seeds, s, power, buf);
    ScheduledBuffer(src, seeds, per, s, power, buf);
    DrawNFollowsStream(src, b, SeedAt(seeds, p), StepOffset(p, s, per), per);
    DrawNStaysCanonical(src, b, SeedAt(seeds, p), StepOffset(p, s, per), per);
    NextOnSchedule(src, seeds, per, s, DrawN(src, b, per).buf);
  }

  /** The coins the inner loop reads, without the chains: at each step, reseed when
      due and make the step's reads. */
  function CoinLoop(draw: Buffer -> Draws, src: Source, seeds: Seeds, s: int, power: int, buf: Buffer): Trace
    decreases s
  {
    if s <= 0 then []
    else
      var d := draw(StepBuffer(src, seeds, s, power, buf));
      [d.coins] + CoinLoop(draw, src, seeds, s - 1, Log2Int(s), d.buf)
  }

  /** The coins the loop reads do not depend on the chains it evolves. */
  lemma {:induction false} InnerLoopDraws(evolve: (Grid, Grid, Buffer) -> Evolved, draw: Buffer -> Draws,
                                          src: Source, seeds: Seeds, lo: Grid, hi: Grid, s: int, power: int, buf: Buffer)
    requires Draws(evolve, draw)
    ensures InnerLoop(evolve, src, seeds, lo, hi, s, power, buf).trace == CoinLoop(draw, src, seeds, s, power, buf)
    decreases s
  {
    if s > 0 {
      var e := evolve(lo, hi, StepBuffer(src, seeds, s, power, buf));
      InnerLoopDraws(evolve, draw, src, seeds, e.low, e.high, s - 1, Log2Int(s), e.buf);
    }
  }

  /** On schedule, the reads of step s are StepCoins(s), for every remaining step. */
  lemma {:induction false} CoinLoopFollowsSchedule(src: Source, seeds: Seeds, per: nat, s: int, power: int, buf: Buffer)
    requires OnSchedule(src, seeds, per, s, power, buf)
    ensures CoinLoop(Drawer(src, per), src, seeds, s, power, buf) == ScheduleTrace(src, seeds, per, s)
    decreases s
  {
    if s > 0 {
      ScheduledDraw(src, seeds, per, s, power, buf);
      ScheduleTraceCons(src, seeds, per, s);
      var d := DrawN(src, StepBuffer(src, seeds, s, power, buf), per);
      CoinLoopFollowsSchedule(src, seeds, per, s - 1, Log2Int(s), d.buf);
    }
  }

  /** On schedule, the loop as written draws the coins StepCoins(s) at each step s. */
  lemma AttemptLoopFollowsSchedule(m: Model, src: Source, seeds: Seeds, lo: Grid, hi: Grid,
                                   s: int, power: int, buf: Buffer)
    requires OnSchedule(src, seeds, PerStep(m), s, power, buf)
    ensures AttemptLoop(m, src, seeds, lo, hi, s, power, buf).trace == ScheduleTrace(src, seeds, PerStep(m), s)
  {
    EvolverEvolves(m, src);
    InnerLoopDraws(Evolver(m, src), Drawer(src, PerStep(m)), src, seeds, lo, hi, s, power, buf);
    CoinLoopFollowsSchedule(src, seeds, PerStep(m), s, power, buf);
  }

  /** An attempt from a power-of-two time -T draws the scheduled coins and computes the
      reference evolution of both extremal states. */
  lemma AttemptFollowsSchedule(m: Model, src: Source, seeds: Seeds, T: int, buf: Buffer)
    requires ValidModel(m) && IsPow2(T)
    ensures var a := Attempt(m, src, seeds, T, buf);
      && a.trace == ScheduleTrace(src, seeds, PerStep(m), T)
      && a.low == RunFrom(m, src, seeds, Bottom(m), T)
      && a.high == RunFrom(m, src, seeds, Top(m), T)
  {
    AttemptDrawsSchedule(m, src, seeds, T, buf);
    AttemptLoopRuns(m, src, seeds, Bottom(m), Top(m), T, -2, buf);
  }

  /** The coins of an attempt from a power-of-two time -T are the schedule's. */
  lemma AttemptDrawsSchedule(m: Model, src: Source, seeds: Seeds, T: int, buf: Buffer)
    requires ValidModel(m) && IsPow2(T)
    ensures Attempt(m, src, seeds, T, buf).trace == ScheduleTrace(src, seeds, PerStep(m), T)
  {
    IsPow2IsSomePow2(T);
    AttemptLoopFollowsSchedule(m, src, seeds, Bottom(m), Top(m), T, -2, buf);
  }

  lemma DoubleIsPow2(T: int)
    requires IsPow2(T)
    ensures IsPow2(2 * T) && T >= 1
  {
    assert (2 * T) / 2 == T;
  }

  /** Reuse of randomness: for power-of-two T, the attempt from -2T ends with exactly
      the coins the attempt from -T drew, time step for time step, whatever state the
      generator was left in. */
  lemma AttemptsShareRandomness(m: Model, src: Source, seeds: Seeds, T: int, buf1: Buffer, buf2: Buffer)
    requires ValidModel(m) && IsPow2(T)
    ensures Attempt(m, src, seeds, 2 * T, buf2).trace[T..] == Attempt(m, src, seeds, T, buf1).trace
  {
    DoubleIsPow2(T);
    AttemptDrawsSchedule(m, src, seeds, T, buf1);
    AttemptDrawsSchedule(m, src, seeds, 2 * T, buf2);
    ScheduleTraceSuffix(src, seeds, PerStep(m), 2 * T, T);
  }

  /** In an attempt from a power-of-two time -T, time step s sweeps with the coins
      StepCoins(s), whatever state the generator was left in. */
  lemma AttemptCoinsAt(m: Model, src: Source, seeds: Seeds, T: int, buf: Buffer)
    requires ValidModel(m) && IsPow2(T)
    ensures forall s :: 1 <= s <= T ==> Attempt(m, src, seeds, T, buf).trace[T - s] == StepCoins(src, seeds, PerStep(m), s)
  {
    AttemptDrawsSchedule(m, src, seeds, T, buf);
    forall s | 1 <= s <= T
      ensures Attempt(m, src, seeds, T, buf).trace[T - s] == StepCoins(src, seeds, PerStep(m), s)
    {
      ScheduleTraceAt(src, seeds, PerStep(m), T, s);
    }
  }

  datatype Outcome = Coalesced(sample: Grid, timeSteps: int) | Exhausted(timeSteps: int)

  /** The outer loop of `run_cftp` as written, for any attempt procedure: while the
      volume difference is nonzero, run an attempt from -timeSteps and double it.
      The sample is the upper chain. `fuel` bounds the number of attempts;
      `timeSteps` is the loop variable on exit. */
  function OuterLoop(attempt: (int, Buffer) -> Attempted, lo: Grid, hi: Grid,
                     timeSteps: int, buf: Buffer, fuel: nat): Outcome
    decreases fuel
  {
    if VolumeDiff(lo, hi) == 0 then Coalesced(hi, timeSteps)
    else if fuel == 0 then Exhausted(timeSteps)
    else
      var a := attempt(timeSteps, buf);
      OuterLoop(attempt, a.low, a.high, 2 * timeSteps, a.buf, fuel - 1)
  }

  /** The attempt procedure of the sampler: `Attempt` from the model's extremal states. */
  function Attempts(m: Model, src: Source, seeds: Seeds): (int, Buffer) -> Attempted
    requires ValidModel(m)
  {
    var lo, hi := Bottom(m), Top(m);
    (T, buf) => AttemptLoop(m, src, seeds, lo, hi, T, -2, buf)
  }

  /** `run_cftp` on freshly initialised chains. */
  function RunCftp(m: Model, src: Source, seeds: Seeds, initial: int, buf: Buffer, fuel: nat): Outcome
    requires ValidModel(m)
  {
    OuterLoop(Attempts(m, src, seeds), Bottom(m), Top(m), initial, buf, fuel)
  }

  datatype Found = Found(at: int) | NotFound(next: int)

  /** The doubling search of the outer loop, for any test: try T, 2T, 4T, ..., at most
      fuel of them, and report the first that passes or the next one to try. */
  function DoublingSearch(ok: int -> bool, T: int, fuel: nat): Found
    decreases fuel
  {
    if fuel == 0 then NotFound(T)
    else if ok(T) then Found(T)
    else DoublingSearch(ok, 2 * T, fuel - 1)
  }

  /** From a power of two, the search returns the least power of two from T on that
      passes, or, when it gives up, T * 2^fuel with every power of two before it
      failing. */
  lemma {:induction false} DoublingSearchFindsFirst(ok: int -> bool, T: int, fuel: nat)
    requires IsPow2(T)
    ensures var r := DoublingSearch(ok, T, fuel);
      r.Found? ==>
        && T <= r.at && IsPow2(r.at) && ok(r.at)
        && forall j :: T <= j < r.at && IsPow2(j) ==> !ok(j)
    ensures var r := DoublingSearch(ok, T, fuel);
      r.NotFound? ==>
        && r.next == T * Pow2(fuel) && IsPow2(r.next)
        && forall j :: T <= j < r.next && IsPow2(j) ==> !ok(j)
    decreases fuel
  {
    if fuel > 0 && !ok(T) {
      DoubleIsPow2(T);
      DoublingSearchFindsFirst(ok, 2 * T, fuel - 1);
      var r := DoublingSearch(ok, 2 * T, fuel - 1);
      var bound := if r.Found? then r.at else r.next;
      forall j | T <= j < bound && IsPow2(j)
        ensures !ok(j)
      {
        if j < 2 * T {
          NoPow2Between(T, j);
        }
      }
      if r.NotFound? {
        assert r.next == T * Pow2(fuel) by {
          DoubleShift(T, Pow2(fuel - 1));
        }
      }
    }
  }

  /** The test the sampler's outer loop applies to each horizon. */
  function CoalescenceTest(m: Model, src: Source, seeds: Seeds): int -> bool
  {
    T => Coalesces(m, src, seeds, T)
  }

  /** The outcome of a doubling search for a passing horizon h, reported as the
      sampler reports it: timeSteps 2h and the sample at h. */
  function SearchOutcome(ok: int -> bool, sample: int -> Grid, T: int, fuel: nat): Outcome
  {
    match DoublingSearch(ok, T, fuel)
    case Found(h) => Coalesced(sample(h), 2 * h)
    case NotFound(next) => Exhausted(next)
  }

  /** The upper chain's value at time 0 when started at -T. */
  function TopSample(m: Model, src: Source, seeds: Seeds): int -> Grid
    requires ValidModel(m)
  {
    var top := Top(m);
    T => RunFrom(m, src, seeds, top, T)
  }

  /** Reference search: try the horizons T, 2T, 4T, ... and stop at the first one from
      which the extremal chains coalesce, with the upper chain's value there. */
  function CoalescenceSearch(m: Model, src: Source, seeds: Seeds, T: int, fuel: nat): Outcome
    requires ValidModel(m)
  {
    SearchOutcome(CoalescenceTest(m, src, seeds), TopSample(m, src, seeds), T, fuel)
  }

  /** After the reference evolution from -T the extremal chains are states and still
      ordered. */
  lemma ExtremesStayOrdered(m: Model, src: Source, seeds: Seeds, T: int)
    requires ValidModel(m)
    ensures Inv(m, RunFrom(m, src, seeds, Bottom(m), T)) && Inv(m, RunFrom(m, src, seeds, Top(m), T))
    ensures Le(RunFrom(m, src, seeds, Bottom(m), T), RunFrom(m, src, seeds, Top(m), T))
  {
    var tr := ScheduleTrace(src, seeds, PerStep(m), T);
    RunPreservesInv(m, Bottom(m), tr);
    RunPreservesInv(m, Top(m), tr);
    BetweenExtremes(m, Top(m));
    RunMonotone(m, Bottom(m), Top(m), tr);
  }

  /** One attempt from a power-of-two horizon: the chains stay ordered states, the
      volume difference vanishes exactly when they coalesce from -T, and the sample
      is the reference evolution of the top state. */
  lemma AttemptDecides(m: Model, src: Source, seeds: Seeds, T: int, buf: Buffer)
    requires ValidModel(m) && IsPow2(T)
    ensures var a := Attempt(m, src, seeds, T, buf);
      && Inv(m, a.low) && Inv(m, a.high) && Le(a.low, a.high)
      && (VolumeDiff(a.low, a.high) == 0 <==> a.low == a.high)
      && (a.low == a.high <==> Coalesces(m, src, seeds, T))
      && a.high == RunFrom(m, src, seeds, Top(m), T)
  {
    var a := Attempt(m, src, seeds, T, buf);
    AttemptFollowsSchedule(m, src, seeds, T, buf);
    ExtremesStayOrdered(m, src, seeds, T);
    VolumeDiffZeroIffEqual(a.low, a.high);
  }

  /** An attempt from -T that ends with the chains equal is reproduced by the attempt
      from -2T: its chains end equal too, at the same grid, whatever state the
      generator was left in before either attempt. */
  lemma CoalescedAttemptIsReproduced(m: Model, src: Source, seeds: Seeds, T: int, buf1: Buffer, buf2: Buffer)
    requires ValidModel(m) && IsPow2(T)
    ensures var a := Attempt(m, src, seeds, T, buf1);
      a.low == a.high ==>
        && Attempt(m, src, seeds, 2 * T, buf2).low == a.high
        && Attempt(m, src, seeds, 2 * T, buf2).high == a.high
  {
    if Attempt(m, src, seeds, T, buf1).low == Attempt(m, src, seeds, T, buf1).high {
      AttemptDecides(m, src, seeds, T, buf1);
      DoubleIsPow2(T);
      AttemptFollowsSchedule(m, src, seeds, 2 * T, buf2);
      CoalescenceFromIsSound(m, src, seeds, T, 2 * T, Bottom(m));
      CoalescenceFromIsSound(m, src, seeds, T, 2 * T, Top(m));
    }
  }

  /** For any attempt procedure that, from every power-of-two horizon, ends with the
      chains equal in volume exactly when `ok` holds there and with the upper chain
      at `sample`, the outer loop returns what the doubling search for `ok` finds. */
  lemma {:induction false} OuterLoopMatchesSearch(attempt: (int, Buffer) -> Attempted, ok: int -> bool,
                                                  sample: int -> Grid, lo: Grid, hi: Grid,
                                                  T: int, buf: Buffer, fuel: nat)
    requires IsPow2(T) && VolumeDiff(lo, hi) != 0
    requires forall T', b :: IsPow2(T') ==>
      && (VolumeDiff(attempt(T', b).low, attempt(T', b).high) == 0 <==> ok(T'))
      && attempt(T', b).high == sample(T')
    ensures OuterLoop(attempt, lo, hi, T, buf, fuel) == SearchOutcome(ok, sample, T, fuel)
    decreases fuel
  {
    if fuel > 0 && !ok(T) {
      var a := attempt(T, buf);
      DoubleIsPow2(T);
      OuterLoopMatchesSearch(attempt, ok, sample, a.low, a.high, 2 * T, a.buf, fuel - 1);
    }
  }

  /** The sampler as written agrees with the reference search: it returns at once when
      the extremal states already agree, and otherwise stops at the first coalescing
      horizon among initial, 2 initial, 4 initial, ... */
  lemma RunCftpMatchesSearch(m: Model, src: Source, seeds: Seeds, initial: int, buf: Buffer, fuel: nat)
    requires ValidModel(m) && IsPow2(initial)
    ensures RunCftp(m, src, seeds, initial, buf, fuel)
         == if Bottom(m) == Top(m) then Coalesced(Top(m), initial)
            else CoalescenceSearch(m, src, seeds, initial, fuel)
  {
    BetweenExtremes(m, Top(m));
    VolumeDiffZeroIffEqual(Bottom(m), Top(m));
    if Bottom(m) != Top(m) {
      var attempt, ok, sample := Attempts(m, src, seeds), CoalescenceTest(m, src, seeds), TopSample(m, src, seeds);
      forall T', b | IsPow2(T')
        ensures VolumeDiff(attempt(T', b).low, attempt(T', b).high) == 0 <==> ok(T')
        ensures attempt(T', b).high == sample(T')
      {
        AttemptDecides(m, src, seeds, T', b);
      }
      OuterLoopMatchesSearch(attempt, ok, sample, Bottom(m), Top(m), initial, buf, fuel);
    }
  }

  /** What the search returns: the least power-of-two horizon h >= T from which the
      chains coalesce, as timeSteps = 2h, with the upper chain's value; or, when it
      gives up, the horizon after fuel failed ones. */
  lemma SearchResult(m: Model, src: Source, seeds: Seeds, T: int, fuel: nat)
    requires ValidModel(m) && IsPow2(T)
    ensures var o := CoalescenceSearch(m, src, seeds, T, fuel);
      o.Coalesced? ==>
        var h := o.timeSteps / 2;
        && o.timeSteps == 2 * h && T <= h && IsPow2(h)
        && Coalesces(m, src, seeds, h)
        && o.sample == RunFrom(m, src, seeds, Top(m), h)
        && forall j :: T <= j < h && IsPow2(j) ==> !Coalesces(m, src, seeds, j)
    ensures var o := CoalescenceSearch(m, src, seeds, T, fuel);
      o.Exhausted? ==>
        && o.timeSteps == T * Pow2(fuel) && IsPow2(o.timeSteps)
        && forall j :: T <= j < o.timeSteps && IsPow2(j) ==> !Coalesces(m, src, seeds, j)
  {
    var ok := CoalescenceTest(m, src, seeds);
    DoublingSearchFindsFirst(ok, T, fuel);
    var r := DoublingSearch(ok, T, fuel);
    if r.Found? {
      assert (2 * r.at) / 2 == r.at;
    }
  }

  /** What the sampler returns is correct: a state of the chain, and the common value
      at time 0 of every state started from time -T' for every T' from the final
      horizon on. */
  lemma RunCftpSound(m: Model, src: Source, seeds: Seeds, initial: int, buf: Buffer, fuel: nat)
    requires ValidModel(m) && IsPow2(initial)
    ensures var o := RunCftp(m, src, seeds, initial, buf, fuel);
      o.Coalesced? ==>
        && Inv(m, o.sample)
        && forall g, T': int :: Inv(m, g) && o.timeSteps / 2 <= T' ==> RunFrom(m, src, seeds, g, T') == o.sample
  {
    RunCftpMatchesSearch(m, src, seeds, initial, buf, fuel);
    var o := RunCftp(m, src, seeds, initial, buf, fuel);
    if o.Coalesced? {
      if Bottom(m) == Top(m) {
        forall g, T': int | Inv(m, g) && o.timeSteps / 2 <= T'
          ensures RunFrom(m, src, seeds, g, T') == o.sample
        {
          var tr := ScheduleTrace(src, seeds, PerStep(m), T');
          RunPreservesInv(m, g, tr);
          BetweenExtremes(m, Run(m, g, tr));
          LeAntisymmetric(Run(m, g, tr), Top(m));
        }
      } else {
        SearchResult(m, src, seeds, initial, fuel);
        var h := o.timeSteps / 2;
        ExtremesStayOrdered(m, src, seeds, h);
        forall g, T': int | Inv(m, g) && o.timeSteps / 2 <= T'
          ensures RunFrom(m, src, seeds, g, T') == o.sample
        {
          CoalescenceFromIsSound(m, src, seeds, h, T', g);
        }
      }
    }
  }

  /** A run leaves alone every site the sweep does not visit. */
  lemma {:induction false} RunKeepsUnvisited(m: Model, g: Grid, tr: Trace, t: Site)
    requires InBounds(g, t) && t !in Sites(m)
    ensures InBounds(Run(m, g, tr), t) && Run(m, g, tr)[t.row][t.col] == g[t.row][t.col]
    decreases |tr|
  {
    if tr != [] {
      SweepKeepsUnvisited(m, g, tr[0], t);
      RunKeepsUnvisited(m, Sweep(m, g, tr[0]), tr[1..], t);
    }
  }

  /** An attempt leaves alone every site the sweep does not visit. */
  lemma AttemptLoopKeepsUnvisited(m: Model, src: Source, seeds: Seeds, lo: Grid, hi: Grid,
                                  step: int, power: int, buf: Buffer, t: Site)
    requires InBounds(lo, t) && InBounds(hi, t) && t !in Sites(m)
    ensures var a := AttemptLoop(m, src, seeds, lo, hi, step, power, buf);
      && InBounds(a.low, t) && InBounds(a.high, t)
      && a.low[t.row][t.col] == lo[t.row][t.col] && a.high[t.row][t.col] == hi[t.row][t.col]
  {
    var a := AttemptLoop(m, src, seeds, lo, hi, step, power, buf);
    AttemptLoopRuns(m, src, seeds, lo, hi, step, power, buf);
    RunKeepsUnvisited(m, lo, a.trace, t);
    RunKeepsUnvisited(m, hi, a.trace, t);
  }

  /** Every attempt keeps both chains among the states and in order. */
  lemma AttemptLoopPreservesOrder(m: Model, src: Source, seeds: Seeds, lo: Grid, hi: Grid,
                                  step: int, power: int, buf: Buffer)
    requires ValidModel(m) && Inv(m, lo) && Inv(m, hi) && Le(lo, hi)
    ensures var a := AttemptLoop(m, src, seeds, lo, hi, step, power, buf);
      Inv(m, a.low) && Inv(m, a.high) && Le(a.low, a.high)
  {
    var a := AttemptLoop(m, src, seeds, lo, hi, step, power, buf);
    AttemptLoopRuns(m, src, seeds, lo, hi, step, power, buf);
    RunPreservesInv(m, lo, a.trace);
    RunPreservesInv(m, hi, a.trace);
    RunMonotone(m, lo, hi, a.trace);
  }

  /** An attempt leaves the extremal chains ordered states that still differ at a
      site the sweep never visits. */
  lemma AttemptKeepsApart(m: Model, src: Source, seeds: Seeds, T: int, buf: Buffer, t: Site)
    requires ValidModel(m) && InBounds(Bottom(m), t) && t !in Sites(m)
    requires Bottom(m)[t.row][t.col] != Top(m)[t.row][t.col]
    ensures var a := Attempt(m, src, seeds, T, buf);
      && Inv(m, a.low) && Inv(m, a.high) && Le(a.low, a.high)
      && InBounds(a.low, t) && a.low[t.row][t.col] != a.high[t.row][t.col]
  {
    BetweenExtremes(m, Top(m));
    AttemptLoopKeepsUnvisited(m, src, seeds, Bottom(m), Top(m), T, -2, buf, t);
    AttemptLoopPreservesOrder(m, src, seeds, Bottom(m), Top(m), T, -2, buf);
  }

  /** If no attempt ever ends with the chains equal in volume, the outer loop never
      stops. */
  lemma {:induction false} OuterLoopNeverStops(attempt: (int, Buffer) -> Attempted, lo: Grid, hi: Grid,
                                               T: int, buf: Buffer, fuel: nat)
    requires VolumeDiff(lo, hi) != 0
    requires forall T', b :: VolumeDiff(attempt(T', b).low, attempt(T', b).high) != 0
    ensures OuterLoop(attempt, lo, hi, T, buf, fuel).Exhausted?
    decreases fuel
  {
    if fuel > 0 {
      var a := attempt(T, buf);
      OuterLoopNeverStops(attempt, a.low, a.high, 2 * T, a.buf, fuel - 1);
    }
  }

  /** The sampler never returns when a site where the extremal states differ is left
      out of the sweep, whatever the initial horizon and however many attempts. */
  lemma RunCftpNeverStops(m: Model, src: Source, seeds: Seeds, initial: int, buf: Buffer, fuel: nat, t: Site)
    requires ValidModel(m) && InBounds(Bottom(m), t) && t !in Sites(m)
    requires Bottom(m)[t.row][t.col] != Top(m)[t.row][t.col]
    ensures RunCftp(m, src, seeds, initial, buf, fuel).Exhausted?
  {
    BetweenExtremes(m, Top(m));
    VolumeDiffZeroIffEqual(Bottom(m), Top(m));
    var attempt := Attempts(m, src, seeds);
    forall T', b
      ensures VolumeDiff(attempt(T', b).low, attempt(T', b).high) != 0
    {
      var a := Attempt(m, src, seeds, T', b);
      AttemptKeepsApart(m, src, seeds, T', b, t);
      VolumeDiffZeroIffEqual(a.low, a.high);
    }
    OuterLoopNeverStops(attempt, Bottom(m), Top(m), initial, buf, fuel);
  }
}
