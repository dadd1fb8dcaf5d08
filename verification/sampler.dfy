/** The entry points around the coupling: argument checks and the rounding of the
    starting horizon in `main` of rasm_basic.cpp, squareice.c and bpp.c and in
    `sample_asm` of rasm_lib.cpp, followed by one run of the coupling. Command-line
    parsing, printing and the drawing of the master seed are not modelled: the
    order, dimensions and `-initial` value arrive as integers, and the seeds table
    and the generator's state as values. */
module Sampler {
  import opened CeilLog
  import opened BitStream
  import opened Grids
  import opened Coupling
  import SquareIce
  import AsmExtract

  /** Why a sampler refuses to start. */
  datatype Error = InvalidOrder | InvalidInitial | InvalidDimensions

  datatype Result<T> = Ok(value: T) | Err(error: Error)

  /** The starting horizon when `-initial` is not given. */
  const DefaultInitial: int := 128

  /** Largest accepted `-initial` in rasm_basic.cpp: 2^29. */
  const CppInitialMax: int := 536870912

  /** Largest accepted `-initial` in squareice.c and bpp.c. */
  const CInitialMax: int := 100000000

  lemma CppInitialMaxIsPow2()
    ensures CppInitialMax == Pow2(29)
  {
    assert Pow2(2) == 4 && Pow2(3) == 8 && Pow2(4) == 16 && Pow2(5) == 32;
    Pow2Add(5, 5);
    Pow2Add(10, 10);
    Pow2Add(20, 5);
    Pow2Add(25, 4);
  }

  /** The `-initial` option: refuse values outside [1, bound], then replace a value
      that is not a power of two by the next power of two. */
  function CheckInitial(initial: int, bound: int): (r: Result<int>)
    ensures r.Ok? <==> 1 <= initial <= bound
    ensures r.Err? ==> r.error == InvalidInitial
    ensures r.Ok? ==> IsPow2(r.value) && initial <= r.value < 2 * initial
    ensures r.Ok? && IsPow2(initial) ==> r.value == initial
  {
    if initial < 1 || initial > bound then Err(InvalidInitial)
    else
      var k := Log2Int(initial);
      assert k == 0 || Pow2(k) == 2 * Pow2(k - 1);
      Ok(RoundUpPow2(initial))
  }

  /** An accepted `-initial` of rasm_basic.cpp stays at most 2^29 after rounding. */
  lemma CppInitialFits(initial: int)
    requires CheckInitial(initial, CppInitialMax).Ok?
    ensures CheckInitial(initial, CppInitialMax).value <= Pow2(29)
  {
    CppInitialMaxIsPow2();
    RoundUpPow2IsLeast(initial, 29);
  }

  /** `main` of rasm_basic.cpp up to the end of `run_cftp`: check the order, then the
      `-initial` value, then run the coupling on the (order + 1)-sided grid. */
  function RasmMain(src: Source, seeds: Seeds, order: int, initial: int, buf: Buffer, fuel: nat): (r: Result<Outcome>)
    ensures order < 1 ==> r == Err(InvalidOrder)
    ensures order >= 1 ==> (r.Err? <==> !(1 <= initial <= CppInitialMax))
    ensures r.Ok? ==> r.value == RunCftp(Ice(order + 1), src, seeds, RoundUpPow2(initial), buf, fuel)
  {
    if order < 1 then Err(InvalidOrder)
    else
      match CheckInitial(initial, CppInitialMax)
      case Err(e) => Err(e)
      case Ok(t) => Ok(RunCftp(Ice(order + 1), src, seeds, t, buf, fuel))
  }

  /** `sample_asm` of rasm_lib.cpp: round `initial` up to a power of two without any
      range check (a value below 1 becomes 1), then check the order, run the coupling
      and hand back the upper chain. */
  function SampleAsm(src: Source, seeds: Seeds, order: int, initial: int, buf: Buffer, fuel: nat): (r: Result<Outcome>)
    ensures r.Err? <==> order < 1
    ensures r.Err? ==> r.error == InvalidOrder
    ensures r.Ok? ==> r.value == RunCftp(Ice(order + 1), src, seeds, RoundUpPow2(initial), buf, fuel)
  {
    var t := RoundUpPow2(initial);
    if order < 1 then Err(InvalidOrder)
    else Ok(RunCftp(Ice(order + 1), src, seeds, t, buf, fuel))
  }

  /** `main` of squareice.c: the order is the side of the height grid itself. */
  function SquareIceMain(src: Source, seeds: Seeds, order: int, initial: int, buf: Buffer, fuel: nat): (r: Result<Outcome>)
    ensures order < 1 ==> r == Err(InvalidOrder)
    ensures order >= 1 ==> (r.Err? <==> !(1 <= initial <= CInitialMax))
    ensures r.Ok? ==> r.value == RunCftp(Ice(order), src, seeds, RoundUpPow2(initial), buf, fuel)
  {
    if order < 1 then Err(InvalidOrder)
    else
      match CheckInitial(initial, CInitialMax)
      case Err(e) => Err(e)
      case Ok(t) => Ok(RunCftp(Ice(order), src, seeds, t, buf, fuel))
  }

  /** `main` of bpp.c with the sweep bounded as evidently intended: columns 0 .. b - 1
      of every row. */
  function BppMain(src: Source, seeds: Seeds, a: int, b: int, c: int, initial: int, buf: Buffer, fuel: nat): (r: Result<Outcome>)
    ensures a < 1 || b < 1 || c < 1 ==> r == Err(InvalidDimensions)
    ensures a >= 1 && b >= 1 && c >= 1 ==> (r.Err? <==> !(1 <= initial <= CInitialMax))
    ensures r.Ok? ==> r.value == RunCftp(Boxes(a, b, c, b), src, seeds, RoundUpPow2(initial), buf, fuel)
  {
    if a < 1 || b < 1 || c < 1 then Err(InvalidDimensions)
    else
      match CheckInitial(initial, CInitialMax)
      case Err(e) => Err(e)
      case Ok(t) => Ok(RunCftp(Boxes(a, b, c, b), src, seeds, t, buf, fuel))
  }

  /** `main` of bpp.c as written: `evolve` bounds the column loop by a, so each row
      is swept over columns 0 .. a - 1. When a > b that indexes past the end of a row,
      which C leaves undefined; the model reports it as an invalid dimension. */
  function BppMainAsWritten(src: Source, seeds: Seeds, a: int, b: int, c: int, initial: int, buf: Buffer, fuel: nat): (r: Result<Outcome>)
    ensures a < 1 || b < 1 || c < 1 || a > b ==> r == Err(InvalidDimensions)
    ensures 1 <= a <= b && c >= 1 ==> (r.Err? <==> !(1 <= initial <= CInitialMax))
    ensures r.Ok? ==> r.value == RunCftp(Boxes(a, b, c, a), src, seeds, RoundUpPow2(initial), buf, fuel)
  {
    if a < 1 || b < 1 || c < 1 || a > b then Err(InvalidDimensions)
    else
      match CheckInitial(initial, CInitialMax)
      case Err(e) => Err(e)
      case Ok(t) => Ok(RunCftp(Boxes(a, b, c, a), src, seeds, t, buf, fuel))
  }

  /** On a square box the sweep bound does not matter. */
  lemma BppSquareAgrees(src: Source, seeds: Seeds, a: int, c: int, initial: int, buf: Buffer, fuel: nat)
    ensures BppMainAsWritten(src, seeds, a, a, c, initial, buf, fuel) == BppMain(src, seeds, a, a, c, initial, buf, fuel)
  {
  }

  /** The defect of bpp.c as written: in a box with more columns than rows the last
      column is never visited, so it stays 0 in the lower chain and c in the upper one,
      the two chains never meet, and the loop runs for as many doublings as it is
      given. */
  lemma BppAsWrittenNeverCoalesces(src: Source, seeds: Seeds, a: int, b: int, c: int, initial: int, buf: Buffer, fuel: nat)
    requires 1 <= a < b && c >= 1 && 1 <= initial <= CInitialMax
    ensures BppMainAsWritten(src, seeds, a, b, c, initial, buf, fuel).Ok?
    ensures BppMainAsWritten(src, seeds, a, b, c, initial, buf, fuel).value.Exhausted?
  {
    var m := Boxes(a, b, c, a);
    var t := Site(0, b - 1);
    forall i | 0 <= i < |Sites(m)|
      ensures Sites(m)[i] != t
    {
      BlockCovers(0, a, 0, a, Sites(m)[i].row, Sites(m)[i].col);
    }
    RunCftpNeverStops(m, src, seeds, CheckInitial(initial, CInitialMax).value, buf, fuel, t);
  }

  /** The smallest instance: a 1 x 2 box with parts at most 1. */
  lemma BppAsWrittenExample(src: Source, seeds: Seeds, buf: Buffer, fuel: nat)
    ensures BppMainAsWritten(src, seeds, 1, 2, 1, DefaultInitial, buf, fuel).value.Exhausted?
  {
    BppAsWrittenNeverCoalesces(src, seeds, 1, 2, 1, DefaultInitial, buf, fuel);
  }

  /** With the full sweep, a finished run of bpp.c returns a plane partition in the
      box that every chain started earlier also reaches. */
  lemma BppMainSound(src: Source, seeds: Seeds, a: int, b: int, c: int, initial: int, buf: Buffer, fuel: nat)
    ensures var r := BppMain(src, seeds, a, b, c, initial, buf, fuel);
      r.Ok? && r.value.Coalesced? ==>
        && PlanePartition.IsPP(r.value.sample, a, b, c)
        && forall g, T': int :: PlanePartition.IsPP(g, a, b, c) && r.value.timeSteps / 2 <= T'
             ==> RunFrom(Boxes(a, b, c, b), src, seeds, g, T') == r.value.sample
  {
    if a >= 1 && b >= 1 && c >= 1 && 1 <= initial <= CInitialMax {
      RunCftpSound(Boxes(a, b, c, b), src, seeds, CheckInitial(initial, CInitialMax).value, buf, fuel);
    }
  }

  /** The square-ice extremal states coincide exactly when the side is at most 2. */
  lemma IceExtremesMeetIffSmall(n: nat)
    ensures SquareIce.MinHt(n) == SquareIce.MaxHt(n) <==> n <= 2
  {
    if n >= 3 {
      assert SquareIce.MinHt(n)[1][1] == 1 && SquareIce.MaxHt(n)[1][1] == 3;
    } else {
      var lo, hi := SquareIce.MinHt(n), SquareIce.MaxHt(n);
      forall r | 0 <= r < n
        ensures lo[r] == hi[r]
      {
      }
    }
  }

  /** Order 1: both chains start at [[1, 2], [2, 1]], no attempt runs, and that grid
      is returned with the rounded starting horizon. */
  lemma SampleAsmOrderOne(src: Source, seeds: Seeds, initial: int, buf: Buffer, fuel: nat)
    ensures SampleAsm(src, seeds, 1, initial, buf, fuel) == Ok(Coalesced([[1, 2], [2, 1]], RoundUpPow2(initial)))
  {
    var m := Ice(2);
    IceExtremesMeetIffSmall(2);
    VolumeDiffZeroIffEqual(Bottom(m), Top(m));
    assert Top(m) == [[1, 2], [2, 1]] by {
      assert Top(m)[0] == [1, 2] && Top(m)[1] == [2, 1];
    }
  }

  /** A finished square-ice run returns a height function whose extracted matrix is an
      alternating sign matrix, and which every chain started at the reported horizon
      or earlier also reaches. */
  lemma IceRunSound(n: nat, src: Source, seeds: Seeds, t: int, buf: Buffer, fuel: nat)
    requires n >= 1 && IsPow2(t)
    ensures var o := RunCftp(Ice(n), src, seeds, t, buf, fuel);
      o.Coalesced? ==>
        && SquareIce.IsHeightFn(o.sample, n)
        && AsmExtract.IsAsm(AsmExtract.ExtractAsm(o.sample, n), n - 1)
        && forall g, T': int :: SquareIce.IsHeightFn(g, n) && o.timeSteps / 2 <= T'
             ==> RunFrom(Ice(n), src, seeds, g, T') == o.sample
  {
    var o := RunCftp(Ice(n), src, seeds, t, buf, fuel);
    RunCftpSound(Ice(n), src, seeds, t, buf, fuel);
    if o.Coalesced? {
      AsmExtract.AsmOfHeightFn(o.sample, n);
    }
  }

  /** A finished run of `main` in rasm_basic.cpp, where the height grid has side
      order + 1, returns a height function whose matrix is an ASM of order `order`,
      and which every chain started at half the final horizon or earlier reaches. */
  lemma RasmMainSound(src: Source, seeds: Seeds, order: int, initial: int, buf: Buffer, fuel: nat)
    ensures var r, n := RasmMain(src, seeds, order, initial, buf, fuel), order + 1;
      r.Ok? && r.value.Coalesced? ==>
        && SquareIce.IsHeightFn(r.value.sample, n)
        && AsmExtract.IsAsm(AsmExtract.ExtractAsm(r.value.sample, n), order)
        && forall g, T': int :: SquareIce.IsHeightFn(g, n) && r.value.timeSteps / 2 <= T'
             ==> RunFrom(Ice(n), src, seeds, g, T') == r.value.sample
  {
    var r, n := RasmMain(src, seeds, order, initial, buf, fuel), order + 1;
    if r.Ok? {
      var o := RunCftp(Ice(n), src, seeds, RoundUpPow2(initial), buf, fuel);
      IceRunSound(n, src, seeds, RoundUpPow2(initial), buf, fuel);
      if o.Coalesced? {
        forall g, T': int | SquareIce.IsHeightFn(g, n) && o.timeSteps / 2 <= T'
          ensures RunFrom(Ice(n), src, seeds, g, T') == o.sample
        {
        }
      }
    }
  }

  /** A finished run of `main` in squareice.c, where the order is the side of the
      grid, returns a height function whose matrix is an ASM of order order - 1. */
  lemma SquareIceMainSound(src: Source, seeds: Seeds, order: int, initial: int, buf: Buffer, fuel: nat)
    ensures var r := SquareIceMain(src, seeds, order, initial, buf, fuel);
      r.Ok? && r.value.Coalesced? ==>
        && SquareIce.IsHeightFn(r.value.sample, order)
        && AsmExtract.IsAsm(AsmExtract.ExtractAsm(r.value.sample, order), order - 1)
  {
    if order >= 1 && 1 <= initial <= CInitialMax {
      IceRunSound(order, src, seeds, CheckInitial(initial, CInitialMax).value, buf, fuel);
    }
  }
}
