# Random alternating sign matrices by coupling from the past

The repository samples alternating sign matrices (ASMs) and boxed plane partitions
exactly from their uniform distributions. It uses the Propp–Wilson monotone coupling
from the past. An ASM of order n is represented by its square-ice height function: an
(n + 1) x (n + 1) integer grid whose adjacent entries differ by one, with a fixed
domain-wall boundary. A single-site "flip" moves a locally extreme site up or down
according to a random coin. Two chains start at the minimum and the maximum height
function. Both are driven by the same coins, from time -T up to time 0. If they have
not met at time 0, T is doubled and the process restarts, reusing the randomness of
the shorter run for the last T steps. The meeting point is the sample. From it the
programs print the ASM, its corner-sum matrix, or the heights themselves.

The same kernel appears several times:
- twice in C++: `src/rasm_basic.cpp` (command-line program) and `src/rasm_lib.cpp`
  (`sample_asm`, library entry point);
- once in C: `squareice.c`, where the order argument is the side of the height grid;
- `bpp.c`, which runs the same coupling on plane partitions in an a x b x c box;
- `src/rasm.cpp`, which prints the results.

This project models all of it as pure functions over grid values and proves the
properties the sampler relies on. The modules are:

- `CeilLog` (`ceil_log.dfy`): `log2_int` / `log2` as the ceiling logarithm, and the
  rounding of the starting horizon to a power of two.
- `Grids` (`grids.dfy`): grids, the pointwise order, and the volume difference
  (`volume_diff` / `different`).
- `BitStream` (`bit_stream.dfy`): the buffered bit readers `random_pm1` and
  `my_r250_bit` over an abstract seeded word generator, and their reseeding.
- `SquareIce` (`square_ice.dfy`): height functions, the extremal states, the flip,
  and the checkerboard sweep.
- `PlanePartition` (`plane_partition.dfy`): plane partitions in a box, the two box
  moves, and their monotonicity.
- `Coupling` (`coupling.dfy`): `evolve_ht` and `run_cftp` as written (the inner and
  outer loops with reseeding). It also holds a reference evolution indexed by time
  step, and proves that the two agree, that randomness is reused, and that the
  result is sound.
- `AsmExtract` (`asm_extract.dfy`): the values that `print_asm`, `print_csum` and
  `print_asm_to_file` print. It proves that the printed matrix is an ASM and that
  extraction is a bijection between height functions and ASMs.
- `Sampler` (`sampler.dfy`): the entry points with their argument checks (`main` of
  each program, `sample_asm`), and the `bpp.c` column-bound defect.

The pseudo-random generators (mt19937, r250) are a parameter
`word(seed, i)`: the i-th word after seeding with `seed`. The generator's width is
32 bits in the C++ copies and 16 bits in the C copies. The table of 256 reseeding
seeds is a parameter too. The doubling loop, which terminates only with probability
one, takes a `fuel` bound on the number of attempts. It reports `Exhausted` when
the fuel runs out.

## Notes on the code
- The coins of a time step are not looked up by time. The stream is
  reseeded with `seeds[log2(s)]` whenever `log2(step)` changes, and then read
  sequentially. `Coupling.StepCoins` gives the resulting coin vector of every step
  in closed form, and `Coupling.AttemptsShareRandomness` proves that it is reused
  across attempts.
- The starting horizon defaults to 128.
- The programs never check the extracted matrix. `AsmExtract.AsmOfHeightFn` proves
  that it is always an ASM.
- `sample_asm` does not range-check `initial`. A value of 0 or below is rounded to 1,
  because `log2_int` returns 0 for it.

## Model

| member | source | states |
|---|---|---|
| CeilLog.Log2Int | src/rasm_basic.cpp:335-345 | for x >= 1 the result r is the ceiling of log2 x: 2^(r-1) < x <= 2^r; for x <= 1 it is 0 |
| CeilLog.Log2IntLoop | src/rasm_lib.cpp:164-174 | the decrement-then-shift loop returns the ceiling log (the same loop is `log2` at squareice.c:246-255 and bpp.c:207-216) |
| CeilLog.BitLength | src/rasm_basic.cpp:340-343 | the number of right shifts that empty y is its bit length: y < 2^r, 2^(r-1) <= y, and r = 0 iff y = 0 |
| CeilLog.Log2IntExamples | src/rasm_basic.cpp:335-336 | the documented values log2_int(17) = 5, (16) = 4, (9) = 4, (8) = 3 |
| CeilLog.Log2IntUnique | src/rasm_basic.cpp:335-345 | the ceiling log is the only k with 2^(k-1) < x <= 2^k |
| CeilLog.Log2IntOfPow2 | src/rasm_basic.cpp:335-345 | log2_int(2^k) = k |
| CeilLog.Log2IntDouble | src/rasm_basic.cpp:335-345 | doubling a positive argument raises the ceiling log by exactly one |
| CeilLog.Log2IntMonotone | src/rasm_basic.cpp:335-345 | the ceiling log is monotone |
| CeilLog.Log2IntStep | src/rasm_basic.cpp:505-506 | log2_int(s + 1) differs from log2_int(s) exactly when s is a power of two, and then by one; this is when the countdown reseeds |
| CeilLog.PowerOfTwoTest | src/rasm_basic.cpp:198 | the test `1 << log2_int(x) == x` holds exactly for powers of two |
| CeilLog.Pow2IsPow2 | src/rasm_basic.cpp:198-199 | every 2^k passes the independent halving definition of a power of two |
| CeilLog.IsPow2IsSomePow2 | src/rasm_basic.cpp:198-199 | every power of two is 2^log2_int(x) |
| CeilLog.NoPow2Between | src/rasm_basic.cpp:529 | no power of two lies strictly between T and 2T, so doubling visits every power of two from the start |
| CeilLog.RoundUpPow2 | src/rasm_basic.cpp:198-199 | `1 << log2_int(x)` is a power of two that is at least x, and equals x when x already is one |
| CeilLog.RoundUpPow2IsLeast | src/rasm_basic.cpp:198-199 | no power of two that is at least x lies below the rounded value |
| CeilLog.Pow2Monotone | src/rasm_basic.cpp:198-199 | 2^i <= 2^j for i <= j |
| Grids.Block | src/rasm_basic.cpp:471-472 | the row-major visiting order of the nested row/column loops has rows * cols sites, all inside the rectangle |
| Grids.BlockCovers | src/rasm_basic.cpp:471-472 | the nested loops visit every site of the rectangle |
| Grids.LeAntisymmetric | src/rasm_basic.cpp:495 | two grids each below the other are equal |
| Grids.RowDiffZeroIffEqual | src/rasm_basic.cpp:436-438 | the inner sum of max - min over one row is nonnegative under the order, and zero iff the rows are equal |
| Grids.VolumeDiffZeroIffEqual | src/rasm_lib.cpp:195-203 | under min <= max pointwise, `volume_diff` is nonnegative and is 0 iff the two grids are equal |
| BitStream.Bit | src/rasm_basic.cpp:458 | `last_rand & (1 << offset)` tested as a bit: 0 or 1 |
| BitStream.Coin | squareice.c:373 | the coin is +1 or -1 and equals 2 * bit - 1, so `random_pm1`'s `? 1 : -1` and the C copies' `bit * 2 - 1` agree |
| BitStream.DivMod | src/rasm_basic.cpp:452-458 | the word index and bit offset of a position: the offset is below the width |
| BitStream.DivModIsDivision | src/rasm_basic.cpp:452-458 | the word index is k div width and the bit offset is k mod width |
| BitStream.DivModOfWords | src/rasm_basic.cpp:452-458 | q whole words plus r < width bits are word q, bit r |
| BitStream.Reseed | src/rasm_basic.cpp:509-510 | after `rn_gen = mt19937(seed); offset = 32` the buffer counts as empty |
| BitStream.ReseedCanonical | squareice.c:423-426 | `my_r250_init` leaves the reader at position 0 of the new stream |
| BitStream.NextCoin | src/rasm_basic.cpp:449-459 | one call refills the buffer when all of its bits are read, returns +1 or -1, keeps the offset within 1..width, and keeps the seed |
| BitStream.NextCoinFollowsStream | src/rasm_basic.cpp:449-459 | at stream position k a call returns reference coin k and moves to position k + 1 |
| BitStream.DrawN | squareice.c:428-434 | n calls return n coins, each +1 or -1 |
| BitStream.DrawNStaysCanonical | squareice.c:428-434 | n calls from position k leave the reader at position k + n |
| BitStream.DrawNFollowsStream | squareice.c:428-434 | n calls from position k return reference coins k .. k + n - 1 |
| BitStream.StreamSliceAt | src/rasm_basic.cpp:449-459 | entry i of a reference slice from k is reference coin k + i |
| BitStream.CppReaderFollowsStream | src/rasm_basic.cpp:449-459 | with 32-bit words, the k-th call after a reseed tests bit k mod 32 of word k div 32 |
| BitStream.CReaderFollowsStream | squareice.c:423-434 | with 16-bit words, the k-th call after `my_r250_init` tests bit k mod 16 of word k div 16 |
| BitStream.ReseededReaderFollowsStream | src/rasm_basic.cpp:449-459 | after a reseed, the k-th call returns +1 iff bit k mod width of generator word k div width is set (width 32 here, 16 in `my_r250_bit`) |
| SquareIce.MinHt | src/rasm_basic.cpp:419-424 | the minimum state is square, with entry abs(r - c) + 1 |
| SquareIce.MaxHt | src/rasm_basic.cpp:425-429 | the maximum state is square, with entry n - abs(n - c - r - 1) |
| SquareIce.MinHtIsHeightFn | squareice.c:343-348 | `createmin` gives a height function with the domain-wall boundary |
| SquareIce.MaxHtIsHeightFn | squareice.c:352-357 | `createmax` gives a height function with the domain-wall boundary |
| SquareIce.RowDistance | src/rasm_basic.cpp:419-430 | in a height function, entries of a row differ by at most their distance |
| SquareIce.ColDistance | src/rasm_basic.cpp:419-430 | in a height function, entries of a column differ by at most their distance |
| SquareIce.HeightFnBetweenExtremes | src/rasm_lib.cpp:182-193 | every height function with the fixed boundary lies pointwise between the minimum and the maximum state |
| SquareIce.MinBelowMax | src/rasm_basic.cpp:419-430 | the minimum state lies below the maximum state |
| SquareIce.FlipSite | src/rasm_basic.cpp:473-478 | a site update writes only its own site; on a valid grid it sets an extreme site to min-neighbour + 1 for coin +1 and max-neighbour - 1 for coin -1 |
| SquareIce.FlipSitePreservesHeightFn | src/rasm_lib.cpp:236-241 | an update with a coin of +1 or -1 maps height functions with the fixed boundary to height functions with the same boundary |
| SquareIce.FlipSiteMonotone | src/rasm_basic.cpp:474-478 | with a shared coin, valid A <= B stays A' <= B' |
| SquareIce.SamePhaseNotAdjacent | src/rasm_basic.cpp:473 | distinct sites with the same (row + col) parity are not neighbours |
| SquareIce.FlipSitesCommute | src/rasm_basic.cpp:470-473 | updates at two distinct sites of one phase commute, so the order within a phase does not matter |
| SquareIce.OfPhase | src/rasm_basic.cpp:473 | the sites of one phase are a subsequence of the visited sites (same order), all of that parity |
| SquareIce.OfPhaseMembers | src/rasm_basic.cpp:473 | a phase holds exactly the visited sites of that parity |
| SquareIce.PhasesSplit | src/rasm_basic.cpp:470-473 | the two phases together have as many sites as the interior |
| SquareIce.SweepSites | src/rasm_basic.cpp:470-472 | a sweep visits only interior sites 1 .. n - 2, so the boundary is never written |
| SquareIce.SweepSitesCount | squareice.c:368-373 | a sweep visits every interior site and draws (n - 2)^2 coins whatever the state |
| PlanePartition.EmptyBox | bpp.c:234-239 | the all-0 array is a plane partition in the box |
| PlanePartition.EmptyBoxIsLeast | bpp.c:234-239 | every plane partition in the box lies above the all-0 array |
| PlanePartition.FullBox | bpp.c:243-248 | the all-c array is a plane partition in the box |
| PlanePartition.FullBoxIsGreatest | bpp.c:243-248 | every plane partition in the box lies below the all-c array |
| PlanePartition.FlippableUpIffStaysPP | bpp.c:293-307 | `flippable_up` (c past the top and left edges) holds iff adding a box gives a plane partition in the box |
| PlanePartition.FlippableDownIffStaysPP | bpp.c:312-325 | `flippable_down` (0 past the bottom and right edges) holds iff removing a box gives a plane partition in the box |
| PlanePartition.BoxMove | bpp.c:261-274 | one cell of `evolve` changes only that cell |
| PlanePartition.BoxMovePreservesPP | bpp.c:261-274 | a move keeps a plane partition in the box; with coin 1 the part grows by one iff the grown array is valid, otherwise it shrinks by one iff the shrunk array is valid |
| PlanePartition.BoxMoveMonotone | bpp.c:263-274 | with a shared coin, A <= B stays A' <= B' |
| Coupling.SeedAt | src/rasm_basic.cpp:509 | `seeds[p]` within the table |
| Coupling.Bottom | src/rasm_basic.cpp:499 | the lower chain starts at a valid state (minimum height function, or the empty box) |
| Coupling.Top | bpp.c:168-169 | the upper chain starts at a valid state (maximum height function, or the full box) |
| Coupling.BetweenExtremes | bpp.c:167-169 | every state of either chain lies between the two starting states |
| Coupling.Sites | src/rasm_basic.cpp:470-473 | every site a sweep visits is a legal site of the model |
| Coupling.PerStepCount | src/rasm_basic.cpp:470-479 | one coin per visited site: (side - 2)^2 for square ice, rows * swept columns for the box |
| Coupling.FlipPreservesInv | src/rasm_lib.cpp:236-241 | a single-site update keeps a state a state |
| Coupling.FlipMonotone | bpp.c:263-274 | a single-site update with a shared coin is monotone |
| Coupling.FlipKeepsOthers | src/rasm_basic.cpp:476-478 | an update writes only its own site |
| Coupling.ApplySitesPreservesInv | src/rasm_basic.cpp:470-479 | a sequence of site updates keeps a state a state |
| Coupling.ApplySitesMonotone | src/rasm_basic.cpp:470-479 | a sequence of site updates with shared coins is monotone |
| Coupling.ApplySitesKeepsUnvisited | src/rasm_basic.cpp:470-479 | a site no update visits keeps its value |
| Coupling.SweepPreservesInv | src/rasm_lib.cpp:224-243 | `evolve_ht` maps states to states |
| Coupling.SweepMonotone | src/rasm_lib.cpp:224-243 | `evolve_ht` with shared coins keeps two ordered states ordered |
| Coupling.SweepKeepsUnvisited | bpp.c:258-259 | a sweep leaves every unvisited site unchanged |
| Coupling.SweepBuf | src/rasm_basic.cpp:470-479 | one coin is drawn per visited site |
| Coupling.SweepBufDrawsThenFlips | src/rasm_basic.cpp:474-478 | drawing inside the site loop equals drawing one coin per site first: both chains see exactly the drawn coins |
| Coupling.EvolveBuf | src/rasm_basic.cpp:461-480 | one call of `evolve_ht` draws exactly PerStep coins |
| Coupling.EvolveBufSweeps | squareice.c:362-382 | one call of `evolve` reads the next PerStep coins of the stream and sweeps both chains with them |
| Coupling.RunCons | src/rasm_basic.cpp:504-522 | the first step of a run is a sweep with the first coins |
| Coupling.RunPreservesInv | src/rasm_basic.cpp:504-522 | a run of sweeps keeps a state a state |
| Coupling.RunMonotone | src/rasm_basic.cpp:504-522 | runs with shared coins keep two ordered states ordered |
| Coupling.RunAppend | src/rasm_basic.cpp:504-522 | running two traces one after the other is running their concatenation |
| Coupling.CoalescenceIsSound | src/rasm_lib.cpp:259-280 | once the extremal chains meet after the sweeps of a trace, every state run through any earlier sweeps and then that trace ends at the same grid |
| Coupling.StepCoins | src/rasm_basic.cpp:505-520 | the coins of time step s: PerStep coins of stream log2_int(s), from position (2^log2_int(s) - s) * PerStep |
| Coupling.Countdown | src/rasm_basic.cpp:504-522 | the countdown from s has s entries |
| Coupling.CountdownAt | src/rasm_basic.cpp:504-522 | the entry for step t of a countdown from s sits at index s - t |
| Coupling.CountdownSuffix | src/rasm_basic.cpp:504-522 | the last t entries of a countdown from s are the countdown from t |
| Coupling.ScheduleTrace | src/rasm_basic.cpp:504-522 | the scheduled coins of steps s .. 1 form a trace of s coin vectors |
| Coupling.ScheduleTraceCons | src/rasm_basic.cpp:504-522 | the schedule from -s starts with the coins of step s |
| Coupling.ScheduleTraceAt | src/rasm_basic.cpp:504-522 | the schedule's entry for step t is StepCoins(t) |
| Coupling.ScheduleTraceSuffix | src/rasm_lib.cpp:268-279 | the last t steps of the schedule from -s are the schedule from -t |
| Coupling.CoalescenceFromIsSound | src/rasm_lib.cpp:259-280 | once the extremal chains started at -T meet, every state started at any earlier -T' ends at the same grid |
| Coupling.CoalescenceIsMonotone | src/rasm_lib.cpp:259-280 | coalescence from -T implies coalescence from every earlier start |
| Coupling.InnerLoop | src/rasm_basic.cpp:504-522 | the countdown loop as written runs one sweep per step |
| Coupling.AttemptLoop | src/rasm_basic.cpp:501-522 | the countdown loop with the sampler's sweep runs one sweep per step |
| Coupling.Attempt | src/rasm_basic.cpp:496-522 | an attempt from -T runs T sweeps |
| Coupling.TraceCons | src/rasm_basic.cpp:504-522 | prepending a coin vector keeps a trace a trace |
| Coupling.EvolverEvolves | src/rasm_lib.cpp:224-243 | `evolve_ht` sweeps both chains with the coins it draws, and those are the next PerStep coins of the stream |
| Coupling.RunIsRunWith | src/rasm_basic.cpp:504-522 | the generic run with the model's sweep is the model's run |
| Coupling.InnerLoopRuns | src/rasm_basic.cpp:504-522 | whatever the stream state, the loop runs both chains through the sweeps of the coins it draws |
| Coupling.AttemptLoopRuns | src/rasm_basic.cpp:504-522 | the sampler's loop runs both chains through the reference evolution with the coins it draws |
| Coupling.ScheduledBuffer | src/rasm_basic.cpp:505-511 | on schedule, the buffer used at step s stands at position StepOffset of stream log2_int(s) |
| Coupling.NextOnSchedule | src/rasm_basic.cpp:520-521 | after the coins of step s the stream stands where step s - 1 expects it |
| Coupling.ScheduledDraw | src/rasm_basic.cpp:505-521 | on schedule, step s draws StepCoins(s) and leaves the stream on schedule for s - 1 |
| Coupling.InnerLoopDraws | src/rasm_basic.cpp:504-522 | the coins the loop reads do not depend on the chains it evolves |
| Coupling.CoinLoopFollowsSchedule | src/rasm_basic.cpp:504-522 | on schedule, every remaining step s reads StepCoins(s) |
| Coupling.AttemptLoopFollowsSchedule | src/rasm_basic.cpp:504-522 | on schedule, the loop as written draws StepCoins(s) at each step s |
| Coupling.AttemptFollowsSchedule | src/rasm_lib.cpp:260-279 | an attempt from a power-of-two -T draws the scheduled coins and computes the reference evolution of both extremal states |
| Coupling.AttemptDrawsSchedule | src/rasm_lib.cpp:265-276 | the coins of an attempt from a power-of-two horizon are the schedule's, whatever state the generator was left in |
| Coupling.DoubleIsPow2 | src/rasm_basic.cpp:529 | doubling a power of two gives a power of two |
| Coupling.AttemptsShareRandomness | src/rasm_lib.cpp:268-279 | for power-of-two T, the last T steps of the attempt from -2T use exactly the coins of the attempt from -T |
| Coupling.AttemptCoinsAt | src/rasm_lib.cpp:268-279 | in an attempt from a power-of-two -T, step s sweeps with StepCoins(s) |
| Coupling.CoalescedAttemptIsReproduced | src/rasm_lib.cpp:259-280 | if the attempt from -T ends with min == max, the attempt from -2T ends with both chains at that same grid |
| Coupling.DoublingSearchFindsFirst | src/rasm_basic.cpp:494-530 | doubling from a power of two finds the least passing power of two, or after fuel tries reports T * 2^fuel with every power before it failing |
| Coupling.ExtremesStayOrdered | src/rasm_basic.cpp:494-530 | after the evolution from -T both extremal chains are states and still ordered |
| Coupling.AttemptDecides | src/rasm_basic.cpp:495-522 | after an attempt the chains are ordered states, `volume_diff` is 0 iff they are equal iff they coalesce from -T, and the sample is the evolved top state |
| Coupling.OuterLoopMatchesSearch | src/rasm_basic.cpp:494-530 | an outer loop whose attempts decide `ok` returns what the doubling search for `ok` finds |
| Coupling.RunCftpMatchesSearch | src/rasm_basic.cpp:482-537 | `run_cftp` returns at once when the starting states agree, and otherwise stops at the first coalescing horizon among initial, 2 initial, 4 initial, ... |
| Coupling.SearchResult | src/rasm_basic.cpp:494-530 | the result carries timeSteps = 2h for the least coalescing power-of-two horizon h >= initial, with the top chain's value there; on giving up, every horizon before the last failed |
| Coupling.RunCftpSound | src/rasm_lib.cpp:245-290 | a finished run returns a valid state that every state started from the final horizon or earlier also reaches at time 0 |
| Coupling.RunKeepsUnvisited | bpp.c:163-188 | a run leaves every unvisited site unchanged |
| Coupling.AttemptLoopKeepsUnvisited | bpp.c:165-183 | an attempt leaves every unvisited site unchanged in both chains |
| Coupling.AttemptLoopPreservesOrder | bpp.c:165-183 | every attempt keeps both chains among the states and in order |
| Coupling.AttemptKeepsApart | bpp.c:164-188 | the chains of an attempt still differ at an unvisited site where the starting states differ |
| Coupling.OuterLoopNeverStops | bpp.c:164 | if no attempt ends with zero volume difference, the loop never stops |
| Coupling.RunCftpNeverStops | bpp.c:164-188 | the sampler never returns when a site where the extremal states differ is left out of the sweep |
| AsmExtract.TruncDiv2 | src/rasm.cpp:271-272 | C's `/ 2` truncates toward zero: the remainder has the sign of the dividend and magnitude at most 1 |
| AsmExtract.ExtractAsm | src/rasm.cpp:268-278 | the printed matrix is (n - 1) x (n - 1), with entry (i, j) computed from the four heights around position (i + 1, j + 1) |
| AsmExtract.AsmEntryExact | squareice.c:283-291 | on a height function the numerator is -2, 0 or 2, so the halving is exact and the entry is -1, 0 or 1 |
| AsmExtract.RowTelescope | src/rasm_basic.cpp:365-375 | twice a row prefix sum is the height drop between two rows at the prefix end, less the drop at column 0 |
| AsmExtract.ColTelescope | src/rasm_basic.cpp:365-375 | twice a column prefix sum telescopes the same way |
| AsmExtract.BlockTelescope | src/rasm.cpp:256-278 | twice a block sum is the height change around the block's corners |
| AsmExtract.AsmOfHeightFn | src/rasm.cpp:268-278 | the matrix printed for a height function has entries in {-1, 0, 1}, row and column prefix sums in {0, 1}, and row and column totals of 1: an ASM |
| AsmExtract.CornerSumIsBlockSum | src/rasm.cpp:256-266 | the printed corner sum (row + col + 2 - h) / 2 is the sum of the ASM entries above and left of the position: the numerator is odd, twice the block sum is row + col + 1 - h, and the truncating halving yields the block sum |
| AsmExtract.HeightOfAsm | src/rasm_basic.cpp:356-363 | the heights rebuilt from corner sums form a square grid |
| AsmExtract.HeightOfAsmOfHeightFn | src/rasm_basic.cpp:356-375 | extraction loses nothing: the height function is rebuilt from its ASM |
| AsmExtract.BlockSumNextCol | src/rasm_basic.cpp:356-363 | widening a block by one column adds that column's prefix sum |
| AsmExtract.ExtractAsmOfHeightOfAsm | src/rasm_basic.cpp:365-375 | every matrix is the printed ASM of the heights built from its corner sums |
| AsmExtract.EmptyBlock | src/rasm_basic.cpp:356-363 | the corner sum in column 0 is 0 |
| AsmExtract.FullBlockRow | src/rasm_basic.cpp:356-363 | the last row of corner sums of an ASM counts the columns |
| AsmExtract.FullBlockCol | src/rasm_basic.cpp:356-363 | the last column of corner sums of an ASM counts the rows |
| AsmExtract.HeightOfAsmIsHeightFn | squareice.c:271-291 | every ASM comes from a height function with the domain-wall boundary, so extraction is a bijection between the two |
| AsmExtract.MinHtAsm | src/rasm.cpp:121-141 | the ASM of the initialised minimum state is the identity matrix |
| AsmExtract.MaxHtAsm | src/rasm.cpp:121-141 | the ASM of the initialised maximum state is the anti-diagonal permutation matrix |
| AsmExtract.PrettyCell | src/rasm.cpp:294-307 | each entry is written to asm_pretty.txt as two characters, the second a blank |
| AsmExtract.PrettyLine | src/rasm_basic.cpp:389-408 | a line of asm_pretty.txt holds one two-character cell per entry, in order |
| AsmExtract.PrettyCellOfHeightFn | src/rasm.cpp:294-307 | on a height function the three-way classification is exact: '+' iff the entry is 1, '-' iff it is -1, blank iff it is 0 |
| Sampler.CppInitialMaxIsPow2 | src/rasm_basic.cpp:193 | the bound 536870912 is 2^29 |
| Sampler.CheckInitial | squareice.c:132-141 | `-initial` is accepted iff it lies in [1, bound]; an accepted value becomes the least power of two at least it, which is below twice it and unchanged for a power of two |
| Sampler.CppInitialFits | src/rasm_basic.cpp:193-202 | an accepted `-initial` stays at most 2^29 after rounding |
| Sampler.RasmMain | src/rasm_basic.cpp:143-278 | the order must be at least 1, then `-initial` must lie in [1, 2^29], otherwise the program refuses to run; when it runs, it runs the coupling on the (order + 1)-sided grid from `-initial` rounded up to a power of two |
| Sampler.SampleAsm | src/rasm_lib.cpp:82-162 | `sample_asm` fails exactly for order < 1, and otherwise returns the run from the rounded horizon on the (order + 1)-sided grid |
| Sampler.SquareIceMain | squareice.c:96-197 | the order must be at least 1, then `-initial` must lie in [1, 10^8]; when it runs, it runs the coupling on the order-sided grid from `-initial` rounded up to a power of two |
| Sampler.BppMain | bpp.c:94-127 | every dimension must be at least 1, then `-initial` must lie in [1, 10^8]; when it runs, it runs the coupling on the a x b x c box with every column of every row swept, from `-initial` rounded up to a power of two |
| Sampler.BppMainAsWritten | bpp.c:258-259 | the program with the column loop bounded by a: the same argument checks, then the coupling with columns 0 .. a - 1 swept; a > b is reported as an invalid dimension |
| Sampler.BppAsWrittenNeverCoalesces | bpp.c:258-259 | with 1 <= a < b the last column is never visited, so the chains never meet and the loop runs out of any fuel |
| Sampler.BppAsWrittenExample | bpp.c:258-259 | the 1 x 2 x 1 box with the default horizon never finishes |
| Sampler.BppSquareAgrees | bpp.c:258-259 | on a square floor the two column bounds agree |
| Sampler.BppMainSound | bpp.c:163-196 | with the full sweep, a finished run returns a plane partition in the box that every chain started earlier also reaches |
| Sampler.IceExtremesMeetIffSmall | src/rasm_lib.cpp:182-193 | the two extremal height functions coincide iff the side is at most 2 |
| Sampler.SampleAsmOrderOne | src/rasm_lib.cpp:259-261 | for order 1 the starting states already agree, no attempt runs, and [[1, 2], [2, 1]] is returned |
| Sampler.IceRunSound | src/rasm_lib.cpp:147-161 | a finished square-ice run returns a height function whose printed matrix is an ASM and which every chain started from the final horizon or earlier also reaches |
| Sampler.RasmMainSound | src/rasm_basic.cpp:267-278 | a finished run of rasm_basic returns a height function of side order + 1 whose printed matrix is an ASM of order `order`, and every chain started at half the final horizon or earlier reaches it |
| Sampler.SquareIceMainSound | squareice.c:196-235 | a finished run of squareice.c returns a height function of side `order` whose printed matrix is an ASM of order `order - 1` |

## Left out

- The generators (mt19937, r250) are not modelled internally. `word(seed, i)` stands
  for them, and the 256 reseeding seeds derived from the master seed are a parameter.
  The master seed (`std::random_device`, `time(0) * getpid()`) is left out too.
- Command-line parsing, `print_options` / `printerror`, `-help`, `-report` progress
  messages, `clock()` timing and the final report line are left out: they are I/O.
- `print_ht` / `drawheight` and the `log10` field widths of `print_csum` are left out.
  They are output formatting with floating point. Only the printed values are modelled.
- asm.txt formatting (`%d` / `%3d`) and the file handling of `print_asm_to_file` are
  left out. Only the asm_pretty.txt cells and the entry values are modelled.
- The Python wrappers (`random_asm.py`, `src/rasm_basic.py`) and `allocate.h` are not
  part of this model: they spawn processes, parse text, and allocate memory.
- Memory management (malloc/free of the chains) is left out. `sample_asm`'s freeing
  of the lower chain and return of the upper one is modelled as returning the upper
  chain's value.
- `int` overflow is not modelled, because integers are unbounded. `time_steps`
  doubling past 2^31 is one case, and `1 << log2_int(x)` for `initial` near 2^31 in
  `sample_asm` is another. `Sampler.CppInitialFits` bounds the rounded value where
  the program range-checks it.
- The `-min_only` / `-max_only` path of src/rasm_basic.cpp:213-230 is left out. It
  prints before `initialize_ht` runs (line 267), so it reads uninitialised memory.
  The src/rasm.cpp version, which initialises first, is modelled by
  `AsmExtract.MinHtAsm` and `AsmExtract.MaxHtAsm`.
- The `-minonly` / `-maxonly` output of squareice.c:160-177 is the same extraction
  on `createmin` / `createmax`, and is covered by the same two lemmas.
- squareice.c `different(minimum, maximum)` sums minimum - maximum, but it is called
  as `different(maximum, minimum)`. It therefore sums max - min, as `Grids.VolumeDiff`
  does.
- bpp.c has the opposite swap: `different(minimum, maximum)` sums maximum - minimum,
  and it is called as `different(maximum, minimum)`, so it sums min - max, the
  negation of `Grids.VolumeDiff`. The loop only tests it against 0, so the model
  uses `Grids.VolumeDiff` for both programs.
- Uniformity of the sample and termination with probability one are left out. They
  are probabilistic statements. The doubling loop instead takes `fuel` attempts and
  reports `Exhausted` when the fuel runs out.
- Coupling.SeedAt: reads 0 past the end of the seeds table, where the program would
  read out of bounds. A horizon that fits in an `int` never asks past entry 31.
- Sampler.BppMainAsWritten: for a > b the program reads past the end of each row,
  which C leaves undefined. The model reports that case as an invalid dimension
  rather than modelling the out-of-bounds read.
- The declaration of `run_cftp` in `src/rasm_lib.h` has an extra parameter. The model
  follows the definition in `src/rasm_lib.cpp`.

## Findings

| source | as written | input that shows it | evidently intended | confidence | as-written member | corrected member |
|---|---|---|---|---|---|---|
| bpp.c:259 | the column loop of `evolve` runs `col < a`, so column b - 1 of an a x b floor with a < b is never visited; it stays 0 in the lower chain and c in the upper one, `different` never reaches 0 and the program never finishes | a = 1, b = 2, c = 1 (any initial) | `col < b`, sweeping the whole floor | not executed | Sampler.BppAsWrittenNeverCoalesces | Sampler.BppMainSound |
