/** Ceiling base-2 logarithm and powers of two, as used by the sampler to pick the
    random stream of each time step and to round the initial number of steps up to a
    power of two. */
module CeilLog {

  /** 2^k. */
  function Pow2(k: nat): (r: nat)
    ensures r >= 1
  {
    if k == 0 then 1 else 2 * Pow2(k - 1)
  }

  /** Independent definition of "x is a power of two": repeatedly halvable down to 1. */
  predicate IsPow2(x: int)
    decreases if x < 0 then 0 else x
  {
    x == 1 || (x >= 2 && x % 2 == 0 && IsPow2(x / 2))
  }

  /** The number of right shifts that bring y down to 0, i.e. the shift loop of
      `log2_int` run on y. Its contract is the bit-length characterisation. */
  function BitLength(y: nat): (r: nat)
    ensures y < Pow2(r)
    ensures y == 0 || Pow2(r - 1) <= y
    ensures y == 0 <==> r == 0
  {
    if y == 0 then 0 else 1 + BitLength(y / 2)
  }

  /** `log2_int(x)`: decrement x when it is nonzero, then count the shifts until it
      is no longer positive. For x >= 1 this is the ceiling of log2 x. */
  function Log2Int(x: int): (r: nat)
    ensures x >= 1 ==> x <= Pow2(r)
    ensures x >= 2 ==> r >= 1 && Pow2(r - 1) < x
    ensures x <= 1 ==> r == 0
  {
    if x <= 0 then 0 else BitLength(x - 1)
  }

  /** The shift loop of `log2_int`, as written. */
  method Log2IntLoop(x0: int) returns (ans: nat)
    ensures ans == Log2Int(x0)
    ensures x0 >= 1 ==> x0 <= Pow2(ans) && (ans == 0 || Pow2(ans - 1) < x0)
  {
    var x := x0;
    ans := 0;
    if x != 0 {
      x := x - 1;
    }
    while x > 0
      invariant x0 <= 0 ==> x < 0 || (x0 == 0 && x == 0)
      invariant x0 <= 0 ==> ans == 0
      invariant x0 >= 1 ==> x >= 0 && ans + BitLength(x) == Log2Int(x0)
      decreases x
    {
      x := x / 2;
      ans := ans + 1;
    }
  }

  lemma {:induction false} Pow2Monotone(i: nat, j: nat)
    requires i <= j
    ensures Pow2(i) <= Pow2(j)
    decreases j
  {
    if i < j {
      Pow2Monotone(i, j - 1);
    }
  }

  lemma {:induction false} Pow2Add(i: nat, j: nat)
    ensures Pow2(i + j) == Pow2(i) * Pow2(j)
    decreases j
  {
    if j > 0 {
      Pow2Add(i, j - 1);
      assert Pow2(i + j) == 2 * Pow2(i + j - 1);
    }
  }

  /** The ceiling log is the unique k with 2^(k-1) < x <= 2^k. */
  lemma Log2IntUnique(x: int, k: nat)
    requires x >= 1 && x <= Pow2(k)
    requires k == 0 || Pow2(k - 1) < x
    ensures Log2Int(x) == k
  {
    var r := Log2Int(x);
    if r < k {
      Pow2Monotone(r, k - 1);
    } else if r > k {
      Pow2Monotone(k, r - 1);
    }
  }

  /** `log2_int(2^k) == k`. */
  lemma Log2IntOfPow2(k: nat)
    ensures Log2Int(Pow2(k)) == k
  {
    if k > 0 {
      assert Pow2(k - 1) < Pow2(k);
    }
    Log2IntUnique(Pow2(k), k);
  }

  /** Doubling a positive argument adds exactly one to the ceiling log. */
  lemma Log2IntDouble(x: int)
    requires x >= 1
    ensures Log2Int(2 * x) == Log2Int(x) + 1
  {
    var r := Log2Int(x);
    Log2IntUnique(2 * x, r + 1);
  }

  lemma Log2IntMonotone(x: int, y: int)
    requires x <= y
    ensures Log2Int(x) <= Log2Int(y)
  {
    if x >= 2 && Log2Int(x) > Log2Int(y) {
      Pow2Monotone(Log2Int(y), Log2Int(x) - 1);
    }
  }

  /** The ceiling log changes between s and s + 1 exactly when s is a power of two. */
  lemma Log2IntStep(s: int)
    requires s >= 1
    ensures Log2Int(s + 1) != Log2Int(s) <==> s == Pow2(Log2Int(s))
    ensures Log2Int(s + 1) != Log2Int(s) ==> Log2Int(s + 1) == Log2Int(s) + 1
  {
    var r := Log2Int(s);
    if s == Pow2(r) {
      Log2IntUnique(s + 1, r + 1);
    } else {
      assert s < Pow2(r);
      Log2IntUnique(s + 1, r);
    }
  }

  lemma {:induction false} Pow2IsPow2(k: nat)
    ensures IsPow2(Pow2(k))
  {
    if k > 0 {
      Pow2IsPow2(k - 1);
      assert Pow2(k) / 2 == Pow2(k - 1);
    }
  }

  lemma {:induction false} IsPow2IsSomePow2(x: int)
    requires IsPow2(x)
    ensures x == Pow2(Log2Int(x))
    decreases if x < 0 then 0 else x
  {
    if x != 1 {
      IsPow2IsSomePow2(x / 2);
      var k := Log2Int(x / 2);
      assert x == 2 * Pow2(k) == Pow2(k + 1);
      Log2IntOfPow2(k + 1);
    }
  }

  /** There is no power of two strictly between T and 2T. */
  lemma NoPow2Between(T: int, j: int)
    requires IsPow2(T) && IsPow2(j) && T <= j < 2 * T
    ensures j == T
  {
    IsPow2IsSomePow2(T);
    IsPow2IsSomePow2(j);
    Log2IntMonotone(T, j);
  }

  /** The source's power-of-two test `1 << log2_int(x) == x` agrees with `IsPow2`. */
  lemma PowerOfTwoTest(x: int)
    ensures Pow2(Log2Int(x)) == x <==> IsPow2(x)
  {
    if IsPow2(x) {
      IsPow2IsSomePow2(x);
    }
    if Pow2(Log2Int(x)) == x {
      Pow2IsPow2(Log2Int(x));
    }
  }

  /** `1 << log2_int(x)`: the least power of two that is at least x. */
  function RoundUpPow2(x: int): (r: nat)
    ensures IsPow2(r) && x <= r
    ensures IsPow2(x) ==> r == x
  {
    var k := Log2Int(x);
    Pow2IsPow2(k);
    PowerOfTwoTest(x);
    Pow2(k)
  }

  /** No power of two at least x lies below `RoundUpPow2(x)`. */
  lemma RoundUpPow2IsLeast(x: int, j: nat)
    requires x <= Pow2(j)
    ensures RoundUpPow2(x) <= Pow2(j)
  {
    var k := Log2Int(x);
    if j < k {
      Pow2Monotone(j, k - 1);
    } else {
      Pow2Monotone(k, j);
    }
  }

  /** The examples documented next to `log2_int`. */
  lemma Log2IntExamples()
    ensures Log2Int(17) == 5 && Log2Int(16) == 4 && Log2Int(9) == 4 && Log2Int(8) == 3
  {
    Log2IntUnique(17, 5);
    Log2IntUnique(16, 4);
    Log2IntUnique(9, 4);
    Log2IntUnique(8, 3);
  }

  /** a * b by repeated addition. Stream positions are a count times a width; in
      this form the proofs about them stay in linear arithmetic. */
  function Mul(a: nat, b: nat): nat
  {
    if a == 0 then 0 else Mul(a - 1, b) + b
  }

  lemma {:induction false} MulIsProduct(a: nat, b: nat)
    ensures Mul(a, b) == a * b
  {
    if a > 0 {
      MulIsProduct(a - 1, b);
      assert (a - 1) * b + b == a * b;
    }
  }

  /** Moving a factor of two from one side of a product to the other. */
  lemma DoubleShift(x: int, y: int)
    ensures (2 * x) * y == x * (2 * y)
  {
  }
}
