/** The coin stream: `random_pm1` (32-bit words) and `my_r250_bit` (16-bit words)
    both buffer one generator word and hand out its bits least significant first.
    The generator itself (mt19937 or r250) is abstract: `word(seed, i)` is the i-th
    word it produces after being seeded with `seed`. */
module BitStream {
  import opened CeilLog

  /** The number of bits read from each generator word. */
  type Width = w: nat | w >= 1 witness 1

  /** An abstract seeded word generator and the number of bits read from each word. */
  datatype Source = Source(word: (int, nat) -> nat, width: Width)

  /** Bits per word: mt19937 words in the C++ copies, r250 words in the C copies. */
  const CppWordBits: Width := 32
  const CWordBits: Width := 16

  /** Bit b of w, as tested by `last_rand & (1 << b)`: shift right b times and keep
      the lowest bit. */
  function Bit(w: nat, b: nat): (r: nat)
    ensures r == 0 || r == 1
    decreases b
  {
    if b == 0 then w % 2 else Bit(w / 2, b - 1)
  }

  /** (k div w, k mod w), by repeated subtraction. */
  function DivMod(k: nat, w: Width): (p: (nat, nat))
    ensures p.1 < w
    decreases k
  {
    if k < w then (0, k)
    else
      var p := DivMod(k - w, w);
      (p.0 + 1, p.1)
  }

  /** A drawn bit as a coin: `random_pm1` returns +1 for a set bit and -1 otherwise;
      the C copies compute `bit * 2 - 1`, which is the same value. */
  function Coin(bit: nat): (c: int)
    requires bit <= 1
    ensures c == 2 * bit - 1
    ensures c == 1 || c == -1
  {
    if bit == 1 then 1 else -1
  }

  /** The state behind the bit readers: the current seed, the buffered word
      (`last_rand`), the next bit to read (`offset`) and how many words the
      generator has produced since it was seeded. */
  datatype Buffer = Buffer(seed: int, last: nat, offset: nat, drawn: nat)

  /** Reseeding (`rn_gen = mt19937(seed); offset = 32` or `my_r250_init`): the
      generator restarts and the buffer is marked empty. */
  function Reseed(src: Source, buf: Buffer, seed: int): (b: Buffer)
    ensures b.offset == src.width
  {
    buf.(seed := seed, offset := src.width, drawn := 0)
  }

  datatype Drawn = Drawn(coin: int, buf: Buffer)

  /** One call of `random_pm1` / `my_r250_bit`: refill the buffer when all of its bits
      have been read, then read the bit at `offset` and advance. */
  function NextCoin(src: Source, buf: Buffer): (d: Drawn)
    ensures d.coin == 1 || d.coin == -1
    ensures buf.offset <= src.width ==> 1 <= d.buf.offset <= src.width
    ensures d.buf.seed == buf.seed
  {
    var b := if buf.offset == src.width
      then buf.(last := src.word(buf.seed, buf.drawn), offset := 0, drawn := buf.drawn + 1)
      else buf;
    Drawn(Coin(Bit(b.last, b.offset)), b.(offset := b.offset + 1))
  }

  datatype Draws = Draws(coins: seq<int>, buf: Buffer)

  /** n consecutive calls of the bit reader. */
  function DrawN(src: Source, buf: Buffer, n: nat): (d: Draws)
    ensures |d.coins| == n
    ensures forall i :: 0 <= i < n ==> d.coins[i] == 1 || d.coins[i] == -1
    decreases n
  {
    if n == 0 then Draws([], buf)
    else
      var first := NextCoin(src, buf);
      var rest := DrawN(src, first.buf, n - 1);
      Draws([first.coin] + rest.coins, rest.buf)
  }

  /** Reference stream: the k-th coin after seeding with `seed` is decided by bit
      k mod width of the (k div width)-th generator word. */
  function StreamCoin(src: Source, seed: int, k: nat): (c: int)
    ensures c == 1 || c == -1
  {
    var p := DivMod(k, src.width);
    Coin(Bit(src.word(seed, p.0), p.1))
  }

  /** The n reference coins starting at index k of the stream seeded with `seed`. */
  function StreamSlice(src: Source, seed: int, k: nat, n: nat): (s: seq<int>)
    ensures |s| == n
    ensures forall i :: 0 <= i < n ==> s[i] == 1 || s[i] == -1
    decreases n
  {
    if n == 0 then [] else [StreamCoin(src, seed, k)] + StreamSlice(src, seed, k + 1, n - 1)
  }

  /** Entry i of a slice is coin k + i of the stream. */
  lemma {:induction false} StreamSliceAt(src: Source, seed: int, k: nat, n: nat, i: nat)
    requires i < n
    ensures StreamSlice(src, seed, k, n)[i] == StreamCoin(src, seed, k + i)
    decreases n
  {
    if i > 0 {
      StreamSliceAt(src, seed, k + 1, n - 1, i - 1);
    }
  }

  /** The buffer state reached after exactly k coins have been read since seeding
      with `seed`. */
  predicate Canonical(src: Source, buf: Buffer, seed: int, k: nat)
  {
    && buf.seed == seed
    && 1 <= buf.offset <= src.width
    && Mul(buf.drawn, src.width) + buf.offset == k + src.width
    && (buf.drawn >= 1 ==> buf.last == src.word(seed, buf.drawn - 1))
  }

  /** DivMod splits q whole words and r < w further bits into (q, r). */
  lemma {:induction false} DivModOfWords(q: nat, r: nat, w: Width)
    requires r < w
    ensures DivMod(Mul(q, w) + r, w) == (q, r)
  {
    if q > 0 {
      DivModOfWords(q - 1, r, w);
    }
  }

  /** DivMod is integer division with remainder. */
  lemma {:induction false} DivModIsDivision(k: nat, w: Width)
    ensures DivMod(k, w) == (k / w, k % w)
    decreases k
  {
    if k >= w {
      DivModIsDivision(k - w, w);
      assert (k - w) / w + 1 == k / w && (k - w) % w == k % w by {
        DivModOf(k, w, (k - w) / w + 1, (k - w) % w);
      }
    }
  }

  lemma DivModOf(x: int, w: int, q: int, r: int)
    requires w > 0 && 0 <= r < w && x == q * w + r
    ensures x / w == q && x % w == r
  {
    var q', r' := x / w, x % w;
    var d := q' - q;
    assert d * w == r - r' by {
      assert q' * w + r' == q * w + r;
      assert q' * w - q * w == d * w;
    }
    assert d == 0;
  }

  lemma ReseedCanonical(src: Source, buf: Buffer, seed: int)
    ensures Canonical(src, Reseed(src, buf, seed), seed, 0)
  {
  }

  /** One read from a canonical state returns the next coin of the reference stream. */
  lemma NextCoinFollowsStream(src: Source, buf: Buffer, seed: int, k: nat)
    requires Canonical(src, buf, seed, k)
    ensures NextCoin(src, buf).coin == StreamCoin(src, seed, k)
    ensures Canonical(src, NextCoin(src, buf).buf, seed, k + 1)
  {
    var w := src.width;
    if buf.offset == w {
      DivModOfWords(buf.drawn, 0, w);
    } else {
      assert buf.drawn >= 1;
      assert k == Mul(buf.drawn - 1, w) + buf.offset;
      DivModOfWords(buf.drawn - 1, buf.offset, w);
    }
  }

  /** n reads from a canonical state leave the state canonical for k + n. */
  lemma {:induction false} DrawNStaysCanonical(src: Source, buf: Buffer, seed: int, k: nat, n: nat)
    requires Canonical(src, buf, seed, k)
    ensures Canonical(src, DrawN(src, buf, n).buf, seed, k + n)
    decreases n
  {
    if n > 0 {
      NextCoinFollowsStream(src, buf, seed, k);
      DrawNStaysCanonical(src, NextCoin(src, buf).buf, seed, k + 1, n - 1);
    }
  }

  /** n reads from a canonical state return the next n coins of the reference stream. */
  lemma {:induction false} DrawNFollowsStream(src: Source, buf: Buffer, seed: int, k: nat, n: nat)
    requires Canonical(src, buf, seed, k)
    ensures DrawN(src, buf, n).coins == StreamSlice(src, seed, k, n)
    decreases n
  {
    if n > 0 {
      var first := NextCoin(src, buf);
      NextCoinFollowsStream(src, buf, seed, k);
      DrawNFollowsStream(src, first.buf, seed, k + 1, n - 1);
    }
  }

  /** After a reseed, the k-th call of the bit reader returns the coin given by bit
      k mod width of generator word k div width. */
  lemma ReseededReaderFollowsStream(src: Source, buf: Buffer, seed: int, k: nat)
    ensures DrawN(src, Reseed(src, buf, seed), k + 1).coins[k]
         == Coin(Bit(src.word(seed, k / src.width), k % src.width))
  {
    DivModIsDivision(k, src.width);
    ReseedCanonical(src, buf, seed);
    DrawNFollowsStream(src, Reseed(src, buf, seed), seed, 0, k + 1);
    StreamSliceAt(src, seed, 0, k + 1, k);
  }

  /** `random_pm1` over mt19937: the k-th call after reseeding tests bit k mod 32 of
      word k div 32. */
  lemma CppReaderFollowsStream(src: Source, buf: Buffer, seed: int, k: nat)
    requires src.width == CppWordBits
    ensures DrawN(src, Reseed(src, buf, seed), k + 1).coins[k]
         == Coin(Bit(src.word(seed, k / 32), k % 32))
  {
    ReseededReaderFollowsStream(src, buf, seed, k);
  }

  /** `my_r250_bit` over r250: the k-th call after `my_r250_init` tests bit k mod 16
      of word k div 16. */
  lemma CReaderFollowsStream(src: Source, buf: Buffer, seed: int, k: nat)
    requires src.width == CWordBits
    ensures DrawN(src, Reseed(src, buf, seed), k + 1).coins[k]
         == Coin(Bit(src.word(seed, k / 16), k % 16))
  {
    ReseededReaderFollowsStream(src, buf, seed, k);
  }
}
