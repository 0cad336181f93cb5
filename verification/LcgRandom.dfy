/** hal/rhs_hal_random/rhs_hal_random.c, the software generator: the 32-bit
    linear congruential state, its exact period, and the byte buffer filler. */
module LcgRandom {
  import opened Words

  /** One draw: the state is multiplied and incremented in 32-bit arithmetic. */
  function Next(s: Uint32): Uint32 {
    (s * 1103515245 + 12345) % U32
  }

  /** The state after `n` draws. */
  function Draws(seed: Uint32, n: nat): Uint32 {
    if n == 0 then seed else Next(Draws(seed, n - 1))
  }

  lemma {:induction false} DrawsAdd(seed: Uint32, i: nat, n: nat)
    ensures Draws(seed, i + n) == Draws(Draws(seed, i), n)
  {
    if n > 0 {
      DrawsAdd(seed, i, n - 1);
    }
  }

  // ----- Divisibility by powers of two -----

  function Pow2(k: nat): (p: nat)
    ensures p > 0
  {
    if k == 0 then 1 else 2 * Pow2(k - 1)
  }

  lemma Pow2Of32()
    ensures Pow2(32) == U32
  {
    assert Pow2(8) == 256;
    assert Pow2(16) == 256 * Pow2(8);
    assert Pow2(24) == 256 * Pow2(16);
    assert Pow2(32) == 256 * Pow2(24);
  }

  /** x can be halved k times without remainder. */
  predicate Halves(k: nat, x: int) {
    k == 0 || (x % 2 == 0 && Halves(k - 1, x / 2))
  }

  /** Halving k times is divisibility by 2^k. */
  lemma {:induction false} HalvesIff(k: nat, x: int)
    ensures Halves(k, x) <==> x % Pow2(k) == 0
  {
    if k > 0 {
      HalvesIff(k - 1, x / 2);
      DoubleDivides(x, Pow2(k - 1));
    }
  }

  lemma {:induction false} DoubleDivides(x: int, p: nat)
    requires p > 0
    ensures x % (2 * p) == 0 <==> x % 2 == 0 && x / 2 % p == 0
  {
    var h := x / 2;
    var q, r := h / p, h % p;
    assert x == q * (2 * p) + (2 * r + x % 2) by {
      assert h == q * p + r;
      assert q * (2 * p) == 2 * (q * p);
    }
    DivModUnique(x, q, 2 * p, 2 * r + x % 2);
  }

  /** An odd factor does not matter for divisibility by a power of two. */
  lemma {:induction false} OddFactor(k: nat, x: int, y: int)
    requires y % 2 == 1
    ensures Halves(k, x * y) <==> Halves(k, x)
  {
    if k > 0 {
      var h, v := x / 2, y / 2;
      assert x * y == 2 * (h * y) + x % 2 * y by {
        assert x == 2 * h + x % 2;
        assert (2 * h + x % 2) * y == 2 * h * y + x % 2 * y;
      }
      if x % 2 == 0 {
        assert x * y / 2 == h * y;
        OddFactor(k - 1, h, y);
      }
    }
  }

  /** 2^k divides 2^n for k at most n, so reducing modulo 2^n first is harmless. */
  lemma {:induction false} Pow2Split(k: nat, n: nat)
    requires k <= n
    ensures Pow2(n) == Pow2(n - k) * Pow2(k)
  {
    if k < n {
      Pow2Split(k, n - 1);
    }
  }

  lemma {:induction false} ModPow2Mod(x: int, k: nat, n: nat)
    requires k <= n
    ensures x % Pow2(n) % Pow2(k) == x % Pow2(k)
  {
    Pow2Split(k, n);
    hide Pow2;
    ModOfMultiple(x, Pow2(n - k), Pow2(k));
  }

  // ----- The geometric series behind the generator -----

  /** 1 + a + ... + a^(n-1) for the multiplier a. */
  function Series(n: nat): nat {
    if n == 0 then 0 else 1103515245 * Series(n - 1) + 1
  }

  /** The odd number whose multiples are the distances travelled from `s`. */
  function Stride(s: nat): nat {
    1103515244 * s + 12345
  }

  lemma StrideOdd(s: nat)
    ensures Stride(s) % 2 == 1
  {
    assert Stride(s) == 2 * (551757622 * s + 6172) + 1;
  }

  lemma StrideStep(s: nat, t: nat)
    ensures 1103515245 * (s + t * Stride(s)) + 12345 == s + (1103515245 * t + 1) * Stride(s)
  {
    var d := Stride(s);
    assert (1103515245 * t + 1) * d == 1103515245 * (t * d) + d;
  }

  /** n draws move the state by Series(n) strides, modulo 2^32. */
  lemma {:induction false} DrawsClosedForm(s: Uint32, n: nat)
    ensures Draws(s, n) == (s + Series(n) * Stride(s)) % U32
  {
    if n > 0 {
      DrawsClosedForm(s, n - 1);
      ModMul(1103515245, s + Series(n - 1) * Stride(s), 12345, U32);
      StrideStep(s, Series(n - 1));
    } else {
      SmallMod(s, U32);
    }
  }

  lemma {:induction false} SeriesStep(s: nat, t: nat)
    ensures 1103515245 * (s + t + 1103515244 * (s * t)) + 1
         == s + (1103515245 * t + 1) + 1103515244 * (s * (1103515245 * t + 1))
  {
    assert s * (1103515245 * t + 1) == 1103515245 * (s * t) + s by {
      assert s * (1103515245 * t) == 1103515245 * (s * t);
    }
  }

  lemma {:induction false} SeriesAdd(m: nat, n: nat)
    ensures Series(m + n) == Series(m) + Series(n) + 1103515244 * (Series(m) * Series(n))
  {
    if n > 0 {
      SeriesAdd(m, n - 1);
      SeriesStep(Series(m), Series(n - 1));
      assert m + n - 1 == m + (n - 1);
    }
  }

  lemma SeriesUnfolds(n: nat)
    requires n > 0
    ensures Series(n) == 1103515245 * Series(n - 1) + 1
  {
  }

  lemma {:induction false} SeriesParity(n: nat)
    ensures Series(n) % 2 == n % 2
  {
    if n > 0 {
      SeriesUnfolds(n);
      hide Series;
      SeriesParity(n - 1);
      OddStep(Series(n - 1), n);
    }
  }

  /** The multiplier is odd. */
  lemma OddStep(t: nat, n: nat)
    requires n > 0 && t % 2 == (n - 1) % 2
    ensures (1103515245 * t + 1) % 2 == n % 2
  {
    assert 1103515245 * t + 1 == 2 * (551757622 * t) + (t + 1);
  }

  /** 2^k divides the series exactly when it divides the number of terms. */
  lemma {:induction false} SeriesDivisible(k: nat, n: nat)
    ensures Halves(k, Series(n)) <==> Halves(k, n)
  {
    SeriesParity(n);
    if k > 0 && n % 2 == 0 {
      var m := n / 2;
      SeriesAdd(m, m);
      DoubledSeries(Series(m));
      OddFactor(k - 1, Series(m), 1 + 551757622 * Series(m));
      SeriesDivisible(k - 1, m);
    }
  }

  lemma DoubledSeries(h: nat)
    ensures h + h + 1103515244 * (h * h) == 2 * (h * (1 + 551757622 * h))
    ensures (1 + 551757622 * h) % 2 == 1
  {
    assert h * (1 + 551757622 * h) == h + 551757622 * (h * h);
    assert 1 + 551757622 * h == 1 + 2 * (275878811 * h);
  }

  // ----- The period -----

  /** n draws bring the low k bits back exactly when 2^k divides n. */
  lemma {:induction false} ReturnsIff(s: Uint32, n: nat, k: nat)
    requires k <= 32
    ensures Draws(s, n) % Pow2(k) == s % Pow2(k) <==> n % Pow2(k) == 0
  {
    var d := Series(n) * Stride(s);
    assert Draws(s, n) % Pow2(k) == (s + d) % Pow2(k) by {
      Pow2Of32();
      DrawsClosedForm(s, n);
      ModPow2Mod(s + d, k, 32);
    }
    ModEqIff(s, s + d, Pow2(k));
    HalvesIff(k, d);
    StrideOdd(s);
    OddFactor(k, Series(n), Stride(s));
    SeriesDivisible(k, n);
    HalvesIff(k, n);
  }

  /** The low k bits of the state have period exactly 2^k, from every seed. */
  lemma {:induction false} LowBitsPeriod(seed: Uint32, i: nat, j: nat, k: nat)
    requires k <= 32
    ensures Draws(seed, i) % Pow2(k) == Draws(seed, j) % Pow2(k) <==> i % Pow2(k) == j % Pow2(k)
  {
    var lo, hi := if i <= j then i else j, if i <= j then j else i;
    DrawsAdd(seed, lo, hi - lo);
    ReturnsIff(Draws(seed, lo), hi - lo, k);
    ModEqIff(lo, hi, Pow2(k));
  }

  /** Full period: two draws from one seed agree exactly when their positions agree modulo 2^32. */
  lemma {:induction false} FullPeriod(seed: Uint32, i: nat, j: nat)
    ensures Draws(seed, i) == Draws(seed, j) <==> i % U32 == j % U32
  {
    Pow2Of32();
    LowBitsPeriod(seed, i, j, 32);
    hide Pow2, Draws;
    SmallMod(Draws(seed, i), U32);
    SmallMod(Draws(seed, j), U32);
  }

  /** Among 2^k consecutive draws there is one with any wanted low k bits. */
  lemma {:induction false} Reaches(seed: Uint32, v: nat, k: nat) returns (n: nat)
    requires k <= 32
    ensures n < Pow2(k)
    ensures Draws(seed, n) % Pow2(k) == v % Pow2(k)
  {
    if k == 0 {
      n := 0;
    } else {
      var p := Pow2(k - 1);
      var m := Reaches(seed, v, k - 1);
      TwoLifts(seed, m, k);
      OneMoreBit(Draws(seed, m), v, p);
      OneMoreBit(Draws(seed, m + p), v, p);
      n := if Draws(seed, m) % (2 * p) == v % (2 * p) then m else m + p;
    }
  }

  /** Draws 2^(k-1) apart share their low k - 1 bits but differ in bit k. */
  lemma {:induction false} TwoLifts(seed: Uint32, m: nat, k: nat)
    requires 0 < k <= 32 && m < Pow2(k - 1)
    ensures Draws(seed, m) % Pow2(k - 1) == Draws(seed, m + Pow2(k - 1)) % Pow2(k - 1)
    ensures Draws(seed, m) % Pow2(k) != Draws(seed, m + Pow2(k - 1)) % Pow2(k)
  {
    var p := Pow2(k - 1);
    LowBitsPeriod(seed, m, m + p, k - 1);
    LowBitsPeriod(seed, m, m + p, k);
    ModAddMultiple(m, 1, p);
    DivModUnique(m, 0, 2 * p, m);
    DivModUnique(m + p, 0, 2 * p, m + p);
  }

  /** Equal remainders modulo p leave two choices modulo 2p. */
  lemma {:induction false} OneMoreBit(x: nat, v: nat, p: nat)
    requires p > 0 && x % p == v % p
    ensures x % (2 * p) == v % p || x % (2 * p) == v % p + p
    ensures v % (2 * p) == v % p || v % (2 * p) == v % p + p
  {
    RemainderOfDouble(x, p);
    RemainderOfDouble(v, p);
  }

  lemma {:induction false} RemainderOfDouble(x: nat, p: nat)
    requires p > 0
    ensures x % (2 * p) == x % p || x % (2 * p) == x % p + p
  {
    var q, h := x / p, x / p / 2;
    assert x == h * (2 * p) + (q % 2 * p + x % p) by {
      assert x == q * p + x % p;
      assert q == 2 * h + q % 2;
      assert (2 * h + q % 2) * p == h * (2 * p) + q % 2 * p;
    }
    assert q % 2 * p == 0 || q % 2 * p == p;
    DivModUnique(x, h, 2 * p, q % 2 * p + x % p);
  }

  lemma {:induction false} DrawOf(seed: Uint32, v: Uint32) returns (n: nat)
    ensures n < U32 && Draws(seed, n) == v
  {
    n := Reaches(seed, v, 32);
    Pow2Of32();
    hide Pow2, Draws;
    SmallMod(Draws(seed, n), U32);
    SmallMod(v, U32);
  }

  /** Every 32-bit value is drawn exactly once in each round of 2^32 draws. */
  lemma {:induction false} EveryValueOnce(seed: Uint32, v: Uint32)
    ensures exists n :: 0 <= n < U32 && Draws(seed, n) == v
    ensures forall m, n :: 0 <= m < U32 && 0 <= n < U32 && Draws(seed, m) == v && Draws(seed, n) == v ==> m == n
  {
    var k := DrawOf(seed, v);
    hide Draws;
    assert 0 <= k < U32;
    forall m, n | 0 <= m < U32 && 0 <= n < U32 && Draws(seed, m) == v && Draws(seed, n) == v
      ensures m == n
    {
      FullPeriod(seed, m, n);
      SmallMod(m, U32);
      SmallMod(n, U32);
    }
  }

  // ----- Filling a buffer -----

  /** The bytes of a word as `memcpy` stores them on the little-endian core. */
  function LittleEndian(w: Uint32): (b: seq<Uint8>)
    ensures |b| == 4
    ensures b[0] as int + 256 * (b[1] as int) + 65536 * (b[2] as int) + 16777216 * (b[3] as int) == w
  {
    var w1 := w / 256;
    var w2 := w1 / 256;
    var w3 := w2 / 256;
    [w % 256, w1 % 256, w2 % 256, w3]
  }

  /** The bytes of the next `n` draws, one after the other. */
  function ByteStream(seed: Uint32, n: nat): (b: seq<Uint8>)
    ensures |b| == 4 * n
  {
    if n == 0 then [] else ByteStream(seed, n - 1) + LittleEndian(Draws(seed, n))
  }

  /** Byte p of the stream is byte p % 4 of draw p / 4 + 1, however long the stream is. */
  lemma {:induction false} ByteStreamAt(seed: Uint32, n: nat, p: nat)
    requires p < 4 * n
    ensures ByteStream(seed, n)[p] == LittleEndian(Draws(seed, p / 4 + 1))[p % 4]
  {
    if p < 4 * (n - 1) {
      ByteStreamAt(seed, n - 1, p);
    }
  }

  function WordsFor(len: nat): nat {
    (len + 3) / 4
  }

  /** The value of the 32-bit loop index after `n` rounds of `i += 4`. */
  function IndexAfter(n: nat): Uint32 {
    4 * n % U32
  }

  /** The filling loop can reach its exit exactly when `i + 4` never wraps before `len`. */
  lemma FillLoopExits(len: Uint32)
    ensures (exists n: nat :: IndexAfter(n) >= len) <==> len <= U32 - 4
  {
    assert IndexAfter(U32 / 4 - 1) == U32 - 4;
  }

  /** The module's static state. */
  class Generator {
    var rngState: Uint32

    constructor ()
      ensures rngState == 1
    {
      rngState := 1;
    }

    method ReadRng() returns (r: Uint32)
      modifies this
      ensures r == rngState == Next(old(rngState))
    {
      rngState := (rngState * 1103515245 + 12345) % U32;
      r := rngState;
    }

    /** Writes the first `len` bytes of the stream and nothing else. */
    method FillBuf(buf: array<Uint8>, len: Uint32)
      requires 0 < len <= buf.Length
      requires len <= U32 - 4
      modifies this, buf
      ensures buf[..len] == ByteStream(old(rngState), WordsFor(len))[..len]
      ensures buf[len..] == old(buf[len..])
      ensures rngState == Draws(old(rngState), WordsFor(len))
    {
      hide ByteStream, LittleEndian, Next;
      ghost var stream := ByteStream(rngState, WordsFor(len));
      ghost var n := 0;
      var i := 0;
      while i < len
        invariant i == 4 * n && n <= WordsFor(len)
        invariant rngState == Draws(old(rngState), n)
        invariant forall p :: 0 <= p < i && p < len ==> buf[p] == stream[p]
        invariant forall p :: len <= p < buf.Length ==> buf[p] == old(buf[p])
      {
        var randomVal := ReadRng();
        var lenCur := if (i + 4) % U32 < len then 4 else (len - i) % U8;
        n := n + 1;
        ChunkLength(i, len);
        Memcpy(buf, i, LittleEndian(randomVal), lenCur);
        StreamWord(old(rngState), WordsFor(len), n);
        assert stream[i..i + 4] == LittleEndian(randomVal);
        assert forall p :: i <= p < i + lenCur ==> stream[p] == stream[i..i + 4][p - i];
        i := (i + 4) % U32;
      }
    }
  }

  /** Below the wrap-around the loop's index and chunk length are the plain ones. */
  lemma ChunkLength(i: Uint32, len: Uint32)
    requires i < len <= U32 - 4 && i % 4 == 0
    ensures (i + 4) % U32 == i + 4
    ensures i + 4 >= len ==> (len - i) % U8 == len - i <= 4
  {
  }

  /** Word n of the stream is where the loop writes it. */
  lemma {:induction false} StreamWord(seed: Uint32, words: nat, n: nat)
    requires 0 < n <= words
    ensures ByteStream(seed, words)[4 * (n - 1)..4 * n] == LittleEndian(Draws(seed, n))
  {
    hide ByteStream, LittleEndian, Draws;
    forall k | 0 <= k < 4
      ensures ByteStream(seed, words)[4 * (n - 1) + k] == LittleEndian(Draws(seed, n))[k]
    {
      ByteStreamAt(seed, words, 4 * (n - 1) + k);
      DivModUnique(4 * (n - 1) + k, n - 1, 4, k);
    }
  }

  /** memcpy of `n` bytes to offset `at`. */
  method Memcpy(buf: array<Uint8>, at: nat, bytes: seq<Uint8>, n: nat)
    requires at + n <= buf.Length && n <= |bytes|
    modifies buf
    ensures forall p :: 0 <= p < buf.Length ==>
              buf[p] == if at <= p < at + n then bytes[p - at] else old(buf[p])
  {
    for k := 0 to n
      invariant forall p :: 0 <= p < buf.Length ==>
                  buf[p] == if at <= p < at + k then bytes[p - at] else old(buf[p])
    {
      buf[at + k] := bytes[k];
    }
  }
}
