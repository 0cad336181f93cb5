/** Fixed-width unsigned arithmetic: the ranges of the C types the model uses,
    and the few facts about remainders that several modules need. */
module Words {
  const U8: nat := 0x100
  const U16: nat := 0x1_0000
  const U32: nat := 0x1_0000_0000
  const U64: nat := 0x1_0000_0000_0000_0000

  type Uint8 = x: nat | x < U8
  type Uint16 = x: nat | x < U16
  type Uint32 = x: nat | x < U32
  type Uint64 = x: nat | x < U64

  lemma {:induction false} MulAtLeast(k: int, d: int)
    requires k >= 1 && d >= 0
    ensures k * d >= d
  {
    assert k * d == (k - 1) * d + d;
  }

  lemma MulAssoc(a: int, b: int, c: int)
    ensures a * (b * c) == a * b * c
  {
  }

  /** A quotient and remainder are determined by `x == q * d + r` and `0 <= r < d`. */
  lemma {:induction false} DivModUnique(x: int, q: int, d: int, r: int)
    requires 0 <= r < d
    requires x == q * d + r
    ensures x / d == q
    ensures x % d == r
  {
    var q' := x / d;
    var gap := q - q';
    assert gap * d == x % d - r by {
      assert x == q' * d + x % d;
      assert gap * d == q * d - q' * d;
    }
    if gap >= 1 {
      MulAtLeast(gap, d);
    } else if gap <= -1 {
      MulAtLeast(-gap, d);
    }
  }

  lemma SmallMod(x: nat, m: nat)
    requires x < m
    ensures x % m == x
  {
  }

  /** Adding a multiple of the modulus changes nothing. */
  lemma {:induction false} ModAddMultiple(x: int, k: int, d: int)
    requires d > 0
    ensures (x + k * d) % d == x % d
  {
    assert x + k * d == (x / d + k) * d + x % d by {
      assert (x / d + k) * d == x / d * d + k * d;
    }
    DivModUnique(x + k * d, x / d + k, d, x % d);
  }

  /** Two integers agree modulo `d` exactly when `d` divides their difference. */
  lemma {:induction false} ModEqIff(x: int, y: int, d: int)
    requires d > 0
    ensures x % d == y % d <==> (y - x) % d == 0
  {
    var q := y / d - x / d;
    var r := y % d - x % d;
    assert y - x == q * d + r by {
      assert q * d == y / d * d - x / d * d;
    }
    if r >= 0 {
      DivModUnique(y - x, q, d, r);
    } else {
      assert (q - 1) * d == q * d - d;
      DivModUnique(y - x, q - 1, d, r + d);
    }
  }

  /** Reducing a factor first does not change a product's remainder. */
  lemma {:induction false} ModMul(a: int, x: int, c: int, d: int)
    requires d > 0
    ensures (a * (x % d) + c) % d == (a * x + c) % d
  {
    var q := x / d;
    assert a * x == a * (x % d) + a * q * d by {
      assert x == q * d + x % d;
      assert a * (q * d) == a * q * d;
      assert a * (q * d + x % d) == a * (q * d) + a * (x % d);
    }
    ModAddMultiple(a * (x % d) + c, a * q, d);
  }

  /** Reducing modulo a multiple of `d` first is harmless. */
  lemma {:induction false} ModOfMultiple(x: int, k: int, d: int)
    requires k > 0 && d > 0 && k * d > 0
    ensures x % (k * d) % d == x % d
  {
    var m := k * d;
    var q, r := x / m, x % m;
    assert x == r + q * m;
    MulAssoc(q, k, d);
    ModAddMultiple(r, q * k, d);
  }
}
