/**
 * Bit arithmetic on Python's unbounded non-negative integers.
 *
 * The plugin uses `1 << n`, `|`-like accumulation, `>>`, `& 0xFF` and
 * `math.log2` on masks. Python integers never overflow, so everything here is
 * on `nat`; a bit is read with `Bit(m, k)`, which is `(m >> k) & 1 == 1`.
 */
module Bits {

  /** `1 << k` */
  function Pow2(k: nat): (p: nat)
    ensures p >= 1
    ensures k > 0 ==> p % 2 == 0
  {
    if k == 0 then 1 else 2 * Pow2(k - 1)
  }

  /** `(m >> k) & 1 == 1` */
  predicate Bit(m: nat, k: nat)
  {
    if k == 0 then m % 2 == 1 else Bit(m / 2, k - 1)
  }

  /** Number of set bits (`bin(m).count("1")`). */
  function PopCount(m: nat): nat
  {
    if m == 0 then 0 else m % 2 + PopCount(m / 2)
  }

  /** Bitwise or of two non-negative integers (`a | b`). */
  function Or(a: nat, b: nat): nat
    decreases a + b
  {
    if a == 0 && b == 0 then 0
    else (if a % 2 == 1 || b % 2 == 1 then 1 else 0) + 2 * Or(a / 2, b / 2)
  }

  /** `m` is a power of two: exactly one bit is set. */
  predicate IsPow2(m: int)
    decreases if m < 0 then 0 else m
  {
    m >= 1 && (m == 1 || (m % 2 == 0 && IsPow2(m / 2)))
  }

  /** Integer `log2` of a power of two: the position of its only bit. */
  function Log2(m: int): (k: nat)
    requires IsPow2(m)
    ensures Pow2(k) == m
    decreases m
  {
    if m == 1 then 0 else 1 + Log2(m / 2)
  }

  /** Bit `j` of `1 << k` is set exactly when `j == k`. */
  lemma {:induction false} BitOfPow2(k: nat, j: nat)
    ensures Bit(Pow2(k), j) <==> j == k
  {
    if k == 0 {
      if j > 0 {
        ZeroHasNoBits(j - 1);
      }
    } else if j > 0 {
      BitOfPow2(k - 1, j - 1);
    }
  }

  lemma {:induction false} ZeroHasNoBits(j: nat)
    ensures !Bit(0, j)
  {
    if j > 0 {
      ZeroHasNoBits(j - 1);
    }
  }

  /** `a | b` has bit `k` set exactly when `a` or `b` has. */
  lemma {:induction false} OrBit(a: nat, b: nat, k: nat)
    ensures Bit(Or(a, b), k) <==> Bit(a, k) || Bit(b, k)
    decreases k
  {
    if a == 0 && b == 0 {
      ZeroHasNoBits(k);
    } else if k > 0 {
      OrBit(a / 2, b / 2, k - 1);
    }
  }

  /** Two integers with the same bits are equal. */
  lemma {:induction false} BitsDetermine(a: nat, b: nat)
    requires forall k: nat :: Bit(a, k) == Bit(b, k)
    ensures a == b
    decreases a + b
  {
    if a != 0 || b != 0 {
      assert Bit(a, 0) == Bit(b, 0);
      forall k: nat
        ensures Bit(a / 2, k) == Bit(b / 2, k)
      {
        assert Bit(a, k + 1) == Bit(b, k + 1);
      }
      BitsDetermine(a / 2, b / 2);
    }
  }

  /** Adding `1 << k` to a number whose bit `k` is clear sets that bit and no other. */
  lemma {:induction false} AddFreshBit(m: nat, k: nat, j: nat)
    requires !Bit(m, k)
    ensures Bit(m + Pow2(k), j) <==> j == k || Bit(m, j)
    decreases k
  {
    if k == 0 {
      assert (m + 1) / 2 == m / 2;
    } else {
      assert (m + Pow2(k)) / 2 == m / 2 + Pow2(k - 1);
      if j > 0 {
        AddFreshBit(m / 2, k - 1, j - 1);
      }
    }
  }

  /** Adding `1 << k` on a clear bit `k` is the same as or-ing it in. */
  lemma AddFreshBitIsOr(m: nat, k: nat)
    requires !Bit(m, k)
    ensures m + Pow2(k) == Or(m, Pow2(k))
  {
    forall j: nat
      ensures Bit(m + Pow2(k), j) == Bit(Or(m, Pow2(k)), j)
    {
      AddFreshBit(m, k, j);
      OrBit(m, Pow2(k), j);
      BitOfPow2(k, j);
    }
    BitsDetermine(m + Pow2(k), Or(m, Pow2(k)));
  }

  /** Setting a clear bit raises the population count by one. */
  lemma {:induction false} AddFreshBitPopCount(m: nat, k: nat)
    requires !Bit(m, k)
    ensures PopCount(m + Pow2(k)) == PopCount(m) + 1
    decreases k
  {
    if k == 0 {
      assert (m + 1) / 2 == m / 2;
    } else {
      assert (m + Pow2(k)) / 2 == m / 2 + Pow2(k - 1);
      AddFreshBitPopCount(m / 2, k - 1);
    }
  }

  /** A number with no bit at or above position `n` is below `1 << n`. */
  lemma {:induction false} NoHighBitsBound(m: nat, n: nat)
    requires forall j: nat :: j >= n ==> !Bit(m, j)
    ensures m < Pow2(n)
    decreases m
  {
    if m != 0 {
      forall j: nat | j >= (if n == 0 then 0 else n - 1)
        ensures !Bit(m / 2, j)
      {
        assert !Bit(m, j + 1);
      }
      if n == 0 {
        assert !Bit(m, 0);
        NoHighBitsBound(m / 2, 0);
        assert false;
      } else {
        NoHighBitsBound(m / 2, n - 1);
      }
    }
  }

  /** `IsPow2` is "exactly one bit set". */
  lemma {:induction false} IsPow2IffOneBit(m: nat)
    requires m >= 1
    ensures IsPow2(m) <==> PopCount(m) == 1
    decreases m
  {
    if m > 1 {
      IsPow2IffOneBit(m / 2);
      if m % 2 == 1 {
        PositivePopCount(m / 2);
      }
    }
  }

  lemma {:induction false} PositivePopCount(m: nat)
    requires m >= 1
    ensures PopCount(m) >= 1
    decreases m
  {
    if m % 2 == 0 {
      PositivePopCount(m / 2);
    }
  }

  /** `1 << k` is a power of two and its `log2` is `k`. */
  lemma {:induction false} Log2OfPow2(k: nat)
    ensures IsPow2(Pow2(k)) && Log2(Pow2(k)) == k
  {
    if k > 0 {
      Log2OfPow2(k - 1);
      assert Pow2(k) / 2 == Pow2(k - 1);
    }
  }

  /** Euclidean division is determined by quotient and remainder. */
  lemma DivModUnique(x: nat, d: nat, q: nat, r: nat)
    requires d > 0 && x == d * q + r && r < d
    ensures x / d == q && x % d == r
  {
    var q', r' := x / d, x % d;
    assert x == d * q' + r';
    assert d * (q' - q) == r - r';
    SmallMultiple(d, q' - q);
  }

  /** The only multiple of `d` strictly between `-d` and `d` is zero. */
  lemma SmallMultiple(d: int, n: int)
    requires d > 0 && -d < d * n < d
    ensures n == 0
  {
  }

  /** Halving and then dividing by `p` is dividing by `2 * p`. */
  lemma DivDiv(x: nat, p: nat)
    requires p > 0
    ensures x / (2 * p) == (x / 2) / p
  {
    var q := x / 2;
    var q2 := q / p;
    var low := 2 * (q % p) + x % 2;
    assert x == 2 * q + x % 2;
    assert q == p * q2 + q % p;
    assert 2 * q == (2 * p) * q2 + 2 * (q % p);
    DivModUnique(x, 2 * p, q2, low);
  }

  /** `x >> k` on a non-negative `x`: `k` single-bit right shifts. */
  function Shr(x: nat, k: nat): nat
  {
    if k == 0 then x else Shr(x / 2, k - 1)
  }

  /** Shifting right by `k` is floor division by `2^k`. */
  lemma {:induction false} ShrIsDiv(x: nat, k: nat)
    ensures Shr(x, k) == x / Pow2(k)
  {
    if k > 0 {
      DivDiv(x, Pow2(k - 1));
      ShrIsDiv(x / 2, k - 1);
    }
  }

  /** Two right shifts add up. */
  lemma {:induction false} ShrShr(x: nat, a: nat, b: nat)
    ensures Shr(Shr(x, a), b) == Shr(x, a + b)
    decreases a
  {
    if a > 0 {
      ShrShr(x / 2, a - 1, b);
    }
  }

  /** `1 << (a + b) == (1 << a) * (1 << b)` */
  lemma {:induction false} Pow2Add(a: nat, b: nat)
    ensures Pow2(a + b) == Pow2(a) * Pow2(b)
    decreases a
  {
    if a > 0 {
      Pow2Add(a - 1, b);
      assert Pow2(a + b) == 2 * Pow2((a - 1) + b);
      assert Pow2(a) == 2 * Pow2(a - 1);
      DoubleProduct(Pow2(a - 1), Pow2(b));
    }
  }

  lemma DoubleProduct(x: nat, y: nat)
    ensures (2 * x) * y == 2 * (x * y)
  {
  }

  /** `1 << a <= 1 << b` when `a <= b`. */
  lemma Pow2Monotone(a: nat, b: nat)
    requires a <= b
    ensures Pow2(a) <= Pow2(b)
  {
    Pow2Add(a, b - a);
  }

  /** The powers of two a 24-bit colour is made of. */
  lemma ColourPowers()
    ensures Pow2(4) == 16 && Pow2(8) == 256 && Pow2(16) == 65536 && Pow2(24) == 16777216
  {
    assert Pow2(8) == 256;
    Pow2Add(8, 8);
    Pow2Add(16, 8);
  }

  /** Bit `j` of `x >> k` is bit `j + k` of `x`. */
  lemma {:induction false} ShrBit(x: nat, k: nat, j: nat)
    ensures Bit(Shr(x, k), j) <==> Bit(x, j + k)
  {
    if k > 0 {
      ShrBit(x / 2, k - 1, j);
    }
  }

  /** `x & (2^n - 1)` on a non-negative `x` is `x % 2^n`: it keeps the bits below `n`. */
  lemma {:induction false} MaskBit(x: nat, n: nat, j: nat)
    ensures Bit(x % Pow2(n), j) <==> j < n && Bit(x, j)
    decreases n
  {
    if n == 0 {
      ZeroHasNoBits(j);
    } else {
      ModDouble(x, Pow2(n - 1));
      if j > 0 {
        MaskBit(x / 2, n - 1, j - 1);
      }
    }
  }

  /** The lowest bit and the rest of `x % (2 * p)`. */
  lemma ModDouble(x: nat, p: nat)
    requires p > 0
    ensures x % (2 * p) % 2 == x % 2 && x % (2 * p) / 2 == (x / 2) % p
  {
    var q := x / 2;
    var t := q / p;
    var low := 2 * (q % p) + x % 2;
    assert q == p * t + q % p;
    assert (2 * p) * t == 2 * (p * t);
    assert x == (2 * p) * t + low;
    DivModUnique(x, 2 * p, t, low);
  }
}
