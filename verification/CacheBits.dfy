/** The shifts and masks of the cache simulator, on unsigned integers of any width. */
module CacheBits {

  function Pow2(n: nat): (p: nat)
    ensures p > 0
  {
    if n == 0 then 1 else 2 * Pow2(n - 1)
  }

  /** `x << k`. */
  function Shl(x: nat, k: nat): nat {
    if k == 0 then x else 2 * Shl(x, k - 1)
  }

  /** `x >> k`. */
  function Shr(x: nat, k: nat): nat {
    if k == 0 then x else Shr(x / 2, k - 1)
  }

  /** `x & y`. */
  function And(x: nat, y: nat): nat {
    if x == 0 || y == 0 then 0 else (if x % 2 == 1 && y % 2 == 1 then 1 else 0) + 2 * And(x / 2, y / 2)
  }

  /** The lowest `t` bits of `x`. */
  function Low(x: nat, t: nat): (r: nat)
    ensures r < Pow2(t)
  {
    if t == 0 then 0 else x % 2 + 2 * Low(x / 2, t - 1)
  }

  lemma {:induction false} LowZero(t: nat)
    ensures Low(0, t) == 0
  {
    if t > 0 {
      LowZero(t - 1);
    }
  }

  /** The mask `2^t - 1` keeps the lowest `t` bits. */
  lemma {:induction false} AndLow(x: nat, t: nat)
    ensures And(x, Pow2(t) - 1) == Low(x, t)
    decreases t
  {
    if x == 0 {
      LowZero(t);
    } else if t > 0 {
      AndLow(x / 2, t - 1);
      assert (Pow2(t) - 1) % 2 == 1 && (Pow2(t) - 1) / 2 == Pow2(t - 1) - 1;
    }
  }

  lemma {:induction false} ShlZero(k: nat)
    ensures Shl(0, k) == 0 && Shr(0, k) == 0
  {
    if k > 0 {
      ShlZero(k - 1);
    }
  }

  /** The mask `(2^t - 1) << k` keeps `t` bits from bit `k` on. */
  lemma {:induction false} AndMask(x: nat, t: nat, k: nat)
    ensures And(x, Shl(Pow2(t) - 1, k)) == Shl(Low(Shr(x, k), t), k)
    decreases k
  {
    if k == 0 {
      AndLow(x, t);
    } else {
      AndMask(x / 2, t, k - 1);
      AndEven(x, Shl(Pow2(t) - 1, k - 1));
    }
  }

  lemma AndEven(x: nat, y: nat)
    ensures And(x, 2 * y) == 2 * And(x / 2, y)
  {
    if x > 0 && y > 0 {
      assert (2 * y) % 2 == 0 && (2 * y) / 2 == y;
      assert (x % 2) * ((2 * y) % 2) == 0;
    }
  }

  lemma {:induction false} ShlThenShr(x: nat, k: nat)
    ensures Shr(Shl(x, k), k) == x
  {
    if k > 0 {
      ShlThenShr(x, k - 1);
    }
  }

  lemma {:induction false} ShrTwice(x: nat, j: nat, k: nat)
    ensures Shr(Shr(x, j), k) == Shr(x, j + k)
    decreases j
  {
    if j > 0 {
      ShrTwice(x / 2, j - 1, k);
    }
  }

  /** A number is its lowest `t` bits and the rest. */
  lemma {:induction false} SplitUnique(x: nat, y: nat, t: nat)
    requires Low(x, t) == Low(y, t) && Shr(x, t) == Shr(y, t)
    ensures x == y
    decreases t
  {
    if t > 0 {
      SplitUnique(x / 2, y / 2, t - 1);
    }
  }

  /** A number below `2^(j + t)` has at most `t` bits left after a shift by `j`. */
  lemma {:induction false} LowOfSmall(x: nat, j: nat, t: nat)
    requires x < Pow2(j + t)
    ensures Low(Shr(x, j), t) == Shr(x, j)
    decreases j, t
  {
    if j > 0 {
      LowOfSmall(x / 2, j - 1, t);
    } else if t > 0 {
      LowOfSmall(x / 2, 0, t - 1);
    }
  }

  // ---- Shifts and masks in terms of arithmetic ----

  lemma QuotientIs(x: nat, p: nat, q: nat, r: nat)
    requires r < p && x == p * q + r
    ensures x / p == q && x % p == r
  {
    var d := x / p - q;
    assert p * d == r - x % p;
  }

  /** `x >> k` is division by 2^k, and the lowest `k` bits are the remainder. */
  lemma ShrIsQuotient(x: nat, k: nat)
    ensures Shr(x, k) == x / Pow2(k) && Low(x, k) == x % Pow2(k)
  {
    ShrAndLow(x, k);
    QuotientIs(x, Pow2(k), Shr(x, k), Low(x, k));
  }

  lemma {:induction false} ShrAndLow(x: nat, k: nat)
    ensures x == Pow2(k) * Shr(x, k) + Low(x, k)
    decreases k
  {
    if k > 0 {
      ShrAndLow(x / 2, k - 1);
      var p, q := Pow2(k - 1), Shr(x / 2, k - 1);
      assert (2 * p) * q == 2 * (p * q);
    }
  }

  /** Masking `t` bits from bit `k` on and shifting them down is division and remainder. */
  lemma MaskedField(x: nat, t: nat, k: nat)
    ensures Shr(And(x, Shl(Pow2(t) - 1, k)), k) == x / Pow2(k) % Pow2(t)
  {
    AndMask(x, t, k);
    ShlThenShr(Low(Shr(x, k), t), k);
    ShrIsQuotient(x, k);
    ShrIsQuotient(x / Pow2(k), t);
  }

  /** Masking all bits from bit `k` on and shifting them down is shifting, for numbers of `k + t` bits. */
  lemma MaskedUp(x: nat, t: nat, k: nat)
    requires x < Pow2(k + t)
    ensures Shr(And(x, Shl(Pow2(t) - 1, k)), k) == Shr(x, k)
  {
    AndMask(x, t, k);
    ShlThenShr(Low(Shr(x, k), t), k);
    LowOfSmall(x, k, t);
  }

  /** It is division by 2^k. */
  lemma MaskedTop(x: nat, bits: nat, k: nat)
    requires k <= bits && x < Pow2(bits)
    ensures Shr(And(x, Shl(Pow2(bits - k) - 1, k)), k) == Shr(x, k) == x / Pow2(k)
  {
    MaskedUp(x, bits - k, k);
    ShrIsQuotient(x, k);
  }
}
