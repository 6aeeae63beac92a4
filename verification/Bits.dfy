/** Powers of two, and the low bits of a number. */
module Bits {
  import opened Word32

  // ---------------------------------------------------------------- products

  lemma Assoc(x: int, y: int, z: int)
    ensures x * (y * z) == (x * y) * z
  {
  }

  lemma Comm(x: int, y: int)
    ensures x * y == y * x
  {
  }

  // ---------------------------------------------------------------- low bits

  /** The `k` low bits. */
  function Low(k: nat, v: nat): (r: nat) {
    if k == 0 then 0 else v % 2 + 2 * Low(k - 1, v / 2)
  }

  /** Divisible by 2^k. */
  predicate Div2(k: nat, v: nat) {
    k == 0 || (v % 2 == 0 && Div2(k - 1, v / 2))
  }

  function Pow2(k: nat): (p: nat)
    ensures p > 0
  {
    if k == 0 then 1 else 2 * Pow2(k - 1)
  }

  lemma {:induction false} LowIsRemainder(k: nat, v: nat)
    ensures Low(k, v) == v % Pow2(k)
  {
    if k == 0 {
    } else {
      LowIsRemainder(k - 1, v / 2);
      HalfRemainder(v, Pow2(k - 1));
    }
  }

  lemma HalfRemainder(v: nat, p: nat)
    requires p > 0
    ensures v % (2 * p) == v % 2 + 2 * (v / 2 % p)
  {
    var h, n := v / 2, 2 * p;
    var q, t := h / p, h % p;
    assert h == p * q + t;
    Assoc(2, p, q);
    assert n * (v / n) + v % n == v;
    Dist(n, v / n, -q);
    assert n * -q == -(n * q);
    RemainderUnique(n, v / n - q, 2 * t + v % 2 - v % n);
  }

  lemma {:induction false} Div2IsDivisible(k: nat, v: nat)
    ensures Div2(k, v) <==> v % Pow2(k) == 0
    decreases k
  {
    LowIsRemainder(k, v);
    if k == 0 {
    } else {
      Div2IsDivisible(k - 1, v / 2);
      LowIsRemainder(k - 1, v / 2);
    }
  }

  /** Equal low bits mean a difference divisible by 2^k. */
  lemma {:induction false} LowEqual(k: nat, u: nat, v: nat)
    requires v <= u
    ensures Low(k, u) == Low(k, v) <==> Div2(k, u - v)
  {
    if k == 0 {
    } else {
      LowEqual(k - 1, u / 2, v / 2);
      if u % 2 == v % 2 {
        assert (u - v) / 2 == u / 2 - v / 2;
      }
    }
  }

  lemma {:induction false} Div2Times(k: nat, x: nat, y: nat)
    requires Div2(k, x)
    ensures Div2(k, x * y)
  {
    if k == 0 {
    } else {
      Div2Times(k - 1, x / 2, y);
      Assoc(2, x / 2, y);
    }
  }

  lemma OddTimes(a: nat, s: nat)
    requires a % 2 == 1
    ensures (a * s) % 2 == s % 2
  {
    var h := a / 2;
    Comm(a, s);
    Dist(s, 2 * h, 1);
    Comm(s, 2 * h);
    Assoc(2, h, s);
  }

  /** An odd factor does not change divisibility by powers of two. */
  lemma {:induction false} Div2Odd(k: nat, x: nat, y: nat)
    requires y % 2 == 1
    ensures Div2(k, x * y) <==> Div2(k, x)
  {
    if k == 0 {
    } else {
      Comm(x, y);
      OddTimes(y, x);
      if x % 2 == 0 {
        Assoc(2, x / 2, y);
        Div2Odd(k - 1, x / 2, y);
      }
    }
  }

  lemma {:induction false} PowDiv(k: nat)
    ensures Div2(k, Pow2(k)) && !Div2(k + 1, Pow2(k))
  {
    if k == 0 {
    } else {
      PowDiv(k - 1);
    }
  }

  /** Agreeing in k bits and differing in k + 1 bits leaves one choice. */
  lemma {:induction false} TopBit(k: nat, u: nat, v: nat, w: nat)
    requires Low(k, u) == Low(k, v) == Low(k, w)
    requires Low(k + 1, u) != Low(k + 1, v) && Low(k + 1, u) != Low(k + 1, w)
    ensures Low(k + 1, v) == Low(k + 1, w)
  {
    if k == 0 {
    } else {
      TopBit(k - 1, u / 2, v / 2, w / 2);
    }
  }

  lemma {:induction false} LowOfLow(k: nat, l: nat, u: nat, v: nat)
    requires k <= l && Low(l, u) == Low(l, v)
    ensures Low(k, u) == Low(k, v)
  {
    if k == 0 {
    } else {
      LowOfLow(k - 1, l - 1, u / 2, v / 2);
    }
  }
}
