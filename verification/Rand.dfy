/** The linear congruential generator of lib_math.c. */
module Rand {
  import opened Word32
  import opened Bits

  const PARAM_M: u32 := 0x7FFF_FFFF
  const PARAM_A: u32 := 1103515245
  const PARAM_B: u32 := 12345
  const SEED_INIT_VAL: u32 := 1

  /** Math_RandSeed, in 32-bit arithmetic. */
  function RandSeed(seed: u32): (r: u32)
    ensures r <= PARAM_M
  {
    (((PARAM_A * seed) % W + PARAM_B) % W) % (PARAM_M + 1)
  }

  /** The seed after `n` calls. */
  function Nth(seed: u32, n: nat): (r: u32)
    ensures n > 0 ==> r <= PARAM_M
  {
    if n == 0 then seed else RandSeed(Nth(seed, n - 1))
  }

  /** The global Math_RandSeedCur and the functions that change it. */
  class Math {
    var randSeedCur: u32

    /** Math_Init. */
    constructor ()
      ensures randSeedCur == SEED_INIT_VAL == 1
    {
      randSeedCur := SEED_INIT_VAL;
    }

    method RandSetSeed(seed: u32)
      modifies this
      ensures randSeedCur == seed
    {
      randSeedCur := seed;
    }

    method Rand() returns (randNbr: u32)
      modifies this
      ensures randNbr == randSeedCur == Nth(old(randSeedCur), 1)
      ensures randNbr == (1103515245 * old(randSeedCur) + 12345) % 0x8000_0000
    {
      SeedStep(randSeedCur);
      var seed := randSeedCur;
      assert Nth(seed, 0) == seed;
      randNbr := RandSeed(seed);
      randSeedCur := randNbr;
    }
  }

  // ---------------------------------------------------------------- the unbounded sequence

  /** x, ax + b, a(ax + b) + b, ... without any modulus. */
  function X(a: nat, b: nat, x: nat, n: nat): nat {
    if n == 0 then x else a * X(a, b, x, n - 1) + b
  }

  /** 1 + a + ... + a^(n-1). */
  function S(a: nat, n: nat): nat {
    if n == 0 then 0 else a * S(a, n - 1) + 1
  }

  /** Taking the low bits at every step or only at the end is the same. */
  lemma LowStep(k: nat, a: nat, b: nat, u: nat, v: nat)
    requires Low(k, u) == Low(k, v)
    ensures Low(k, a * u + b) == Low(k, a * v + b)
  {
    if u < v {
      LowStepUp(k, a, b, v, u);
    } else {
      LowStepUp(k, a, b, u, v);
    }
  }

  lemma LowStepUp(k: nat, a: nat, b: nat, u: nat, v: nat)
    requires Low(k, u) == Low(k, v) && v <= u
    ensures Low(k, a * u + b) == Low(k, a * v + b)
  {
    hide Low, Div2;
    LowEqual(k, u, v);
    Div2Times(k, u - v, a);
    var d := u - v;
    assert a * u == a * v + d * a;
    LowEqual(k, a * v + d * a + b, a * v + b);
  }

  lemma {:induction false} Closed(a: nat, b: nat, x: nat, n: nat)
    requires a > 0
    ensures X(a, b, x, n) == x + S(a, n) * ((a - 1) * x + b)
  {
    if n > 0 {
      Closed(a, b, x, n - 1);
      ClosedStep(a, a - 1, b, x, S(a, n - 1), (a - 1) * x + b);
    } else {
      assert S(a, 0) == 0;
    }
  }

  lemma ClosedStep(a: nat, e: nat, b: nat, x: nat, s: nat, t: nat)
    requires a == e + 1 && t == e * x + b
    ensures a * (x + s * t) + b == x + (a * s + 1) * t
  {
    Dist(a, x, s * t);
    Assoc(a, s, t);
    Comm(a * s + 1, t);
    Dist(t, a * s, 1);
    Comm(t, a * s);
    Comm(x, a);
    Dist(x, e, 1);
    Comm(x, e);
  }

  function Power(a: nat, n: nat): nat {
    if n == 0 then 1 else a * Power(a, n - 1)
  }

  lemma {:induction false} PowerIs(a: nat, n: nat)
    requires a > 0
    ensures Power(a, n) == 1 + (a - 1) * S(a, n)
  {
    if n == 0 {
    } else {
      PowerIs(a, n - 1);
      PowerStep(a, a - 1, S(a, n - 1));
    }
  }

  lemma PowerStep(a: nat, e: nat, s: nat)
    requires a == e + 1
    ensures a * (1 + e * s) == 1 + e * (a * s + 1)
  {
    Dist(a, 1, e * s);
    Dist(e, a * s, 1);
    Assoc(a, e, s);
    Assoc(e, a, s);
    Comm(a, e);
  }

  lemma {:induction false} SAdd(a: nat, m: nat, n: nat)
    ensures S(a, m + n) == S(a, m) + Power(a, m) * S(a, n)
  {
    if m == 0 {
    } else {
      SAdd(a, m - 1, n);
      var s, p, t := S(a, m - 1), Power(a, m - 1), S(a, n);
      Dist(a, s, p * t);
      Assoc(a, p, t);
    }
  }

  lemma {:induction false} SParity(a: nat, n: nat)
    requires a % 2 == 1
    ensures S(a, n) % 2 == n % 2
  {
    if n == 0 {
    } else {
      SParity(a, n - 1);
      OddTimesNext(a, S(a, n - 1), n);
    }
  }

  lemma OddTimesNext(a: nat, s: nat, n: nat)
    requires a % 2 == 1 && n > 0 && s % 2 == (n - 1) % 2
    ensures (a * s + 1) % 2 == n % 2
  {
    OddTimes(a, s);
    var p := a * s;
    assert (p + 1) % 2 == n % 2;
  }

  /** With a = 1 mod 4, doubling n doubles the power of two in S. */
  lemma SDouble(a: nat, m: nat) returns (odd: nat)
    requires a % 4 == 1
    ensures odd % 2 == 1 && S(a, 2 * m) == 2 * (S(a, m) * odd)
  {
    hide S, Power;
    var s, c := S(a, m), a / 4;
    SAdd(a, m, m);
    PowerIs(a, m);
    assert m + m == 2 * m;
    var e := c * s;
    assert (4 * c) * s == 4 * e;
    odd := 1 + 2 * e;
    Doubled(s, e);
  }

  lemma Doubled(s: nat, e: nat)
    ensures s + (1 + 4 * e) * s == 2 * (s * (1 + 2 * e))
  {
    Comm(1 + 4 * e, s);
    Dist(s, 1, 4 * e);
    Dist(s, 1, 2 * e);
    Assoc(s, 2, e);
    Assoc(s, 4, e);
  }

  /** 2^k divides S(n) exactly if it divides n. */
  lemma {:induction false} SDiv(k: nat, a: nat, n: nat)
    requires a % 4 == 1
    ensures Div2(k, S(a, n)) <==> Div2(k, n)
  {
    SParity(a, n);
    Div2Parity(k, S(a, n));
    Div2Parity(k, n);
    if k == 0 || n % 2 == 1 {
    } else {
      hide S, Div2;
      var odd := SDouble(a, n / 2);
      Div2Odd(k - 1, S(a, n / 2), odd);
      SDiv(k - 1, a, n / 2);
    }
  }

  lemma Div2Parity(k: nat, v: nat)
    ensures k > 0 ==> (Div2(k, v) <==> v % 2 == 0 && Div2(k - 1, v / 2))
    ensures k == 0 ==> Div2(k, v)
  {
  }

  /** The k low bits return to their first value after n steps exactly if 2^k divides n. */
  lemma LowPeriod(k: nat, a: nat, b: nat, x: nat, n: nat)
    requires a % 4 == 1 && b % 2 == 1
    ensures Low(k, X(a, b, x, n)) == Low(k, x) <==> Div2(k, n)
  {
    hide Low, Div2, X, S;
    var c, t := a / 4, (a - 1) * x + b;
    assert t % 2 == 1 by {
      assert (a - 1) * x == 2 * (2 * (c * x));
    }
    Closed(a, b, x, n);
    LowEqual(k, x + S(a, n) * t, x);
    Div2Odd(k, S(a, n), t);
    SDiv(k, a, n);
  }

  lemma {:induction false} XAdd(a: nat, b: nat, x: nat, i: nat, n: nat)
    ensures X(a, b, x, i + n) == X(a, b, X(a, b, x, i), n)
  {
    if n == 0 {
    } else {
      XAdd(a, b, x, i, n - 1);
    }
  }

  /** Every k-bit pattern appears within 2^k steps. */
  lemma {:induction false} LowReached(k: nat, a: nat, b: nat, x: nat, v: nat) returns (n: nat)
    requires a % 4 == 1 && b % 2 == 1
    ensures n < Pow2(k) && Low(k, X(a, b, x, n)) == Low(k, v)
  {
    if k == 0 {
      n := 0;
    } else {
      n := LowReached(k - 1, a, b, x, v);
      var y, p := X(a, b, x, n), Pow2(k - 1);
      if Low(k, y) != Low(k, v) {
        XAdd(a, b, x, n, p);
        PowDiv(k - 1);
        LowPeriod(k - 1, a, b, y, p);
        LowPeriod(k, a, b, y, p);
        TopBit(k - 1, y, X(a, b, y, p), v);
        n := n + p;
      }
    }
  }

  // ---------------------------------------------------------------- Math_Rand

  const BITS: nat := 31

  lemma Low31(v: nat)
    ensures Low(BITS, v) == v % (PARAM_M + 1)
  {
    LowIsRemainder(BITS, v);
    Pow31();
  }

  lemma Pow31()
    ensures Pow2(BITS) == PARAM_M + 1
  {
    assert Pow2(8) == 0x100;
    assert Pow2(16) == 0x1_0000;
    assert Pow2(24) == 0x100_0000;
  }

  lemma SeedStep(seed: u32)
    ensures RandSeed(seed) == (PARAM_A * seed + PARAM_B) % (PARAM_M + 1)
  {
    WrapThenLow(PARAM_A * seed);
  }

  lemma WrapThenLow(v: nat)
    ensures ((v % W + PARAM_B) % W) % (PARAM_M + 1) == (v + PARAM_B) % (PARAM_M + 1)
  {
    WrappedAdd(v, PARAM_B);
    HalfOfWord(v + PARAM_B);
  }

  lemma WrappedAdd(v: nat, b: u32)
    ensures (v % W + b) % W == (v + b) % W
  {
    WrappedSum(v, b);
  }

  /** Reducing to 32 bits first does not change the 31 low bits. */
  lemma HalfOfWord(u: nat)
    ensures (u % W) % (PARAM_M + 1) == u % (PARAM_M + 1)
  {
    var m := PARAM_M + 1;
    var r := u % W;
    var k := 2 * (u / W) + r / m;
    assert u == m * k + r % m;
    RemainderUnique(m, u / m - k, r % m - u % m);
  }

  /** One call on a number that agrees with `v` in its 31 low bits. */
  lemma SeedStepLow(u: u32, v: nat)
    requires Low(BITS, u) == Low(BITS, v)
    ensures RandSeed(u) == Low(BITS, RandSeed(u)) == Low(BITS, PARAM_A * v + PARAM_B)
  {
    hide Low, RandSeed;
    SeedStep(u);
    LowStep(BITS, PARAM_A, PARAM_B, u, v);
    Low31(PARAM_A * u + PARAM_B);
    Low31(RandSeed(u));
  }

  /** The calls of Math_Rand follow the unbounded sequence in their 31 low bits. */
  lemma {:induction false} NthIsLow(seed: u32, n: nat)
    ensures Low(BITS, Nth(seed, n)) == Low(BITS, X(PARAM_A, PARAM_B, seed, n))
    ensures Nth(seed, n) <= PARAM_M ==> Nth(seed, n) == Low(BITS, X(PARAM_A, PARAM_B, seed, n))
  {
    hide Low, RandSeed;
    if n == 0 {
      Low31(seed);
    } else {
      NthIsLow(seed, n - 1);
      SeedStepLow(Nth(seed, n - 1), X(PARAM_A, PARAM_B, seed, n - 1));
    }
  }

  lemma {:induction false} NthAdd(seed: u32, i: nat, n: nat)
    ensures Nth(seed, i + n) == Nth(Nth(seed, i), n)
  {
    if n == 0 {
    } else {
      NthAdd(seed, i, n - 1);
    }
  }

  /** The k low bits alone have period 2^k: from any point of the sequence of any seed they
      are the same again after n calls exactly if 2^k divides n. */
  lemma LowBitsPeriod(k: nat, seed: u32, i: nat, n: nat)
    requires k <= BITS
    ensures Nth(seed, i + n) % Pow2(k) == Nth(seed, i) % Pow2(k) <==> n % Pow2(k) == 0
  {
    hide Low, Div2, X, Nth;
    var x := Nth(seed, i);
    NthAdd(seed, i, n);
    NthIsLow(x, n);
    LowOfLow(k, BITS, Nth(x, n), X(PARAM_A, PARAM_B, x, n));
    LowPeriod(k, PARAM_A, PARAM_B, x, n);
    LowIsRemainder(k, Nth(x, n));
    LowIsRemainder(k, x);
    Div2IsDivisible(k, n);
  }

  /** Full period: from any generated number, and from any seed below 2^31, the sequence is
      at the same value again after n calls exactly if n is a multiple of 2^31. */
  lemma FullPeriod(seed: u32, i: nat, n: nat)
    requires Nth(seed, i) <= PARAM_M
    ensures Nth(seed, i + n) == Nth(seed, i) <==> n % 0x8000_0000 == 0
  {
    hide Nth;
    Pow31();
    LowBitsPeriod(BITS, seed, i, n);
    NthAdd(seed, i, n);
    InRange(Nth(seed, i), n);
  }

  lemma InRange(seed: u32, n: nat)
    requires seed <= PARAM_M
    ensures Nth(seed, n) <= PARAM_M
  {
  }

  /** A larger seed is never generated again. */
  lemma LargeSeedNeverReturns(seed: u32, n: nat)
    requires seed > PARAM_M && n > 0
    ensures Nth(seed, n) != seed
  {
  }

  /** Every value in [0, RAND_LCG_PARAM_M] is generated exactly once in every 2^31 calls,
      from any seed and any point of the sequence. */
  lemma EveryValueOnce(seed: u32, i: nat, v: u32)
    requires v <= PARAM_M && i > 0
    ensures exists n ::
      && i <= n < i + 0x8000_0000 && Nth(seed, n) == v
      && forall j :: i <= j < i + 0x8000_0000 && Nth(seed, j) == v ==> j == n
  {
    hide Low, X, Nth;
    var x := Nth(seed, i);
    Pow31();
    var n := LowReached(BITS, PARAM_A, PARAM_B, x, v);
    NthAdd(seed, i, n);
    InRange(x, n);
    NthIsLow(x, n);
    Low31(v);
    assert Nth(seed, i + n) == v;
    forall j | i <= j < i + 0x8000_0000 && Nth(seed, j) == v ensures j == i + n {
      OnceInACycle(seed, if j < i + n then j else i + n, if j < i + n then i + n else j);
    }
  }

  lemma OnceInACycle(seed: u32, i: nat, j: nat)
    requires 0 < i <= j < i + 0x8000_0000 && Nth(seed, i) == Nth(seed, j)
    ensures i == j
  {
    FullPeriod(seed, i, j - i);
  }
}
