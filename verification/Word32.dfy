/** 32-bit unsigned arithmetic as the C code uses it. Sizes and addresses are below
    2^32 and wrap. Remainders and products of two variables are defined by repeated
    subtraction and addition, which keeps every proof linear; `ModIsRemainder` and
    `TimesIsProduct` tie them to the operators. */
module Word32 {

  const W: nat := 0x1_0000_0000

  type u32 = x: nat | x < W

  /** x % n. */
  function Mod(x: nat, n: nat): (r: nat)
    requires n > 0
    ensures r < n && r <= x
  {
    if x < n then x else Mod(x - n, n)
  }

  /** a * k. */
  function Times(a: nat, k: nat): nat {
    if k == 0 then 0 else Times(a, k - 1) + a
  }

  lemma {:induction false} TimesIsProduct(a: nat, k: nat)
    ensures Times(a, k) == a * k
  {
    if k == 0 {
    } else {
      TimesIsProduct(a, k - 1);
    }
  }

  lemma {:induction false} ModIsRemainder(x: nat, n: nat)
    requires n > 0
    ensures Mod(x, n) == x % n
    decreases x
  {
    if x < n {
    } else {
      ModIsRemainder(x - n, n);
      RemainderLess(x, n);
    }
  }

  lemma RemainderLess(x: nat, n: nat)
    requires 0 < n <= x
    ensures x % n == (x - n) % n
  {
    var q, r := (x - n) / n, (x - n) % n;
    assert x == n * (q + 1) + r;
    RemainderUnique(n, x / n - (q + 1), r - x % n);
  }

  lemma Dist(x: int, y: int, z: int)
    ensures x * (y + z) == x * y + x * z
  {
  }

  /** A multiple of `n` strictly between -n and n is 0. */
  lemma RemainderUnique(n: nat, q: int, d: int)
    requires n > 0 && n * q == d && -(n as int) < d < n
    ensures d == 0
  {
    assert q >= 1 ==> n * q >= n;
    assert q <= -1 ==> n * q <= -(n as int);
  }

  predicate Aligned(x: nat, align: nat)
    requires align > 0
  {
    Mod(x, align) == 0
  }

  /** The octets to skip so that an address (or a size) becomes a multiple of
      `align`: the if-else the library repeats wherever it aligns. */
  function Gap(x: nat, align: nat): (g: nat)
    requires align > 0
    ensures g < align
  {
    if Mod(x, align) != 0 then align - Mod(x, align) else 0
  }

  lemma GapZero(align: nat)
    requires align > 0
    ensures Gap(0, align) == 0
  {
  }

  function AlignUp(x: nat, align: nat): nat
    requires align > 0
  {
    x + Gap(x, align)
  }

  /** Moving by a multiple of `n` changes neither the remainder nor the gap. */
  lemma {:induction false} ModShift(m: nat, x: nat, n: nat)
    requires n > 0 && Aligned(m, n)
    ensures Mod(m + x, n) == Mod(x, n) && Gap(m + x, n) == Gap(x, n)
    decreases m
  {
    if m == 0 {
    } else {
      ModShift(m - n, x, n);
    }
  }

  /** `AlignUp` is the least multiple of `align` that is not below `x`. */
  lemma {:induction false} AlignUpLeast(x: nat, align: nat, y: nat)
    requires align > 0
    ensures Aligned(AlignUp(x, align), align)
    ensures x <= y && Aligned(y, align) ==> AlignUp(x, align) <= y
    decreases x
  {
    if x >= align {
      AlignUpLeast(x - align, align, if y >= align then y - align else 0);
    } else {
      assert Mod(align, align) == 0;
    }
  }

  /** Multiples of `n` are closed under addition of whole strides. */
  lemma {:induction false} AlignedStrides(x: nat, y: nat, k: nat, n: nat)
    requires n > 0 && Aligned(x, n) && Aligned(y, n)
    ensures Aligned(x + Times(y, k), n)
  {
    if k == 0 {
    } else {
      AlignedStrides(x, y, k - 1, n);
      ModShift(x + Times(y, k - 1), y, n);
    }
  }

  lemma {:induction false} TimesOrder(a: nat, j: nat, k: nat)
    requires j <= k
    ensures Times(a, j) <= Times(a, k)
    ensures j < k ==> Times(a, j) + a <= Times(a, k)
    decreases k
  {
    if j == k {
    } else {
      TimesOrder(a, j, k - 1);
    }
  }

  /** A wrapped factor gives the same wrapped product. */
  lemma {:induction false} TimesWraps(a: nat, k: nat)
    ensures Times(a % W, k) % W == Times(a, k) % W
  {
    if k == 0 {
    } else {
      TimesWraps(a, k - 1);
      WrappedSum(Times(a % W, k - 1), a % W);
      WrappedSum(Times(a, k - 1), a);
    }
  }

  lemma WrappedSum(x: nat, y: nat)
    ensures (x + y) % W == (x % W + y % W) % W
  {
    var q := x / W + y / W;
    assert x + y == W * q + (x % W + y % W);
  }

  /** A multiple of `n` is a whole number of strides of `n`. */
  lemma {:induction false} AlignedIsTimes(x: nat, n: nat) returns (k: nat)
    requires n > 0 && Aligned(x, n)
    ensures x == Times(n, k)
    decreases x
  {
    if x == 0 {
      k := 0;
    } else {
      k := AlignedIsTimes(x - n, n);
      k := k + 1;
    }
  }

  lemma {:induction false} TimesAligned(n: nat, k: nat)
    requires n > 0
    ensures Aligned(Times(n, k), n)
  {
    if k == 0 {
    } else {
      TimesAligned(n, k - 1);
    }
  }

  /** Taking the remainder away leaves a multiple. */
  lemma {:induction false} ModMinus(x: nat, n: nat)
    requires n > 0
    ensures Aligned(x - Mod(x, n), n)
    decreases x
  {
    if x < n {
    } else {
      ModMinus(x - n, n);
    }
  }
}
