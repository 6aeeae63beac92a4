/** Counting leading and trailing zeros in cpu_core.c, by branch tree and table. */
module BitCount {
  import opened Bits
  import opened Word32

  /** The rows of CPU_CntLeadZerosTbl. */
  const ROWS: seq<seq<nat>> := [
    [8, 7, 6, 6, 5, 5, 5, 5, 4, 4, 4, 4, 4, 4, 4, 4],
    [3, 3, 3, 3, 3, 3, 3, 3, 3, 3, 3, 3, 3, 3, 3, 3],
    [2, 2, 2, 2, 2, 2, 2, 2, 2, 2, 2, 2, 2, 2, 2, 2],
    [2, 2, 2, 2, 2, 2, 2, 2, 2, 2, 2, 2, 2, 2, 2, 2],
    [1, 1, 1, 1, 1, 1, 1, 1, 1, 1, 1, 1, 1, 1, 1, 1],
    [1, 1, 1, 1, 1, 1, 1, 1, 1, 1, 1, 1, 1, 1, 1, 1],
    [1, 1, 1, 1, 1, 1, 1, 1, 1, 1, 1, 1, 1, 1, 1, 1],
    [1, 1, 1, 1, 1, 1, 1, 1, 1, 1, 1, 1, 1, 1, 1, 1],
    [0, 0, 0, 0, 0, 0, 0, 0, 0, 0, 0, 0, 0, 0, 0, 0],
    [0, 0, 0, 0, 0, 0, 0, 0, 0, 0, 0, 0, 0, 0, 0, 0],
    [0, 0, 0, 0, 0, 0, 0, 0, 0, 0, 0, 0, 0, 0, 0, 0],
    [0, 0, 0, 0, 0, 0, 0, 0, 0, 0, 0, 0, 0, 0, 0, 0],
    [0, 0, 0, 0, 0, 0, 0, 0, 0, 0, 0, 0, 0, 0, 0, 0],
    [0, 0, 0, 0, 0, 0, 0, 0, 0, 0, 0, 0, 0, 0, 0, 0],
    [0, 0, 0, 0, 0, 0, 0, 0, 0, 0, 0, 0, 0, 0, 0, 0],
    [0, 0, 0, 0, 0, 0, 0, 0, 0, 0, 0, 0, 0, 0, 0, 0]
  ]

  lemma FirstRow(c: nat)
    requires c < 16
    ensures |ROWS| == 16 && |ROWS[0]| == 16
    ensures c == 0 ==> ROWS[0][c] == 8
    ensures c == 1 ==> ROWS[0][c] == 7
    ensures 2 <= c < 4 ==> ROWS[0][c] == 6
    ensures 4 <= c < 8 ==> ROWS[0][c] == 5
    ensures 8 <= c ==> ROWS[0][c] == 4
  {
  }

  lemma OtherRows(r: nat, c: nat)
    requires 0 < r < 16 && c < 16
    ensures |ROWS| == 16 && |ROWS[r]| == 16
    ensures r == 1 ==> ROWS[r][c] == 3
    ensures 2 <= r < 4 ==> ROWS[r][c] == 2
    ensures 4 <= r < 8 ==> ROWS[r][c] == 1
    ensures 8 <= r ==> ROWS[r][c] == 0
  {
  }

  /** One look-up in the table. */
  function Tbl(ix: nat): nat
    requires ix < 256
  {
    FirstRow(ix % 16);
    if ix / 16 > 0 then
      OtherRows(ix / 16, ix % 16);
      ROWS[ix / 16][ix % 16]
    else ROWS[0][ix % 16]
  }

  // ---------------------------------------------------------------- what is counted

  /** `z` is the number of zeros above the highest set bit of a `bits`-bit value. */
  predicate IsLeadZeros(bits: nat, v: nat, z: nat) {
    if v == 0 then z == bits else z < bits && Pow2(bits - 1 - z) <= v < Pow2(bits - z)
  }

  /** `z` is the number of zeros below the lowest set bit of a `bits`-bit value. */
  predicate IsTrailZeros(bits: nat, v: nat, z: nat) {
    if v == 0 then z == bits else v % Pow2(z) == 0 && v % Pow2(z + 1) != 0
  }

  lemma {:induction false} Pow2Order(j: nat, k: nat)
    ensures j < k <==> Pow2(j) < Pow2(k)
    decreases j + k
  {
    if j == 0 || k == 0 {
    } else {
      Pow2Order(j - 1, k - 1);
    }
  }

  lemma {:induction false} Pow2Add(j: nat, k: nat)
    ensures Pow2(j + k) == Pow2(j) * Pow2(k)
  {
    if j == 0 {
    } else {
      Pow2Add(j - 1, k);
      Assoc(2, Pow2(j - 1), Pow2(k));
    }
  }

  lemma LeadZerosUnique(bits: nat, v: nat, y: nat, z: nat)
    requires IsLeadZeros(bits, v, y) && IsLeadZeros(bits, v, z)
    ensures y == z
  {
    if v > 0 {
      Pow2Order(bits - 1 - y, bits - z);
      Pow2Order(bits - 1 - z, bits - y);
    }
  }

  // ---------------------------------------------------------------- CPU_CntLeadZeros

  function CntLeadZeros08(val: nat): nat
    requires val < 0x100
  {
    Tbl(val)
  }

  function CntLeadZeros16(val: nat): nat
    requires val < 0x1_0000
  {
    if val > 0xFF then Tbl(val / 0x100) else Tbl(val) + 8
  }

  function CntLeadZeros32(val: nat): nat
    requires val < 0x1_0000_0000
  {
    if val > 0xFFFF then
      if val > 0xFF_FFFF then Tbl(val / 0x100_0000) else Tbl(val / 0x1_0000) + 8
    else
      if val > 0xFF then Tbl(val / 0x100) + 16 else Tbl(val) + 24
  }

  function CntLeadZeros64(val: nat): nat
    requires val < 0x1_0000_0000_0000_0000
  {
    if val > 0xFFFF_FFFF then
      if val > 0xFFFF_FFFF_FFFF then
        if val > 0xFF_FFFF_FFFF_FFFF then Tbl(val / 0x100_0000_0000_0000) else Tbl(val / 0x1_0000_0000_0000) + 8
      else
        if val > 0xFF_FFFF_FFFF then Tbl(val / 0x100_0000_0000) + 16 else Tbl(val / 0x1_0000_0000) + 24
    else
      if val > 0xFFFF then
        if val > 0xFF_FFFF then Tbl(val / 0x100_0000) + 32 else Tbl(val / 0x1_0000) + 40
      else
        if val > 0xFF then Tbl(val / 0x100) + 48 else Tbl(val) + 56
  }

  lemma SmallPowers()
    ensures Pow2(0) == 1 && Pow2(1) == 2 && Pow2(2) == 4 && Pow2(3) == 8 && Pow2(4) == 0x10
    ensures Pow2(5) == 0x20 && Pow2(6) == 0x40 && Pow2(7) == 0x80 && Pow2(8) == 0x100
  {
  }

  /** The table holds the leading zeros of every octet. */
  lemma TblExact(ix: nat)
    requires ix < 256
    ensures IsLeadZeros(8, ix, Tbl(ix))
  {
    hide Pow2;
    SmallPowers();
    FirstRow(ix % 16);
    if ix / 16 > 0 {
      OtherRows(ix / 16, ix % 16);
    }
  }

  /** Leading zeros from those of the octet at bit `sh`, when there is nothing above it. */
  lemma OctetLeads(bits: nat, v: nat, sh: nat, p: nat)
    requires sh + 8 <= bits && p == Pow2(sh) && v / p < 256 && (v / p > 0 || sh == 0)
    ensures IsLeadZeros(bits, v, Tbl(v / p) + (bits - 8 - sh))
  {
    hide Tbl, Pow2;
    SmallPowers();
    TblExact(v / p);
    if v / p > 0 {
      OctetScaled(bits, v, sh, p, Tbl(v / p));
    } else {
      assert p == 1 && v == 0;
    }
  }

  lemma OctetScaled(bits: nat, v: nat, sh: nat, p: nat, z: nat)
    requires sh + 8 <= bits && p == Pow2(sh) && z < 8 && Pow2(7 - z) <= v / p < Pow2(8 - z)
    ensures IsLeadZeros(bits, v, z + (bits - 8 - sh))
  {
    hide Pow2;
    var y := z + (bits - 8 - sh);
    Pow2Add(7 - z, sh);
    Pow2Add(8 - z, sh);
    assert 7 - z + sh == bits - 1 - y && 8 - z + sh == bits - y;
    QuotientRange(v, p, Pow2(7 - z), Pow2(8 - z));
    Pow2Positive(bits - 1 - y);
  }

  lemma Pow2Positive(k: nat)
    ensures Pow2(k) > 0
  {
  }

  lemma QuotientRange(v: nat, p: nat, lo: nat, hi: nat)
    requires p > 0 && lo <= v / p < hi
    ensures lo * p <= v < hi * p
  {
    var q := v / p;
    assert v == p * q + v % p;
    Comm(lo, p);
    Comm(hi, p);
    Dist(p, lo, q - lo);
    Dist(p, q + 1, hi - q - 1);
    Dist(p, q, 1);
    assert p * (q - lo) >= 0 && p * (hi - q - 1) >= 0;
  }

  lemma OctetPowers()
    ensures Pow2(8) == 0x100 && Pow2(16) == 0x1_0000 && Pow2(24) == 0x100_0000 && Pow2(32) == 0x1_0000_0000
    ensures Pow2(40) == 0x100_0000_0000 && Pow2(48) == 0x1_0000_0000_0000 && Pow2(56) == 0x100_0000_0000_0000
    ensures Pow2(64) == 0x1_0000_0000_0000_0000
  {
    SmallPowers();
    hide Pow2;
    Pow2Add(8, 8);
    Pow2Add(8, 16);
    Pow2Add(8, 24);
    Pow2Add(8, 32);
    Pow2Add(8, 40);
    Pow2Add(8, 48);
    Pow2Add(8, 56);
  }

  /** The branch trees count the leading zeros of every value. */
  lemma LeadZeros64Exact(val: nat)
    requires val < 0x1_0000_0000_0000_0000
    ensures IsLeadZeros(64, val, CntLeadZeros64(val))
  {
    hide Pow2, Tbl, IsLeadZeros;
    OctetPowers();
    SmallPowers();
    var sh :=
      if val > 0xFFFF_FFFF then
        if val > 0xFFFF_FFFF_FFFF then (if val > 0xFF_FFFF_FFFF_FFFF then 56 else 48)
        else (if val > 0xFF_FFFF_FFFF then 40 else 32)
      else
        if val > 0xFFFF then (if val > 0xFF_FFFF then 24 else 16)
        else (if val > 0xFF then 8 else 0);
    OctetLeads(64, val, sh, Pow2(sh));
  }

  lemma LeadZeros32Exact(val: nat)
    requires val < 0x1_0000_0000
    ensures IsLeadZeros(32, val, CntLeadZeros32(val))
  {
    hide Pow2, Tbl, IsLeadZeros;
    OctetPowers();
    SmallPowers();
    var sh := if val > 0xFFFF then (if val > 0xFF_FFFF then 24 else 16) else (if val > 0xFF then 8 else 0);
    OctetLeads(32, val, sh, Pow2(sh));
  }

  lemma LeadZeros16Exact(val: nat)
    requires val < 0x1_0000
    ensures IsLeadZeros(16, val, CntLeadZeros16(val))
  {
    hide Pow2, Tbl, IsLeadZeros;
    OctetPowers();
    SmallPowers();
    var sh := if val > 0xFF then 8 else 0;
    OctetLeads(16, val, sh, Pow2(sh));
  }

  /** The same value seen in a wider type has that many more leading zeros. */
  lemma WiderLeads(bits: nat, more: nat, v: nat, z: nat)
    requires IsLeadZeros(bits, v, z)
    ensures IsLeadZeros(bits + more, v, z + more)
  {
    assert bits + more - 1 - (z + more) == bits - 1 - z;
  }

  /** The narrower trees agree with the widest one less the difference in width. */
  lemma NarrowAgrees(val: nat)
    ensures val < 0x100 ==> CntLeadZeros08(val) == CntLeadZeros64(val) - 56
    ensures val < 0x1_0000 ==> CntLeadZeros16(val) == CntLeadZeros64(val) - 48
    ensures val < 0x1_0000_0000 ==> CntLeadZeros32(val) == CntLeadZeros64(val) - 32
  {
    hide IsLeadZeros, CntLeadZeros16, CntLeadZeros32, CntLeadZeros64, Tbl;
    if val < 0x1_0000_0000 {
      LeadZeros64Exact(val);
      LeadZeros32Exact(val);
      WiderLeads(32, 32, val, CntLeadZeros32(val));
      LeadZerosUnique(64, val, CntLeadZeros64(val), CntLeadZeros32(val) + 32);
    }
    if val < 0x1_0000 {
      LeadZeros16Exact(val);
      WiderLeads(16, 48, val, CntLeadZeros16(val));
      LeadZerosUnique(64, val, CntLeadZeros64(val), CntLeadZeros16(val) + 48);
    }
    if val < 0x100 {
      TblExact(val);
      WiderLeads(8, 56, val, CntLeadZeros08(val));
      LeadZerosUnique(64, val, CntLeadZeros64(val), CntLeadZeros08(val) + 56);
    }
  }

  // ---------------------------------------------------------------- CPU_CntTrailZeros

  /** Bitwise and, complement of `n`-bit values. */
  function And(n: nat, u: nat, v: nat): (r: nat)
    ensures r <= u
  {
    if n == 0 then 0 else (if u % 2 == 1 && v % 2 == 1 then 1 else 0) + 2 * And(n - 1, u / 2, v / 2)
  }

  function Not(n: nat, v: nat): (r: nat)
    requires v < Pow2(n)
    ensures r < Pow2(n)
  {
    Pow2(n) - 1 - v
  }

  /** val & (~val + 1): all bits but the lowest set bit are cleared. */
  function LowestBit(n: nat, v: nat): (r: nat)
    requires v < Pow2(n)
    ensures r <= v
  {
    And(n, v, (Not(n, v) + 1) % Pow2(n))
  }

  /** A value and its complement have no bit in common. */
  lemma {:induction false} AndNot(n: nat, v: nat)
    requires v < Pow2(n)
    ensures And(n, v, Not(n, v)) == 0
  {
    if n == 0 {
    } else {
      AndNot(n - 1, v / 2);
      assert Not(n, v) / 2 == Not(n - 1, v / 2);
    }
  }

  lemma {:induction false} LowestBitIs(n: nat, v: nat, z: nat)
    requires 0 < v < Pow2(n) && Div2(z, v) && !Div2(z + 1, v)
    ensures And(n, v, Pow2(n) - v) == Pow2(z)
  {
    if v % 2 == 1 {
      AndNot(n - 1, v / 2);
      assert (Pow2(n) - v) / 2 == Not(n - 1, v / 2);
    } else {
      LowestBitIs(n - 1, v / 2, z - 1);
      assert (Pow2(n) - v) / 2 == Pow2(n - 1) - v / 2;
    }
  }

  /** Every value but 0 has a lowest set bit. */
  lemma {:induction false} LowestExists(v: nat) returns (z: nat)
    requires v > 0
    ensures Div2(z, v) && !Div2(z + 1, v)
  {
    if v % 2 == 1 {
      z := 0;
    } else {
      z := LowestExists(v / 2);
      z := z + 1;
    }
  }

  function CntTrailZeros08(val: nat): int
    requires val < 0x100
  {
    OctetPowers();
    if val == 0 then 8 else 7 - CntLeadZeros08(LowestBit(8, val))
  }

  function CntTrailZeros16(val: nat): int
    requires val < 0x1_0000
  {
    OctetPowers();
    if val == 0 then 16 else 15 - CntLeadZeros16(LowestBit(16, val))
  }

  function CntTrailZeros32(val: nat): int
    requires val < 0x1_0000_0000
  {
    OctetPowers();
    if val == 0 then 32 else 31 - CntLeadZeros32(LowestBit(32, val))
  }

  function CntTrailZeros64(val: nat): int
    requires val < 0x1_0000_0000_0000_0000
  {
    OctetPowers();
    if val == 0 then 64 else 63 - CntLeadZeros64(LowestBit(64, val))
  }

  /** The lowest set bit, alone, is 2^z, for the number z of trailing zeros. */
  lemma LowestBitExact(n: nat, v: nat) returns (z: nat)
    requires 0 < v < Pow2(n)
    ensures LowestBit(n, v) == Pow2(z) && IsTrailZeros(n, v, z) && z < n
  {
    hide And, Not, Div2, Pow2, IsTrailZeros;
    z := LowestExists(v);
    LowestBitIs(n, v, z);
    Negated(n, v);
    TrailsByDivision(n, v, z);
    Pow2Order(z, n);
  }

  lemma Negated(n: nat, v: nat)
    requires 0 < v < Pow2(n)
    ensures (Not(n, v) + 1) % Pow2(n) == Pow2(n) - v
  {
    hide Pow2;
    SmallRemainder(Pow2(n) - v, Pow2(n));
  }

  lemma SmallRemainder(x: nat, p: nat)
    requires x < p
    ensures x % p == x
  {
  }

  lemma TrailsByDivision(n: nat, v: nat, z: nat)
    requires v > 0 && Div2(z, v) && !Div2(z + 1, v)
    ensures IsTrailZeros(n, v, z)
  {
    Div2IsDivisible(z, v);
    Div2IsDivisible(z + 1, v);
  }

  /** The leading zeros of a power of two. */
  lemma LeadsOfPower(n: nat, z: nat, l: nat)
    requires z < n && IsLeadZeros(n, Pow2(z), l)
    ensures l == n - 1 - z
  {
    LeadZerosUnique(n, Pow2(z), l, n - 1 - z);
  }

  /** The trailing zeros from the leading zeros of the lowest set bit. */
  lemma TrailsFromLeads(n: nat, v: nat, l: nat)
    requires 0 < v < Pow2(n) && IsLeadZeros(n, LowestBit(n, v), l)
    ensures n - 1 - l >= 0 && IsTrailZeros(n, v, n - 1 - l)
  {
    hide IsTrailZeros, LowestBit;
    var z := LowestBitExact(n, v);
    LeadsOfPower(n, z, l);
  }

  lemma ZeroTrails(bits: nat)
    ensures IsTrailZeros(bits, 0, bits)
  {
  }

  /** 2^ctz divides the value and 2^(ctz+1) does not, for every value but 0. */
  lemma TrailZeros64Exact(val: nat)
    requires val < 0x1_0000_0000_0000_0000
    ensures CntTrailZeros64(val) >= 0 && IsTrailZeros(64, val, CntTrailZeros64(val))
  {
    hide IsLeadZeros, IsTrailZeros, CntLeadZeros64, LowestBit, Pow2;
    ZeroTrails(64);
    OctetPowers();
    if val > 0 {
      LeadZeros64Exact(LowestBit(64, val));
      TrailsFromLeads(64, val, CntLeadZeros64(LowestBit(64, val)));
    }
  }

  lemma NarrowTrailsExact(val: nat)
    ensures val < 0x100 ==> CntTrailZeros08(val) >= 0 && IsTrailZeros(8, val, CntTrailZeros08(val))
    ensures val < 0x1_0000 ==> CntTrailZeros16(val) >= 0 && IsTrailZeros(16, val, CntTrailZeros16(val))
    ensures val < 0x1_0000_0000 ==> CntTrailZeros32(val) >= 0 && IsTrailZeros(32, val, CntTrailZeros32(val))
  {
    hide IsLeadZeros, IsTrailZeros, CntLeadZeros32, CntLeadZeros16, Tbl, LowestBit, Pow2;
    ZeroTrails(8);
    ZeroTrails(16);
    ZeroTrails(32);
    OctetPowers();
    if 0 < val < 0x100 {
      TblExact(LowestBit(8, val));
      TrailsFromLeads(8, val, CntLeadZeros08(LowestBit(8, val)));
    }
    if 0 < val < 0x1_0000 {
      LeadZeros16Exact(LowestBit(16, val));
      TrailsFromLeads(16, val, CntLeadZeros16(LowestBit(16, val)));
    }
    if 0 < val < 0x1_0000_0000 {
      LeadZeros32Exact(LowestBit(32, val));
      TrailsFromLeads(32, val, CntLeadZeros32(LowestBit(32, val)));
    }
  }
}
