/** Memory segments: the size calculation and the bump allocator of lib_mem.c. */
module Segments {
  import opened Word32

  /** A segment of `size` octets of which the first `used` have been handed out.
      Its base address is kept by the table that holds the segment. */
  datatype Seg = Seg(size: nat, used: nat)

  predicate SegOk(base: nat, s: Seg) {
    0 < base && 0 < s.size && s.used <= s.size && base + s.size <= W
  }

  /** The C field SegAddrNextAvail: it wraps to 0 when a segment that ends at the
      top of the address space is full. */
  function NextAvail(base: nat, s: Seg): u32 {
    (base + s.used) % W
  }

  /** The C field SegSizeRem. */
  function Rem(s: Seg): nat
    requires s.used <= s.size
  {
    s.size - s.used
  }

  // ---------------------------------------------------------------- sizes

  /** Mem_SegCalcTotSize: every operation wraps at 32 bits; with argument checks
      (`chk`) it answers 0 when one of its overflow tests fires. */
  function SegCalcTotSize(chk: bool, addr: u32, nbr: u32, size: u32, align: u32): u32
    requires align > 0 && nbr > 0
  {
    var blkOff := Gap(size, align);
    var aligned := (size + blkOff) % W;
    TotalOf(chk, Gap(addr, align), blkOff, size, aligned, Times(aligned, nbr - 1) % W, nbr > 1)
  }

  /** The sum A + [(B + C) * D] + E of Note 2c from its wrapped parts, and the
      overflow tests on it. */
  function TotalOf(chk: bool, memOff: u32, blkOff: u32, size: u32, aligned: u32, alignedNbr: u32, many: bool): u32 {
    var tot := (memOff + alignedNbr + size) % W;
    var memAligned := (memOff + size) % W;
    var blkTot := (alignedNbr + size) % W;
    if !chk then tot
    else if memAligned < memOff || memAligned < size then 0
    else if !many then tot
    else if aligned < blkOff || aligned < size then 0
    else if alignedNbr < aligned || alignedNbr < blkOff || alignedNbr < size then 0
    else if blkTot < alignedNbr || blkTot < size then 0
    else if tot < memAligned || tot < alignedNbr || tot < blkTot then 0
    else tot
  }

  /** Distance between two successive blocks of a pool. */
  function Stride(size: nat, align: nat): nat
    requires align > 0
  {
    AlignUp(size, align)
  }

  /** The total of Note 2c, over unbounded integers. */
  function TrueTotal(addr: nat, nbr: nat, size: nat, align: nat): nat
    requires align > 0 && nbr > 0
  {
    Gap(addr, align) + Times(Stride(size, align), nbr - 1) + size
  }

  /** The overflow tests see an overflow of the sums, but the test of the product
      only compares the wrapped product with one factor. */
  predicate OverflowSeen(addr: nat, nbr: nat, size: nat, align: nat)
    requires align > 0 && nbr > 0
  {
    var aligned := Stride(size, align);
    var product := Times(aligned, nbr - 1) % W;
    aligned >= W || product < aligned || Gap(addr, align) + product + size >= W
  }

  /** A wrapped sum is below both its parts, and only a wrapped one is. */
  lemma SumTest(x: u32, y: u32)
    ensures x + y < W ==> (x + y) % W == x + y
    ensures x + y >= W ==> (x + y) % W == x + y - W < x && (x + y) % W < y
  {
  }

  /** The overflow tests on the parts, when their sum fits. */
  lemma TestsPass(memOff: u32, blkOff: u32, size: u32, p: u32, many: bool)
    requires size > 0 && memOff + p + size < W && (many || p == 0)
    ensures TotalOf(true, memOff, blkOff, size, (size + blkOff) % W, p, many) ==
      if many && (size + blkOff >= W || p < size + blkOff) then 0 else memOff + p + size
  {
    SumTest(size, blkOff);
  }

  /** The overflow tests on the parts, when their sum does not fit. */
  lemma TestsFire(memOff: u32, blkOff: u32, size: u32, aligned: u32, p: u32, many: bool)
    requires memOff + p + size >= W && (many || p == 0)
    ensures TotalOf(true, memOff, blkOff, size, aligned, p, many) == 0
  {
    SumTest(memOff, size);
    SumTest(p, size);
    if p + size < W {
      SumTest(memOff, p + size);
    }
  }

  lemma UncheckedTotal(memOff: u32, blkOff: u32, size: u32, product: nat, many: bool)
    ensures TotalOf(false, memOff, blkOff, size, (size + blkOff) % W, product % W, many) ==
      (memOff + product + size) % W == (memOff + product % W + size) % W
    ensures product < W ==> product % W == product
  {
    var p, rest := product % W, memOff + size;
    WrappedSum(product, rest);
    WrappedSum(p, rest);
    assert p % W == p;
  }

  /** The overflow tests, for the parts of a sum. */
  lemma TotalOfOutcome(chk: bool, memOff: u32, blkOff: u32, size: u32, product: nat, many: bool)
    requires size > 0
    requires many ==> size + blkOff <= product
    requires !many ==> product == 0
    ensures
      var aligned := size + blkOff;
      var p := product % W;
      var t := memOff + product + size;
      var r := TotalOf(chk, memOff, blkOff, size, aligned % W, p, many);
      && (!chk ==> r == t % W)
      && (t < W ==> r == t)
      && (t >= W ==>
            if chk && (aligned >= W || p < aligned || memOff + p + size >= W) then r == 0 else r == t % W)
      && (t >= W && chk && r == 0 ==> aligned >= W || p < aligned || memOff + p + size >= W)
  {
    hide TotalOf;
    var p := product % W;
    UncheckedTotal(memOff, blkOff, size, product, many);
    if memOff + p + size < W {
      TestsPass(memOff, blkOff, size, p, many);
    } else {
      TestsFire(memOff, blkOff, size, (size + blkOff) % W, p, many);
    }
  }

  /** The exact total whenever it fits: the tests give no false alarm; and without
      the tests the total reduced to 32 bits. */
  lemma CalcTotSizeFits(chk: bool, addr: u32, nbr: u32, size: u32, align: u32)
    requires align > 0 && nbr > 0 && size > 0
    ensures var t := TrueTotal(addr, nbr, size, align);
      && (t < W ==> SegCalcTotSize(chk, addr, nbr, size, align) == t)
      && SegCalcTotSize(false, addr, nbr, size, align) == t % W
  {
    hide Gap, TotalOf;
    var a := Stride(size, align);
    TimesWraps(a, nbr - 1);
    TimesOrder(a, if nbr > 1 then 1 else 0, nbr - 1);
    TotalOfOutcome(chk, Gap(addr, align), Gap(size, align), size, Times(a, nbr - 1), nbr > 1);
    TotalOfOutcome(false, Gap(addr, align), Gap(size, align), size, Times(a, nbr - 1), nbr > 1);
  }

  /** Every answer: a total that fits, a 0 for one that is seen not to fit, and the total
      reduced to 32 bits for one that is not seen. */
  lemma CalcTotSizeExact(chk: bool, addr: u32, nbr: u32, size: u32, align: u32)
    requires align > 0 && nbr > 0 && size > 0
    ensures
      var t := TrueTotal(addr, nbr, size, align);
      SegCalcTotSize(chk, addr, nbr, size, align) ==
      if t < W then t else if chk && OverflowSeen(addr, nbr, size, align) then 0 else t % W
    ensures chk && !OverflowSeen(addr, nbr, size, align) ==> SegCalcTotSize(chk, addr, nbr, size, align) > 0
  {
    hide Gap, TotalOf;
    var a := Stride(size, align);
    TimesWraps(a, nbr - 1);
    TimesOrder(a, if nbr > 1 then 1 else 0, nbr - 1);
    TotalOfOutcome(chk, Gap(addr, align), Gap(size, align), size, Times(a, nbr - 1), nbr > 1);
  }

  /** What the caller can rely on: the exact total, or a 0 that reports a total
      that does not fit. */
  predicate Honest(chk: bool, addr: u32, nbr: u32, size: u32, align: u32)
    requires align > 0 && nbr > 0
  {
    var r := SegCalcTotSize(chk, addr, nbr, size, align);
    var t := TrueTotal(addr, nbr, size, align);
    r == t || (chk && r == 0 && t >= W)
  }

  /** Exactly when the calculation is honest. */
  lemma CalcTotSizeHonest(chk: bool, addr: u32, nbr: u32, size: u32, align: u32)
    requires align > 0 && nbr > 0 && size > 0
    ensures Honest(chk, addr, nbr, size, align) <==>
      (TrueTotal(addr, nbr, size, align) < W || (chk && OverflowSeen(addr, nbr, size, align)))
  {
    hide Gap, TotalOf;
    var a := Stride(size, align);
    TimesWraps(a, nbr - 1);
    TimesOrder(a, if nbr > 1 then 1 else 0, nbr - 1);
    TotalOfOutcome(chk, Gap(addr, align), Gap(size, align), size, Times(a, nbr - 1), nbr > 1);
  }

  /** The product test misses a wrap, at every address: 65538 blocks of 65537 octets are
      reported to need 0x30002 octets instead of 0x100030002, with argument checks as
      without. */
  lemma CalcTotSizeMissesWrap(chk: bool, addr: u32, nbr: u32, size: u32, align: u32)
    requires nbr == 0x10002 && size == 0x10001 && align == 1
    ensures SegCalcTotSize(chk, addr, nbr, size, align) == 0x30002
    ensures TrueTotal(addr, nbr, size, align) == 0x1_0003_0002
    ensures !Honest(chk, addr, nbr, size, align)
  {
    GapOne(addr);
    GapOne(size);
    TimesIsProduct(size, nbr - 1);
    hide Gap, Times;
  }

  // ---------------------------------------------------------------- Mem_SegAlloc

  /** Mem_SegAlloc: the segment afterwards and the address, 0 standing for NULL. */
  function SegAlloc(chk: bool, base: nat, s: Seg, size: u32, align: u32): (r: (Seg, u32))
    requires SegOk(base, s) && align > 0
    ensures SegOk(base, r.0) && r.0.size == s.size && s.used <= r.0.used
  {
    Bump(chk, base, s, Gap(NextAvail(base, s), align), size)
  }

  /** The allocation once the alignment offset is known. */
  function Bump(chk: bool, base: nat, s: Seg, off: u32, size: u32): (r: (Seg, u32))
    requires SegOk(base, s)
    ensures SegOk(base, r.0) && r.0.size == s.size && s.used <= r.0.used
  {
    var next := NextAvail(base, s);
    var tot := (off + size) % W;
    if tot > Rem(s) then (s, 0)
    else if chk && (tot < off || tot < size) then (s, 0)
    else if chk && (next + tot) % W < next then (s, 0)
    else (Seg(s.size, s.used + tot), (next + off) % W)
  }

  /** With argument checks a request that ends exactly at the top of the address
      space is refused, because the next address wraps to 0. */
  predicate TopRefused(chk: bool, base: nat, s: Seg, total: nat)
    requires s.used <= s.size
  {
    chk && base + s.size == W && total == Rem(s)
  }

  /** A request of `total` octets that the segment grants. */
  predicate Grants(chk: bool, base: nat, s: Seg, total: nat)
    requires s.used <= s.size
  {
    total <= Rem(s) && !TopRefused(chk, base, s, total)
  }

  lemma BumpOutcome(chk: bool, base: nat, s: Seg, off: u32, size: u32)
    requires SegOk(base, s) && size > 0 && (chk || off + size < W)
    ensures Bump(chk, base, s, off, size) ==
      if Grants(chk, base, s, off + size)
      then (Seg(s.size, s.used + off + size), base + s.used + off)
      else (s, 0)
  {
    if off + size >= W {
      WrappedTotal(off, size);
    } else if base + s.used < W {
      BumpBelowTop(chk, base, s, off, size);
    }
  }

  /** A sum that wraps is below both its parts. */
  lemma WrappedTotal(off: u32, size: u32)
    requires off + size >= W
    ensures (off + size) % W == off + size - W
  {
  }

  lemma BumpBelowTop(chk: bool, base: nat, s: Seg, off: u32, size: u32)
    requires SegOk(base, s) && size > 0 && off + size < W && base + s.used < W
    ensures Bump(chk, base, s, off, size) ==
      if Grants(chk, base, s, off + size)
      then (Seg(s.size, s.used + off + size), base + s.used + off)
      else (s, 0)
  {
    assert NextAvail(base, s) == base + s.used;
    hide NextAvail;
  }

  /** The outcome of one allocation, without wrapping. */
  lemma SegAllocOutcome(chk: bool, base: nat, s: Seg, size: u32, align: u32)
    requires SegOk(base, s) && align > 0 && size > 0
    requires chk || Gap(NextAvail(base, s), align) + size < W
    ensures
      var off := Gap(NextAvail(base, s), align);
      var addr := base + s.used + off;
      if Grants(chk, base, s, off + size)
      then Aligned(addr, align) && SegAlloc(chk, base, s, size, align) == (Seg(s.size, s.used + off + size), addr)
      else SegAlloc(chk, base, s, size, align) == (s, 0)
  {
    var off := Gap(NextAvail(base, s), align);
    BumpOutcome(chk, base, s, off, size);
    AlignUpLeast(NextAvail(base, s), align, 0);
    assert base + s.used < W ==> NextAvail(base, s) == base + s.used;
  }

  /** Exactly when a granted allocation takes fewer octets than the block it hands out: gap
      and size wrap, which argument checks do not let through. */
  lemma GrantTooSmall(chk: bool, base: nat, s: Seg, size: u32, align: u32)
    requires SegOk(base, s) && align > 0 && size > 0 && SegAlloc(chk, base, s, size, align).1 != 0
    ensures
      var wraps := Gap(NextAvail(base, s), align) + size >= W;
      && (SegAlloc(chk, base, s, size, align).0.used < s.used + size <==> wraps)
      && (wraps ==> !chk)
  {
    hide Gap;
    var off := Gap(NextAvail(base, s), align);
    if off + size < W {
      BumpOutcome(chk, base, s, off, size);
    } else {
      WrappedTotal(off, size);
    }
  }

  /** Without argument checks, a segment of 4 octets with 2 octets left grants 2^32 - 1 octets
      at alignment 4 for 1 octet: a gap of 2 octets makes the sum wrap. */
  lemma UncheckedGrantWraps(base: nat, s: Seg, size: u32, align: u32)
    requires base == 16 && s == Seg(4, 2) && size == W - 1 && align == 4
    ensures SegAlloc(false, base, s, size, align) == (Seg(4, 3), 20)
  {
    ModIsRemainder(base + s.used, align);
    assert Gap(NextAvail(base, s), align) == 2;
    hide Gap;
  }

  /** Mem_SegGetSizeRem: the octets remaining behind the gap; the subtraction wraps. */
  function SizeRem(base: nat, s: Seg, align: u32): u32
    requires SegOk(base, s) && align > 0
  {
    if align > 1 then (Rem(s) - Gap(NextAvail(base, s), align)) % W else Rem(s)
  }

  /** The sizes that a caller may ask for: without argument checks none that wraps. */
  predicate Askable(chk: bool, off: nat, size: nat) {
    size > 0 && (chk || off + size < W)
  }

  /** The answer is the exact threshold of an allocation if and only if the gap fits in what
      remains and argument checks do not refuse to fill the segment to the top of the
      address space. When the gap does not fit the answer has wrapped; when the top is
      refused the answer is one octet too large. */
  lemma SizeRemIsThreshold(chk: bool, base: nat, s: Seg, align: u32)
    requires SegOk(base, s) && align > 0
    ensures
      var off := Gap(NextAvail(base, s), align);
      (forall size: u32 :: Askable(chk, off, size) ==>
         (SegAlloc(chk, base, s, size, align).1 != 0 <==> size <= SizeRem(base, s, align)))
      <==> off <= Rem(s) && !(chk && base + s.size == W && off < Rem(s))
  {
    hide Gap, SegAlloc;
    var off := Gap(NextAvail(base, s), align);
    SizeRemExact(base, s, align);
    if off > Rem(s) {
      GrantedIfFits(chk, base, s, 1, align);
      assert Askable(chk, off, 1);
    } else if chk && base + s.size == W && off < Rem(s) {
      GrantedIfFits(chk, base, s, Rem(s) - off, align);
      assert Askable(chk, off, Rem(s) - off);
    } else {
      forall size: u32 | Askable(chk, off, size)
        ensures SegAlloc(chk, base, s, size, align).1 != 0 <==> size <= SizeRem(base, s, align)
      {
        GrantedIfFits(chk, base, s, size, align);
      }
    }
  }

  /** Every answer: what remains behind the gap, wrapped when the gap is larger. */
  lemma SizeRemExact(base: nat, s: Seg, align: u32)
    requires SegOk(base, s) && align > 0
    ensures
      var off := Gap(NextAvail(base, s), align);
      && off + 1 < W
      && SizeRem(base, s, align) == if off <= Rem(s) then Rem(s) - off else W - (off - Rem(s))
  {
    if align == 1 {
      GapOne(NextAvail(base, s));
    }
    hide Gap;
  }

  lemma GrantedIfFits(chk: bool, base: nat, s: Seg, size: u32, align: u32)
    requires SegOk(base, s) && align > 0
    requires Askable(chk, Gap(NextAvail(base, s), align), size)
    ensures SegAlloc(chk, base, s, size, align).1 != 0 <==>
      Grants(chk, base, s, Gap(NextAvail(base, s), align) + size)
  {
    hide Gap;
    BumpOutcome(chk, base, s, Gap(NextAvail(base, s), align), size);
  }

  /** A segment of 4 octets at 16 with 2 octets left, asked at alignment 16: the answer is
      2^32 - 12, and not one octet can be had. */
  lemma SizeRemWrapped(chk: bool, base: nat, s: Seg, align: u32)
    requires base == 16 && s == Seg(4, 2) && align == 16
    ensures SizeRem(base, s, align) == W - 12 && SegAlloc(chk, base, s, 1, align) == (s, 0)
  {
    ModIsRemainder(base + s.used, align);
    assert Gap(NextAvail(base, s), align) == 14;
    hide Gap;
    BumpOutcome(chk, base, s, 14, 1);
  }

  /** With argument checks, a segment of 4 octets at the top of the address space: the
      answer is 4, and 4 octets are refused. */
  lemma SizeRemTopRefused(base: nat, s: Seg, align: u32)
    requires base == W - 4 && s == Seg(4, 0) && align == 1
    ensures SizeRem(base, s, align) == 4 && SegAlloc(true, base, s, 4, align) == (s, 0)
  {
    GapOne(NextAvail(base, s));
    hide Gap;
    BumpOutcome(true, base, s, 0, 4);
  }

  lemma {:induction false} GapOne(x: nat)
    ensures Gap(x, 1) == 0
  {
    if x == 0 {
    } else {
      GapOne(x - 1);
    }
  }

  /** Handing out `tot` octets moves the next address by `tot`. */
  lemma NextAvailMoves(base: nat, s: Seg, tot: nat)
    requires SegOk(base, s) && tot <= Rem(s)
    ensures NextAvail(base, Seg(s.size, s.used + tot)) == (NextAvail(base, s) + tot) % W
  {
  }

  // ---------------------------------------------------------------- the block loop

  /** The block loop of Mem_PoolCreate: up to `n` allocations, stopping at the first
      refusal; the addresses obtained, in order. */
  function AllocBlks(chk: bool, base: nat, s: Seg, n: nat, size: u32, align: u32): (r: (Seg, seq<u32>))
    requires SegOk(base, s) && align > 0
    ensures SegOk(base, r.0) && r.0.size == s.size && s.used <= r.0.used && |r.1| <= n
  {
    if n == 0 then (s, [])
    else
      var (s1, a) := AllocBlks(chk, base, s, n - 1, size, align);
      if |a| < n - 1 then (s1, a)
      else
        var (s2, addr) := SegAlloc(chk, base, s1, size, align);
        if addr == 0 then (s2, a) else (s2, a + [addr])
  }

  /** Once an allocation has been refused the loop stops. */
  lemma {:induction false} AllocBlksStops(chk: bool, base: nat, s: Seg, n: nat, m: nat, size: u32, align: u32)
    requires SegOk(base, s) && align > 0 && n <= m
    requires |AllocBlks(chk, base, s, n, size, align).1| < n
    ensures AllocBlks(chk, base, s, m, size, align) == AllocBlks(chk, base, s, n, size, align)
    decreases m
  {
    if n == m {
    } else {
      AllocBlksStops(chk, base, s, n, m - 1, size, align);
    }
  }

  /** The address of block `i` of a pool whose blocks start at or after `start`. */
  function BlkAddr(start: nat, size: nat, align: nat, i: nat): nat
    requires align > 0
  {
    AlignUp(start, align) + Times(Stride(size, align), i)
  }

  /** One more block: its total, its gap and its address. */
  lemma BlkStep(addr: nat, n: nat, size: nat, align: nat)
    requires align > 0 && size > 0 && n > 0
    ensures
      var t := TrueTotal(addr, n, size, align);
      && TrueTotal(addr, n + 1, size, align) == t + Stride(size, align)
      && Gap(addr + t, align) == Gap(size, align)
      && BlkAddr(addr, size, align, n) == addr + t + Gap(size, align)
      && Aligned(BlkAddr(addr, size, align, n), align)
  {
    var stride := Stride(size, align);
    AlignUpLeast(addr, align, 0);
    AlignUpLeast(size, align, 0);
    AlignedStrides(AlignUp(addr, align), stride, n - 1, align);
    AlignedStrides(AlignUp(addr, align), stride, n, align);
    ModShift(BlkAddr(addr, size, align, n - 1), size, align);
  }

  /** The allocation after `done` octets of blocks, when the next gap is `off`. */
  lemma SegAllocLater(chk: bool, base: nat, s: Seg, done: nat, off: u32, size: u32, align: u32)
    requires SegOk(base, s) && align > 0 && size > 0 && base + s.used < W
    requires Grants(chk, base, s, done) && off == Gap(base + s.used + done, align)
    requires chk || off + size < W
    ensures
      var s1 := Seg(s.size, s.used + done);
      SegAlloc(chk, base, s1, size, align) ==
      if Grants(chk, base, s, done + off + size)
      then (Seg(s.size, s.used + done + off + size), base + s1.used + off)
      else (s1, 0)
  {
    hide Gap;
    var s1 := Seg(s.size, s.used + done);
    GapZero(align);
    assert base + s1.used < W ==> NextAvail(base, s1) == base + s1.used;
    assert base + s1.used == W ==> NextAvail(base, s1) == 0;
    BumpOutcome(chk, base, s1, Gap(NextAvail(base, s1), align), size);
  }

  /** The block loop gets all `n` blocks exactly if the segment grants the total, and
      then they lie one stride apart. */
  ghost predicate Laid(chk: bool, base: nat, s: Seg, n: nat, size: u32, align: u32)
    requires SegOk(base, s) && align > 0 && n > 0
  {
    var next := NextAvail(base, s);
    var total := TrueTotal(next, n, size, align);
    var (s', a) := AllocBlks(chk, base, s, n, size, align);
    if Grants(chk, base, s, total)
    then next == base + s.used && s' == Seg(s.size, s.used + total) && LaidOut(a, next, n, size, align)
    else |a| < n
  }

  predicate LaidOut(a: seq<u32>, start: nat, n: nat, size: nat, align: nat)
    requires align > 0
  {
    |a| == n && forall i :: 0 <= i < n ==> a[i] == BlkAddr(start, size, align, i)
  }

  lemma LaidFirst(chk: bool, base: nat, s: Seg, size: u32, align: u32)
    requires SegOk(base, s) && align > 0 && size > 0
    requires chk || Gap(NextAvail(base, s), align) + size < W
    ensures Laid(chk, base, s, 1, size, align)
  {
    assert AllocBlks(chk, base, s, 0, size, align) == (s, []);
    SegAllocOutcome(chk, base, s, size, align);
  }

  /** A block size whose distance reaches 2^32 is never granted: several blocks do not fit
      in 32 bits, and a single one does not fit behind the first aligned address. */
  lemma HugeStrideNeverFits(start: nat, nbr: nat, size: nat, align: nat)
    requires align > 0 && nbr > 0 && start > 0 && start + TrueTotal(start, nbr, size, align) <= W
    ensures Stride(size, align) < W
  {
    if nbr > 1 {
      TimesOrder(Stride(size, align), 1, nbr - 1);
    } else {
      AlignUpLeast(start, align, 0);
      MultipleAtLeast(AlignUp(start, align), align);
    }
  }

  lemma MultipleAtLeast(x: nat, align: nat)
    requires align > 0 && x > 0 && Aligned(x, align)
    ensures x >= align
  {
  }

  lemma LaidNext(chk: bool, base: nat, s: Seg, n: nat, size: u32, align: u32)
    requires SegOk(base, s) && align > 0 && size > 0 && n > 0
    requires Laid(chk, base, s, n, size, align)
    ensures Laid(chk, base, s, n + 1, size, align)
  {
    hide Gap, TrueTotal, BlkAddr, SegAlloc;
    var next := NextAvail(base, s);
    var t := TrueTotal(next, n, size, align);
    BlkStep(next, n, size, align);
    if Grants(chk, base, s, t) {
      HugeStrideNeverFits(next, n, size, align);
      SegAllocLater(chk, base, s, t, Gap(size, align), size, align);
    }
  }

  /** The layout of a pool, and exactly when the block loop gets all its blocks. Without
      argument checks only the first block with its gap must not wrap: when that one is
      granted, no later one can. */
  lemma {:induction false} AllocBlksLayout(chk: bool, base: nat, s: Seg, n: nat, size: u32, align: u32)
    requires SegOk(base, s) && align > 0 && size > 0 && n > 0
    requires chk || Gap(NextAvail(base, s), align) + size < W
    ensures Laid(chk, base, s, n, size, align)
  {
    if n == 1 {
      LaidFirst(chk, base, s, size, align);
    } else {
      AllocBlksLayout(chk, base, s, n - 1, size, align);
      LaidNext(chk, base, s, n - 1, size, align);
    }
  }

  /** The octets that the first `n` blocks take, with the gap in front of them. */
  function TakenBy(addr: nat, n: nat, size: nat, align: nat): nat
    requires align > 0
  {
    if n == 0 then 0 else TrueTotal(addr, n, size, align)
  }

  /** Where the block loop stops: with as many blocks as the segment grants, and nothing else
      taken. */
  lemma {:induction false} AllocBlksRefused(chk: bool, base: nat, s: Seg, m: nat, size: u32, align: u32)
    returns (n: nat)
    requires SegOk(base, s) && align > 0 && size > 0 && m > 0
    requires chk || Gap(NextAvail(base, s), align) + size < W
    requires !Grants(chk, base, s, TrueTotal(NextAvail(base, s), m, size, align))
    ensures
      var next := NextAvail(base, s);
      && n < m && (n > 0 ==> Grants(chk, base, s, TrueTotal(next, n, size, align)))
      && !Grants(chk, base, s, TrueTotal(next, n + 1, size, align))
      && var (s', a) := AllocBlks(chk, base, s, m, size, align);
      && s' == Seg(s.size, s.used + TakenBy(next, n, size, align)) && LaidOut(a, next, n, size, align)
  {
    hide Gap, TrueTotal, BlkAddr, SegAlloc, Grants;
    var next := NextAvail(base, s);
    if m == 1 {
      n := 0;
      RefusedFirst(chk, base, s, size, align);
    } else if Grants(chk, base, s, TrueTotal(next, m - 1, size, align)) {
      n := m - 1;
      RefusedNext(chk, base, s, n, size, align);
    } else {
      n := AllocBlksRefused(chk, base, s, m - 1, size, align);
    }
  }

  lemma RefusedFirst(chk: bool, base: nat, s: Seg, size: u32, align: u32)
    requires SegOk(base, s) && align > 0 && size > 0
    requires chk || Gap(NextAvail(base, s), align) + size < W
    requires !Grants(chk, base, s, TrueTotal(NextAvail(base, s), 1, size, align))
    ensures AllocBlks(chk, base, s, 1, size, align) == (s, [])
  {
    hide SegAlloc;
    assert AllocBlks(chk, base, s, 0, size, align) == (s, []);
    SegAllocOutcome(chk, base, s, size, align);
  }

  lemma RefusedNext(chk: bool, base: nat, s: Seg, n: nat, size: u32, align: u32)
    requires SegOk(base, s) && align > 0 && size > 0 && n > 0
    requires chk || Gap(NextAvail(base, s), align) + size < W
    requires
      var next := NextAvail(base, s);
      && Grants(chk, base, s, TrueTotal(next, n, size, align))
      && !Grants(chk, base, s, TrueTotal(next, n + 1, size, align))
    ensures
      var next := NextAvail(base, s);
      && AllocBlks(chk, base, s, n + 1, size, align) == AllocBlks(chk, base, s, n, size, align)
      && var (s', a) := AllocBlks(chk, base, s, n, size, align);
      && s' == Seg(s.size, s.used + TrueTotal(next, n, size, align)) && LaidOut(a, next, n, size, align)
  {
    hide Gap, TrueTotal, BlkAddr, SegAlloc;
    var next := NextAvail(base, s);
    AllocBlksLayout(chk, base, s, n, size, align);
    BlkStep(next, n, size, align);
    HugeStrideNeverFits(next, n, size, align);
    SegAllocLater(chk, base, s, TrueTotal(next, n, size, align), Gap(size, align), size, align);
  }
}
