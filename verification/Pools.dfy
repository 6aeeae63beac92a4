/** Fixed-block pools of lib_mem.c as values: the pointer array split at BlkIx. */
module Pools {
  import opened Word32
  import opened Segments

  datatype LibErr =
    | ErrNone
    | NullPtr
    | InvalidMemSize
    | InvalidMemAlign
    | InvalidSegSize
    | InvalidSegOverlap
    | InvalidPool
    | InvalidBlkNbr
    | InvalidBlkSize
    | InvalidBlkAlign
    | InvalidBlkAddr
    | InvalidBlkAddrInPool
    | InvalidBlkIx
    | HeapEmpty
    | HeapOvf
    | SegEmpty
    | SegOvf
    | PoolEmpty
    | PoolFull

  /** One created pool: the segment it lives in, the address of its pointer array,
      where its blocks start, and the pointer array with the index BlkIx. */
  datatype Pool = Pool(seg: nat, ptrsAddr: u32, start: u32, total: u32,
                       nbr: u32, size: u32, align: u32, ptrs: seq<u32>, ix: nat)

  /** The block addresses in creation order. */
  function Layout(start: nat, nbr: nat, size: nat, align: nat): (s: seq<nat>)
    requires align > 0
    ensures |s| == nbr
  {
    seq(nbr, i requires 0 <= i => BlkAddr(start, size, align, i))
  }

  /** Where and how big the blocks are. */
  predicate GeometryOk(p: Pool) {
    && p.nbr > 0 && p.size > 0 && p.align > 0 && p.start > 0
    && Stride(p.size, p.align) < W
    && p.total == TrueTotal(p.start, p.nbr, p.size, p.align)
    && p.start + p.total <= W
  }

  /** No address of the blocks wraps. */
  lemma GeometryFits(p: Pool)
    requires GeometryOk(p)
    ensures p.align > 0 && p.total > 0 && p.start + p.total <= W
    ensures AlignUp(p.start, p.align) < W && 0 < Stride(p.size, p.align) < W
  {
  }

  ghost predicate PoolOk(p: Pool) {
    && GeometryOk(p)
    && |p.ptrs| == p.nbr && p.ix <= p.nbr
    && multiset(p.ptrs) == multiset(Layout(p.start, p.nbr, p.size, p.align))
  }

  function Elems(s: seq<nat>): set<nat> {
    set x | x in s
  }

  function FreeSet(p: Pool): set<nat>
    requires p.ix <= |p.ptrs|
  {
    Elems(p.ptrs[..p.ix])
  }

  function UsedSet(p: Pool): set<nat>
    requires p.ix <= |p.ptrs|
  {
    Elems(p.ptrs[p.ix..])
  }

  function BlkSet(p: Pool): set<nat>
    requires p.align > 0
  {
    Elems(Layout(p.start, p.nbr, p.size, p.align))
  }

  // ---------------------------------------------------------------- operations

  /** Mem_PoolBlkGet on a created pool. */
  function BlkGet(chk: bool, p: Pool, size: u32): (Pool, u32, LibErr)
    requires |p.ptrs| == p.nbr
  {
    if chk && size < 1 then (p, 0, InvalidBlkSize)
    else if chk && size > p.size then (p, 0, InvalidBlkSize)
    else if p.ix < 1 then (p, 0, PoolEmpty)
    else if p.ix > p.nbr then (p, 0, InvalidBlkIx)
    else (p.(ix := p.ix - 1), p.ptrs[p.ix - 1], ErrNone)
  }

  /** Mem_PoolBlkIsValidAddr, with its wrapping subtraction. */
  function IsValidAddr(p: Pool, blk: u32): bool
    requires GeometryOk(p)
  {
    if blk < p.start || blk > p.start + p.total - 1 then false
    else
      var first := p.start + Gap(p.start, p.align);
      var diff := (blk - first) % W;
      Mod(diff, Stride(p.size, p.align)) == 0
  }

  /** The least index from `from` on that holds `a`, or |s|. */
  function Find(s: seq<u32>, a: u32, from: nat): (i: nat)
    requires from <= |s|
    ensures from <= i <= |s|
    ensures i < |s| ==> s[i] == a
    ensures forall k :: from <= k < i ==> s[k] != a
    decreases |s| - from
  {
    if from == |s| || s[from] == a then from else Find(s, a, from + 1)
  }

  /** Mem_PoolBlkFree on a created pool. */
  function BlkFree(chk: bool, p: Pool, blk: u32): (Pool, LibErr)
    requires GeometryOk(p) && |p.ptrs| == p.nbr && p.ix <= p.nbr
  {
    if chk && blk == 0 then (p, NullPtr)
    else if chk && !IsValidAddr(p, blk) then (p, InvalidBlkAddr)
    else if chk && blk in p.ptrs[..p.ix] then (p, InvalidBlkAddrInPool)
    else if p.ix >= p.nbr then (p, PoolFull)
    else
      var i := Find(p.ptrs, blk, p.ix);
      if i < p.nbr then (p.(ptrs := p.ptrs[i := p.ptrs[p.ix]][p.ix := blk], ix := p.ix + 1), ErrNone)
      else if chk then (p, InvalidPool)
      else (p.(ptrs := p.ptrs[p.ix := blk], ix := p.ix + 1), ErrNone)
  }

  const INVALID_IX: u32 := W - 1

  /** Mem_PoolBlkIxGet on a created pool. */
  function BlkIxGet(chk: bool, p: Pool, blk: u32): (u32, LibErr)
    requires GeometryOk(p) && |p.ptrs| == p.nbr && p.ix <= p.nbr
  {
    if chk && blk == 0 then (INVALID_IX, NullPtr)
    else if chk && !IsValidAddr(p, blk) then (INVALID_IX, InvalidBlkAddr)
    else if chk && blk in p.ptrs[..p.ix] then (INVALID_IX, InvalidBlkAddrInPool)
    else if p.ix >= p.nbr then (INVALID_IX, PoolFull)
    else
      var i := Find(p.ptrs, blk, p.ix);
      if i < p.nbr then (p.nbr - 1 - i, ErrNone) else (INVALID_IX, InvalidPool)
  }

  /** Mem_PoolBlkGetUsedAtIx on a created pool; the index subtraction wraps. */
  function BlkGetUsedAtIx(chk: bool, p: Pool, usedIx: u32): (u32, LibErr)
    requires |p.ptrs| == p.nbr
  {
    if chk && p.ix >= p.nbr then (0, InvalidBlkIx)
    else
      var blkIx := (p.nbr - usedIx - 1) % W;
      if blkIx >= p.nbr then (0, InvalidBlkIx)
      else if blkIx < p.ix then (0, InvalidBlkIx)
      else (p.ptrs[blkIx], ErrNone)
  }

  // ---------------------------------------------------------------- permutation

  lemma LayoutAscends(start: nat, nbr: nat, size: nat, align: nat, i: nat, j: nat)
    requires align > 0 && size > 0 && i < j
    ensures BlkAddr(start, size, align, i) + size <= BlkAddr(start, size, align, j)
  {
    TimesOrder(Stride(size, align), i, j);
  }

  lemma MultisetIndex<T>(s: seq<T>, i: nat, j: nat)
    requires i < j < |s| && s[i] == s[j]
    ensures multiset(s)[s[i]] >= 2
  {
    assert s == s[..j] + s[j..];
    assert s[i] in s[..j] && s[i] in s[j..] by {
      assert s[..j][i] == s[i] && s[j..][0] == s[i];
    }
  }

  lemma {:induction false} AscendingOnce(s: seq<nat>, x: nat)
    requires forall i, j :: 0 <= i < j < |s| ==> s[i] < s[j]
    ensures multiset(s)[x] <= 1
    ensures forall y :: y in s && |s| > 0 ==> y <= s[|s| - 1]
  {
    if |s| == 0 {
    } else {
      var t := s[..|s| - 1];
      assert s == t + [s[|s| - 1]];
      AscendingOnce(t, x);
    }
  }

  /** The pointer array has no duplicates. */
  lemma PtrsDistinct(p: Pool)
    requires PoolOk(p)
    ensures forall i, j :: 0 <= i < j < p.nbr ==> p.ptrs[i] != p.ptrs[j]
  {
    var l := Layout(p.start, p.nbr, p.size, p.align);
    forall i, j | 0 <= i < j < |l| ensures l[i] < l[j] {
      LayoutAscends(p.start, p.nbr, p.size, p.align, i, j);
    }
    forall i, j | 0 <= i < j < p.nbr ensures p.ptrs[i] != p.ptrs[j] {
      AscendingOnce(l, p.ptrs[i]);
      if p.ptrs[i] == p.ptrs[j] {
        MultisetIndex(p.ptrs, i, j);
      }
    }
  }

  lemma SamePermutedElements(s: seq<nat>, t: seq<nat>)
    requires multiset(s) == multiset(t)
    ensures forall x :: x in s <==> x in t
  {
    assert forall x :: x in s <==> x in multiset(s);
    assert forall x :: x in t <==> x in multiset(t);
  }

  /** The free and the used blocks partition the blocks of the pool. */
  lemma PtrsPartition(p: Pool)
    requires PoolOk(p)
    ensures FreeSet(p) + UsedSet(p) == BlkSet(p)
    ensures FreeSet(p) !! UsedSet(p)
  {
    PtrsDistinct(p);
    SamePermutedElements(p.ptrs, Layout(p.start, p.nbr, p.size, p.align));
    assert p.ptrs == p.ptrs[..p.ix] + p.ptrs[p.ix..];
    forall x | x in p.ptrs[..p.ix] ensures x !in p.ptrs[p.ix..] {
      var i :| 0 <= i < p.ix && p.ptrs[i] == x;
      assert forall j :: 0 <= j < p.nbr - p.ix ==> p.ptrs[p.ix..][j] == p.ptrs[p.ix + j];
    }
  }

  lemma {:induction false} DistinctCount(s: seq<nat>)
    requires forall i, j :: 0 <= i < j < |s| ==> s[i] != s[j]
    ensures |Elems(s)| == |s|
  {
    if |s| == 0 {
    } else {
      var t := s[..|s| - 1];
      var last := s[|s| - 1];
      DistinctCount(t);
      assert s == t + [last];
      assert Elems(s) == Elems(t) + {last};
    }
  }

  /** Mem_PoolBlkGetNbrAvail answers BlkIx, the number of free blocks. */
  lemma NbrAvailIsFreeCount(p: Pool)
    requires PoolOk(p)
    ensures p.ix == |FreeSet(p)| && p.nbr - p.ix == |UsedSet(p)|
  {
    PtrsDistinct(p);
    DistinctCount(p.ptrs[..p.ix]);
    DistinctCount(p.ptrs[p.ix..]);
  }

  // ---------------------------------------------------------------- get and free

  /** A get moves one block from the free set to the used set, or says why not. */
  lemma GetMovesOneBlock(chk: bool, p: Pool, size: u32)
    requires PoolOk(p)
    ensures
      var (p', blk, err) := BlkGet(chk, p, size);
      && PoolOk(p')
      && err == (if chk && !(1 <= size <= p.size) then InvalidBlkSize
                 else if FreeSet(p) == {} then PoolEmpty else ErrNone)
      && (err == ErrNone ==>
            && blk in FreeSet(p) && blk !in UsedSet(p)
            && FreeSet(p') == FreeSet(p) - {blk} && UsedSet(p') == UsedSet(p) + {blk})
      && (err != ErrNone ==> p' == p && blk == 0)
  {
    hide Layout;
    var (p', blk, err) := BlkGet(chk, p, size);
    if p.ix > 0 {
      LastFreeMoves(p);
    }
  }

  /** Lowering BlkIx by one moves the last free block to the used ones. */
  lemma LastFreeMoves(p: Pool)
    requires PoolOk(p) && p.ix > 0
    ensures
      var p' := p.(ix := p.ix - 1);
      var blk := p.ptrs[p.ix - 1];
      && PoolOk(p') && blk in FreeSet(p) && blk !in UsedSet(p)
      && FreeSet(p') == FreeSet(p) - {blk} && UsedSet(p') == UsedSet(p) + {blk}
  {
    hide TrueTotal, Stride, Layout, Elems;
    var p' := p.(ix := p.ix - 1);
    assert PoolOk(p');
    PtrsPartition(p);
    PtrsPartition(p');
    LastElem(p.ptrs, p.ix);
    assert FreeSet(p') == BlkSet(p) - UsedSet(p');
    assert FreeSet(p) == BlkSet(p) - UsedSet(p);
  }

  lemma LastElem(s: seq<u32>, ix: nat)
    requires 0 < ix <= |s|
    ensures s[ix - 1] in Elems(s[..ix]) && Elems(s[ix - 1..]) == Elems(s[ix..]) + {s[ix - 1]}
  {
    assert s[..ix][ix - 1] == s[ix - 1];
    assert s[ix - 1..] == [s[ix - 1]] + s[ix..];
  }

  /** Exchanging two entries, as the free does. */
  function Swap(s: seq<u32>, i: nat, j: nat): (t: seq<u32>)
    requires i < |s| && j < |s|
    ensures |t| == |s| && multiset(t) == multiset(s)
  {
    s[i := s[j]][j := s[i]]
  }

  lemma FindUsed(p: Pool, blk: u32)
    requires p.ix <= |p.ptrs| == p.nbr
    ensures blk in UsedSet(p) <==> Find(p.ptrs, blk, p.ix) < p.nbr
  {
    var i := Find(p.ptrs, blk, p.ix);
    assert forall k :: p.ix <= k < p.nbr ==> p.ptrs[k] == p.ptrs[p.ix..][k - p.ix];
  }

  lemma SwapKeepsPool(p: Pool, i: nat)
    requires PoolOk(p) && p.ix <= i < p.nbr
    ensures
      var p' := p.(ptrs := Swap(p.ptrs, i, p.ix), ix := p.ix + 1);
      && PoolOk(p')
      && FreeSet(p') == FreeSet(p) + {p.ptrs[i]} && UsedSet(p') == UsedSet(p) - {p.ptrs[i]}
  {
    hide TrueTotal, Stride, Layout, Elems;
    var p' := p.(ptrs := Swap(p.ptrs, i, p.ix), ix := p.ix + 1);
    assert PoolOk(p');
    SwapFrees(p.ptrs, p.ix, i);
    PtrsPartition(p);
    PtrsPartition(p');
    assert UsedSet(p) == BlkSet(p) - FreeSet(p);
    assert UsedSet(p') == BlkSet(p) - FreeSet(p');
  }

  lemma SwapFrees(s: seq<u32>, ix: nat, i: nat)
    requires ix <= i < |s|
    ensures Elems(Swap(s, i, ix)[..ix + 1]) == Elems(s[..ix]) + {s[i]}
    ensures s[i] in s[ix..]
  {
    assert Swap(s, i, ix)[..ix + 1] == s[..ix] + [s[i]];
    assert s[ix..][i - ix] == s[i];
  }

  /** A free of a used block moves exactly that block back to the free set. */
  lemma FreeMovesOneBlock(chk: bool, p: Pool, blk: u32)
    requires PoolOk(p) && blk in UsedSet(p)
    requires chk ==> IsValidAddr(p, blk) && blk != 0
    ensures
      var (p', err) := BlkFree(chk, p, blk);
      && err == ErrNone && PoolOk(p')
      && p' == p.(ptrs := Swap(p.ptrs, Find(p.ptrs, blk, p.ix), p.ix), ix := p.ix + 1)
      && FreeSet(p') == FreeSet(p) + {blk} && UsedSet(p') == UsedSet(p) - {blk}
  {
    PtrsPartition(p);
    FindUsed(p, blk);
    assert blk !in FreeSet(p);
    SwapKeepsPool(p, Find(p.ptrs, blk, p.ix));
  }

  // ---------------------------------------------------------------- address test

  /** The condition under which the wrapped subtraction for an address in the leading
      alignment gap is never a multiple of the stride. */
  predicate GapNotMistaken(p: Pool)
    requires GeometryOk(p)
  {
    Mod(W, Stride(p.size, p.align)) == 0 || Gap(p.start, p.align) < Mod(W, Stride(p.size, p.align))
  }

  /** From the first block on, the test accepts exactly the blocks. */
  lemma ValidAfterFirst(p: Pool, blk: u32)
    requires GeometryOk(p) && blk >= AlignUp(p.start, p.align)
    ensures IsValidAddr(p, blk) <==> blk in BlkSet(p)
  {
    hide Gap;
    var first := AlignUp(p.start, p.align);
    var stride := Stride(p.size, p.align);
    var l := Layout(p.start, p.nbr, p.size, p.align);
    if IsValidAddr(p, blk) {
      var k := AlignedIsTimes(blk - first, stride);
      if k >= p.nbr {
        TimesOrder(stride, p.nbr - 1, k);
      }
      assert l[k] == blk;
    }
    if blk in l {
      var i :| 0 <= i < |l| && l[i] == blk;
      TimesOrder(stride, i, p.nbr - 1);
      TimesAligned(stride, i);
    }
  }

  /** In the leading gap the test accepts exactly the address, if any, that lies
      2^32 mod stride below the first block. */
  lemma ValidInGap(p: Pool, blk: u32)
    requires GeometryOk(p) && p.start <= blk < AlignUp(p.start, p.align)
    ensures blk !in BlkSet(p)
    ensures IsValidAddr(p, blk) <==> AlignUp(p.start, p.align) - blk == Mod(W, Stride(p.size, p.align))
  {
    var first := AlignUp(p.start, p.align);
    var stride := Stride(p.size, p.align);
    var d := first - blk;
    assert (blk - first) % W == W - d;
    AlignUpLeast(p.size, p.align, 0);
    StrideAtLeastAlign(p.size, p.align);
    if Aligned(W - d, stride) {
      ModShift(W - d, d, stride);
    }
    ModMinus(W, stride);
    var l := Layout(p.start, p.nbr, p.size, p.align);
    assert forall i :: 0 <= i < |l| ==> l[i] >= first;
  }

  lemma StrideAtLeastAlign(size: nat, align: nat)
    requires align > 0 && size > 0
    ensures Stride(size, align) >= align
  {
    AlignUpLeast(size, align, 0);
  }

  /** Mem_PoolBlkIsValidAddr answers yes exactly for the block addresses, if and only
      if 2^32 mod stride is 0 or larger than the leading gap. */
  lemma IsValidAddrExact(p: Pool)
    requires GeometryOk(p)
    ensures (forall blk: u32 :: IsValidAddr(p, blk) <==> blk in BlkSet(p)) <==> GapNotMistaken(p)
  {
    var first := AlignUp(p.start, p.align);
    var m := Mod(W, Stride(p.size, p.align));
    if GapNotMistaken(p) {
      forall blk: u32 ensures IsValidAddr(p, blk) <==> blk in BlkSet(p) {
        AddrCases(p, blk);
      }
    } else {
      ValidInGap(p, first - m);
    }
  }

  lemma AddrCases(p: Pool, blk: u32)
    requires GeometryOk(p) && GapNotMistaken(p)
    ensures IsValidAddr(p, blk) <==> blk in BlkSet(p)
  {
    var l := Layout(p.start, p.nbr, p.size, p.align);
    if blk >= AlignUp(p.start, p.align) {
      ValidAfterFirst(p, blk);
    } else if blk >= p.start {
      ValidInGap(p, blk);
    } else {
      assert forall i :: 0 <= i < |l| ==> l[i] >= p.start;
    }
  }

  /** An alignment that divides 2^32, such as every power of two up to it, is safe. */
  lemma DividingAlignIsSafe(p: Pool)
    requires GeometryOk(p) && Aligned(W, p.align)
    ensures GapNotMistaken(p)
  {
    var stride := Stride(p.size, p.align);
    AlignUpLeast(p.size, p.align, 0);
    ModMinus(W, stride);
    var k := AlignedIsTimes(W - Mod(W, stride), stride);
    ModIsZero(0, p.align);
    AlignedStrides(0, stride, k, p.align);
    ModShift(W - Mod(W, stride), Mod(W, stride), p.align);
  }

  lemma ModIsZero(x: nat, n: nat)
    requires n > 0 && x == 0
    ensures Aligned(x, n)
  {
  }

  /** Alignment 3: one block of 3 octets at 3, in a pool that starts at 1, and the test
      accepts 2. */
  lemma AlignThreeMistaken(p: Pool, blk: u32)
    requires p.start == 1 && p.nbr == 1 && p.size == 3 && p.align == 3 && p.total == 5 && blk == 2
    ensures GeometryOk(p) && IsValidAddr(p, blk) && blk !in BlkSet(p)
  {
    ModIsRemainder(W, p.align);
    ModIsRemainder(1, p.align);
    assert Gap(p.size, p.align) == 0;
    ValidInGap(p, blk);
  }

  /** The addresses that the test accepts: the blocks, and the one address in the leading gap,
      if any, that lies 2^32 mod stride below the first block. */
  ghost predicate Accepted(p: Pool, blk: u32)
    requires GeometryOk(p)
  {
    var first := AlignUp(p.start, p.align);
    blk in BlkSet(p) || (p.start <= blk < first && first - blk == Mod(W, Stride(p.size, p.align)))
  }

  lemma AddrAccepted(p: Pool, blk: u32)
    requires GeometryOk(p)
    ensures IsValidAddr(p, blk) <==> Accepted(p, blk)
    ensures blk in BlkSet(p) ==> blk > 0
  {
    hide Gap;
    var l := Layout(p.start, p.nbr, p.size, p.align);
    assert forall i :: 0 <= i < |l| ==> l[i] >= AlignUp(p.start, p.align);
    if blk >= AlignUp(p.start, p.align) {
      ValidAfterFirst(p, blk);
    } else if blk >= p.start {
      ValidInGap(p, blk);
    }
  }

  /** Why an address that is not that of a used block is refused. */
  ghost function Refusal(chk: bool, p: Pool, blk: u32): LibErr
    requires GeometryOk(p) && p.ix <= |p.ptrs|
  {
    if chk && blk == 0 then NullPtr
    else if chk && !Accepted(p, blk) then InvalidBlkAddr
    else if chk && blk in FreeSet(p) then InvalidBlkAddrInPool
    else if UsedSet(p) == {} then PoolFull
    else InvalidPool
  }

  /** With argument checks the free of anything but a used block changes nothing, and so does
      every free without them when no block is in use; the error says why. On a pool whose
      address test is exact the checks never leave it at PoolFull or InvalidPool. */
  lemma FreeRejectsOthers(chk: bool, p: Pool, blk: u32)
    requires PoolOk(p) && blk !in UsedSet(p) && (chk || UsedSet(p) == {})
    ensures BlkFree(chk, p, blk) == (p, Refusal(chk, p, blk))
    ensures chk && GapNotMistaken(p) ==>
      Refusal(chk, p, blk) ==
        if blk == 0 then NullPtr else if blk in FreeSet(p) then InvalidBlkAddrInPool else InvalidBlkAddr
  {
    hide IsValidAddr, Accepted;
    FindUsed(p, blk);
    AddrAccepted(p, blk);
    NoneUsed(p);
    PtrsPartition(p);
    if GapNotMistaken(p) {
      AddrCases(p, blk);
    }
  }

  lemma NoneUsed(p: Pool)
    requires p.ix <= |p.ptrs| == p.nbr
    ensures UsedSet(p) == {} <==> p.ix == p.nbr
  {
    if p.ix < p.nbr {
      assert p.ptrs[p.ix..][0] in UsedSet(p);
    }
  }

  /** Every used block is accepted, with argument checks and without. */
  lemma FreeAcceptsUsed(chk: bool, p: Pool, blk: u32)
    requires PoolOk(p) && blk in UsedSet(p)
    ensures IsValidAddr(p, blk) && blk != 0 && BlkFree(chk, p, blk).1 == ErrNone
  {
    PtrsPartition(p);
    AddrAccepted(p, blk);
    FreeMovesOneBlock(chk, p, blk);
  }

  /** Without argument checks the caller has to free used blocks only: the pointer array
      stays a permutation of the blocks exactly then, or when the pool is full. Otherwise the
      block replaces the first used one. */
  lemma UncheckedFreeKeepsPool(p: Pool, blk: u32)
    requires PoolOk(p)
    ensures PoolOk(BlkFree(false, p, blk).0) <==> UsedSet(p) == {} || blk in UsedSet(p)
    ensures UsedSet(p) != {} && blk !in UsedSet(p) ==>
      p.ix < p.nbr && BlkFree(false, p, blk) == (p.(ptrs := p.ptrs[p.ix := blk], ix := p.ix + 1), ErrNone)
  {
    NoneUsed(p);
    FindUsed(p, blk);
    if blk in UsedSet(p) {
      FreeMovesOneBlock(false, p, blk);
    } else if p.ix < p.nbr {
      var p' := BlkFree(false, p, blk).0;
      if PoolOk(p') {
        SamePermutedElements(p.ptrs, Layout(p.start, p.nbr, p.size, p.align));
        SamePermutedElements(p'.ptrs, Layout(p.start, p.nbr, p.size, p.align));
        assert p.ptrs[p.ix] in p.ptrs;
        assert p.ptrs[p.ix] in p'.ptrs;
        var j :| 0 <= j < p.nbr && p'.ptrs[j] == p.ptrs[p.ix];
        assert p.ptrs[p.ix..][0] == p.ptrs[p.ix];
        PtrsDistinct(p);
        assert false;
      }
    }
  }

  /** A double free without argument checks: of the blocks 8 and 9 of one octet, 9 is in
      use and 8 is freed again. Then 8 is in the pointer array twice and 9 is lost. */
  lemma UncheckedDoubleFree(p: Pool, blk: u32)
    requires p == Pool(8, 4, 8, 2, 2, 1, 1, [8, 9], 1) && blk == 8
    ensures PoolOk(p) && blk in FreeSet(p)
    ensures BlkFree(false, p, blk) == (p.(ptrs := [8, 8], ix := 2), ErrNone) && !PoolOk(BlkFree(false, p, blk).0)
  {
    hide PoolOk;
    TwoOctetBlks(p);
    var i := Find(p.ptrs, blk, p.ix);
    assert i == 2;
    assert p.ptrs[..p.ix] == [8] && p.ptrs[p.ix..] == [9];
    assert p.ptrs[p.ix := blk] == [8, 8];
    NoneUsed(p);
    UncheckedFreeKeepsPool(p, blk);
  }

  lemma TwoOctetBlks(p: Pool)
    requires p == Pool(8, 4, 8, 2, 2, 1, 1, [8, 9], 1)
    ensures PoolOk(p)
  {
    hide Gap, Times;
    GapOne(p.start);
    GapOne(p.size);
    TimesIsProduct(1, 0);
    TimesIsProduct(1, 1);
    var l := Layout(p.start, p.nbr, p.size, p.align);
    assert l[0] == 8 && l[1] == 9;
    assert l == p.ptrs;
  }

  // ---------------------------------------------------------------- used indices

  /** Mem_PoolBlkIxGet numbers the used blocks 0 .. used-1, and
      Mem_PoolBlkGetUsedAtIx inverts it. */
  lemma IxGetThenAtIx(chk: bool, p: Pool, blk: u32)
    requires PoolOk(p) && blk in UsedSet(p)
    ensures
      var (ix, err) := BlkIxGet(chk, p, blk);
      err == ErrNone && ix < p.nbr - p.ix && BlkGetUsedAtIx(chk, p, ix) == (blk, ErrNone)
  {
    FreeAcceptsUsed(chk, p, blk);
    PtrsPartition(p);
    FindUsed(p, blk);
  }

  /** The index subtraction does not wrap for the indices in use. */
  lemma AtIxInUse(chk: bool, p: Pool, usedIx: u32)
    requires |p.ptrs| == p.nbr && p.ix <= p.nbr
    ensures BlkGetUsedAtIx(chk, p, usedIx) ==
      if usedIx < p.nbr - p.ix then (p.ptrs[p.nbr - 1 - usedIx], ErrNone) else (0, InvalidBlkIx)
  {
  }

  lemma FindDistinct(s: seq<u32>, from: nat, i: nat)
    requires from <= i < |s|
    requires forall j, k :: 0 <= j < k < |s| ==> s[j] != s[k]
    ensures Find(s, s[i], from) == i
  {
  }

  /** For every 32-bit index: exactly the indices below the number of used blocks name
      a block, and Mem_PoolBlkIxGet gives the index back. */
  lemma AtIxThenIxGet(chk: bool, p: Pool, usedIx: u32)
    requires PoolOk(p)
    ensures
      var (blk, err) := BlkGetUsedAtIx(chk, p, usedIx);
      && (err == ErrNone <==> usedIx < p.nbr - p.ix)
      && (err == ErrNone ==> blk in UsedSet(p) && BlkIxGet(chk, p, blk) == (usedIx, ErrNone))
      && (err != ErrNone ==> blk == 0 && err == InvalidBlkIx)
  {
    AtIxInUse(chk, p, usedIx);
    if usedIx < p.nbr - p.ix {
      var blkIx := p.nbr - 1 - usedIx;
      assert p.ptrs[p.ix..][blkIx - p.ix] == p.ptrs[blkIx];
      PtrsDistinct(p);
      FindDistinct(p.ptrs, p.ix, blkIx);
      IxGetThenAtIx(chk, p, p.ptrs[blkIx]);
    }
  }

  /** Anything but a used block has no index, and the error says why. On a pool whose address
      test is exact the checks never leave it at PoolFull or InvalidPool. */
  lemma IxGetRejectsOthers(chk: bool, p: Pool, blk: u32)
    requires PoolOk(p) && blk !in UsedSet(p)
    ensures BlkIxGet(chk, p, blk) == (INVALID_IX, Refusal(chk, p, blk))
    ensures chk && GapNotMistaken(p) ==>
      Refusal(chk, p, blk) ==
        if blk == 0 then NullPtr else if blk in FreeSet(p) then InvalidBlkAddrInPool else InvalidBlkAddr
  {
    hide IsValidAddr, Accepted;
    FindUsed(p, blk);
    AddrAccepted(p, blk);
    NoneUsed(p);
    PtrsPartition(p);
    if GapNotMistaken(p) {
      AddrCases(p, blk);
    }
  }

  /** A get leaves every index as it is and gives the new block the next one. */
  lemma GetKeepsIndices(chk: bool, p: Pool, size: u32, usedIx: u32)
    requires PoolOk(p) && BlkGet(chk, p, size).2 == ErrNone && usedIx <= p.nbr - p.ix
    ensures
      var (p', blk, _) := BlkGet(chk, p, size);
      BlkGetUsedAtIx(chk, p', usedIx) ==
        if usedIx == p.nbr - p.ix then (blk, ErrNone) else BlkGetUsedAtIx(chk, p, usedIx)
  {
    AtIxInUse(chk, BlkGet(chk, p, size).0, usedIx);
    AtIxInUse(chk, p, usedIx);
  }

  /** A free gives the freed block's index to the block that had the last one; every
      other remaining block keeps its index. */
  lemma FreeReindexesOne(chk: bool, p: Pool, blk: u32, usedIx: u32)
    requires PoolOk(p) && blk in UsedSet(p) && usedIx < p.nbr - p.ix - 1
    ensures
      var p' := BlkFree(chk, p, blk).0;
      BlkGetUsedAtIx(chk, p', usedIx) ==
        if usedIx == BlkIxGet(chk, p, blk).0 then BlkGetUsedAtIx(chk, p, p.nbr - p.ix - 1)
        else BlkGetUsedAtIx(chk, p, usedIx)
  {
    hide GeometryOk, Layout, UsedSet, FreeSet, BlkFree, BlkIxGet, IsValidAddr;
    FreeAcceptsUsed(chk, p, blk);
    FreeMovesOneBlock(chk, p, blk);
    FindUsed(p, blk);
    IxOfUsed(chk, p, blk);
    var p' := p.(ptrs := Swap(p.ptrs, Find(p.ptrs, blk, p.ix), p.ix), ix := p.ix + 1);
    AtIxInUse(chk, p', usedIx);
    AtIxInUse(chk, p, usedIx);
    AtIxInUse(chk, p, p.nbr - p.ix - 1);
  }

  /** The index of a used block is its place from the end of the pointer array. */
  lemma IxOfUsed(chk: bool, p: Pool, blk: u32)
    requires PoolOk(p) && blk in UsedSet(p)
    ensures p.ix <= Find(p.ptrs, blk, p.ix) < p.nbr
    ensures BlkIxGet(chk, p, blk) == (p.nbr - 1 - Find(p.ptrs, blk, p.ix), ErrNone)
  {
    FreeAcceptsUsed(chk, p, blk);
    PtrsPartition(p);
    FindUsed(p, blk);
  }
}
