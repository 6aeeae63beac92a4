/** The memory manager as a state machine over values: the heap, the table of
    segments, the live heap blocks and the created pools. */
module Allocator {
  import opened Word32
  import opened Segments
  import opened Pools

  /** A block handed out by Mem_HeapAlloc. */
  datatype HeapBlock = HeapBlock(addr: u32, size: u32, align: u32)

  /** `chk` is LIB_MEM_CFG_ARG_CHK_EXT_EN; `heap` is the base of the heap segment;
      segments are keyed by their base address; pools are in creation order. */
  datatype State = State(chk: bool, heap: nat, segs: map<nat, Seg>, blks: seq<HeapBlock>, pools: seq<Pool>)

  /** Octets of a pointer, and its alignment. */
  const PTR: u32 := 4

  // ---------------------------------------------------------------- invariant

  /** Segments are sound and their ranges are pairwise disjoint. */
  ghost predicate SegsOk(segs: map<nat, Seg>) {
    && (forall b :: b in segs ==> SegOk(b, segs[b]))
    && (forall a, b :: a in segs && b in segs && a < b ==> a + segs[a].size <= b)
  }

  /** What the library has handed out: heap blocks, the pointer array of each pool,
      and the blocks of each pool (entry `j` of the pointer array of pool `k`). */
  datatype Handle = HeapBlk(i: nat) | PtrArray(k: nat) | PoolBlk(k: nat, j: nat)

  datatype Region = Region(seg: nat, start: nat, len: nat, align: nat)

  ghost predicate Has(st: State, h: Handle) {
    match h
    case HeapBlk(i) => i < |st.blks|
    case PtrArray(k) => k < |st.pools|
    case PoolBlk(k, j) => k < |st.pools| && j < |st.pools[k].ptrs|
  }

  /** In-use pool blocks are those at or after BlkIx. */
  ghost predicate Live(st: State, h: Handle) {
    Has(st, h) && (h.PoolBlk? ==> h.j >= st.pools[h.k].ix)
  }

  ghost function RegionOf(st: State, h: Handle): Region
    requires Has(st, h)
  {
    match h
    case HeapBlk(i) => Region(st.heap, st.blks[i].addr, st.blks[i].size, st.blks[i].align)
    case PtrArray(k) => Region(st.heap, st.pools[k].ptrsAddr, PTR * st.pools[k].nbr, PTR)
    case PoolBlk(k, j) => Region(st.pools[k].seg, st.pools[k].ptrs[j], st.pools[k].size, st.pools[k].align)
  }

  ghost predicate Disjoint(a: Region, b: Region) {
    a.start + a.len <= b.start || b.start + b.len <= a.start
  }

  /** Aligned as requested and inside the part of its segment that has been handed out. */
  ghost predicate Placed(segs: map<nat, Seg>, r: Region) {
    && r.seg in segs
    && r.seg <= r.start && r.start + r.len <= r.seg + segs[r.seg].used
    && r.align > 0 && Aligned(r.start, r.align)
  }

  ghost predicate AllPlaced(st: State) {
    forall h :: Has(st, h) ==> Placed(st.segs, RegionOf(st, h))
  }

  ghost predicate AllDisjoint(st: State) {
    forall g, h :: Has(st, g) && Has(st, h) && g != h ==> Disjoint(RegionOf(st, g), RegionOf(st, h))
  }

  ghost predicate WellFormed(st: State) {
    && SegsOk(st.segs) && st.heap in st.segs
    && (forall k :: 0 <= k < |st.pools| ==> PoolOk(st.pools[k]))
    && AllPlaced(st) && AllDisjoint(st)
  }

  lemma WellFormedHeap(st: State)
    requires WellFormed(st)
    ensures SegsHeap(st)
  {
  }

  // ---------------------------------------------------------------- Mem_Init

  function Init(chk: bool, base: nat, size: nat): State {
    State(chk, base, map[base := Seg(size, 0)], [], [])
  }

  lemma InitWellFormed(chk: bool, base: nat, size: nat)
    requires SegOk(base, Seg(size, 0))
    ensures WellFormed(Init(chk, base, size))
  {
  }

  // ---------------------------------------------------------------- Mem_HeapAlloc

  datatype HeapResult = HeapResult(st: State, blk: u32, reqd: u32, err: LibErr)

  /** Without argument checks the caller guarantees what they would check. */
  predicate HeapArgsOk(st: State, size: u32, align: u32)
    requires st.heap in st.segs
  {
    st.chk || (size > 0 && align > 0 && Gap(NextAvail(st.heap, st.segs[st.heap]), align) + size < W)
  }

  function HeapAlloc(st: State, size: u32, align: u32): HeapResult
    requires st.heap in st.segs && SegOk(st.heap, st.segs[st.heap])
    requires HeapArgsOk(st, size, align)
  {
    if st.chk && size < 1 then HeapResult(st, 0, 0, InvalidMemSize)
    else if st.chk && align < 1 then HeapResult(st, 0, 0, InvalidMemAlign)
    else
      var heap := st.segs[st.heap];
      var req := SegCalcTotSize(st.chk, NextAvail(st.heap, heap), 1, size, align);
      if st.chk && req < 1 then HeapResult(st, 0, size, HeapOvf)
      else if req > Rem(heap) then HeapResult(st, 0, req - Rem(heap), HeapEmpty)
      else
        var (heap1, blk) := SegAlloc(st.chk, st.heap, heap, size, align);
        var st1 := st.(segs := st.segs[st.heap := heap1]);
        if blk == 0 then HeapResult(st1, 0, req, HeapEmpty)
        else HeapResult(st1.(blks := st.blks + [HeapBlock(blk, size, align)]), blk, 0, ErrNone)
  }

  // ---------------------------------------------------------------- Mem_PoolCreate

  datatype Args = Args(base: u32, memSize: u32, nbr: u32, size: u32, align: u32)

  datatype CreateResult = CreateResult(st: State, reqd: u32, err: LibErr)

  /** What the checks before the first allocation decide. */
  datatype Plan =
    | Reject(reqd: u32, err: LibErr)
    | Proceed(seg: nat, s: Seg, start: u32, totPool: u32, tot: u32)

  predicate Meets(base: nat, size: nat, b: nat, s: Seg) {
    base < b + s.size && b < base + size
  }

  /** The request names a segment that is already in the table. */
  predicate Identical(segs: map<nat, Seg>, a: Args) {
    a.base in segs && segs[a.base].size == a.memSize
  }

  predicate MeetsSome(segs: map<nat, Seg>, a: Args) {
    exists b :: b in segs && Meets(a.base, a.memSize, b, segs[b])
  }

  predicate SizesGiven(a: Args) {
    a.nbr > 0 && a.size > 0 && a.align > 0 && (a.base != 0 ==> a.memSize > 0)
  }

  /** The segment the blocks come from: the heap, a listed segment, or a new one. */
  function SegFor(st: State, a: Args): Seg
    requires st.heap in st.segs
  {
    if a.base == 0 then st.segs[st.heap]
    else if Identical(st.segs, a) then st.segs[a.base]
    else Seg(a.memSize, 0)
  }

  function SegBaseFor(st: State, a: Args): nat {
    if a.base == 0 then st.heap else a.base
  }

  /** Size calculated for the pointer array. */
  function PtrsTotal(st: State, nbr: u32): u32
    requires st.heap in st.segs && nbr > 0
  {
    SegCalcTotSize(st.chk, NextAvail(st.heap, st.segs[st.heap]), nbr, PTR, PTR)
  }

  /** Where the blocks are expected to start: behind the pointer array when both come
      from the heap, else at the next free address of the segment. */
  function StartFor(st: State, a: Args): u32
    requires st.heap in st.segs && a.nbr > 0
  {
    if a.base == 0 then (NextAvail(st.heap, st.segs[st.heap]) + PtrsTotal(st, a.nbr)) % W
    else NextAvail(a.base, SegFor(st, a))
  }

  /** What the library asks of its caller. The address range and the sizes have to be
      given when argument checks are off, and then one block with the gap in front of it
      must not wrap; the pair of the heap itself is not to be passed as dedicated memory;
      and the pointer array must not defeat the size calculation. */
  predicate CreateArgsOk(st: State, a: Args)
    requires st.heap in st.segs
  {
    && !(a.base == st.heap && a.memSize == st.segs[st.heap].size)
    && (!st.chk ==> SizesGiven(a) && a.base + a.memSize <= W)
    && (SizesGiven(a) ==>
          && PtrsSizeOk(st, a.nbr)
          && (!st.chk ==> Gap(StartFor(st, a), a.align) + a.size < W))
  }

  /** The pointer array fits in 32 bits, or the overflow tests see that it does not. */
  predicate PtrsSizeOk(st: State, nbr: u32)
    requires st.heap in st.segs && nbr > 0
  {
    PtrsLen(st, nbr) < W || (st.chk && OverflowSeen(NextAvail(st.heap, st.segs[st.heap]), nbr, PTR, PTR))
  }

  function PlanFor(st: State, a: Args): Plan
    requires SegsHeap(st) && CreateArgsOk(st, a)
  {
    if st.chk && a.base != 0 && a.memSize < 1 then Reject(0, InvalidSegSize)
    else if st.chk && a.nbr < 1 then Reject(0, InvalidBlkNbr)
    else if st.chk && a.size < 1 then Reject(0, InvalidBlkSize)
    else if st.chk && a.align < 1 then Reject(0, InvalidBlkAlign)
    else if a.base == 0 then PlanInHeap(st, a)
    else if st.chk && (a.base + a.memSize - 1) % W < a.base then Reject(0, InvalidBlkAddr)
    else if !Identical(st.segs, a) && MeetsSome(st.segs, a) then Reject(0, InvalidSegOverlap)
    else PlanDedicated(st, a)
  }

  predicate SegsHeap(st: State) {
    st.heap in st.segs && forall b :: b in st.segs ==> SegOk(b, st.segs[b])
  }

  function PlanInHeap(st: State, a: Args): Plan
    requires SegsHeap(st) && SizesGiven(a)
  {
    var heap := st.segs[st.heap];
    var totPtrs := PtrsTotal(st, a.nbr);
    var start := StartFor(st, a);
    if st.chk && totPtrs < 1 then Reject(0, HeapOvf)
    else
      var totPool := SegCalcTotSize(st.chk, start, a.nbr, a.size, a.align);
      var tot := (totPtrs + totPool) % W;
      if st.chk && totPool < 1 then Reject(0, HeapOvf)
      else if st.chk && (tot < totPtrs || tot < totPool) then Reject(0, HeapOvf)
      else if tot > Rem(heap) then Reject(tot - Rem(heap), HeapEmpty)
      else Proceed(st.heap, heap, start, totPool, tot)
  }

  function PlanDedicated(st: State, a: Args): Plan
    requires SegsHeap(st) && SizesGiven(a) && a.base != 0
  {
    var heap := st.segs[st.heap];
    var s := SegFor(st, a);
    var totPtrs := PtrsTotal(st, a.nbr);
    if st.chk && totPtrs < 1 then Reject(0, HeapOvf)
    else if totPtrs > Rem(heap) then Reject(totPtrs - Rem(heap), HeapEmpty)
    else
      var start := StartFor(st, a);
      var totPool := SegCalcTotSize(st.chk, start, a.nbr, a.size, a.align);
      if st.chk && totPool < 1 then Reject(0, SegOvf)
      else if totPool > Rem(s) then Reject(totPool - Rem(s), SegEmpty)
      else Proceed(a.base, s, start, totPool, 0)
  }

  /** The allocations after the checks: the pointer array from the heap, then the blocks.
      Each may still be refused, and then what was taken stays taken. */
  function Commit(st: State, a: Args, p: Plan): CreateResult
    requires SegsHeap(st) && SizesGiven(a)
    requires p.Proceed? && SegOk(p.seg, p.s) && (p.seg in st.segs ==> p.s == st.segs[p.seg])
  {
    var ptrsSize: u32 := (PTR * a.nbr) % W;
    var (heap1, ptrs) := SegAlloc(st.chk, st.heap, st.segs[st.heap], ptrsSize, PTR);
    var st1 := st.(segs := st.segs[st.heap := heap1]);
    if ptrs == 0 then
      var need := if a.base == 0 then p.tot else ptrsSize;
      CreateResult(st1, if need > Rem(heap1) then need - Rem(heap1) else need, HeapEmpty)
    else
      CommitBlks(st1, a, p, if p.seg == st.heap then heap1 else p.s, ptrs)
  }

  /** The blocks, once the pointer array has been taken. */
  function CommitBlks(st: State, a: Args, p: Plan, s1: Seg, ptrs: u32): CreateResult
    requires SizesGiven(a) && p.Proceed? && SegOk(p.seg, s1)
  {
    var (s2, addrs) := AllocBlks(st.chk, p.seg, s1, a.nbr, a.size, a.align);
    if |addrs| < a.nbr then
      var left := SegCalcTotSize(st.chk, NextAvail(p.seg, s2), a.nbr - |addrs|, a.size, a.align);
      CreateResult(st.(segs := if p.seg in st.segs then st.segs[p.seg := s2] else st.segs),
                   if left > Rem(s2) then left - Rem(s2) else left, SegEmpty)
    else
      CreateResult(AddPool(st, p.seg, s2, Pool(p.seg, ptrs, p.start, p.totPool, a.nbr, a.size, a.align, addrs, a.nbr)),
                   0, ErrNone)
  }

  function AddPool(st: State, seg: nat, s: Seg, p: Pool): State {
    st.(segs := st.segs[seg := s], pools := st.pools + [p])
  }

  lemma PlanProceeds(st: State, a: Args)
    requires SegsHeap(st) && CreateArgsOk(st, a) && PlanFor(st, a).Proceed?
    ensures
      var p := PlanFor(st, a);
      && SizesGiven(a) && p.seg == SegBaseFor(st, a) && p.s == SegFor(st, a) && p.start == StartFor(st, a)
      && SegOk(p.seg, p.s) && (p.seg in st.segs ==> p.s == st.segs[p.seg])
      && p.totPool == SegCalcTotSize(st.chk, p.start, a.nbr, a.size, a.align)
      && (a.base != 0 ==> a.base != st.heap && p.totPool <= Rem(p.s))
      && (a.base != 0 && !Identical(st.segs, a) ==> a.base !in st.segs && !MeetsSome(st.segs, a))
  {
    hide SegCalcTotSize, PtrsSizeOk, Gap, Times, TrueTotal, PtrsTotal, StartFor, Stride;
    if SizesGiven(a) && a.base in st.segs {
      assert Meets(a.base, a.memSize, a.base, st.segs[a.base]);
    }
  }

  function Create(st: State, a: Args): CreateResult
    requires SegsHeap(st) && CreateArgsOk(st, a)
  {
    var p := PlanFor(st, a);
    if p.Reject? then CreateResult(st, p.reqd, p.err)
    else
      PlanProceeds(st, a);
      Commit(st, a, p)
  }

  // ---------------------------------------------------------------- all or nothing

  lemma StrideSelf(n: nat)
    requires n > 0
    ensures Stride(n, n) == n
  {
    assert Mod(n, n) == 0;
  }

  lemma PtrsTrueTotal(next: nat, nbr: nat)
    requires nbr > 0
    ensures TrueTotal(next, nbr, PTR, PTR) == Gap(next, PTR) + PTR * nbr
  {
    hide Gap, Stride, Times;
    StrideSelf(PTR);
    TimesIsProduct(PTR, nbr - 1);
    assert PTR * (nbr - 1) == PTR * nbr - PTR;
  }

  lemma PtrsTotalIs(st: State, nbr: u32)
    requires SegsHeap(st) && nbr > 0
    requires PtrsSizeOk(st, nbr)
    ensures
      || (st.chk && PtrsTotal(st, nbr) == 0)
      || PtrsTotal(st, nbr) == PtrsLen(st, nbr)
  {
    hide SegCalcTotSize, Gap, TrueTotal;
    PtrsTrueTotal(NextAvail(st.heap, st.segs[st.heap]), nbr);
    CalcTotSizeHonest(st.chk, NextAvail(st.heap, st.segs[st.heap]), nbr, PTR, PTR);
  }

  /** The octets of the pointer array with the gap in front of it. */
  function PtrsLen(st: State, nbr: u32): nat
    requires st.heap in st.segs
  {
    Gap(NextAvail(st.heap, st.segs[st.heap]), PTR) + PTR * nbr
  }

  /** The octets of the blocks, over unbounded integers. */
  function BlksLen(st: State, a: Args): nat
    requires st.heap in st.segs && a.nbr > 0 && a.align > 0
  {
    TrueTotal(StartFor(st, a), a.nbr, a.size, a.align)
  }

  /** The segment the blocks come from once the pointer array has been taken. */
  function SegWithPtrs(st: State, a: Args): Seg
    requires st.heap in st.segs
  {
    var s := SegFor(st, a);
    if a.base == 0 then Seg(s.size, s.used + PtrsLen(st, a.nbr)) else s
  }

  /** The requests that the size checks let through but an allocation then refuses: the
      total has wrapped unnoticed, or a segment that reaches the top of the address space
      would be filled exactly. */
  predicate LateRefusal(st: State, a: Args)
    requires SegsHeap(st) && SizesGiven(a) && a.nbr > 0
  {
    var total := BlksLen(st, a) + (if a.base == 0 then PtrsLen(st, a.nbr) else 0);
    total >= W || PtrsRefused(st, a) || TopFilled(st.chk, SegBaseFor(st, a), SegFor(st, a), total)
  }

  predicate TopFilled(chk: bool, base: nat, s: Seg, total: nat) {
    chk && base + s.size == W && s.used + total == s.size
  }

  /** Both the heap and the segment have room for the request. */
  ghost predicate Room(st: State, a: Args)
    requires SegsHeap(st) && SizesGiven(a)
  {
    var heap := st.segs[st.heap];
    var s1 := SegWithPtrs(st, a);
    && StartFor(st, a) == SegBaseFor(st, a) + s1.used
    && st.heap + heap.used < W
    && heap.used + PtrsLen(st, a.nbr) <= heap.size
    && s1.used + BlksLen(st, a) <= s1.size
    && BlksLen(st, a) < W
  }

  /** The segments after a pool has been created. */
  ghost function NewSegs(st: State, a: Args): map<nat, Seg>
    requires SegsHeap(st) && SizesGiven(a)
  {
    var heap := st.segs[st.heap];
    var s1 := SegWithPtrs(st, a);
    st.segs[st.heap := Seg(heap.size, heap.used + PtrsLen(st, a.nbr))]
           [SegBaseFor(st, a) := Seg(s1.size, s1.used + BlksLen(st, a))]
  }

  /** The state after a pool has been created: everything but the contents of the
      pointer array is a function of the request, and those are the laid out blocks. */
  ghost predicate Created(st: State, a: Args, st': State)
    requires SegsHeap(st) && SizesGiven(a)
  {
    var ptrs := AlignUp(st.heap + st.segs[st.heap].used, PTR);
    && Room(st, a) && ptrs < W
    && |st'.pools| == |st.pools| + 1
    && var addrs := st'.pools[|st.pools|].ptrs;
    && LaidOut(addrs, StartFor(st, a), a.nbr, a.size, a.align)
    && st' == st.(segs := NewSegs(st, a),
                  pools := st.pools + [Pool(SegBaseFor(st, a), ptrs, StartFor(st, a), BlksLen(st, a),
                                            a.nbr, a.size, a.align, addrs, a.nbr)])
  }

  /** The pointer array itself does not fit in the heap, or would fill it up to the top of
      the address space. */
  predicate PtrsRefused(st: State, a: Args)
    requires st.heap in st.segs
  {
    var heap := st.segs[st.heap];
    heap.used + PtrsLen(st, a.nbr) > heap.size || TopFilled(st.chk, st.heap, heap, PtrsLen(st, a.nbr))
  }

  /** The size of the pointer array is known exactly, and for dedicated memory it fits. */
  lemma PtrsFit(st: State, a: Args)
    requires SegsHeap(st) && CreateArgsOk(st, a) && PlanFor(st, a).Proceed?
    ensures SizesGiven(a) && PTR * a.nbr < W
    ensures PtrsLen(st, a.nbr) < W && PtrsTotal(st, a.nbr) == PtrsLen(st, a.nbr)
    ensures a.base != 0 ==> PtrsLen(st, a.nbr) <= Rem(st.segs[st.heap])
  {
    hide SegCalcTotSize, Gap, Stride, Times, SegAlloc, TrueTotal;
    PlanProceeds(st, a);
    PtrsTotalIs(st, a.nbr);
  }

  /** The allocation of the pointer array. */
  lemma PtrsGranted(st: State, a: Args)
    requires SegsHeap(st) && CreateArgsOk(st, a) && PlanFor(st, a).Proceed?
    ensures SizesGiven(a) && PTR * a.nbr < W
    ensures
      var heap := st.segs[st.heap];
      var len := PtrsLen(st, a.nbr);
      var r := SegAlloc(st.chk, st.heap, heap, PTR * a.nbr, PTR);
      && len < W && PtrsTotal(st, a.nbr) == len
      && (PtrsRefused(st, a) ==> r == (heap, 0))
      && (!PtrsRefused(st, a) ==>
            && st.heap + heap.used < W && len <= Rem(heap)
            && r == (Seg(heap.size, heap.used + len), st.heap + heap.used + Gap(st.heap + heap.used, PTR)))
  {
    hide Gap, SegAlloc, CreateArgsOk, PlanFor, PtrsTotal;
    PtrsFit(st, a);
    SegAllocOutcome(st.chk, st.heap, st.segs[st.heap], PTR * a.nbr, PTR);
  }

  /** In the heap the checks leave room for the pointer array and at least one octet, unless
      argument checks are off and the total has wrapped. */
  lemma PlanInHeapRoom(st: State, a: Args)
    requires SegsHeap(st) && CreateArgsOk(st, a) && PlanFor(st, a).Proceed? && a.base == 0
    ensures SizesGiven(a)
    ensures
      var t := SegCalcTotSize(st.chk, StartFor(st, a), a.nbr, a.size, a.align);
      st.chk || PtrsLen(st, a.nbr) + BlksLen(st, a) < W ==>
        t > 0 && PtrsTotal(st, a.nbr) + t <= Rem(st.segs[st.heap]) && PtrsTotal(st, a.nbr) > 0
  {
    hide SegCalcTotSize, Gap, Stride, Times, TrueTotal, PtrsTotal, StartFor, PtrsSizeOk;
    PlanProceeds(st, a);
    PtrsTotalIs(st, a.nbr);
    BlksTotalIs(st, a);
  }

  lemma BlksTotalIs(st: State, a: Args)
    requires SegsHeap(st) && SizesGiven(a)
    ensures BlksLen(st, a) > 0
    ensures BlksLen(st, a) < W ==>
      SegCalcTotSize(st.chk, StartFor(st, a), a.nbr, a.size, a.align) == BlksLen(st, a)
  {
    hide SegCalcTotSize, Gap, Stride, Times, StartFor;
    CalcTotSizeFits(st.chk, StartFor(st, a), a.nbr, a.size, a.align);
  }

  /** The blocks are granted exactly if their true total fits and does not fill a
      segment up to the top. */
  lemma BlksGranted(st: State, a: Args)
    requires SegsHeap(st) && CreateArgsOk(st, a) && PlanFor(st, a).Proceed?
    requires !PtrsRefused(st, a)
    ensures SizesGiven(a)
    ensures
      var seg := SegBaseFor(st, a);
      var s1 := SegWithPtrs(st, a);
      && SegOk(seg, s1)
      && var (s2, addrs) := AllocBlks(st.chk, seg, s1, a.nbr, a.size, a.align);
      if LateRefusal(st, a) then |addrs| < a.nbr
      else
        && StartFor(st, a) == seg + s1.used
        && BlksLen(st, a) < W && PlanFor(st, a).totPool == BlksLen(st, a)
        && s2 == Seg(s1.size, s1.used + BlksLen(st, a))
        && LaidOut(addrs, StartFor(st, a), a.nbr, a.size, a.align)
  {
    hide SegCalcTotSize, Gap, Times, Stride, TrueTotal, AllocBlks, LaidOut, PlanFor, SegAlloc, CreateArgsOk, SegFor,
      PtrsTotal, StartFor, PtrsLen, PtrsRefused;
    PlanProceeds(st, a);
    PtrsGranted(st, a);
    OneBlkFits(st, a);
    StartIsNext(st, a);
    BlksTotalIs(st, a);
    AllocBlksLayout(st.chk, SegBaseFor(st, a), SegWithPtrs(st, a), a.nbr, a.size, a.align);
    if a.base == 0 {
      PlanInHeapRoom(st, a);
    }
  }

  /** The expected start of the blocks is the next free address behind the pointer array. */
  lemma StartIsNext(st: State, a: Args)
    requires SegsHeap(st) && CreateArgsOk(st, a) && PlanFor(st, a).Proceed? && !PtrsRefused(st, a)
    ensures SizesGiven(a) && SegOk(SegBaseFor(st, a), SegWithPtrs(st, a))
    ensures StartFor(st, a) == NextAvail(SegBaseFor(st, a), SegWithPtrs(st, a))
  {
    hide SegCalcTotSize, Gap, PlanFor, CreateArgsOk, PtrsTotal;
    PlanProceeds(st, a);
    PtrsFit(st, a);
  }

  lemma OneBlkFits(st: State, a: Args)
    requires st.heap in st.segs && CreateArgsOk(st, a) && SizesGiven(a)
    ensures !st.chk ==> Gap(StartFor(st, a), a.align) + a.size < W
  {
    hide PtrsSizeOk, StartFor, Gap;
  }

  /** Mem_PoolCreate once the size checks have passed: it succeeds, with block `i` at
      its place and the calculated totals taken, exactly if the request is not one of
      the late refusals. */
  lemma CreateSucceedsUnlessLate(st: State, a: Args)
    requires SegsHeap(st) && CreateArgsOk(st, a) && PlanFor(st, a).Proceed?
    ensures SizesGiven(a)
    ensures Create(st, a).err == ErrNone <==> !LateRefusal(st, a)
    ensures !LateRefusal(st, a) ==> Created(st, a, Create(st, a).st)
    ensures LateRefusal(st, a) ==> Create(st, a).st.pools == st.pools
  {
    hide SegCalcTotSize, Gap, Stride, Times, AllocBlks, SegAlloc, TrueTotal, Identical, MeetsSome, PtrsTotal,
      PtrsSizeOk, StartFor, BlksLen, PtrsLen, TopFilled, PlanFor, CreateArgsOk;
    PlanProceeds(st, a);
    PtrsGranted(st, a);
    if !PtrsRefused(st, a) {
      BlksGranted(st, a);
      var p := PlanFor(st, a);
      var heap := st.segs[st.heap];
      assert (PTR * a.nbr) % W == PTR * a.nbr;
      assert SegAlloc(st.chk, st.heap, heap, (PTR * a.nbr) % W, PTR).1 > 0;
      assert Create(st, a) == Commit(st, a, p);
      var s1 := SegWithPtrs(st, a);
      var addrs := AllocBlks(st.chk, p.seg, s1, a.nbr, a.size, a.align).1;
      assert LateRefusal(st, a) <==> |addrs| < a.nbr;
      assert Commit(st, a, p).err == if |addrs| < a.nbr then SegEmpty else ErrNone;
    }
  }

  // ---------------------------------------------------------------- what every step keeps

  /** No segment disappears or gives anything back. */
  ghost predicate Grown(s: map<nat, Seg>, t: map<nat, Seg>) {
    forall b :: b in s ==> b in t && t[b].size == s[b].size && s[b].used <= t[b].used
  }

  /** The region lies behind everything its segment had handed out. */
  ghost predicate Above(segs: map<nat, Seg>, r: Region) {
    r.seg in segs ==> r.seg + segs[r.seg].used <= r.start
  }

  lemma GrownKeepsWellFormed(st: State, segs: map<nat, Seg>)
    requires WellFormed(st) && Grown(st.segs, segs) && SegsOk(segs)
    ensures WellFormed(st.(segs := segs))
  {
    var st' := st.(segs := segs);
    forall h | Has(st', h) ensures Placed(segs, RegionOf(st', h)) {
      assert Has(st, h) && RegionOf(st', h) == RegionOf(st, h);
    }
    forall g, h | Has(st', g) && Has(st', h) && g != h ensures Disjoint(RegionOf(st', g), RegionOf(st', h)) {
      assert Has(st, g) && Has(st, h);
      assert RegionOf(st', g) == RegionOf(st, g) && RegionOf(st', h) == RegionOf(st, h);
    }
  }

  /** What is taken from the free part of a segment meets nothing handed out before. */
  lemma NewIsDisjoint(st: State, h: Handle, segs: map<nat, Seg>, r: Region)
    requires WellFormed(st) && Has(st, h) && Grown(st.segs, segs) && SegsOk(segs)
    requires Placed(segs, r) && Above(st.segs, r)
    ensures Disjoint(RegionOf(st, h), r)
  {
    var o := RegionOf(st, h);
    assert Placed(st.segs, o);
    if o.seg < r.seg {
      assert o.seg + segs[o.seg].size <= r.seg;
    } else if r.seg < o.seg {
      assert r.seg + segs[r.seg].size <= o.seg;
    }
  }

  lemma AddBlockWellFormed(st: State, segs: map<nat, Seg>, b: HeapBlock)
    requires WellFormed(st) && Grown(st.segs, segs) && SegsOk(segs)
    requires Placed(segs, Region(st.heap, b.addr, b.size, b.align))
    requires Above(st.segs, Region(st.heap, b.addr, b.size, b.align))
    ensures WellFormed(st.(segs := segs, blks := st.blks + [b]))
  {
    hide PoolOk, SegsOk, Placed, Disjoint, Grown, Above;
    var st' := st.(segs := segs, blks := st.blks + [b]);
    var r := Region(st.heap, b.addr, b.size, b.align);
    var added := HeapBlk(|st.blks|);
    GrownKeepsWellFormed(st, segs);
    assert forall h :: Has(st, h) ==> Has(st', h) && RegionOf(st', h) == RegionOf(st, h);
    assert forall h :: Has(st', h) && h != added ==> Has(st, h);
    assert Has(st', added) && RegionOf(st', added) == r;
    forall h | Has(st', h) ensures Placed(segs, RegionOf(st', h)) {
      assert h != added ==> RegionOf(st.(segs := segs), h) == RegionOf(st', h);
    }
    forall g, h | Has(st', g) && Has(st', h) && g != h ensures Disjoint(RegionOf(st', g), RegionOf(st', h)) {
      if g == added {
        NewIsDisjoint(st, h, segs, r);
        DisjointSym(RegionOf(st, h), r);
      } else if h == added {
        NewIsDisjoint(st, g, segs, r);
      }
    }
  }

  lemma DisjointSym(a: Region, b: Region)
    ensures Disjoint(a, b) <==> Disjoint(b, a)
  {
  }

  /** Mem_HeapAlloc keeps the invariant; a granted block is where its size and
      alignment ask for it, and no other part of the state changes. */
  lemma HeapAllocWellFormed(st: State, size: u32, align: u32)
    requires WellFormed(st) && HeapArgsOk(st, size, align)
    ensures WellFormed(HeapAlloc(st, size, align).st)
    ensures
      var r := HeapAlloc(st, size, align);
      if r.err == ErrNone
      then r.st.blks == st.blks + [HeapBlock(r.blk, size, align)] && r.st.pools == st.pools
           && r.st.segs.Keys == st.segs.Keys && Grown(st.segs, r.st.segs)
      else r.st == st && r.blk == 0
  {
    hide SegAlloc, SegCalcTotSize, Gap;
    var r := HeapAlloc(st, size, align);
    if size > 0 && align > 0 {
      var heap := st.segs[st.heap];
      SegAllocOutcome(st.chk, st.heap, heap, size, align);
      var (heap1, blk) := SegAlloc(st.chk, st.heap, heap, size, align);
      var segs := st.segs[st.heap := heap1];
      assert st.segs[st.heap := heap] == st.segs;
      if r.err == ErrNone {
        AddBlockWellFormed(st, segs, HeapBlock(blk, size, align));
      }
    }
  }

  /** Block `j` of a layout is aligned and inside the total. */
  lemma BlkPlaced(start: nat, nbr: nat, size: nat, align: nat, j: nat)
    requires align > 0 && j < nbr
    ensures Aligned(BlkAddr(start, size, align, j), align)
    ensures start <= BlkAddr(start, size, align, j)
    ensures BlkAddr(start, size, align, j) + size <= start + TrueTotal(start, nbr, size, align)
  {
    AlignUpLeast(start, align, 0);
    AlignUpLeast(size, align, 0);
    AlignedStrides(AlignUp(start, align), Stride(size, align), j, align);
    TimesOrder(Stride(size, align), j, nbr - 1);
  }

  /** The segments after a creation. */
  lemma NewSegsOk(st: State, a: Args)
    requires WellFormed(st) && CreateArgsOk(st, a) && PlanFor(st, a).Proceed?
    requires SizesGiven(a) && Room(st, a)
    ensures Grown(st.segs, NewSegs(st, a)) && SegsOk(NewSegs(st, a))
  {
    hide BlksLen, PtrsLen, StartFor, CreateArgsOk, PlanFor, AllPlaced, AllDisjoint, PoolOk, Grown, MeetsSome,
      SegCalcTotSize;
    PlanProceeds(st, a);
    var heap := st.segs[st.heap];
    var heap1 := Seg(heap.size, heap.used + PtrsLen(st, a.nbr));
    var s1 := SegWithPtrs(st, a);
    var s2 := Seg(s1.size, s1.used + BlksLen(st, a));
    TwoUpdates(st.segs, st.heap, heap1, SegBaseFor(st, a), s1, s2, a);
  }

  lemma TwoUpdates(segs: map<nat, Seg>, heap: nat, heap1: Seg, b: nat, s1: Seg, s2: Seg, a: Args)
    requires SegsOk(segs) && heap in segs && heap1.size == segs[heap].size && SegOk(heap, heap1)
    requires segs[heap].used <= heap1.used
    requires SegOk(b, s2) && s2.size == s1.size && s1.used <= s2.used
    requires if b == heap then s1 == heap1 else b in segs ==> s1 == segs[b]
    requires b !in segs ==> b == a.base && s2.size == a.memSize && !MeetsSome(segs, a)
    ensures Grown(segs, segs[heap := heap1][b := s2]) && SegsOk(segs[heap := heap1][b := s2])
  {
    UpdateSegs(segs, heap, heap1);
    if b !in segs {
      assert forall c :: c in segs ==> !Meets(b, s2.size, c, segs[c]);
    }
    UpdateSegs(segs[heap := heap1], b, s2);
  }

  lemma UpdateSegs(segs: map<nat, Seg>, b: nat, s: Seg)
    requires SegsOk(segs) && SegOk(b, s)
    requires b in segs ==> s.size == segs[b].size && segs[b].used <= s.used
    requires b !in segs ==> forall c :: c in segs ==> !Meets(b, s.size, c, segs[c])
    ensures SegsOk(segs[b := s]) && Grown(segs, segs[b := s])
  {
  }

  /** The regions of a new pool lie behind everything handed out before, in the order
      pointer array, blocks. */
  lemma CreatedRegions(st: State, a: Args, st': State, h: Handle)
    requires WellFormed(st) && CreateArgsOk(st, a) && PlanFor(st, a).Proceed?
    requires SizesGiven(a) && Created(st, a, st')
    requires Has(st', h) && !Has(st, h)
    ensures Placed(st'.segs, RegionOf(st', h)) && Above(st.segs, RegionOf(st', h))
    ensures h.PtrArray? || (h.PoolBlk? && h.k == |st.pools| && h.j < a.nbr)
    ensures h.PtrArray? && a.base == 0 ==> RegionOf(st', h).start + RegionOf(st', h).len <= StartFor(st, a)
    ensures h.PoolBlk? ==> StartFor(st, a) <= RegionOf(st', h).start
  {
    hide SegCalcTotSize, PlanFor, CreateArgsOk, PoolOk, AllPlaced, AllDisjoint, StartFor, PtrsLen, BlksLen, NewSegs,
      Room, Placed, Above, SegFor, BlkAddr;
    WellFormedHeap(st);
    if h.PoolBlk? {
      CreatedBlk(st, a, st', h.j);
    } else {
      CreatedPtrs(st, a, st');
    }
  }

  lemma CreatedPtrs(st: State, a: Args, st': State)
    requires SegsHeap(st) && CreateArgsOk(st, a) && PlanFor(st, a).Proceed?
    requires SizesGiven(a) && Created(st, a, st')
    ensures Has(st', PtrArray(|st.pools|))
    ensures
      var r := RegionOf(st', PtrArray(|st.pools|));
      Placed(st'.segs, r) && Above(st.segs, r) && (a.base == 0 ==> r.start + r.len <= StartFor(st, a))
  {
    hide PlanFor, CreateArgsOk, StartFor, BlksLen, LaidOut, Gap, SegFor;
    PlanProceeds(st, a);
    AlignUpLeast(st.heap + st.segs[st.heap].used, PTR, 0);
  }

  lemma CreatedBlk(st: State, a: Args, st': State, j: nat)
    requires SegsHeap(st) && CreateArgsOk(st, a) && PlanFor(st, a).Proceed?
    requires SizesGiven(a) && Created(st, a, st') && j < a.nbr
    ensures Has(st', PoolBlk(|st.pools|, j))
    ensures
      var r := RegionOf(st', PoolBlk(|st.pools|, j));
      Placed(st'.segs, r) && Above(st.segs, r) && StartFor(st, a) <= r.start
  {
    hide PlanFor, CreateArgsOk, StartFor, TrueTotal, BlkAddr, PtrsLen;
    PlanProceeds(st, a);
    BlkPlaced(StartFor(st, a), a.nbr, a.size, a.align, j);
  }

  lemma CreatedPoolOk(st: State, a: Args, st': State)
    requires SegsHeap(st) && CreateArgsOk(st, a) && PlanFor(st, a).Proceed?
    requires SizesGiven(a) && Created(st, a, st')
    ensures PoolOk(st'.pools[|st.pools|])
  {
    hide PlanFor, CreateArgsOk, SegCalcTotSize, Gap, Times, TrueTotal, PtrsTotal, StartFor, AlignUp, NewSegs, PtrsLen;
    PlanProceeds(st, a);
    HugeStrideNeverFits(StartFor(st, a), a.nbr, a.size, a.align);
    var p := st'.pools[|st.pools|];
    assert p.ptrs == Layout(p.start, p.nbr, p.size, p.align);
  }

  lemma GrownPlaced(s: map<nat, Seg>, t: map<nat, Seg>, r: Region)
    requires Grown(s, t) && Placed(s, r)
    ensures Placed(t, r)
  {
  }

  lemma GrownHas(s: map<nat, Seg>, t: map<nat, Seg>, b: nat)
    requires Grown(s, t) && b in s
    ensures b in t
  {
  }

  lemma CreatedWellFormed(st: State, a: Args, st': State)
    requires WellFormed(st) && CreateArgsOk(st, a) && PlanFor(st, a).Proceed?
    requires SizesGiven(a) && Created(st, a, st')
    ensures WellFormed(st')
  {
    hide PlanFor, CreateArgsOk, StartFor, BlksLen, PtrsLen, LaidOut, PoolOk, NewSegs, Room, SegsOk, Placed,
      Disjoint, Grown, Aligned, Gap;
    WellFormedHeap(st);
    NewSegsOk(st, a);
    assert st'.heap in st'.segs by {
      GrownHas(st.segs, st'.segs, st.heap);
    }
    CreatedPoolOk(st, a, st');
    assert forall k :: 0 <= k < |st.pools| ==> st'.pools[k] == st.pools[k];
    assert forall h :: Has(st, h) ==> Has(st', h) && RegionOf(st', h) == RegionOf(st, h);
    forall h | Has(st', h) ensures Placed(st'.segs, RegionOf(st', h)) {
      if Has(st, h) {
        GrownPlaced(st.segs, st'.segs, RegionOf(st, h));
      } else {
        CreatedRegions(st, a, st', h);
      }
    }
    forall g, h | Has(st', g) && Has(st', h) && g != h ensures Disjoint(RegionOf(st', g), RegionOf(st', h)) {
      CreatedDisjoint(st, a, st', g, h);
    }
  }

  lemma CreatedDisjoint(st: State, a: Args, st': State, g: Handle, h: Handle)
    requires WellFormed(st) && CreateArgsOk(st, a) && PlanFor(st, a).Proceed?
    requires SizesGiven(a) && Created(st, a, st')
    requires Has(st', g) && Has(st', h) && g != h
    ensures Disjoint(RegionOf(st', g), RegionOf(st', h))
  {
    hide PlanFor, CreateArgsOk, StartFor, BlksLen, PtrsLen, LaidOut, PoolOk, NewSegs, Room, SegsOk, Placed, Grown,
      Stride, AlignUp;
    NewSegsOk(st, a);
    assert forall k :: 0 <= k < |st.pools| ==> st'.pools[k] == st.pools[k];
    if Has(st, g) && Has(st, h) {
    } else if Has(st, g) {
      CreatedRegions(st, a, st', h);
      NewIsDisjoint(st, g, st'.segs, RegionOf(st', h));
    } else if Has(st, h) {
      CreatedRegions(st, a, st', g);
      NewIsDisjoint(st, h, st'.segs, RegionOf(st', g));
    } else {
      NewPoolDisjoint(st, a, st', g, h);
    }
  }

  /** The pointer array and the blocks of the new pool among themselves. */
  lemma NewPoolDisjoint(st: State, a: Args, st': State, g: Handle, h: Handle)
    requires WellFormed(st) && CreateArgsOk(st, a) && PlanFor(st, a).Proceed?
    requires SizesGiven(a) && Created(st, a, st')
    requires Has(st', g) && Has(st', h) && g != h && !Has(st, g) && !Has(st, h)
    ensures Disjoint(RegionOf(st', g), RegionOf(st', h))
  {
    hide PlanFor, CreateArgsOk, StartFor, BlksLen, PtrsLen, PoolOk, AllPlaced, AllDisjoint, NewSegs, Room, SegsOk,
      Placed, Grown, Above, LaidOut, SegFor, Aligned, Gap;
    WellFormedHeap(st);
    PlanProceeds(st, a);
    NewSegsOk(st, a);
    CreatedRegions(st, a, st', g);
    CreatedRegions(st, a, st', h);
    if g.PoolBlk? && h.PoolBlk? {
      NewBlksDisjoint(st, a, st', g.j, h.j);
    } else if a.base != 0 {
      SegmentsApart(st'.segs, RegionOf(st', g), RegionOf(st', h));
    }
  }

  lemma NewBlksDisjoint(st: State, a: Args, st': State, i: nat, j: nat)
    requires SegsHeap(st) && SizesGiven(a) && Created(st, a, st')
    requires i < a.nbr && j < a.nbr && i != j
    ensures
      var k := |st.pools|;
      Has(st', PoolBlk(k, i)) && Has(st', PoolBlk(k, j))
      && Disjoint(RegionOf(st', PoolBlk(k, i)), RegionOf(st', PoolBlk(k, j)))
  {
    hide StartFor, BlksLen, PtrsLen, NewSegs, Room, SegFor, BlkAddr;
    LayoutAscends(StartFor(st, a), a.nbr, a.size, a.align, if i < j then i else j, if i < j then j else i);
  }

  lemma SegmentsApart(segs: map<nat, Seg>, r: Region, q: Region)
    requires SegsOk(segs) && Placed(segs, r) && Placed(segs, q) && r.seg != q.seg
    ensures Disjoint(r, q)
  {
    if r.seg < q.seg {
      assert r.seg + segs[r.seg].size <= q.seg;
    } else {
      assert q.seg + segs[q.seg].size <= r.seg;
    }
  }

  /** A late refusal keeps what was taken, and nothing else. */
  lemma LateOnlyGrows(st: State, a: Args)
    requires WellFormed(st) && CreateArgsOk(st, a) && PlanFor(st, a).Proceed?
    requires Create(st, a).err != ErrNone
    ensures
      var st' := Create(st, a).st;
      st' == st.(segs := st'.segs) && Grown(st.segs, st'.segs) && SegsOk(st'.segs)
  {
    hide PlanFor, CreateArgsOk, AllPlaced, AllDisjoint, PoolOk, SegCalcTotSize, SegAlloc, AllocBlks, SegFor, SegsOk,
      Grown, StartFor;
    WellFormedHeap(st);
    PlanProceeds(st, a);
    var p := PlanFor(st, a);
    var (heap1, ptrs) := SegAlloc(st.chk, st.heap, st.segs[st.heap], (PTR * a.nbr) % W, PTR);
    UpdateSegs(st.segs, st.heap, heap1);
    GrownTwice(st.segs, st.heap, heap1, p.seg,
               AllocBlks(st.chk, p.seg, if p.seg == st.heap then heap1 else p.s, a.nbr, a.size, a.align).0);
  }

  predicate Extends(segs: map<nat, Seg>, b: nat, s: Seg) {
    b in segs && SegOk(b, s) && s.size == segs[b].size && segs[b].used <= s.used
  }

  lemma GrownTwice(segs: map<nat, Seg>, heap: nat, heap1: Seg, b: nat, s: Seg)
    requires SegsOk(segs) && heap in segs && SegOk(heap, heap1)
    requires heap1.size == segs[heap].size && segs[heap].used <= heap1.used
    ensures Extends(segs[heap := heap1], b, s) ==>
      Grown(segs, segs[heap := heap1][b := s]) && SegsOk(segs[heap := heap1][b := s])
  {
    UpdateSegs(segs, heap, heap1);
  }

  /** Mem_PoolCreate keeps the invariant, whatever it returns. */
  lemma CreateWellFormed(st: State, a: Args)
    requires WellFormed(st) && CreateArgsOk(st, a)
    ensures WellFormed(Create(st, a).st)
    ensures Grown(st.segs, Create(st, a).st.segs) && st.blks == Create(st, a).st.blks
  {
    hide CreateArgsOk, LateRefusal, Room, NewSegs;
    var r := Create(st, a);
    if PlanFor(st, a).Reject? {
    } else if r.err == ErrNone {
      CreateSucceedsUnlessLate(st, a);
      CreatedWellFormed(st, a, r.st);
      NewSegsOk(st, a);
    } else {
      LateOnlyGrows(st, a);
      GrownKeepsWellFormed(st, r.st.segs);
    }
  }

  /** Which calls of Mem_PoolCreate succeed, and with what; a call that the size checks reject
      changes nothing. `FailureChangesNothing` decides the late refusals too. */
  lemma CreateAllOrNothing(st: State, a: Args)
    requires SegsHeap(st) && CreateArgsOk(st, a)
    ensures
      var r := Create(st, a);
      && (r.err == ErrNone <==> PlanFor(st, a).Proceed? && !LateRefusal(st, a))
      && (r.err == ErrNone ==> Created(st, a, r.st) && r.reqd == 0)
      && (r.err != ErrNone && !(PlanFor(st, a).Proceed? && LateRefusal(st, a)) ==> r.st == st)
  {
    hide SegCalcTotSize, Gap, SegAlloc, AllocBlks, LateRefusal, Created, CreateArgsOk;
    if PlanFor(st, a).Proceed? {
      CreateSucceedsUnlessLate(st, a);
    }
  }

  /** Exactly which failures leave the state as it was: those of the size checks, and the
      late refusal of the pointer array. */
  lemma FailureChangesNothing(st: State, a: Args)
    requires SegsHeap(st) && CreateArgsOk(st, a) && Create(st, a).err != ErrNone
    ensures Create(st, a).st == st <==> PlanFor(st, a).Reject? || PtrsRefused(st, a)
  {
    hide SegCalcTotSize, Gap, SegAlloc, CreateArgsOk, PtrsTotal, PtrsLen, PtrsRefused, PlanFor, CommitBlks;
    if PlanFor(st, a).Proceed? {
      PlanProceeds(st, a);
      PtrsGranted(st, a);
      assert (PTR * a.nbr) % W == PTR * a.nbr;
      if PtrsRefused(st, a) {
        assert st.segs[st.heap := st.segs[st.heap]] == st.segs;
      } else {
        HeapKeepsPtrs(st, a);
      }
    }
  }

  /** Once the pointer array has been taken, its octets stay taken. */
  lemma HeapKeepsPtrs(st: State, a: Args)
    requires SegsHeap(st) && CreateArgsOk(st, a) && PlanFor(st, a).Proceed? && !PtrsRefused(st, a)
    ensures SizesGiven(a) && PtrsLen(st, a.nbr) > 0 && st.heap in Create(st, a).st.segs
    ensures Create(st, a).st.segs[st.heap].used >= st.segs[st.heap].used + PtrsLen(st, a.nbr)
  {
    hide SegCalcTotSize, Gap, SegAlloc, AllocBlks, CreateArgsOk, PtrsTotal, PtrsRefused, PlanFor, SegFor;
    PlanProceeds(st, a);
    PtrsGranted(st, a);
    assert (PTR * a.nbr) % W == PTR * a.nbr;
  }

  // ---------------------------------------------------------------- get and free

  function Get(st: State, k: nat, size: u32): State
    requires k < |st.pools| && |st.pools[k].ptrs| == st.pools[k].nbr
  {
    st.(pools := st.pools[k := BlkGet(st.chk, st.pools[k], size).0])
  }

  function Free(st: State, k: nat, blk: u32): State
    requires k < |st.pools| && GeometryOk(st.pools[k])
    requires |st.pools[k].ptrs| == st.pools[k].nbr && st.pools[k].ix <= st.pools[k].nbr
  {
    st.(pools := st.pools[k := BlkFree(st.chk, st.pools[k], blk).0])
  }

  /** Without argument checks a caller frees used blocks only (a full pool refuses). */
  predicate FreeArgsOk(st: State, k: nat, blk: u32)
    requires k < |st.pools| && st.pools[k].ix <= |st.pools[k].ptrs|
  {
    st.chk || st.pools[k].ix == st.pools[k].nbr || blk in UsedSet(st.pools[k])
  }

  lemma GetWellFormed(st: State, k: nat, size: u32)
    requires WellFormed(st) && k < |st.pools|
    ensures WellFormed(Get(st, k, size))
  {
    var st' := Get(st, k, size);
    GetMovesOneBlock(st.chk, st.pools[k], size);
    hide PoolOk, SegsOk, Placed, Disjoint;
    assert forall i :: 0 <= i < |st.pools| && i != k ==> st'.pools[i] == st.pools[i];
    forall h | Has(st', h) ensures Has(st, h) && RegionOf(st', h) == RegionOf(st, h) {
    }
  }

  /** A block handed out meets no block, pointer array or heap block in use. */
  lemma GetIsFresh(st: State, k: nat, size: u32, h: Handle)
    requires WellFormed(st) && k < |st.pools| && Live(st, h)
    ensures
      var p := st.pools[k];
      var (_, blk, err) := BlkGet(st.chk, p, size);
      err == ErrNone ==>
        var r := Region(p.seg, blk, p.size, p.align);
        Placed(st.segs, r) && Disjoint(RegionOf(st, h), r)
  {
    var p := st.pools[k];
    if p.ix > 0 {
      var g := PoolBlk(k, p.ix - 1);
      assert Has(st, g) && g != h;
    }
  }

  /** The swap of a free renames two handles. */
  ghost function Renamed(h: Handle, k: nat, i: nat, j: nat): Handle {
    if h == PoolBlk(k, i) then PoolBlk(k, j)
    else if h == PoolBlk(k, j) then PoolBlk(k, i)
    else h
  }

  lemma SwapWellFormed(st: State, k: nat, i: nat, p: Pool)
    requires WellFormed(st) && k < |st.pools| && st.pools[k].ix <= i < st.pools[k].nbr
    requires p == st.pools[k].(ptrs := Swap(st.pools[k].ptrs, i, st.pools[k].ix), ix := st.pools[k].ix + 1)
    ensures WellFormed(st.(pools := st.pools[k := p]))
  {
    var st' := st.(pools := st.pools[k := p]);
    var j := st.pools[k].ix;
    SwapKeepsPool(st.pools[k], i);
    hide PoolOk, SegsOk, Placed, Disjoint, RegionOf, Has, Renamed;
    forall h | Has(st', h) ensures Placed(st'.segs, RegionOf(st', h)) {
      SwapRenames(st, k, i, p, h);
    }
    forall g, h | Has(st', g) && Has(st', h) && g != h ensures Disjoint(RegionOf(st', g), RegionOf(st', h)) {
      SwapRenames(st, k, i, p, g);
      SwapRenames(st, k, i, p, h);
      RenamedInjective(g, h, k, i, j);
    }
  }

  lemma RenamedInjective(g: Handle, h: Handle, k: nat, i: nat, j: nat)
    requires g != h
    ensures Renamed(g, k, i, j) != Renamed(h, k, i, j)
  {
  }

  lemma SwapRenames(st: State, k: nat, i: nat, p: Pool, h: Handle)
    requires k < |st.pools| && st.pools[k].ix <= i < |st.pools[k].ptrs|
    requires p == st.pools[k].(ptrs := Swap(st.pools[k].ptrs, i, st.pools[k].ix), ix := st.pools[k].ix + 1)
    requires Has(st.(pools := st.pools[k := p]), h)
    ensures
      var r := Renamed(h, k, i, st.pools[k].ix);
      Has(st, r) && RegionOf(st.(pools := st.pools[k := p]), h) == RegionOf(st, r)
  {
  }

  lemma FreeWellFormed(st: State, k: nat, blk: u32)
    requires WellFormed(st) && k < |st.pools| && FreeArgsOk(st, k, blk)
    ensures WellFormed(Free(st, k, blk))
  {
    var p := st.pools[k];
    if blk in UsedSet(p) {
      FreeAcceptsUsed(st.chk, p, blk);
      FreeMovesOneBlock(st.chk, p, blk);
      FindUsed(p, blk);
      SwapWellFormed(st, k, Find(p.ptrs, blk, p.ix), BlkFree(st.chk, p, blk).0);
    } else {
      NoneUsed(p);
      FreeRejectsOthers(st.chk, p, blk);
      assert st.pools[k := p] == st.pools;
    }
  }

  // ---------------------------------------------------------------- runs

  /** The calls an application can make. Pools are named by creation order. */
  datatype Op =
    | DoHeapAlloc(size: u32, align: u32)
    | DoCreate(a: Args)
    | DoGet(k: nat, size: u32)
    | DoFree(k: nat, blk: u32)

  /** The state has the shape the operations are defined on. */
  ghost predicate Shaped(st: State) {
    && SegsHeap(st)
    && forall k :: 0 <= k < |st.pools| ==>
         GeometryOk(st.pools[k]) && |st.pools[k].ptrs| == st.pools[k].nbr && st.pools[k].ix <= st.pools[k].nbr
  }

  ghost predicate Allowed(st: State, op: Op)
    requires Shaped(st)
  {
    match op
    case DoHeapAlloc(size, align) => HeapArgsOk(st, size, align)
    case DoCreate(a) => CreateArgsOk(st, a)
    case DoGet(k, size) => k < |st.pools|
    case DoFree(k, blk) => k < |st.pools| && FreeArgsOk(st, k, blk)
  }

  ghost function Step(st: State, op: Op): State
    requires Shaped(st) && Allowed(st, op)
  {
    match op
    case DoHeapAlloc(size, align) => HeapAlloc(st, size, align).st
    case DoCreate(a) => Create(st, a).st
    case DoGet(k, size) => Get(st, k, size)
    case DoFree(k, blk) => Free(st, k, blk)
  }

  ghost predicate Next(st: State, op: Op, st': State) {
    Shaped(st) && Allowed(st, op) && st' == Step(st, op)
  }

  /** A run of the library from Mem_Init: every state with the call that leads on. */
  ghost predicate IsRun(states: seq<State>, ops: seq<Op>) {
    && |states| == |ops| + 1
    && (exists chk, base, size :: SegOk(base, Seg(size, 0)) && states[0] == Init(chk, base, size))
    && forall i :: 0 <= i < |ops| ==> Next(states[i], ops[i], states[i + 1])
  }

  lemma StepWellFormed(st: State, op: Op)
    requires WellFormed(st) && Shaped(st) && Allowed(st, op)
    ensures WellFormed(Step(st, op))
  {
    hide WellFormed, HeapAlloc, Create, Get, Free, HeapArgsOk, CreateArgsOk, FreeArgsOk;
    match op
    case DoHeapAlloc(size, align) => HeapAllocWellFormed(st, size, align);
    case DoCreate(a) => CreateWellFormed(st, a);
    case DoGet(k, size) => GetWellFormed(st, k, size);
    case DoFree(k, blk) => FreeWellFormed(st, k, blk);
  }

  /** Every state of every run satisfies the invariant. */
  lemma {:induction false} RunWellFormed(states: seq<State>, ops: seq<Op>, i: nat)
    requires IsRun(states, ops) && i <= |ops|
    ensures WellFormed(states[i])
  {
    hide WellFormed, Step, Shaped, Allowed;
    if i == 0 {
      var chk, base, size :| SegOk(base, Seg(size, 0)) && states[0] == Init(chk, base, size);
      InitWellFormed(chk, base, size);
    } else {
      RunWellFormed(states, ops, i - 1);
      assert Next(states[i - 1], ops[i - 1], states[i]);
      StepWellFormed(states[i - 1], ops[i - 1]);
    }
  }

  /** Whole-run safety: in every reachable state the heap blocks, the pointer arrays and
      the pool blocks in use are aligned as requested, lie inside their segment, and are
      pairwise disjoint. */
  lemma RunSafe(states: seq<State>, ops: seq<Op>, i: nat)
    requires IsRun(states, ops) && i <= |ops|
    ensures
      var st := states[i];
      && (forall h :: Live(st, h) ==>
            var r := RegionOf(st, h);
            && r.align > 0 && Aligned(r.start, r.align)
            && r.seg in st.segs && r.seg <= r.start && r.start + r.len <= r.seg + st.segs[r.seg].size)
      && (forall g, h :: Live(st, g) && Live(st, h) && g != h ==> Disjoint(RegionOf(st, g), RegionOf(st, h)))
  {
    RunWellFormed(states, ops, i);
    var st := states[i];
    hide IsRun, PoolOk, Aligned;
    forall h | Live(st, h)
      ensures
        var r := RegionOf(st, h);
        && r.align > 0 && Aligned(r.start, r.align)
        && r.seg in st.segs && r.seg <= r.start && r.start + r.len <= r.seg + st.segs[r.seg].size
    {
      assert Placed(st.segs, RegionOf(st, h));
      assert SegOk(RegionOf(st, h).seg, st.segs[RegionOf(st, h).seg]);
    }
  }

  /** Nothing is ever taken back: heap blocks and segments only accumulate, and a pool
      keeps its place, its geometry and its set of blocks. */
  ghost predicate Accumulates(st: State, st': State) {
    && st'.chk == st.chk && st'.heap == st.heap
    && Grown(st.segs, st'.segs) && st.blks <= st'.blks
    && |st.pools| <= |st'.pools|
    && forall k :: 0 <= k < |st.pools| ==> SamePlace(st.pools[k], st'.pools[k])
  }

  predicate SamePlace(p: Pool, q: Pool) {
    q == p.(ptrs := q.ptrs, ix := q.ix)
  }

  lemma StepAccumulates(st: State, op: Op)
    requires WellFormed(st) && Shaped(st) && Allowed(st, op)
    ensures Accumulates(st, Step(st, op))
  {
    hide AllPlaced, AllDisjoint, SegsOk, PoolOk, SegAlloc, SegCalcTotSize, PlanFor, CreateArgsOk, IsValidAddr;
    match op
    case DoHeapAlloc(size, align) => HeapAllocWellFormed(st, size, align);
    case DoCreate(a) => CreateWellFormed(st, a);
    case DoGet(k, size) =>
    case DoFree(k, blk) =>
  }

  lemma {:induction false} RunAccumulates(states: seq<State>, ops: seq<Op>, i: nat, j: nat)
    requires IsRun(states, ops) && i <= j <= |ops|
    ensures Accumulates(states[i], states[j])
    decreases j
  {
    assert |states| == |ops| + 1;
    hide IsRun, Accumulates;
    if i < j {
      RunAccumulates(states, ops, i, j - 1);
      RunStepAccumulates(states, ops, j - 1);
      AccumulatesChain(states[i], states[j - 1], states[j]);
    } else {
      AccumulatesSelf(states[i]);
    }
  }

  lemma AccumulatesSelf(s: State)
    ensures Accumulates(s, s)
  {
  }

  lemma AccumulatesChain(s: State, t: State, u: State)
    requires Accumulates(s, t) && Accumulates(t, u)
    ensures Accumulates(s, u)
  {
    assert forall k :: 0 <= k < |s.pools| ==> SamePlace(s.pools[k], t.pools[k]) && SamePlace(t.pools[k], u.pools[k]);
  }

  lemma RunStepAccumulates(states: seq<State>, ops: seq<Op>, i: nat)
    requires IsRun(states, ops) && i < |ops|
    ensures Accumulates(states[i], states[i + 1])
  {
    hide WellFormed, Step, Shaped, Allowed, Accumulates;
    RunWellFormed(states, ops, i);
    assert Next(states[i], ops[i], states[i + 1]);
    StepAccumulates(states[i], ops[i]);
  }
}
