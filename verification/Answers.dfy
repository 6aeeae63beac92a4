/** What the memory manager answers to every allocation and creation: the error, the octets
    required, and the state, in lengths over unbounded integers. */
module Answers {
  import opened Word32
  import opened Segments
  import opened Pools
  import opened Allocator

  // ---------------------------------------------------------------- Mem_HeapAlloc

  /** Every answer of Mem_HeapAlloc, in unbounded integers: `t` is the gap and the size. */
  lemma HeapAllocAnswer(st: State, size: u32, align: u32)
    requires SegsHeap(st) && HeapArgsOk(st, size, align)
    ensures st.chk && size == 0 ==> HeapAlloc(st, size, align) == HeapResult(st, 0, 0, InvalidMemSize)
    ensures st.chk && size > 0 && align == 0 ==> HeapAlloc(st, size, align) == HeapResult(st, 0, 0, InvalidMemAlign)
    ensures size > 0 && align > 0 ==>
      var heap := st.segs[st.heap];
      var t := Gap(NextAvail(st.heap, heap), align) + size;
      var r := HeapAlloc(st, size, align);
      && (t >= W ==> r == HeapResult(st, 0, size, HeapOvf))
      && (Rem(heap) < t < W ==> r == HeapResult(st, 0, t - Rem(heap), HeapEmpty))
      && (t <= Rem(heap) && TopRefused(st.chk, st.heap, heap, t) ==> r == HeapResult(st, 0, t, HeapEmpty))
      && (Grants(st.chk, st.heap, heap, t) ==>
            && r.blk == AlignUp(st.heap + heap.used, align)
            && r == HeapResult(st.(segs := st.segs[st.heap := Seg(heap.size, heap.used + t)],
                                   blks := st.blks + [HeapBlock(r.blk, size, align)]), r.blk, 0, ErrNone))
  {
    hide Gap, SegCalcTotSize, SegAlloc;
    if size > 0 && align > 0 {
      var heap := st.segs[st.heap];
      SegAllocOutcome(st.chk, st.heap, heap, size, align);
      HeapTotal(st.chk, NextAvail(st.heap, heap), size, align);
      assert st.segs[st.heap := heap] == st.segs;
    }
  }

  /** One block needs its gap and its size; a total that does not fit is reported as 0. */
  lemma HeapTotal(chk: bool, addr: u32, size: u32, align: u32)
    requires align > 0 && size > 0 && (chk || Gap(addr, align) + size < W)
    ensures
      var t := Gap(addr, align) + size;
      SegCalcTotSize(chk, addr, 1, size, align) == if t < W then t else 0
  {
    CalcTotSizeHonest(chk, addr, 1, size, align);
    CalcTotSizeFits(chk, addr, 1, size, align);
  }

  // ---------------------------------------------------------------- Mem_PoolCreate: arguments

  /** With argument checks, the first argument that is missing is reported. */
  lemma CreateRejectsArgs(st: State, a: Args)
    requires SegsHeap(st) && CreateArgsOk(st, a) && !SizesGiven(a)
    ensures a.base != 0 && a.memSize == 0 ==> Create(st, a) == CreateResult(st, 0, InvalidSegSize)
    ensures (a.base != 0 ==> a.memSize > 0) ==>
      && (a.nbr == 0 ==> Create(st, a) == CreateResult(st, 0, InvalidBlkNbr))
      && (a.nbr > 0 && a.size == 0 ==> Create(st, a) == CreateResult(st, 0, InvalidBlkSize))
      && (a.nbr > 0 && a.size > 0 && a.align == 0 ==> Create(st, a) == CreateResult(st, 0, InvalidBlkAlign))
  {
    hide PlanInHeap, PlanDedicated, PtrsSizeOk, StartFor, Gap;
  }

  /** Dedicated memory that runs over the end of the address space, or meets a segment that it
      is not. */
  lemma CreateRejectsMemory(st: State, a: Args)
    requires SegsHeap(st) && CreateArgsOk(st, a) && SizesGiven(a) && a.base != 0
    ensures a.base + a.memSize > W ==> Create(st, a) == CreateResult(st, 0, InvalidBlkAddr)
    ensures a.base + a.memSize <= W && !Identical(st.segs, a) && MeetsSome(st.segs, a) ==>
      Create(st, a) == CreateResult(st, 0, InvalidSegOverlap)
  {
    hide PlanInHeap, PlanDedicated, PtrsSizeOk, StartFor, Gap, Identical, MeetsSome;
  }

  // ---------------------------------------------------------------- Mem_PoolCreate: sizes

  lemma PtrsTotalExact(st: State, nbr: u32)
    requires SegsHeap(st) && nbr > 0 && PtrsLen(st, nbr) < W
    ensures PtrsTotal(st, nbr) == PtrsLen(st, nbr)
  {
    hide SegCalcTotSize, Gap, TrueTotal;
    PtrsTrueTotal(NextAvail(st.heap, st.segs[st.heap]), nbr);
    CalcTotSizeFits(st.chk, NextAvail(st.heap, st.segs[st.heap]), nbr, PTR, PTR);
  }

  /** The size of the pointer array is known, or reported by a 0. */
  lemma PtrsCounted(st: State, a: Args)
    requires SegsHeap(st) && CreateArgsOk(st, a) && SizesGiven(a)
    ensures PtrsTotal(st, a.nbr) == if PtrsLen(st, a.nbr) < W then PtrsLen(st, a.nbr) else 0
    ensures PtrsLen(st, a.nbr) >= W ==> st.chk
    ensures PtrsLen(st, a.nbr) > 0
  {
    hide Gap, PtrsTotal, StartFor, OverflowSeen;
    PtrsTotalIs(st, a.nbr);
    if PtrsLen(st, a.nbr) < W {
      PtrsTotalExact(st, a.nbr);
    }
  }

  /** The overflow tests see that the blocks do not fit in 32 bits. */
  predicate BlksOvfSeen(st: State, a: Args)
    requires SegsHeap(st) && SizesGiven(a)
  {
    st.chk && BlksLen(st, a) >= W && OverflowSeen(StartFor(st, a), a.nbr, a.size, a.align)
  }

  /** Otherwise the size of the blocks is their length reduced to 32 bits. */
  lemma BlksCounted(st: State, a: Args)
    requires SegsHeap(st) && SizesGiven(a)
    ensures SegCalcTotSize(st.chk, StartFor(st, a), a.nbr, a.size, a.align) ==
      if BlksOvfSeen(st, a) then 0 else BlksLen(st, a) % W
    ensures st.chk && !BlksOvfSeen(st, a) ==> BlksLen(st, a) % W > 0
    ensures BlksOvfSeen(st, a) ==> st.chk
  {
    hide SegCalcTotSize, Gap, Stride, Times, StartFor, OverflowSeen;
    CalcTotSizeExact(st.chk, StartFor(st, a), a.nbr, a.size, a.align);
  }

  /** The overflow tests see that a pool in the heap does not fit in 32 bits. */
  predicate HeapOvfSeen(st: State, a: Args)
    requires SegsHeap(st) && SizesGiven(a)
  {
    st.chk && (PtrsLen(st, a.nbr) >= W || BlksOvfSeen(st, a) || PtrsLen(st, a.nbr) + BlksLen(st, a) % W >= W)
  }

  lemma HeapPlan(st: State, a: Args)
    requires SegsHeap(st) && CreateArgsOk(st, a) && SizesGiven(a) && a.base == 0
    ensures
      var len, rem := (PtrsLen(st, a.nbr) + BlksLen(st, a)) % W, Rem(st.segs[st.heap]);
      PlanFor(st, a) ==
      if HeapOvfSeen(st, a) then Reject(0, HeapOvf)
      else if len > rem then Reject(len - rem, HeapEmpty)
      else Proceed(st.heap, st.segs[st.heap], StartFor(st, a), BlksLen(st, a) % W, len)
  {
    hide SegCalcTotSize, CreateArgsOk, PtrsTotal, PtrsLen, BlksLen, BlksOvfSeen, StartFor;
    PtrsCounted(st, a);
    BlksCounted(st, a);
    WrappedSum(PtrsLen(st, a.nbr), BlksLen(st, a));
  }

  /** Dedicated memory in the address space that is a listed segment or meets none. */
  predicate MemoryOk(st: State, a: Args) {
    a.base != 0 && a.base + a.memSize <= W && (Identical(st.segs, a) || !MeetsSome(st.segs, a))
  }

  lemma DedicatedPlan(st: State, a: Args)
    requires SegsHeap(st) && CreateArgsOk(st, a) && SizesGiven(a) && MemoryOk(st, a)
    ensures
      var ptrs, heapRem := PtrsLen(st, a.nbr), Rem(st.segs[st.heap]);
      var blks, rem := BlksLen(st, a) % W, Rem(SegFor(st, a));
      PlanFor(st, a) ==
      if ptrs >= W then Reject(0, HeapOvf)
      else if ptrs > heapRem then Reject(ptrs - heapRem, HeapEmpty)
      else if BlksOvfSeen(st, a) then Reject(0, SegOvf)
      else if blks > rem then Reject(blks - rem, SegEmpty)
      else Proceed(a.base, SegFor(st, a), StartFor(st, a), blks, 0)
  {
    hide SegCalcTotSize, CreateArgsOk, PtrsTotal, PtrsLen, BlksLen, BlksOvfSeen, StartFor, Identical, MeetsSome, SegFor;
    PtrsCounted(st, a);
    BlksCounted(st, a);
  }

  // ---------------------------------------------------------------- Mem_PoolCreate: allocations

  /** A refused pointer array changes nothing. */
  lemma PtrsRefusedAnswer(st: State, a: Args)
    requires SegsHeap(st) && CreateArgsOk(st, a) && PlanFor(st, a).Proceed? && PtrsRefused(st, a)
    ensures SizesGiven(a) && PTR * a.nbr < W
    ensures Create(st, a) == CreateResult(st, if a.base == 0 then PlanFor(st, a).tot else PTR * a.nbr, HeapEmpty)
  {
    hide SegAlloc, CreateArgsOk, PtrsTotal, PlanFor, Commit, PtrsRefused, PtrsLen, SegCalcTotSize, SegFor, StartFor;
    PlanProceeds(st, a);
    PtrsGranted(st, a);
    PtrsNeed(st, a);
    assert (PTR * a.nbr) % W == PTR * a.nbr;
    CommitRefused(st, a, PlanFor(st, a), PTR * a.nbr);
  }

  lemma CommitRefused(st: State, a: Args, p: Plan, size: u32)
    requires SegsHeap(st) && SizesGiven(a) && p.Proceed? && SegOk(p.seg, p.s)
    requires p.seg in st.segs ==> p.s == st.segs[p.seg]
    requires size == (PTR * a.nbr) % W
    requires SegAlloc(st.chk, st.heap, st.segs[st.heap], size, PTR) == (st.segs[st.heap], 0)
    requires (if a.base == 0 then p.tot else size) <= Rem(st.segs[st.heap])
    ensures Commit(st, a, p) == CreateResult(st, if a.base == 0 then p.tot else size, HeapEmpty)
  {
    hide SegAlloc, CommitBlks;
    assert st.segs[st.heap := st.segs[st.heap]] == st.segs;
  }

  lemma PtrsNeed(st: State, a: Args)
    requires SegsHeap(st) && CreateArgsOk(st, a) && PlanFor(st, a).Proceed?
    ensures SizesGiven(a) && PTR * a.nbr < W
    ensures (if a.base == 0 then PlanFor(st, a).tot else PTR * a.nbr) <= Rem(st.segs[st.heap])
  {
    hide SegCalcTotSize, Gap, PtrsTotal, StartFor, PtrsSizeOk, CreateArgsOk;
    PlanProceeds(st, a);
    PtrsFit(st, a);
  }

  /** A request whose blocks are refused after `n` of them: all that fit have been taken, and
      what is reported as required is calculated for the rest. */
  ghost predicate StoppedAt(st: State, a: Args, n: nat, r: CreateResult)
    requires SegsHeap(st) && SizesGiven(a)
  {
    var heap, seg, s1, start := st.segs[st.heap], SegBaseFor(st, a), SegWithPtrs(st, a), StartFor(st, a);
    var segs1 := st.segs[st.heap := Seg(heap.size, heap.used + PtrsLen(st, a.nbr))];
    var s2 := Seg(s1.size, s1.used + TakenBy(start, n, a.size, a.align));
    && n < a.nbr && s1.used <= s1.size && s2.used <= s2.size
    && (n > 0 ==> Grants(st.chk, seg, s1, TrueTotal(start, n, a.size, a.align)))
    && !Grants(st.chk, seg, s1, TrueTotal(start, n + 1, a.size, a.align))
    && var left := SegCalcTotSize(st.chk, NextAvail(seg, s2), a.nbr - n, a.size, a.align);
    && r == CreateResult(st.(segs := if seg in st.segs then segs1[seg := s2] else segs1),
                         if left > Rem(s2) then left - Rem(s2) else left, SegEmpty)
  }

  lemma BlksRefusedAnswer(st: State, a: Args) returns (n: nat)
    requires SegsHeap(st) && CreateArgsOk(st, a) && PlanFor(st, a).Proceed?
    requires SizesGiven(a) && !PtrsRefused(st, a) && LateRefusal(st, a)
    ensures Create(st, a).err == SegEmpty && StoppedAt(st, a, n, Create(st, a))
  {
    hide SegAlloc, AllocBlks, CreateArgsOk, PlanFor, Commit, PtrsRefused, LateRefusal, SegCalcTotSize, PtrsTotal,
      PtrsLen, StartFor, SegFor, Gap, TrueTotal, Grants, NextAvail;
    PlanProceeds(st, a);
    PtrsGranted(st, a);
    OneBlkFits(st, a);
    StartIsNext(st, a);
    BlksGranted(st, a);
    var p, seg, s1 := PlanFor(st, a), SegBaseFor(st, a), SegWithPtrs(st, a);
    AllocBlksLayout(st.chk, seg, s1, a.nbr, a.size, a.align);
    n := AllocBlksRefused(st.chk, seg, s1, a.nbr, a.size, a.align);
    assert (PTR * a.nbr) % W == PTR * a.nbr;
    CommitStopped(st, a, p, SegAlloc(st.chk, st.heap, st.segs[st.heap], (PTR * a.nbr) % W, PTR).0, s1, n);
  }

  lemma CommitStopped(st: State, a: Args, p: Plan, heap1: Seg, s1: Seg, n: nat)
    requires SegsHeap(st) && SizesGiven(a) && p.Proceed? && SegOk(p.seg, p.s) && SegOk(p.seg, s1)
    requires p.seg in st.segs ==> p.s == st.segs[p.seg]
    requires
      var r := SegAlloc(st.chk, st.heap, st.segs[st.heap], (PTR * a.nbr) % W, PTR);
      r.0 == heap1 && r.1 != 0
    requires s1 == if p.seg == st.heap then heap1 else p.s
    requires |AllocBlks(st.chk, p.seg, s1, a.nbr, a.size, a.align).1| == n < a.nbr
    ensures
      var s2 := AllocBlks(st.chk, p.seg, s1, a.nbr, a.size, a.align).0;
      var segs1 := st.segs[st.heap := heap1];
      var left := SegCalcTotSize(st.chk, NextAvail(p.seg, s2), a.nbr - n, a.size, a.align);
      Commit(st, a, p) ==
      CreateResult(st.(segs := if p.seg in st.segs then segs1[p.seg := s2] else segs1),
                   if left > Rem(s2) then left - Rem(s2) else left, SegEmpty)
  {
    hide SegAlloc, AllocBlks, SegCalcTotSize;
  }

  // ---------------------------------------------------------------- Mem_PoolCreate: every answer

  /** A request whose sizes are let through. */
  lemma PassedAnswer(st: State, a: Args)
    requires SegsHeap(st) && CreateArgsOk(st, a) && PlanFor(st, a).Proceed?
    ensures SizesGiven(a) && PTR * a.nbr < W
    ensures PtrsRefused(st, a) ==>
      Create(st, a) == CreateResult(st, if a.base == 0 then PlanFor(st, a).tot else PTR * a.nbr, HeapEmpty)
    ensures !PtrsRefused(st, a) && LateRefusal(st, a) ==>
      Create(st, a).err == SegEmpty && exists n: nat :: StoppedAt(st, a, n, Create(st, a))
    ensures !LateRefusal(st, a) ==>
      Create(st, a).err == ErrNone && Create(st, a).reqd == 0 && Created(st, a, Create(st, a).st)
  {
    hide CreateArgsOk, PlanFor, Create, PtrsRefused, LateRefusal, StoppedAt, Created, PtrsLen;
    PtrsGranted(st, a);
    CreateAllOrNothing(st, a);
    if PtrsRefused(st, a) {
      PtrsRefusedAnswer(st, a);
    } else if LateRefusal(st, a) {
      var n := BlksRefusedAnswer(st, a);
    }
  }

  /** Every answer for a pool in the heap. */
  lemma HeapPoolAnswer(st: State, a: Args)
    requires SegsHeap(st) && CreateArgsOk(st, a) && SizesGiven(a) && a.base == 0
    ensures
      var total, rem := PtrsLen(st, a.nbr) + BlksLen(st, a), Rem(st.segs[st.heap]);
      rem < total < W ==> Create(st, a) == CreateResult(st, total - rem, HeapEmpty)
    ensures
      var len, rem := (PtrsLen(st, a.nbr) + BlksLen(st, a)) % W, Rem(st.segs[st.heap]);
      var r := Create(st, a);
      if HeapOvfSeen(st, a) then r == CreateResult(st, 0, HeapOvf)
      else if len > rem then r == CreateResult(st, len - rem, HeapEmpty)
      else if PtrsRefused(st, a) then r == CreateResult(st, len, HeapEmpty)
      else if LateRefusal(st, a) then r.err == SegEmpty && exists n: nat :: StoppedAt(st, a, n, r)
      else r.err == ErrNone && r.reqd == 0 && Created(st, a, r.st)
  {
    hide CreateArgsOk, PlanFor, PtrsRefused, LateRefusal, StoppedAt, Created, PtrsLen, BlksLen, Commit;
    HeapPlan(st, a);
    if PlanFor(st, a).Proceed? {
      PassedAnswer(st, a);
    }
  }

  /** Every answer for a pool in dedicated memory that is in order. */
  lemma DedicatedPoolAnswer(st: State, a: Args)
    requires SegsHeap(st) && CreateArgsOk(st, a) && SizesGiven(a) && MemoryOk(st, a)
    ensures
      var ptrs, heapRem := PtrsLen(st, a.nbr), Rem(st.segs[st.heap]);
      var blks, rem := BlksLen(st, a) % W, Rem(SegFor(st, a));
      var r := Create(st, a);
      if ptrs >= W then r == CreateResult(st, 0, HeapOvf)
      else if ptrs > heapRem then r == CreateResult(st, ptrs - heapRem, HeapEmpty)
      else if BlksOvfSeen(st, a) then r == CreateResult(st, 0, SegOvf)
      else if blks > rem then r == CreateResult(st, blks - rem, SegEmpty)
      else if PtrsRefused(st, a) then r == CreateResult(st, PTR * a.nbr, HeapEmpty)
      else if LateRefusal(st, a) then r.err == SegEmpty && exists n: nat :: StoppedAt(st, a, n, r)
      else r.err == ErrNone && r.reqd == 0 && Created(st, a, r.st)
  {
    hide CreateArgsOk, PlanFor, PtrsRefused, LateRefusal, StoppedAt, Created, PtrsLen, BlksLen, Commit, SegFor,
      BlksOvfSeen;
    DedicatedPlan(st, a);
    if PlanFor(st, a).Proceed? {
      PassedAnswer(st, a);
    }
  }
}
