/** What the error returns of the memory manager tell the caller, and the corners in
    which they mislead. */
module Refusals {
  import opened Word32
  import opened Segments
  import opened Pools
  import opened Allocator
  import opened Answers

  /** The same heap with `x` more octets at its end. */
  function Bigger(st: State, x: nat): State
    requires st.heap in st.segs
  {
    var heap := st.segs[st.heap];
    st.(segs := st.segs[st.heap := Seg(heap.size + x, heap.used)])
  }

  /** The heap does not grant gap and size, which fit in 32 bits. */
  predicate HeapShort(st: State, size: u32, align: u32)
    requires SegsHeap(st)
  {
    && size > 0 && align > 0
    && var heap := st.segs[st.heap];
    && var t := Gap(NextAvail(st.heap, heap), align) + size;
    && t < W && !Grants(st.chk, st.heap, heap, t)
  }

  /** When the heap is short, Mem_HeapAlloc reports the least extra heap that would suffice,
      except that with argument checks the heap must not then be filled up to the very top of
      the address space. */
  lemma HeapEmptyReqdIsLeast(st: State, size: u32, align: u32, x: nat)
    requires SegsHeap(st) && HeapArgsOk(st, size, align) && HeapShort(st, size, align)
    requires st.heap + st.segs[st.heap].size + x <= W
    ensures HeapAlloc(st, size, align).err == HeapEmpty && HeapArgsOk(Bigger(st, x), size, align)
    ensures
      var reqd := HeapAlloc(st, size, align).reqd;
      HeapAlloc(Bigger(st, x), size, align).err == ErrNone <==>
      x >= reqd && !(st.chk && x == reqd && st.heap + st.segs[st.heap].size + x == W)
  {
    hide Gap, SegCalcTotSize, SegAlloc;
    var heap := st.segs[st.heap];
    HeapAllocAnswer(st, size, align);
    HeapTotal(st.chk, NextAvail(st.heap, heap), size, align);
    SegAllocOutcome(st.chk, st.heap, Seg(heap.size + x, heap.used), size, align);
  }

  /** Mem_HeapAlloc succeeds exactly if size and alignment are given and the heap grants gap
      and size; the block is then the first aligned address that is free. */
  lemma HeapAllocSucceedsIff(st: State, size: u32, align: u32)
    requires SegsHeap(st) && HeapArgsOk(st, size, align)
    ensures
      var heap := st.segs[st.heap];
      var r := HeapAlloc(st, size, align);
      && (r.err == ErrNone <==>
            && size > 0 && align > 0
            && Grants(st.chk, st.heap, heap, Gap(NextAvail(st.heap, heap), align) + size))
      && (r.err == ErrNone ==> r.blk == AlignUp(st.heap + heap.used, align))
  {
    hide Gap, SegCalcTotSize, SegAlloc;
    if size > 0 && align > 0 {
      var heap := st.segs[st.heap];
      SegAllocOutcome(st.chk, st.heap, heap, size, align);
      HeapTotal(st.chk, NextAvail(st.heap, heap), size, align);
    }
  }

  // ---------------------------------------------------------------- when a creation succeeds

  /** The request in unbounded integers: dedicated memory is in the address space and is a
      listed segment or meets none, and pointer array and blocks fit with their gaps. */
  ghost predicate Fits(st: State, a: Args)
    requires SegsHeap(st) && SizesGiven(a)
  {
    var ptrs, blks := PtrsLen(st, a.nbr), BlksLen(st, a);
    && (a.base != 0 ==> a.base + a.memSize <= W && (Identical(st.segs, a) || !MeetsSome(st.segs, a)))
    && ptrs <= Rem(st.segs[st.heap])
    && (if a.base == 0 then ptrs + blks <= Rem(st.segs[st.heap]) else SegFitsBlks(SegFor(st, a), blks))
    && !PtrsRefused(st, a)
    && !TopFilled(st.chk, SegBaseFor(st, a), SegFor(st, a), blks + (if a.base == 0 then ptrs else 0))
  }

  predicate SegFitsBlks(s: Seg, blks: nat) {
    s.used + blks <= s.size
  }

  /** Mem_PoolCreate succeeds exactly if the sizes are given and the request fits. */
  lemma CreateSucceedsIff(st: State, a: Args)
    requires SegsHeap(st) && CreateArgsOk(st, a)
    ensures Create(st, a).err == ErrNone <==> SizesGiven(a) && Fits(st, a)
  {
    hide CreateArgsOk, LateRefusal, Created, Fits, Create, PlanFor;
    CreateAllOrNothing(st, a);
    if PlanFor(st, a).Proceed? {
      PlanProceeds(st, a);
      if LateRefusal(st, a) {
        LateDoesNotFit(st, a);
      } else {
        CreatedFits(st, a);
      }
    }
    if SizesGiven(a) && Fits(st, a) {
      FitsProceeds(st, a);
    }
  }

  lemma LateDoesNotFit(st: State, a: Args)
    requires SegsHeap(st) && SizesGiven(a) && LateRefusal(st, a)
    requires SegOk(SegBaseFor(st, a), SegFor(st, a))
    ensures !Fits(st, a)
  {
    hide BlksLen, PtrsLen, Identical, MeetsSome, SegFor;
  }

  lemma CreatedFits(st: State, a: Args)
    requires SegsHeap(st) && CreateArgsOk(st, a) && PlanFor(st, a).Proceed? && SizesGiven(a)
    requires !LateRefusal(st, a) && Created(st, a, Create(st, a).st)
    ensures Fits(st, a)
  {
    hide BlksLen, PtrsLen, Identical, MeetsSome, SegFor, Create, StartFor, LaidOut, NewSegs, CreateArgsOk, PlanFor;
    PlanProceeds(st, a);
    if a.base != 0 {
      RangeOk(st, a);
    }
  }

  lemma RangeOk(st: State, a: Args)
    requires SegsHeap(st) && CreateArgsOk(st, a) && PlanFor(st, a).Proceed? && a.base != 0
    ensures a.base + a.memSize <= W
  {
    hide PlanDedicated, PlanInHeap, PtrsSizeOk, TrueTotal, StartFor, PtrsTotal, Stride, MeetsSome;
  }

  /** What fits is sized exactly. */
  lemma FitsTotals(st: State, a: Args)
    requires SegsHeap(st) && SizesGiven(a) && Fits(st, a)
    ensures PtrsTotal(st, a.nbr) == PtrsLen(st, a.nbr) > 0
    ensures SegCalcTotSize(st.chk, StartFor(st, a), a.nbr, a.size, a.align) == BlksLen(st, a) > 0
  {
    hide SegCalcTotSize, Gap, Stride, Times, StartFor, MeetsSome, Identical, PtrsRefused, TopFilled, SegFor;
    var heap := st.segs[st.heap];
    PtrsTrueTotal(NextAvail(st.heap, heap), a.nbr);
    CalcTotSizeFits(st.chk, NextAvail(st.heap, heap), a.nbr, PTR, PTR);
    SegForBounded(st, a);
    CalcTotSizeFits(st.chk, StartFor(st, a), a.nbr, a.size, a.align);
  }

  lemma SegForBounded(st: State, a: Args)
    requires SegsHeap(st) && SizesGiven(a)
    ensures SegFor(st, a).size < W
  {
  }

  lemma FitsProceeds(st: State, a: Args)
    requires SegsHeap(st) && CreateArgsOk(st, a) && SizesGiven(a) && Fits(st, a)
    ensures PlanFor(st, a).Proceed? && !LateRefusal(st, a)
  {
    hide SegCalcTotSize, PtrsSizeOk, Stride, TrueTotal, StartFor, PtrsTotal, PtrsLen, BlksLen, MeetsSome,
      PtrsRefused, TopFilled;
    FitsTotals(st, a);
    SegForBounded(st, a);
  }

  /** The heap is short of a pool in it, or of the pointer array of one in dedicated memory. */
  predicate HeapTooSmall(st: State, a: Args)
    requires SegsHeap(st) && SizesGiven(a)
  {
    var rem := Rem(st.segs[st.heap]);
    if a.base == 0 then !HeapOvfSeen(st, a) && (PtrsLen(st, a.nbr) + BlksLen(st, a)) % W > rem
    else MemoryOk(st, a) && rem < PtrsLen(st, a.nbr) < W
  }

  /** The dedicated memory is short of the blocks. */
  predicate SegTooSmall(st: State, a: Args)
    requires SegsHeap(st) && SizesGiven(a)
  {
    && MemoryOk(st, a) && PtrsLen(st, a.nbr) <= Rem(st.segs[st.heap])
    && !BlksOvfSeen(st, a) && BlksLen(st, a) % W > Rem(SegFor(st, a))
  }

  lemma TooSmallMemory(st: State, a: Args)
    requires SegsHeap(st) && CreateArgsOk(st, a) && SizesGiven(a) && (HeapTooSmall(st, a) || SegTooSmall(st, a))
    ensures a.base + a.memSize <= W && !(a.base == st.heap && Identical(st.segs, a))
    ensures a.base != 0 && !Identical(st.segs, a) ==> a.base !in st.segs
  {
    hide PtrsSizeOk, HeapOvfSeen, BlksOvfSeen, StartFor, PtrsLen, BlksLen;
    if a.base in st.segs {
      assert Meets(a.base, a.memSize, a.base, st.segs[a.base]);
    }
  }

  /** More octets at the end of the heap, or of the segment, move nothing. */
  lemma SameNext(st: State, a: Args, st': State, a': Args)
    requires SegsHeap(st) && SegsHeap(st') && SizesGiven(a) && SizesGiven(a') && SameStart(st, a, st', a')
    ensures PtrsTotal(st', a.nbr) == PtrsTotal(st, a.nbr) && PtrsLen(st', a.nbr) == PtrsLen(st, a.nbr)
    ensures StartFor(st', a') == StartFor(st, a) && BlksLen(st', a') == BlksLen(st, a)
    ensures PtrsSizeOk(st', a.nbr) == PtrsSizeOk(st, a.nbr)
    ensures BlksOvfSeen(st', a') == BlksOvfSeen(st, a) && HeapOvfSeen(st', a') == HeapOvfSeen(st, a)
  {
    hide SegCalcTotSize, OverflowSeen, TrueTotal;
  }

  /** The same request but for the end of the dedicated memory, in a state with the same
      octets handed out. */
  predicate SameStart(st: State, a: Args, st': State, a': Args)
    requires SegsHeap(st) && SegsHeap(st')
  {
    && st'.chk == st.chk && st'.heap == st.heap && a' == a.(memSize := a'.memSize)
    && st'.segs[st.heap].used == st.segs[st.heap].used && SegFor(st', a').used == SegFor(st, a).used
  }

  lemma SameArgsOk(st: State, a: Args, st': State, a': Args)
    requires SegsHeap(st) && SegsHeap(st') && SizesGiven(a) && SizesGiven(a') && SameStart(st, a, st', a')
    requires CreateArgsOk(st, a) && a'.base + a'.memSize <= W
    requires !(a'.base == st'.heap && a'.memSize == st'.segs[st'.heap].size)
    ensures CreateArgsOk(st', a')
  {
    hide PtrsSizeOk, BlksLen, PtrsLen, StartFor, PtrsTotal;
    SameNext(st, a, st', a');
  }

  /** When the heap is too small, the octets reported are the least extra heap with which the
      test of the heap no longer fires: with fewer, the rest is reported. */
  lemma CreateReqdIsLeast(st: State, a: Args, x: nat)
    requires SegsHeap(st) && CreateArgsOk(st, a) && SizesGiven(a) && HeapTooSmall(st, a)
    requires st.heap + st.segs[st.heap].size + x <= W
    ensures SegsHeap(Bigger(st, x)) && CreateArgsOk(Bigger(st, x), a)
    ensures
      var bigger, r := Bigger(st, x), Create(st, a);
      && r.err == HeapEmpty && r.st == st && r.reqd > 0
      && (x < r.reqd && (a.base == 0 || MemoryOk(bigger, a)) ==>
            Create(bigger, a) == CreateResult(bigger, r.reqd - x, HeapEmpty))
      && (x >= r.reqd && !PtrsRefused(bigger, a) ==> Create(bigger, a).err != HeapEmpty)
  {
    hide CreateArgsOk, Create, PtrsLen, BlksLen, StartFor, PtrsTotal, PtrsRefused, LateRefusal, StoppedAt, Created,
      MeetsSome, HeapOvfSeen, BlksOvfSeen;
    var bigger := Bigger(st, x);
    TooSmallMemory(st, a);
    SameArgsOk(st, a, bigger, a);
    SameNext(st, a, bigger, a);
    if a.base == 0 {
      HeapPoolAnswer(st, a);
      HeapPoolAnswer(bigger, a);
    } else {
      DedicatedPoolAnswer(st, a);
      CreateRejectsMemory(bigger, a);
      if MemoryOk(bigger, a) {
        DedicatedPoolAnswer(bigger, a);
      }
    }
  }

  /** A pool in the heap that is too small: with `x` more octets of heap it is created if and
      only if there are as many as are reported (and one more if that fills the heap to the
      top of the address space), and the total has not wrapped. */
  lemma HeapPoolReqdIsLeast(st: State, a: Args, x: nat)
    requires SegsHeap(st) && CreateArgsOk(st, a) && SizesGiven(a) && HeapTooSmall(st, a) && a.base == 0
    requires st.heap + st.segs[st.heap].size + x <= W
    ensures SegsHeap(Bigger(st, x)) && CreateArgsOk(Bigger(st, x), a) && Create(st, a).err == HeapEmpty
    ensures
      var reqd := Create(st, a).reqd;
      Create(Bigger(st, x), a).err == ErrNone <==>
      && x >= reqd && PtrsLen(st, a.nbr) + BlksLen(st, a) < W
      && !(st.chk && x == reqd && st.heap + st.segs[st.heap].size + x == W)
  {
    hide CreateArgsOk, Create, PtrsLen, BlksLen, StartFor, PtrsTotal, LateRefusal, StoppedAt, Created, HeapOvfSeen;
    var bigger := Bigger(st, x);
    TooSmallMemory(st, a);
    SameArgsOk(st, a, bigger, a);
    SameNext(st, a, bigger, a);
    HeapPoolAnswer(st, a);
    CreateSucceedsIff(bigger, a);
  }

  /** A pool in dedicated memory for whose pointer array the heap is too small: with `x` more
      octets of heap the creation succeeds if and only if there are as many as are reported,
      the bigger heap does not run into the dedicated memory, and the blocks fit in it. */
  lemma PtrsReqdIsLeast(st: State, a: Args, x: nat)
    requires SegsHeap(st) && CreateArgsOk(st, a) && SizesGiven(a) && HeapTooSmall(st, a) && a.base != 0
    requires st.heap + st.segs[st.heap].size + x <= W
    ensures SegsHeap(Bigger(st, x)) && CreateArgsOk(Bigger(st, x), a) && Create(st, a).err == HeapEmpty
    ensures
      var reqd := Create(st, a).reqd;
      Create(Bigger(st, x), a).err == ErrNone <==>
      && x >= reqd && !(st.chk && x == reqd && st.heap + st.segs[st.heap].size + x == W)
      && (Identical(st.segs, a) || !MeetsSome(Bigger(st, x).segs, a))
      && SegFitsBlks(SegFor(st, a), BlksLen(st, a)) && !TopFilled(st.chk, a.base, SegFor(st, a), BlksLen(st, a))
  {
    hide CreateArgsOk, Create, PtrsLen, BlksLen, StartFor, PtrsTotal, MeetsSome, LateRefusal, StoppedAt, Created,
      BlksOvfSeen;
    var bigger := Bigger(st, x);
    TooSmallMemory(st, a);
    SameArgsOk(st, a, bigger, a);
    SameNext(st, a, bigger, a);
    DedicatedPoolAnswer(st, a);
    CreateSucceedsIff(bigger, a);
  }

  /** The dedicated memory of the request with `x` more octets at its end, in the table too if
      it is listed. */
  function BiggerSeg(st: State, a: Args, x: nat): State {
    if Identical(st.segs, a) then st.(segs := st.segs[a.base := Seg(a.memSize + x, st.segs[a.base].used)]) else st
  }

  /** A pool for whose blocks the dedicated memory is too small: with `x` more octets there the
      creation succeeds if and only if there are as many as are reported, the block total has
      not wrapped, the pointer array is granted, and a bigger new segment meets no other. */
  lemma SegReqdIsLeast(st: State, a: Args, a': Args, x: nat)
    requires SegsHeap(st) && CreateArgsOk(st, a) && SizesGiven(a) && SegTooSmall(st, a)
    requires a' == a.(memSize := a'.memSize) && a'.memSize == a.memSize + x && a.base + a.memSize + x <= W
    ensures SegsHeap(BiggerSeg(st, a, x)) && CreateArgsOk(BiggerSeg(st, a, x), a') && Create(st, a).err == SegEmpty
    ensures
      var reqd := Create(st, a).reqd;
      Create(BiggerSeg(st, a, x), a').err == ErrNone <==>
      && x >= reqd && BlksLen(st, a) < W && !PtrsRefused(st, a)
      && !(st.chk && x == reqd && a.base + a.memSize + x == W)
      && (Identical(st.segs, a) || !MeetsSome(st.segs, a'))
  {
    hide CreateArgsOk, Create, PtrsLen, BlksLen, StartFor, PtrsTotal, MeetsSome, LateRefusal, StoppedAt, Created,
      BlksOvfSeen;
    var bigger := BiggerSeg(st, a, x);
    TooSmallMemory(st, a);
    SameArgsOk(st, a, bigger, a');
    SameNext(st, a, bigger, a');
    DedicatedPoolAnswer(st, a);
    CreateSucceedsIff(bigger, a');
  }

  // ---------------------------------------------------------------- late refusals

  /** A refusal after the size checks, and it is not all or nothing: a heap of 4096
      octets that ends at the top of the address space, and a pool of one block of 4092
      octets. The pointer array stays taken. */
  lemma LateRefusalHappens(st: State, a: Args)
    requires st == State(true, W - 4096, map[W - 4096 := Seg(4096, 0)], [], [])
    requires a == Args(0, 0, 1, 4092, 4)
    ensures WellFormed(st) && CreateArgsOk(st, a) && PlanFor(st, a).Proceed? && LateRefusal(st, a)
    ensures Create(st, a).err != ErrNone && Create(st, a).st != st
  {
    InitWellFormed(true, W - 4096, 4096);
    hide Gap, SegCalcTotSize, TrueTotal, SegAlloc, AllocBlks, WellFormed;
    OneBlkTotal(W - 4096, PTR, PTR);
    OneBlkTotal(W - 4092, a.size, a.align);
    assert PtrsTotal(st, 1) == 4 && StartFor(st, a) == W - 4092;
    assert CreateArgsOk(st, a) && PlanFor(st, a) == Proceed(W - 4096, Seg(4096, 0), W - 4092, 4092, 4096);
    hide PlanFor, CreateArgsOk;
    assert LateRefusal(st, a);
    CreateSucceedsUnlessLate(st, a);
    PtrsGranted(st, a);
    assert Create(st, a).st.segs[st.heap].used > 0;
  }

  /** The ordinary late refusal, with argument checks and without: the wrap of the block
      total goes unnoticed, so dedicated memory of 0x30002 octets passes for 65538 blocks of
      65537 octets. */
  lemma UnnoticedWrapRefusedLate(st: State, a: Args)
    requires st == State(st.chk, 4096, map[4096 := Seg(0x10_0000, 0)], [], [])
    requires a == Args(0x2000_0000, 0x3_0002, 0x1_0002, 0x1_0001, 1)
    ensures WellFormed(st) && CreateArgsOk(st, a) && PlanFor(st, a).Proceed? && LateRefusal(st, a)
    ensures Create(st, a).err != ErrNone && Create(st, a).st != st
  {
    InitWellFormed(st.chk, st.heap, 0x10_0000);
    hide WellFormed, Gap, SegCalcTotSize, TrueTotal, SegAlloc, AllocBlks, Honest, PlanFor, CreateArgsOk, Create;
    WrapPlan(st, a);
    CalcTotSizeMissesWrap(st.chk, a.base, a.nbr, a.size, a.align);
    CreateSucceedsUnlessLate(st, a);
    PtrsGranted(st, a);
    LateKeepsPtrs(st, a);
  }

  lemma WrapPlan(st: State, a: Args)
    requires st == State(st.chk, 4096, map[4096 := Seg(0x10_0000, 0)], [], [])
    requires a == Args(0x2000_0000, 0x3_0002, 0x1_0002, 0x1_0001, 1)
    ensures SegsHeap(st) && CreateArgsOk(st, a) && PlanFor(st, a).Proceed? && StartFor(st, a) == a.base
  {
    hide Gap, SegCalcTotSize, TrueTotal, Honest;
    AlignedGap(st.heap, PTR);
    PtrsTrueTotal(st.heap, a.nbr);
    CalcTotSizeFits(st.chk, st.heap, a.nbr, PTR, PTR);
    CalcTotSizeMissesWrap(st.chk, a.base, a.nbr, a.size, a.align);
    assert PtrsTotal(st, a.nbr) == 0x4_0008 && SegFor(st, a) == Seg(0x3_0002, 0);
  }

  /** A late refusal that changes nothing: a heap of 4096 octets that ends at the top of the
      address space would be filled by the pointer array of 1024 blocks alone. */
  lemma PtrsRefusedAtTop(st: State, a: Args)
    requires st == State(true, W - 4096, map[W - 4096 := Seg(4096, 0)], [], [])
    requires a == Args(0x2000_0000, 0x1_0000, 1024, 4, 4)
    ensures WellFormed(st) && CreateArgsOk(st, a) && PlanFor(st, a).Proceed? && PtrsRefused(st, a)
    ensures Create(st, a).err != ErrNone && Create(st, a).st == st
  {
    InitWellFormed(true, st.heap, 4096);
    hide WellFormed, PlanFor, CreateArgsOk, Create, PtrsLen, BlksLen;
    TopPlan(st, a);
    CreateSucceedsUnlessLate(st, a);
    FailureChangesNothing(st, a);
  }

  lemma TopPlan(st: State, a: Args)
    requires st == State(true, W - 4096, map[W - 4096 := Seg(4096, 0)], [], [])
    requires a == Args(0x2000_0000, 0x1_0000, 1024, 4, 4)
    ensures SegsHeap(st) && CreateArgsOk(st, a) && PlanFor(st, a).Proceed? && PtrsLen(st, a.nbr) == 4096
  {
    hide Gap, SegCalcTotSize, TrueTotal, PtrsTotal, OverflowSeen;
    AlignedGap(st.heap, PTR);
    AlignedGap(a.base, a.align);
    AlignedGap(a.size, a.align);
    assert PtrsLen(st, a.nbr) == 4096;
    PtrsTotalExact(st, a.nbr);
    EvenBlks(a.base, a.nbr, a.size, a.align);
    CalcTotSizeFits(true, a.base, a.nbr, a.size, a.align);
    assert SegFor(st, a) == Seg(0x1_0000, 0) && StartFor(st, a) == a.base;
  }

  /** Without argument checks the sum of pointer array and blocks may wrap as well: a heap of
      4096 octets passes for 4096 blocks of 0xFFFFD octets, and the pointer array is refused. */
  lemma UnnoticedSumRefusedLate(st: State, a: Args)
    requires st == State(false, 4096, map[4096 := Seg(4096, 0)], [], [])
    requires a == Args(0, 0, 0x1000, 0xF_FFFD, 1)
    ensures WellFormed(st) && CreateArgsOk(st, a) && PlanFor(st, a).Proceed? && PtrsRefused(st, a)
    ensures Create(st, a).err != ErrNone && Create(st, a).st == st
  {
    InitWellFormed(false, st.heap, 4096);
    hide WellFormed, Gap, SegCalcTotSize, TrueTotal, PtrsTotal, SegAlloc, AllocBlks, Create;
    AlignedGap(st.heap, PTR);
    assert PtrsLen(st, a.nbr) == 0x4000;
    PtrsTotalExact(st, a.nbr);
    GapOne(StartFor(st, a));
    GapOne(a.size);
    EvenBlks(StartFor(st, a), a.nbr, a.size, a.align);
    CalcTotSizeFits(false, StartFor(st, a), a.nbr, a.size, a.align);
    assert PlanFor(st, a) == Proceed(4096, SegFor(st, a), 0x5000, 0xFFFF_D000, 4096);
    hide PlanFor, CreateArgsOk;
    CreateSucceedsUnlessLate(st, a);
    FailureChangesNothing(st, a);
  }

  /** Blocks without gaps. */
  lemma EvenBlks(addr: u32, nbr: u32, size: u32, align: u32)
    requires align > 0 && nbr > 0 && Gap(addr, align) == 0 && Gap(size, align) == 0
    ensures TrueTotal(addr, nbr, size, align) == nbr * size
  {
    hide Gap, Times;
    TimesIsProduct(size, nbr - 1);
    assert size * (nbr - 1) + size == size * nbr;
  }

  /** Refused late, a request in dedicated memory has its pointer array taken already. */
  lemma LateKeepsPtrs(st: State, a: Args)
    requires SegsHeap(st) && CreateArgsOk(st, a) && PlanFor(st, a).Proceed? && !PtrsRefused(st, a)
    requires a.base != 0 && Create(st, a).err != ErrNone
    ensures SizesGiven(a) && st.heap in Create(st, a).st.segs
    ensures Create(st, a).st.segs[st.heap].used == st.segs[st.heap].used + PtrsLen(st, a.nbr)
  {
    hide Gap, SegCalcTotSize, SegAlloc, AllocBlks, PlanFor, CreateArgsOk, PtrsTotal, PtrsLen, PtrsRefused,
      MeetsSome, SegFor;
    PlanProceeds(st, a);
    PtrsGranted(st, a);
    assert (PTR * a.nbr) % W == PTR * a.nbr;
  }

  /** One block of a whole number of strides at an aligned address. */
  lemma OneBlkTotal(addr: u32, size: u32, align: u32)
    requires align > 0 && size > 0 && addr % align == 0 && size % align == 0
    ensures Gap(addr, align) == 0 && Gap(size, align) == 0
    ensures SegCalcTotSize(true, addr, 1, size, align) == size == TrueTotal(addr, 1, size, align)
  {
    AlignedGap(addr, align);
    AlignedGap(size, align);
    hide Gap;
    HeapTotal(true, addr, size, align);
  }

  lemma AlignedGap(x: nat, n: nat)
    requires n > 0 && x % n == 0
    ensures Gap(x, n) == 0
  {
    ModIsRemainder(x, n);
  }

  // ---------------------------------------------------------------- the pointer array

  /** What the size checks decide, whatever the size of the pointer array. */
  function SizedPlan(st: State, a: Args): Plan
    requires SegsHeap(st) && SizesGiven(a)
  {
    if a.base == 0 then PlanInHeap(st, a) else PlanDedicated(st, a)
  }

  /** The request passes all the checks: its memory is the heap, a listed segment, or meets
      none, and the sizes are let through. */
  ghost predicate Passes(st: State, a: Args) {
    && SegsHeap(st) && SizesGiven(a)
    && (a.base != 0 ==> a.base + a.memSize <= W && (Identical(st.segs, a) || !MeetsSome(st.segs, a)))
    && SizedPlan(st, a).Proceed?
  }

  lemma PassesPlan(st: State, a: Args)
    requires Passes(st, a)
    ensures
      var p := SizedPlan(st, a);
      SegOk(p.seg, p.s) && (p.seg in st.segs ==> p.s == st.segs[p.seg])
    ensures st.chk ==> PtrsTotal(st, a.nbr) > 0
  {
    hide SegCalcTotSize, PtrsTotal, StartFor;
    if a.base in st.segs {
      assert Meets(a.base, a.memSize, a.base, st.segs[a.base]);
    }
  }

  /** The rest of the call, without a condition on the size of the pointer array. */
  function Proceeded(st: State, a: Args): CreateResult
    requires Passes(st, a)
  {
    PassesPlan(st, a);
    Commit(st, a, SizedPlan(st, a))
  }

  /** For the requests that a caller may make, that is the call. */
  lemma ProceededIsCreate(st: State, a: Args)
    requires SegsHeap(st) && CreateArgsOk(st, a)
    ensures Passes(st, a) <==> PlanFor(st, a).Proceed?
    ensures Passes(st, a) ==> Create(st, a) == Proceeded(st, a)
  {
    hide PlanInHeap, PlanDedicated, PtrsSizeOk, StartFor, Gap, Identical, MeetsSome;
  }

  /** The request is granted. */
  ghost predicate Granted(st: State, a: Args) {
    Passes(st, a) && Proceeded(st, a).err == ErrNone
  }

  /** The octets that the allocation of the pointer array takes from the heap, gap included. */
  function PtrsTaken(st: State, nbr: u32): nat
    requires SegsHeap(st)
  {
    SegAlloc(st.chk, st.heap, st.segs[st.heap], (PTR * nbr) % W, PTR).0.used - st.segs[st.heap].used
  }

  /** The pointer array of a granted pool has more entries than fit in the octets taken for
      it. */
  ghost predicate PtrArrayTooSmall(st: State, a: Args)
    requires Granted(st, a)
  {
    var pools := Proceeded(st, a).st.pools;
    |pools| == |st.pools| + 1 && PtrsTaken(st, a.nbr) < PTR * |pools[|st.pools|].ptrs|
  }

  /** Exactly when a granted pool, in the heap or in dedicated memory that is listed or new,
      has too small a pointer array: then it also runs out of what the heap has handed out,
      and exactly these requests are the ones that `PtrsSizeOk` asks the caller not to make. */
  lemma PtrArrayExact(st: State, a: Args)
    requires Granted(st, a)
    ensures PtrArrayTooSmall(st, a) <==> PTR * a.nbr >= W
    ensures PTR * a.nbr >= W <==> PtrsLen(st, a.nbr) >= W
    ensures PTR * a.nbr >= W <==> !PtrsSizeOk(st, a.nbr)
    ensures
      var st', k := Proceeded(st, a).st, |st.pools|;
      && |st'.pools| == k + 1 && |st'.pools[k].ptrs| == a.nbr
      && (PTR * a.nbr >= W <==> !Placed(st'.segs, RegionOf(st', PtrArray(k))))
  {
    hide Gap, SegCalcTotSize, SegAlloc, AllocBlks, PlanInHeap, PlanDedicated, PtrsTotal, OverflowSeen, Identical,
      MeetsSome;
    PassesPlan(st, a);
    PtrsLenFits(st, a.nbr);
    GrantedPool(st, a, SizedPlan(st, a));
    hide SizedPlan, Proceeded, Commit, CommitBlks;
    var heap := st.segs[st.heap];
    if PTR * a.nbr < W {
      SegAllocOutcome(st.chk, st.heap, heap, PTR * a.nbr, PTR);
    }
  }

  lemma PtrsLenFits(st: State, nbr: u32)
    requires SegsHeap(st) && nbr > 0
    ensures PTR * nbr < W <==> PtrsLen(st, nbr) < W
    ensures PTR * nbr >= W && PtrsSizeOk(st, nbr) ==> st.chk && PtrsTotal(st, nbr) == 0
  {
    hide Gap, PtrsTotal, OverflowSeen;
    if PtrsSizeOk(st, nbr) {
      PtrsTotalIs(st, nbr);
    }
  }

  /** What a granted request adds. */
  lemma GrantedPool(st: State, a: Args, p: Plan)
    requires SegsHeap(st) && SizesGiven(a) && p.Proceed? && SegOk(p.seg, p.s)
    requires p.seg in st.segs ==> p.s == st.segs[p.seg]
    requires Commit(st, a, p).err == ErrNone
    ensures
      var st' := Commit(st, a, p).st;
      var (heap1, ptrs) := SegAlloc(st.chk, st.heap, st.segs[st.heap], (PTR * a.nbr) % W, PTR);
      && |st'.pools| == |st.pools| + 1 && ptrs != 0
      && var q := st'.pools[|st.pools|];
      && |q.ptrs| == q.nbr == a.nbr && q.ptrsAddr == ptrs
      && st'.heap == st.heap && st.heap in st'.segs && heap1.used <= st'.segs[st.heap].used <= st.segs[st.heap].size
  {
    hide SegAlloc, AllocBlks, SegCalcTotSize;
  }

  /** Why the size of the pointer array is the caller's duty: on a heap of 4096 octets,
      2^30 + 2 blocks of one octet in dedicated memory are granted with a pointer array of 8
      octets, because the wrap of its total goes unnoticed. */
  lemma PtrArrayWraps(st: State, a: Args)
    requires st == State(true, 4096, map[4096 := Seg(4096, 0)], [], [])
    requires a == Args(0x2000_0000, 0x4000_0002, 0x4000_0002, 1, 1)
    ensures WellFormed(st) && Granted(st, a) && PtrsTaken(st, a.nbr) == 8
    ensures PtrArrayTooSmall(st, a) && !PtrsSizeOk(st, a.nbr)
  {
    hide WellFormed, Gap, Times, SegAlloc, AllocBlks, TrueTotal, SegCalcTotSize, PlanDedicated, OverflowSeen, Commit;
    InitWellFormed(true, st.heap, 4096);
    SmallPtrsTotal(st.heap, a.nbr, PTR);
    SmallPtrsPlan(st, a, Seg(a.memSize, 0));
    SmallPtrsTaken(st, a.nbr);
    AllBlksTaken(a, Seg(a.memSize, 0));
    TwoStepCommit(st, a, PlanDedicated(st, a), Seg(4096, 8), st.heap);
    PtrArrayExact(st, a);
  }

  lemma SmallPtrsTaken(st: State, nbr: u32)
    requires st == State(true, 4096, map[4096 := Seg(4096, 0)], [], []) && nbr == 0x4000_0002
    ensures SegAlloc(true, st.heap, st.segs[st.heap], (PTR * nbr) % W, PTR) == (Seg(4096, 8), st.heap)
  {
    hide Gap, SegAlloc;
    AlignedGap(st.heap, PTR);
    SegAllocOutcome(true, st.heap, st.segs[st.heap], (PTR * nbr) % W, PTR);
  }

  /** Memory that is exactly as big as the blocks, below the top of the address space. */
  lemma AllBlksTaken(a: Args, s: Seg)
    requires s == Seg(a.memSize, 0) && a.memSize == a.nbr > 0 && a.size == 1 && a.align == 1
    requires 0 < a.base && a.base + a.memSize < W
    ensures |AllocBlks(true, a.base, s, a.nbr, a.size, a.align).1| == a.nbr
  {
    hide Gap, Times, TrueTotal, AllocBlks, LaidOut;
    assert NextAvail(a.base, s) == a.base;
    hide NextAvail;
    OneOctetBlks(a.base, a.nbr, a.size, a.align);
    AllocBlksLayout(true, a.base, s, a.nbr, a.size, a.align);
    assert Grants(true, a.base, s, a.nbr);
    GotAll(a.base, s, a.base, a.nbr, a.size, a.align);
  }

  lemma GotAll(base: nat, s: Seg, next: nat, n: nat, size: u32, align: u32)
    requires SegOk(base, s) && align > 0 && n > 0 && next == NextAvail(base, s) && Laid(true, base, s, n, size, align)
    requires Grants(true, base, s, TrueTotal(next, n, size, align))
    ensures |AllocBlks(true, base, s, n, size, align).1| == n
  {
    hide TrueTotal, AllocBlks, NextAvail, Grants, BlkAddr;
  }

  lemma SmallPtrsPlan(st: State, a: Args, s: Seg)
    requires st == State(true, 4096, map[4096 := Seg(4096, 0)], [], []) && s == Seg(a.memSize, 0)
    requires a == Args(0x2000_0000, 0x4000_0002, 0x4000_0002, 1, 1)
    ensures PlanDedicated(st, a) == Proceed(a.base, s, a.base, a.nbr, 0)
  {
    hide SegCalcTotSize, OverflowSeen, Gap, TrueTotal, Times, MeetsSome;
    SmallPtrsTotal(st.heap, a.nbr, PTR);
    assert PtrsTotal(st, a.nbr) == 8 && StartFor(st, a) == a.base;
    OneOctetBlks(a.base, a.nbr, a.size, a.align);
  }

  /** Pointer array from the heap, then all blocks from another segment. */
  lemma TwoStepCommit(st: State, a: Args, p: Plan, heap1: Seg, ptrs: u32)
    requires SegsHeap(st) && SizesGiven(a) && p.Proceed? && SegOk(p.seg, p.s) && p.seg !in st.segs
    requires SegAlloc(st.chk, st.heap, st.segs[st.heap], (PTR * a.nbr) % W, PTR) == (heap1, ptrs) && ptrs != 0
    requires |AllocBlks(st.chk, p.seg, p.s, a.nbr, a.size, a.align).1| == a.nbr
    ensures
      var r := Commit(st, a, p);
      && r.err == ErrNone && |r.st.pools| == |st.pools| + 1 && st.heap in r.st.segs && r.st.segs[st.heap] == heap1
      && |r.st.pools[|st.pools|].ptrs| == a.nbr
  {
    hide SegAlloc, AllocBlks, SegCalcTotSize;
  }

  lemma SmallPtrsTotal(addr: u32, nbr: u32, n: u32)
    requires addr == 4096 && nbr == 0x4000_0002 && n == PTR
    ensures Gap(addr, n) == 0 && SegCalcTotSize(true, addr, nbr, n, n) == 8 && !OverflowSeen(addr, nbr, n, n)
  {
    hide Gap, Times, OverflowSeen, SegCalcTotSize;
    AlignedGap(addr, n);
    AlignedGap(n, n);
    SmallProduct(n, nbr - 1);
    SmallParts(addr, nbr, n);
  }

  lemma SmallParts(addr: u32, nbr: u32, n: u32)
    requires n == 4 && nbr > 1 && Gap(addr, n) == 0 && Gap(n, n) == 0 && Times(n, nbr - 1) == W + 4
    ensures SegCalcTotSize(true, addr, nbr, n, n) == 8 && !OverflowSeen(addr, nbr, n, n)
  {
    hide Gap, Times;
  }

  lemma SmallProduct(size: nat, k: nat)
    requires size == 4 && k == 0x4000_0001
    ensures Times(size, k) == 0x1_0000_0004
  {
    hide Times;
    TimesIsProduct(size, k);
  }

  /** Blocks of one octet need as many octets as there are blocks. */
  lemma OneOctetBlks(addr: u32, nbr: u32, size: u32, align: u32)
    requires nbr > 0 && size == 1 && align == 1
    ensures Gap(addr, align) == 0 && TrueTotal(addr, nbr, size, align) == nbr
    ensures SegCalcTotSize(true, addr, nbr, size, align) == nbr
  {
    GapOne(addr);
    GapOne(size);
    TimesIsProduct(size, nbr - 1);
    hide Gap, Times;
    CalcTotSizeFits(true, addr, nbr, size, align);
  }

  // ---------------------------------------------------------------- the heap's own pair

  /** A request that names the heap itself as dedicated memory, is not caught by the
      size checks, and is granted; its sizes fit. */
  ghost predicate HeapPairGranted(st: State, a: Args) {
    && SegsHeap(st) && SizesGiven(a) && a.base == st.heap && a.memSize == st.segs[st.heap].size
    && PlanDedicated(st, a).Proceed? && Commit(st, a, PlanDedicated(st, a)).err == ErrNone
    && PtrsLen(st, a.nbr) < W
    && TrueTotal(StartFor(st, a), a.nbr, a.size, a.align) < W
    && (st.chk || Gap((StartFor(st, a) + PtrsLen(st, a.nbr)) % W, a.align) + a.size < W)
  }

  lemma HeapPairPlan(st: State, a: Args)
    requires HeapPairGranted(st, a)
    ensures
      var p := PlanDedicated(st, a);
      && p.s == st.segs[st.heap] && p.seg == st.heap && p.start == StartFor(st, a)
      && p.totPool == TrueTotal(p.start, a.nbr, a.size, a.align) && p.start > 0 && p.start + p.totPool <= W
  {
    hide Gap, SegCalcTotSize, Commit, Times, Stride;
    CalcTotSizeFits(st.chk, StartFor(st, a), a.nbr, a.size, a.align);
  }

  lemma HeapPairStart(st: State, a: Args)
    requires HeapPairGranted(st, a)
    ensures StartFor(st, a) == NextAvail(st.heap, st.segs[st.heap])
  {
    hide Gap, SegCalcTotSize, Commit, TrueTotal, PlanDedicated;
  }

  /** The start of such a pool is read before the pointer array is taken from the same
      segment; the blocks lie behind the pointer array. */
  lemma HeapPairBlks(st: State, a: Args)
    requires HeapPairGranted(st, a)
    ensures
      var st' := Commit(st, a, PlanDedicated(st, a)).st;
      && |st'.pools| == |st.pools| + 1
      && var p := st'.pools[|st.pools|];
      && p == Pool(st.heap, p.ptrsAddr, StartFor(st, a), PlanDedicated(st, a).totPool,
                   a.nbr, a.size, a.align, p.ptrs, a.nbr)
      && LaidOut(p.ptrs, StartFor(st, a) + PtrsLen(st, a.nbr), a.nbr, a.size, a.align)
  {
    hide Gap, SegCalcTotSize, SegAlloc, AllocBlks, TrueTotal, PlanDedicated, LaidOut, StartFor;
    HeapPairPlan(st, a);
    assert StartFor(st, a) == st.heap + st.segs[st.heap].used by {
      HeapPairStart(st, a);
    }
    var heap := st.segs[st.heap];
    SegAllocOutcome(st.chk, st.heap, heap, PTR * a.nbr, PTR);
    var heap1 := SegAlloc(st.chk, st.heap, heap, PTR * a.nbr, PTR).0;
    AllocBlksLayout(st.chk, st.heap, heap1, a.nbr, a.size, a.align);
  }

  /** Such a pool is sound exactly if the pointer array fits into the alignment gap in
      front of the first block. */
  lemma HeapPairPool(st: State, a: Args)
    requires HeapPairGranted(st, a)
    ensures
      var st' := Commit(st, a, PlanDedicated(st, a)).st;
      && |st'.pools| == |st.pools| + 1
      && (PoolOk(st'.pools[|st.pools|]) <==>
            AlignUp(StartFor(st, a) + PtrsLen(st, a.nbr), a.align) == AlignUp(StartFor(st, a), a.align))
  {
    hide Gap, SegCalcTotSize, Commit, TrueTotal, Stride, BlkAddr;
    HeapPairPlan(st, a);
    HeapPairBlks(st, a);
    HugeStrideNeverFits(StartFor(st, a), a.nbr, a.size, a.align);
    ShiftedLayout(Commit(st, a, PlanDedicated(st, a)).st.pools[|st.pools|], StartFor(st, a) + PtrsLen(st, a.nbr));
  }

  /** A heap of 4096 octets at 4096 and a pool of one block of 4 octets in it: the block
      is at 4100, behind the pointer array, but the pool is recorded to start at 4096. */
  lemma HeapPairMisplaced(st: State, a: Args)
    requires st == State(true, 4096, map[4096 := Seg(4096, 0)], [], []) && a == Args(4096, 4096, 1, 4, 4)
    ensures WellFormed(st) && HeapPairGranted(st, a)
    ensures
      var p := Commit(st, a, PlanDedicated(st, a)).st.pools[0];
      p.start == 4096 && p.ptrs == [4100] && !PoolOk(p)
  {
    InitWellFormed(true, 4096, 4096);
    hide Gap, SegCalcTotSize, TrueTotal, SegAlloc, WellFormed, AllocBlks, Commit, HeapPairGranted;
    HeapPairCommitted(st, a);
    HeapPairPool(st, a);
  }

  /** One block at an aligned next address. */
  lemma OneBlkTaken(base: nat, s: Seg, n: nat, size: u32, align: u32)
    requires SegOk(base, s) && align > 0 && size > 0 && base + s.used + size < W && size <= Rem(s) && n == 1
    requires Gap(NextAvail(base, s), align) == 0
    ensures SegAlloc(true, base, s, size, align) == (Seg(s.size, s.used + size), base + s.used)
    ensures AllocBlks(true, base, s, n, size, align) == (Seg(s.size, s.used + size), [base + s.used])
  {
    hide Gap, SegAlloc;
    SegAllocOutcome(true, base, s, size, align);
    assert SegAlloc(true, base, s, size, align) == (Seg(s.size, s.used + size), base + s.used);
    assert AllocBlks(true, base, s, n - 1, size, align) == (s, []);
    assert AllocBlks(true, base, s, n, size, align).1 == [base + s.used];
  }

  lemma HeapPairCommitted(st: State, a: Args)
    requires st == State(true, 4096, map[4096 := Seg(4096, 0)], [], []) && a == Args(4096, 4096, 1, 4, 4)
    ensures SegsHeap(st) && HeapPairGranted(st, a) && PtrsLen(st, a.nbr) == 4 && StartFor(st, a) == 4096
    ensures Gap(4100, a.align) == 0 && Gap(4096, a.align) == 0
    ensures
      var st' := Commit(st, a, PlanDedicated(st, a)).st;
      |st'.pools| == 1 && st'.pools[0].start == 4096 && st'.pools[0].ptrs == [4100]
  {
    hide Gap, SegCalcTotSize, TrueTotal, SegAlloc, AllocBlks;
    OneBlkTotal(a.base, a.size, a.align);
    OneBlkTotal(a.base + 4, a.size, a.align);
    OneBlkTaken(a.base, st.segs[a.base], a.nbr, a.size, a.align);
    OneBlkTaken(a.base, Seg(4096, 4), a.nbr, a.size, a.align);
    var p := PlanDedicated(st, a);
    assert p == Proceed(4096, st.segs[a.base], 4096, 4, 0);
    hide PlanDedicated;
    assert Commit(st, a, p).st.pools == [Pool(4096, 4096, 4096, 4, 1, 4, 4, [4100], 1)];
  }

  /** A pool whose blocks were laid out from another start. */
  lemma ShiftedLayout(p: Pool, start: nat)
    requires GeometryOk(p) && p.ix == p.nbr && LaidOut(p.ptrs, start, p.nbr, p.size, p.align)
    ensures PoolOk(p) <==> AlignUp(start, p.align) == AlignUp(p.start, p.align)
  {
    hide Gap, TrueTotal;
    var l := Layout(p.start, p.nbr, p.size, p.align);
    if AlignUp(start, p.align) == AlignUp(p.start, p.align) {
      assert p.ptrs == l;
    }
    if PoolOk(p) {
      SamePermutedElements(p.ptrs, l);
      assert p.ptrs[0] in l && l[0] in p.ptrs;
    }
  }
}
