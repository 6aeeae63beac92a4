/** lib_mem.c as it runs: the descriptors and the pointer arrays updated in place. */
module MemLib {
  import opened Word32
  import opened Segments
  import opened Pools
  import opened Allocator
  import opened MemTable

  /** DEF_ALIGN_MAX_NBR_OCTETS. */
  const ALIGN_MAX: u32 := 4096

  /** The library's globals: the table head Mem_PoolTbl and the heap Mem_PoolHeap. */
  class MemLib {
    /** LIB_MEM_CFG_ARG_CHK_EXT_EN. */
    const chk: bool
    const heap: MemPool
    var tbl: MemPool?

    ghost var st: State
    ghost var sh: Shape

    // ---------------------------------------------------------------- invariant

    ghost predicate Linked()
      reads this, sh.nodes, sh.arrs
    {
      && Owned(sh) && sh.heap == heap && chk == st.chk
      && TableLinked(sh, tbl) && SegsMatch(sh, st.heap, st.segs)
      && ColsLinked(sh) && Homes(sh) && PoolsMatch(sh, st.pools)
    }

    ghost predicate Valid()
      reads this, sh.nodes, sh.arrs
    {
      Linked() && WellFormed(st)
    }

    lemma HeapListed()
      requires Linked()
      ensures heap in sh.segs && heap.segAddr == st.heap && st.heap in st.segs && heap.SegIs(st.segs[st.heap])
      ensures heap in sh.nodes
    {
    }

    // ---------------------------------------------------------------- what it means

    /** Every listed segment adds up: what has been handed out and what remains. */
    lemma Conserved()
      requires Valid()
      ensures forall x {:trigger x in sh.segs} :: x in sh.segs && x in sh.nodes ==>
        (x.segNextAvail - x.segAddr) % W + x.segSizeRem == x.segSizeTot
    {
      hide TableLinked, ColsLinked, Homes, PoolsMatch, WellFormed, MemPool.SegIs;
      forall x | x in sh.segs && x in sh.nodes
        ensures (x.segNextAvail - x.segAddr) % W + x.segSizeRem == x.segSizeTot
      {
        ListedSeg(x);
        SegAddsUp(x, st.segs[x.segAddr]);
      }
    }

    /** Following the table from Mem_PoolTbl meets the segments in ascending order, without
        overlap, and back again; and it meets every segment there is. */
    lemma TableSound(i: nat)
      requires Valid() && i < |sh.segs|
      ensures sh.segs[i] in sh.nodes
      ensures
        var x := sh.segs[i];
        && (i == 0 <==> x == tbl) && (x == tbl <==> x.segPrev == null)
        && (x.segNext == null <==> i == |sh.segs| - 1)
        && (x.segNext != null ==>
              && x.segNext in sh.nodes && x.segNext == sh.segs[i + 1] && x.segNext.segPrev == x
              && x.segAddr + x.segSizeTot <= x.segNext.segAddr)
      ensures forall b :: b in st.segs ==>
        exists j: nat :: j < |sh.segs| && sh.segs[j] in sh.nodes && sh.segs[j].segAddr == b
    {
      hide ColsLinked, Homes, PoolsMatch;
      SegListed(i);
      if i < |sh.segs| - 1 {
        SegListed(i + 1);
        assert sh.segs[i].segAddr < sh.segs[i + 1].segAddr;
      }
    }

    /** Following a column from its head meets the pools of that segment and back again; no
        pool is in two columns, and every created pool names its own head. */
    lemma ColumnSound(i: nat, j: nat)
      requires Valid() && i < |sh.segs| == |sh.cols| && j < |sh.cols[i]|
      ensures
        var x := sh.cols[i][j];
        && x in sh.pools && x in sh.nodes && x.segHead == sh.segs[i]
        && x.poolPrev == (if j == 0 then sh.segs[i] else sh.cols[i][j - 1])
        && x.poolPrev != null && x.poolPrev in sh.nodes && x.poolPrev.poolNext == x
        && (x.poolNext == null <==> j == |sh.cols[i]| - 1)
      ensures forall k :: 0 <= k < |sh.cols| && sh.cols[i][j] in sh.cols[k] ==> k == i
    {
      hide SegsMatch, PoolsMatch, WellFormed;
      SegsDistinct(sh, tbl);
      assert ColLinked(sh.segs[i], sh.cols[i]);
    }

    // ---------------------------------------------------------------- Mem_Init

    constructor (argChk: bool, heapAddr: u32, heapSize: u32)
      requires SegOk(heapAddr, Seg(heapSize, 0))
      ensures Valid() && chk == argChk && st == Init(argChk, heapAddr, heapSize)
      ensures sh == Shape(heap, [heap], [[]], [], [], {heap}) && fresh(heap)
    {
      hide MemPool.SegIs, TableLinked, ColsLinked, Homes, PoolsMatch, SegsMatch, Owned, WellFormed;
      chk := argChk;
      var h := new MemPool();
      h.SetUpHeap(heapAddr, heapSize);
      heap := h;
      tbl := h;
      st := Init(argChk, heapAddr, heapSize);
      sh := Shape(h, [h], [[]], [], [], {h});
      new;
      InitWellFormed(argChk, heapAddr, heapSize);
      HeapAlone(sh, heap);
      assert Linked();
    }

    // ---------------------------------------------------------------- Mem_HeapAlloc

    /** Mem_SegAlloc on a listed segment, or on one that is not in the table yet. */
    method TakeFromSeg(seg: MemPool, size: u32, align: u32, ghost s: Seg) returns (addr: u32)
      requires Linked() && align > 0 && seg.SegIs(s)
      requires if seg in sh.segs then seg.segAddr in st.segs && s == st.segs[seg.segAddr] else seg !in sh.nodes
      modifies this`st, seg`segNextAvail, seg`segSizeRem
      ensures Linked() && SegOk(seg.segAddr, s)
      ensures addr == SegAlloc(chk, seg.segAddr, s, size, align).1
      ensures seg.SegIs(SegAlloc(chk, seg.segAddr, s, size, align).0)
      ensures st == if seg in sh.segs
                    then WithSeg(old(st), seg.segAddr, SegAlloc(chk, seg.segAddr, s, size, align).0) else old(st)
    {
      hide SegAlloc, SegOk, NextAvail, WellFormed, TableLinked, ColsLinked, Homes, PoolsMatch, Owned, MemPool.SegIs,
        SegsListed;
      BasesDiffer(sh, tbl, seg);
      addr := seg.MemSegAlloc(chk, size, align, s);
      if seg in sh.segs {
        ghost var segs := st.segs;
        st := WithSeg(st, seg.segAddr, SegAlloc(chk, seg.segAddr, s, size, align).0);
        assert st.segs.Keys == segs.Keys;
      }
      assert SegsFilled(sh, st.segs);
    }

    /** Records a new shape of the table and a new state that the fields represent. */
    ghost method Record(h: Shape, s: State)
      requires Owned(h) && h.heap == heap && chk == s.chk
      requires TableLinked(h, tbl) && SegsMatch(h, s.heap, s.segs)
      requires ColsLinked(h) && Homes(h) && PoolsMatch(h, s.pools)
      modifies this`st, this`sh
      ensures Linked() && sh == h && st == s
    {
      hide TableLinked, ColsLinked, Homes, PoolsMatch, SegsMatch, Owned;
      sh := h;
      st := s;
    }

    ghost method RecordBlk(b: HeapBlock)
      requires Linked()
      modifies this`st
      ensures Linked() && st == old(st).(blks := old(st).blks + [b])
    {
      hide TableLinked, ColsLinked, Homes, PoolsMatch, SegsMatch, Owned;
      st := st.(blks := st.blks + [b]);
    }

    method MemHeapAlloc(size: u32, align: u32) returns (blk: u32, reqd: u32, err: LibErr)
      requires Valid() && HeapArgsOk(st, size, align)
      modifies this`st, heap`segNextAvail, heap`segSizeRem
      ensures Valid()
      ensures HeapResult(st, blk, reqd, err) == HeapAlloc(old(st), size, align)
    {
      hide SegAlloc, SegCalcTotSize, Gap, WellFormed, TableLinked, ColsLinked, Homes, PoolsMatch, SegsMatch, Owned,
        SegOk, NextAvail;
      HeapListed();
      reqd := 0;
      blk := 0;
      if chk && size < 1 {
        err := InvalidMemSize;
        return;
      }
      if chk && align < 1 {
        err := InvalidMemAlign;
        return;
      }
      var memAddr := heap.segNextAvail;
      var sizeRem := heap.segSizeRem;
      var sizeReq := SegCalcTotSize(chk, memAddr, 1, size, align);
      if chk && sizeReq < 1 {
        reqd := size;
        err := HeapOvf;
        return;
      }
      if sizeReq > sizeRem {
        reqd := sizeReq - sizeRem;
        err := HeapEmpty;
        return;
      }
      blk := TakeFromSeg(heap, size, align, st.segs[st.heap]);
      HeapAllocWellFormed(old(st), size, align);
      if blk == 0 {
        reqd := sizeReq;
        err := HeapEmpty;
        return;
      }
      RecordBlk(HeapBlock(blk, size, align));
      err := ErrNone;
    }

    // ---------------------------------------------------------------- Mem_SegGetSizeRem

    /** `p` is the heap, a created pool, or, with argument checks, any other descriptor. */
    method MemSegGetSizeRem(p: MemPool?, align: u32) returns (size: u32, err: LibErr)
      requires Valid() && (chk || align > 0)
      requires p == heap || p in sh.pools || (chk && (p == null || p.kind == TypeNone))
      ensures chk && (align < 1 || align > ALIGN_MAX) ==> err == InvalidMemAlign && size == 0
      ensures !(chk && (align < 1 || align > ALIGN_MAX)) && p != heap && p !in sh.pools ==>
                err == (if p == null then NullPtr else InvalidPool) && size == 0
      ensures !(chk && (align < 1 || align > ALIGN_MAX)) && (p == heap || p in sh.pools) ==>
                && err == ErrNone && p.segHead != null && p.segHead in sh.segs && p.segHead.segAddr in st.segs
                && size == SizeRem(p.segHead.segAddr, st.segs[p.segHead.segAddr], align)
    {
      hide Owned, TableLinked, SegsMatch, ColsLinked, Homes, PoolsMatch, WellFormed, Gap, NextAvail;
      if chk {
        if align < 1 || align > ALIGN_MAX {
          return 0, InvalidMemAlign;
        }
        if p == null {
          return 0, NullPtr;
        }
      }
      HeadListed(p);
      if chk && p.kind == TypeNone {
        return 0, InvalidPool;
      }
      var seg := p.segHead;
      var segSize := if seg.segAddr != 0 then seg else heap;
      size := segSize.segSizeRem;
      var addr := segSize.segNextAvail;
      if align > 1 {
        size := (size - Gap(addr, align)) % W;
      }
      err := ErrNone;
    }

    lemma HeadListed(p: MemPool)
      requires Linked()
      ensures heap in sh.nodes
      ensures p == heap || p in sh.pools ==>
        && p.kind != TypeNone
        && p.segHead != null && p.segHead in sh.segs && p.segHead in sh.nodes
        && p.segHead.segAddr > 0 && p.segHead.segAddr in st.segs && p.segHead.SegIs(st.segs[p.segHead.segAddr])
    {
      if p in sh.pools {
        var k :| 0 <= k < |sh.pools| && sh.pools[k] == p;
        assert PoolMatches(sh.pools[k], sh.arrs[k], sh.segs, sh.nodes, st.pools[k]);
      }
    }

    // ---------------------------------------------------------------- Mem_PoolCreate

    method MemPoolClr(p: MemPool?) returns (err: LibErr)
      modifies if p == null then {} else {p}
      ensures p == null ==> err == NullPtr
      ensures p != null ==> err == ErrNone && p.IsClear()
    {
      if p == null {
        return NullPtr;
      }
      p.Clear();
      err := ErrNone;
    }

    lemma SegListed(i: nat)
      requires Valid() && i < |sh.segs|
      ensures
        var b := sh.segs[i].segAddr;
        && sh.segs[i] in sh.nodes && b in st.segs && SegOk(b, st.segs[b]) && st.segs[b].size == sh.segs[i].segSizeTot
        && sh.segs[i].segNext == (if i == |sh.segs| - 1 then null else sh.segs[i + 1])
    {
      hide ColsLinked, Homes, PoolsMatch;
    }

    /** The search of the table for dedicated memory: the listed segment with the same
        base and size, or the place of a new one, or an overlap. */
    method SearchSegs(a: Args) returns (seg: MemPool?, prev: MemPool?, next: MemPool?, overlap: bool, ghost i: nat)
      requires Valid() && a.base > 0 && a.memSize > 0 && a.base + a.memSize <= W
      ensures overlap <==> !Identical(st.segs, a) && MeetsSome(st.segs, a)
      ensures !overlap ==> (seg != null <==> Identical(st.segs, a))
      ensures seg != null ==> seg in sh.segs && seg.segAddr == a.base
      ensures !overlap && seg == null ==> PlaceFor(a.base, prev, next, i)
    {
      hide ColsLinked, Homes, PoolsMatch, TableLinked, SegsMatch, Owned, WellFormed;
      var end := a.base + a.memSize - 1;
      seg := null;
      prev := null;
      TableStarts();
      next := tbl;
      overlap := false;
      i := 0;
      while next != null
        invariant i <= |sh.segs|
        invariant next == if i == |sh.segs| then null else sh.segs[i]
        invariant prev == if i == 0 then null else sh.segs[i - 1]
        invariant Passed(i, a.base)
        decreases |sh.segs| - i
      {
        SegListed(i);
        if a.base == next.segAddr && a.memSize == next.segSizeTot {
          seg := next;
          break;
        }
        var segStart := next.segAddr;
        var segEnd := next.segAddr + next.segSizeTot - 1;
        if end < segStart {
          break;
        } else if (a.base <= segStart && end >= segStart)
               || (a.base >= segStart && end <= segEnd)
               || (a.base <= segEnd && end >= segEnd) {
          MeetsIsOverlap(a, segStart);
          overlap := true;
          return;
        }
        prev := next;
        next := next.segNext;
        i := i + 1;
      }
      if seg == null {
        NoneMet(a, i);
      }
    }

    lemma TableStarts()
      requires Linked()
      ensures |sh.segs| > 0 && tbl == sh.segs[0]
    {
    }

    /** The segment ends before `base`. */
    ghost predicate Before(x: MemPool, base: nat)
      reads x`segAddr, x`segSizeTot
    {
      x.segAddr < base && x.segAddr + x.segSizeTot <= base
    }

    /** Meeting a segment that is not the requested one is an overlap, as segments are
        disjoint. */
    lemma MeetsIsOverlap(a: Args, b: nat)
      requires Valid() && b in st.segs && Meets(a.base, a.memSize, b, st.segs[b])
      requires !(b == a.base && st.segs[b].size == a.memSize)
      ensures !Identical(st.segs, a) && MeetsSome(st.segs, a)
    {
      hide Linked;
    }

    /** Where a segment at `base` is to be linked, with its neighbours. */
    ghost predicate PlaceFor(base: nat, prev: MemPool?, next: MemPool?, i: nat)
      reads this, sh.segs`segAddr
    {
      && i <= |sh.segs|
      && prev == (if i == 0 then null else sh.segs[i - 1])
      && next == (if i == |sh.segs| then null else sh.segs[i])
      && SplitAt(sh.segs, base, i)
    }

    /** The first `i` segments end before `base`. */
    ghost predicate Passed(i: nat, base: nat)
      reads this, sh.segs`segAddr, sh.segs`segSizeTot
    {
      i <= |sh.segs| && forall j :: 0 <= j < i ==> Before(sh.segs[j], base)
    }

    lemma BaseListed(b: nat) returns (j: nat)
      requires Linked() && b in st.segs
      ensures j < |sh.segs| && sh.segs[j].segAddr == b && sh.segs[j].segSizeTot == st.segs[b].size
    {
      hide ColsLinked, Homes, PoolsMatch, TableLinked;
      j :| 0 <= j < |sh.segs| && sh.segs[j].segAddr == b;
      assert sh.segs[j].SegIs(st.segs[b]);
    }

    lemma Ascending(i: nat, j: nat)
      requires Linked() && i <= j < |sh.segs|
      ensures sh.segs[i].segAddr <= sh.segs[j].segAddr
    {
    }

    lemma NoneMet(a: Args, i: nat)
      requires Valid() && a.memSize > 0 && Passed(i, a.base)
      requires i < |sh.segs| ==> a.base + a.memSize <= sh.segs[i].segAddr
      ensures !MeetsSome(st.segs, a) && a.base !in st.segs
      ensures SplitAt(sh.segs, a.base, i)
    {
      hide Linked;
      forall j | i <= j < |sh.segs| ensures a.base + a.memSize <= sh.segs[j].segAddr {
        Ascending(i, j);
      }
      forall b | b in st.segs ensures !Meets(a.base, a.memSize, b, st.segs[b]) && b != a.base {
        var j := BaseListed(b);
        assert j < i ==> Before(sh.segs[j], a.base);
      }
    }

    /** The checks of Mem_PoolCreate for a pool in the heap. */
    method PlanHeapPool(a: Args) returns (start: u32, totPool: u32, tot: u32, reqd: u32, err: LibErr)
      requires Valid() && SizesGiven(a) && a.base == 0
      ensures PlanInHeap(st, a) ==
        if err == ErrNone then Proceed(st.heap, st.segs[st.heap], start, totPool, tot) else Reject(reqd, err)
    {
      hide TableLinked, SegsMatch, ColsLinked, Homes, PoolsMatch, WellFormed, Owned, SegCalcTotSize, NextAvail;
      HeapListed();
      start, totPool, tot, reqd := 0, 0, 0, 0;
      var addrPtrs := heap.segNextAvail;
      var totPtrs := SegCalcTotSize(chk, addrPtrs, a.nbr, PTR, PTR);
      if chk && totPtrs < 1 {
        return 0, 0, 0, 0, HeapOvf;
      }
      start := (addrPtrs + totPtrs) % W;
      totPool := SegCalcTotSize(chk, start, a.nbr, a.size, a.align);
      if chk && totPool < 1 {
        return 0, 0, 0, 0, HeapOvf;
      }
      tot := (totPtrs + totPool) % W;
      if chk && (tot < totPtrs || tot < totPool) {
        return 0, 0, 0, 0, HeapOvf;
      }
      var sizeRem := heap.segSizeRem;
      if tot > sizeRem {
        return 0, 0, 0, tot - sizeRem, HeapEmpty;
      }
      err := ErrNone;
    }

    /** The segment a dedicated pool uses, with where to link it if it is new. */
    ghost predicate SegFound(p: MemPool, a: Args, seg: MemPool?, prev: MemPool?, next: MemPool?, i: nat)
      reads this, sh.nodes, sh.segs`segAddr, p, seg
      requires st.heap in st.segs
    {
      && seg != null && seg.segAddr == a.base && seg.SegIs(SegFor(st, a))
      && (Identical(st.segs, a) ==> seg in sh.segs && p.segAddr == 0)
      && (!Identical(st.segs, a) ==> seg == p && PlaceFor(a.base, prev, next, i))
    }

    lemma ListedSeg(seg: MemPool)
      requires Linked() && seg in sh.segs
      ensures seg in sh.nodes && seg.segAddr in st.segs && seg.SegIs(st.segs[seg.segAddr]) && Owned(sh)
    {
    }

    /** The search and the checks of Mem_PoolCreate for dedicated memory. A new segment is
        set up in the pool's own descriptor. */
    method PlanDedicatedPool(p: MemPool, a: Args)
      returns (seg: MemPool?, prev: MemPool?, next: MemPool?, start: u32, totPool: u32, reqd: u32, err: LibErr,
               ghost i: nat)
      requires Valid() && SizesGiven(a) && a.base != 0 && p !in sh.nodes && p.segAddr == 0
      requires a.base + a.memSize <= W
      modifies p`segAddr, p`segNextAvail, p`segSizeTot, p`segSizeRem
      ensures
        (if !Identical(st.segs, a) && MeetsSome(st.segs, a) then Reject(0, InvalidSegOverlap)
         else PlanDedicated(st, a)) ==
        if err == ErrNone then Proceed(a.base, SegFor(st, a), start, totPool, 0) else Reject(reqd, err)
      ensures err == ErrNone ==> SegFound(p, a, seg, prev, next, i)
    {
      hide TableLinked, SegsMatch, ColsLinked, Homes, PoolsMatch, WellFormed, Owned, SegCalcTotSize, NextAvail;
      HeapListed();
      SegsOwned(sh);
      start, totPool, reqd := 0, 0, 0;
      var overlap;
      seg, prev, next, overlap, i := SearchSegs(a);
      if overlap {
        err := InvalidSegOverlap;
        return;
      }
      if seg == null {
        seg := p;
        p.StartSegment(a.base, a.memSize);
      } else {
        ListedSeg(seg);
      }
      var addrPtrs := heap.segNextAvail;
      var totPtrs := SegCalcTotSize(chk, addrPtrs, a.nbr, PTR, PTR);
      if chk && totPtrs < 1 {
        err := HeapOvf;
        return;
      }
      var sizeRem := heap.segSizeRem;
      if totPtrs > sizeRem {
        reqd := totPtrs - sizeRem;
        err := HeapEmpty;
        return;
      }
      start := seg.segNextAvail;
      totPool := SegCalcTotSize(chk, start, a.nbr, a.size, a.align);
      if chk && totPool < 1 {
        err := SegOvf;
        return;
      }
      sizeRem := seg.segSizeRem;
      if totPool > sizeRem {
        reqd := totPool - sizeRem;
        err := SegEmpty;
        return;
      }
      err := ErrNone;
    }

    /** The block loop of Mem_PoolCreate: fills the pointer array until a refusal. */
    method TakeBlks(seg: MemPool, a: Args, arr: array<u32>, ghost s: Seg) returns (n: nat)
      requires Linked() && SizesGiven(a) && seg.SegIs(s) && arr.Length == a.nbr && arr !in sh.arrs
      requires if seg in sh.segs then seg.segAddr in st.segs && s == st.segs[seg.segAddr] else seg !in sh.nodes
      modifies this`st, seg`segNextAvail, seg`segSizeRem, arr
      ensures Linked() && SegOk(seg.segAddr, s)
      ensures
        var r := AllocBlks(chk, seg.segAddr, s, a.nbr, a.size, a.align);
        && n == |r.1| && arr[..n] == r.1 && seg.SegIs(r.0)
        && st == if seg in sh.segs then WithSeg(old(st), seg.segAddr, r.0) else old(st)
    {
      hide SegAlloc, SegOk, NextAvail, WellFormed, TableLinked, SegsMatch, ColsLinked, Homes, PoolsMatch, Owned,
        MemPool.SegIs;
      ghost var base := seg.segAddr;
      ghost var cur := s;
      assert SegOk(base, s) by {
        SegIsOk(seg, s);
      }
      n := 0;
      assert seg in sh.segs ==> st.segs[base := s] == st.segs;
      while n < arr.Length
        invariant n <= arr.Length && Linked() && seg.SegIs(cur) && seg.segAddr == base
        invariant AllocBlks(chk, base, s, n, a.size, a.align) == (cur, arr[..n])
        invariant st == if seg in sh.segs then WithSeg(old(st), base, cur) else old(st)
      {
        var blk := TakeFromSeg(seg, a.size, a.align, cur);
        cur := SegAlloc(chk, base, cur, a.size, a.align).0;
        if blk == 0 {
          AllocBlksStops(chk, base, s, n + 1, a.nbr, a.size, a.align);
          return;
        }
        arr[n] := blk;
        assert arr[..n + 1] == arr[..n] + [blk];
        n := n + 1;
      }
    }

    lemma SegIsOk(seg: MemPool, s: Seg)
      requires seg.SegIs(s)
      ensures SegOk(seg.segAddr, s) && seg.segSizeRem == Rem(s) && seg.segNextAvail == NextAvail(seg.segAddr, s)
    {
    }

    /** Links a descriptor between its neighbours. */
    static method LinkBetween(p: MemPool, prev: MemPool?, next: MemPool?, ghost segs: seq<MemPool>, ghost i: nat)
      requires PrevLinked(segs) && NextLinked(segs) && p !in segs && i <= |segs|
      requires forall j, k :: 0 <= j < k < |segs| ==> segs[j] != segs[k]
      requires prev == if i == 0 then null else segs[i - 1]
      requires next == if i == |segs| then null else segs[i]
      modifies p`segPrev, p`segNext, segs`segNext, segs`segPrev
      ensures PrevLinked(InsertedSeg(segs, i, p))
      ensures NextLinked(InsertedSeg(segs, i, p))
    {
      p.segPrev := prev;
      p.segNext := next;
      if prev != null {
        prev.segNext := p;
      }
      if next != null {
        next.segPrev := p;
      }
      assert forall k {:trigger segs[k].segPrev} :: 0 <= k < |segs| ==>
        segs[k].segPrev == if k == i then p else old(segs[k].segPrev);
      assert forall k {:trigger segs[k].segNext} :: 0 <= k < |segs| ==>
        segs[k].segNext == if k == i - 1 then p else old(segs[k].segNext);
    }

    lemma SegsOwned(h: Shape)
      requires Owned(h)
      ensures |h.cols| == |h.segs| && (forall x :: x in h.segs ==> x in h.nodes)
    {
    }

    /** Links a new segment into the table. */
    method InsertSeg(p: MemPool, prev: MemPool?, next: MemPool?, ghost arr: array<u32>, ghost i: nat)
      requires Owned(sh) && TableLinked(sh, tbl) && p !in sh.nodes && arr !in sh.arrs
      requires PlaceFor(p.segAddr, prev, next, i)
      modifies this`tbl, p`segPrev, p`segNext, sh.nodes`segNext, sh.nodes`segPrev
      ensures Owned(WithNewSeg(sh, i, p, arr)) && TableLinked(WithNewSeg(sh, i, p, arr), tbl)
    {
      hide Owned, InsertedSeg, InsertedCol, PrevLinked, NextLinked, AscendingSegs, SplitAt;
      OwnedWithSeg(sh, i, p, arr);
      SegsOwned(sh);
      SegsDistinct(sh, tbl);
      LinkBetween(p, prev, next, sh.segs, i);
      if prev == null {
        tbl := p;
      }
      TableLinkedWithSeg(sh, i, p, arr, tbl);
    }

    /** Puts a pool in front of a column. */
    static method PutInColumn(p: MemPool, seg: MemPool, ghost col: seq<MemPool>)
      requires ColLinked(seg, col) && p !in col && seg !in col && p != seg
      modifies p`poolPrev, p`poolNext, seg`poolNext, col`poolPrev
      ensures ColLinked(seg, [p] + col)
    {
      var next := seg.poolNext;
      p.poolPrev := seg;
      p.poolNext := next;
      seg.poolNext := p;
      if next != null {
        next.poolPrev := p;
      }
    }

    /** Links a pool in front of the column of its segment. */
    method InsertPool(p: MemPool, seg: MemPool, ghost arr: array<u32>, ghost i: nat)
      requires Owned(sh) && ColsLinked(sh) && Homes(sh) && p !in sh.nodes && arr !in sh.arrs
      requires i < |sh.segs| && seg == sh.segs[i]
      requires forall j, k :: 0 <= j < k < |sh.segs| ==> sh.segs[j] != sh.segs[k]
      modifies p`poolPrev, p`poolNext, sh.nodes`poolNext, sh.nodes`poolPrev
      ensures Owned(WithNewPool(sh, i, p, arr)) && ColsLinked(WithNewPool(sh, i, p, arr))
    {
      hide ColLinked, Owned, Homes;
      OwnedWithPool(sh, i, p, arr);
      ColumnAt(sh, i);
      ghost var h' := WithNewPool(sh, i, p, arr);
      forall j | 0 <= j < |sh.segs| && j != i ensures Apart(sh.segs[j], sh.cols[j], p, seg, sh.cols[i]) {
        ColsApart(sh, i, j);
        ColumnAt(sh, j);
      }
      PutInColumn(p, seg, sh.cols[i]);
      forall j | 0 <= j < |h'.segs| ensures ColLinked(h'.segs[j], h'.cols[j]) {
        if j != i {
          assert Apart(sh.segs[j], sh.cols[j], p, seg, sh.cols[i]);
          assert old(ColLinked(sh.segs[j], sh.cols[j]));
          ghost var head, col := sh.segs[j], sh.cols[j];
          assert head.poolPrev == old(head.poolPrev) && head.poolNext == old(head.poolNext);
          assert forall x :: x in col ==> x.poolPrev == old(x.poolPrev) && x.poolNext == old(x.poolNext);
          assert forall k :: 0 <= k < |col| ==>
            col[k] in col && col[k].poolPrev == old(col[k].poolPrev) && col[k].poolNext == old(col[k].poolNext);
          assert ColLinked(sh.segs[j], sh.cols[j]);
          assert h'.cols[j] == sh.cols[j];
        } else {
          assert h'.cols[j] == [p] + sh.cols[j];
        }
      }
    }

    /** The change to the column of `seg` is away from another column. */
    ghost predicate Apart(head: MemPool, other: seq<MemPool>, p: MemPool, seg: MemPool, col: seq<MemPool>) {
      && head != p && head != seg && head !in col
      && forall x :: x in other ==> x != p && x != seg && x !in col
    }

    lemma ColumnAt(h: Shape, i: nat)
      requires Owned(h) && i < |h.segs|
      ensures |h.cols| == |h.segs| && h.segs[i] in h.nodes && h.segs[i] !in h.cols[i]
      ensures forall x :: x in h.cols[i] ==> x in h.nodes
    {
    }

    /** Adds a pool that is its own new segment to the table, and configures it. */
    method AddAsSegment(p: MemPool, prev: MemPool?, next: MemPool?, start: u32, total: u32, addr: u32, arr: array<u32>,
                        a: Args, ghost s: Seg, ghost i: nat)
      requires Linked() && p !in sh.nodes && arr !in sh.arrs && arr.Length == a.nbr
      requires p.SegIs(s) && p.segAddr == a.base && a.base !in st.segs && PlaceFor(a.base, prev, next, i)
      requires p.poolPrev == null && p.poolNext == null
      modifies this`tbl, this`st, this`sh, p`segPrev, p`segNext, p`kind, p`segHead, p`addrStart, p`addrEnd, p`ptrsAddr,
               p`ptrs, p`poolSize, p`blkIx, p`blkNbr, p`blkSize, p`blkAlign, sh.nodes`segNext, sh.nodes`segPrev
      ensures p.ptrs == arr
      ensures Linked() && i <= |old(sh).segs| == |old(sh).cols| && sh == WithNewSeg(old(sh), i, p, arr)
      ensures st == AddPool(old(st), a.base, s,
                            Pool(a.base, addr, start, total, a.nbr, a.size, a.align, arr[..], a.nbr))
    {
      hide TableLinked, SegsMatch, ColsLinked, Homes, PoolsMatch, Owned, MemPool.SegIs, MemPool.PoolIs, WithNewSeg,
        WellFormed;
      SegsOwned(sh);
      InsertSeg(p, prev, next, arr, i);
      assert TableLinked(WithNewSeg(sh, i, p, arr), tbl);
      p.Configure(p, start, total, addr, arr, a.size, a.align);
      assert TableLinked(WithNewSeg(sh, i, p, arr), tbl);
      ghost var v := Pool(a.base, addr, start, total, a.nbr, a.size, a.align, arr[..], a.nbr);
      SegsMatchWithSeg(sh, i, p, arr, st.heap, st.segs, s);
      ColsLinkedWithSeg(sh, i, p, arr);
      HomesWithSeg(sh, i, p, arr);
      PoolsMatchWithSeg(sh, i, p, arr, st.pools, v);
      WithNewSegHeap(sh, i, p, arr);
      Record(WithNewSeg(sh, i, p, arr), AddPool(st, a.base, s, v));
    }

    lemma WithNewSegHeap(h: Shape, i: nat, p: MemPool, arr: array<u32>)
      requires i <= |h.segs| == |h.cols|
      ensures WithNewSeg(h, i, p, arr).heap == h.heap
    {
    }

    /** Adds a pool to the column of a listed segment, and configures it. */
    method AddToSegment(p: MemPool, seg: MemPool, start: u32, total: u32, addr: u32, arr: array<u32>,
                        a: Args, ghost i: nat)
      requires Linked() && p !in sh.nodes && arr !in sh.arrs && arr.Length == a.nbr
      requires i < |sh.segs| && seg == sh.segs[i] && p.segAddr == 0
      modifies this`st, this`sh, p`poolPrev, p`poolNext, p`kind, p`segHead, p`addrStart, p`addrEnd, p`ptrsAddr,
               p`ptrs, p`poolSize, p`blkIx, p`blkNbr, p`blkSize, p`blkAlign, sh.nodes`poolNext, sh.nodes`poolPrev
      ensures p.ptrs == arr
      ensures Linked() && i < |old(sh).segs| == |old(sh).cols| && sh == WithNewPool(old(sh), i, p, arr)
      ensures st == old(st).(pools := old(st).pools
                             + [Pool(seg.segAddr, addr, start, total, a.nbr, a.size, a.align, arr[..], a.nbr)])
    {
      hide TableLinked, SegsMatch, ColsLinked, Homes, PoolsMatch, Owned, MemPool.SegIs, MemPool.PoolIs, WithNewPool,
        WellFormed;
      SegsDistinct(sh, tbl);
      SegsOwned(sh);
      InsertPool(p, seg, arr, i);
      assert ColsLinked(WithNewPool(sh, i, p, arr));
      p.Configure(seg, start, total, addr, arr, a.size, a.align);
      assert ColsLinked(WithNewPool(sh, i, p, arr));
      ghost var v := Pool(seg.segAddr, addr, start, total, a.nbr, a.size, a.align, arr[..], a.nbr);
      HomesWithPool(sh, i, p, arr);
      TableLinkedWithPool(sh, i, p, arr, tbl, st.heap, st.segs);
      PoolsMatchWithPool(sh, i, p, arr, st.pools, v);
      WithNewPoolHeap(sh, i, p, arr);
      Record(WithNewPool(sh, i, p, arr), st.(pools := st.pools + [v]));
    }

    lemma WithNewPoolHeap(h: Shape, i: nat, p: MemPool, arr: array<u32>)
      requires i < |h.segs| == |h.cols|
      ensures WithNewPool(h, i, p, arr).heap == h.heap
    {
    }

    lemma SegsDistinct(h: Shape, t: MemPool?)
      requires Owned(h) && TableLinked(h, t)
      ensures forall j, k :: 0 <= j < k < |h.segs| ==> h.segs[j] != h.segs[k]
    {
    }

    /** `seg` holds the segment of the plan: listed, or not in the table yet. */
    ghost predicate SegOfPlan(seg: MemPool, pl: Plan)
      reads this, seg
    {
      && pl.Proceed? && seg.segAddr == pl.seg && seg.SegIs(pl.s)
      && if seg in sh.segs then pl.seg in st.segs && pl.s == st.segs[pl.seg] && (pl.seg == st.heap <==> seg == heap)
         else seg !in sh.nodes && pl.seg !in st.segs
    }

    /** The segment that the blocks are to be taken from, represented by `s`. */
    ghost predicate SegReady(seg: MemPool, pl: Plan, s: Seg)
      reads this, seg
    {
      && pl.Proceed? && seg.segAddr == pl.seg && seg.SegIs(s)
      && if seg in sh.segs then pl.seg in st.segs && s == st.segs[pl.seg] else seg !in sh.nodes && pl.seg !in st.segs
    }

    /** Takes the blocks of a pool, once its pointer array has been taken at `addr`. */
    method TakePoolBlks(seg: MemPool, a: Args, ghost pl: Plan, ghost s1: Seg, ghost addr: u32)
      returns (arr: array<u32>, reqd: u32, err: LibErr, ghost s: Seg)
      requires Linked() && SizesGiven(a) && SegReady(seg, pl, s1) && SegOk(pl.seg, s1)
      modifies this`st, seg`segNextAvail, seg`segSizeRem
      ensures Linked() && fresh(arr) && arr.Length == a.nbr
      ensures err != ErrNone ==> CreateResult(st, reqd, err) == CommitBlks(old(st), a, pl, s1, addr)
      ensures err == ErrNone ==>
        && reqd == 0 && SegReady(seg, pl, s)
        && CommitBlks(old(st), a, pl, s1, addr) == CreateResult(AddPool(st, pl.seg, s,
             Pool(pl.seg, addr, pl.start, pl.totPool, a.nbr, a.size, a.align, arr[..], a.nbr)), 0, ErrNone)
    {
      hide SegAlloc, AllocBlks, NextAvail, WellFormed, TableLinked, SegsMatch, ColsLinked, Homes, PoolsMatch, Owned,
        MemPool.SegIs, SegCalcTotSize, SegOk;
      HeapListed();
      reqd := 0;
      err := ErrNone;
      arr := new u32[a.nbr];
      var n := TakeBlks(seg, a, arr, s1);
      s := AllocBlks(chk, pl.seg, s1, a.nbr, a.size, a.align).0;
      if n < a.nbr {
        SegIsOk(seg, s);
        var left := SegCalcTotSize(chk, seg.segNextAvail, a.nbr - n, a.size, a.align);
        var sizeRem := seg.segSizeRem;
        reqd := if left > sizeRem then left - sizeRem else left;
        err := SegEmpty;
        return;
      }
      assert arr[..n] == arr[..];
    }

    /** The allocations of Mem_PoolCreate: the pointer array, then the blocks into it. */
    method TakeAll(seg: MemPool, a: Args, tot: u32, ghost pl: Plan)
      returns (addr: u32, arr: array<u32>, reqd: u32, err: LibErr, ghost s: Seg)
      requires Linked() && SegsHeap(st) && SizesGiven(a)
      requires SegOfPlan(seg, pl) && pl.tot == tot && SegOk(pl.seg, pl.s)
      modifies this`st, heap`segNextAvail, heap`segSizeRem, seg`segNextAvail, seg`segSizeRem
      ensures Linked() && fresh(arr) && arr.Length <= a.nbr
      ensures err != ErrNone ==> CreateResult(st, reqd, err) == Commit(old(st), a, pl)
      ensures err == ErrNone ==>
        && reqd == 0 && arr.Length == a.nbr && SegReady(seg, pl, s)
        && Commit(old(st), a, pl) == CreateResult(AddPool(st, pl.seg, s,
             Pool(pl.seg, addr, pl.start, pl.totPool, a.nbr, a.size, a.align, arr[..], a.nbr)), 0, ErrNone)
    {
      hide SegAlloc, AllocBlks, NextAvail, WellFormed, TableLinked, SegsMatch, ColsLinked, Homes, PoolsMatch, Owned,
        MemPool.SegIs, SegCalcTotSize, SegOk, CommitBlks;
      HeapListed();
      s := pl.s;
      reqd := 0;
      var ptrsSize := (PTR * a.nbr) % W;
      addr := TakeFromSeg(heap, ptrsSize, PTR, st.segs[st.heap]);
      SegIsOk(heap, st.segs[st.heap]);
      if addr == 0 {
        arr := new u32[0];
        var sizeRem := heap.segSizeRem;
        var need := if a.base == 0 then tot else ptrsSize;
        reqd := if need > sizeRem then need - sizeRem else need;
        err := HeapEmpty;
        return;
      }
      if seg == heap {
        s := st.segs[st.heap];
      }
      arr, reqd, err, s := TakePoolBlks(seg, a, pl, s, addr);
    }

    /** `p` is now in front of column `i`, of the segment at `base`; all else is as in `h`. */
    ghost predicate InColumn(h: Shape, i: nat, p: MemPool, base: nat)
      reads this, sh.nodes`segAddr, p`ptrs
    {
      && p.ptrs != null && i < |h.segs| == |h.cols| && sh == WithNewPool(h, i, p, p.ptrs)
      && h.segs[i] in sh.nodes && h.segs[i].segAddr == base
    }

    /** `p` is now segment `i`; all else is as in `h`. */
    ghost predicate InTable(h: Shape, i: nat, p: MemPool)
      reads this, p`ptrs
    {
      p.ptrs != null && i <= |h.segs| == |h.cols| && sh == WithNewSeg(h, i, p, p.ptrs)
    }

    /** How the table has grown by `p`: in front of the column of its segment if that was
        `listed`, and as a new segment otherwise. The order of everything else is kept. */
    ghost predicate GrownBy(h: Shape, p: MemPool, base: nat, listed: bool)
      reads this, sh.nodes`segAddr, p`ptrs
    {
      if listed then exists i: nat :: InColumn(h, i, p, base) else exists i: nat :: InTable(h, i, p)
    }

    /** The allocations and the linking of Mem_PoolCreate, once the checks have passed. */
    method CommitPool(p: MemPool, seg: MemPool, prev: MemPool?, next: MemPool?, a: Args,
                      start: u32, totPool: u32, tot: u32, ghost i: nat)
      returns (reqd: u32, err: LibErr)
      requires Valid() && CreateArgsOk(st, a) && PlanFor(st, a).Proceed?
      requires PlanFor(st, a) == Proceed(seg.segAddr, SegFor(st, a), start, totPool, tot)
      requires p !in sh.nodes && p.poolPrev == null && p.poolNext == null
      requires SegOfPlan(seg, PlanFor(st, a))
      requires if seg in sh.segs then p.segAddr == 0 else seg == p && PlaceFor(a.base, prev, next, i)
      modifies this`st, this`sh, this`tbl, p, sh.nodes`segNext, sh.nodes`segPrev, sh.nodes`poolNext, sh.nodes`poolPrev,
               sh.nodes`segNextAvail, sh.nodes`segSizeRem
      ensures Valid()
      ensures CreateResult(st, reqd, err) == Create(old(st), a)
      ensures err != ErrNone ==> sh == old(sh) && tbl == old(tbl) && p.kind == old(p.kind)
      ensures err != ErrNone && old(p.LinksClear()) ==> p.LinksClear()
      ensures err == ErrNone ==> GrownBy(old(sh), p, SegBaseFor(old(st), a), SegBaseFor(old(st), a) in old(st).segs)
    {
      hide SegAlloc, AllocBlks, NextAvail, WellFormed, TableLinked, SegsMatch, ColsLinked, Homes, PoolsMatch, Owned,
        MemPool.SegIs, SegCalcTotSize, SegOk, PlanFor, CreateArgsOk, Commit;
      WellFormedHeap(st);
      CreateWellFormed(st, a);
      PtrsGranted(st, a);
      PlanProceeds(st, a);
      HeapListed();
      SegsOwned(sh);
      var addr, arr;
      ghost var s;
      addr, arr, reqd, err, s := TakeAll(seg, a, tot, PlanFor(st, a));
      if err != ErrNone {
        return;
      }
      if seg == p {
        AddAsSegment(p, prev, next, start, totPool, addr, arr, a, s, i);
        assert p.ptrs == arr && InTable(old(sh), i, p);
      } else {
        ghost var j :| 0 <= j < |sh.segs| && sh.segs[j] == seg;
        assert st.segs[seg.segAddr := s] == st.segs;
        AddToSegment(p, seg, start, totPool, addr, arr, a, j);
        assert p.ptrs == arr && InColumn(old(sh), j, p, seg.segAddr);
      }
    }

    lemma FoundIsPlan(p: MemPool, a: Args, seg: MemPool, prev: MemPool?, next: MemPool?, i: nat)
      requires Valid() && CreateArgsOk(st, a) && PlanFor(st, a).Proceed? && a.base != 0 && p !in sh.nodes
      requires SegFound(p, a, seg, prev, next, i)
      ensures PlanFor(st, a).seg == seg.segAddr && SegOfPlan(seg, PlanFor(st, a))
      ensures if seg in sh.segs then p.segAddr == 0 else seg == p && PlaceFor(a.base, prev, next, i)
    {
      hide WellFormed, TableLinked, SegsMatch, ColsLinked, Homes, PoolsMatch, Owned, MemPool.SegIs, SegOk,
        CreateArgsOk, PlanFor;
      WellFormedHeap(st);
      PlanProceeds(st, a);
      HeapListed();
      SegsOwned(sh);
      if Identical(st.segs, a) {
        ListedSeg(seg);
      }
    }

    /** Mem_PoolCreate. */
    method MemPoolCreate(p: MemPool?, a: Args) returns (reqd: u32, err: LibErr)
      requires Valid() && CreateArgsOk(st, a) && (p != null ==> p !in sh.nodes)
      modifies this`st, this`sh, this`tbl, (if p == null then {} else {p}), sh.nodes`segNext, sh.nodes`segPrev,
               sh.nodes`poolNext, sh.nodes`poolPrev, sh.nodes`segNextAvail, sh.nodes`segSizeRem
      ensures Valid()
      ensures p == null ==> err == NullPtr && reqd == 0 && st == old(st)
      ensures p != null ==> CreateResult(st, reqd, err) == Create(old(st), a)
      ensures err != ErrNone ==> sh == old(sh) && tbl == old(tbl)
      ensures err != ErrNone && p != null ==> p.kind == TypeNone && p.LinksClear()
      ensures err == ErrNone ==> p != null
      ensures err == ErrNone ==> GrownBy(old(sh), p, SegBaseFor(old(st), a), SegBaseFor(old(st), a) in old(st).segs)
    {
      hide WellFormed, TableLinked, SegsMatch, ColsLinked, Homes, PoolsMatch, Owned, MemPool.SegIs, SegOk,
        CreateArgsOk, PlanInHeap, PlanDedicated, Commit;
      reqd := 0;
      err := MemPoolClr(p);
      if err != ErrNone {
        return;
      }
      if chk {
        if a.base != 0 && a.memSize < 1 {
          err := InvalidSegSize;
          return;
        }
        if a.nbr < 1 {
          err := InvalidBlkNbr;
          return;
        }
        if a.size < 1 {
          err := InvalidBlkSize;
          return;
        }
        if a.align < 1 {
          err := InvalidBlkAlign;
          return;
        }
      }
      HeapListed();
      WellFormedHeap(st);
      ArgsGiven(a);
      var seg, prev, next := heap, heap, heap;
      var start, totPool, tot;
      ghost var i := 0;
      if a.base == 0 {
        start, totPool, tot, reqd, err := PlanHeapPool(a);
        if err != ErrNone {
          return;
        }
      } else {
        if chk && (a.base + a.memSize - 1) % W < a.base {
          err := InvalidBlkAddr;
          return;
        }
        var found, prev', next';
        found, prev', next', start, totPool, reqd, err, i := PlanDedicatedPool(p, a);
        if err != ErrNone {
          return;
        }
        seg := found;
        tot := 0;
        FoundIsPlan(p, a, seg, prev', next', i);
        reqd, err := CommitPool(p, seg, prev', next', a, start, totPool, tot, i);
        return;
      }
      reqd, err := CommitPool(p, seg, prev, next, a, start, totPool, tot, i);
    }

    /** Without argument checks the caller has given usable sizes. */
    lemma ArgsGiven(a: Args)
      requires st.heap in st.segs && CreateArgsOk(st, a)
      ensures !st.chk ==> SizesGiven(a) && a.base + a.memSize <= W
    {
      hide PtrsSizeOk, TrueTotal, StartFor, PtrsTotal, Stride;
    }

    // ---------------------------------------------------------------- blocks

    /** `p` is the created pool number `k`. */
    ghost predicate IsPool(p: MemPool?, k: nat)
      reads this
    {
      k < |sh.pools| && sh.pools[k] == p
    }

    /** What is passed as a pool: a created one or, with argument checks, anything that is
        not of type POOL. */
    ghost predicate PoolArgOk(p: MemPool?)
      reads this, p
    {
      p in sh.pools || (chk && (p == null || p.kind != TypePool))
    }

    /** A created pool, its number, and its abstract pool. */
    lemma PoolKnown(p: MemPool?)
      requires Valid()
      ensures p in sh.pools ==> exists k: nat :: IsPool(p, k)
      ensures forall k: nat :: IsPool(p, k) ==>
        k < |st.pools| && p.PoolIs(st.pools[k]) && PoolOk(st.pools[k]) && p in sh.nodes && p.ptrs in sh.arrs
      ensures forall k: nat :: IsPool(p, k) ==> st.pools[k := st.pools[k]] == st.pools
      ensures forall j: nat, k: nat :: IsPool(p, j) && IsPool(p, k) ==> j == k
      ensures Owned(sh) && chk == st.chk
    {
      hide TableLinked, SegsMatch, ColsLinked, Homes, PoolsMatch, PoolOk;
      if p in sh.pools {
        var j :| 0 <= j < |sh.pools| && sh.pools[j] == p;
        assert IsPool(p, j);
      }
      forall k: nat | IsPool(p, k)
        ensures k < |st.pools| && p.PoolIs(st.pools[k]) && PoolOk(st.pools[k]) && p in sh.nodes && p.ptrs in sh.arrs
      {
        PoolAt(sh, st.pools, k);
      }
    }

    /** Mem_PoolBlkGetNbrAvail. */
    method MemPoolBlkGetNbrAvail(p: MemPool?) returns (nbr: u32, err: LibErr)
      requires Valid() && PoolArgOk(p)
      ensures p !in sh.pools ==> nbr == 0 && err == if p == null then NullPtr else InvalidPool
      ensures forall k: nat :: IsPool(p, k) ==>
        err == ErrNone && k < |st.pools| && PoolOk(st.pools[k]) && nbr == |FreeSet(st.pools[k])|
    {
      hide Valid, FreeSet, GeometryOk;
      PoolKnown(p);
      if chk {
        if p == null {
          return 0, NullPtr;
        }
        if p.kind != TypePool {
          return 0, InvalidPool;
        }
      }
      nbr := p.blkIx;
      err := ErrNone;
      forall k: nat | IsPool(p, k) ensures nbr == |FreeSet(st.pools[k])| {
        NbrAvailIsFreeCount(st.pools[k]);
      }
    }

    /** The change of one pool's abstract value. */
    ghost method RecordPool(p: MemPool, k: nat, v: Pool)
      requires Owned(sh) && sh.heap == heap && chk == st.chk && IsPool(p, k) && |st.pools| == |sh.pools|
      requires TableLinked(sh, tbl) && SegsMatch(sh, st.heap, st.segs) && ColsLinked(sh) && Homes(sh)
      requires heap.kind == TypeHeap
      requires PoolMatches(p, sh.arrs[k], sh.segs, sh.nodes, v)
      requires forall j :: 0 <= j < |sh.pools| && j != k ==>
        PoolMatches(sh.pools[j], sh.arrs[j], sh.segs, sh.nodes, st.pools[j])
      modifies this`st
      ensures Linked() && st == old(st).(pools := old(st).pools[k := v])
    {
      hide TableLinked, SegsMatch, ColsLinked, Homes, PoolsMatch, Owned, PoolMatches;
      PoolsMatchUpdate(sh, st.pools, k, v);
      st := st.(pools := st.pools[k := v]);
    }

    /** Mem_PoolBlkGet. */
    method MemPoolBlkGet(p: MemPool?, size: u32) returns (blk: u32, err: LibErr)
      requires Valid() && PoolArgOk(p)
      modifies this`st, (if p == null then {} else {p})`blkIx
      ensures Valid()
      ensures p !in sh.pools ==>
        && st == old(st) && blk == 0
        && err == if p == null then NullPtr else if size < 1 then InvalidBlkSize else InvalidPool
      ensures forall k: nat :: IsPool(p, k) ==>
        && k < |st.pools| && k < |old(st).pools| && PoolOk(old(st).pools[k])
        && st == Get(old(st), k, size)
        && BlkGet(chk, old(st).pools[k], size) == (st.pools[k], blk, err)
    {
      hide Valid, GeometryOk;
      PoolKnown(p);
      blk := 0;
      if chk {
        if p == null {
          err := NullPtr;
          return;
        }
        if size < 1 {
          err := InvalidBlkSize;
          return;
        }
        if p.kind != TypePool {
          err := InvalidPool;
          return;
        }
        if size > p.blkSize {
          err := InvalidBlkSize;
          return;
        }
      }
      if p.blkIx < 1 {
        err := PoolEmpty;
        return;
      }
      if p.blkIx > p.blkNbr {
        err := InvalidBlkIx;
        return;
      }
      ghost var k: nat :| IsPool(p, k);
      blk := TakeBlk(p, k, size);
      err := ErrNone;
    }

    /** The critical section of a get that is granted. */
    method TakeBlk(p: MemPool, ghost k: nat, ghost size: u32) returns (blk: u32)
      requires Valid() && IsPool(p, k) && k < |st.pools| && PoolOk(st.pools[k])
      requires BlkGet(chk, st.pools[k], size).2 == ErrNone
      modifies this`st, p`blkIx
      ensures Valid() && k < |old(st).pools| && st == Get(old(st), k, size)
      ensures BlkGet(chk, old(st).pools[k], size).1 == blk
    {
      hide TableLinked, SegsMatch, ColsLinked, Homes, PoolsMatch, WellFormed, Owned, GeometryOk, MemPool.PoolIs;
      GetWellFormed(st, k, size);
      PoolAt(sh, st.pools, k);
      blk := p.TakeLastFree(st.pools[k]);
      RecordPool(p, k, BlkGet(chk, st.pools[k], size).0);
    }

    /** What is passed with a block to free: without argument checks, only a used block. */
    ghost predicate FreeArgOk(p: MemPool?, blk: u32)
      reads this
      requires |sh.pools| == |st.pools|
    {
      forall k: nat :: IsPool(p, k) ==> st.pools[k].ix <= |st.pools[k].ptrs| && FreeArgsOk(st, k, blk)
    }

    /** Mem_PoolBlkFree. */
    method MemPoolBlkFree(p: MemPool?, blk: u32) returns (err: LibErr)
      requires Valid() && PoolArgOk(p) && |sh.pools| == |st.pools| && FreeArgOk(p, blk)
      modifies this`st, (if p == null then {} else {p})`blkIx, if p == null || p.ptrs == null then {} else {p.ptrs}
      ensures Valid()
      ensures p !in sh.pools ==> st == old(st) && err == if p == null || blk == 0 then NullPtr else InvalidPool
      ensures forall k: nat :: IsPool(p, k) ==>
        && k < |st.pools| && k < |old(st).pools| && PoolOk(old(st).pools[k])
        && st == Free(old(st), k, blk)
        && BlkFree(chk, old(st).pools[k], blk) == (st.pools[k], err)
    {
      hide Valid, GeometryOk, IsValidAddr;
      PoolKnown(p);
      if chk {
        if p == null || blk == 0 {
          return NullPtr;
        }
        if p.kind != TypePool {
          return InvalidPool;
        }
      }
      ghost var k: nat :| IsPool(p, k);
      if chk {
        err := p.CheckUsedBlk(blk, st.pools[k]);
        if err != ErrNone {
          return;
        }
      }
      err := FreeFound(p, k, blk);
    }

    /** A free once its checks have passed. */
    method FreeFound(p: MemPool, ghost k: nat, blk: u32) returns (err: LibErr)
      requires Valid() && IsPool(p, k) && k < |st.pools| && PoolOk(st.pools[k]) && p.PoolIs(st.pools[k])
      requires p.ptrs != null && chk == st.chk && FreeArgsOk(st, k, blk)
      requires chk ==> blk != 0 && IsValidAddr(st.pools[k], blk) && blk !in st.pools[k].ptrs[..st.pools[k].ix]
      modifies this`st, p`blkIx, p.ptrs
      ensures Valid() && k < |old(st).pools| && st == Free(old(st), k, blk)
      ensures BlkFree(chk, old(st).pools[k], blk).1 == err
    {
      hide Valid, GeometryOk, IsValidAddr, UsedSet;
      assert st.pools[k := st.pools[k]] == st.pools;
      if p.blkIx >= p.blkNbr {
        return PoolFull;
      }
      var i := p.FindUsedBlk(blk, st.pools[k]);
      if chk && i >= p.blkNbr {
        return InvalidPool;
      }
      FindUsed(st.pools[k], blk);
      FreeBlk(p, k, blk, i);
      err := ErrNone;
    }

    /** The exchange of a free that is granted. */
    method FreeBlk(p: MemPool, ghost k: nat, blk: u32, i: u32)
      requires Valid() && IsPool(p, k) && k < |st.pools| && PoolOk(st.pools[k]) && p.ptrs != null
      requires FreeArgsOk(st, k, blk) && BlkFree(chk, st.pools[k], blk).1 == ErrNone
      requires st.pools[k].ix < st.pools[k].nbr && i == Find(st.pools[k].ptrs, blk, st.pools[k].ix) < st.pools[k].nbr
      modifies this`st, p`blkIx, p.ptrs
      ensures Valid() && k < |old(st).pools| && st == Free(old(st), k, blk)
    {
      hide TableLinked, SegsMatch, ColsLinked, Homes, PoolsMatch, WellFormed, Owned, GeometryOk, MemPool.PoolIs,
        IsValidAddr;
      FreeWellFormed(st, k, blk);
      PoolAt(sh, st.pools, k);
      p.SwapAndFree(blk, i, st.pools[k]);
      RecordPool(p, k, BlkFree(chk, st.pools[k], blk).0);
    }

    /** Mem_PoolBlkIxGet. */
    method MemPoolBlkIxGet(p: MemPool?, blk: u32) returns (ix: u32, err: LibErr)
      requires Valid() && PoolArgOk(p)
      ensures p !in sh.pools ==> ix == INVALID_IX && err == if p == null || blk == 0 then NullPtr else InvalidPool
      ensures forall k: nat :: IsPool(p, k) ==>
        k < |st.pools| && PoolOk(st.pools[k]) && (ix, err) == BlkIxGet(chk, st.pools[k], blk)
    {
      hide Valid, GeometryOk, IsValidAddr;
      PoolKnown(p);
      ix := INVALID_IX;
      if chk {
        if p == null || blk == 0 {
          err := NullPtr;
          return;
        }
        if p.kind != TypePool {
          err := InvalidPool;
          return;
        }
      }
      ghost var k: nat :| IsPool(p, k);
      if chk {
        err := p.CheckUsedBlk(blk, st.pools[k]);
        if err != ErrNone {
          return;
        }
      }
      if p.blkIx >= p.blkNbr {
        err := PoolFull;
        return;
      }
      var i := p.FindUsedBlk(blk, st.pools[k]);
      if i >= p.blkNbr {
        err := InvalidPool;
        return;
      }
      ix := p.blkNbr - 1 - i;
      err := ErrNone;
    }

    /** Mem_PoolBlkGetUsedAtIx. */
    method MemPoolBlkGetUsedAtIx(p: MemPool?, usedIx: u32) returns (blk: u32, err: LibErr)
      requires Valid() && PoolArgOk(p)
      ensures p !in sh.pools ==> blk == 0 && err == if p == null then NullPtr else InvalidPool
      ensures forall k: nat :: IsPool(p, k) ==>
        k < |st.pools| && PoolOk(st.pools[k]) && (blk, err) == BlkGetUsedAtIx(chk, st.pools[k], usedIx)
    {
      hide Valid, GeometryOk;
      PoolKnown(p);
      blk := 0;
      if chk {
        if p == null {
          err := NullPtr;
          return;
        }
        if p.kind != TypePool {
          err := InvalidPool;
          return;
        }
        if p.blkIx >= p.blkNbr {
          err := InvalidBlkIx;
          return;
        }
      }
      var blkIx := (p.blkNbr - usedIx - 1) % W;
      if blkIx >= p.blkNbr || blkIx < p.blkIx {
        err := InvalidBlkIx;
        return;
      }
      blk := p.ptrs[blkIx];
      err := ErrNone;
    }
  }
}
