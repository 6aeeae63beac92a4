/** The MEM_POOL descriptors of lib_mem.h and the table they are linked into. */
module MemTable {
  import opened Word32
  import opened Segments
  import opened Pools
  import opened Allocator

  datatype MemType = TypeNone | TypeHeap | TypePool

  /** MEM_POOL. The pointer array is a Dafny array; `ptrsAddr` is its address in the
      heap segment. */
  class MemPool {
    var kind: MemType
    var segHead: MemPool?
    var segPrev: MemPool?
    var segNext: MemPool?
    var poolPrev: MemPool?
    var poolNext: MemPool?
    var addrStart: u32
    var addrEnd: u32
    var ptrsAddr: u32
    var ptrs: array?<u32>
    var poolSize: u32
    var blkIx: u32
    var blkNbr: u32
    var blkSize: u32
    var blkAlign: u32
    var segAddr: u32
    var segNextAvail: u32
    var segSizeTot: u32
    var segSizeRem: u32

    constructor ()
    {
    }

    /** The segment fields represent `s`; in particular the octets handed out and the
        octets remaining add up to the total. */
    ghost predicate SegIs(s: Seg)
      reads this`segAddr, this`segNextAvail, this`segSizeTot, this`segSizeRem
    {
      && SegOk(segAddr, s)
      && segSizeTot == s.size && segSizeRem == Rem(s) && segNextAvail == NextAvail(segAddr, s)
    }

    /** The pool fields represent `p`. */
    ghost predicate PoolIs(p: Pool)
      reads this`kind, this`addrStart, this`addrEnd, this`ptrsAddr, this`ptrs, this`poolSize, this`blkIx,
            this`blkNbr, this`blkSize, this`blkAlign, ptrs
    {
      && kind == TypePool
      && addrStart == p.start && poolSize == p.total && addrEnd == (p.start + p.total - 1) % W
      && ptrsAddr == p.ptrsAddr && ptrs != null && ptrs[..] == p.ptrs
      && blkNbr == p.nbr && blkSize == p.size && blkAlign == p.align && blkIx == p.ix
    }

    /** The fields Mem_PoolClr leaves. */
    ghost predicate IsClear()
      reads this
    {
      LinksClear() && ValuesClear()
    }

    ghost predicate LinksClear()
      reads this`segHead, this`segPrev, this`segNext, this`poolPrev, this`poolNext, this`ptrs
    {
      && segHead == null && segPrev == null && segNext == null && poolPrev == null && poolNext == null
      && ptrs == null
    }

    ghost predicate ValuesClear()
      reads this`kind, this`addrStart, this`addrEnd, this`ptrsAddr, this`poolSize, this`blkIx, this`blkNbr,
            this`blkSize, this`blkAlign, this`segAddr, this`segNextAvail, this`segSizeTot, this`segSizeRem
    {
      && kind == TypeNone
      && addrStart == 0 && addrEnd == 0 && ptrsAddr == 0 && poolSize == 0
      && blkAlign == 0 && blkSize == 0 && blkNbr == 0 && blkIx == 0
      && segAddr == 0 && segNextAvail == 0 && segSizeTot == 0 && segSizeRem == 0
    }

    method ClearLinks()
      modifies this`segHead, this`segPrev, this`segNext, this`poolPrev, this`poolNext, this`ptrs
      ensures LinksClear()
    {
      segHead := null;
      segPrev := null;
      segNext := null;
      poolPrev := null;
      poolNext := null;
      ptrs := null;
    }

    method ClearValues()
      modifies this`kind, this`addrStart, this`addrEnd, this`ptrsAddr, this`poolSize, this`blkIx, this`blkNbr,
               this`blkSize, this`blkAlign, this`segAddr, this`segNextAvail, this`segSizeTot, this`segSizeRem
      ensures ValuesClear()
    {
      kind := TypeNone;
      addrStart := 0;
      addrEnd := 0;
      ptrsAddr := 0;
      poolSize := 0;
      blkAlign := 0;
      blkSize := 0;
      blkNbr := 0;
      blkIx := 0;
      segAddr := 0;
      segNextAvail := 0;
      segSizeTot := 0;
      segSizeRem := 0;
    }

    method Clear()
      modifies this
      ensures IsClear()
    {
      ClearLinks();
      ClearValues();
    }

    /** A new, untouched segment of the given dedicated memory. */
    method StartSegment(base: u32, size: u32)
      requires SegOk(base, Seg(size, 0))
      modifies this`segAddr, this`segNextAvail, this`segSizeTot, this`segSizeRem
      ensures segAddr == base && segSizeTot == size && SegIs(Seg(size, 0))
    {
      segAddr := base;
      segNextAvail := base;
      segSizeTot := size;
      segSizeRem := size;
    }

    /** The fields Mem_Init gives the heap descriptor. */
    method SetUpHeap(heapAddr: u32, heapSize: u32)
      requires SegOk(heapAddr, Seg(heapSize, 0))
      modifies this
      ensures kind == TypeHeap && segHead == this && segAddr == heapAddr && segSizeTot == heapSize
      ensures segPrev == null && segNext == null && poolPrev == null && poolNext == null
      ensures SegIs(Seg(heapSize, 0))
    {
      Clear();
      kind := TypeHeap;
      segHead := this;
      StartSegment(heapAddr, heapSize);
    }

    /** Mem_PoolBlkIsValidAddr. */
    method BlkIsValidAddr(blk: u32, ghost v: Pool) returns (valid: bool)
      requires PoolIs(v) && GeometryOk(v)
      ensures valid == IsValidAddr(v, blk)
    {
      hide Mod, Gap, GeometryOk;
      GeometryFits(v);
      if blk < addrStart || blk > addrEnd {
        return false;
      }
      var memAlignOffset := Gap(addrStart, blkAlign);
      var blkAlignOffset := Gap(blkSize, blkAlign);
      var addrFirst := (addrStart + memAlignOffset) % W;
      var memDiff := (blk - addrFirst) % W;
      var memAlign := (blkSize + blkAlignOffset) % W;
      return Mod(memDiff, memAlign) == 0;
    }

    /** The search of the used part of the pointer array. */
    method FindUsedBlk(blk: u32, ghost v: Pool) returns (i: u32)
      requires PoolIs(v) && v.ix <= v.nbr == |v.ptrs|
      ensures i == Find(v.ptrs, blk, v.ix)
    {
      hide Gap, Mod;
      i := blkIx;
      while i < blkNbr
        invariant v.ix <= i <= v.nbr && Find(v.ptrs, blk, i) == Find(v.ptrs, blk, v.ix)
      {
        if ptrs[i] == blk {
          return;
        }
        i := i + 1;
      }
    }

    /** The search of the free part of the pointer array. */
    method IsFreeBlk(blk: u32, ghost v: Pool) returns (free: bool)
      requires PoolIs(v) && v.ix <= v.nbr == |v.ptrs|
      ensures free == (blk in v.ptrs[..v.ix])
    {
      var i := 0;
      while i < blkIx
        invariant i <= v.ix && blk !in v.ptrs[..i]
      {
        if blk == ptrs[i] {
          return true;
        }
        i := i + 1;
      }
      return false;
    }

    /** The checks of a block that should be in use. */
    method CheckUsedBlk(blk: u32, ghost v: Pool) returns (err: LibErr)
      requires PoolIs(v) && GeometryOk(v) && v.ix <= v.nbr == |v.ptrs|
      ensures err ==
        if !IsValidAddr(v, blk) then InvalidBlkAddr else if blk in v.ptrs[..v.ix] then InvalidBlkAddrInPool else ErrNone
    {
      hide GeometryOk, IsValidAddr;
      var valid := BlkIsValidAddr(blk, v);
      if !valid {
        return InvalidBlkAddr;
      }
      var free := IsFreeBlk(blk, v);
      err := if free then InvalidBlkAddrInPool else ErrNone;
    }

    /** Hands out the last block of the free part. */
    method TakeLastFree(ghost v: Pool) returns (blk: u32)
      requires PoolIs(v) && 0 < v.ix <= |v.ptrs|
      modifies this`blkIx
      ensures PoolIs(v.(ix := v.ix - 1)) && blk == v.ptrs[v.ix - 1]
    {
      blkIx := blkIx - 1;
      blk := ptrs[blkIx];
    }

    /** Exchanges entry `i`, which holds the block, with the first of the used part, and
        counts that one free. */
    method SwapAndFree(blk: u32, i: u32, ghost v: Pool)
      requires PoolIs(v) && v.ix <= i < |v.ptrs| == v.nbr && v.ptrs[i] == blk
      modifies this`blkIx, ptrs
      ensures ptrs == old(ptrs) && PoolIs(v.(ptrs := v.ptrs[i := v.ptrs[v.ix]][v.ix := blk], ix := v.ix + 1))
    {
      ptrs[i] := ptrs[blkIx];
      ptrs[blkIx] := blk;
      blkIx := blkIx + 1;
    }

    /** The configuration Mem_PoolCreate ends with. */
    method Configure(head: MemPool, start: u32, total: u32, addr: u32, arr: array<u32>, size: u32, align: u32)
      requires arr.Length < W
      modifies this`kind, this`segHead, this`addrStart, this`addrEnd, this`ptrsAddr, this`ptrs, this`poolSize,
               this`blkIx, this`blkNbr, this`blkSize, this`blkAlign
      ensures segHead == head && ptrs == arr
      ensures forall seg :: PoolIs(Pool(seg, addr, start, total, arr.Length, size, align, arr[..], arr.Length))
    {
      kind := TypePool;
      segHead := head;
      addrStart := start;
      addrEnd := (start + total - 1) % W;
      ptrsAddr := addr;
      ptrs := arr;
      poolSize := total;
      blkAlign := align;
      blkSize := size;
      blkNbr := arr.Length;
      blkIx := arr.Length;
    }

    /** Mem_SegAlloc on this segment. */
    method MemSegAlloc(chk: bool, size: u32, align: u32, ghost s: Seg) returns (addr: u32)
      requires SegIs(s) && align > 0
      modifies this`segNextAvail, this`segSizeRem
      ensures SegOk(segAddr, s) && addr == SegAlloc(chk, segAddr, s, size, align).1
      ensures SegIs(SegAlloc(chk, segAddr, s, size, align).0)
    {
      hide Gap, NextAvail;
      var memAddr := segNextAvail;
      var alignOffset := Gap(memAddr, align);
      var sizeTot := (alignOffset + size) % W;
      if sizeTot > segSizeRem {
        return 0;
      }
      if chk && (sizeTot < alignOffset || sizeTot < size) {
        return 0;
      }
      var addrNext := (memAddr + sizeTot) % W;
      if chk && addrNext < memAddr {
        return 0;
      }
      NextAvailMoves(segAddr, s, sizeTot);
      segNextAvail := addrNext;
      segSizeRem := segSizeRem - sizeTot;
      return (memAddr + alignOffset) % W;
    }
  }

  lemma SegAddsUp(x: MemPool, s: Seg)
    requires x.SegIs(s)
    ensures (x.segNextAvail - x.segAddr) % W + x.segSizeRem == x.segSizeTot
  {
  }

  /** The descriptors in use, as the invariant sees them: the horizontal list of segment
      heads, the column of pools below each head, the created pools in order with their
      pointer arrays, and all of them together. */
  datatype Shape = Shape(heap: MemPool, segs: seq<MemPool>, cols: seq<seq<MemPool>>,
                         pools: seq<MemPool>, arrs: seq<array<u32>>, nodes: set<MemPool>)

  /** All descriptors in use are accounted for, every pool is a head or in a column, and
      pointer arrays are not shared. */
  ghost predicate Owned(h: Shape) {
    && |h.arrs| == |h.pools| && |h.cols| == |h.segs|
    && HeadsOwned(h) && PoolsOwned(h) && ColsOwned(h)
  }

  /** The heads are the heap and created pools. */
  ghost predicate HeadsOwned(h: Shape) {
    && h.heap in h.nodes && h.heap !in h.pools && h.heap in h.segs
    && (forall i :: 0 <= i < |h.segs| ==> h.segs[i] in h.nodes)
    && (forall i :: 0 <= i < |h.segs| ==> h.segs[i] == h.heap || h.segs[i] in h.pools)
  }

  ghost predicate PoolsOwned(h: Shape) {
    && (forall k :: 0 <= k < |h.pools| ==> h.pools[k] in h.nodes)
    && (forall j, k :: 0 <= j < k < |h.pools| ==> h.pools[j] != h.pools[k])
    && (forall j, k :: 0 <= j < k < |h.arrs| ==> h.arrs[j] != h.arrs[k])
  }

  /** The members of the columns are the created pools that are no heads. */
  ghost predicate ColsOwned(h: Shape) {
    && (forall i, x :: 0 <= i < |h.cols| && x in h.cols[i] ==> x in h.nodes && x in h.pools && x !in h.segs)
    && (forall k :: 0 <= k < |h.pools| ==> h.pools[k] in h.segs || InSomeCol(h.cols, h.pools[k]))
  }

  ghost predicate InSomeCol(cols: seq<seq<MemPool>>, x: MemPool) {
    exists i :: 0 <= i < |cols| && x in cols[i]
  }

  /** The horizontal list: Mem_PoolTbl at its head, doubly linked, ascending by base
      address. */
  ghost predicate TableLinked(h: Shape, tbl: MemPool?)
    requires Owned(h)
    reads h.nodes`segAddr, h.nodes`segPrev, h.nodes`segNext
  {
    && |h.segs| > 0 && tbl == h.segs[0]
    && AscendingSegs(h.segs) && PrevLinked(h.segs) && NextLinked(h.segs)
  }

  ghost predicate AscendingSegs(segs: seq<MemPool>)
    reads segs`segAddr
  {
    forall i, j :: 0 <= i < j < |segs| ==> segs[i].segAddr < segs[j].segAddr
  }

  /** Position `i` keeps the list ascending for a segment at `base`. */
  ghost predicate SplitAt(segs: seq<MemPool>, base: nat, i: nat)
    reads segs`segAddr
  {
    && i <= |segs|
    && (forall j :: 0 <= j < i ==> segs[j].segAddr < base)
    && (forall j :: i <= j < |segs| ==> base < segs[j].segAddr)
  }

  ghost predicate PrevLinked(segs: seq<MemPool>)
    reads segs`segPrev
  {
    forall i {:trigger segs[i].segPrev} :: 0 <= i < |segs| ==> segs[i].segPrev == if i == 0 then null else segs[i - 1]
  }

  ghost predicate NextLinked(segs: seq<MemPool>)
    reads segs`segNext
  {
    forall i {:trigger segs[i].segNext} :: 0 <= i < |segs| ==>
      segs[i].segNext == if i == |segs| - 1 then null else segs[i + 1]
  }

  lemma BasesDiffer(h: Shape, tbl: MemPool?, seg: MemPool)
    requires Owned(h) && TableLinked(h, tbl)
    ensures seg in h.segs ==> forall x :: x in h.segs && x != seg ==> x.segAddr != seg.segAddr
  {
  }

  /** The list holds exactly the segments of the state. */
  ghost predicate SegsMatch(h: Shape, heapAddr: nat, segs: map<nat, Seg>)
    requires Owned(h)
    reads h.nodes`segAddr, h.nodes`segNextAvail, h.nodes`segSizeTot, h.nodes`segSizeRem
  {
    SegsListed(h, heapAddr, segs.Keys) && SegsFilled(h, segs)
  }

  ghost predicate SegsListed(h: Shape, heapAddr: nat, bases: set<nat>)
    requires Owned(h)
    reads h.nodes`segAddr
  {
    && h.heap.segAddr == heapAddr
    && (forall i :: 0 <= i < |h.segs| ==> h.segs[i].segAddr in bases)
    && (forall b :: b in bases ==> exists i :: 0 <= i < |h.segs| && h.segs[i].segAddr == b)
  }

  ghost predicate SegsFilled(h: Shape, segs: map<nat, Seg>)
    requires Owned(h)
    reads h.nodes`segAddr, h.nodes`segNextAvail, h.nodes`segSizeTot, h.nodes`segSizeRem
  {
    forall x :: x in h.segs && x.segAddr in segs ==> x.SegIs(segs[x.segAddr])
  }

  /** One column, doubly linked below its head. */
  ghost predicate ColLinked(head: MemPool, col: seq<MemPool>)
    reads head`poolPrev, head`poolNext, col`poolPrev, col`poolNext
  {
    && head.poolPrev == null && head.poolNext == (if |col| == 0 then null else col[0])
    && (forall i, j :: 0 <= i < j < |col| ==> col[i] != col[j])
    && (forall j {:trigger col[j].poolPrev} :: 0 <= j < |col| ==>
          col[j].poolPrev == if j == 0 then head else col[j - 1])
    && (forall j {:trigger col[j].poolNext} :: 0 <= j < |col| ==>
          col[j].poolNext == if j == |col| - 1 then null else col[j + 1])
  }

  ghost predicate ColsLinked(h: Shape)
    requires Owned(h)
    reads h.nodes`poolPrev, h.nodes`poolNext
  {
    forall i :: 0 <= i < |h.segs| ==> ColLinked(h.segs[i], h.cols[i])
  }

  /** Every head names itself, and every member of a column names the head and holds no
      segment of its own. So no pool is in two columns. */
  ghost predicate Homes(h: Shape)
    requires Owned(h)
    reads h.nodes`segHead, h.nodes`segAddr
  {
    && (forall i :: 0 <= i < |h.segs| ==> h.segs[i].segHead == h.segs[i])
    && (forall i, x :: 0 <= i < |h.segs| && x in h.cols[i] ==> x.segHead == h.segs[i] && x.segAddr == 0)
  }

  /** Changing the contents of one pool. */
  lemma PoolsMatchUpdate(h: Shape, pools: seq<Pool>, k: nat, v: Pool)
    requires Owned(h) && k < |h.pools| == |pools| && h.heap.kind == TypeHeap
    requires forall j :: 0 <= j < |h.pools| && j != k ==> PoolMatches(h.pools[j], h.arrs[j], h.segs, h.nodes, pools[j])
    requires PoolMatches(h.pools[k], h.arrs[k], h.segs, h.nodes, v)
    ensures PoolsMatch(h, pools[k := v])
  {
    hide PoolMatches;
  }

  lemma PoolAt(h: Shape, pools: seq<Pool>, k: nat)
    requires Owned(h) && PoolsMatch(h, pools) && k < |h.pools|
    ensures |pools| == |h.pools| == |h.arrs| && h.heap.kind == TypeHeap && h.pools[k] in h.nodes
    ensures PoolMatches(h.pools[k], h.arrs[k], h.segs, h.nodes, pools[k])
    ensures h.pools[k].ptrs == h.arrs[k] && h.pools[k].PoolIs(pools[k])
    ensures forall j :: 0 <= j < |h.pools| && j != k ==> h.pools[j] != h.pools[k] && h.arrs[j] != h.arrs[k]
    ensures forall j :: 0 <= j < |h.pools| && j != k ==> PoolMatches(h.pools[j], h.arrs[j], h.segs, h.nodes, pools[j])
  {
  }

  lemma ColsApart(h: Shape, i: nat, j: nat)
    requires Owned(h) && Homes(h) && i < |h.segs| && j < |h.segs| && h.segs[i] != h.segs[j]
    ensures h.segs[j] !in h.cols[i]
    ensures forall x :: x in h.cols[j] ==> x !in h.cols[i] && x != h.segs[i] && x in h.nodes
  {
    forall x | x in h.cols[j] ensures x !in h.cols[i] {
      assert x.segHead == h.segs[j];
    }
  }

  /** Every created pool's fields and pointer array represent its abstract pool, and its
      segment head is the one its blocks came from. */
  ghost predicate PoolsMatch(h: Shape, pools: seq<Pool>)
    requires Owned(h)
    reads h.nodes`kind, h.nodes`addrStart, h.nodes`addrEnd, h.nodes`ptrsAddr, h.nodes`ptrs, h.nodes`poolSize,
          h.nodes`blkIx, h.nodes`blkNbr, h.nodes`blkSize, h.nodes`blkAlign, h.nodes`segHead, h.nodes`segAddr, h.arrs
  {
    && |pools| == |h.pools| && h.heap.kind == TypeHeap
    && forall k :: 0 <= k < |h.pools| ==> PoolMatches(h.pools[k], h.arrs[k], h.segs, h.nodes, pools[k])
  }

  ghost predicate PoolMatches(p: MemPool, arr: array<u32>, segs: seq<MemPool>, nodes: set<MemPool>, v: Pool)
    reads p`kind, p`addrStart, p`addrEnd, p`ptrsAddr, p`ptrs, p`poolSize, p`blkIx, p`blkNbr, p`blkSize, p`blkAlign,
          p`segHead, nodes`segAddr, arr
  {
    && p.ptrs == arr && p.PoolIs(v)
    && p.segHead != null && p.segHead in segs && p.segHead in nodes && p.segHead.segAddr == v.seg
  }

  /** The table right after Mem_Init. */
  lemma HeapAlone(h: Shape, x: MemPool)
    requires h == Shape(x, [x], [[]], [], [], {x})
    requires x.kind == TypeHeap && x.segHead == x && x.SegIs(Seg(x.segSizeTot, 0))
    requires x.segPrev == null && x.segNext == null && x.poolPrev == null && x.poolNext == null
    ensures Owned(h) && TableLinked(h, x) && ColsLinked(h) && Homes(h) && PoolsMatch(h, [])
    ensures SegsMatch(h, x.segAddr, map[x.segAddr := Seg(x.segSizeTot, 0)])
  {
  }

  ghost function WithSeg(st: State, b: nat, s: Seg): State {
    st.(segs := st.segs[b := s])
  }

  // ---------------------------------------------------------------- growing the table

  ghost function InsertedSeg(s: seq<MemPool>, i: nat, x: MemPool): seq<MemPool>
    requires i <= |s|
  {
    s[..i] + [x] + s[i..]
  }

  ghost function InsertedCol(s: seq<seq<MemPool>>, i: nat): seq<seq<MemPool>>
    requires i <= |s|
  {
    s[..i] + [[]] + s[i..]
  }

  /** The entries of the list and of the columns with one inserted. */
  lemma InsertedAt(s: seq<MemPool>, c: seq<seq<MemPool>>, i: nat, x: MemPool)
    requires i <= |s| == |c|
    ensures |InsertedSeg(s, i, x)| == |InsertedCol(c, i)| == |s| + 1
    ensures forall k {:trigger InsertedSeg(s, i, x)[k]} :: 0 <= k <= |s| ==>
      InsertedSeg(s, i, x)[k] == if k < i then s[k] else if k == i then x else s[k - 1]
    ensures forall k {:trigger InsertedCol(c, i)[k]} :: 0 <= k <= |s| ==>
      InsertedCol(c, i)[k] == if k < i then c[k] else if k == i then [] else c[k - 1]
  {
  }

  /** The table with `p` as a new segment at position `i`. */
  ghost function WithNewSeg(h: Shape, i: nat, p: MemPool, arr: array<u32>): Shape
    requires i <= |h.segs| == |h.cols|
  {
    Shape(h.heap, InsertedSeg(h.segs, i, p), InsertedCol(h.cols, i),
          h.pools + [p], h.arrs + [arr], h.nodes + {p})
  }

  /** The table with `p` in front of column `i`. */
  ghost function WithNewPool(h: Shape, i: nat, p: MemPool, arr: array<u32>): Shape
    requires i < |h.segs| == |h.cols|
  {
    h.(cols := h.cols[i := [p] + h.cols[i]], pools := h.pools + [p], arrs := h.arrs + [arr], nodes := h.nodes + {p})
  }

  /** Membership in the list and in the columns with one inserted. */
  lemma InsertedMembers(s: seq<MemPool>, c: seq<seq<MemPool>>, i: nat, x: MemPool)
    requires i <= |s| == |c|
    ensures forall y :: y in InsertedSeg(s, i, x) <==> y in s || y == x
    ensures forall y :: InSomeCol(InsertedCol(c, i), y) <==> InSomeCol(c, y)
  {
    hide InsertedSeg, InsertedCol;
    InsertedAt(s, c, i, x);
    forall y ensures y in InsertedSeg(s, i, x) <==> y in s || y == x {
      if y == x {
        assert InsertedSeg(s, i, x)[i] == x;
      } else if y in s {
        var j :| 0 <= j < |s| && s[j] == y;
        assert InsertedSeg(s, i, x)[if j < i then j else j + 1] == y;
      }
    }
    forall y ensures InSomeCol(InsertedCol(c, i), y) <==> InSomeCol(c, y) {
      if InSomeCol(c, y) {
        var j :| 0 <= j < |c| && y in c[j];
        assert y in InsertedCol(c, i)[if j < i then j else j + 1];
      }
    }
  }

  lemma OwnedWithSeg(h: Shape, i: nat, p: MemPool, arr: array<u32>)
    requires Owned(h) && i <= |h.segs| && p !in h.nodes && arr !in h.arrs
    ensures Owned(WithNewSeg(h, i, p, arr))
  {
    InsertedAt(h.segs, h.cols, i, p);
    HeadsWithSeg(h, i, p, arr);
    ColsWithSeg(h, i, p, arr);
    hide InsertedSeg, InsertedCol, HeadsOwned, ColsOwned;
    assert PoolsOwned(WithNewSeg(h, i, p, arr));
  }

  lemma HeadsWithSeg(h: Shape, i: nat, p: MemPool, arr: array<u32>)
    requires Owned(h) && i <= |h.segs| && p !in h.nodes && arr !in h.arrs
    ensures HeadsOwned(WithNewSeg(h, i, p, arr))
  {
    hide InsertedSeg, InsertedCol, PoolsOwned, ColsOwned;
    InsertedAt(h.segs, h.cols, i, p);
    InsertedMembers(h.segs, h.cols, i, p);
  }

  lemma ColsWithSeg(h: Shape, i: nat, p: MemPool, arr: array<u32>)
    requires Owned(h) && i <= |h.segs| && p !in h.nodes && arr !in h.arrs
    ensures ColsOwned(WithNewSeg(h, i, p, arr))
  {
    hide InsertedSeg, InsertedCol, InSomeCol, PoolsOwned, HeadsOwned;
    InsertedAt(h.segs, h.cols, i, p);
    InsertedMembers(h.segs, h.cols, i, p);
    var h' := WithNewSeg(h, i, p, arr);
    forall k, x | 0 <= k < |h'.cols| && x in h'.cols[k] ensures x in h'.nodes && x in h'.pools && x !in h'.segs {
      assert k != i && x in h.cols[if k < i then k else k - 1];
    }
  }

  lemma OwnedWithPool(h: Shape, i: nat, p: MemPool, arr: array<u32>)
    requires Owned(h) && i < |h.segs| && p !in h.nodes && arr !in h.arrs
    ensures Owned(WithNewPool(h, i, p, arr))
  {
    var h' := WithNewPool(h, i, p, arr);
    assert HeadsOwned(h') && PoolsOwned(h');
    forall k | 0 <= k < |h'.pools| ensures h'.pools[k] in h'.segs || InSomeCol(h'.cols, h'.pools[k]) {
      if k < |h.pools| && h.pools[k] !in h.segs {
        var j :| 0 <= j < |h.cols| && h.pools[k] in h.cols[j];
        assert h.pools[k] in h'.cols[j];
      } else if k == |h.pools| {
        assert p in h'.cols[i];
      }
    }
  }

  lemma TableLinkedWithSeg(h: Shape, i: nat, p: MemPool, arr: array<u32>, tbl: MemPool?)
    requires Owned(h) && i <= |h.segs| && p !in h.nodes && arr !in h.arrs && |h.segs| > 0
    requires AscendingSegs(h.segs) && SplitAt(h.segs, p.segAddr, i)
    requires PrevLinked(InsertedSeg(h.segs, i, p)) && NextLinked(InsertedSeg(h.segs, i, p))
    requires tbl == if i == 0 then p else h.segs[0]
    ensures Owned(WithNewSeg(h, i, p, arr)) && TableLinked(WithNewSeg(h, i, p, arr), tbl)
  {
    OwnedWithSeg(h, i, p, arr);
    assert |h.cols| == |h.segs|;
    hide Owned, InsertedSeg, InsertedCol, PrevLinked, NextLinked;
    InsertedAt(h.segs, h.cols, i, p);
  }

  lemma SegsListedWithSeg(h: Shape, i: nat, p: MemPool, arr: array<u32>, heapAddr: nat, bases: set<nat>)
    requires Owned(h) && i <= |h.segs| && p !in h.nodes && arr !in h.arrs
    requires SegsListed(h, heapAddr, bases)
    ensures Owned(WithNewSeg(h, i, p, arr))
    ensures SegsListed(WithNewSeg(h, i, p, arr), heapAddr, bases + {p.segAddr})
  {
    OwnedWithSeg(h, i, p, arr);
    assert |h.cols| == |h.segs|;
    hide InsertedSeg, InsertedCol, Owned;
    InsertedAt(h.segs, h.cols, i, p);
    var h' := WithNewSeg(h, i, p, arr);
    assert h'.segs[i] == p;
    forall b | b in bases ensures exists j :: 0 <= j < |h'.segs| && h'.segs[j].segAddr == b {
      var j :| 0 <= j < |h.segs| && h.segs[j].segAddr == b;
      assert h'.segs[if j < i then j else j + 1].segAddr == b;
    }
  }

  lemma SegsFilledWithSeg(h: Shape, i: nat, p: MemPool, arr: array<u32>, segs: map<nat, Seg>, s: Seg)
    requires Owned(h) && i <= |h.segs| == |h.cols| && Owned(WithNewSeg(h, i, p, arr))
    requires SegsFilled(h, segs) && p.SegIs(s) && p.segAddr !in segs
    requires forall x :: x in h.segs ==> x.segAddr in segs
    ensures SegsFilled(WithNewSeg(h, i, p, arr), segs[p.segAddr := s])
  {
    hide MemPool.SegIs, InsertedSeg, InsertedCol, InSomeCol, Owned;
    InsertedAt(h.segs, h.cols, i, p);
    var h', segs' := WithNewSeg(h, i, p, arr), segs[p.segAddr := s];
    forall x | x in h'.segs && x.segAddr in segs' ensures x.SegIs(segs'[x.segAddr]) {
      var j :| 0 <= j < |h'.segs| && h'.segs[j] == x;
      assert x == p || x in h.segs;
    }
  }

  lemma SegsMatchWithSeg(h: Shape, i: nat, p: MemPool, arr: array<u32>, heapAddr: nat, segs: map<nat, Seg>, s: Seg)
    requires Owned(h) && i <= |h.segs| && p !in h.nodes && arr !in h.arrs
    requires SegsMatch(h, heapAddr, segs) && p.SegIs(s) && p.segAddr !in segs
    ensures Owned(WithNewSeg(h, i, p, arr))
    ensures SegsMatch(WithNewSeg(h, i, p, arr), heapAddr, segs[p.segAddr := s])
  {
    hide MemPool.SegIs, InsertedSeg, InsertedCol, InSomeCol, Owned, SegsFilled, SegsListed;
    SegsListedWithSeg(h, i, p, arr, heapAddr, segs.Keys);
    ListedBases(h, heapAddr, segs.Keys);
    SegsFilledWithSeg(h, i, p, arr, segs, s);
    assert segs[p.segAddr := s].Keys == segs.Keys + {p.segAddr};
  }

  lemma ListedBases(h: Shape, heapAddr: nat, bases: set<nat>)
    requires Owned(h) && SegsListed(h, heapAddr, bases)
    ensures |h.cols| == |h.segs| && forall x :: x in h.segs ==> x.segAddr in bases
  {
  }

  lemma ColsLinkedWithSeg(h: Shape, i: nat, p: MemPool, arr: array<u32>)
    requires Owned(h) && i <= |h.segs| && p !in h.nodes && arr !in h.arrs
    requires ColsLinked(h) && p.poolPrev == null && p.poolNext == null
    ensures Owned(WithNewSeg(h, i, p, arr)) && ColsLinked(WithNewSeg(h, i, p, arr))
  {
    OwnedWithSeg(h, i, p, arr);
    var h' := WithNewSeg(h, i, p, arr);
    assert |h.cols| == |h.segs| && ColLinked(p, []);
    hide Owned, ColLinked, InsertedSeg, InsertedCol;
    InsertedAt(h.segs, h.cols, i, p);
    forall k | 0 <= k < |h'.segs| ensures ColLinked(h'.segs[k], h'.cols[k]) {
      if k < i {
        assert ColLinked(h.segs[k], h.cols[k]);
      } else if k > i {
        assert ColLinked(h.segs[k - 1], h.cols[k - 1]);
      }
    }
  }

  lemma HomesWithSeg(h: Shape, i: nat, p: MemPool, arr: array<u32>)
    requires Owned(h) && i <= |h.segs| && p !in h.nodes && arr !in h.arrs
    requires Homes(h) && p.segHead == p
    ensures Owned(WithNewSeg(h, i, p, arr)) && Homes(WithNewSeg(h, i, p, arr))
  {
    OwnedWithSeg(h, i, p, arr);
    assert |h.cols| == |h.segs|;
    hide Owned, InsertedSeg, InsertedCol;
    InsertedAt(h.segs, h.cols, i, p);
  }

  lemma PoolsMatchWithSeg(h: Shape, i: nat, p: MemPool, arr: array<u32>, pools: seq<Pool>, v: Pool)
    requires Owned(h) && i <= |h.segs| && p !in h.nodes && arr !in h.arrs
    requires PoolsMatch(h, pools) && p.PoolIs(v) && p.ptrs == arr && p.segHead == p && p.segAddr == v.seg
    ensures Owned(WithNewSeg(h, i, p, arr)) && PoolsMatch(WithNewSeg(h, i, p, arr), pools + [v])
  {
    OwnedWithSeg(h, i, p, arr);
    assert |h.arrs| == |h.pools| && |h.cols| == |h.segs|;
    hide MemPool.PoolIs, InsertedSeg, InsertedCol, Owned;
    InsertedMembers(h.segs, h.cols, i, p);
    hide InSomeCol;
    var h' := WithNewSeg(h, i, p, arr);
    forall k | 0 <= k < |h'.pools|
      ensures PoolMatches(h'.pools[k], h'.arrs[k], h'.segs, h'.nodes, (pools + [v])[k])
    {
      if k < |h.pools| {
        assert PoolMatches(h.pools[k], h.arrs[k], h.segs, h.nodes, pools[k]);
      }
    }
  }

  lemma HomesWithPool(h: Shape, i: nat, p: MemPool, arr: array<u32>)
    requires Owned(h) && i < |h.segs| && p !in h.nodes && arr !in h.arrs
    requires Homes(h) && p.segHead == h.segs[i] && p.segAddr == 0
    ensures Owned(WithNewPool(h, i, p, arr)) && Homes(WithNewPool(h, i, p, arr))
  {
    OwnedWithPool(h, i, p, arr);
  }

  lemma TableLinkedWithPool(h: Shape, i: nat, p: MemPool, arr: array<u32>, tbl: MemPool?,
                            heapAddr: nat, segs: map<nat, Seg>)
    requires Owned(h) && i < |h.segs| && p !in h.nodes && arr !in h.arrs
    requires TableLinked(h, tbl) && SegsMatch(h, heapAddr, segs)
    ensures Owned(WithNewPool(h, i, p, arr))
    ensures TableLinked(WithNewPool(h, i, p, arr), tbl) && SegsMatch(WithNewPool(h, i, p, arr), heapAddr, segs)
  {
    OwnedWithPool(h, i, p, arr);
    hide Owned;
  }

  lemma PoolsMatchWithPool(h: Shape, i: nat, p: MemPool, arr: array<u32>, pools: seq<Pool>, v: Pool)
    requires Owned(h) && i < |h.segs| && p !in h.nodes && arr !in h.arrs
    requires PoolsMatch(h, pools) && p.PoolIs(v) && p.ptrs == arr
    requires p.segHead == h.segs[i] && h.segs[i].segAddr == v.seg
    ensures Owned(WithNewPool(h, i, p, arr)) && PoolsMatch(WithNewPool(h, i, p, arr), pools + [v])
  {
    hide MemPool.PoolIs;
    OwnedWithPool(h, i, p, arr);
    var h' := WithNewPool(h, i, p, arr);
    forall k | 0 <= k < |h'.pools|
      ensures PoolMatches(h'.pools[k], h'.arrs[k], h'.segs, h'.nodes, (pools + [v])[k])
    {
      if k < |h.pools| {
        assert PoolMatches(h.pools[k], h.arrs[k], h.segs, h.nodes, pools[k]);
      }
    }
  }
}
