/** The buffer routines of lib_mem.c on memory as an array of octets. The index of an octet
    is its address, and address 0 is the null pointer. Words are read and written at
    aligned addresses only. */
module Buffers {
  import opened Word32
  import opened Octets

  /** LIB_MEM_CFG_ARG_CHK_EXT_EN, and the octets of a CPU_ALIGN word. */
  datatype Config = Config(chk: bool, word: nat)

  predicate ConfigOk(c: Config) {
    1 <= c.word <= 128
  }

  predicate IsMem(m: seq<octet>) {
    |m| <= W
  }

  /** A buffer lies in memory; a checked null pointer need not. */
  predicate BufOk(c: Config, m: seq<octet>, p: nat, size: nat) {
    size < W && p < W && ((c.chk && p == 0) || p + size <= |m|)
  }

  // ---------------------------------------------------------------- words

  function LoadWord(mem: array<octet>, a: nat, n: nat): nat
    requires n > 0 && a + n <= mem.Length && Aligned(a, n)
    reads mem
  {
    ValueLE(mem[a..a + n])
  }

  method StoreWord(mem: array<octet>, a: nat, n: nat, w: nat)
    requires n > 0 && a + n <= mem.Length && Aligned(a, n)
    modifies mem
    ensures mem[..] == Patched(old(mem[..]), a, OctetsLE(w, n))
  {
    var octets := OctetsLE(w, n);
    forall i | 0 <= i < n {
      mem[a + i] := octets[i];
    }
  }

  method StoreOctet(mem: array<octet>, a: nat, v: octet)
    requires a < mem.Length
    modifies mem
    ensures mem[..] == Patched(old(mem[..]), a, [v]) == old(mem[..])[a := v]
  {
    mem[a] := v;
  }

  /** Copies one word between aligned addresses. */
  method CopyWord(mem: array<octet>, d: nat, s: nat, n: nat)
    requires n > 0 && d + n <= mem.Length && s + n <= mem.Length && Aligned(d, n) && Aligned(s, n)
    modifies mem
    ensures mem[..] == Patched(old(mem[..]), d, old(mem[s..s + n]))
  {
    ValueThenOctets(mem[s..s + n]);
    var w := LoadWord(mem, s, n);
    StoreWord(mem, d, n, w);
  }

  /** The octets up to the next boundary. */
  lemma {:induction false} NextBoundary(a: nat, n: nat, k: nat)
    requires n > 0 && k == n - Mod(a, n)
    ensures Aligned(a + k, n)
    decreases a
  {
    if a < n {
    } else {
      NextBoundary(a - n, n, k);
      ModShift(n, a - n + k, n);
    }
  }

  lemma ModSelf(n: nat, k: nat)
    requires n > 0
    ensures Aligned(n, n) && Mod(n + k, n) == Mod(k, n)
  {
  }

  /** Addresses with the same offset are a whole number of words apart. */
  lemma {:induction false} SameOffset(a: nat, b: nat, n: nat)
    requires n > 0 && Mod(a, n) == Mod(b, n) && a < b
    ensures a + n <= b
    decreases a
  {
    if a < n {
    } else {
      SameOffset(a - n, b - n, n);
    }
  }

  // ---------------------------------------------------------------- Mem_Set

  function Repeat(v: octet, n: nat): (s: seq<octet>)
    ensures |s| == n && forall i :: 0 <= i < n ==> s[i] == v
  {
    seq(n, i => v)
  }

  /** The memory with `k` octets of `v` written at `p`. */
  function Filled(m: seq<octet>, p: nat, v: octet, k: nat): (r: seq<octet>)
    requires p + k <= |m|
    ensures |r| == |m|
  {
    Patched(m, p, Repeat(v, k))
  }

  lemma FillMore(m: seq<octet>, p: nat, v: octet, k: nat, j: nat)
    requires p + k + j <= |m|
    ensures Filled(m, p, v, k + j) == Patched(Filled(m, p, v, k), p + k, Repeat(v, j))
    ensures Repeat(v, 1) == [v]
  {
  }

  /** Every octet of a fill. */
  lemma FilledAt(m: seq<octet>, p: nat, v: octet, k: nat, a: nat)
    requires p + k <= |m| && a < |m|
    ensures Filled(m, p, v, k)[a] == if p <= a < p + k then v else m[a]
  {
  }

  lemma FillNone(m: seq<octet>, p: nat, v: octet)
    requires p <= |m|
    ensures Filled(m, p, v, 0) == m
  {
  }

  /** The word whose octets are all `v`. */
  method FillWord(v: octet, n: nat) returns (w: nat)
    ensures OctetsLE(w, n) == Repeat(v, n)
  {
    w := 0;
    var i := 0;
    while i < n
      invariant i <= n && w == ValueLE(Repeat(v, i))
    {
      assert Repeat(v, i + 1)[1..] == Repeat(v, i);
      w := w * 256 + v;
      i := i + 1;
    }
    ValueThenOctets(Repeat(v, n));
  }

  /** Mem_Set fills exactly the `size` octets. */
  method MemSet(c: Config, mem: array<octet>, pmem: nat, v: octet, size: nat)
    requires ConfigOk(c) && BufOk(c, mem[..], pmem, size)
    modifies mem
    ensures mem[..] ==
      if c.chk && (size < 1 || pmem == 0) then old(mem[..]) else Filled(old(mem[..]), pmem, v, size)
  {
    hide Patched, Filled, Mod, Repeat;
    if c.chk {
      if size < 1 || pmem == 0 {
        return;
      }
    }
    FillNone(mem[..], pmem, v);
    ghost var m := mem[..];
    var n := c.word;
    var w := FillWord(v, n);
    var rem: nat := size;
    var p := pmem;
    var mod := Mod(pmem, n);
    if mod != 0 {
      var i := mod;
      while rem > 0 && i < n
        invariant rem <= size && p == pmem + (size - rem) && mod <= i <= n && i - mod == size - rem
        invariant mem[..] == Filled(m, pmem, v, size - rem)
      {
        FillMore(m, pmem, v, size - rem, 1);
        StoreOctet(mem, p, v);
        p := p + 1;
        rem := rem - 1;
        i := i + 1;
      }
      NextBoundary(pmem, n, n - mod);
    }
    while rem >= n
      invariant rem <= size && p == pmem + (size - rem) && (rem > 0 ==> Aligned(p, n))
      invariant mem[..] == Filled(m, pmem, v, size - rem)
    {
      FillMore(m, pmem, v, size - rem, n);
      StoreWord(mem, p, n, w);
      ModSelf(n, p);
      p := p + n;
      rem := rem - n;
    }
    while rem > 0
      invariant rem <= size && p == pmem + (size - rem)
      invariant mem[..] == Filled(m, pmem, v, size - rem)
    {
      FillMore(m, pmem, v, size - rem, 1);
      StoreOctet(mem, p, v);
      p := p + 1;
      rem := rem - 1;
    }
  }

  // ---------------------------------------------------------------- Mem_Copy

  /** The octet-by-octet copy, lowest address first. */
  function CopyFwd(m: seq<octet>, d: nat, s: nat, size: nat): (r: seq<octet>)
    requires d + size <= |m| && s + size <= |m|
    ensures |r| == |m|
  {
    if size == 0 then m
    else
      var r := CopyFwd(m, d, s, size - 1);
      r[d + size - 1 := r[s + size - 1]]
  }

  /** The memory with the old contents of the source at the destination. */
  function Moved(m: seq<octet>, d: nat, s: nat, size: nat): (r: seq<octet>)
    requires d + size <= |m| && s + size <= |m|
    ensures |r| == |m|
  {
    Patched(m, d, m[s..s + size])
  }

  lemma {:induction false} CopyFwdSplit(m: seq<octet>, d: nat, s: nat, k: nat, j: nat)
    requires d + k + j <= |m| && s + k + j <= |m|
    ensures CopyFwd(m, d, s, k + j) == CopyFwd(CopyFwd(m, d, s, k), d + k, s + k, j)
  {
    if j == 0 {
    } else {
      CopyFwdSplit(m, d, s, k, j - 1);
    }
  }

  /** One octet more of a move, when the destination does not start inside the source. */
  lemma MovedUp(m: seq<octet>, d: nat, s: nat, size: nat)
    requires d + size + 1 <= |m| && s + size + 1 <= |m| && !(s < d <= s + size)
    ensures
      var now := Moved(m, d, s, size);
      Moved(m, d, s, size + 1) == now[d + size := now[s + size]]
  {
    assert m[s..s + size + 1] == m[s..s + size] + [m[s + size]];
  }

  /** The copy delivers the old contents of the source unless the destination starts
      inside the source. */
  lemma {:induction false} CopyFwdMoves(m: seq<octet>, d: nat, s: nat, size: nat)
    requires d + size <= |m| && s + size <= |m| && !(s < d < s + size)
    ensures CopyFwd(m, d, s, size) == Moved(m, d, s, size)
  {
    hide Moved;
    if size == 0 {
      MovedNone(m, d, s);
    } else {
      CopyFwdMoves(m, d, s, size - 1);
      MovedUp(m, d, s, size - 1);
    }
  }

  /** When the destination starts `d - s` octets inside the source, the first `d - s`
      octets are repeated over the destination. */
  lemma {:induction false} CopyFwdRepeats(m: seq<octet>, d: nat, s: nat, size: nat, i: nat)
    requires d + size <= |m| && s + size <= |m| && s < d && i < size
    ensures CopyFwd(m, d, s, size)[d + i] == m[s + Mod(i, d - s)]
    decreases size, i
  {
    if i < size - 1 {
      CopyFwdRepeats(m, d, s, size - 1, i);
    } else if i >= d - s {
      CopyFwdRepeats(m, d, s, size - 1, i - (d - s));
    } else {
      CopyFwdBelow(m, d, s, size - 1, s + i);
    }
  }

  lemma {:induction false} CopyFwdBelow(m: seq<octet>, d: nat, s: nat, size: nat, a: nat)
    requires d + size <= |m| && s + size <= |m| && a < |m| && !(d <= a < d + size)
    ensures CopyFwd(m, d, s, size)[a] == m[a]
  {
    if size == 0 {
    } else {
      CopyFwdBelow(m, d, s, size - 1, a);
    }
  }

  /** Exactly which copies are right whatever the memory holds. */
  lemma CopyFwdExact(len: nat, d: nat, s: nat, size: nat)
    requires d + size <= len && s + size <= len
    ensures (forall m: seq<octet> :: |m| == len ==> CopyFwd(m, d, s, size) == Moved(m, d, s, size))
            <==> !(s < d < s + size)
  {
    hide Patched;
    if s < d < s + size {
      SmearedMemory(len, d, s, size);
    } else {
      forall m: seq<octet> | |m| == len ensures CopyFwd(m, d, s, size) == Moved(m, d, s, size) {
        CopyFwdMoves(m, d, s, size);
      }
    }
  }

  lemma SmearedMemory(len: nat, d: nat, s: nat, size: nat)
    requires d + size <= len && s < d < s + size
    ensures exists m: seq<octet> :: |m| == len && CopyFwd(m, d, s, size) != Moved(m, d, s, size)
  {
    hide Patched, Mod, CopyFwd;
    var m := Repeat(0, len)[s := 1];
    CopyFwdRepeats(m, d, s, size, d - s);
    ModSame(d - s);
    MovedAt(m, d, s, size, d + (d - s));
    assert CopyFwd(m, d, s, size)[d + (d - s)] != Moved(m, d, s, size)[d + (d - s)];
  }

  lemma ModSame(n: nat)
    requires n > 0
    ensures Mod(n, n) == 0
  {
  }

  /** Every octet of a move. */
  lemma MovedAt(m: seq<octet>, d: nat, s: nat, size: nat, a: nat)
    requires d + size <= |m| && s + size <= |m| && a < |m|
    ensures Moved(m, d, s, size)[a] == if d <= a < d + size then m[s + (a - d)] else m[a]
  {
  }

  /** A word copy is as good as octet copies: words at a distance do not overlap. */
  lemma CopyFwdBlock(m: seq<octet>, d: nat, s: nat, k: nat, j: nat)
    requires d + k + j <= |m| && s + k + j <= |m| && (d + j <= s || s + j <= d)
    ensures
      var r := CopyFwd(m, d, s, k);
      CopyFwd(m, d, s, k + j) == Patched(r, d + k, r[s + k..s + k + j])
  {
    CopyFwdSplit(m, d, s, k, j);
    CopyFwdMoves(CopyFwd(m, d, s, k), d + k, s + k, j);
  }

  /** One octet copied; the addresses may coincide. */
  lemma CopyFwdStep(m: seq<octet>, d: nat, s: nat, k: nat)
    requires d + k + 1 <= |m| && s + k + 1 <= |m|
    ensures
      var r := CopyFwd(m, d, s, k);
      CopyFwd(m, d, s, k + 1) == r[d + k := r[s + k]]
  {
  }

  /** Both addresses of a copy that goes by words are at word distance. */
  lemma WordDistance(d: nat, s: nat, n: nat)
    requires n > 0 && d < W && s < W && Mod(d, n) == Mod(s, n) && (s - d) % W >= n
    ensures d + n <= s || s + n <= d
  {
    if d < s {
      SameOffset(d, s, n);
    } else if s < d {
      SameOffset(s, d, n);
    }
  }

  /** The part of Mem_Copy for buffers of the same offset: leading octets, then words. */
  method CopyAligned(mem: array<octet>, n: nat, pdest: nat, psrc: nat, size: nat, ghost m: seq<octet>)
    returns (d: nat, s: nat, rem: nat)
    requires n > 0 && pdest + size <= mem.Length && psrc + size <= mem.Length && m == mem[..]
    requires Mod(pdest, n) == Mod(psrc, n) && (pdest + n <= psrc || psrc + n <= pdest)
    modifies mem
    ensures rem <= size && d == pdest + (size - rem) && s == psrc + (size - rem)
    ensures mem[..] == CopyFwd(m, pdest, psrc, size - rem)
  {
    hide Patched, Mod, CopyFwd;
    CopyFwdNone(m, pdest, psrc);
    rem := size;
    d, s := pdest, psrc;
    var mod := Mod(d, n);
    if mod != 0 {
      var i := mod;
      while rem > 0 && i < n
        invariant rem <= size && d == pdest + (size - rem) && s == psrc + (size - rem)
        invariant mod <= i <= n && i - mod == size - rem
        invariant mem[..] == CopyFwd(m, pdest, psrc, size - rem)
      {
        CopyFwdStep(m, pdest, psrc, size - rem);
        StoreOctet(mem, d, mem[s]);
        d, s := d + 1, s + 1;
        rem := rem - 1;
        i := i + 1;
      }
      NextBoundary(pdest, n, n - mod);
      NextBoundary(psrc, n, n - mod);
    }
    while rem >= n
      invariant rem <= size && d == pdest + (size - rem) && s == psrc + (size - rem)
      invariant rem > 0 ==> Aligned(d, n) && Aligned(s, n)
      invariant mem[..] == CopyFwd(m, pdest, psrc, size - rem)
    {
      CopyFwdBlock(m, pdest, psrc, size - rem, n);
      CopyWord(mem, d, s, n);
      ModSelf(n, d);
      ModSelf(n, s);
      d, s := d + n, s + n;
      rem := rem - n;
    }
  }

  /** Mem_Copy is the octet-by-octet copy from the lowest address, for every alignment
      and every overlap. */
  method MemCopy(c: Config, mem: array<octet>, pdest: nat, psrc: nat, size: nat)
    requires ConfigOk(c) && IsMem(mem[..]) && BufOk(c, mem[..], pdest, size) && BufOk(c, mem[..], psrc, size)
    modifies mem
    ensures !c.chk || (size > 0 && pdest != 0 && psrc != 0) ==>
              pdest + size <= mem.Length && psrc + size <= mem.Length
              && mem[..] == CopyFwd(old(mem[..]), pdest, psrc, size)
    ensures c.chk && (size == 0 || pdest == 0 || psrc == 0) ==> mem[..] == old(mem[..])
  {
    hide Patched, Mod, CopyFwd;
    if c.chk {
      if size < 1 || pdest == 0 || psrc == 0 {
        return;
      }
    }
    ghost var m := mem[..];
    CopyFwdNone(m, pdest, psrc);
    var n := c.word;
    var rem: nat := size;
    var d, s := pdest, psrc;
    var gap := (psrc - pdest) % W;
    if gap >= n && Mod(d, n) == Mod(s, n) {
      WordDistance(d, s, n);
      d, s, rem := CopyAligned(mem, n, pdest, psrc, size, m);
    }
    while rem > 0
      invariant rem <= size && d == pdest + (size - rem) && s == psrc + (size - rem)
      invariant mem[..] == CopyFwd(m, pdest, psrc, size - rem)
    {
      CopyFwdStep(m, pdest, psrc, size - rem);
      StoreOctet(mem, d, mem[s]);
      d, s := d + 1, s + 1;
      rem := rem - 1;
    }
  }

  lemma CopyFwdNone(m: seq<octet>, d: nat, s: nat)
    requires d <= |m| && s <= |m|
    ensures CopyFwd(m, d, s, 0) == m
  {
  }

  // ---------------------------------------------------------------- Mem_Move

  /** The upper part of a move that is still to do `r` octets, with the source not above
      the destination: `j` more octets from the top. */
  lemma MovedMore(m: seq<octet>, d: nat, s: nat, size: nat, r: nat, j: nat)
    requires d + size <= |m| && s <= d && j <= r <= size
    ensures
      var now := Moved(m, d + r, s + r, size - r);
      && Moved(m, d + (r - j), s + (r - j), size - (r - j)) == Patched(now, d + (r - j), now[s + (r - j)..s + r])
      && (j == 1 ==> now[s + (r - j)..s + r] == [now[s + r - 1]])
  {
    var now := Moved(m, d + r, s + r, size - r);
    var d', s' := d + (r - j), s + (r - j);
    var part := now[s'..s + r];
    assert part == m[s'..s + r];
    assert m[s'..s + size] == part + m[s + r..s + size];
    MovedParts(m, d', j, d + r, m[s + r..s + size], part);
  }

  /** Writing `part` directly in front of what has been written. */
  lemma MovedParts(m: seq<octet>, a: nat, j: nat, b: nat, tail: seq<octet>, part: seq<octet>)
    requires |part| == j && a + j == b && b + |tail| <= |m|
    ensures Patched(m, a, part + tail) == Patched(Patched(m, b, tail), a, part)
  {
  }

  lemma MovedNone(m: seq<octet>, d: nat, s: nat)
    requires d <= |m| && s <= |m|
    ensures Moved(m, d, s, 0) == m
  {
  }

  /** The first and the one past the last octet of the word of an address. */
  lemma WordEnd(a: nat, n: nat)
    requires n > 0
    ensures Aligned(a - Mod(a, n), n)
    ensures Mod(a, n) == n - 1 ==> Aligned(a + 1, n)
  {
    ModMinus(a, n);
    if Mod(a, n) == n - 1 {
      NextBoundary(a, n, 1);
    }
  }

  /** The part of Mem_Move for buffers of the same offset: trailing octets, then words,
      from the top. `d` and `s` are the last octets still to do. */
  method MoveAligned(mem: array<octet>, n: nat, pdest: nat, psrc: nat, size: nat, mod: nat, ghost m: seq<octet>)
    returns (d: int, s: int, rem: nat)
    requires n > 0 && psrc <= pdest && pdest + size <= mem.Length <= W && m == mem[..]
    requires mod < n && (size > 0 ==> mod == Mod(pdest + size - 1, n) == Mod(psrc + size - 1, n))
    modifies mem
    ensures rem <= size && d == pdest + rem - 1 && s == psrc + rem - 1
    ensures mem[..] == Moved(m, pdest + rem, psrc + rem, size - rem)
  {
    hide Patched, Mod, Moved;
    MovedNone(m, pdest + size, psrc + size);
    rem := size;
    d, s := pdest + size - 1, psrc + size - 1;
    if size > 0 {
      WordEnd(d, n);
      WordEnd(s, n);
    }
    if mod != n - 1 {
      var i: int := mod;
      while rem > 0 && i >= 0
        invariant rem <= size && d == pdest + rem - 1 && s == psrc + rem - 1
        invariant -1 <= i <= mod && mod - i == size - rem
        invariant mem[..] == Moved(m, pdest + rem, psrc + rem, size - rem)
      {
        MovedMore(m, pdest, psrc, size, rem, 1);
        StoreOctet(mem, d, mem[s]);
        d, s := d - 1, s - 1;
        rem := rem - 1;
        i := i - 1;
      }
    }
    while rem >= n
      invariant rem <= size && d == pdest + rem - 1 && s == psrc + rem - 1
      invariant rem > 0 ==> Aligned(d + 1, n) && Aligned(s + 1, n)
      invariant mem[..] == Moved(m, pdest + rem, psrc + rem, size - rem)
    {
      MovedMore(m, pdest, psrc, size, rem, n);
      ModSelf(n, d - n + 1);
      ModSelf(n, s - n + 1);
      CopyWord(mem, d - n + 1, s - n + 1, n);
      d, s := d - n, s - n;
      rem := rem - n;
    }
  }

  /** Mem_Move delivers the old contents of the source for every size and every overlap,
      and changes nothing else. */
  method MemMove(c: Config, mem: array<octet>, pdest: nat, psrc: nat, size: nat)
    requires ConfigOk(c) && IsMem(mem[..]) && BufOk(c, mem[..], pdest, size) && BufOk(c, mem[..], psrc, size)
    modifies mem
    ensures !c.chk || (size > 0 && pdest != 0 && psrc != 0) ==>
              pdest + size <= mem.Length && psrc + size <= mem.Length
              && mem[..] == Moved(old(mem[..]), pdest, psrc, size)
    ensures c.chk && (size == 0 || pdest == 0 || psrc == 0) ==> mem[..] == old(mem[..])
  {
    hide Patched, Mod, CopyFwd, Moved;
    if c.chk {
      if size < 1 || pdest == 0 || psrc == 0 {
        return;
      }
    }
    ghost var m := mem[..];
    if psrc > pdest {
      CopyFwdMoves(m, pdest, psrc, size);
      MemCopy(c, mem, pdest, psrc, size);
      return;
    }
    MovedNone(m, pdest + size, psrc + size);
    var n := c.word;
    var rem: nat := size;
    var d: int, s: int := pdest + size - 1, psrc + size - 1;
    var gap := (d - s) % W;
    if gap >= n && Mod(d % W, n) == Mod(s % W, n) {
      d, s, rem := MoveAligned(mem, n, pdest, psrc, size, Mod(d % W, n), m);
    }
    while rem > 0
      invariant rem <= size && d == pdest + rem - 1 && s == psrc + rem - 1
      invariant mem[..] == Moved(m, pdest + rem, psrc + rem, size - rem)
    {
      MovedMore(m, pdest, psrc, size, rem, 1);
      StoreOctet(mem, d, mem[s]);
      d, s := d - 1, s - 1;
      rem := rem - 1;
    }
  }

  // ---------------------------------------------------------------- Mem_Cmp

  predicate Same(m: seq<octet>, q1: nat, q2: nat, len: nat)
    requires q1 + len <= |m| && q2 + len <= |m|
  {
    m[q1..q1 + len] == m[q2..q2 + len]
  }

  lemma SameNone(m: seq<octet>, q1: nat, q2: nat)
    requires q1 <= |m| && q2 <= |m|
    ensures Same(m, q1, q2, 0)
  {
  }

  /** The compared tails with `k` more octets in front. */
  lemma SameMore(m: seq<octet>, q1: nat, q2: nat, k: nat, len: nat)
    requires q1 + k + len <= |m| && q2 + k + len <= |m|
    ensures Same(m, q1, q2, k + len) <==> Same(m, q1, q2, k) && Same(m, q1 + k, q2 + k, len)
    ensures k == 1 ==> (Same(m, q1, q2, k) <==> m[q1] == m[q2])
  {
    SliceSplit(m, q1, k, len);
    SliceSplit(m, q2, k, len);
    SameParts(m[q1..q1 + k], m[q1 + k..q1 + k + len], m[q2..q2 + k], m[q2 + k..q2 + k + len]);
    if k == 1 {
      SliceOne(m, q1, k);
      SliceOne(m, q2, k);
    }
  }

  lemma SliceOne(m: seq<octet>, q: nat, k: nat)
    requires q + k <= |m| && k == 1
    ensures m[q..q + k] == [m[q]]
  {
  }

  lemma SliceSplit(m: seq<octet>, q: nat, k: nat, len: nat)
    requires q + k + len <= |m|
    ensures m[q..q + (k + len)] == m[q..q + k] + m[q + k..q + k + len]
  {
  }

  lemma SameParts(a: seq<octet>, b: seq<octet>, c: seq<octet>, d: seq<octet>)
    requires |a| == |c| && |b| == |d|
    ensures a + b == c + d <==> a == c && b == d
  {
    if a + b == c + d {
      assert a == (a + b)[..|a|] && c == (c + d)[..|a|];
      assert b == (a + b)[|a|..] && d == (c + d)[|a|..];
    }
  }

  method SameWord(mem: array<octet>, q1: nat, q2: nat, n: nat) returns (same: bool)
    requires n > 0 && q1 + n <= mem.Length && q2 + n <= mem.Length && Aligned(q1, n) && Aligned(q2, n)
    ensures same <==> Same(mem[..], q1, q2, n)
  {
    ValueInjective(mem[q1..q1 + n], mem[q2..q2 + n]);
    same := LoadWord(mem, q1, n) == LoadWord(mem, q2, n);
  }

  /** The part of Mem_Cmp for buffers whose ends have the same offset: trailing octets,
      then words, from the end. */
  method CmpAligned(mem: array<octet>, n: nat, p1: nat, p2: nat, size: nat)
    returns (same: bool, q1: nat, q2: nat, rem: nat)
    requires n > 0 && p1 + size <= mem.Length && p2 + size <= mem.Length
    requires Mod(p1 + size, n) == Mod(p2 + size, n)
    ensures rem <= size && q1 == p1 + rem && q2 == p2 + rem
    ensures same <==> Same(mem[..], q1, q2, size - rem)
  {
    hide Mod, Same;
    SameNone(mem[..], p1 + size, p2 + size);
    same := true;
    rem := size;
    q1, q2 := p1 + size, p2 + size;
    ModMinus(q1, n);
    ModMinus(q2, n);
    var mod := Mod(q1, n);
    var i := mod;
    while same && rem > 0 && i > 0
      invariant rem <= size && q1 == p1 + rem && q2 == p2 + rem && i <= mod && mod - i == size - rem
      invariant same <==> Same(mem[..], q1, q2, size - rem)
      decreases i
    {
      q1, q2 := q1 - 1, q2 - 1;
      SameMore(mem[..], q1, q2, 1, size - rem);
      if mem[q1] != mem[q2] {
        same := false;
      }
      rem := rem - 1;
      i := i - 1;
    }
    while same && rem >= n
      invariant rem <= size && q1 == p1 + rem && q2 == p2 + rem
      invariant same && rem > 0 ==> Aligned(q1, n) && Aligned(q2, n)
      invariant same <==> Same(mem[..], q1, q2, size - rem)
      decreases rem
    {
      q1, q2 := q1 - n, q2 - n;
      ModSelf(n, q1);
      ModSelf(n, q2);
      SameMore(mem[..], q1, q2, n, size - rem);
      same := SameWord(mem, q1, q2, n);
      rem := rem - n;
    }
  }

  /** Mem_Cmp answers yes exactly if all octets are equal. */
  method MemCmp(c: Config, mem: array<octet>, p1: nat, p2: nat, size: nat) returns (same: bool)
    requires ConfigOk(c) && size < W
    requires p1 != 0 && p2 != 0 ==> p1 + size <= mem.Length && p2 + size <= mem.Length
    ensures same <==> size < 1 || (p1 != 0 && p2 != 0 && Same(mem[..], p1, p2, size))
  {
    hide Mod, Same;
    if size < 1 {
      return true;
    }
    if p1 == 0 || p2 == 0 {
      return false;
    }
    SameNone(mem[..], p1 + size, p2 + size);
    same := true;
    var rem: nat := size;
    var q1, q2 := p1 + size, p2 + size;
    if Mod(q1, c.word) == Mod(q2, c.word) {
      same, q1, q2, rem := CmpAligned(mem, c.word, p1, p2, size);
    }
    while same && rem > 0
      invariant rem <= size && q1 == p1 + rem && q2 == p2 + rem
      invariant same <==> Same(mem[..], q1, q2, size - rem)
      decreases rem
    {
      q1, q2 := q1 - 1, q2 - 1;
      SameMore(mem[..], q1, q2, 1, size - rem);
      if mem[q1] != mem[q2] {
        same := false;
      }
      rem := rem - 1;
    }
    SameMore(mem[..], p1, p2, rem, size - rem);
  }
}
