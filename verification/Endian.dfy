/** The data-order macros of lib_mem.h. Memory is an array of octets, and the order of the
    CPU (CPU_CFG_ENDIAN_TYPE) is a parameter. */
module Endian {
  import opened Word32
  import opened Octets

  datatype Order = Big | Little

  /** The value of a data word stored in the given order. */
  function ValueIn(o: Order, s: seq<octet>): nat {
    if o.Big? then ValueBE(s) else ValueLE(s)
  }

  /** The octets of a value stored in the given order. */
  function OctetsIn(o: Order, v: nat, n: nat): (s: seq<octet>)
    ensures |s| == n
  {
    if o.Big? then Reverse(OctetsLE(v, n)) else OctetsLE(v, n)
  }

  lemma OctetsThenValueIn(o: Order, v: nat, n: nat)
    requires v < Pow256(n)
    ensures ValueIn(o, OctetsIn(o, v, n)) == v
  {
    OctetsThenValue(v, n);
    ReverseValue(OctetsLE(v, n));
  }

  lemma ValueThenOctetsIn(o: Order, s: seq<octet>)
    ensures OctetsIn(o, ValueIn(o, s), |s|) == s
  {
    ReverseValue(s);
    ReverseTwice(s);
    ValueThenOctets(s);
    ValueThenOctets(Reverse(s));
  }

  // ---------------------------------------------------------------- MEM_VAL_COPY_GET_INTU

  /** What a copy between the given order and the order of the CPU makes of the octets. */
  function Converted(cpu: Order, o: Order, s: seq<octet>): (r: seq<octet>)
    ensures |r| == |s|
  {
    if cpu == o then s else Reverse(s)
  }

  /** MEM_VAL_COPY_GET_INTU_BIG and _LITTLE, and MEM_VAL_COPY_SET_INTU_*, which are the
      same macros. The index `j` wraps below 0. */
  method CopyIntu(cpu: Order, o: Order, mem: array<octet>, dest: nat, src: nat, size: u32)
    requires dest + size <= mem.Length && src + size <= mem.Length
    requires dest + size <= src || src + size <= dest
    modifies mem
    ensures mem[..] == Patched(old(mem[..]), dest, Converted(cpu, o, old(mem[src..src + size])))
  {
    if cpu == o {
      CopyKept(mem, dest, src, size);
    } else {
      CopyReversed(mem, dest, src, size);
    }
  }

  method CopyKept(mem: array<octet>, dest: nat, src: nat, size: u32)
    requires dest + size <= mem.Length && src + size <= mem.Length
    requires dest + size <= src || src + size <= dest
    modifies mem
    ensures mem[..] == Patched(old(mem[..]), dest, old(mem[src..src + size]))
  {
    hide Patched;
    ghost var m := mem[..];
    ghost var r := m[src..src + size];
    PatchedNone(m, dest);
    assert r[..0] == [] && r[..size] == r;
    for i := 0 to size
      invariant mem[..] == Patched(m, dest, r[..i])
    {
      PatchedMore(m, dest, r, i, src + i);
      mem[dest + i] := mem[src + i];
    }
  }

  method CopyReversed(mem: array<octet>, dest: nat, src: nat, size: u32)
    requires dest + size <= mem.Length && src + size <= mem.Length
    requires dest + size <= src || src + size <= dest
    modifies mem
    ensures mem[..] == Patched(old(mem[..]), dest, Reverse(old(mem[src..src + size])))
  {
    hide Patched;
    ghost var m := mem[..];
    ghost var r := Reverse(m[src..src + size]);
    PatchedNone(m, dest);
    assert r[..0] == [] && r[..size] == r;
    var j: u32 := (size - 1) % W;
    for i := 0 to size
      invariant mem[..] == Patched(m, dest, r[..i])
      invariant j == (size - 1 - i) % W
    {
      PatchedMore(m, dest, r, i, src + j);
      mem[dest + i] := mem[src + j];
      j := (j - 1) % W;
    }
  }

  lemma PatchedNone(m: seq<octet>, a: nat)
    requires a <= |m|
    ensures Patched(m, a, []) == m
  {
  }

  /** Writing one octet more, and reading one that is not written. */
  lemma PatchedMore(m: seq<octet>, a: nat, r: seq<octet>, i: nat, b: nat)
    requires a + |r| <= |m| && i < |r| && b < |m| && !(a <= b < a + |r|)
    ensures Patched(m, a, r[..i + 1]) == Patched(m, a, r[..i])[a + i := r[i]]
    ensures Patched(m, a, r[..i])[b] == m[b]
  {
  }

  /** Copying there and back restores the octets. */
  lemma ConvertedTwice(cpu: Order, o: Order, s: seq<octet>)
    ensures Converted(cpu, o, Converted(cpu, o, s)) == s
  {
    ReverseTwice(s);
  }

  /** The copy decodes: what the CPU then reads in its own order is the value that the
      source holds in the given order, for every size. */
  lemma ConvertedDecodes(cpu: Order, o: Order, s: seq<octet>)
    ensures ValueIn(cpu, Converted(cpu, o, s)) == ValueIn(o, s)
  {
    ReverseValue(s);
  }

  /** And it encodes: the octets of the CPU's own value become those of the given order. */
  lemma ConvertedEncodes(cpu: Order, o: Order, v: nat, n: nat)
    ensures Converted(cpu, o, OctetsIn(cpu, v, n)) == OctetsIn(o, v, n)
  {
    ReverseTwice(OctetsLE(v, n));
  }

  // ---------------------------------------------------------------- MEM_VAL_GET and MEM_VAL_SET

  function Get16(o: Order, m: seq<octet>, a: nat): nat
    requires a + 2 <= |m|
  {
    match o
    case Big => m[a] as nat * 0x100 + m[a + 1]
    case Little => m[a] + m[a + 1] as nat * 0x100
  }

  function Get32(o: Order, m: seq<octet>, a: nat): nat
    requires a + 4 <= |m|
  {
    match o
    case Big => m[a] as nat * 0x100_0000 + m[a + 1] as nat * 0x1_0000 + m[a + 2] as nat * 0x100 + m[a + 3]
    case Little => m[a] + m[a + 1] as nat * 0x100 + m[a + 2] as nat * 0x1_0000 + m[a + 3] as nat * 0x100_0000
  }

  /** The octet that the mask and the shift of MEM_VAL_SET pick. */
  function Octet(v: nat, shift: nat): octet
    requires shift > 0
  {
    (v / shift) % 0x100
  }

  method Set16(o: Order, mem: array<octet>, a: nat, v: nat)
    requires a + 2 <= mem.Length && v < 0x1_0000
    modifies mem
    ensures mem[..] == Patched(old(mem[..]), a, OctetsIn(o, v, 2))
  {
    Octets2(v);
    match o
    case Big =>
      mem[a] := Octet(v, 0x100);
      mem[a + 1] := Octet(v, 1);
    case Little =>
      mem[a] := Octet(v, 1);
      mem[a + 1] := Octet(v, 0x100);
  }

  method Set32(o: Order, mem: array<octet>, a: nat, v: u32)
    requires a + 4 <= mem.Length
    modifies mem
    ensures mem[..] == Patched(old(mem[..]), a, OctetsIn(o, v, 4))
  {
    Octets4(v);
    match o
    case Big =>
      mem[a] := Octet(v, 0x100_0000);
      mem[a + 1] := Octet(v, 0x1_0000);
      mem[a + 2] := Octet(v, 0x100);
      mem[a + 3] := Octet(v, 1);
    case Little =>
      mem[a] := Octet(v, 1);
      mem[a + 1] := Octet(v, 0x100);
      mem[a + 2] := Octet(v, 0x1_0000);
      mem[a + 3] := Octet(v, 0x100_0000);
  }

  lemma Octets2(v: nat)
    requires v < 0x1_0000
    ensures OctetsLE(v, 2) == [Octet(v, 1), Octet(v, 0x100)]
  {
    assert OctetsLE(v / 256, 1) == [(v / 256) % 256] + OctetsLE(v / 256 / 256, 0);
  }

  lemma Octets4(v: nat)
    ensures OctetsLE(v, 4) == [Octet(v, 1), Octet(v, 0x100), Octet(v, 0x1_0000), Octet(v, 0x100_0000)]
  {
    var v1 := v / 256;
    var v2 := v1 / 256;
    var v3 := v2 / 256;
    assert OctetsLE(v3, 1) == [v3 % 256] + OctetsLE(v3 / 256, 0);
    assert OctetsLE(v2, 2) == [v2 % 256] + OctetsLE(v3, 1);
    assert OctetsLE(v1, 3) == [v1 % 256] + OctetsLE(v2, 2);
    assert v2 == v / 0x1_0000 && v3 == v / 0x100_0000;
  }

  /** The fixed-size reads agree with the value order, and so with the copies. */
  lemma GetIsValue(o: Order, m: seq<octet>, a: nat)
    ensures a + 2 <= |m| ==> Get16(o, m, a) == ValueIn(o, m[a..a + 2])
    ensures a + 4 <= |m| ==> Get32(o, m, a) == ValueIn(o, m[a..a + 4])
  {
    if a + 2 <= |m| {
      ValueOf2(m[a..a + 2]);
    }
    if a + 4 <= |m| {
      ValueOf4(m[a..a + 4]);
    }
  }

  lemma ValueOf2(s: seq<octet>)
    requires |s| == 2
    ensures ValueLE(s) == s[0] + s[1] as nat * 0x100 && ValueBE(s) == s[0] as nat * 0x100 + s[1]
  {
    assert s[1..][1..] == [] && s[..1][..0] == [];
    assert ValueLE(s[1..]) == s[1] && ValueBE(s[..1]) == s[0];
  }

  lemma ValueOf4(s: seq<octet>)
    requires |s| == 4
    ensures ValueLE(s) == s[0] + s[1] as nat * 0x100 + s[2] as nat * 0x1_0000 + s[3] as nat * 0x100_0000
    ensures ValueBE(s) == s[0] as nat * 0x100_0000 + s[1] as nat * 0x1_0000 + s[2] as nat * 0x100 + s[3]
  {
    var hi, lo := s[2..], s[..2];
    ValueOf2(hi);
    ValueOf2(lo);
    assert s[1..][1..] == hi && s[..3][..2] == lo;
    assert ValueLE(s[1..]) == s[1] + 256 * ValueLE(hi);
    assert ValueBE(s[..3]) == 256 * ValueBE(lo) + s[2];
  }

  /** Reading what was set gives the value back, and setting what was read changes nothing. */
  lemma GetAfterSet(o: Order, m: seq<octet>, a: nat, v: u32)
    requires a + 4 <= |m|
    ensures Get32(o, Patched(m, a, OctetsIn(o, v, 4)), a) == v
    ensures Patched(m, a, OctetsIn(o, Get32(o, m, a), 4)) == m
    ensures v < 0x1_0000 ==> Get16(o, Patched(m, a, OctetsIn(o, v, 2)), a) == v
    ensures Patched(m, a, OctetsIn(o, Get16(o, m, a), 2)) == m
  {
    hide Get16, Get32, OctetsIn, ValueIn;
    GetIsValue(o, m, a);
    PatchedReads(m, a, OctetsIn(o, v, 4));
    PatchedReads(m, a, OctetsIn(o, v, 2));
    GetIsValue(o, Patched(m, a, OctetsIn(o, v, 4)), a);
    GetIsValue(o, Patched(m, a, OctetsIn(o, v, 2)), a);
    PowersOf256();
    OctetsThenValueIn(o, v, 4);
    if v < 0x1_0000 {
      OctetsThenValueIn(o, v, 2);
    }
    ValueThenOctetsIn(o, m[a..a + 4]);
    ValueThenOctetsIn(o, m[a..a + 2]);
  }

  lemma PatchedReads(m: seq<octet>, a: nat, s: seq<octet>)
    requires a + |s| <= |m|
    ensures Patched(m, a, s)[a..a + |s|] == s
  {
  }

  lemma PowersOf256()
    ensures Pow256(2) == 0x1_0000 && Pow256(4) == W
  {
    assert Pow256(1) == 256;
    assert Pow256(3) == 0x100_0000;
  }

  // ---------------------------------------------------------------- MEM_VAL_BIG_TO_LITTLE

  /** CPU_CFG_DATA_SIZE. */
  datatype DataSize = Data8 | Data16 | Data32 | Data64

  /** MEM_VAL_BIG_TO_LITTLE_32: each masked octet is shifted to its new place. */
  function BigToLittle32(d: DataSize, v: u32): (r: u32) {
    var b0, b1, b2, b3 := Octet(v, 1), Octet(v, 0x100), Octet(v, 0x1_0000), Octet(v, 0x100_0000);
    match d
    case Data64 => b3 + b2 * 0x100 + b1 * 0x1_0000 + b0 * 0x100_0000
    case Data32 => b3 + b2 * 0x100 + b1 * 0x1_0000 + b0 * 0x100_0000
    case Data16 => b3 * 0x1_0000 + b2 * 0x100_0000 + b1 + b0 * 0x100
    case Data8 => v
  }

  /** The octets afterwards. */
  function Swapped(d: DataSize, s: seq<octet>): seq<octet>
    requires |s| == 4
  {
    match d
    case Data64 => Reverse(s)
    case Data32 => Reverse(s)
    case Data16 => [s[1], s[0], s[3], s[2]]
    case Data8 => s
  }

  lemma BigToLittleOctets(d: DataSize, v: u32)
    ensures OctetsLE(BigToLittle32(d, v), 4) == Swapped(d, OctetsLE(v, 4))
  {
    var t := Swapped(d, OctetsLE(v, 4));
    Octets4(v);
    assert |t| == 4;
    SwappedValue(d, v);
    hide BigToLittle32, Swapped, OctetsLE, ValueLE;
    ValueThenOctets(t);
  }

  lemma SwappedValue(d: DataSize, v: u32)
    ensures |Swapped(d, OctetsLE(v, 4))| == 4
    ensures ValueLE(Swapped(d, OctetsLE(v, 4))) == BigToLittle32(d, v)
  {
    hide OctetsLE, ValueLE, Octet;
    Octets4(v);
    PowersOf256();
    OctetsThenValue(v, 4);
    ValueOf4(OctetsLE(v, 4));
    var t := Swapped(d, OctetsLE(v, 4));
    assert |t| == 4;
    ValueOf4(t);
  }

  /** Converting twice gives the value back, whatever the data size. */
  lemma BigToLittleTwice(d: DataSize, v: u32)
    ensures BigToLittle32(d, BigToLittle32(d, v)) == v
  {
    hide BigToLittle32;
    BigToLittleOctets(d, v);
    BigToLittleOctets(d, BigToLittle32(d, v));
    PowersOf256();
    OctetsThenValue(v, 4);
    OctetsThenValue(BigToLittle32(d, BigToLittle32(d, v)), 4);
    ReverseTwice(OctetsLE(v, 4));
    assert Swapped(d, Swapped(d, OctetsLE(v, 4))) == OctetsLE(v, 4);
  }

  /** The conversion reverses the octets on CPUs of 32 and 64 bits. With 16-bit data only
      the octets of each half are exchanged, so the result is the reversed value exactly
      if both halves are equal; with 8-bit data nothing happens, which is right exactly
      for octets that read the same from both ends. */
  lemma BigToLittleReverses(d: DataSize, v: u32)
    ensures OctetsLE(BigToLittle32(d, v), 4) == Reverse(OctetsLE(v, 4)) <==>
      match d
      case Data64 => true
      case Data32 => true
      case Data16 => v / 0x1_0000 == v % 0x1_0000
      case Data8 => Octet(v, 1) == Octet(v, 0x100_0000) && Octet(v, 0x100) == Octet(v, 0x1_0000)
  {
    hide BigToLittle32, Octet, OctetsLE;
    BigToLittleOctets(d, v);
    HalvesOf(v);
    Octets4(v);
    var s := OctetsLE(v, 4);
    assert Reverse(s) == [s[3], s[2], s[1], s[0]];
  }

  /** With 16-bit data 0x01020304 becomes 0x02010403, not 0x04030201. */
  lemma BigToLittleHalvesOnly(v: u32)
    requires v == 0x0102_0304
    ensures BigToLittle32(Data16, v) == 0x0201_0403 && BigToLittle32(Data32, v) == 0x0403_0201
    ensures OctetsLE(BigToLittle32(Data16, v), 4) != Reverse(OctetsLE(v, 4))
  {
    hide OctetsLE;
    BigToLittleReverses(Data16, v);
  }

  lemma HalvesOf(v: u32)
    ensures
      var s := OctetsLE(v, 4);
      v % 0x1_0000 == s[0] + s[1] as nat * 0x100 && v / 0x1_0000 == s[2] + s[3] as nat * 0x100
  {
    PowersOf256();
    OctetsThenValue(v, 4);
    ValueOf4(OctetsLE(v, 4));
  }
}
