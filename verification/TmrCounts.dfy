/** The timer behind the CPU timestamps and the interrupts-disabled measurement: a count
    that never goes back, read modulo its width. */
module TmrCounts {
  import opened Word32

  /** CPU_CFG_TS_TMR_SIZE. */
  datatype TmrSize = Tmr8 | Tmr16 | Tmr32 | Tmr64

  function Modulus(t: TmrSize): (m: nat)
    ensures m > 0
  {
    match t
    case Tmr8 => 0x100
    case Tmr16 => 0x1_0000
    case Tmr32 => 0x1_0000_0000
    case Tmr64 => 0x1_0000_0000_0000_0000
  }

  function Timer(t: TmrSize, now: nat): nat {
    now % Modulus(t)
  }

  // ---------------------------------------------------------------- remainders

  lemma SameRemainder(m: nat, x: int, y: int, k: int)
    requires m > 0 && x == y + m * k
    ensures x % m == y % m
  {
    var a, b := x / m, y / m;
    assert x == m * a + x % m && y == m * b + y % m;
    Dist(m, b, k);
    Dist(m, b + k, -a);
    assert m * -a == -(m * a);
    RemainderUnique(m, b + k - a, x % m - y % m);
  }

  lemma DeltaIsGap(m: nat, prev: nat, now: nat)
    requires m > 0 && prev <= now
    ensures (now % m - prev % m) % m == (now - prev) % m
  {
    Dist(m, prev / m, -(now / m));
    assert m * -(now / m) == -(m * (now / m));
    SameRemainder(m, now % m - prev % m, now - prev, prev / m - now / m);
  }

  lemma AddWrapped(w: nat, x: nat, y: nat)
    requires w > 0
    ensures (x % w + y) % w == (x + y) % w
  {
    assert w * -(x / w) == -(w * (x / w));
    SameRemainder(w, x % w + y, x + y, -(x / w));
  }

  /** A shift by `d` is invisible modulo `w` exactly if `w` divides it. */
  lemma ShiftSeen(w: nat, x: nat, d: nat)
    requires w > 0
    ensures x % w == (x + d) % w <==> d % w == 0
  {
    if d % w == 0 {
      SameRemainder(w, x + d, x, d / w);
    }
    if x % w == (x + d) % w {
      var a, b := (x + d) / w, x / w;
      Dist(w, a, -b);
      assert w * -b == -(w * b);
      SameRemainder(w, d, 0, a - b);
    }
  }

  lemma RemainderOfRemainder(m: nat, c: nat, x: nat)
    requires m > 0 && c > 0
    ensures m * c > 0 && x % (m * c) % m == x % m
  {
    var w := m * c;
    var q := x / w;
    assert x == w * q + x % w;
    assert w * q == m * (c * q);
    assert m * -(c * q) == -(m * (c * q));
    SameRemainder(m, x % w, x, -(c * q));
  }
}
