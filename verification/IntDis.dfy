/** The measurement of interrupts-disabled time in cpu_core.c: nested sections, of which the
    outermost are timed. */
module IntDis {
  import opened Word32
  import opened TmrCounts

  /** The globals CPU_IntDisNestCtr, CPU_IntDisMeasStart_cnts, CPU_IntDisMeasMaxCur_cnts and
      CPU_IntDisMeasMax_cnts. */
  datatype Meas = Meas(nest: nat, start: nat, maxCur: nat, max: nat)

  const NEST: nat := 0x1_0000

  /** What changes them, with the true timer count when the timer is read. ClearCur is the
      second of the two windows of CPU_IntDisMeasMaxCurReset. */
  datatype Event = Start(now: nat) | Stop(now: nat) | ClearCur

  function Larger(a: nat, b: nat): nat {
    if a < b then b else a
  }

  function Step(t: TmrSize, s: Meas, e: Event): Meas {
    match e
    case Start(now) =>
      s.(nest := (s.nest + 1) % NEST, start := if s.nest == 0 then Timer(t, now) else s.start)
    case Stop(now) =>
      var nest := (s.nest - 1) % NEST;
      if nest != 0 then s.(nest := nest)
      else
        var disd := (Timer(t, now) - s.start) % Modulus(t);
        s.(nest := nest, maxCur := Larger(s.maxCur, disd), max := Larger(s.max, disd))
    case ClearCur => s.(maxCur := 0)
  }

  /** CPU_IntDisMeasMaxCalc: the time less the overhead of measuring it. */
  function MaxCalc(tot: nat, ovrhd: nat): nat {
    if tot > ovrhd then tot - ovrhd else 0
  }

  // ---------------------------------------------------------------- the globals

  class Measurement {
    const tmrSize: TmrSize
    var measCtr: nat
    var nestCtr: nat
    var startCnts: nat
    var stopCnts: nat
    var maxCurCnts: nat
    var maxCnts: nat
    var ovrhdCnts: nat

    function Now(): Meas
      reads this
    {
      Meas(nestCtr, startCnts, maxCurCnts, maxCnts)
    }

    method Start(now: nat)
      modifies `measCtr, `startCnts, `nestCtr
      ensures Now() == Step(tmrSize, old(Now()), Event.Start(now))
      ensures measCtr == (old(measCtr) + 1) % NEST
    {
      measCtr := (measCtr + 1) % NEST;
      if nestCtr == 0 {
        startCnts := Timer(tmrSize, now);
      }
      nestCtr := (nestCtr + 1) % NEST;
    }

    method Stop(now: nat)
      modifies `nestCtr, `stopCnts, `maxCurCnts, `maxCnts
      ensures Now() == Step(tmrSize, old(Now()), Event.Stop(now))
    {
      nestCtr := (nestCtr - 1) % NEST;
      if nestCtr == 0 {
        stopCnts := Timer(tmrSize, now);
        var disd := (stopCnts - startCnts) % Modulus(tmrSize);
        if maxCurCnts < disd {
          maxCurCnts := disd;
        }
        if maxCnts < disd {
          maxCnts := disd;
        }
      }
    }

    /** One section, timed on its own. */
    method TimeOnce(start: nat, stop: nat)
      requires nestCtr == 0
      modifies `measCtr, `startCnts, `nestCtr, `stopCnts, `maxCurCnts, `maxCnts
      ensures nestCtr == 0 && maxCurCnts == Length(tmrSize, start, stop)
    {
      hide Timer, Modulus;
      maxCurCnts := 0;
      Start(start);
      Stop(stop);
    }

    /** The two windows of a reset are two methods: sections can end between them. */
    method MaxCurGet() returns (maxCur: nat)
      ensures maxCur + ovrhdCnts == Larger(maxCurCnts, ovrhdCnts)
    {
      maxCur := MaxCalc(maxCurCnts, ovrhdCnts);
    }

    method ClearMaxCur()
      modifies `maxCurCnts
      ensures Now() == Step(tmrSize, old(Now()), ClearCur)
    {
      maxCurCnts := 0;
    }

    method MaxGet() returns (max: nat)
      ensures max + ovrhdCnts == Larger(maxCnts, ovrhdCnts)
    {
      max := MaxCalc(maxCnts, ovrhdCnts);
    }

    /** CPU_IntDisMeasInit: one timed section for each pair of timer counts, and the average
        of their lengths. */
    constructor (size: TmrSize, starts: seq<nat>, stops: seq<nat>)
      requires 0 < |starts| == |stops| < NEST
      ensures tmrSize == size && Now() == InitWith(startCnts) == Run(size, startCnts, [], 0)
      ensures ovrhdCnts == Overhead(size, Total(size, starts, stops), |starts|)
    {
      hide Timer, Modulus, SumModulus, Length, Total, Average;
      tmrSize := size;
      measCtr, nestCtr, startCnts, stopCnts := 0, 0, 0, 0;
      maxCurCnts, maxCnts, ovrhdCnts := 0, 0, 0;
      new;
      var tot := Calibrate(starts, stops);
      var n := |starts|;
      ovrhdCnts := Average(size, tot, n);
      maxCurCnts := 0;
      maxCnts := 0;
    }

    /** The loop of the calibration: the sum of the lengths, in the width of the timer. */
    method Calibrate(starts: seq<nat>, stops: seq<nat>) returns (tot: nat)
      requires |starts| == |stops| && nestCtr == 0
      modifies `measCtr, `startCnts, `nestCtr, `stopCnts, `maxCurCnts, `maxCnts
      ensures nestCtr == 0 && tot == Total(tmrSize, starts, stops) % Modulus(tmrSize)
    {
      hide Timer, Modulus, Length, Total;
      tot := 0;
      var n := |starts|;
      TotalNone(tmrSize, starts, stops);
      for i := 0 to n
        invariant nestCtr == 0 && tot == Total(tmrSize, starts[..i], stops[..i]) % Modulus(tmrSize)
      {
        TimeOnce(starts[i], stops[i]);
        TotalNext(tmrSize, starts, stops, i);
        tot := (tot + maxCurCnts) % Modulus(tmrSize);
      }
      assert starts[..n] == starts && stops[..n] == stops;
    }
  }

  // ---------------------------------------------------------------- the overhead

  /** The modular length of a section. */
  function Length(t: TmrSize, start: nat, stop: nat): (l: nat)
    ensures l < Modulus(t)
  {
    (Timer(t, stop) - Timer(t, start)) % Modulus(t)
  }

  /** The sum of the lengths, without wrapping. */
  function Total(t: TmrSize, starts: seq<nat>, stops: seq<nat>): nat
    requires |starts| == |stops|
  {
    if starts == [] then 0
    else
      var k := |starts| - 1;
      Total(t, starts[..k], stops[..k]) + Length(t, starts[k], stops[k])
  }

  lemma TotalNone(t: TmrSize, starts: seq<nat>, stops: seq<nat>)
    ensures Total(t, starts[..0], stops[..0]) == 0 && 0 % Modulus(t) == 0
  {
  }

  lemma TotalNext(t: TmrSize, starts: seq<nat>, stops: seq<nat>, i: nat)
    requires i < |starts| == |stops|
    ensures
      var tot, l := Total(t, starts[..i], stops[..i]), Length(t, starts[i], stops[i]);
      && Total(t, starts[..i + 1], stops[..i + 1]) == tot + l
      && (tot % Modulus(t) + l) % Modulus(t) == (tot + l) % Modulus(t)
  {
    assert starts[..i + 1][..i] == starts[..i] && stops[..i + 1][..i] == stops[..i];
    AddWrapped(Modulus(t), Total(t, starts[..i], stops[..i]), Length(t, starts[i], stops[i]));
  }

  /** The sum for rounding is calculated in at least 32 bits. */
  function SumModulus(t: TmrSize): (m: nat)
    ensures m > 0
  {
    if t.Tmr64? then Modulus(t) else Modulus(Tmr32)
  }

  /** The rounded division of the sum that the timer width has left of the total. */
  function Average(t: TmrSize, tot: nat, n: nat): nat
    requires n > 0
  {
    (tot + n / 2) % SumModulus(t) / n
  }

  function Overhead(t: TmrSize, total: nat, n: nat): nat
    requires n > 0
  {
    Average(t, total % Modulus(t), n)
  }

  /** `o` is the average of `n` values with the sum `total`, rounded to the nearest. */
  predicate Nearest(o: nat, total: nat, n: nat) {
    -(n as int) <= 2 * (n * o - total) <= n
  }

  /** The overhead is the rounded average exactly if neither the sum of the lengths nor the
      sum for rounding wraps. With at least as many measurements as the timer has counts,
      which takes an 8-bit timer, the average is 0 or 1, and it can be right in spite of a
      wrap: exactly if the wrapped and the true sum round alike. */
  lemma OverheadNearest(t: TmrSize, total: nat, n: nat)
    requires 0 < n < NEST
    ensures Nearest(Overhead(t, total, n), total, n) <==>
      if n < Modulus(t) then total < Modulus(t) && total + n / 2 < SumModulus(t)
      else 2 * total <= if 2 * (total % Modulus(t)) < n then n else 3 * n
  {
    var m, w := Modulus(t), SumModulus(t);
    assert m <= w && 2 * NEST <= w;
    hide Modulus, SumModulus, Overhead;
    var tot := total % m;
    var u := (tot + n / 2) % w;
    Wrapped(total, m);
    Wrapped(tot + n / 2, w);
    OverheadQuotient(t, total, n);
    if n < m {
      NearestSum(n, m, w, total, tot, u, n * Overhead(t, total, n));
    } else {
      ZeroOrOne(n, u, Overhead(t, total, n));
    }
  }

  lemma ZeroOrOne(n: nat, u: nat, o: nat)
    requires n > 0 && n * o <= u < n * o + n && u < 2 * n
    ensures o == if u < n then 0 else 1
  {
    AtLeastTwice(n, o);
  }

  lemma AtLeastTwice(n: nat, o: nat)
    ensures o >= 2 ==> n * o >= 2 * n
  {
    if o >= 2 {
      Dist(n, 2, o - 2);
    }
  }

  lemma OverheadQuotient(t: TmrSize, total: nat, n: nat)
    requires n > 0
    ensures
      var u := (total % Modulus(t) + n / 2) % SumModulus(t);
      var p := n * Overhead(t, total, n);
      p <= u < p + n
  {
    hide Modulus, SumModulus;
  }

  lemma NearestSum(n: nat, m: nat, w: nat, total: nat, tot: nat, u: nat, p: nat)
    requires 0 < n < m <= w && p <= u < p + n
    requires if total < m then tot == total else tot <= total - m
    requires if tot + n / 2 < w then u == tot + n / 2 else u <= tot + n / 2 - w
    ensures -(n as int) <= 2 * (p - total) <= n <==> total < m && total + n / 2 < w
  {
  }

  /** A number that wraps loses at least its modulus. */
  lemma Wrapped(x: nat, m: nat)
    requires m > 0
    ensures x < m ==> x % m == x
    ensures x >= m ==> x % m <= x - m
  {
    if x >= m {
      SameRemainder(m, x, x - m, 1);
    }
  }

  // ---------------------------------------------------------------- sections

  /** The state after the initialization, which leaves the start count of its last
      calibration measurement. */
  function InitWith(start0: nat): Meas {
    Meas(0, start0, 0, 0)
  }

  /** The state after `n` events. */
  function Run(t: TmrSize, start0: nat, evs: seq<Event>, n: nat): Meas
    requires n <= |evs|
  {
    if n == 0 then InitWith(start0) else Step(t, Run(t, start0, evs, n - 1), evs[n - 1])
  }

  /** How deep the sections are nested after `n` events. */
  function Depth(evs: seq<Event>, n: nat): int
    requires n <= |evs|
  {
    if n == 0 then 0
    else Depth(evs, n - 1) + (match evs[n - 1] case Start(_) => 1 case Stop(_) => -1 case ClearCur => 0)
  }

  /** Every stop has its start, and the nesting fits the 16-bit counter. */
  predicate Nested(evs: seq<Event>, n: nat)
    requires n <= |evs|
  {
    forall k :: 0 <= k <= n ==> 0 <= Depth(evs, k) < NEST
  }

  /** Event `i` starts an outermost section that is still open before event `n`. */
  predicate OpenSince(evs: seq<Event>, i: nat, n: nat)
    requires n <= |evs|
  {
    && i < n && evs[i].Start? && Depth(evs, i) == 0
    && forall k :: i < k <= n ==> Depth(evs, k) > 0
  }

  /** Events `i` and `j` enclose a completed outermost section. */
  predicate Section(evs: seq<Event>, i: nat, j: nat) {
    j < |evs| && OpenSince(evs, i, j) && evs[j].Stop? && Depth(evs, j + 1) == 0
  }

  function SectionLength(t: TmrSize, evs: seq<Event>, i: nat, j: nat): nat
    requires Section(evs, i, j)
  {
    Length(t, evs[i].now, evs[j].now)
  }

  /** `v` is the length of the longest section that ended at or after event `c` and before
      event `n`, or 0 if there is none. */
  ghost predicate IsLongest(t: TmrSize, evs: seq<Event>, c: nat, n: nat, v: nat) {
    && (forall i: nat, j: nat :: Section(evs, i, j) && c <= j < n ==> SectionLength(t, evs, i, j) <= v)
    && (v == 0 || exists i: nat, j: nat :: Section(evs, i, j) && c <= j < n && SectionLength(t, evs, i, j) == v)
  }

  /** Where the current maximum was last cleared. */
  function Cleared(evs: seq<Event>, n: nat): (c: nat)
    requires n <= |evs|
    ensures c <= n
  {
    if n == 0 then 0 else if evs[n - 1].ClearCur? then n else Cleared(evs, n - 1)
  }

  /** Only one section ends at an event. */
  lemma OneSection(evs: seq<Event>, i: nat, i': nat, j: nat)
    requires j <= |evs| && OpenSince(evs, i, j) && OpenSince(evs, i', j)
    ensures i == i'
  {
  }

  lemma LongestStep(t: TmrSize, evs: seq<Event>, c: nat, n: nat, v: nat, i: nat)
    requires n < |evs| && c <= n && IsLongest(t, evs, c, n, v) && Section(evs, i, n)
    ensures IsLongest(t, evs, c, n + 1, Larger(v, SectionLength(t, evs, i, n)))
  {
    var l := SectionLength(t, evs, i, n);
    forall i': nat, j: nat | Section(evs, i', j) && c <= j < n + 1
      ensures SectionLength(t, evs, i', j) <= Larger(v, l)
    {
      if j == n {
        OneSection(evs, i, i', n);
      }
    }
  }

  lemma LongestSame(t: TmrSize, evs: seq<Event>, c: nat, n: nat, v: nat)
    requires n < |evs| && IsLongest(t, evs, c, n, v) && (forall i: nat :: !Section(evs, i, n))
    ensures IsLongest(t, evs, c, n + 1, v)
  {
  }

  /** Nesting is counted, and the start of the open section is kept. */
  ghost predicate Tracks(t: TmrSize, start0: nat, evs: seq<Event>, n: nat)
    requires n <= |evs|
  {
    var s := Run(t, start0, evs, n);
    && s.nest == Depth(evs, n)
    && (s.nest > 0 ==> exists i: nat :: OpenSince(evs, i, n) && s.start == Timer(t, evs[i].now))
  }

  lemma {:induction false} Tracking(t: TmrSize, start0: nat, evs: seq<Event>, n: nat)
    requires n <= |evs| && Nested(evs, n)
    ensures Tracks(t, start0, evs, n)
  {
    if n == 0 {
    } else {
      Tracking(t, start0, evs, n - 1);
      var s := Run(t, start0, evs, n - 1);
      if s.nest > 0 && Depth(evs, n) > 0 {
        var i: nat :| OpenSince(evs, i, n - 1) && s.start == Timer(t, evs[i].now);
        assert OpenSince(evs, i, n);
      } else if Depth(evs, n) > 0 {
        assert OpenSince(evs, n - 1, n);
      }
    }
  }

  /** Only the end of an outermost section, and a clear, change the maxima. */
  lemma MaximaStep(t: TmrSize, s: Meas, e: Event)
    requires 0 <= s.nest < NEST && (e.Stop? ==> s.nest > 0)
    ensures
      var s' := Step(t, s, e);
      && (e.Stop? && s.nest == 1 ==>
            var l := (Timer(t, e.now) - s.start) % Modulus(t);
            s'.max == Larger(s.max, l) && s'.maxCur == Larger(s.maxCur, l))
      && (!(e.Stop? && s.nest == 1) ==> s'.max == s.max && s'.maxCur == if e.ClearCur? then 0 else s.maxCur)
  {
  }

  /** The section that a stop ends, and its length. */
  lemma EndedSection(t: TmrSize, start0: nat, evs: seq<Event>, n: nat) returns (i: nat)
    requires n < |evs| && Tracks(t, start0, evs, n) && evs[n].Stop? && Run(t, start0, evs, n).nest == 1
    ensures Section(evs, i, n)
    ensures SectionLength(t, evs, i, n) == (Timer(t, evs[n].now) - Run(t, start0, evs, n).start) % Modulus(t)
  {
    i :| OpenSince(evs, i, n) && Run(t, start0, evs, n).start == Timer(t, evs[i].now);
  }

  /** Both maxima over every run: Max is the longest outermost section since the
      initialization, MaxCur the longest that ended since it was last cleared, and so
      MaxCur never exceeds Max. */
  lemma {:induction false} MaximaExact(t: TmrSize, start0: nat, evs: seq<Event>, n: nat)
    requires n <= |evs| && Nested(evs, n)
    ensures
      var s := Run(t, start0, evs, n);
      && IsLongest(t, evs, 0, n, s.max)
      && IsLongest(t, evs, Cleared(evs, n), n, s.maxCur)
      && s.maxCur <= s.max
  {
    hide Step, IsLongest, OpenSince, SectionLength, Timer, Modulus;
    if n == 0 {
      LongestNone(t, evs, 0);
    } else {
      var s, c, e := Run(t, start0, evs, n - 1), Cleared(evs, n - 1), evs[n - 1];
      MaximaExact(t, start0, evs, n - 1);
      Tracking(t, start0, evs, n - 1);
      assert Depth(evs, n) >= 0 && Run(t, start0, evs, n) == Step(t, s, e);
      MaximaStep(t, s, e);
      if e.Stop? && s.nest == 1 {
        var i := EndedSection(t, start0, evs, n - 1);
        LongestStep(t, evs, 0, n - 1, s.max, i);
        LongestStep(t, evs, c, n - 1, s.maxCur, i);
      } else {
        LongestSame(t, evs, 0, n - 1, s.max);
        LongestSame(t, evs, c, n - 1, s.maxCur);
        LongestNone(t, evs, n);
      }
    }
  }

  lemma LongestNone(t: TmrSize, evs: seq<Event>, n: nat)
    ensures IsLongest(t, evs, n, n, 0)
  {
  }

  lemma {:induction false} ClearedLast(evs: seq<Event>, clear: nat, n: nat)
    requires clear < n <= |evs| && evs[clear].ClearCur?
    requires forall k :: clear < k < n ==> !evs[k].ClearCur?
    ensures Cleared(evs, n) == clear + 1
  {
    if n == clear + 1 {
    } else {
      ClearedLast(evs, clear, n - 1);
    }
  }

  /** CPU_IntDisMeasMaxCurReset, with the first window after `read` events and the second at
      event `clear`, seen after `n` events without another clear. It reports the longest
      section that ended since the last clear and before the first window; the current
      maximum is the longest that ended after the second. Together they are the longest
      since the last clear if and only if no section that ended between the windows was
      longer than both. */
  lemma ResetReports(t: TmrSize, start0: nat, evs: seq<Event>, read: nat, clear: nat, n: nat)
    requires read <= clear < n <= |evs| && evs[clear].ClearCur? && Nested(evs, n)
    requires forall k :: clear < k < n ==> !evs[k].ClearCur?
    ensures
      var c := Cleared(evs, read);
      var reported, cur := Run(t, start0, evs, read).maxCur, Run(t, start0, evs, n).maxCur;
      && IsLongest(t, evs, c, read, reported)
      && IsLongest(t, evs, clear + 1, n, cur)
      && (IsLongest(t, evs, c, n, Larger(reported, cur)) <==>
            NoneLonger(t, evs, read, clear + 1, Larger(reported, cur)))
  {
    hide Run, Section, SectionLength;
    MaximaExact(t, start0, evs, read);
    MaximaExact(t, start0, evs, n);
    ClearedLast(evs, clear, n);
  }

  /** No section that ended at or after event `a` and before event `b` is longer than `v`. */
  ghost predicate NoneLonger(t: TmrSize, evs: seq<Event>, a: nat, b: nat, v: nat) {
    forall i: nat, j: nat :: Section(evs, i, j) && a <= j < b ==> SectionLength(t, evs, i, j) <= v
  }

  /** A section of 100 counts that ends between the two windows is in Max alone. */
  lemma ResetMissesSection(t: TmrSize, start0: nat, evs: seq<Event>)
    requires t == Tmr32 && evs == [Start(0), Stop(100), ClearCur]
    ensures Nested(evs, 3) && Section(evs, 0, 1)
    ensures Run(t, start0, evs, 0).maxCur == 0 && Run(t, start0, evs, 3).maxCur == 0
    ensures Run(t, start0, evs, 3).max == 100
  {
    assert Depth(evs, 1) == 1 && Depth(evs, 2) == 0 && Depth(evs, 3) == 0;
    assert Run(t, start0, evs, 1) == Meas(1, 0, 0, 0);
    assert Run(t, start0, evs, 2) == Meas(0, 0, 100, 100);
  }

  /** The modular length is the true one exactly if the section is shorter than one timer
      period. */
  lemma LengthTrue(t: TmrSize, start: nat, stop: nat)
    requires start <= stop
    ensures Length(t, start, stop) == stop - start <==> stop - start < Modulus(t)
  {
    DeltaIsGap(Modulus(t), start, stop);
  }

  /** What is reported is what is measured beyond the overhead, and keeps its order. */
  lemma ReportedOrder(t: TmrSize, start0: nat, evs: seq<Event>, n: nat, ovrhd: nat)
    requires n <= |evs| && Nested(evs, n)
    ensures
      var s := Run(t, start0, evs, n);
      && MaxCalc(s.maxCur, ovrhd) <= MaxCalc(s.max, ovrhd)
      && MaxCalc(s.maxCur, ovrhd) + ovrhd == Larger(s.maxCur, ovrhd)
      && MaxCalc(s.max, ovrhd) + ovrhd == Larger(s.max, ovrhd)
  {
    MaximaExact(t, start0, evs, n);
  }
}
