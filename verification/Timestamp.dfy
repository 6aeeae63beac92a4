/** The CPU timestamps of cpu_core.c: a 32-bit and a 64-bit count widened from a timer that
    may have fewer bits. */
module Timestamp {
  import opened TmrCounts
  import opened Word32

  /** The two timestamps. */
  datatype Width = Bits32 | Bits64

  function Word(w: Width): (m: nat)
    ensures m > 0
  {
    if w.Bits32? then 0x1_0000_0000 else 0x1_0000_0000_0000_0000
  }

  /** The timer is narrower than the timestamp, so its counts are accumulated. */
  predicate Widened(t: TmrSize, w: Width) {
    Modulus(t) < Word(w)
  }

  /** CPU_TS_xx_Accum and CPU_TS_xx_TmrPrev. */
  datatype Acc = Acc(accum: nat, prev: nat)

  datatype State = State(ts32: Acc, ts64: Acc)

  function AccOf(s: State, w: Width): Acc {
    if w.Bits32? then s.ts32 else s.ts64
  }

  /** One accumulation, in the widths of the timer and the timestamp. */
  function Advance(t: TmrSize, w: Width, a: Acc, tmrCur: nat): Acc {
    var tmrDelta := (tmrCur - a.prev) % Modulus(t);
    Acc((a.accum + tmrDelta) % Word(w), tmrCur)
  }

  // ---------------------------------------------------------------- the globals

  class Timestamps {
    const tmrSize: TmrSize
    var ts32Accum: nat
    var ts32TmrPrev: nat
    var ts64Accum: nat
    var ts64TmrPrev: nat

    function Now(): State
      reads this
    {
      State(Acc(ts32Accum, ts32TmrPrev), Acc(ts64Accum, ts64TmrPrev))
    }

    /** CPU_TS_Init. */
    constructor (size: TmrSize, now: nat)
      ensures tmrSize == size && Now() == InitAt(size, now)
    {
      tmrSize := size;
      var tmrCnts := Timer(size, now);
      ts32Accum := 0;
      ts32TmrPrev := tmrCnts;
      ts64Accum := 0;
      ts64TmrPrev := tmrCnts;
    }

    method Get32(now: nat) returns (ts: nat)
      modifies this
      ensures Now() == Step(tmrSize, old(Now()), Get(Bits32, now))
      ensures Returned(tmrSize, old(Now()), Bits32, now, ts)
    {
      GetExact(tmrSize, Now(), Bits32, now);
      if !Widened(tmrSize, Bits32) {
        ts := Timer(tmrSize, now) % Word(Bits32);
      } else {
        var tmrCur := Timer(tmrSize, now);
        var tmrDelta := (tmrCur - ts32TmrPrev) % Modulus(tmrSize);
        ts32Accum := (ts32Accum + tmrDelta) % Word(Bits32);
        ts32TmrPrev := tmrCur;
        ts := ts32Accum;
      }
    }

    method Get64(now: nat) returns (ts: nat)
      modifies this
      ensures Now() == Step(tmrSize, old(Now()), Get(Bits64, now))
      ensures Returned(tmrSize, old(Now()), Bits64, now, ts)
    {
      GetExact(tmrSize, Now(), Bits64, now);
      if !Widened(tmrSize, Bits64) {
        ts := Timer(tmrSize, now) % Word(Bits64);
      } else {
        var tmrCur := Timer(tmrSize, now);
        var tmrDelta := (tmrCur - ts64TmrPrev) % Modulus(tmrSize);
        ts64Accum := (ts64Accum + tmrDelta) % Word(Bits64);
        ts64TmrPrev := tmrCur;
        ts := ts64Accum;
      }
    }

    /** CPU_TS_Update reads the timer once for each timestamp. */
    method Update(now32: nat, now64: nat)
      modifies this
      ensures Now() == Step(tmrSize, old(Now()), UpdateBoth(now32, now64))
    {
      if Widened(tmrSize, Bits32) {
        var _ := Get32(now32);
      }
      if Widened(tmrSize, Bits64) {
        var _ := Get64(now64);
      }
    }
  }

  // ---------------------------------------------------------------- runs

  function InitAt(t: TmrSize, now: nat): State {
    State(Acc(0, Timer(t, now)), Acc(0, Timer(t, now)))
  }

  /** A call, with the true timer count when it reads the timer. */
  datatype Event = Get(w: Width, now: nat) | UpdateBoth(now32: nat, now64: nat)

  function Read(t: TmrSize, s: State, w: Width, now: nat): State {
    if !Widened(t, w) then s
    else if w.Bits32? then s.(ts32 := Advance(t, w, s.ts32, Timer(t, now)))
    else s.(ts64 := Advance(t, w, s.ts64, Timer(t, now)))
  }

  function Step(t: TmrSize, s: State, e: Event): State {
    match e
    case Get(w, now) => Read(t, s, w, now)
    case UpdateBoth(now32, now64) => Read(t, Read(t, s, Bits32, now32), Bits64, now64)
  }

  function Run(t: TmrSize, t0: nat, evs: seq<Event>): State {
    if evs == [] then InitAt(t, t0) else Step(t, Run(t, t0, evs[..|evs| - 1]), evs[|evs| - 1])
  }

  /** When a call reads the timer for the timestamp `w`. */
  function ReadsOf(e: Event, w: Width): seq<nat> {
    match e
    case Get(v, now) => if v == w then [now] else []
    case UpdateBoth(now32, now64) => [if w.Bits32? then now32 else now64]
  }

  function Reads(evs: seq<Event>, w: Width): seq<nat> {
    if evs == [] then [] else Reads(evs[..|evs| - 1], w) + ReadsOf(evs[|evs| - 1], w)
  }

  /** The count at the last read. */
  function Last(t0: nat, times: seq<nat>): nat {
    if times == [] then t0 else times[|times| - 1]
  }

  /** The timer never goes back. */
  predicate Forward(t0: nat, times: seq<nat>) {
    times == [] || (Forward(t0, times[..|times| - 1]) && Last(t0, times[..|times| - 1]) <= times[|times| - 1])
  }

  /** How often the timer went all the way round between two reads. */
  function Lost(t: TmrSize, t0: nat, times: seq<nat>): nat
    requires Forward(t0, times)
  {
    if times == [] then 0
    else
      var before := times[..|times| - 1];
      Lost(t, t0, before) + (times[|times| - 1] - Last(t0, before)) / Modulus(t)
  }

  /** Successive reads are less than one timer period apart. */
  predicate Frequent(t: TmrSize, t0: nat, times: seq<nat>) {
    times == [] ||
    (Frequent(t, t0, times[..|times| - 1])
     && times[|times| - 1] - Last(t0, times[..|times| - 1]) < Modulus(t))
  }

  /** One timestamp after its own reads. */
  function Accumulated(t: TmrSize, w: Width, t0: nat, times: seq<nat>): Acc {
    if times == [] then Acc(0, Timer(t, t0))
    else Advance(t, w, Accumulated(t, w, t0, times[..|times| - 1]), Timer(t, times[|times| - 1]))
  }

  lemma StepReads(t: TmrSize, w: Width, s: State, e: Event)
    requires Widened(t, w)
    ensures |ReadsOf(e, w)| <= 1
    ensures AccOf(Step(t, s, e), w) ==
      if ReadsOf(e, w) == [] then AccOf(s, w) else Advance(t, w, AccOf(s, w), Timer(t, ReadsOf(e, w)[0]))
  {
    hide Advance;
  }

  /** However the calls are interleaved, each timestamp depends on its own reads only. */
  lemma {:induction false} Interleaved(t: TmrSize, w: Width, t0: nat, evs: seq<Event>)
    requires Widened(t, w)
    ensures AccOf(Run(t, t0, evs), w) == Accumulated(t, w, t0, Reads(evs, w))
  {
    hide Advance, Timer, Step, Widened, ReadsOf;
    if evs == [] {
    } else {
      var before, e := evs[..|evs| - 1], evs[|evs| - 1];
      Interleaved(t, w, t0, before);
      StepReads(t, w, Run(t, t0, before), e);
      var r := Reads(before, w);
      assert Reads(evs, w) == r + ReadsOf(e, w);
      if ReadsOf(e, w) != [] {
        assert Reads(evs, w)[..|r|] == r;
      } else {
        assert Reads(evs, w) == r;
      }
    }
  }

  // ---------------------------------------------------------------- accounting

  /** What is accumulated is the time that passed less the whole timer periods lost. */
  lemma {:induction false} Accounted(t: TmrSize, w: Width, t0: nat, times: seq<nat>) returns (sum: nat)
    requires Forward(t0, times)
    ensures
      var a := Accumulated(t, w, t0, times);
      && a.accum == sum % Word(w) && a.prev == Timer(t, Last(t0, times))
      && sum + Modulus(t) * Lost(t, t0, times) == Last(t0, times) - t0
  {
    hide Modulus, Word;
    if times == [] {
      sum := 0;
    } else {
      var before := times[..|times| - 1];
      var sum0 := Accounted(t, w, t0, before);
      var gap := times[|times| - 1] - Last(t0, before);
      sum := sum0 + gap % Modulus(t);
      OneGap(Modulus(t), Word(w), sum0, Lost(t, t0, before), Last(t0, before), times[|times| - 1], t0);
    }
  }

  lemma OneGap(m: nat, w: nat, sum: nat, lost: nat, prev: nat, now: nat, t0: nat)
    requires m > 0 && w > 0 && prev <= now && sum + m * lost == prev - t0
    ensures (sum % w + (now % m - prev % m) % m) % w == (sum + (now - prev) % m) % w
    ensures sum + (now - prev) % m + m * (lost + (now - prev) / m) == now - t0
  {
    DeltaIsGap(m, prev, now);
    AddWrapped(w, sum, (now - prev) % m);
    Dist(m, lost, (now - prev) / m);
  }

  /** A timestamp after these reads agrees with the time since initialization modulo the
      timer width; it is that time, in its own width, exactly if the periods lost add up to a
      multiple of its width; and none is lost if the reads are frequent enough. */
  ghost predicate Exact(t: TmrSize, w: Width, t0: nat, times: seq<nat>, ts: nat)
    requires Forward(t0, times)
  {
    var elapsed := Last(t0, times) - t0;
    && elapsed >= 0 && ts < Word(w)
    && ts % Modulus(t) == elapsed % Modulus(t)
    && (ts == elapsed % Word(w) <==> (Modulus(t) * Lost(t, t0, times)) % Word(w) == 0)
    && (Frequent(t, t0, times) ==> ts == elapsed % Word(w))
  }

  /** Every timestamp after its own reads. */
  lemma AccumulatedExact(t: TmrSize, w: Width, t0: nat, times: seq<nat>)
    requires Widened(t, w) && Forward(t0, times)
    ensures Exact(t, w, t0, times, Accumulated(t, w, t0, times).accum)
  {
    hide Lost, Forward, Last, Accumulated, Modulus, Word, Widened, Frequent;
    var sum := Accounted(t, w, t0, times);
    var d := Modulus(t) * Lost(t, t0, times);
    var c := WordIsMultiple(t, w);
    RemainderOfRemainder(Modulus(t), c, sum);
    SameRemainder(Modulus(t), sum + d, sum, Lost(t, t0, times));
    ShiftSeen(Word(w), sum, d);
    if Frequent(t, t0, times) {
      FrequentLosesNothing(t, t0, times);
      assert d == 0;
    }
  }

  /** Every timestamp after every run. */
  lemma RunExact(t: TmrSize, w: Width, t0: nat, evs: seq<Event>)
    requires Widened(t, w) && Forward(t0, Reads(evs, w))
    ensures Exact(t, w, t0, Reads(evs, w), AccOf(Run(t, t0, evs), w).accum)
  {
    hide Exact;
    Interleaved(t, w, t0, evs);
    AccumulatedExact(t, w, t0, Reads(evs, w));
  }

  /** What a get returns in state `s`. Of a timer that is as wide as the timestamp, the low
      octets of its count; of a narrower one, after any run that led to `s`, a timestamp that
      is exact for the reads so far and this one. */
  ghost predicate Returned(t: TmrSize, s: State, w: Width, now: nat, ts: nat) {
    if !Widened(t, w) then ts == now % Word(w)
    else forall t0: nat, evs: seq<Event> :: s == Run(t, t0, evs) && Forward(t0, Reads(evs, w) + [now]) ==>
           Exact(t, w, t0, Reads(evs, w) + [now], ts)
  }

  lemma GetExact(t: TmrSize, s: State, w: Width, now: nat)
    ensures Returned(t, s, w, now,
                     if Widened(t, w) then AccOf(Step(t, s, Get(w, now)), w).accum else Timer(t, now) % Word(w))
  {
    hide Exact, Forward, Run, Reads, AccOf, Step, Last, Lost;
    if Widened(t, w) {
      forall t0: nat, evs: seq<Event> | s == Run(t, t0, evs) && Forward(t0, Reads(evs, w) + [now])
        ensures Exact(t, w, t0, Reads(evs, w) + [now], AccOf(Step(t, s, Get(w, now)), w).accum)
      {
        OneMoreGet(t, w, t0, evs, now);
        RunExact(t, w, t0, evs + [Get(w, now)]);
      }
    } else {
      TimerIsMultiple(t, w, now);
    }
  }

  lemma OneMoreGet(t: TmrSize, w: Width, t0: nat, evs: seq<Event>, now: nat)
    ensures Reads(evs + [Get(w, now)], w) == Reads(evs, w) + [now]
    ensures Run(t, t0, evs + [Get(w, now)]) == Step(t, Run(t, t0, evs), Get(w, now))
  {
    assert (evs + [Get(w, now)])[..|evs|] == evs;
  }

  lemma TimerIsMultiple(t: TmrSize, w: Width, now: nat)
    requires !Widened(t, w)
    ensures Timer(t, now) % Word(w) == now % Word(w)
  {
    var c := Modulus(t) / Word(w);
    assert Modulus(t) == Word(w) * c && c > 0;
    RemainderOfRemainder(Word(w), c, now);
  }

  lemma WordIsMultiple(t: TmrSize, w: Width) returns (c: nat)
    requires Widened(t, w)
    ensures c > 0 && Word(w) == Modulus(t) * c
  {
    c := Word(w) / Modulus(t);
  }

  lemma {:induction false} FrequentLosesNothing(t: TmrSize, t0: nat, times: seq<nat>)
    requires Forward(t0, times) && Frequent(t, t0, times)
    ensures Lost(t, t0, times) == 0
  {
    if times == [] {
    } else {
      FrequentLosesNothing(t, t0, times[..|times| - 1]);
    }
  }
}
