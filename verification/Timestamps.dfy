/**
  33-bit PES timestamps and the three ways the demuxer unwraps them: the
  sequential per-PID tracker, the epoch nearest a reference, and the modular
  delta from the head PCR.
 */
module Timestamps {
  import opened Wrappers

  const TIMESTAMP_MODULUS: nat := 0x2_0000_0000
  const WRAP_THRESHOLD: nat := TIMESTAMP_MODULUS / 2
  const U64_MAX: nat := 0xFFFF_FFFF_FFFF_FFFF

  function Distance(a: int, b: int): nat {
    if a < b then b - a else a - b
  }

  /** Closed form of the epoch whose extended value lies nearest the hint, ties going down. */
  function NearestEpochOf(raw: nat, hint: nat): nat {
    if hint <= raw then 0 else (hint - raw + WRAP_THRESHOLD - 1) / TIMESTAMP_MODULUS
  }

  function EpochDistance(raw: nat, hint: nat, k: nat): nat {
    Distance(k * TIMESTAMP_MODULUS + raw, hint)
  }

  /** The source's search: three candidates, a running best replaced only by a strictly closer one. */
  method NearestEpoch(raw: nat, hint: nat) returns (bestK: nat)
    requires raw < TIMESTAMP_MODULUS
    ensures bestK == NearestEpochOf(raw, hint)
    ensures forall k: nat :: EpochDistance(raw, hint, bestK) <= EpochDistance(raw, hint, k)
    ensures forall k: nat | k < bestK :: EpochDistance(raw, hint, bestK) < EpochDistance(raw, hint, k)
  {
    hide NearestEpochOf, Distance;
    var base := hint / TIMESTAMP_MODULUS;
    var candidates := [if base == 0 then 0 else base - 1, base, base + 1];
    bestK := 0;
    var bestD := U64_MAX;
    NearEnough(raw, hint);
    for i := 0 to 3
      invariant i == 0 ==> bestD == U64_MAX
      invariant 0 < i ==> bestD == EpochDistance(raw, hint, bestK)
      invariant 0 < i ==> bestK <= candidates[i - 1]
      invariant 0 < i ==> Improves(raw, hint, candidates[0], bestK)
      invariant 1 < i ==> Improves(raw, hint, candidates[1], bestK)
      invariant 2 < i ==> Improves(raw, hint, candidates[2], bestK)
    {
      var d := EpochDistance(raw, hint, candidates[i]);
      if d < bestD {
        bestD := d;
        bestK := candidates[i];
      }
    }
    BestCandidate(raw, hint, bestK);
    forall k: nat
      ensures EpochDistance(raw, hint, bestK) <= EpochDistance(raw, hint, k)
      ensures k < bestK ==> EpochDistance(raw, hint, bestK) < EpochDistance(raw, hint, k)
    {
      NearestEpochMinimises(raw, hint, k);
    }
  }

  lemma NearEnough(raw: nat, hint: nat)
    requires raw < TIMESTAMP_MODULUS
    ensures var base := hint / TIMESTAMP_MODULUS;
            EpochDistance(raw, hint, if base == 0 then 0 else base - 1) < U64_MAX
  {
  }

  /** The chosen epoch is at least as near as EVERY epoch, not only the three candidates. */
  lemma NearestEpochMinimises(raw: nat, hint: nat, k: nat)
    requires raw < TIMESTAMP_MODULUS
    ensures var best := NearestEpochOf(raw, hint);
            && EpochDistance(raw, hint, best) <= EpochDistance(raw, hint, k)
            && (k < best ==> EpochDistance(raw, hint, best) < EpochDistance(raw, hint, k))
  {
    var best := NearestEpochOf(raw, hint);
    if k < best {
      assert k * TIMESTAMP_MODULUS + TIMESTAMP_MODULUS <= best * TIMESTAMP_MODULUS;
    } else if best < k {
      assert best * TIMESTAMP_MODULUS + TIMESTAMP_MODULUS <= k * TIMESTAMP_MODULUS;
    }
  }

  /** `best` beats candidate `c`: strictly unless it is `c` or a smaller epoch tied with it. */
  ghost predicate Improves(raw: nat, hint: nat, c: nat, best: nat) {
    || best == c
    || EpochDistance(raw, hint, best) < EpochDistance(raw, hint, c)
    || (best < c && EpochDistance(raw, hint, best) == EpochDistance(raw, hint, c))
  }

  lemma BestCandidate(raw: nat, hint: nat, best: nat)
    requires raw < TIMESTAMP_MODULUS
    requires var base := hint / TIMESTAMP_MODULUS;
             && Improves(raw, hint, if base == 0 then 0 else base - 1, best)
             && Improves(raw, hint, base, best)
             && Improves(raw, hint, base + 1, best)
    ensures best == NearestEpochOf(raw, hint)
  {
    var base := hint / TIMESTAMP_MODULUS;
    var rest := hint % TIMESTAMP_MODULUS;
    assert hint == base * TIMESTAMP_MODULUS + rest;
    var near := NearestEpochOf(raw, hint);
    assert near == base || near == base + 1 || near == base - 1;
    NearestEpochMinimises(raw, hint, best);
    NearestEpochMinimises(raw, hint, near);
  }

  /**
    Every intermediate value of the search fits in 64 bits exactly when the
    hint is not in the topmost epoch; the demuxer's own hints are
    non-negative 63-bit times.
   */
  lemma NearestEpochFitsU64(raw: nat, hint: nat)
    requires raw < TIMESTAMP_MODULUS
    ensures (hint / TIMESTAMP_MODULUS + 1) * TIMESTAMP_MODULUS + raw <= U64_MAX <==>
            hint < U64_MAX + 1 - TIMESTAMP_MODULUS
  {
    var base := hint / TIMESTAMP_MODULUS;
    assert U64_MAX + 1 == 0x8000_0000 * TIMESTAMP_MODULUS;
    if base + 1 < 0x8000_0000 {
      assert (base + 2) * TIMESTAMP_MODULUS <= 0x8000_0000 * TIMESTAMP_MODULUS;
    }
  }

  function ExtendNear(rawTimestamp: nat, reference: nat): nat {
    var raw := rawTimestamp % TIMESTAMP_MODULUS;
    NearestEpochOf(raw, reference) * TIMESTAMP_MODULUS + raw
  }

  /** The exact set of references that recover a true time from its 33-bit residue. */
  lemma ExtendNearRecovers(time: nat, reference: nat)
    ensures ExtendNear(time % TIMESTAMP_MODULUS, reference) == time <==>
            reference - time <= WRAP_THRESHOLD
            && (time - reference < WRAP_THRESHOLD || time < TIMESTAMP_MODULUS)
  {
    var raw := time % TIMESTAMP_MODULUS;
    var k := time / TIMESTAMP_MODULUS;
    assert time == k * TIMESTAMP_MODULUS + raw;
    var near := NearestEpochOf(raw, reference);
    if near < k {
      assert near * TIMESTAMP_MODULUS + TIMESTAMP_MODULUS <= k * TIMESTAMP_MODULUS;
    } else if k < near {
      assert k * TIMESTAMP_MODULUS + TIMESTAMP_MODULUS <= near * TIMESTAMP_MODULUS;
    }
  }

  /** PCR bases laid on the extended axis at their modular delta from the head anchor. */
  function PcrExt90k(headBase: Option<nat>, rawBase: nat): nat
    requires headBase.Some? ==> headBase.value < TIMESTAMP_MODULUS
  {
    match headBase
    case Some(fb) => fb + (rawBase + TIMESTAMP_MODULUS - fb) % TIMESTAMP_MODULUS
    case None => rawBase
  }

  /** Exact within one wrap of the head, and only there. */
  lemma PcrExtRecovers(headBase: nat, time: nat)
    requires headBase < TIMESTAMP_MODULUS
    ensures PcrExt90k(Some(headBase), time % TIMESTAMP_MODULUS) == time <==>
            headBase <= time < headBase + TIMESTAMP_MODULUS
  {
    var raw := time % TIMESTAMP_MODULUS;
    var k := time / TIMESTAMP_MODULUS;
    assert time == k * TIMESTAMP_MODULUS + raw;
    if headBase <= time < headBase + TIMESTAMP_MODULUS {
      assert k == 0 || k == 1;
    }
  }

  datatype TimestampEvent = First | Forward | Wrapped | Backward

  /** The fields of one tracker, as a value. */
  datatype TrackerState = TrackerState(wrapCount: nat, lastRaw: Option<nat>, seedHint: Option<nat>)
  {
    ghost predicate Valid() {
      && (lastRaw.Some? ==> lastRaw.value < TIMESTAMP_MODULUS)
      && (lastRaw.None? ==> wrapCount == 0)
    }

    function Extended(): Option<nat> {
      match lastRaw
      case None => None
      case Some(raw) => Some(wrapCount * TIMESTAMP_MODULUS + raw)
    }
  }

  const FRESH: TrackerState := TrackerState(0, None, None)

  function Seeded(hint: nat): TrackerState {
    TrackerState(0, None, Some(hint))
  }

  /** One observation, as a function of the state before it. */
  function ObserveState(s: TrackerState, rawTimestamp: nat): (r: (TrackerState, TimestampEvent)) {
    var raw := rawTimestamp % TIMESTAMP_MODULUS;
    match s.lastRaw
    case None =>
      (TrackerState(
         if s.seedHint.Some? then NearestEpochOf(raw, s.seedHint.value) else s.wrapCount,
         Some(raw), None), First)
    case Some(prev) =>
      var seen := s.(lastRaw := Some(raw));
      if raw >= prev then
        if raw - prev > WRAP_THRESHOLD then (seen.(wrapCount := 0), Backward) else (seen, Forward)
      else if prev - raw > WRAP_THRESHOLD then
        (seen.(wrapCount := s.wrapCount + 1), Wrapped)
      else
        (seen.(wrapCount := 0), Backward)
  }

  class PtsTracker {
    var wrapCount: nat
    var lastRaw: Option<nat>
    var seedHint: Option<nat>

    ghost function State(): TrackerState
      reads this
    {
      TrackerState(wrapCount, lastRaw, seedHint)
    }

    constructor ()
      ensures State() == FRESH
    {
      wrapCount, lastRaw, seedHint := 0, None, None;
    }

    method Observe(rawTimestamp: nat) returns (event: TimestampEvent)
      modifies this
      ensures (State(), event) == ObserveState(old(State()), rawTimestamp)
    {
      var raw := rawTimestamp % TIMESTAMP_MODULUS;
      if lastRaw.None? {
        lastRaw := Some(raw);
        if seedHint.Some? {
          var hint := seedHint.value;
          seedHint := None;
          wrapCount := NearestEpoch(raw, hint);
        }
        return First;
      }
      var prev := lastRaw.value;
      lastRaw := Some(raw);
      if raw >= prev {
        var forward := raw - prev;
        if forward > WRAP_THRESHOLD {
          wrapCount := 0;
          event := Backward;
        } else {
          event := Forward;
        }
      } else {
        var backward := prev - raw;
        if backward > WRAP_THRESHOLD {
          wrapCount := wrapCount + 1;
          event := Wrapped;
        } else {
          wrapCount := 0;
          event := Backward;
        }
      }
    }

    function Extended(): Option<nat>
      reads this
    {
      if lastRaw.None? then None else Some(wrapCount * TIMESTAMP_MODULUS + lastRaw.value)
    }

    method Reset()
      modifies this
      ensures State() == FRESH
    {
      wrapCount, lastRaw, seedHint := 0, None, None;
    }

    method Seed(extendedHint: nat)
      modifies this
      ensures State() == Seeded(extendedHint)
    {
      Reset();
      seedHint := Some(extendedHint);
    }
  }

  /** The tracker last reported the true time `time`. */
  ghost predicate Tracks(s: TrackerState, time: nat) {
    s == TrackerState(time / TIMESTAMP_MODULUS, Some(time % TIMESTAMP_MODULUS), None)
  }

  lemma TracksExtended(s: TrackerState, time: nat)
    requires s.Valid() && s.seedHint.None? && s.lastRaw.Some?
    ensures Tracks(s, time) <==> s.Extended() == Some(time)
  {
    var m := TIMESTAMP_MODULUS;
    var e := s.wrapCount * m + s.lastRaw.value;
    assert e / m == s.wrapCount && e % m == s.lastRaw.value;
  }

  /** First observation after construction, reset or seed. */
  lemma FirstObservation(s: TrackerState, time: nat)
    requires s == FRESH || (s.seedHint.Some? && s == Seeded(s.seedHint.value))
    ensures var next := ObserveState(s, time % TIMESTAMP_MODULUS).0;
            && next.Valid()
            && (Tracks(next, time) <==>
                if s == FRESH then time < TIMESTAMP_MODULUS
                else s.seedHint.value - time <= WRAP_THRESHOLD
                     && (time - s.seedHint.value < WRAP_THRESHOLD || time < TIMESTAMP_MODULUS))
  {
    var next := ObserveState(s, time % TIMESTAMP_MODULUS).0;
    TracksExtended(next, time);
    if s != FRESH {
      ExtendNearRecovers(time, s.seedHint.value);
    }
  }

  /**
    A later observation under half a ring away. The tracker keeps the true
    time exactly when the step does not go backward, or when it lands in
    epoch 0, where the re-anchoring to the raw value happens to be right.
   */
  lemma NextObservation(s: TrackerState, time: nat, next: nat)
    requires Tracks(s, time)
    requires Distance(time, next) < WRAP_THRESHOLD
    ensures var (s', event) := ObserveState(s, next % TIMESTAMP_MODULUS);
            && s'.Valid()
            && (Tracks(s', next) <==> time <= next || next < TIMESTAMP_MODULUS)
            && (event == Backward <==> next < time)
            && (event == Wrapped <==> time <= next && time / TIMESTAMP_MODULUS < next / TIMESTAMP_MODULUS)
  {
    var m := TIMESTAMP_MODULUS;
    var k, k' := time / m, next / m;
    assert time == k * m + time % m && next == k' * m + next % m;
    if k' < k {
      assert k' * m + m <= k * m;
      assert k' + 1 == k;
    } else if k < k' {
      assert k * m + m <= k' * m;
      assert k + 1 == k';
    }
  }

  /** A timeline the sequential tracker is meant for. */
  ghost predicate Steady(times: seq<nat>) {
    forall i :: 0 < i < |times| ==> times[i - 1] <= times[i] < times[i - 1] + WRAP_THRESHOLD
  }

  function Unwrap(s: TrackerState, raws: seq<nat>): (r: seq<Option<nat>>)
    ensures |r| == |raws|
    decreases |raws|
  {
    if raws == [] then []
    else
      var next := ObserveState(s, raws[0]).0;
      [next.Extended()] + Unwrap(next, raws[1..])
  }

  function Raws(times: seq<nat>): (r: seq<nat>) {
    seq(|times|, i requires 0 <= i < |times| => times[i] % TIMESTAMP_MODULUS)
  }

  lemma {:induction false} SequentialUnwrap(s: TrackerState, last: nat, times: seq<nat>)
    requires Tracks(s, last)
    requires Steady([last] + times)
    ensures Unwrap(s, Raws(times)) == seq(|times|, i requires 0 <= i < |times| => Some(times[i]))
    decreases |times|
  {
    hide ObserveState, Tracks, Steady;
    if times != [] {
      SteadyTail(last, times);
      NextTracked(s, last, times[0]);
      var raw := times[0] % TIMESTAMP_MODULUS;
      assert Raws(times)[0] == raw;
      assert Raws(times)[1..] == Raws(times[1..]);
      SequentialUnwrap(ObserveState(s, raw).0, times[0], times[1..]);
    }
  }

  lemma SteadyTail(last: nat, times: seq<nat>)
    requires times != [] && Steady([last] + times)
    ensures last <= times[0] < last + WRAP_THRESHOLD
    ensures Steady(times) && Steady([times[0]] + times[1..])
  {
    var all := [last] + times;
    assert all[0] == last && all[1] == times[0];
    forall i | 0 < i < |times| ensures times[i - 1] <= times[i] < times[i - 1] + WRAP_THRESHOLD {
      assert all[i] == times[i - 1] && all[i + 1] == times[i];
    }
    assert [times[0]] + times[1..] == times;
  }

  lemma NextTracked(s: TrackerState, time: nat, next: nat)
    requires Tracks(s, time) && time <= next < time + WRAP_THRESHOLD
    ensures var s' := ObserveState(s, next % TIMESTAMP_MODULUS).0;
            Tracks(s', next) && s'.Extended() == Some(next)
  {
    NextObservation(s, time, next);
    TracksExtended(ObserveState(s, next % TIMESTAMP_MODULUS).0, next);
  }

  /** On one steady timeline all three unwrappers report the true times. */
  lemma UnwrappersAgree(times: seq<nat>, references: seq<nat>)
    requires 0 < |times| == |references| && Steady(times)
    requires times[0] < TIMESTAMP_MODULUS
    requires forall i | 0 <= i < |times| :: Distance(times[i], references[i]) < WRAP_THRESHOLD
    ensures forall i | 0 <= i < |times| ::
              && Unwrap(FRESH, Raws(times))[i] == Some(times[i])
              && ExtendNear(times[i] % TIMESTAMP_MODULUS, references[i]) == times[i]
              && (PcrExt90k(Some(times[0]), times[i] % TIMESTAMP_MODULUS) == times[i] <==>
                  times[i] < times[0] + TIMESTAMP_MODULUS)
  {
    FirstObservation(FRESH, times[0]);
    var first := ObserveState(FRESH, Raws(times)[0]).0;
    TracksExtended(first, times[0]);
    assert [times[0]] + times[1..] == times;
    SequentialUnwrap(first, times[0], times[1..]);
    assert Raws(times)[1..] == Raws(times[1..]);
    SteadyIsMonotone(times);
    forall i | 0 <= i < |times|
      ensures ExtendNear(times[i] % TIMESTAMP_MODULUS, references[i]) == times[i]
      ensures PcrExt90k(Some(times[0]), times[i] % TIMESTAMP_MODULUS) == times[i] <==>
              times[i] < times[0] + TIMESTAMP_MODULUS
    {
      ExtendNearRecovers(times[i], references[i]);
      PcrExtRecovers(times[0], times[i]);
    }
  }

  lemma {:induction false} SteadyIsMonotone(times: seq<nat>)
    requires Steady(times)
    ensures forall i, j | 0 <= i <= j < |times| :: times[i] <= times[j]
  {
    if times != [] {
      var init := times[..|times| - 1];
      SteadyIsMonotone(init);
      forall i | 0 <= i < |times| ensures times[i] <= times[|times| - 1] {
        if i < |times| - 1 {
          assert init[i] <= init[|init| - 1];
        }
      }
    }
  }
}
