/** 27 MHz clock recovery on one PCR PID. */
module PcrClock {
  import opened Arithmetic
  import opened Wrappers

  const PCR_MODULUS: nat := 0x2_0000_0000 * 300
  const DEFAULT_MAX_JITTER: nat := 2_700_000

  datatype Pcr = Pcr(ticks27Mhz: nat)
  {
    function Base90Khz(): nat { ticks27Mhz / 300 }

    function Extension(): nat { ticks27Mhz % 300 }

    /** Signed difference on the PCR ring. */
    function DeltaTicks(other: Pcr): int {
      var half := PCR_MODULUS / 2;
      var raw := ticks27Mhz - other.ticks27Mhz;
      if raw > half then raw - PCR_MODULUS
      else if raw < -half then raw + PCR_MODULUS
      else raw
    }
  }

  function FromBaseExt(base: nat, extension: nat): Pcr {
    Pcr((base % 0x2_0000_0000) * 300 + extension % 300)
  }

  /** Base and extension are the ring's two digits: encoding a tick count and composing it again wraps it. */
  lemma BaseExtRoundTrip(ticks: nat)
    ensures var p := Pcr(ticks % PCR_MODULUS);
            FromBaseExt(p.Base90Khz(), p.Extension()) == p
  {
    var t := ticks % PCR_MODULUS;
    assert t / 300 < 0x2_0000_0000;
  }

  /** The ring difference recovers a true one of either sign below half a wrap. */
  lemma DeltaRecovers(before: nat, after: nat)
    requires -(PCR_MODULUS / 2) < after - before < PCR_MODULUS / 2
    ensures Pcr(after % PCR_MODULUS).DeltaTicks(Pcr(before % PCR_MODULUS)) == after - before
  {
    var m := PCR_MODULUS;
    var k, k' := before / m, after / m;
    assert before == k * m + before % m && after == k' * m + after % m;
    if k' < k {
      assert k' * m + m <= k * m;
      assert k' + 1 == k;
    } else if k < k' {
      assert k * m + m <= k' * m;
      assert k + 1 == k';
    }
  }

  function SatSub(a: nat, b: nat): nat {
    if a < b then 0 else a - b
  }

  /** Division rounding toward zero. */
  function TruncDiv(a: int, b: nat): int
    requires b > 0
  {
    if a >= 0 then a / b else -((-a) / b)
  }

  /** A 128-bit value cut to 64 signed bits. */
  function AsI64(x: int): int {
    (x + 0x8000_0000_0000_0000) % 0x1_0000_0000_0000_0000 - 0x8000_0000_0000_0000
  }

  function ComputeBitrateBps(deltaPcr: int, deltaBytes: nat): nat {
    if deltaPcr <= 0 || deltaBytes == 0 then 0
    else (deltaBytes * 8 * 27_000_000 / deltaPcr) % 0x1_0000_0000_0000_0000
  }

  datatype AdaptationField = AdaptationField(discontinuity: bool, pcrBase: Option<nat>, pcrExtension: Option<nat>)

  datatype DiscontinuityReason = Signalled | JumpExceedsTolerance(observedDelta: int, predictedDelta: int)

  datatype PcrEvent =
    | Sample(pcr: Pcr, jitter: int, bitrate: nat)
    | Discontinuity(pcr: Pcr, reason: DiscontinuityReason)

  datatype Mark = Mark(pcr: Pcr, offset: nat)

  datatype PcrState = PcrState(maxJitter: nat, last: Option<Mark>, prev: Option<Mark>, pendingSignalled: bool)
  {
    ghost predicate Valid() { prev.Some? ==> last.Some? }
  }

  function PredictedDelta(prev: Mark, last: Mark, offset: nat): int {
    var prevBytes := SatSub(last.offset, prev.offset);
    var divisor := if prevBytes < 1 then 1 else prevBytes;
    AsI64(TruncDiv(last.pcr.DeltaTicks(prev.pcr) * SatSub(offset, last.offset), divisor))
  }

  function Abs(x: int): nat { if x < 0 then -x else x }

  function ObservePcr(s: PcrState, af: AdaptationField, offset: nat): (PcrState, Option<PcrEvent>) {
    var pending := s.pendingSignalled || af.discontinuity;
    if af.pcrBase.None? || af.pcrExtension.None? then (s.(pendingSignalled := pending), None)
    else
      var pcr := FromBaseExt(af.pcrBase.value, af.pcrExtension.value);
      var here := Some(Mark(pcr, offset));
      if pending then
        (PcrState(s.maxJitter, here, None, false), Some(Discontinuity(pcr, Signalled)))
      else
        var advanced := PcrState(s.maxJitter, here, s.last, false);
        match (s.prev, s.last)
        case (_, None) => (advanced, Some(Sample(pcr, 0, 0)))
        case (None, Some(last)) =>
          (advanced,
           Some(Sample(pcr, 0, ComputeBitrateBps(pcr.DeltaTicks(last.pcr), SatSub(offset, last.offset)))))
        case (Some(prev), Some(last)) =>
          var predicted := PredictedDelta(prev, last, offset);
          var observed := pcr.DeltaTicks(last.pcr);
          var jitter := observed - predicted;
          if Abs(jitter) > s.maxJitter then
            (PcrState(s.maxJitter, here, None, false),
             Some(Discontinuity(pcr, JumpExceedsTolerance(observed, predicted))))
          else
            (advanced, Some(Sample(pcr, jitter, ComputeBitrateBps(observed, SatSub(offset, last.offset)))))
  }

  class PcrTracker {
    var maxJitter: nat
    var last: Option<Mark>
    var prev: Option<Mark>
    var pendingSignalled: bool

    ghost function State(): PcrState
      reads this
    {
      PcrState(maxJitter, last, prev, pendingSignalled)
    }

    constructor WithJitterWindow(window: nat)
      ensures State() == PcrState(window, None, None, false)
    {
      maxJitter, last, prev, pendingSignalled := window, None, None, false;
    }

    method Observe(af: AdaptationField, offset: nat) returns (event: Option<PcrEvent>)
      modifies this
      ensures (State(), event) == ObservePcr(old(State()), af, offset)
      ensures old(State().Valid()) ==> State().Valid()
    {
      if af.discontinuity {
        pendingSignalled := true;
      }
      if af.pcrBase.None? || af.pcrExtension.None? {
        return None;
      }
      var pcr := FromBaseExt(af.pcrBase.value, af.pcrExtension.value);
      if pendingSignalled {
        pendingSignalled := false;
        last := Some(Mark(pcr, offset));
        prev := None;
        return Some(Discontinuity(pcr, Signalled));
      }
      var sample;
      match (prev, last) {
        case (None, None) =>
          sample := Sample(pcr, 0, 0);
        case (None, Some(l)) =>
          var dbytes := SatSub(offset, l.offset);
          sample := Sample(pcr, 0, ComputeBitrateBps(pcr.DeltaTicks(l.pcr), dbytes));
        case (Some(p), Some(l)) =>
          var curBytes := SatSub(offset, l.offset);
          var predicted := PredictedDelta(p, l, offset);
          var observed := pcr.DeltaTicks(l.pcr);
          var jitter := observed - predicted;
          if Abs(jitter) > maxJitter {
            last := Some(Mark(pcr, offset));
            prev := None;
            return Some(Discontinuity(pcr, JumpExceedsTolerance(observed, predicted)));
          }
          sample := Sample(pcr, jitter, ComputeBitrateBps(observed, curBytes));
        case (Some(_), None) =>
          sample := Sample(pcr, 0, 0);
      }
      prev := last;
      last := Some(Mark(pcr, offset));
      return Some(sample);
    }

    method Reset()
      modifies this
      ensures State() == PcrState(old(maxJitter), None, None, false)
    {
      last, prev, pendingSignalled := None, None, false;
    }
  }

  // ---- The jitter bound on a constant-rate clock ----

  /** Clock ticks at a byte offset when the multiplex runs at `num / den` ticks a byte. */
  function TicksAt(num: nat, den: nat, offset: nat): nat
    requires den > 0
  {
    num * offset / den
  }

  /** The adaptation field a constant-rate multiplexer writes at `offset`. */
  function ClockField(num: nat, den: nat, offset: nat): AdaptationField
    requires den > 0
  {
    var p := Pcr(TicksAt(num, den, offset) % PCR_MODULUS);
    AdaptationField(false, Some(p.Base90Khz()), Some(p.Extension()))
  }

  /** Strictly increasing offsets, a sample often enough, within a 62-bit file. */
  ghost predicate Paced(num: nat, den: nat, offsets: seq<nat>)
    requires den > 0
  {
    && (forall i | 0 <= i < |offsets| :: offsets[i] < 0x4000_0000_0000_0000)
    && forall i | 0 < i < |offsets| ::
      && offsets[i - 1] < offsets[i]
      && TicksAt(num, den, offsets[i]) - TicksAt(num, den, offsets[i - 1]) < PCR_MODULUS / 2
  }

  lemma FloorStep(x0: nat, x1: nat, den: nat) returns (e: int)
    requires den > 0 && x0 <= x1
    ensures den * (x1 / den - x0 / den) == x1 - x0 + e
    ensures Abs(e) < den
    ensures den == 1 ==> e == 0
    ensures x0 / den <= x1 / den
  {
    e := x0 % den - x1 % den;
    var q0, q1 := x0 / den, x1 / den;
    assert x0 == den * q0 + x0 % den;
    assert x1 == den * q1 + x1 % den;
    assert den * (q1 - q0) == den * q1 - den * q0;
    NonNegative(q1 - q0, den);
  }

  lemma ProductBound(x: int, g: nat, den: nat)
    requires Abs(x) < den && g > 0
    ensures Abs(x * g) < den * g
  {
    assert 0 < (den - x) * g == den * g - x * g;
    assert 0 < (den + x) * g == den * g + x * g;
  }

  lemma CancelBound(x: int, den: nat, g: nat)
    requires den > 0 && Abs(den * x) < den * g
    ensures Abs(x) < g
  {
    assert den * (g - x) == den * g - den * x > 0;
    assert den * (g + x) == den * g + den * x > 0;
  }

  lemma CrossMultiply(num: nat, den: nat, g1: nat, g2: nat, d1: int, d2: int, e1: int, e2: int)
    requires den * d1 == num * g1 + e1
    requires den * d2 == num * g2 + e2
    ensures den * (d2 * g1 - d1 * g2) == e2 * g1 - e1 * g2
  {
    assert (den * d2) * g1 == (num * g2 + e2) * g1 == num * g2 * g1 + e2 * g1;
    assert (den * d1) * g2 == (num * g1 + e1) * g2 == num * g1 * g2 + e1 * g2;
    assert den * (d2 * g1 - d1 * g2) == (den * d2) * g1 - (den * d1) * g2;
  }

  /** The prediction error before the final rounding, cross-multiplied. */
  lemma CrossError(num: nat, den: nat, o0: nat, o1: nat, o2: nat)
    requires den > 0 && o0 < o1 < o2
    ensures var g1, g2 := o1 - o0, o2 - o1;
            var d1 := TicksAt(num, den, o1) - TicksAt(num, den, o0);
            var d2 := TicksAt(num, den, o2) - TicksAt(num, den, o1);
            && 0 <= d1 && 0 <= d2
            && Abs(d2 * g1 - d1 * g2) < g1 + g2
            && (den == 1 ==> d2 * g1 == d1 * g2)
  {
    hide Abs;
    var d1, e1 := TickStep(num, den, o0, o1);
    var d2, e2 := TickStep(num, den, o1, o2);
    CrossMultiply(num, den, o1 - o0, o2 - o1, d1, d2, e1, e2);
    CrossBound(den, o1 - o0, o2 - o1, d2 * (o1 - o0) - d1 * (o2 - o1), e1, e2);
  }

  lemma TickStep(num: nat, den: nat, o0: nat, o1: nat) returns (d: int, e: int)
    requires den > 0 && o0 < o1
    ensures d == TicksAt(num, den, o1) - TicksAt(num, den, o0) && 0 <= d
    ensures den * d == num * (o1 - o0) + e && Abs(e) < den
    ensures den == 1 ==> e == 0
  {
    hide Abs;
    assert num * o1 - num * o0 == num * (o1 - o0);
    assert 0 <= num * (o1 - o0);
    e := FloorStep(num * o0, num * o1, den);
    d := TicksAt(num, den, o1) - TicksAt(num, den, o0);
  }

  lemma CrossBound(den: nat, g1: nat, g2: nat, x: int, e1: int, e2: int)
    requires den > 0 && g1 > 0 && g2 > 0
    requires den * x == e2 * g1 - e1 * g2
    requires Abs(e1) < den && Abs(e2) < den
    requires den == 1 ==> e1 == 0 && e2 == 0
    ensures Abs(x) < g1 + g2
    ensures den == 1 ==> x == 0
  {
    ProductBound(e2, g1, den);
    ProductBound(e1, g2, den);
    assert den * g1 + den * g2 == den * (g1 + g2);
    CancelBound(x, den, g1 + g2);
  }

  /** Jitter of one sample: below 2 + current gap / previous gap, and none at an integer rate. */
  lemma JitterOfThree(num: nat, den: nat, o0: nat, o1: nat, o2: nat)
    requires den > 0 && Paced(num, den, [o0, o1, o2])
    ensures var jitter := MarkAt(num, den, o2).pcr.DeltaTicks(MarkAt(num, den, o1).pcr)
                          - PredictedDelta(MarkAt(num, den, o0), MarkAt(num, den, o1), o2);
            && BoundedJitter(jitter, o0, o1, o2)
            && (den == 1 ==> jitter == 0)
  {
    var offsets := [o0, o1, o2];
    assert offsets[0] == o0 && offsets[1] == o1 && offsets[2] == o2;
    assert offsets[0] < offsets[1] < offsets[2];
    var t0, t1, t2 := TicksAt(num, den, o0), TicksAt(num, den, o1), TicksAt(num, den, o2);
    assert TicksAt(num, den, offsets[1]) - TicksAt(num, den, offsets[0]) < PCR_MODULUS / 2;
    assert TicksAt(num, den, offsets[2]) - TicksAt(num, den, offsets[1]) < PCR_MODULUS / 2;
    CrossError(num, den, o0, o1, o2);
    var g1, g2, d1, d2 := o1 - o0, o2 - o1, t1 - t0, t2 - t1;
    DeltaRecovers(t0, t1);
    DeltaRecovers(t1, t2);
    var q := d1 * g2 / g1;
    QuotientError(d1, d2, g1, g2, q);
    QuotientNonNegative(d1, g2, g1);
    PredictionOf(MarkAt(num, den, o0), MarkAt(num, den, o1), o2, d1, q);
  }

  lemma QuotientNonNegative(a: nat, b: nat, c: nat)
    requires c > 0
    ensures 0 <= a * b && 0 <= a * b / c
  {
  }

  lemma PredictionOf(prev: Mark, last: Mark, offset: nat, delta: nat, q: int)
    requires prev.offset < last.offset <= offset
    requires last.pcr.DeltaTicks(prev.pcr) == delta
    requires 0 <= delta * (offset - last.offset)
    requires q == delta * (offset - last.offset) / (last.offset - prev.offset)
    requires 0 <= q < 0x8000_0000_0000_0000
    ensures PredictedDelta(prev, last, offset) == q
  {
  }

  lemma QuotientError(d1: nat, d2: nat, g1: nat, g2: nat, q: int)
    requires g1 > 0 && q == d1 * g2 / g1
    requires Abs(d2 * g1 - d1 * g2) < g1 + g2
    ensures Abs(d2 - q) * g1 < 2 * g1 + g2
    ensures d2 * g1 == d1 * g2 ==> q == d2
    ensures q < d2 + 2 + g2
  {
    hide Abs;
    var t := DivideOut(d1 * g2, g1, q);
    Distribute(d2, q, g1);
    ErrorBound(d2 - q, g1, g2, d2 * g1 - d1 * g2, t);
  }

  lemma DivideOut(x: nat, g: nat, q: int) returns (t: nat)
    requires g > 0 && q == x / g
    ensures x == q * g + t && t < g
  {
    t := x % g;
    assert x == g * (x / g) + x % g;
  }

  lemma Distribute(a: int, b: int, g: int)
    ensures (a - b) * g == a * g - b * g
  {
  }

  lemma ErrorBound(e: int, g1: nat, g2: nat, cross: int, t: nat)
    requires g1 > 0 && t < g1 && e * g1 == cross + t && Abs(cross) < g1 + g2
    ensures Abs(e) * g1 < 2 * g1 + g2
    ensures cross == 0 ==> e == 0
    ensures -e < 2 + g2
  {
    AbsProduct(e, g1);
    if cross == 0 {
      CancelBound(e, g1, 1);
    }
    FactorBound(-e, g1, 2, g2);
  }

  lemma AbsProduct(x: int, g: nat)
    ensures Abs(x) * g == Abs(x * g)
  {
    if x < 0 {
      assert (-x) * g == -(x * g);
    }
  }

  lemma FactorBound(x: int, g: nat, c: nat, h: nat)
    requires g > 0 && x * g < c * g + h
    ensures x < c + h
  {
    assert (x - c) * g < h;
    assert x - c >= h ==> (x - c) * g >= h * g >= h;
  }

  function RunPcr(s: PcrState, num: nat, den: nat, offsets: seq<nat>): (r: (PcrState, seq<Option<PcrEvent>>))
    requires den > 0
    ensures |r.1| == |offsets|
  {
    if offsets == [] then (s, [])
    else
      var n := |offsets| - 1;
      var (before, events) := RunPcr(s, num, den, offsets[..n]);
      var (after, event) := ObservePcr(before, ClockField(num, den, offsets[n]), offsets[n]);
      (after, events + [event])
  }

  function MarkAt(num: nat, den: nat, offset: nat): Mark
    requires den > 0
  {
    Mark(Pcr(TicksAt(num, den, offset) % PCR_MODULUS), offset)
  }

  /** The jitter bound of these three offsets does not exceed the window. */
  predicate InsideWindow(window: nat, o0: nat, o1: nat, o2: nat) {
    2 * (o1 - o0) + (o2 - o1) <= (window + 1) * (o1 - o0)
  }

  /** The i-th event of a run is an undisturbed sample within the jitter bound. */
  predicate Regular(den: nat, offsets: seq<nat>, i: nat, event: Option<PcrEvent>)
    requires i < |offsets|
  {
    && event.Some? && event.value.Sample?
    && (i < 2 || den == 1 ==> event.value.jitter == 0)
    && (2 <= i ==> BoundedJitter(event.value.jitter, offsets[i - 2], offsets[i - 1], offsets[i]))
  }

  /** |jitter| < 2 + (o2 - o1) / (o1 - o0), cross-multiplied. */
  predicate BoundedJitter(jitter: int, o0: nat, o1: nat, o2: nat) {
    Abs(jitter) * (o1 - o0) < 2 * (o1 - o0) + (o2 - o1)
  }

  /** A tracker that has just seen these samples. */
  function Holding(window: nat, num: nat, den: nat, offsets: seq<nat>): PcrState
    requires den > 0
  {
    var n := |offsets|;
    PcrState(window,
             if n >= 1 then Some(MarkAt(num, den, offsets[n - 1])) else None,
             if n >= 2 then Some(MarkAt(num, den, offsets[n - 2])) else None, false)
  }

  /**
    Over a whole constant-rate run no jump is reported while the bound stays
    inside the window, and every sample from the third on obeys the bound.
   */
  lemma {:induction false} JitterBound(window: nat, num: nat, den: nat, offsets: seq<nat>)
    requires den > 0 && Paced(num, den, offsets)
    requires forall i | 1 < i < |offsets| :: InsideWindow(window, offsets[i - 2], offsets[i - 1], offsets[i])
    ensures var (s, events) := RunPcr(PcrState(window, None, None, false), num, den, offsets);
            && s == Holding(window, num, den, offsets)
            && forall i | 0 <= i < |offsets| :: Regular(den, offsets, i, events[i])
  {
    hide Paced;
    if offsets != [] {
      var n := |offsets| - 1;
      var init := offsets[..n];
      PrefixPaced(num, den, offsets);
      assert forall i | 0 <= i < n :: init[i] == offsets[i];
      JitterBound(window, num, den, init);
      var events := RunPcr(PcrState(window, None, None, false), num, den, init).1;
      forall i | 0 <= i < n ensures Regular(den, offsets, i, events[i]) {
        RegularPrefix(den, offsets, i, events[i]);
      }
      if n >= 2 {
        LastThreePaced(num, den, offsets);
      }
      NextSample(window, num, den, offsets);
    }
  }

  lemma RegularPrefix(den: nat, offsets: seq<nat>, i: nat, event: Option<PcrEvent>)
    requires i < |offsets| - 1
    requires Regular(den, offsets[..|offsets| - 1], i, event)
    ensures Regular(den, offsets, i, event)
  {
  }

  /** One more sample on a tracker that holds the marks of the two before it. */
  lemma NextSample(window: nat, num: nat, den: nat, offsets: seq<nat>)
    requires den > 0 && offsets != []
    requires var n := |offsets| - 1;
             n >= 2 ==>
               && Paced(num, den, [offsets[n - 2], offsets[n - 1], offsets[n]])
               && offsets[n - 2] < offsets[n - 1] < offsets[n]
               && InsideWindow(window, offsets[n - 2], offsets[n - 1], offsets[n])
    ensures var n := |offsets| - 1;
            var (s, event) := ObservePcr(Holding(window, num, den, offsets[..n]),
                                         ClockField(num, den, offsets[n]), offsets[n]);
            && s == Holding(window, num, den, offsets)
            && Regular(den, offsets, n, event)
  {
    var n := |offsets| - 1;
    BaseExtRoundTrip(TicksAt(num, den, offsets[n]));
    if n >= 2 {
      var o0, o1, o2 := offsets[n - 2], offsets[n - 1], offsets[n];
      JitterOfThree(num, den, o0, o1, o2);
      var jitter := MarkAt(num, den, o2).pcr.DeltaTicks(MarkAt(num, den, o1).pcr)
                    - PredictedDelta(MarkAt(num, den, o0), MarkAt(num, den, o1), o2);
      WindowHolds(Abs(jitter), window, o1 - o0, o2 - o1);
    }
  }

  lemma WindowHolds(jitter: nat, window: nat, g1: nat, g2: nat)
    requires jitter * g1 < 2 * g1 + g2 <= (window + 1) * g1
    ensures jitter <= window
  {
    assert (window + 1 - jitter) * g1 > 0;
  }

  lemma PrefixPaced(num: nat, den: nat, offsets: seq<nat>)
    requires den > 0 && offsets != [] && Paced(num, den, offsets)
    ensures Paced(num, den, offsets[..|offsets| - 1])
  {
    var init := offsets[..|offsets| - 1];
    forall i | 0 < i < |init|
      ensures init[i - 1] < init[i]
      ensures TicksAt(num, den, init[i]) - TicksAt(num, den, init[i - 1]) < PCR_MODULUS / 2
    {
      assert init[i] == offsets[i] && init[i - 1] == offsets[i - 1];
    }
  }

  lemma LastThreePaced(num: nat, den: nat, offsets: seq<nat>)
    requires den > 0 && |offsets| >= 3 && Paced(num, den, offsets)
    ensures var n := |offsets| - 1;
            && Paced(num, den, [offsets[n - 2], offsets[n - 1], offsets[n]])
            && offsets[n - 2] < offsets[n - 1] < offsets[n]
  {
    var n := |offsets| - 1;
    var three := [offsets[n - 2], offsets[n - 1], offsets[n]];
    forall i | 0 < i < 3
      ensures three[i - 1] < three[i]
      ensures TicksAt(num, den, three[i]) - TicksAt(num, den, three[i - 1]) < PCR_MODULUS / 2
    {
      var j := n - 2 + i;
      assert three[i] == offsets[j] && three[i - 1] == offsets[j - 1];
    }
  }
}
