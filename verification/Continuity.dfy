/** The 4-bit continuity counter of one PID, and what its events add up to. */
module Continuity {
  import opened Arithmetic
  import opened Wrappers

  datatype ContinuityEvent = Continuous | Duplicate | NoPayload | Dropped(gap: nat) | Discontinuity

  datatype CcState = CcState(lastPayloadCc: Option<nat>, duplicateAlreadySeen: bool)

  const EMPTY := CcState(None, false)

  function ObserveCc(s: CcState, counter: nat, hasPayload: bool, discontinuity: bool): (CcState, ContinuityEvent) {
    var cc := counter % 16;
    if discontinuity then
      (CcState(if hasPayload then Some(cc) else None, false), Discontinuity)
    else if !hasPayload then
      (s, NoPayload)
    else
      match s.lastPayloadCc
      case None => (CcState(Some(cc), false), Continuous)
      case Some(prev) =>
        var expected := (prev + 1) % 16;
        if cc == expected then (CcState(Some(cc), false), Continuous)
        else if cc == prev && !s.duplicateAlreadySeen then (s.(duplicateAlreadySeen := true), Duplicate)
        else
          var gap := (cc - expected) % 16;
          (CcState(Some(cc), false), Dropped(if gap < 1 then 1 else gap))
  }

  class ContinuityTracker {
    var lastPayloadCc: Option<nat>
    var duplicateAlreadySeen: bool

    ghost function State(): CcState
      reads this
    {
      CcState(lastPayloadCc, duplicateAlreadySeen)
    }

    constructor ()
      ensures State() == EMPTY
    {
      lastPayloadCc, duplicateAlreadySeen := None, false;
    }

    method Observe(counter: nat, hasPayload: bool, discontinuity: bool) returns (event: ContinuityEvent)
      modifies this
      ensures (State(), event) == ObserveCc(old(State()), counter, hasPayload, discontinuity)
    {
      var cc := counter % 16;
      if discontinuity {
        lastPayloadCc := if hasPayload then Some(cc) else None;
        duplicateAlreadySeen := false;
        return Discontinuity;
      }
      if !hasPayload {
        return NoPayload;
      }
      if lastPayloadCc.None? {
        lastPayloadCc, duplicateAlreadySeen := Some(cc), false;
        return Continuous;
      }
      var prev := lastPayloadCc.value;
      var expected := (prev + 1) % 16;
      if cc == expected {
        lastPayloadCc, duplicateAlreadySeen := Some(cc), false;
        event := Continuous;
      } else if cc == prev && !duplicateAlreadySeen {
        duplicateAlreadySeen := true;
        event := Duplicate;
      } else {
        var gap := (cc - expected) % 16;
        lastPayloadCc, duplicateAlreadySeen := Some(cc), false;
        event := Dropped(if gap < 1 then 1 else gap);
      }
    }

    method Reset()
      modifies this
      ensures State() == EMPTY
    {
      lastPayloadCc, duplicateAlreadySeen := None, false;
    }
  }

  // ---- Loss accounting over a whole reception ----

  /** The n-th payload packet the sender emitted, or a payload-less packet with any counter. */
  datatype Arrival = Payload(index: nat) | Bare(counter: nat)

  function Indices(arrivals: seq<Arrival>): (r: seq<nat>) {
    if arrivals == [] then []
    else
      var n := |arrivals| - 1;
      Indices(arrivals[..n]) + (if arrivals[n].Payload? then [arrivals[n].index] else [])
  }

  datatype Tally = Tally(state: CcState, gaps: nat, duplicates: nat)

  /** Feed a reception to a fresh tracker; the sender numbered its payload packets from `start`. */
  function Account(start: nat, arrivals: seq<Arrival>): Tally {
    if arrivals == [] then Tally(EMPTY, 0, 0)
    else
      var n := |arrivals| - 1;
      var t := Account(start, arrivals[..n]);
      var (s, event) := match arrivals[n]
                        case Payload(i) => ObserveCc(t.state, start + i, true, false)
                        case Bare(c) => ObserveCc(t.state, c, false, false);
      Tally(s,
            t.gaps + (if event.Dropped? then event.gap else 0),
            t.duplicates + (if event.Duplicate? then 1 else 0))
  }

  /** The last index in `idx` arrived twice in a row. */
  ghost predicate RepeatedLast(idx: seq<nat>) {
    |idx| >= 2 && idx[|idx| - 2] == idx[|idx| - 1]
  }

  /**
    No reordering, no third copy, and no loss the counter cannot express: up
    to 14 packets, or 15 when the packet before the gap had come twice (its
    equal counter can then no longer pass for a duplicate).
   */
  ghost predicate Countable(idx: seq<nat>) {
    forall i | 0 < i < |idx| ::
      if idx[i] == idx[i - 1] then !RepeatedLast(idx[..i])
      else idx[i - 1] < idx[i] <= idx[i - 1] + (if RepeatedLast(idx[..i]) then 16 else 15)
  }

  ghost function Lost(idx: seq<nat>): set<nat> {
    if idx == [] then {} else set k: nat | idx[0] <= k < idx[|idx| - 1] && k !in idx
  }

  ghost function ReceivedTwice(idx: seq<nat>): set<nat> {
    set k | k in idx && multiset(idx)[k] == 2
  }

  /** What the tracker holds after a countable reception. */
  ghost predicate InStep(s: CcState, start: nat, idx: seq<nat>) {
    if idx == [] then s == EMPTY
    else s == CcState(Some((start + idx[|idx| - 1]) % 16), RepeatedLast(idx))
  }

  /** One arrival after a gap of `n` lost packets is reported as such exactly when the counter can express it. */
  lemma GapIsExact(start: nat, idx: seq<nat>, s: CcState, n: nat)
    requires idx != [] && InStep(s, start, idx)
    ensures var (s', event) := ObserveCc(s, start + idx[|idx| - 1] + 1 + n, true, false);
            (n == 0 && event == Continuous) || (n > 0 && event == Dropped(n)) <==>
            n <= 14 || (n == 15 && RepeatedLast(idx))
  {
    var last := start + idx[|idx| - 1];
    ModStep(last, n);
  }

  lemma ModStep(last: nat, n: nat)
    ensures ((last + 1 + n) % 16 - (last % 16 + 1) % 16) % 16 == n % 16
    ensures (last + 1 + n) % 16 == (last % 16 + 1) % 16 <==> n % 16 == 0
    ensures (last + 1 + n) % 16 == last % 16 <==> n % 16 == 15
  {
    var r, m := last % 16, n % 16;
    var t := r + 1 + m;
    var q := last / 16 + n / 16;
    assert last + 1 + n == q * 16 + t;
    if t < 16 {
      QuotientIs(last + 1 + n, 16, q, t);
    } else {
      QuotientIs(last + 1 + n, 16, q + 1, t - 16);
    }
  }

  lemma CountablePrefix(idx: seq<nat>, x: nat)
    requires Countable(idx + [x])
    ensures Countable(idx)
  {
    var all := idx + [x];
    forall i | 0 < i < |idx|
      ensures if idx[i] == idx[i - 1] then !RepeatedLast(idx[..i])
              else idx[i - 1] < idx[i] <= idx[i - 1] + (if RepeatedLast(idx[..i]) then 16 else 15)
    {
      assert all[..i] == idx[..i] && all[i] == idx[i] && all[i - 1] == idx[i - 1];
    }
  }

  lemma {:induction false} CountableAscends(idx: seq<nat>)
    requires Countable(idx)
    ensures forall i | 0 <= i < |idx| :: idx[i] <= idx[|idx| - 1]
  {
    if |idx| >= 2 {
      var n := |idx| - 1;
      assert idx == idx[..n] + [idx[n]];
      CountablePrefix(idx[..n], idx[n]);
      CountableAscends(idx[..n]);
      assert idx[n - 1] <= idx[n];
      forall i | 0 <= i < n ensures idx[i] <= idx[n] {
        assert idx[..n][i] <= idx[..n][|idx[..n]| - 1];
      }
    }
  }

  lemma CountAppended(idx: seq<nat>, x: nat, k: nat)
    ensures multiset(idx + [x])[k] == multiset(idx)[k] + (if k == x then 1 else 0)
    ensures k in idx + [x] <==> k in idx || k == x
  {
    assert multiset(idx + [x]) == multiset(idx) + multiset{x};
  }

  /** Appending a second copy of the last index adds it to the twice-received and loses nothing. */
  lemma AppendRepeat(idx: seq<nat>)
    requires idx != [] && Countable(idx) && !RepeatedLast(idx)
    ensures var last := idx[|idx| - 1];
            && Lost(idx + [last]) == Lost(idx)
            && last !in ReceivedTwice(idx)
            && ReceivedTwice(idx + [last]) == ReceivedTwice(idx) + {last}
  {
    var last := idx[|idx| - 1];
    CountedOnce(idx);
    forall k: nat
      ensures k in idx + [last] <==> k in idx
      ensures k in ReceivedTwice(idx + [last]) <==> k in ReceivedTwice(idx) || k == last
    {
      CountAppended(idx, last, k);
    }
  }

  lemma CountedOnce(idx: seq<nat>)
    requires idx != [] && Countable(idx) && !RepeatedLast(idx)
    ensures multiset(idx)[idx[|idx| - 1]] == 1
  {
    var n := |idx| - 1;
    var init, last := idx[..n], idx[n];
    assert idx == init + [last];
    CountablePrefix(init, last);
    CountableAscends(init);
    if n > 0 {
      assert idx[n - 1] < last;
      assert forall i | 0 <= i < n :: init[i] <= init[n - 1] < last;
    }
    assert last !in init;
    CountAppended(init, last, last);
  }

  /** Appending a later index loses exactly the ones skipped. */
  lemma AppendLater(idx: seq<nat>, x: nat)
    requires idx != [] && Countable(idx) && idx[|idx| - 1] < x
    ensures |Lost(idx + [x])| == |Lost(idx)| + (x - idx[|idx| - 1] - 1)
    ensures ReceivedTwice(idx + [x]) == ReceivedTwice(idx)
  {
    var last := idx[|idx| - 1];
    var all := idx + [x];
    CountableAscends(idx);
    var skipped := Interval(last + 1, x);
    assert forall k | k in idx :: k <= last;
    assert forall k: nat :: k in all <==> k in idx || k == x;
    assert Lost(all) == Lost(idx) + skipped;
    assert Lost(idx) !! skipped;
    assert x !in idx;
    forall k: nat ensures k in ReceivedTwice(all) <==> k in ReceivedTwice(idx) {
      CountAppended(idx, x, k);
    }
  }

  ghost function Interval(lo: nat, hi: nat): (s: set<nat>)
    requires lo <= hi
    ensures forall k: nat :: k in s <==> lo <= k < hi
    ensures |s| == hi - lo
    decreases hi - lo
  {
    if lo == hi then {} else Interval(lo, hi - 1) + {hi - 1}
  }

  /** Packets lost between the last index and the next, and whether the next repeats it. */
  function Skipped(idx: seq<nat>, x: nat): nat {
    if idx == [] || x <= idx[|idx| - 1] then 0 else x - idx[|idx| - 1] - 1
  }

  predicate Repeats(idx: seq<nat>, x: nat) {
    idx != [] && x == idx[|idx| - 1]
  }

  lemma ObserveKeepsStep(start: nat, idx: seq<nat>, x: nat, s: CcState)
    requires Countable(idx + [x]) && InStep(s, start, idx)
    ensures var (s', event) := ObserveCc(s, start + x, true, false);
            && InStep(s', start, idx + [x])
            && (if event.Dropped? then event.gap else 0) == Skipped(idx, x)
            && (event.Duplicate? <==> Repeats(idx, x))
  {
    var all := idx + [x];
    if idx != [] {
      var last := idx[|idx| - 1];
      assert all[..|idx|] == idx;
      assert all[|idx|] == x && all[|idx| - 1] == last;
      if x == last {
        assert !RepeatedLast(idx);
      } else {
        GapIsExact(start, idx, s, x - last - 1);
        ModStep(start + last, x - last - 1);
      }
    }
  }

  lemma CountStep(idx: seq<nat>, x: nat)
    requires Countable(idx + [x])
    ensures |Lost(idx + [x])| == |Lost(idx)| + Skipped(idx, x)
    ensures |ReceivedTwice(idx + [x])| == |ReceivedTwice(idx)| + (if Repeats(idx, x) then 1 else 0)
  {
    var all := idx + [x];
    CountablePrefix(idx, x);
    if idx == [] {
      assert all == [x];
      assert multiset(all)[x] == 1;
      assert Lost(all) == {} && ReceivedTwice(all) == {};
    } else {
      var last := idx[|idx| - 1];
      assert all[..|idx|] == idx;
      assert all[|idx|] == x && all[|idx| - 1] == last;
      if x == last {
        AppendRepeat(idx);
      } else {
        AppendLater(idx, x);
      }
    }
  }

  /**
    Over every countable reception the reported gaps add up to the packets
    lost between the first and the last received, and the duplicate events
    to the packets received twice.
   */
  lemma {:induction false} LossAccounting(start: nat, arrivals: seq<Arrival>)
    requires Countable(Indices(arrivals))
    ensures var idx := Indices(arrivals);
            var t := Account(start, arrivals);
            && InStep(t.state, start, idx)
            && t.gaps == |Lost(idx)|
            && t.duplicates == |ReceivedTwice(idx)|
  {
    hide ObserveCc, InStep, Lost, ReceivedTwice, Countable, Skipped, Repeats;
    if arrivals == [] {
      NothingReceived(start);
    } else {
      var n := |arrivals| - 1;
      var before := Indices(arrivals[..n]);
      var t := Account(start, arrivals[..n]);
      if arrivals[n].Payload? {
        var x := arrivals[n].index;
        assert Indices(arrivals) == before + [x];
        CountablePrefix(before, x);
        LossAccounting(start, arrivals[..n]);
        ObserveKeepsStep(start, before, x, t.state);
        CountStep(before, x);
      } else {
        assert Indices(arrivals) == before + [] == before;
        LossAccounting(start, arrivals[..n]);
        BarePacket(t.state, arrivals[n].counter);
      }
    }
  }

  lemma NothingReceived(start: nat)
    ensures InStep(EMPTY, start, []) && Lost([]) == {} && ReceivedTwice([]) == {}
  {
  }

  /** Packets without payload leave the tracker where it was. */
  lemma BarePacket(s: CcState, counter: nat)
    ensures ObserveCc(s, counter, false, false) == (s, NoPayload)
  {
  }
}
