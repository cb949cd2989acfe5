/** What one window scan finds, against what the index knows. */
module SeekWindow {
  import opened AccessPoints
  import opened Locator
  import opened SeekLanding
  import opened SeekRefinement
  import opened StreamGrid
  import opened Timeline
  import opened Timestamps
  import opened Wrappers

  /** Packets behind the scan's variables: the pending flag, the best (flag, PES) pair, the best aligned PES. */
  datatype Trace = Trace(pend: Option<nat>, rai: Option<(nat, nat)>, dai: Option<nat>)

  /** `pend` is a flag of `[from, j)` that has met no start; without one every flag there has. */
  ghost predicate Waits(s: Stream, pid: nat, from: nat, j: nat, pend: Option<nat>) {
    && (pend.Some? ==> from <= pend.value < j && Flags(s, pid, pend.value) && NextStart(s, pid, pend.value, j).None?)
    && (pend.None? ==> forall c: nat | from <= c < j && Flags(s, pid, c) :: NextStart(s, pid, c, j).Some?)
  }

  /** The last PES before packet `j` that a flag of the window announces, at or before the target. */
  ghost predicate RaiSeen(
    s: Stream, pid: nat, times: seq<nat>, target: int, from: nat, j: nat, rai: Option<(nat, nat)>)
  {
    && (rai.Some? ==> from <= rai.value.0 && rai.value.1 < j && rai.value.1 < |times|
                      && Announces(s, pid, rai.value.0, rai.value.1) && Good(s, pid, times, target, rai.value.1))
    && forall c: nat, q: nat | Announces(s, pid, c, q) && q < j && (if rai.Some? then rai.value.1 < q else from <= c) ::
         !Good(s, pid, times, target, q)
  }

  /** The flag pending when packet `j` is reached, with its own. */
  ghost function PendAt(s: Stream, pid: nat, j: nat, pend: Option<nat>): Option<nat> {
    if Flags(s, pid, j) && pend.None? then Some(j) else pend
  }

  ghost function TraceStep(s: Stream, pid: nat, times: seq<nat>, target: int, j: nat, tr: Trace): Trace {
    var pend := PendAt(s, pid, j, tr.pend);
    if !Starts(s, pid, j) then tr.(pend := pend)
    else
      Trace(None,
            if pend.Some? && Good(s, pid, times, target, j) then Some((pend.value, j)) else tr.rai,
            if pend.None? && Aligned(s, pid, j) && Good(s, pid, times, target, j) then Some(j) else tr.dai)
  }

  // ---- Each component ----

  lemma StartExtends(s: Stream, pid: nat, c: nat, j: nat)
    ensures NextStart(s, pid, c, j).Some? ==> NextStart(s, pid, c, j + 1).Some?
    ensures NextStart(s, pid, c, j).None? && !Starts(s, pid, j) ==> NextStart(s, pid, c, j + 1).None?
    ensures NextStart(s, pid, c, j).None? && Starts(s, pid, j) && c <= j ==> NextStart(s, pid, c, j + 1) == Some(j)
    ensures Starts(s, pid, j) && c <= j ==> NextStart(s, pid, c, j + 1).Some?
  {
    hide Starts;
    var a, b := NextStart(s, pid, c, j), NextStart(s, pid, c, j + 1);
    assert a.Some? ==> Starts(s, pid, a.value);
  }

  lemma PendStep(s: Stream, pid: nat, from: nat, j: nat, pend: Option<nat>)
    requires from <= j && Waits(s, pid, from, j, pend)
    ensures Waits(s, pid, from, j + 1, if Starts(s, pid, j) then None else PendAt(s, pid, j, pend))
  {
    hide Starts, Flags, NextStart;
    forall c: nat
      ensures NextStart(s, pid, c, j).Some? ==> NextStart(s, pid, c, j + 1).Some?
      ensures NextStart(s, pid, c, j).None? && !Starts(s, pid, j) ==> NextStart(s, pid, c, j + 1).None?
      ensures Starts(s, pid, j) && c <= j ==> NextStart(s, pid, c, j + 1).Some?
    {
      StartExtends(s, pid, c, j);
    }
    OwnFlag(s, pid, j);
  }

  lemma OwnFlag(s: Stream, pid: nat, j: nat)
    ensures !Starts(s, pid, j) ==> NextStart(s, pid, j, j + 1).None?
  {
  }

  /** A PES start is announced from inside the window exactly if a flag was pending, or rides on it. */
  lemma AnnouncedHere(s: Stream, pid: nat, from: nat, j: nat, pend: Option<nat>)
    requires from <= j && Waits(s, pid, from, j, pend) && Starts(s, pid, j)
    ensures var p := PendAt(s, pid, j, pend);
            && (p.Some? ==> from <= p.value <= j && Announces(s, pid, p.value, j))
            && (p.None? ==> forall c: nat | Announces(s, pid, c, j) :: c < from)
  {
    hide Starts, Flags, NextStart;
    forall c: nat
      ensures NextStart(s, pid, c, j).None? && c <= j ==> NextStart(s, pid, c, j + 1) == Some(j)
      ensures NextStart(s, pid, c, j).Some? ==> NextStart(s, pid, c, j + 1) != Some(j)
    {
      StartExtends(s, pid, c, j);
      Earlier(s, pid, c, j);
    }
    SelfStart(s, pid, j);
    forall c: nat | Announces(s, pid, c, j) ensures c <= j && Flags(s, pid, c) {
      AnnouncedInRange(s, pid, c, j);
    }
  }

  lemma Earlier(s: Stream, pid: nat, c: nat, j: nat)
    ensures NextStart(s, pid, c, j).Some? ==> NextStart(s, pid, c, j + 1) != Some(j)
  {
    hide Starts;
  }

  lemma SelfStart(s: Stream, pid: nat, j: nat)
    ensures NextStart(s, pid, j, j).None?
  {
  }

  lemma NoStartBetween(s: Stream, pid: nat, c: nat, q: nat)
    requires Announces(s, pid, c, q)
    ensures forall p: nat | c <= p < q :: !Starts(s, pid, p)
  {
    hide Starts, Flags;
  }

  lemma RaiStep(s: Stream, pid: nat, times: seq<nat>, target: int, from: nat, j: nat, tr: Trace)
    requires from <= j < |times|
    requires Waits(s, pid, from, j, tr.pend) && RaiSeen(s, pid, times, target, from, j, tr.rai)
    ensures RaiSeen(s, pid, times, target, from, j + 1, TraceStep(s, pid, times, target, j, tr).rai)
  {
    hide Starts, Flags, NextStart, Good, Announces, PendAt, Waits;
    var next := TraceStep(s, pid, times, target, j, tr).rai;
    if Starts(s, pid, j) {
      AnnouncedHere(s, pid, from, j, tr.pend);
      if tr.rai.Some? && PendAt(s, pid, j, tr.pend).None? {
        Unannounced(s, pid, times, target, from, j, tr);
      }
    } else {
      NotAnnounced(s, pid, j);
    }
  }

  lemma NotAnnounced(s: Stream, pid: nat, j: nat)
    requires !Starts(s, pid, j)
    ensures forall c: nat :: !Announces(s, pid, c, j)
  {
    hide Starts, Flags;
  }

  /** Past an announced PES of the window no flag from before the window announces anything. */
  lemma Unannounced(s: Stream, pid: nat, times: seq<nat>, target: int, from: nat, j: nat, tr: Trace)
    requires from <= j && Waits(s, pid, from, j, tr.pend) && Starts(s, pid, j)
    requires RaiSeen(s, pid, times, target, from, j, tr.rai) && tr.rai.Some? && PendAt(s, pid, j, tr.pend).None?
    ensures forall c: nat :: !Announces(s, pid, c, j)
  {
    hide Starts, Flags, NextStart, Good, Announces, PendAt, Waits;
    AnnouncedHere(s, pid, from, j, tr.pend);
    var (a, p) := tr.rai.value;
    AnnouncedInRange(s, pid, a, p);
    forall c: nat ensures !Announces(s, pid, c, j) {
      if Announces(s, pid, c, j) {
        NoStartBetween(s, pid, c, j);
        assert false;
      }
    }
  }

  lemma DaiStep(s: Stream, pid: nat, times: seq<nat>, target: int, from: nat, j: nat, tr: Trace)
    requires from <= j < |times| && NoFlags(s, pid)
    requires Waits(s, pid, from, j, tr.pend) && LastAligned(s, pid, times, target, from, j, tr.dai)
    ensures PendAt(s, pid, j, tr.pend).None?
    ensures LastAligned(s, pid, times, target, from, j + 1, TraceStep(s, pid, times, target, j, tr).dai)
  {
    hide Starts, Flags, NextStart, Good, Aligned;
    AlignedStarts(s, pid, j);
    var next := AlignedStep(s, pid, times, target, from, j, tr.dai);
  }

  lemma AlignedStarts(s: Stream, pid: nat, j: nat)
    ensures Aligned(s, pid, j) ==> Starts(s, pid, j)
  {
  }

  // ---- One packet ----

  ghost function AnchorOf(s: Stream, pend: Option<nat>): Option<nat> {
    if pend.None? then None else Some(s.At(pend.value))
  }

  /** The PES in packet `j` unwraps to its true time. */
  lemma ExtIsTime(s: Stream, pid: nat, times: seq<nat>, j: nat, reference: nat)
    requires Timed(s, pid, times) && PtsAt(s, pid, j).Some? && j < |times|
    requires Reaches(s, pid, times, j, reference)
    ensures ExtendNear(PtsAt(s, pid, j).value, reference) == times[j]
  {
    hide ExtendNear, PtsAt, Starts, LastPts;
    InRange(s, pid, j);
    assert NextPts(s, pid, j) == Some(j);
    ExtendNearRecovers(times[j], reference);
  }

  lemma ReachSkips(s: Stream, pid: nat, times: seq<nat>, j: nat, reference: nat)
    requires |times| == |s.events| && j < |s.events| && PtsAt(s, pid, j).None?
    requires Reaches(s, pid, times, j, reference)
    ensures Reaches(s, pid, times, j + 1, reference)
  {
    hide PtsAt;
  }

  /** What the scan's step does, in terms of packets. */
  lemma PacketStep(s: Stream, pid: nat, times: seq<nat>, target: int, j: nat, w: Window, tr: Trace)
    requires Timed(s, pid, times) && j < |s.events|
    requires Reaches(s, pid, times, j, w.ptsRef) && w.pendingRai == AnchorOf(s, tr.pend)
    ensures |times| == |s.events|
    ensures var (w', stop) := WindowPacket(s, pid, target, j, w);
            var pend := PendAt(s, pid, j, tr.pend);
            && w'.pendingRai == AnchorOf(s, if Starts(s, pid, j) then None else pend)
            && w'.bestRai == (if Starts(s, pid, j) && pend.Some? && Good(s, pid, times, target, j)
                              then Some(Landing(s.At(pend.value), times[j])) else w.bestRai)
            && w'.bestDai == (if pend.None? && Aligned(s, pid, j) && Good(s, pid, times, target, j)
                              then Some(Landing(s.At(j), times[j])) else w.bestDai)
            && (stop <==> PtsAt(s, pid, j).Some? && times[j] > Saturate(target + REORDER_GRACE))
            && w'.ptsRef == (if PtsAt(s, pid, j).Some? then times[j] else w.ptsRef)
  {
    hide ExtendNear, Reaches, Timed, Saturate, Stream.At, LastPts;
    TimedParses(s, pid, times, j);
    if PtsAt(s, pid, j).Some? {
      ExtIsTime(s, pid, times, j, w.ptsRef);
    }
  }

  lemma TimedParses(s: Stream, pid: nat, times: seq<nat>, j: nat)
    requires Timed(s, pid, times)
    ensures |times| == |s.events|
    ensures Starts(s, pid, j) ==> s.events[j].start.value.Pes?
  {
  }

  // ---- The whole scan ----

  /** What a scan from `from` has found when it reaches packet `j`. */
  ghost predicate Found(s: Stream, pid: nat, times: seq<nat>, target: int, from: nat, j: nat, w: Window, tr: Trace) {
    && |times| == |s.events|
    && RaiSeen(s, pid, times, target, from, j, tr.rai) && w.bestRai == LandingOf(s, times, tr.rai)
    && (NoFlags(s, pid) ==> LastAligned(s, pid, times, target, from, j, tr.dai)
                            && w.bestDai == LandingOf(s, times, Twice(tr.dai)))
  }

  ghost predicate Scanning(s: Stream, pid: nat, times: seq<nat>, target: int, from: nat, j: nat, w: Window, tr: Trace) {
    && from <= j <= |s.events| && Found(s, pid, times, target, from, j, w, tr)
    && Waits(s, pid, from, j, tr.pend) && w.pendingRai == AnchorOf(s, tr.pend)
    && Reaches(s, pid, times, j, w.ptsRef)
  }

  lemma FoundStep(s: Stream, pid: nat, times: seq<nat>, target: int, from: nat, j: nat, w: Window, tr: Trace)
    requires Timed(s, pid, times) && j < |s.events| && Scanning(s, pid, times, target, from, j, w, tr)
    ensures Found(s, pid, times, target, from, j + 1, WindowPacket(s, pid, target, j, w).0,
                  TraceStep(s, pid, times, target, j, tr))
  {
    hide WindowPacket, Timed, RaiSeen, LastAligned, Waits, Reaches, NoFlags, Good, Aligned, Starts, PendAt;
    PacketStep(s, pid, times, target, j, w, tr);
    RaiStep(s, pid, times, target, from, j, tr);
    AlignedStarts(s, pid, j);
    if NoFlags(s, pid) {
      DaiStep(s, pid, times, target, from, j, tr);
      AlignedBound(s, pid, times, target, from, j, tr.dai);
    }
    RaiBound(s, pid, times, target, from, j, tr.rai);
  }

  lemma AlignedBound(s: Stream, pid: nat, times: seq<nat>, target: int, from: nat, j: nat, dai: Option<nat>)
    requires LastAligned(s, pid, times, target, from, j, dai)
    ensures dai.Some? ==> dai.value < |times|
  {
  }

  lemma RaiBound(s: Stream, pid: nat, times: seq<nat>, target: int, from: nat, j: nat, rai: Option<(nat, nat)>)
    requires RaiSeen(s, pid, times, target, from, j, rai)
    ensures rai.Some? ==> rai.value.1 < |times|
  {
  }

  lemma ScanningStep(s: Stream, pid: nat, times: seq<nat>, target: int, from: nat, j: nat, w: Window, tr: Trace)
    requires Timed(s, pid, times) && j < |s.events| && Scanning(s, pid, times, target, from, j, w, tr)
    ensures Scanning(s, pid, times, target, from, j + 1, WindowPacket(s, pid, target, j, w).0,
                     TraceStep(s, pid, times, target, j, tr))
    ensures WindowPacket(s, pid, target, j, w).1 ==>
              PtsAt(s, pid, j).Some? && times[j] > Saturate(target + REORDER_GRACE)
  {
    hide WindowPacket, Timed, Found, Waits, Reaches, Good, Aligned, Starts, PendAt, PtsAt;
    PacketStep(s, pid, times, target, j, w, tr);
    FoundStep(s, pid, times, target, from, j, w, tr);
    PendStep(s, pid, from, j, tr.pend);
    if PtsAt(s, pid, j).Some? {
      PesReaches(s, pid, times, j);
    } else {
      ReachSkips(s, pid, times, j, w.ptsRef);
    }
  }

  /** Behind a PES more than the grace past the target nothing is at or before it. */
  lemma PastGrace(s: Stream, pid: nat, times: seq<nat>, target: int, j: nat)
    requires Timed(s, pid, times) && Reordered(s, pid, times) && target <= I64_MAX
    requires j < |s.events| && PtsAt(s, pid, j).Some? && times[j] > Saturate(target + REORDER_GRACE)
    ensures forall q: nat | j < q :: !Good(s, pid, times, target, q)
  {
    hide PtsAt, LastPts, Starts;
    assert times[j] <= I64_MAX;
  }

  lemma FoundToEnd(s: Stream, pid: nat, times: seq<nat>, target: int, from: nat, j: nat, w: Window, tr: Trace)
    requires Found(s, pid, times, target, from, j, w, tr) && j <= |s.events|
    requires forall q: nat | j <= q :: !Good(s, pid, times, target, q)
    ensures Found(s, pid, times, target, from, |s.events|, w, tr)
  {
    hide Good, Announces, Aligned, NoFlags;
  }

  /** The scan finds the best of the whole rest of the stream, though it may stop early. */
  lemma {:induction false} WindowFinds(
    s: Stream, pid: nat, times: seq<nat>, target: int, from: nat, j: nat, w: Window, tr: Trace)
    returns (end: Trace)
    requires Timed(s, pid, times) && Scanning(s, pid, times, target, from, j, w, tr)
    requires Reordered(s, pid, times) && target <= I64_MAX
    ensures Found(s, pid, times, target, from, |s.events|, WindowScan(s, pid, target, j, w), end)
    decreases |s.events| - j
  {
    hide WindowScan, WindowPacket, Timed, Found, Waits, Reaches, PtsAt, TraceStep;
    if j == |s.events| {
      ScanEnds(s, pid, target, j, w);
      end := tr;
    } else {
      WindowStep(s, pid, target, j, w);
      ScanningStep(s, pid, times, target, from, j, w, tr);
      var (next, stop) := WindowPacket(s, pid, target, j, w);
      end := TraceStep(s, pid, times, target, j, tr);
      if stop {
        PastGrace(s, pid, times, target, j);
        FoundToEnd(s, pid, times, target, from, j + 1, next, end);
      } else {
        end := WindowFinds(s, pid, times, target, from, j + 1, next, end);
      }
    }
  }

  lemma ScanEnds(s: Stream, pid: nat, target: int, j: nat, w: Window)
    requires j == |s.events|
    ensures WindowScan(s, pid, target, j, w) == w
  {
  }

  lemma WindowOpens(s: Stream, pid: nat, times: seq<nat>, target: int, from: nat, time: nat)
    requires |times| == |s.events| && from <= |s.events| && Reaches(s, pid, times, from, time)
    ensures Scanning(s, pid, times, target, from, from, Window(None, None, None, time), Trace(None, None, None))
  {
    hide Reaches, Good;
    forall c: nat, q: nat | Announces(s, pid, c, q) ensures c <= q {
      AnnouncedInRange(s, pid, c, q);
    }
  }

  // ---- Window against index ----

  /** Both fail alike, or both land at one PTS with the same PES the first to start from there. */
  ghost predicate SameLanding(s: Stream, pid: nat, a: Result<Landing, SeekError>, b: Result<Landing, SeekError>)
    requires s.packetSize > 0
  {
    if a.Ok? && b.Ok? then
      && a.value.pts == b.value.pts
      && NextStart(s, pid, a.value.offset / s.packetSize, |s.events|) ==
         NextStart(s, pid, b.value.offset / s.packetSize, |s.events|)
    else a == b
  }

  /** The window's announced PES is the index's, though the two may name different flags before it. */
  lemma SameAnnounced(
    s: Stream, pid: nat, times: seq<nat>, target: int, from: nat, rai: (nat, nat), best: Option<(nat, nat)>)
    requires |times| == |s.events|
    requires RaiSeen(s, pid, times, target, from, |s.events|, Some(rai))
    requires LastAnnounced(s, pid, times, target, |s.events|, best)
    ensures best.Some? && best.value.1 == rai.1 < |times|
    ensures Announces(s, pid, rai.0, rai.1) && Announces(s, pid, best.value.0, best.value.1)
  {
    hide Good, Announces, Starts;
    var (a, p) := rai;
    AnnouncedInRange(s, pid, a, p);
    assert best.Some? && a <= best.value.0;
    var (c, q) := best.value;
    AnnouncedInRange(s, pid, c, q);
    NoStartBetween(s, pid, a, p);
    assert q <= p;
  }

  lemma IndicatorChoice(s: Stream, pid: nat, times: seq<nat>, target: int, from: nat, rai: (nat, nat))
    requires Indexed(s, pid, times) && |times| == |s.events|
    requires RaiSeen(s, pid, times, target, from, |s.events|, Some(rai)) && rai.1 < |times|
    ensures s.packetSize > 0
    ensures SameLanding(s, pid, Ok(Landing(s.At(rai.0), times[rai.1])), IndexChoice(Index(s), s.streamOf[pid], target))
  {
    hide RaiSeen, LastAnnounced, BestPoint, FirstPoint, Points, NextStart, Timed, Stream.At;
    var best := IndexBest(s, pid, times, target, |s.events|);
    SameAnnounced(s, pid, times, target, from, rai, best);
    PacketOf(s, rai.0);
    PacketOf(s, best.value.0);
    AnnouncedIs(s, pid, rai.0, rai.1);
    AnnouncedIs(s, pid, best.value.0, best.value.1);
  }

  lemma AnnouncedIs(s: Stream, pid: nat, c: nat, p: nat)
    requires Announces(s, pid, c, p)
    ensures NextStart(s, pid, c, |s.events|) == Some(p)
  {
    AnnouncedInRange(s, pid, c, p);
    AnnouncesIs(s, pid, c, p);
  }

  lemma AlignedChoice(s: Stream, pid: nat, times: seq<nat>, target: int, from: nat, d: nat)
    requires Indexed(s, pid, times) && NoFlags(s, pid)
    requires LastAligned(s, pid, times, target, from, |s.events|, Some(d)) && d < |times|
    ensures s.packetSize > 0
    ensures SameLanding(s, pid, Ok(Landing(s.At(d), times[d])), IndexChoice(Index(s), s.streamOf[pid], target))
  {
    hide BestPoint, FirstPoint, Points, NextStart, Timed, Stream.At, Aligned, Good, NoFlags;
    var best := IndexBestAligned(s, pid, times, target, |s.events|);
    assert best == Some(d);
  }

  /** One round that finds something. */
  lemma RoundAgrees(s: Stream, head: nat, tail: nat, pid: nat, times: seq<nat>, target: int, probe: int)
    requires Indexed(s, pid, times) && Bracketed(s, head, tail) && target <= I64_MAX
    requires |times| == |s.events| && Reordered(s, pid, times) && PcrsNear(s, head, pid, times)
    ensures s.packetSize > 0
    ensures var w := OpenWindow(s, pid, target, Locate(s, head, tail, probe), LandingTime(s, head, tail, probe));
            var choice := IndexChoice(Index(s), s.streamOf[pid], target);
            && (w.bestRai.Some? ==> SameLanding(s, pid, Ok(w.bestRai.value), choice))
            && (w.bestRai.None? && w.bestDai.Some? && !UsesIndicator(Index(s), pid) ==>
                  SameLanding(s, pid, Ok(w.bestDai.value), choice))
  {
    hide Timed, Found, Reaches, Locate, Scanning, SameLanding, IndexChoice, UsesIndicator, Index;
    hide WindowScan, Time, Reordered, Stream.PcrAt;
    var from := Locate(s, head, tail, probe);
    var time := LandingTime(s, head, tail, probe);
    LandingReaches(s, head, tail, pid, times, probe);
    WindowOpens(s, pid, times, target, from, time);
    var open := Window(None, None, None, time);
    var end := WindowFinds(s, pid, times, target, from, from, open, Trace(None, None, None));
    FoundAgrees(s, pid, times, target, from, WindowScan(s, pid, target, from, open), end);
  }

  lemma LandingReaches(s: Stream, head: nat, tail: nat, pid: nat, times: seq<nat>, probe: int)
    requires |times| == |s.events| && Bracketed(s, head, tail) && PcrsNear(s, head, pid, times)
    ensures Locate(s, head, tail, probe) <= |s.events|
    ensures Reaches(s, pid, times, Locate(s, head, tail, probe), LandingTime(s, head, tail, probe))
  {
    hide Reaches, Locate, Time;
    Lands(s, head, tail, probe);
  }

  lemma FoundAgrees(s: Stream, pid: nat, times: seq<nat>, target: int, from: nat, w: Window, end: Trace)
    requires Indexed(s, pid, times) && Found(s, pid, times, target, from, |s.events|, w, end)
    ensures s.packetSize > 0
    ensures var choice := IndexChoice(Index(s), s.streamOf[pid], target);
            && (w.bestRai.Some? ==> SameLanding(s, pid, Ok(w.bestRai.value), choice))
            && (w.bestRai.None? && w.bestDai.Some? && !UsesIndicator(Index(s), pid) ==>
                  SameLanding(s, pid, Ok(w.bestDai.value), choice))
  {
    hide Timed, RaiSeen, LastAligned, SameLanding, IndexChoice, UsesIndicator, Index, NoFlags;
    RaiBound(s, pid, times, target, from, |s.events|, end.rai);
    if end.rai.Some? {
      IndicatorChoice(s, pid, times, target, from, end.rai.value);
    } else if !UsesIndicator(Index(s), pid) {
      NoIndicator(s, pid);
      AlignedBound(s, pid, times, target, from, |s.events|, end.dai);
      if end.dai.Some? {
        AlignedChoice(s, pid, times, target, from, end.dai.value);
      }
    }
  }

  lemma SameItself(s: Stream, pid: nat, a: Result<Landing, SeekError>)
    requires s.packetSize > 0
    ensures SameLanding(s, pid, a, a)
  {
  }

  lemma WindowedStep(s: Stream, head: nat, tail: nat, pid: nat, streamIndex: nat, target: int, probe: int, back: nat)
    requires Bracketed(s, head, tail) && 0 < back <= I64_MAX
    ensures 0 < NextBack(back) <= I64_MAX
    ensures Locate(s, head, tail, probe) > head ==>
              Above(s, head, NextProbe(s, head, tail, probe, back)) < Above(s, head, probe)
    ensures var w := OpenWindow(s, pid, target, Locate(s, head, tail, probe), LandingTime(s, head, tail, probe));
            WindowedSeek(s, head, tail, pid, streamIndex, target, probe, back) ==
            if w.bestRai.Some? then Ok(w.bestRai.value)
            else if w.bestDai.Some? && !UsesIndicator(Index(s), pid) then Ok(w.bestDai.value)
            else if w.bestDai.Some? || Locate(s, head, tail, probe) <= head then
              IndexChoice(Index(s), streamIndex, target)
            else
              WindowedSeek(s, head, tail, pid, streamIndex, target,
                           NextProbe(s, head, tail, probe, back), NextBack(back))
  {
    hide Locate, LandingTime, NextProbe, Above, OpenWindow, UsesIndicator, IndexChoice, Time;
    ProbeFalls(s, head, tail, probe, back);
  }

  /** The windowed seek is a fast form of the index: the same PTS and the same next PES, or the same failure. */
  lemma {:induction false} WindowedSeekRefinesIndex(
    s: Stream, head: nat, tail: nat, pid: nat, times: seq<nat>, target: int, probe: int, back: nat)
    requires Indexed(s, pid, times) && Bracketed(s, head, tail) && target <= I64_MAX && 0 < back <= I64_MAX
    requires |times| == |s.events| && Reordered(s, pid, times) && PcrsNear(s, head, pid, times)
    ensures s.packetSize > 0
    ensures SameLanding(s, pid, WindowedSeek(s, head, tail, pid, s.streamOf[pid], target, probe, back),
                        IndexChoice(Index(s), s.streamOf[pid], target))
    decreases Above(s, head, probe)
  {
    hide *;
    TimedLength(s, pid, times);
    RoundAgrees(s, head, tail, pid, times, target, probe);
    SameItself(s, pid, IndexChoice(Index(s), s.streamOf[pid], target));
    WindowedStep(s, head, tail, pid, s.streamOf[pid], target, probe, back);
    if Locate(s, head, tail, probe) > head {
      var next := NextProbe(s, head, tail, probe, back);
      WindowedSeekRefinesIndex(s, head, tail, pid, times, target, next, NextBack(back));
    }
  }

  /** Whatever lands where the index would picks up the announced PES under its time. */
  lemma SamePicksUp(s: Stream, pid: nat, times: seq<nat>, target: int, trackers: Trackers, r: Result<Landing, SeekError>)
    requires Indexed(s, pid, times) && pid in trackers
    ensures s.packetSize > 0
    ensures r.Ok? && SameLanding(s, pid, r, IndexChoice(Index(s), s.streamOf[pid], target)) ==>
              PicksUp(s, pid, times, trackers, r.value)
  {
    hide Index, IndexChoice, Timed, NextStart, PtsAt, Extend, Reseeded, ExtAt;
    LandingPicksUp(s, pid, target, trackers);
    var choice := IndexChoice(Index(s), s.streamOf[pid], target);
    if choice.Ok? {
      IndexTimes(s, pid, times, NextStart(s, pid, choice.value.offset / s.packetSize, |s.events|).value);
    }
  }
}
