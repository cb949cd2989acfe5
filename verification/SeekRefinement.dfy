/** The windowed seek lands where the full index would. */
module SeekRefinement {
  import opened AccessPoints
  import opened Locator
  import opened StreamGrid
  import opened Timestamps
  import opened Wrappers

  // ---- True times ----

  /** Every PES start on the PID parses; its PTS is the residue of a true time that the unwrapping can follow. */
  ghost predicate Timed(s: Stream, pid: nat, times: seq<nat>) {
    && |times| == |s.events|
    && (forall i: nat | Starts(s, pid, i) :: s.events[i].start.value.Pes?)
    && (forall i: nat | PtsAt(s, pid, i).Some? ::
          PtsAt(s, pid, i).value == times[i] % TIMESTAMP_MODULUS && times[i] <= I64_MAX)
    && (forall i: nat | PtsAt(s, pid, i).Some? && LastPts(s, pid, i).None? :: times[i] < TIMESTAMP_MODULUS)
    && (forall i: nat | PtsAt(s, pid, i).Some? && LastPts(s, pid, i).Some? ::
          Distance(times[LastPts(s, pid, i).value], times[i]) < WRAP_THRESHOLD)
  }

  /** No PES presents more than the reorder grace before an earlier one. */
  ghost predicate Reordered(s: Stream, pid: nat, times: seq<nat>)
    requires |times| == |s.events|
  {
    forall i: nat, j: nat | i < j && PtsAt(s, pid, i).Some? && PtsAt(s, pid, j).Some? ::
      times[i] <= times[j] + REORDER_GRACE
  }

  /** The first PES with a PTS from packet `i` on. */
  function NextPts(s: Stream, pid: nat, i: nat): (r: Option<nat>)
    ensures r.Some? ==> i <= r.value < |s.events| && PtsAt(s, pid, r.value).Some?
    ensures forall j :: i <= j < (if r.Some? then r.value else |s.events|) ==> PtsAt(s, pid, j).None?
    decreases if i < |s.events| then |s.events| - i else 0
  {
    if i >= |s.events| then None
    else if PtsAt(s, pid, i).Some? then Some(i)
    else NextPts(s, pid, i + 1)
  }

  /** A reference from which the next PES of the PID unwraps to its true time. */
  ghost predicate Reaches(s: Stream, pid: nat, times: seq<nat>, i: nat, reference: nat)
    requires |times| == |s.events|
  {
    NextPts(s, pid, i).Some? ==> Distance(times[NextPts(s, pid, i).value], reference) < WRAP_THRESHOLD
  }

  /** Every PCR lies within half a wrap of the next PES on the PID. */
  ghost predicate PcrsNear(s: Stream, head: nat, pid: nat, times: seq<nat>)
    requires head < |s.events| && s.PcrAt(head).Some? && |times| == |s.events|
  {
    forall c: nat | head <= c < |s.events| && s.PcrAt(c).Some? :: Reaches(s, pid, times, c, Time(s, head, c))
  }

  /** The index unwraps every PES to its true time. */
  lemma {:induction false} IndexTimes(s: Stream, pid: nat, times: seq<nat>, i: nat)
    requires Timed(s, pid, times) && PtsAt(s, pid, i).Some?
    ensures i < |times| && ExtAt(s, pid, i) == Some(times[i])
    decreases i
  {
    hide NearestEpochOf, Starts, OnPid, LastPts, ExtendNear;
    var before := LastPts(s, pid, i);
    InRange(s, pid, i);
    if before.Some? {
      IndexTimes(s, pid, times, before.value);
      ExtendNearRecovers(times[i], times[before.value]);
    }
  }

  lemma InRange(s: Stream, pid: nat, i: nat)
    requires PtsAt(s, pid, i).Some?
    ensures i < |s.events| && Starts(s, pid, i)
  {
  }

  /** After a PES has been seen, it is a reference for the next. */
  lemma PesReaches(s: Stream, pid: nat, times: seq<nat>, i: nat)
    requires Timed(s, pid, times) && PtsAt(s, pid, i).Some? && i < |s.events|
    ensures Reaches(s, pid, times, i + 1, times[i])
  {
    hide NearestEpochOf, Starts, OnPid, LastPts, NextPts, PtsAt;
    var next := NextPts(s, pid, i + 1);
    if next.Some? {
      assert LastPts(s, pid, next.value) == Some(i);
    }
  }

  // ---- Announcements ----

  /** Indicator packet `c` announces the PES starting in packet `p`: the first to start from `c` on. */
  ghost predicate Announces(s: Stream, pid: nat, c: nat, p: nat) {
    Flags(s, pid, c) && NextStart(s, pid, c, p + 1) == Some(p)
  }

  /** A PES that starts in packet `p`, at or before the target. */
  ghost predicate Good(s: Stream, pid: nat, times: seq<nat>, target: int, p: nat) {
    PtsAt(s, pid, p).Some? && p < |times| && times[p] <= target
  }

  /** The first start is the same one however far one looks. */
  lemma NextStartWithin(s: Stream, pid: nat, i: nat, n: nat, p: nat)
    requires p < n
    ensures NextStart(s, pid, i, n) == Some(p) <==> NextStart(s, pid, i, p + 1) == Some(p)
  {
    hide Starts;
    var a, b := NextStart(s, pid, i, n), NextStart(s, pid, i, p + 1);
    assert Starts(s, pid, p) ==> (a == Some(p) <==> b == Some(p));
  }

  // ---- What the index chooses ----

  /** Best indicator point among the first `m` packets: flag `c` announcing PES `p`. */
  ghost predicate LastAnnounced(s: Stream, pid: nat, times: seq<nat>, target: int, m: nat, best: Option<(nat, nat)>) {
    && (best.Some? ==> best.value.0 < m && Announces(s, pid, best.value.0, best.value.1)
                       && Good(s, pid, times, target, best.value.1))
    && forall c: nat, p: nat | (if best.Some? then best.value.0 + 1 else 0) <= c < m && Announces(s, pid, c, p) ::
         !Good(s, pid, times, target, p)
  }

  ghost predicate Indexed(s: Stream, pid: nat, times: seq<nat>) {
    s.Valid() && pid in s.streamOf && Timed(s, pid, times)
  }

  ghost function LandingOf(s: Stream, times: seq<nat>, best: Option<(nat, nat)>): Option<Landing>
    requires best.Some? ==> best.value.1 < |times|
  {
    if best.None? then None else Some(Landing(s.At(best.value.0), times[best.value.1]))
  }

  lemma PointOfFlag(s: Stream, pid: nat, times: seq<nat>, c: nat)
    requires Indexed(s, pid, times) && Flags(s, pid, c)
    ensures HasPoint(s, c)
    ensures var start := NextStart(s, pid, c, |s.events|);
            PointAt(s, c, |s.events|) ==
            AccessPoint(s.At(c), pid, s.streamOf[pid],
                        if start.Some? && PtsAt(s, pid, start.value).Some? then Some(times[start.value]) else None,
                        RandomAccessIndicator)
  {
    hide Timed, ExtAt, NextStart, PtsAt, Starts;
    var start := NextStart(s, pid, c, |s.events|);
    if start.Some? && PtsAt(s, pid, start.value).Some? {
      IndexTimes(s, pid, times, start.value);
    }
    Same(s, c, pid);
  }

  lemma Same(s: Stream, c: nat, pid: nat)
    requires Flags(s, pid, c)
    ensures c < |s.events| && s.events[c].Event? && s.events[c].pid == pid
  {
  }

  /** A record of the stream's own tier can only come from its PID. */
  lemma PointKind(s: Stream, pid: nat, c: nat, n: nat)
    requires s.Valid() && pid in s.streamOf && HasPoint(s, c)
    ensures var r := PointAt(s, c, n);
            && (r.streamIndex == s.streamOf[pid] <==> OnPid(s, pid, c))
            && (OnPid(s, pid, c) ==> (r.kind == RandomAccessIndicator <==> Flags(s, pid, c)))
            && r.pid == s.events[c].pid
  {
    hide ExtAt, NextStart, PtsAt, Pending, Aligned;
  }

  lemma AnnouncesIs(s: Stream, pid: nat, c: nat, p: nat)
    requires Flags(s, pid, c) && p < |s.events|
    ensures Announces(s, pid, c, p) <==> NextStart(s, pid, c, |s.events|) == Some(p)
  {
    NextStartWithin(s, pid, c, |s.events|, p);
  }

  lemma AnnouncedInRange(s: Stream, pid: nat, c: nat, p: nat)
    requires Announces(s, pid, c, p)
    ensures c <= p < |s.events| && Starts(s, pid, p)
  {
  }

  /** One more packet. */
  lemma IndexBestStep(s: Stream, pid: nat, times: seq<nat>, target: int, m: nat, best: Option<(nat, nat)>)
    returns (next: Option<(nat, nat)>)
    requires Indexed(s, pid, times) && m < |s.events|
    requires LastAnnounced(s, pid, times, target, m, best)
    ensures LastAnnounced(s, pid, times, target, m + 1, next)
    ensures var start := NextStart(s, pid, m, |s.events|);
            next == if Flags(s, pid, m) && start.Some? && Good(s, pid, times, target, start.value)
                    then Some((m, start.value)) else best
  {
    hide Timed, Announces, Good, Flags, NextStart;
    var start := NextStart(s, pid, m, |s.events|);
    next := if Flags(s, pid, m) && start.Some? && Good(s, pid, times, target, start.value)
            then Some((m, start.value)) else best;
    forall p: nat | Announces(s, pid, m, p) ensures start == Some(p) && Flags(s, pid, m) {
      AnnouncedInRange(s, pid, m, p);
      FlagOf(s, pid, m, p);
      AnnouncesIs(s, pid, m, p);
    }
    if Flags(s, pid, m) && start.Some? {
      AnnouncesIs(s, pid, m, start.value);
    }
  }

  lemma FlagOf(s: Stream, pid: nat, c: nat, p: nat)
    requires Announces(s, pid, c, p)
    ensures Flags(s, pid, c)
  {
  }

  lemma BestSnoc(points: seq<AccessPoint>, p: AccessPoint, streamIndex: nat, kind: Kind, target: int)
    ensures BestPoint(points + [p], streamIndex, kind, target) ==
            if p.streamIndex == streamIndex && p.kind == kind && p.pts.Some? && p.pts.value <= target
            then Some(Landing(p.byteOffset, p.pts.value))
            else BestPoint(points, streamIndex, kind, target)
  {
    assert (points + [p])[..|points|] == points;
  }

  lemma PointsStep(s: Stream, m: nat, n: nat)
    requires m > 0
    ensures Points(s, m, n) == Points(s, m - 1, n) + (if HasPoint(s, m - 1) then [PointAt(s, m - 1, n)] else [])
  {
  }

  lemma GoodIs(s: Stream, pid: nat, times: seq<nat>, target: int, p: nat)
    ensures Good(s, pid, times, target, p) <==> PtsAt(s, pid, p).Some? && p < |times| && times[p] <= target
  {
  }

  lemma TimedLength(s: Stream, pid: nat, times: seq<nat>)
    requires Indexed(s, pid, times)
    ensures s.Valid() && pid in s.streamOf && |times| == |s.events|
  {
  }

  /** The index's indicator choice is the last flagged packet whose announced PES is at or before the target. */
  lemma {:induction false} IndexBest(s: Stream, pid: nat, times: seq<nat>, target: int, m: nat)
    returns (best: Option<(nat, nat)>)
    requires Indexed(s, pid, times) && m <= |s.events|
    ensures best.Some? ==> best.value.1 < |times|
    ensures LastAnnounced(s, pid, times, target, m, best)
    ensures BestPoint(Points(s, m, |s.events|), s.streamOf[pid], RandomAccessIndicator, target) ==
            LandingOf(s, times, best)
  {
    hide *;
    TimedLength(s, pid, times);
    if m == 0 {
      best := None;
      NoPoints(s, pid, times, target, s.streamOf[pid], RandomAccessIndicator);
    } else {
      best := IndexBest(s, pid, times, target, m - 1);
      var before := best;
      best := IndexBestStep(s, pid, times, target, m - 1, before);
      var points := Points(s, m - 1, |s.events|);
      PointsStep(s, m, |s.events|);
      if HasPoint(s, m - 1) {
        BestSnoc(points, PointAt(s, m - 1, |s.events|), s.streamOf[pid], RandomAccessIndicator, target);
        PointKind(s, pid, m - 1, |s.events|);
      }
      LandingCases(s, times, m - 1, before, best);
      if Flags(s, pid, m - 1) {
        PointOfFlag(s, pid, times, m - 1);
        var start := NextStart(s, pid, m - 1, |s.events|);
        if start.Some? {
          GoodIs(s, pid, times, target, start.value);
        }
        FlagIsOnPid(s, pid, m - 1);
      } else {
        assert points + [] == points;
      }
    }
  }

  lemma FlagIsOnPid(s: Stream, pid: nat, c: nat)
    requires Flags(s, pid, c)
    ensures OnPid(s, pid, c)
  {
  }

  lemma NoPoints(s: Stream, pid: nat, times: seq<nat>, target: int, streamIndex: nat, kind: Kind)
    ensures LastAnnounced(s, pid, times, target, 0, None)
    ensures BestPoint(Points(s, 0, |s.events|), streamIndex, kind, target) == None == LandingOf(s, times, None)
  {
  }

  lemma LandingCases(s: Stream, times: seq<nat>, m: nat, before: Option<(nat, nat)>, best: Option<(nat, nat)>)
    requires before.Some? ==> before.value.1 < |times|
    requires best == before || (best.Some? && best.value.1 < |times| && best.value.0 == m)
    ensures best == before ==> LandingOf(s, times, best) == LandingOf(s, times, before)
    ensures best.Some? && best.value.0 == m ==> LandingOf(s, times, best) == Some(Landing(s.At(m), times[best.value.1]))
  {
  }

  // ---- PIDs without indicators ----

  ghost predicate NoFlags(s: Stream, pid: nat) {
    forall c: nat :: !Flags(s, pid, c)
  }

  lemma {:induction false} NoFlagsFrom(s: Stream, pid: nat, m: nat)
    requires s.Valid() && pid in s.streamOf && m <= |s.events|
    requires !UsesIndicator(Points(s, m, |s.events|), pid)
    ensures forall c: nat | c < m :: !Flags(s, pid, c)
  {
    hide Flags, PointAt, HasPoint;
    if m > 0 {
      var points := Points(s, m - 1, |s.events|);
      assert forall k | 0 <= k < |points| :: Points(s, m, |s.events|)[k] == points[k];
      NoFlagsFrom(s, pid, m - 1);
      FlagIsRecorded(s, pid, m - 1);
      if HasPoint(s, m - 1) {
        assert Points(s, m, |s.events|)[|points|] == PointAt(s, m - 1, |s.events|);
      }
    }
  }

  lemma FlagIsRecorded(s: Stream, pid: nat, c: nat)
    requires s.Valid() && pid in s.streamOf
    ensures Flags(s, pid, c) ==>
              HasPoint(s, c)
              && PointAt(s, c, |s.events|).pid == pid && PointAt(s, c, |s.events|).kind == RandomAccessIndicator
  {
  }

  lemma NoIndicator(s: Stream, pid: nat)
    requires s.Valid() && pid in s.streamOf && !UsesIndicator(Index(s), pid)
    ensures NoFlags(s, pid)
  {
    NoFlagsFrom(s, pid, |s.events|);
  }

  lemma {:induction false} NothingPends(s: Stream, pid: nat, n: nat)
    requires NoFlags(s, pid)
    ensures !Pending(s, pid, n)
  {
    hide Flags, Starts;
    if n > 0 {
      NothingPends(s, pid, n - 1);
    }
  }

  ghost predicate LastAligned(s: Stream, pid: nat, times: seq<nat>, target: int, from: nat, m: nat, best: Option<nat>) {
    && (best.Some? ==> from <= best.value < m && best.value < |times|
                       && Aligned(s, pid, best.value) && Good(s, pid, times, target, best.value))
    && forall d: nat | (if best.Some? then best.value + 1 else from) <= d < m && Aligned(s, pid, d) ::
         !Good(s, pid, times, target, d)
  }

  ghost function Twice(best: Option<nat>): Option<(nat, nat)> {
    if best.None? then None else Some((best.value, best.value))
  }

  lemma AlignedPoint(s: Stream, pid: nat, times: seq<nat>, c: nat)
    requires Indexed(s, pid, times) && NoFlags(s, pid) && c < |s.events|
    ensures HasPoint(s, c) && OnPid(s, pid, c) <==> Aligned(s, pid, c) && PtsAt(s, pid, c).Some?
    ensures HasPoint(s, c) && OnPid(s, pid, c) ==>
              PointAt(s, c, |s.events|) == AccessPoint(s.At(c), pid, s.streamOf[pid], Some(times[c]), DataAligned)
  {
    hide Timed, ExtAt, NextStart, PtsAt, Pending;
    NothingPends(s, pid, c);
    if PtsAt(s, pid, c).Some? {
      IndexTimes(s, pid, times, c);
    }
  }

  lemma AlignedStep(s: Stream, pid: nat, times: seq<nat>, target: int, from: nat, m: nat, best: Option<nat>)
    returns (next: Option<nat>)
    requires from <= m < |times| && LastAligned(s, pid, times, target, from, m, best)
    ensures LastAligned(s, pid, times, target, from, m + 1, next)
    ensures next == if Aligned(s, pid, m) && Good(s, pid, times, target, m) then Some(m) else best
  {
    hide Good, Aligned;
    next := if Aligned(s, pid, m) && Good(s, pid, times, target, m) then Some(m) else best;
  }

  lemma {:induction false} IndexBestAligned(s: Stream, pid: nat, times: seq<nat>, target: int, m: nat)
    returns (best: Option<nat>)
    requires Indexed(s, pid, times) && NoFlags(s, pid) && m <= |s.events|
    ensures best.Some? ==> best.value < |times|
    ensures LastAligned(s, pid, times, target, 0, m, best)
    ensures BestPoint(Points(s, m, |s.events|), s.streamOf[pid], DataAligned, target) ==
            LandingOf(s, times, Twice(best))
    ensures BestPoint(Points(s, m, |s.events|), s.streamOf[pid], RandomAccessIndicator, target) == None
  {
    hide *;
    TimedLength(s, pid, times);
    if m == 0 {
      best := None;
      NoneAligned(s, pid, times, target);
      NoPoints(s, pid, times, target, s.streamOf[pid], DataAligned);
      NoPoints(s, pid, times, target, s.streamOf[pid], RandomAccessIndicator);
    } else {
      best := IndexBestAligned(s, pid, times, target, m - 1);
      var before := best;
      best := AlignedStep(s, pid, times, target, 0, m - 1, before);
      var points := Points(s, m - 1, |s.events|);
      PointsStep(s, m, |s.events|);
      AlignedPoint(s, pid, times, m - 1);
      GoodIs(s, pid, times, target, m - 1);
      if HasPoint(s, m - 1) {
        BestSnoc(points, PointAt(s, m - 1, |s.events|), s.streamOf[pid], DataAligned, target);
        BestSnoc(points, PointAt(s, m - 1, |s.events|), s.streamOf[pid], RandomAccessIndicator, target);
        PointKind(s, pid, m - 1, |s.events|);
      } else {
        assert points + [] == points;
      }
      TwiceCases(s, times, m - 1, before, best);
    }
  }

  lemma NoneAligned(s: Stream, pid: nat, times: seq<nat>, target: int)
    ensures LastAligned(s, pid, times, target, 0, 0, None)
    ensures LandingOf(s, times, Twice(None)) == None
  {
  }

  lemma TwiceCases(s: Stream, times: seq<nat>, m: nat, before: Option<nat>, best: Option<nat>)
    requires before.Some? ==> before.value < |times|
    requires best == before || (best == Some(m) && m < |times|)
    ensures before.Some? ==> Twice(before).value.1 < |times|
    ensures best.Some? ==> Twice(best).value.1 < |times|
    ensures best == before ==> LandingOf(s, times, Twice(best)) == LandingOf(s, times, Twice(before))
    ensures best == Some(m) ==> LandingOf(s, times, Twice(best)) == Some(Landing(s.At(m), times[m]))
  {
  }
}
