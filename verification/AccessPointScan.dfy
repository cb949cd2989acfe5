/** The index builder's one pass: its variables after each packet, against the index it should build. */
module AccessPointScan {
  import opened AccessPoints
  import opened StreamGrid
  import opened Timestamps
  import opened Wrappers

  /** Records so far, those per PID still without a PTS (by position), the unwrap reference per PID. */
  datatype ScanState = ScanState(out: seq<AccessPoint>, unresolved: map<nat, seq<nat>>, ptsRef: map<nat, nat>)

  const BLANK: ScanState := ScanState([], map[], map[])

  function Patched(out: seq<AccessPoint>, pending: seq<nat>, pts: Option<nat>): seq<AccessPoint> {
    seq(|out|, k requires 0 <= k < |out| => if k in pending then out[k].(pts := pts) else out[k])
  }

  function Flagged(s: Stream, i: nat, st: ScanState): ScanState
    requires i < |s.events| && s.events[i].Event? && s.events[i].pid in s.streamOf
  {
    var pid := s.events[i].pid;
    if !s.events[i].rai then st
    else
      st.(out := st.out + [AccessPoint(s.At(i), pid, s.streamOf[pid], None, RandomAccessIndicator)],
          unresolved := st.unresolved[pid := (if pid in st.unresolved then st.unresolved[pid] else []) + [|st.out|]])
  }

  /** The extended PTS of the PES starting in packet `i`. */
  function Resolved(s: Stream, i: nat, st: ScanState): Option<nat>
    requires i < |s.events| && s.events[i].Event? && s.events[i].start.Some?
  {
    var pid, start := s.events[i].pid, s.events[i].start.value;
    if start.Unparsable? || start.pts.None? then None
    else if pid in st.ptsRef then Some(ExtendNear(start.pts.value, st.ptsRef[pid]))
    else Some(start.pts.value)
  }

  function ScanPacket(s: Stream, i: nat, st: ScanState): ScanState
    requires i < |s.events|
  {
    if s.events[i].Corrupt? || s.events[i].pid !in s.streamOf then st
    else
      var pid := s.events[i].pid;
      var st1 := Flagged(s, i, st);
      if s.events[i].start.None? then st1
      else
        var pts := Resolved(s, i, st);
        var st2 := if pts.Some? then st1.(ptsRef := st1.ptsRef[pid := pts.value]) else st1;
        if pid in st2.unresolved then
          st2.(out := Patched(st2.out, st2.unresolved[pid], pts), unresolved := st2.unresolved - {pid})
        else if s.events[i].start.value.Pes? && s.events[i].start.value.aligned && pts.Some? then
          st2.(out := st2.out + [AccessPoint(s.At(i), pid, s.streamOf[pid], pts, DataAligned)])
        else st2
  }

  // ---- What the variables hold ----

  /** The packets behind the records. */
  function Sources(s: Stream, n: nat): (r: seq<nat>)
    ensures forall k :: 0 <= k < |r| ==> r[k] < n && HasPoint(s, r[k])
  {
    if n == 0 then []
    else Sources(s, n - 1) + (if HasPoint(s, n - 1) then [n - 1] else [])
  }

  /** The flag in packet `c` has met no PES start before packet `n`. */
  predicate Waiting(s: Stream, pid: nat, c: nat, n: nat) {
    Flags(s, pid, c) && NextStart(s, pid, c, n).None?
  }

  function UnresolvedOf(st: ScanState, pid: nat): seq<nat> {
    if pid in st.unresolved then st.unresolved[pid] else []
  }

  ghost predicate RecordsScanned(s: Stream, i: nat, out: seq<AccessPoint>) {
    && |out| == |Sources(s, i)|
    && forall k :: 0 <= k < |out| ==> out[k] == PointAt(s, Sources(s, i)[k], i)
  }

  ghost predicate PidScanned(s: Stream, i: nat, st: ScanState, pid: nat) {
    && (pid in st.unresolved <==> pid in s.streamOf && Pending(s, pid, i))
    && (pid in s.streamOf ==>
          forall k: nat :: k in UnresolvedOf(st, pid) <==> k < |Sources(s, i)| && Waiting(s, pid, Sources(s, i)[k], i))
    && (pid in st.ptsRef <==> pid in s.streamOf && RefBefore(s, pid, i).Some?)
    && (pid in st.ptsRef ==> RefBefore(s, pid, i) == Some(st.ptsRef[pid]))
  }

  ghost predicate Scanned(s: Stream, i: nat, st: ScanState) {
    RecordsScanned(s, i, st.out) && forall pid: nat :: PidScanned(s, i, st, pid)
  }

  lemma {:induction false} PointsAre(s: Stream, m: nat, n: nat)
    ensures |Points(s, m, n)| == |Sources(s, m)|
    ensures forall k :: 0 <= k < |Sources(s, m)| ==> Points(s, m, n)[k] == PointAt(s, Sources(s, m)[k], n)
  {
    hide PointAt, HasPoint;
    if m > 0 {
      PointsAre(s, m - 1, n);
    }
  }

  /** When the pass ends the records are the index. */
  lemma ScannedIsIndex(s: Stream, st: ScanState)
    requires RecordsScanned(s, |s.events|, st.out)
    ensures st.out == Index(s)
  {
    hide PointAt, HasPoint, Points, Sources;
    PointsAre(s, |s.events|, |s.events|);
  }

  lemma BlankScanned(s: Stream)
    ensures Scanned(s, 0, BLANK)
  {
  }

  predicate InBounds(out: seq<AccessPoint>, unresolved: map<nat, seq<nat>>) {
    forall pid | pid in unresolved :: forall k | k in unresolved[pid] :: k < |out|
  }

  lemma WaitingInBounds(s: Stream, i: nat, st: ScanState)
    requires Scanned(s, i, st)
    ensures InBounds(st.out, st.unresolved)
  {
    hide PointAt, Sources, Waiting, RefBefore, Pending;
    forall pid | pid in st.unresolved ensures forall k | k in st.unresolved[pid] :: k < |st.out| {
      assert PidScanned(s, i, st, pid);
      assert UnresolvedOf(st, pid) == st.unresolved[pid];
    }
  }

  // ---- One packet more ----

  lemma WaitingAdvance(s: Stream, pid: nat, c: nat, i: nat)
    requires c <= i
    ensures Waiting(s, pid, c, i + 1) <==> Waiting(s, pid, c, i) && !Starts(s, pid, i)
    ensures Waiting(s, pid, c, i) && Starts(s, pid, i) ==> NextStart(s, pid, c, i + 1) == Some(i)
    ensures Waiting(s, pid, i, i) <==> Flags(s, pid, i)
  {
    hide Starts, Flags;
    NextAdvance(s, pid, c, i);
  }

  lemma NextAdvance(s: Stream, pid: nat, c: nat, i: nat)
    requires c <= i
    ensures NextStart(s, pid, c, i).Some? ==> NextStart(s, pid, c, i + 1) == NextStart(s, pid, c, i)
    ensures NextStart(s, pid, c, i).None? ==>
              NextStart(s, pid, c, i + 1) == if Starts(s, pid, i) then Some(i) else None
  {
    hide Starts;
    var a, b := NextStart(s, pid, c, i), NextStart(s, pid, c, i + 1);
    assert a.Some? ==> Starts(s, pid, a.value);
    assert b.Some? ==> Starts(s, pid, b.value);
  }

  /** A record changes only when the PES it waits for starts. */
  lemma PointAdvance(s: Stream, c: nat, i: nat)
    requires HasPoint(s, c) && c <= i
    ensures var pid := s.events[c].pid;
            PointAt(s, c, i + 1) ==
            if Waiting(s, pid, c, i) && Starts(s, pid, i) then PointAt(s, c, i).(pts := ExtAt(s, pid, i))
            else PointAt(s, c, i)
  {
    hide ExtAt, Starts, HasPoint, NextStart;
    assert s.events[c].pid in s.streamOf && c < |s.events| && s.events[c].Event? by { PointEvent(s, c); }
    NextAdvance(s, s.events[c].pid, c, i);
  }

  lemma PointEvent(s: Stream, c: nat)
    requires HasPoint(s, c)
    ensures c < |s.events| && s.events[c].Event? && s.events[c].pid in s.streamOf
  {
  }

  lemma SourceStep(s: Stream, i: nat)
    ensures Sources(s, i + 1) == Sources(s, i) + (if HasPoint(s, i) then [i] else [])
  {
  }

  /** Packets of other PIDs change nothing for a PID. */
  lemma OtherPid(s: Stream, i: nat, pid: nat)
    requires i < |s.events| && !OnPid(s, pid, i)
    ensures !Starts(s, pid, i) && !Flags(s, pid, i)
    ensures Pending(s, pid, i + 1) <==> Pending(s, pid, i)
    ensures RefBefore(s, pid, i + 1) == RefBefore(s, pid, i)
  {
    hide ExtAt;
  }

  lemma OwnPid(s: Stream, i: nat, pid: nat)
    ensures Pending(s, pid, i + 1) <==> !Starts(s, pid, i) && (Flags(s, pid, i) || Pending(s, pid, i))
    ensures RefBefore(s, pid, i + 1) == if PtsAt(s, pid, i).Some? then ExtAt(s, pid, i) else RefBefore(s, pid, i)
  {
    hide ExtAt;
  }

  lemma ResolvedIs(s: Stream, i: nat, st: ScanState)
    requires i < |s.events| && s.events[i].Event? && s.events[i].start.Some?
    requires s.events[i].pid in s.streamOf && PidScanned(s, i, st, s.events[i].pid)
    ensures Resolved(s, i, st) == ExtAt(s, s.events[i].pid, i)
  {
    hide ExtendNear, Waiting, Pending, Sources;
  }

  lemma WaitingStep(s: Stream, i: nat, pid: nat)
    ensures var a, b := Sources(s, i), Sources(s, i + 1);
            && a <= b
            && (forall k: nat | k < |a| ::
                  Waiting(s, pid, b[k], i + 1) <==> Waiting(s, pid, a[k], i) && !Starts(s, pid, i))
            && (forall k: nat | |a| <= k < |b| :: b[k] == i)
            && (Waiting(s, pid, i, i + 1) <==> Flags(s, pid, i) && !Starts(s, pid, i))
            && (|b| > |a| <==> HasPoint(s, i)) && |b| <= |a| + 1
  {
    hide Waiting, Starts, Flags, HasPoint;
    SourceStep(s, i);
    var a := Sources(s, i);
    forall k: nat | k < |a| ensures Waiting(s, pid, a[k], i + 1) <==> Waiting(s, pid, a[k], i) && !Starts(s, pid, i) {
      WaitingAdvance(s, pid, a[k], i);
    }
    WaitingAdvance(s, pid, i, i);
  }

  lemma SkipPid(s: Stream, i: nat, st: ScanState, st': ScanState, pid: nat)
    requires i < |s.events| && PidScanned(s, i, st, pid)
    requires pid in s.streamOf ==> !OnPid(s, pid, i)
    requires pid in st'.unresolved <==> pid in st.unresolved
    requires pid in st.unresolved ==> st'.unresolved[pid] == st.unresolved[pid]
    requires pid in st'.ptsRef <==> pid in st.ptsRef
    requires pid in st.ptsRef ==> st'.ptsRef[pid] == st.ptsRef[pid]
    ensures PidScanned(s, i + 1, st', pid)
  {
    hide Waiting, Starts, Flags, HasPoint, RefBefore, Pending, Sources, OnPid;
    assert UnresolvedOf(st', pid) == UnresolvedOf(st, pid);
    if pid in s.streamOf {
      OtherPid(s, i, pid);
      WaitingStep(s, i, pid);
    }
  }

  lemma FlagHasPoint(s: Stream, i: nat)
    requires i < |s.events| && s.events[i].Event? && s.events[i].pid in s.streamOf
    ensures Flags(s, s.events[i].pid, i) <==> s.events[i].rai
    ensures Flags(s, s.events[i].pid, i) ==> HasPoint(s, i)
    ensures Starts(s, s.events[i].pid, i) <==> s.events[i].start.Some?
    ensures OnPid(s, s.events[i].pid, i)
  {
  }

  /** The packet's own PID. */
  lemma OwnStep(s: Stream, i: nat, st: ScanState)
    requires i < |s.events| && s.events[i].Event? && s.events[i].pid in s.streamOf
    requires |st.out| == |Sources(s, i)| && PidScanned(s, i, st, s.events[i].pid)
    ensures PidScanned(s, i + 1, ScanPacket(s, i, st), s.events[i].pid)
  {
    hide Waiting, Starts, Flags, HasPoint, RefBefore, Pending, Sources, OnPid, Resolved, Patched;
    var pid := s.events[i].pid;
    FlagHasPoint(s, i);
    OwnPid(s, i, pid);
    WaitingStep(s, i, pid);
    OwnReference(s, i, st);
    OwnUnresolved(s, i, st);
  }

  lemma OwnReference(s: Stream, i: nat, st: ScanState)
    requires i < |s.events| && s.events[i].Event? && s.events[i].pid in s.streamOf
    requires PidScanned(s, i, st, s.events[i].pid)
    ensures var pid := s.events[i].pid;
            var ref := ScanPacket(s, i, st).ptsRef;
            && (pid in ref <==> RefBefore(s, pid, i + 1).Some?)
            && (pid in ref ==> RefBefore(s, pid, i + 1) == Some(ref[pid]))
  {
    hide Waiting, Pending, Sources, Patched, ExtAt, Resolved, RefBefore;
    OwnPid(s, i, s.events[i].pid);
    if s.events[i].start.Some? {
      ResolvedIs(s, i, st);
    }
  }

  lemma OwnUnresolved(s: Stream, i: nat, st: ScanState)
    requires i < |s.events| && s.events[i].Event? && s.events[i].pid in s.streamOf
    ensures var pid := s.events[i].pid;
            var st' := ScanPacket(s, i, st);
            && (pid in st'.unresolved <==> s.events[i].start.None? && (s.events[i].rai || pid in st.unresolved))
            && UnresolvedOf(st', pid) ==
               if s.events[i].start.Some? then []
               else UnresolvedOf(st, pid) + (if s.events[i].rai then [|st.out|] else [])
  {
    hide Resolved, Patched;
  }

  lemma OtherStep(s: Stream, i: nat, st: ScanState, pid: nat)
    requires i < |s.events| && PidScanned(s, i, st, pid)
    requires s.events[i].Event? ==> s.events[i].pid !in s.streamOf || s.events[i].pid != pid
    ensures PidScanned(s, i + 1, ScanPacket(s, i, st), pid)
  {
    hide Resolved, Patched, PidScanned;
    SkipPid(s, i, st, ScanPacket(s, i, st), pid);
  }

  // ---- The records ----

  /** Records of the packets before `i`, once packet `i` is seen. */
  lemma RecordsAdvance(s: Stream, i: nat, st: ScanState)
    requires i < |s.events| && Scanned(s, i, st)
    ensures var a := Sources(s, i);
            |st.out| == |a|
            && forall k :: 0 <= k < |a| ==>
                 PointAt(s, a[k], i + 1) ==
                 if s.events[i].Event? && s.events[i].pid in s.streamOf && s.events[i].start.Some?
                    && k in UnresolvedOf(st, s.events[i].pid)
                 then st.out[k].(pts := ExtAt(s, s.events[i].pid, i)) else st.out[k]
  {
    hide Waiting, Starts, HasPoint, Sources, PointAt, ExtAt, RefBefore, Pending;
    var a := Sources(s, i);
    forall k | 0 <= k < |a|
      ensures PointAt(s, a[k], i + 1) ==
              if s.events[i].Event? && s.events[i].pid in s.streamOf && s.events[i].start.Some?
                 && k in UnresolvedOf(st, s.events[i].pid)
              then st.out[k].(pts := ExtAt(s, s.events[i].pid, i)) else st.out[k]
    {
      PointAdvance(s, a[k], i);
      PointEvent(s, a[k]);
      StartPid(s, s.events[a[k]].pid, a[k], i);
      assert PidScanned(s, i, st, s.events[a[k]].pid);
      if s.events[i].Event? {
        assert PidScanned(s, i, st, s.events[i].pid);
        StartPid(s, s.events[i].pid, a[k], i);
      }
    }
  }

  lemma StartPid(s: Stream, pid: nat, c: nat, i: nat)
    requires i < |s.events|
    ensures Starts(s, pid, i) <==> s.events[i].Event? && s.events[i].pid == pid && s.events[i].start.Some?
    ensures Waiting(s, pid, c, i) && c < |s.events| ==> s.events[c].Event? && s.events[c].pid == pid
  {
  }

  /** The record packet `i` itself adds. */
  lemma NewRecord(s: Stream, i: nat)
    requires HasPoint(s, i)
    ensures i < |s.events| && s.events[i].Event? && s.events[i].pid in s.streamOf
    ensures var pid := s.events[i].pid;
            PointAt(s, i, i + 1) ==
            if Flags(s, pid, i) then
              AccessPoint(s.At(i), pid, s.streamOf[pid],
                          if Starts(s, pid, i) then ExtAt(s, pid, i) else None, RandomAccessIndicator)
            else AccessPoint(s.At(i), pid, s.streamOf[pid], ExtAt(s, pid, i), DataAligned)
  {
    hide ExtAt, Pending;
  }

  /** The records after one packet: the waiting ones resolved, a new one behind them. */
  lemma OutStep(s: Stream, i: nat, st: ScanState)
    requires i < |s.events| && s.events[i].Event? && s.events[i].pid in s.streamOf
    ensures var pid := s.events[i].pid;
            var (rai, start) := (s.events[i].rai, s.events[i].start);
            var pts := if start.Some? then Resolved(s, i, st) else None;
            var old' := if start.Some? then Patched(st.out, UnresolvedOf(st, pid), pts) else st.out;
            ScanPacket(s, i, st).out ==
            if rai then old' + [AccessPoint(s.At(i), pid, s.streamOf[pid], pts, RandomAccessIndicator)]
            else if start.Some? && pid !in st.unresolved && start.value.Pes? && start.value.aligned && pts.Some? then
              old' + [AccessPoint(s.At(i), pid, s.streamOf[pid], pts, DataAligned)]
            else old'
  {
    hide Resolved;
    var pid := s.events[i].pid;
    if s.events[i].start.Some? && s.events[i].rai {
      PatchedLast(st.out, AccessPoint(s.At(i), pid, s.streamOf[pid], None, RandomAccessIndicator),
                  UnresolvedOf(st, pid), Resolved(s, i, st));
    }
    assert Patched(st.out, [], if s.events[i].start.Some? then Resolved(s, i, st) else None) == st.out;
  }

  lemma PatchedLast(out: seq<AccessPoint>, p: AccessPoint, pending: seq<nat>, pts: Option<nat>)
    ensures Patched(out + [p], pending + [|out|], pts) == Patched(out, pending, pts) + [p.(pts := pts)]
  {
  }

  lemma RecordsStep(s: Stream, i: nat, st: ScanState)
    requires i < |s.events| && Scanned(s, i, st)
    requires s.events[i].Event? && s.events[i].pid in s.streamOf
    ensures RecordsScanned(s, i + 1, ScanPacket(s, i, st).out)
  {
    hide Waiting, Sources, PointAt, ExtAt, RefBefore, Pending, HasPoint, Flags;
    hide Resolved, ScanPacket, Scanned, PidScanned;
    RecordsAdvance(s, i, st);
    OutStep(s, i, st);
    SourceStep(s, i);
    FlagHasPoint(s, i);
    PointHere(s, i, st);
    if HasPoint(s, i) {
      NewRecord(s, i);
    }
    if s.events[i].start.Some? {
      ScannedPid(s, i, st, s.events[i].pid);
      ResolvedIs(s, i, st);
    }
  }

  lemma ScannedPid(s: Stream, i: nat, st: ScanState, pid: nat)
    requires Scanned(s, i, st)
    ensures PidScanned(s, i, st, pid)
  {
  }

  lemma PointHere(s: Stream, i: nat, st: ScanState)
    requires i < |s.events| && Scanned(s, i, st)
    requires s.events[i].Event? && s.events[i].pid in s.streamOf
    ensures var pid := s.events[i].pid;
            HasPoint(s, i) <==>
            s.events[i].rai || (s.events[i].start.Some? && pid !in st.unresolved && s.events[i].start.value.Pes?
                                && s.events[i].start.value.aligned && ExtAt(s, pid, i).Some?)
  {
    hide Pending, ExtAt, Sources, RefBefore, Waiting;
    ScannedPid(s, i, st, s.events[i].pid);
  }

  lemma SkippedRecords(s: Stream, i: nat, st: ScanState)
    requires i < |s.events| && Scanned(s, i, st)
    requires s.events[i].Corrupt? || s.events[i].pid !in s.streamOf
    ensures RecordsScanned(s, i + 1, st.out)
  {
    hide PointAt, Scanned, Sources, ExtAt, Pending;
    RecordsAdvance(s, i, st);
    SourceStep(s, i);
  }

  /** One packet keeps the variables true to the index under construction. */
  lemma ScannedStep(s: Stream, i: nat, st: ScanState)
    requires i < |s.events| && Scanned(s, i, st)
    ensures Scanned(s, i + 1, ScanPacket(s, i, st))
  {
    hide PidScanned, Sources, PointAt;
    if s.events[i].Event? && s.events[i].pid in s.streamOf {
      RecordsStep(s, i, st);
      OwnStep(s, i, st);
    } else {
      SkippedRecords(s, i, st);
    }
    var (n, next) := (i + 1, ScanPacket(s, i, st));
    forall pid: nat ensures PidScanned(s, n, next, pid) {
      ScannedPid(s, i, st, pid);
      if !(s.events[i].Event? && s.events[i].pid in s.streamOf && s.events[i].pid == pid) {
        OtherStep(s, i, st, pid);
      }
    }
  }
}
