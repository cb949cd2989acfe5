/** What is read first after an access-point seek: the PES the point announced, under the time it was sought by. */
module SeekLanding {
  import opened AccessPoints
  import opened AccessPointScan
  import opened StreamGrid
  import opened Timeline
  import opened Timestamps
  import opened Wrappers

  lemma ExtResidue(s: Stream, pid: nat, i: nat)
    requires PtsAt(s, pid, i).Some?
    ensures ExtAt(s, pid, i).value % TIMESTAMP_MODULUS == PtsAt(s, pid, i).value
  {
    hide NearestEpochOf, LastPts;
  }

  /** A timed access point is followed by the PES whose time it carries, before any other starts on the PID. */
  lemma PointMeaning(s: Stream, c: nat)
    requires s.Valid() && HasPoint(s, c) && PointAt(s, c, |s.events|).pts.Some?
    ensures var r := PointAt(s, c, |s.events|);
            && r.byteOffset / s.packetSize == c
            && var p := NextStart(s, r.pid, c, |s.events|);
               p.Some? && ExtAt(s, r.pid, p.value) == r.pts
  {
    hide ExtAt;
    PacketOf(s, c);
  }

  lemma {:induction false} BestFrom(points: seq<AccessPoint>, streamIndex: nat, kind: Kind, target: int)
    returns (k: nat)
    ensures BestPoint(points, streamIndex, kind, target).Some? ==>
              k < |points| && Matches(points[k], streamIndex, BestPoint(points, streamIndex, kind, target).value)
  {
    if points == [] {
      k := 0;
    } else {
      var init := points[..|points| - 1];
      k := BestFrom(init, streamIndex, kind, target);
      var p := points[|points| - 1];
      if p.streamIndex == streamIndex && p.kind == kind && p.pts.Some? && p.pts.value <= target {
        k := |points| - 1;
      }
    }
  }

  predicate Matches(p: AccessPoint, streamIndex: nat, l: Landing) {
    p.streamIndex == streamIndex && p.pts.Some? && l == Landing(p.byteOffset, p.pts.value)
  }

  lemma {:induction false} FirstFrom(points: seq<AccessPoint>, streamIndex: nat, kind: Kind) returns (k: nat)
    ensures FirstPoint(points, streamIndex, kind).Some? ==>
              k < |points| && Matches(points[k], streamIndex, FirstPoint(points, streamIndex, kind).value)
  {
    if points == [] {
      k := 0;
    } else {
      var init := points[..|points| - 1];
      k := FirstFrom(init, streamIndex, kind);
      if FirstPoint(init, streamIndex, kind).None? {
        k := |points| - 1;
      }
    }
  }

  /** The choice is one of the records. */
  lemma ChosenFrom(points: seq<AccessPoint>, streamIndex: nat, target: int) returns (k: nat)
    ensures IndexChoice(points, streamIndex, target).Ok? ==>
              k < |points| && Matches(points[k], streamIndex, IndexChoice(points, streamIndex, target).value)
  {
    hide BestPoint, FirstPoint, Matches;
    var a := BestFrom(points, streamIndex, RandomAccessIndicator, target);
    var b := BestFrom(points, streamIndex, DataAligned, target);
    var c := FirstFrom(points, streamIndex, RandomAccessIndicator);
    var d := FirstFrom(points, streamIndex, DataAligned);
    k := if BestPoint(points, streamIndex, RandomAccessIndicator, target).Some? then a
         else if BestPoint(points, streamIndex, DataAligned, target).Some? then b
         else if FirstPoint(points, streamIndex, RandomAccessIndicator).Some? then c
         else d;
  }

  lemma OwnRecord(s: Stream, pid: nat, c: nat)
    requires s.Valid() && pid in s.streamOf && HasPoint(s, c)
    requires PointAt(s, c, |s.events|).streamIndex == s.streamOf[pid]
    ensures PointAt(s, c, |s.events|).pid == pid
  {
    hide ExtAt, NextStart;
  }

  /**
   * After a landing from the index the first PES to start on the PID is the announced one, and the re-seeded
   * tracker gives it the PTS the seek reported, on every stream.
   */
  lemma LandingPicksUp(s: Stream, pid: nat, target: int, trackers: Trackers)
    requires s.Valid() && pid in s.streamOf && pid in trackers
    ensures var choice := IndexChoice(Index(s), s.streamOf[pid], target);
            choice.Ok? ==>
              var l := choice.value;
              var p := NextStart(s, pid, l.offset / s.packetSize, |s.events|);
              && p.Some? && PtsAt(s, pid, p.value).Some? && ExtAt(s, pid, p.value) == Some(l.pts)
              && Extend(Reseeded(trackers, Some(l.pts)), pid, PtsAt(s, pid, p.value).value).1 == l.pts
  {
    hide ExtAt, NextStart, IndexChoice, PointAt, HasPoint, Extend, Reseeded, Sources;
    var k := ChosenFrom(Index(s), s.streamOf[pid], target);
    PointsAre(s, |s.events|, |s.events|);
    if IndexChoice(Index(s), s.streamOf[pid], target).Ok? {
      var l := IndexChoice(Index(s), s.streamOf[pid], target).value;
      var c := Sources(s, |s.events|)[k];
      OwnRecord(s, pid, c);
      PointMeaning(s, c);
      var p := NextStart(s, pid, c, |s.events|).value;
      ExtResidue(s, pid, p);
      ReentryExact(trackers, pid, Some(l.pts), l.pts);
    }
  }

  /** From the landing on the first PES of the PID presents at its time, and a tracker seeded there stamps it so. */
  ghost predicate PicksUp(s: Stream, pid: nat, times: seq<nat>, trackers: Trackers, l: Landing)
    requires s.packetSize > 0
  {
    var p := NextStart(s, pid, l.offset / s.packetSize, |s.events|);
    && p.Some? && p.value < |times| && times[p.value] == l.pts && PtsAt(s, pid, p.value).Some?
    && Extend(Reseeded(trackers, Some(l.pts)), pid, PtsAt(s, pid, p.value).value).1 == l.pts
  }
}
