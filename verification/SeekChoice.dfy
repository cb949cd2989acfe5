/** When a seek by the index succeeds, and on which side of the target it lands. */
module SeekChoice {
  import opened AccessPoints
  import opened AccessPointScan
  import opened Locator
  import opened SeekLanding
  import opened SeekRefinement
  import opened StreamGrid
  import opened Wrappers

  /** A PES one can seek to: it has a PTS, and is aligned or announced by an indicator. */
  ghost predicate Reachable(s: Stream, pid: nat, p: nat) {
    PtsAt(s, pid, p).Some? && (Aligned(s, pid, p) || exists c: nat :: Announces(s, pid, c, p))
  }

  // ---- Records and reachable PES ----

  lemma {:induction false} FlagPends(s: Stream, pid: nat, n: nat) returns (c: nat)
    requires Pending(s, pid, n)
    ensures c < n && Flags(s, pid, c) && NextStart(s, pid, c, n).None?
  {
    hide Flags, Starts;
    if Flags(s, pid, n - 1) {
      c := n - 1;
    } else {
      c := FlagPends(s, pid, n - 1);
    }
  }

  lemma AnnouncerOf(s: Stream, pid: nat, p: nat)
    requires Pending(s, pid, p) && Starts(s, pid, p)
    ensures exists c: nat :: Announces(s, pid, c, p)
  {
    hide Flags, Starts, Pending;
    var c := FlagPends(s, pid, p);
    NextAdvance(s, pid, c, p);
    assert Announces(s, pid, c, p);
  }

  lemma {:induction false} SourceOf(s: Stream, c: nat, n: nat) returns (k: nat)
    requires HasPoint(s, c) && c < n
    ensures k < |Sources(s, n)| && Sources(s, n)[k] == c
  {
    hide HasPoint;
    if c == n - 1 {
      k := |Sources(s, n - 1)|;
    } else {
      k := SourceOf(s, c, n - 1);
    }
  }

  /** The record that leads to a reachable PES: its announcing flag's, or its own. */
  lemma AnchorOfReachable(s: Stream, pid: nat, p: nat) returns (c: nat)
    requires s.Valid() && pid in s.streamOf && Reachable(s, pid, p)
    ensures c < |s.events| && HasPoint(s, c)
    ensures var r := PointAt(s, c, |s.events|);
            r.streamIndex == s.streamOf[pid] && r.pts == ExtAt(s, pid, p) && r.pts.Some?
  {
    hide ExtAt, NextStart, Pending, PtsAt, Starts;
    InRange(s, pid, p);
    if c0: nat :| Announces(s, pid, c0, p) {
      c := c0;
      AnnouncedInRange(s, pid, c, p);
      AnnouncesIs(s, pid, c, p);
      FlaggedRecord(s, pid, c);
    } else {
      c := p;
      if Pending(s, pid, p) {
        AnnouncerOf(s, pid, p);
      }
      SelfAnnounced(s, pid, p);
      AlignedRecord(s, pid, p);
    }
  }

  lemma FlaggedRecord(s: Stream, pid: nat, c: nat)
    requires pid in s.streamOf && Flags(s, pid, c)
    ensures c < |s.events| && HasPoint(s, c)
    ensures var p := NextStart(s, pid, c, |s.events|);
            var r := PointAt(s, c, |s.events|);
            r.streamIndex == s.streamOf[pid] && r.pts == if p.Some? then ExtAt(s, pid, p.value) else None
  {
    hide ExtAt, NextStart, Pending;
  }

  lemma SelfAnnounced(s: Stream, pid: nat, p: nat)
    ensures Flags(s, pid, p) && Starts(s, pid, p) ==> Announces(s, pid, p, p)
  {
  }

  lemma AlignedRecord(s: Stream, pid: nat, p: nat)
    requires pid in s.streamOf && Aligned(s, pid, p) && PtsAt(s, pid, p).Some?
    requires !Flags(s, pid, p) && !Pending(s, pid, p)
    ensures p < |s.events| && HasPoint(s, p)
    ensures var r := PointAt(s, p, |s.events|);
            r.streamIndex == s.streamOf[pid] && r.pts == ExtAt(s, pid, p)
  {
    hide ExtAt, NextStart, Pending;
  }

  /** Every reachable PES has a record carrying its time. */
  lemma RecordOf(s: Stream, pid: nat, p: nat) returns (k: nat)
    requires s.Valid() && pid in s.streamOf && Reachable(s, pid, p)
    ensures k < |Index(s)| && Index(s)[k].streamIndex == s.streamOf[pid]
    ensures Index(s)[k].pts.Some? && Index(s)[k].pts == ExtAt(s, pid, p)
  {
    hide HasPoint, PointAt, Reachable, ExtAt, Sources, Points;
    var c := AnchorOfReachable(s, pid, p);
    k := SourceOf(s, c, |s.events|);
    PointsAre(s, |s.events|, |s.events|);
  }

  /** Every timed record of the stream carries the time of a reachable PES. */
  lemma ReachableOf(s: Stream, pid: nat, k: nat) returns (p: nat)
    requires s.Valid() && pid in s.streamOf && k < |Index(s)|
    requires Index(s)[k].streamIndex == s.streamOf[pid] && Index(s)[k].pts.Some?
    ensures Reachable(s, pid, p) && ExtAt(s, pid, p) == Index(s)[k].pts
  {
    hide HasPoint, PointAt, Reachable, ExtAt, Sources, Points;
    PointsAre(s, |s.events|, |s.events|);
    var c := Sources(s, |s.events|)[k];
    p := PesOfRecord(s, pid, c);
  }

  lemma PesOfRecord(s: Stream, pid: nat, c: nat) returns (p: nat)
    requires s.Valid() && pid in s.streamOf && HasPoint(s, c)
    requires PointAt(s, c, |s.events|).streamIndex == s.streamOf[pid] && PointAt(s, c, |s.events|).pts.Some?
    ensures Reachable(s, pid, p) && ExtAt(s, pid, p) == PointAt(s, c, |s.events|).pts
  {
    hide ExtAt, NextStart, Pending, Starts;
    OwnRecord(s, pid, c);
    if Flags(s, pid, c) {
      p := NextStart(s, pid, c, |s.events|).value;
      AnnouncesIs(s, pid, c, p);
      assert Announces(s, pid, c, p);
    } else {
      p := c;
    }
  }

  // ---- The choice ----

  /** Record `k` is a timed point of the stream. */
  predicate TimedAt(points: seq<AccessPoint>, streamIndex: nat, k: nat) {
    k < |points| && points[k].streamIndex == streamIndex && points[k].pts.Some?
  }

  lemma {:induction false} BestIff(points: seq<AccessPoint>, streamIndex: nat, kind: Kind, target: int)
    ensures BestPoint(points, streamIndex, kind, target).Some? <==>
            exists k: nat :: TimedAt(points, streamIndex, k) && points[k].kind == kind && points[k].pts.value <= target
    ensures BestPoint(points, streamIndex, kind, target).Some? ==>
              BestPoint(points, streamIndex, kind, target).value.pts <= target
  {
    if points != [] {
      var n := |points| - 1;
      BestIff(points[..n], streamIndex, kind, target);
      assert TimedAt(points, streamIndex, n) <==> points[n].streamIndex == streamIndex && points[n].pts.Some?;
      assert forall k: nat | k < n :: TimedAt(points[..n], streamIndex, k) <==> TimedAt(points, streamIndex, k);
    }
  }

  lemma {:induction false} FirstIff(points: seq<AccessPoint>, streamIndex: nat, kind: Kind)
    ensures FirstPoint(points, streamIndex, kind).Some? <==>
            exists k: nat :: TimedAt(points, streamIndex, k) && points[k].kind == kind
  {
    if points != [] {
      var n := |points| - 1;
      FirstIff(points[..n], streamIndex, kind);
      assert TimedAt(points, streamIndex, n) <==> points[n].streamIndex == streamIndex && points[n].pts.Some?;
      assert forall k: nat | k < n :: TimedAt(points[..n], streamIndex, k) <==> TimedAt(points, streamIndex, k);
    }
  }

  lemma ChoiceIff(points: seq<AccessPoint>, streamIndex: nat, target: int)
    ensures var r := IndexChoice(points, streamIndex, target);
            && (r.Ok? <==> exists k: nat :: TimedAt(points, streamIndex, k))
            && (r.Ok? && r.value.pts <= target <==>
                  exists k: nat :: TimedAt(points, streamIndex, k) && points[k].pts.value <= target)
  {
    hide BestPoint, FirstPoint, TimedAt;
    BestIff(points, streamIndex, RandomAccessIndicator, target);
    BestIff(points, streamIndex, DataAligned, target);
    FirstIff(points, streamIndex, RandomAccessIndicator);
    FirstIff(points, streamIndex, DataAligned);
    var k := ChosenFrom(points, streamIndex, target);
    var r := IndexChoice(points, streamIndex, target);
    if r.Ok? {
      MatchesTimed(points, streamIndex, k, r.value);
    }
  }

  lemma MatchesTimed(points: seq<AccessPoint>, streamIndex: nat, k: nat, l: Landing)
    requires k < |points| && Matches(points[k], streamIndex, l)
    ensures TimedAt(points, streamIndex, k) && points[k].pts == Some(l.pts)
  {
  }

  /** Record `k` is a timed point of the stream and tier. */
  predicate InTier(points: seq<AccessPoint>, streamIndex: nat, kind: Kind, k: nat) {
    TimedAt(points, streamIndex, k) && points[k].kind == kind
  }

  /** The last such record at or before the target. */
  ghost predicate LastBy(points: seq<AccessPoint>, streamIndex: nat, kind: Kind, target: int, k: nat) {
    && InTier(points, streamIndex, kind, k) && points[k].pts.value <= target
    && forall j: nat | k < j && InTier(points, streamIndex, kind, j) :: points[j].pts.value > target
  }

  /** The first such record of all. */
  ghost predicate FirstOf(points: seq<AccessPoint>, streamIndex: nat, kind: Kind, k: nat) {
    InTier(points, streamIndex, kind, k) && forall j: nat | j < k :: !InTier(points, streamIndex, kind, j)
  }

  lemma {:induction false} BestIsLast(points: seq<AccessPoint>, streamIndex: nat, kind: Kind, target: int)
    returns (k: nat)
    requires BestPoint(points, streamIndex, kind, target).Some?
    ensures LastBy(points, streamIndex, kind, target, k)
    ensures BestPoint(points, streamIndex, kind, target).value == Landing(points[k].byteOffset, points[k].pts.value)
  {
    var n := |points| - 1;
    if InTier(points, streamIndex, kind, n) && points[n].pts.value <= target {
      k := n;
    } else {
      k := BestIsLast(points[..n], streamIndex, kind, target);
      assert forall j: nat | j < n ::
          InTier(points[..n], streamIndex, kind, j) <==> InTier(points, streamIndex, kind, j);
    }
  }

  lemma {:induction false} FirstIsFirst(points: seq<AccessPoint>, streamIndex: nat, kind: Kind) returns (k: nat)
    requires FirstPoint(points, streamIndex, kind).Some?
    ensures FirstOf(points, streamIndex, kind, k)
    ensures FirstPoint(points, streamIndex, kind).value == Landing(points[k].byteOffset, points[k].pts.value)
  {
    var n := |points| - 1;
    assert forall j: nat | j < n :: InTier(points[..n], streamIndex, kind, j) <==> InTier(points, streamIndex, kind, j);
    FirstIff(points[..n], streamIndex, kind);
    if FirstPoint(points[..n], streamIndex, kind).Some? {
      k := FirstIsFirst(points[..n], streamIndex, kind);
    } else {
      k := n;
    }
  }

  /** What a successful choice is: the last at or before the target, else the first, indicators before alignment. */
  ghost predicate Chosen(points: seq<AccessPoint>, streamIndex: nat, target: int, k: nat) {
    || LastBy(points, streamIndex, RandomAccessIndicator, target, k)
    || (LastBy(points, streamIndex, DataAligned, target, k)
        && forall j: nat | InTier(points, streamIndex, RandomAccessIndicator, j) :: points[j].pts.value > target)
    || ((forall j: nat | TimedAt(points, streamIndex, j) :: points[j].pts.value > target)
        && (|| FirstOf(points, streamIndex, RandomAccessIndicator, k)
            || (FirstOf(points, streamIndex, DataAligned, k)
                && forall j: nat :: !InTier(points, streamIndex, RandomAccessIndicator, j))))
  }

  lemma ChoiceMeaning(points: seq<AccessPoint>, streamIndex: nat, target: int) returns (k: nat)
    requires IndexChoice(points, streamIndex, target).Ok?
    ensures Chosen(points, streamIndex, target, k) && k < |points| && points[k].pts.Some?
    ensures IndexChoice(points, streamIndex, target).value == Landing(points[k].byteOffset, points[k].pts.value)
  {
    hide BestPoint, FirstPoint, TimedAt;
    NoneBy(points, streamIndex, RandomAccessIndicator, target);
    NoneBy(points, streamIndex, DataAligned, target);
    NoneIn(points, streamIndex);
    if BestPoint(points, streamIndex, RandomAccessIndicator, target).Some? {
      k := BestIsLast(points, streamIndex, RandomAccessIndicator, target);
    } else if BestPoint(points, streamIndex, DataAligned, target).Some? {
      k := BestIsLast(points, streamIndex, DataAligned, target);
    } else if FirstPoint(points, streamIndex, RandomAccessIndicator).Some? {
      k := FirstIsFirst(points, streamIndex, RandomAccessIndicator);
    } else {
      k := FirstIsFirst(points, streamIndex, DataAligned);
    }
    TimedInRange(points, streamIndex, k);
  }

  lemma TimedInRange(points: seq<AccessPoint>, streamIndex: nat, k: nat)
    ensures TimedAt(points, streamIndex, k) ==> k < |points| && points[k].pts.Some?
  {
  }

  lemma NoneBy(points: seq<AccessPoint>, streamIndex: nat, kind: Kind, target: int)
    ensures BestPoint(points, streamIndex, kind, target).None? ==>
              forall j: nat | InTier(points, streamIndex, kind, j) :: points[j].pts.value > target
  {
    hide BestPoint;
    BestIff(points, streamIndex, kind, target);
  }

  lemma NoneIn(points: seq<AccessPoint>, streamIndex: nat)
    ensures FirstPoint(points, streamIndex, RandomAccessIndicator).None? ==>
              forall j: nat :: !InTier(points, streamIndex, RandomAccessIndicator, j)
    ensures forall j: nat | TimedAt(points, streamIndex, j) ::
              InTier(points, streamIndex, RandomAccessIndicator, j) || InTier(points, streamIndex, DataAligned, j)
  {
    hide FirstPoint;
    FirstIff(points, streamIndex, RandomAccessIndicator);
  }

  /** A reachable PES at or before the target. */
  ghost predicate ReachableBy(s: Stream, pid: nat, target: int, p: nat) {
    Reachable(s, pid, p) && ExtAt(s, pid, p).value <= target
  }

  /**
   * On every stream the seek by the index fails exactly when the PID has no timed access point, and lands at or
   * before the target exactly when one of them is there; a later landing is the clamp up.
   */
  lemma ChoiceExact(s: Stream, pid: nat, target: int)
    requires s.Valid() && pid in s.streamOf
    ensures var r := IndexChoice(Index(s), s.streamOf[pid], target);
            && (r.Ok? <==> exists p: nat :: Reachable(s, pid, p))
            && (r.Ok? && r.value.pts <= target <==> exists p: nat :: ReachableBy(s, pid, target, p))
  {
    hide Index, IndexChoice, Reachable, ReachableBy, ExtAt, Stream.Valid;
    var (points, streamIndex) := (Index(s), s.streamOf[pid]);
    ChoiceIff(points, streamIndex, target);
    forall p: nat | Reachable(s, pid, p) ensures exists k: nat :: TimedAt(points, streamIndex, k) {
      var k := TimedRecord(s, pid, target, p);
    }
    forall p: nat | ReachableBy(s, pid, target, p)
      ensures exists k: nat :: TimedAt(points, streamIndex, k) && points[k].pts.value <= target
    {
      ReachableByIs(s, pid, target, p);
      var k := TimedRecord(s, pid, target, p);
    }
    forall k: nat | TimedAt(points, streamIndex, k)
      ensures exists p: nat :: Reachable(s, pid, p)
      ensures points[k].pts.value <= target ==> exists p: nat :: ReachableBy(s, pid, target, p)
    {
      var p := TimedReachable(s, pid, target, k);
    }
  }

  lemma ReachableByIs(s: Stream, pid: nat, target: int, p: nat)
    requires ReachableBy(s, pid, target, p)
    ensures Reachable(s, pid, p)
  {
  }

  lemma TimedRecord(s: Stream, pid: nat, target: int, p: nat) returns (k: nat)
    requires s.Valid() && pid in s.streamOf && Reachable(s, pid, p)
    ensures TimedAt(Index(s), s.streamOf[pid], k)
    ensures ReachableBy(s, pid, target, p) ==> Index(s)[k].pts.value <= target
  {
    hide Index, ExtAt, Reachable;
    k := RecordOf(s, pid, p);
  }

  lemma TimedReachable(s: Stream, pid: nat, target: int, k: nat) returns (p: nat)
    requires s.Valid() && pid in s.streamOf && TimedAt(Index(s), s.streamOf[pid], k)
    ensures Reachable(s, pid, p)
    ensures Index(s)[k].pts.value <= target ==> ReachableBy(s, pid, target, p)
  {
    hide Index, ExtAt, Reachable;
    p := ReachableOf(s, pid, k);
  }

  // ---- What a failed windowed seek has scanned ----

  /** An aligned landing of a window belongs to a PES the index can reach. */
  lemma {:induction false} AlignedLandingReachable(s: Stream, pid: nat, target: int, i: nat, w: Window)
    requires w.bestDai.Some? ==> exists p: nat :: Reachable(s, pid, p)
    ensures WindowScan(s, pid, target, i, w).bestDai.Some? ==> exists p: nat :: Reachable(s, pid, p)
    decreases |s.events| - i
  {
    hide WindowPacket, Reachable;
    if i < |s.events| {
      WindowStep(s, pid, target, i, w);
      AlignedTaken(s, pid, target, i, w);
      AlignedLandingReachable(s, pid, target, i + 1, WindowPacket(s, pid, target, i, w).0);
    }
  }

  lemma AlignedTaken(s: Stream, pid: nat, target: int, i: nat, w: Window)
    requires i < |s.events|
    ensures WindowPacket(s, pid, target, i, w).0.bestDai == w.bestDai || Reachable(s, pid, i)
  {
  }

  /** So once a window holds an aligned landing the seek succeeds, by the index or without it. */
  lemma AlignedMeansSuccess(s: Stream, pid: nat, target: int, i: nat, time: nat)
    requires s.Valid() && pid in s.streamOf && OpenWindow(s, pid, target, i, time).bestDai.Some?
    ensures IndexChoice(Index(s), s.streamOf[pid], target).Ok?
  {
    hide Index, IndexChoice, Reachable, WindowScan;
    AlignedLandingReachable(s, pid, target, i, Window(None, None, None, time));
    ChoiceExact(s, pid, target);
  }

  lemma HeadLanding(s: Stream, head: nat, tail: nat, probe: int)
    requires Bracketed(s, head, tail) && Locate(s, head, tail, probe) <= head
    ensures Locate(s, head, tail, probe) == head && LandingTime(s, head, tail, probe) == Time(s, head, head)
  {
    hide Locate, Time;
    Lands(s, head, tail, probe);
  }

  /**
   * The input cursor after an access-point seek has failed. With an index or without a bracket no window is
   * scanned; otherwise the last window was the one from the head, and the cursor stays where its scan ended.
   */
  function FailedCursor(s: Stream, head: Option<nat>, indexed: bool, pid: nat, target: int, prior: nat): nat
    requires head.Some? ==> head.value < |s.events| && s.PcrAt(head.value).Some?
  {
    if indexed || head.None? then prior
    else WindowEnd(s, pid, target, head.value, Time(s, head.value, head.value))
  }

  /** A failed seek leaves every cursor where it was exactly when an index is cached or no bracket exists. */
  lemma CursorKeptExactly(s: Stream, head: Option<nat>, indexed: bool, pid: nat, target: int)
    requires head.Some? ==> head.value < |s.events| && s.PcrAt(head.value).Some?
    ensures (forall prior: nat :: FailedCursor(s, head, indexed, pid, target, prior) == prior)
            <==> indexed || head.None?
  {
    hide Time, WindowEnd;
    if !indexed && head.Some? {
      var end := WindowEnd(s, pid, target, head.value, Time(s, head.value, head.value));
      assert FailedCursor(s, head, indexed, pid, target, end + 1) == end;
    }
  }
}
