/** Three small streams: where window and index name different packets, where they disagree, and where a seek fails. */
module SeekExamples {
  import opened AccessPoints
  import opened Locator
  import opened SeekChoice
  import opened SeekRefinement
  import opened StreamGrid
  import opened Timestamps
  import opened Wrappers

  function Clock(time: Ring): Event {
    Event(256, Some(time), false, None)
  }

  function Picture(time: Ring, rai: bool): Event {
    Event(300, None, rai, Some(Pes(Some(time), false)))
  }

  /** Clock packets at both ends only: any target between them is searched from the head. */
  lemma SearchedFromHead(s: Stream, target: int)
    requires |s.events| == 5 && s.PcrAt(0) == Some(0) && s.PcrAt(4).Some?
    requires s.PcrAt(1).None? && s.PcrAt(2).None? && s.PcrAt(3).None?
    requires 0 < target < s.PcrAt(4).value
    ensures Bracketed(s, 0, 4) && Locate(s, 0, 4, target) == 0 && LandingTime(s, 0, 4, target) == 0
  {
    hide Bisect;
    BisectStep(s, 0, Bracket(0, 4, 0), target);
    BisectStep(s, 0, Bracket(0, 2, 0), target);
    BisectStep(s, 0, Bracket(0, 1, 0), target);
  }

  lemma NearItself(time: Ring, reference: Ring)
    requires Distance(time, reference) < WRAP_THRESHOLD
    ensures ExtendNear(time, reference) == time
  {
    ExtendNearRecovers(time, reference);
  }

  // ---- Two flags before one PES ----

  /** Packets 1 and 2 both announce the PES in packet 3. */
  function TwoFlags(): Stream {
    Stream([Clock(0), Event(300, None, true, None), Event(300, None, true, None), Picture(5000, false), Clock(90_000)],
           188, 0, 256, map[300 := 0])
  }

  lemma TwoFlagsWindow()
    ensures var s := TwoFlags();
            Bracketed(s, 0, 4) && WindowedSeek(s, 0, 4, 300, 0, 6000, 6000, 90_000) == Ok(Landing(188, 5000))
  {
    hide Locate, LandingTime, ExtendNear;
    var s := TwoFlags();
    SearchedFromHead(s, 6000);
    var w := Window(None, None, None, 0);
    WindowStep(s, 300, 6000, 0, w);
    WindowStep(s, 300, 6000, 1, w);
    var w1 := w.(pendingRai := Some(188));
    WindowStep(s, 300, 6000, 2, w1);
    WindowStep(s, 300, 6000, 3, w1);
    NearItself(5000, 0);
    var w3 := Window(Some(Landing(188, 5000)), None, None, 5000);
    WindowStep(s, 300, 6000, 4, w3);
    assert OpenWindow(s, 300, 6000, 0, 0) == w3;
  }

  lemma TwoFlagsIndex()
    ensures IndexChoice(Index(TwoFlags()), 0, 6000) == Ok(Landing(376, 5000))
  {
    var s := TwoFlags();
    hide BestPoint, ExtendNear;
    var a := AccessPoint(188, 300, 0, Some(5000), RandomAccessIndicator);
    var b := AccessPoint(376, 300, 0, Some(5000), RandomAccessIndicator);
    assert ExtAt(s, 300, 3) == Some(5000);
    assert Points(s, 1, 5) == [];
    assert Points(s, 2, 5) == [a];
    assert Points(s, 3, 5) == [a, b];
    assert Points(s, 4, 5) == [a, b];
    assert Points(s, 5, 5) == [a, b];
    BestSnoc([a], b, 0, RandomAccessIndicator, 6000);
    assert [a] + [b] == [a, b];
  }

  /** The window anchors at the first flag and the index at the last, one PES and one PTS behind both. */
  lemma AnchorsDiffer()
    ensures var s := TwoFlags();
            && Bracketed(s, 0, 4)
            && WindowedSeek(s, 0, 4, 300, 0, 6000, 6000, 90_000) == Ok(Landing(188, 5000))
            && IndexChoice(Index(s), 0, 6000) == Ok(Landing(376, 5000))
            && NextStart(s, 300, 1, 5) == NextStart(s, 300, 2, 5) == Some(3)
  {
    hide WindowedSeek, IndexChoice, Index;
    TwoFlagsWindow();
    TwoFlagsIndex();
  }

  // ---- A PES more than the grace late ----

  /** Access points at 0 and, behind a PES at 200000, at 5000. */
  function LateKeyframe(): Stream {
    Stream([Clock(0), Picture(0, true), Picture(200_000, false), Picture(5000, true), Clock(300_000)],
           188, 0, 256, map[300 := 0])
  }

  lemma LateWindow()
    ensures var s := LateKeyframe();
            Bracketed(s, 0, 4) && WindowedSeek(s, 0, 4, 300, 0, 6000, 6000, 90_000) == Ok(Landing(188, 0))
  {
    hide Locate, LandingTime, ExtendNear;
    var s := LateKeyframe();
    SearchedFromHead(s, 6000);
    var w := Window(None, None, None, 0);
    WindowStep(s, 300, 6000, 0, w);
    NearItself(0, 0);
    WindowStep(s, 300, 6000, 1, w);
    var w1 := w.(bestRai := Some(Landing(188, 0)));
    NearItself(200_000, 0);
    WindowStep(s, 300, 6000, 2, w1);
    assert OpenWindow(s, 300, 6000, 0, 0) == w1.(ptsRef := 200_000);
  }

  lemma LateIndex()
    ensures IndexChoice(Index(LateKeyframe()), 0, 6000) == Ok(Landing(564, 5000))
  {
    var s := LateKeyframe();
    hide BestPoint, ExtendNear;
    var a := AccessPoint(188, 300, 0, Some(0), RandomAccessIndicator);
    var b := AccessPoint(564, 300, 0, Some(5000), RandomAccessIndicator);
    NearItself(200_000, 0);
    NearItself(5000, 200_000);
    assert ExtAt(s, 300, 1) == Some(0);
    assert ExtAt(s, 300, 2) == Some(200_000);
    assert ExtAt(s, 300, 3) == Some(5000);
    assert Points(s, 1, 5) == [];
    assert Points(s, 2, 5) == [a];
    assert Points(s, 3, 5) == [a];
    assert Points(s, 4, 5) == [a, b];
    assert Points(s, 5, 5) == [a, b];
    BestSnoc([a], b, 0, RandomAccessIndicator, 6000);
    assert [a] + [b] == [a, b];
  }

  /** Reordering within the grace is needed: here the scan stops before the later access point the index finds. */
  lemma GraceIsNeeded()
    ensures var s := LateKeyframe();
            && Bracketed(s, 0, 4)
            && WindowedSeek(s, 0, 4, 300, 0, 6000, 6000, 90_000) == Ok(Landing(188, 0))
            && IndexChoice(Index(s), 0, 6000) == Ok(Landing(564, 5000))
            && !Reordered(s, 300, [0, 0, 200_000, 5000, 0])
  {
    hide WindowedSeek, IndexChoice, Index;
    LateWindow();
    LateIndex();
    var s := LateKeyframe();
    assert PtsAt(s, 300, 2) == Some(200_000) && PtsAt(s, 300, 3) == Some(5000);
  }

  // ---- A stream without access points ----

  /** Clock packets around three packets of nothing. */
  function NothingToSeek(): Stream {
    Stream([Clock(0), Corrupt, Corrupt, Corrupt, Clock(90_000)], 188, 0, 256, map[300 := 0])
  }

  lemma NothingScanned()
    ensures var s := NothingToSeek();
            && OpenWindow(s, 300, 6000, 0, 0) == Window(None, None, None, 0)
            && WindowEnd(s, 300, 6000, 0, 0) == 940
  {
    var s := NothingToSeek();
    var w := Window(None, None, None, 0);
    WindowStep(s, 300, 6000, 0, w);
    WindowStep(s, 300, 6000, 1, w);
    WindowStep(s, 300, 6000, 2, w);
    WindowStep(s, 300, 6000, 3, w);
    WindowStep(s, 300, 6000, 4, w);
  }

  lemma NothingIndexed()
    ensures IndexChoice(Index(NothingToSeek()), 0, 6000) == Err(Unsupported)
  {
    var s := NothingToSeek();
    forall p: nat ensures !Reachable(s, 300, p) {
    }
    ChoiceExact(s, 300, 6000);
  }

  /** The seek is refused, and the input is left at the end of the file wherever it was before. */
  lemma RefusedSeekMovesCursor(prior: nat)
    ensures var s := NothingToSeek();
            && s.Valid() && Bracketed(s, 0, 4) && s.PcrAt(0).Some?
            && WindowedSeek(s, 0, 4, 300, 0, 6000, 6000, 90_000) == Err(Unsupported)
            && FailedCursor(s, Some(0), false, 300, 6000, prior) == 940
            && (FailedCursor(s, Some(0), false, 300, 6000, prior) == prior <==> prior == s.Length())
  {
    hide Locate, LandingTime, IndexChoice, Index, OpenWindow, WindowEnd;
    var s := NothingToSeek();
    SearchedFromHead(s, 6000);
    NothingScanned();
    NothingIndexed();
  }
}
