/** Which time stamp each frame of a clean stream gets, against the time the PES headers promise it. */
module AudioStamps {
  import opened Arithmetic
  import opened AudioFeed
  import opened AudioHeaders
  import opened AudioRun
  import opened AudioSplitter
  import opened Bytes
  import opened Wrappers

  /** The last frame up to `j` that a PES header stamps. */
  function AnchorFrame(f: Feed, j: nat): (i: Option<nat>)
    requires Commenced(f, j)
    ensures i.Some? ==> i.value <= j && Commenced(f, i.value) && f.PtsFor(i.value).Some?
    decreases j
  {
    if f.PtsFor(j).Some? then Some(j)
    else if j == 0 then None
    else (CommencedBefore(f, j - 1, j); AnchorFrame(f, j - 1))
  }

  lemma {:induction false} AnchorFrameIsLast(f: Feed, i: nat, j: nat)
    requires i <= j && Commenced(f, j)
    ensures Commenced(f, i)
    ensures f.PtsFor(i).Some? ==> AnchorFrame(f, j).Some? && i <= AnchorFrame(f, j).value
    decreases j
  {
    hide *;
    CommencedBefore(f, i, j);
    AnchorStep(f, j);
    if i < j {
      AnchorFrameIsLast(f, i, j - 1);
    }
  }

  lemma AnchorStep(f: Feed, j: nat)
    requires Commenced(f, j)
    ensures j > 0 ==> Commenced(f, j - 1)
    ensures AnchorFrame(f, j) ==
            if f.PtsFor(j).Some? then Some(j) else if j == 0 then None else AnchorFrame(f, j - 1)
  {
    hide Feed.PtsFor, Commenced;
    if j > 0 {
      CommencedBefore(f, j - 1, j);
    }
  }

  /** All frames of one geometry. */
  ghost predicate Uniform(f: Feed) {
    forall j | 0 <= j < |f.frames| :: f.Samples(j) == f.Samples(0) && f.Rate(j) == f.Rate(0)
  }

  /** What frame `j` is due: the stamp of its anchor frame and the frames since, floor of k * samples * 90000 / rate. */
  function Due(f: Feed, j: nat): Option<int>
    requires Commenced(f, j)
  {
    match AnchorFrame(f, j)
    case None => None
    case Some(i) =>
      Some(f.PtsFor(i).value + (j - i) * f.Samples(j) * 90_000 / (if f.Rate(j) == 0 then 1 else f.Rate(j)))
  }

  /** Frame `i` shows its header in the payload where it commences, with an anchor to write the geometry to. */
  predicate ShowsGeometry(f: Feed, i: nat) {
    Commenced(f, i) && f.HeaderInView(i) && AnchorFrame(f, i).Some?
  }

  /** The last frame up to `j` that does. */
  function LastShown(f: Feed, j: nat): (g: Option<nat>)
    ensures g.Some? ==> g.value <= j && ShowsGeometry(f, g.value)
    ensures forall i: nat :: i <= j && ShowsGeometry(f, i) ==> g.Some? && i <= g.value
  {
    if ShowsGeometry(f, j) then Some(j) else if j == 0 then None else LastShown(f, j - 1)
  }

  /** Some header has been seen, since the first PES stamp, in the payload where its frame commences. */
  predicate GeometryKnown(f: Feed, j: nat) {
    LastShown(f, j).Some?
  }

  lemma LastShownStep(f: Feed, j: nat)
    ensures LastShown(f, j) == if ShowsGeometry(f, j) then Some(j) else if j == 0 then None else LastShown(f, j - 1)
    ensures LastShown(f, j).Some? ==> LastShown(f, j).value < |f.frames|
  {
  }

  lemma Geometry(f: Feed, j: nat)
    requires f.Clean() && j < |f.frames|
    ensures 0 < f.Rate(j) <= 375 * f.Samples(j)
  {
    CleanAt(f, j);
    ShortFramesAreEac3(f.syn, f.frames[j]);
  }

  /** The geometry in use once frame `j` is stamped. */
  function GeometryAt(f: Feed, j: nat): (nat, nat) {
    LastShownStep(f, j);
    match LastShown(f, j)
    case None => (0, 0)
    case Some(g) => (f.Samples(g), f.Rate(g))
  }

  /** The anchor after frame `j`. */
  function AnchorAt(f: Feed, j: nat): Option<Anchor>
    requires Commenced(f, j)
  {
    match AnchorFrame(f, j)
    case None => None
    case Some(i) => Some(Anchor(f.PtsFor(i).value, j - i + 1, GeometryAt(f, j).0, GeometryAt(f, j).1))
  }

  lemma GeometryStep(f: Feed, j: nat)
    requires Commenced(f, j)
    ensures j < |f.frames|
    ensures GeometryAt(f, j) ==
            if f.HeaderInView(j) && AnchorFrame(f, j).Some? then (f.Samples(j), f.Rate(j))
            else if j == 0 then (0, 0) else GeometryAt(f, j - 1)
  {
    LastShownStep(f, j);
  }

  lemma StampedStep(f: Feed, j: nat)
    requires Commenced(f, j)
    ensures j > 0 ==> Commenced(f, j - 1)
    ensures var a := if j == 0 then None else Stamped(f, j - 1).1;
            Stamped(f, j) == if f.HeaderInView(j) then TakeStamp(a, f.PtsFor(j), f.Samples(j), f.Rate(j))
                             else TakeStamp(a, f.PtsFor(j), GuessedSamples(a), GuessedRate(a))
  {
    if j > 0 {
      CommencedBefore(f, j - 1, j);
    }
  }

  lemma {:induction false} NoAnchorNoGeometry(f: Feed, j: nat)
    requires Commenced(f, j) && AnchorFrame(f, j).None?
    ensures GeometryAt(f, j) == (0, 0)
  {
    hide Feed.PtsFor, Feed.HeaderInView, Commenced;
    GeometryStep(f, j);
    if j > 0 {
      CommencedBefore(f, j - 1, j);
      NoAnchorNoGeometry(f, j - 1);
    }
  }

  /** Stamping one frame, with the anchor frame and the geometry that were in use before it. */
  lemma StampStep(f: Feed, j: nat, back: Option<nat>, g: (nat, nat))
    requires f.Clean() && Commenced(f, j) && (back.Some? ==> back.value < j && Commenced(f, back.value))
    requires back.Some? ==> f.PtsFor(back.value).Some?
    requires back.None? ==> g == (0, 0)
    requires AnchorFrame(f, j) == if f.PtsFor(j).Some? then Some(j) else back
    requires GeometryAt(f, j) == if f.HeaderInView(j) && AnchorFrame(f, j).Some? then (f.Samples(j), f.Rate(j)) else g
    requires var a := if back.None? then None else Some(Anchor(f.PtsFor(back.value).value, j - back.value, g.0, g.1));
             Stamped(f, j) == if f.HeaderInView(j) then TakeStamp(a, f.PtsFor(j), f.Samples(j), f.Rate(j))
                              else TakeStamp(a, f.PtsFor(j), GuessedSamples(a), GuessedRate(a))
    ensures Stamped(f, j).1 == AnchorAt(f, j)
    ensures Stamped(f, j).0 ==
            match AnchorFrame(f, j)
            case None => None
            case Some(i) => Some(f.PtsFor(i).value + FrameOffset(j - i, GeometryAt(f, j).0, GeometryAt(f, j).1))
  {
    hide Stamped, Commenced, GeometryAt, AnchorFrame, FrameOffset;
    hide Feed.PtsFor, Feed.HeaderInView, Feed.Clean, Feed.Samples, Feed.Rate;
    FrameOf(f, j);
    Geometry(f, j);
    OffsetZero(f.Samples(j), f.Rate(j));
    OffsetZero(GeometryAt(f, j).0, GeometryAt(f, j).1);
  }

  /**
   * The state kept is the last PES stamp, the frames counted from it, and the geometry of the last frame whose
   * header was in view; the stamp is the count times that geometry, whatever geometry the frames between have.
   */
  lemma {:induction false} StampMeaning(f: Feed, j: nat)
    requires f.Clean() && Commenced(f, j)
    ensures Stamped(f, j).1 == AnchorAt(f, j)
    ensures Stamped(f, j).0 ==
            match AnchorFrame(f, j)
            case None => None
            case Some(i) => Some(f.PtsFor(i).value + FrameOffset(j - i, GeometryAt(f, j).0, GeometryAt(f, j).1))
    decreases j
  {
    hide Stamped, Commenced, GeometryAt, AnchorFrame, TakeStamp, FrameOffset;
    hide Feed.PtsFor, Feed.HeaderInView, Feed.Clean;
    StampedStep(f, j);
    AnchorStep(f, j);
    GeometryStep(f, j);
    if j == 0 {
      StampStep(f, j, None, (0, 0));
    } else {
      StampMeaning(f, j - 1);
      if AnchorFrame(f, j - 1).None? {
        NoAnchorNoGeometry(f, j - 1);
      }
      StampStep(f, j, AnchorFrame(f, j - 1), GeometryAt(f, j - 1));
    }
  }

  lemma FrameOf(f: Feed, j: nat)
    requires Commenced(f, j)
    ensures j < |f.frames|
  {
  }

  // ---- When the stamp is the one due ----

  lemma FloorAtLeast(x: nat, d: nat)
    requires 0 < d <= x
    ensures x / d >= 1
  {
  }

  lemma LaterFrameIsLater(k: nat, samples: nat, rate: nat)
    requires 0 < rate <= 375 * samples
    ensures FrameOffset(k, samples, rate) >= 1 <==> k > 0
  {
    if k > 0 {
      assert k * samples >= samples;
      FloorAtLeast(k * samples * 90_000, rate);
    }
  }

  lemma DueOffset(f: Feed, j: nat)
    requires Commenced(f, j) && f.Rate(j) > 0 && AnchorFrame(f, j).Some?
    ensures var i := AnchorFrame(f, j).value;
            Due(f, j) == Some(f.PtsFor(i).value + FrameOffset(j - i, f.Samples(j), f.Rate(j)))
  {
    hide AnchorFrame, Feed.PtsFor, Commenced;
  }

  lemma DueNone(f: Feed, j: nat)
    requires Commenced(f, j) && AnchorFrame(f, j).None?
    ensures Due(f, j) == None
  {
  }

  lemma UniformGeometry(f: Feed, j: nat)
    requires Uniform(f) && Commenced(f, j)
    ensures GeometryAt(f, j) == if GeometryKnown(f, j) then (f.Samples(j), f.Rate(j)) else (0, 0)
  {
    LastShownStep(f, j);
  }

  /**
   * Among frames of one geometry a frame gets the stamp it is due exactly when nothing has been anchored, a PES
   * header stamps it, or some frame since the first PES stamp showed its header in the payload where it
   * commenced. Otherwise the geometry is unknown, and the frame repeats the anchor's stamp.
   */
  lemma StampExact(f: Feed, j: nat)
    requires f.Clean() && Uniform(f) && Commenced(f, j)
    ensures Stamped(f, j).0 == Due(f, j)
            <==> AnchorFrame(f, j).None? || AnchorFrame(f, j).value == j || GeometryKnown(f, j)
    ensures AnchorFrame(f, j).Some? && !GeometryKnown(f, j) ==>
              Stamped(f, j).0 == f.PtsFor(AnchorFrame(f, j).value)
  {
    hide *;
    StampMeaning(f, j);
    FrameOf(f, j);
    Geometry(f, j);
    UniformGeometry(f, j);
    if AnchorFrame(f, j).Some? {
      DueOffset(f, j);
      LaterFrameIsLater(j - AnchorFrame(f, j).value, f.Samples(j), f.Rate(j));
      NoOffset(j - AnchorFrame(f, j).value);
    } else {
      DueNone(f, j);
    }
  }

  lemma NoOffset(k: nat)
    ensures FrameOffset(k, 0, 0) == 0
  {
  }

  /** The first frame to commence in a payload with a PTS gets that PTS, whole or partial or shorter than a header. */
  lemma FirstFrameTakesPts(f: Feed, j: nat)
    requires f.Clean() && Commenced(f, j) && f.PtsFor(j).Some?
    ensures Stamped(f, j).0 == f.PtsFor(j)
  {
    hide *;
    AnchorStep(f, j);
    StampMeaning(f, j);
    OffsetZero(GeometryAt(f, j).0, GeometryAt(f, j).1);
  }

  lemma FloorStep(x: nat, y: nat, d: nat)
    requires d > 0
    ensures (x + y) / d - x / d - (y + d / 2) / d in {-1, 0, 1}
  {
    var a, b, c := x / d, (x + y) / d, (y + d / 2) / d;
    assert x == a * d + x % d && x + y == b * d + (x + y) % d && y + d / 2 == c * d + (y + d / 2) % d;
    assert (b - a - c) * d == x % d - (x + y) % d - d / 2 + (y + d / 2) % d;
    Close(b - a - c, d);
  }

  lemma Close(t: int, d: nat)
    requires d > 0 && -2 * d < t * d < 2 * d
    ensures -1 <= t <= 1
  {
    NonNegative(t + 1, d);
    NonNegative(1 - t, d);
  }

  lemma {:induction false} OffsetsStepByADuration(k: nat, samples: nat, rate: nat)
    requires rate > 0
    ensures FrameOffset(k + 1, samples, rate) - FrameOffset(k, samples, rate)
            - (samples * 90_000 + rate / 2) / rate in {-1, 0, 1}
  {
    assert (k + 1) * samples * 90_000 == k * samples * 90_000 + samples * 90_000;
    FloorStep(k * samples * 90_000, samples * 90_000, rate);
  }

  /** Between two frames due from one anchor the stamps step by the frame's duration, to a tick: no drift. */
  lemma NoDrift(f: Feed, j: nat)
    requires f.Clean() && Uniform(f) && Commenced(f, j + 1) && f.PtsFor(j + 1).None?
    requires AnchorFrame(f, j + 1).Some?
    requires GeometryKnown(f, j) || (AnchorFrame(f, j + 1).value == j && GeometryKnown(f, j + 1))
    ensures Commenced(f, j) && f.CleanFrame(j)
    ensures var (s, t) := (Stamped(f, j).0, Stamped(f, j + 1).0);
            s.Some? && t.Some? && t.value - s.value - f.Info(j).value.Duration90k() in {-1, 0, 1}
  {
    hide *;
    AnchorKept(f, j);
    CleanAt(f, j);
    CleanGeometry(f, j);
    KnownStep(f, j);
    UniformGeometry(f, j);
    UniformGeometry(f, j + 1);
    SameGeometry(f, j);
    var i := AnchorFrame(f, j).value;
    StampMeaning(f, j);
    StampMeaning(f, j + 1);
    OffsetsStepByADuration(j - i, f.Samples(j), f.Rate(j));
    OffsetZero(f.Samples(j), f.Rate(j));
    OffsetZero(0, 0);
  }

  lemma KnownStep(f: Feed, j: nat)
    ensures GeometryKnown(f, j) ==> GeometryKnown(f, j + 1)
  {
  }

  lemma SameGeometry(f: Feed, j: nat)
    requires Uniform(f) && Commenced(f, j + 1)
    ensures j + 1 < |f.frames| && f.Samples(j + 1) == f.Samples(j) && f.Rate(j + 1) == f.Rate(j)
  {
  }

  lemma AnchorKept(f: Feed, j: nat)
    requires Commenced(f, j + 1) && f.PtsFor(j + 1).None?
    ensures j < |f.frames| && Commenced(f, j) && AnchorFrame(f, j) == AnchorFrame(f, j + 1)
  {
    CommencedBefore(f, j, j + 1);
  }

  lemma CleanGeometry(f: Feed, j: nat)
    requires f.Clean() && j < |f.frames|
    ensures f.Rate(j) > 0 && f.CleanFrame(j)
    ensures f.Info(j).value.Duration90k() == (f.Samples(j) * 90_000 + f.Rate(j) / 2) / f.Rate(j)
  {
    CleanAt(f, j);
    Geometry(f, j);
  }

  lemma OffsetZero(samples: nat, rate: nat)
    ensures FrameOffset(0, samples, rate) == 0
  {
  }

  // ---- A stream whose stamps stall ----

  /** An AC-3 frame: 48 kHz, 1536 samples, 128 bytes. */
  const AC3_FRAME: seq<Byte> := [0x0B, 0x77, 0, 0, 0, 0x40, 0x40] + Zeros(121)

  /** Both frames commence as the last seven bytes of a payload, one short of a header. */
  function StallFeed(pts: int): Feed {
    Feed(Ac3Syntax, [AC3_FRAME, AC3_FRAME],
         [Payload(AC3_FRAME[..7], Some(pts)), Payload(AC3_FRAME[7..] + AC3_FRAME[..7], None),
          Payload(AC3_FRAME[7..], None)])
  }

  lemma Ac3FrameParses()
    ensures ParseAc3Frame(AC3_FRAME) == Some(FrameInfo(Ac3, 128, 1536, 48_000, 2, Some(32_000)))
    ensures ParseAc3Frame(AC3_FRAME[..7]).Some?
  {
    assert BitOr0(AC3_FRAME, 53) == 0 by { BitFive(); }
  }

  lemma BitFive()
    ensures BitAt(0x40, 5) == 0
  {
  }

  lemma StallSizes(pts: int)
    ensures var f := StallFeed(pts);
            && f.Start(0) == 0 && f.Start(1) == 128 && f.Start(2) == 256
            && f.Total(0) == 0 && f.Total(1) == 7 && f.Total(2) == 135 && f.Total(3) == 256
            && PayloadBytes(f.payloads) == Concat(f.frames)
  {
    var f := StallFeed(pts);
    ConcatSnoc(f.frames, 0);
    ConcatSnoc(f.frames, 1);
    PayloadSnoc(f.payloads, 0);
    PayloadSnoc(f.payloads, 1);
    PayloadSnoc(f.payloads, 2);
    assert f.frames[..2] == f.frames && f.payloads[..3] == f.payloads;
    assert Concat(f.frames) == AC3_FRAME + AC3_FRAME;
    assert PayloadBytes(f.payloads) == AC3_FRAME[..7] + (AC3_FRAME[7..] + AC3_FRAME[..7]) + AC3_FRAME[7..];
  }

  lemma StallPlaces(pts: int)
    ensures var f := StallFeed(pts);
            && Commenced(f, 0) && Commenced(f, 1)
            && f.PtsFor(0) == Some(pts) && f.PtsFor(1) == None
            && !f.HeaderInView(0) && !f.HeaderInView(1)
  {
    hide PayloadBytes, Concat, Feed.Total, Feed.Start, Feed.PayloadOf;
    var f := StallFeed(pts);
    StallSizes(pts);
    PayloadIs(f, 0, 0);
    PayloadIs(f, 1, 1);
  }

  /** The promise fails here: frame 1 is due 2880 ticks after frame 0 and gets its stamp again. */
  lemma StampsStall(pts: int)
    ensures var f := StallFeed(pts);
            && f.Clean() && Uniform(f) && Commenced(f, 1)
            && Stamped(f, 0).0 == Some(pts) && Stamped(f, 1).0 == Some(pts)
            && Due(f, 1) == Some(pts + 2880)
  {
    hide PayloadBytes, Concat, Feed.Total, Feed.Start, Feed.PtsFor, Feed.HeaderInView;
    hide ParseAc3Frame, Commenced, Stamped, AC3_FRAME;
    var f := StallFeed(pts);
    Ac3FrameParses();
    FrameLength();
    StallSizes(pts);
    StallPlaces(pts);
    StampedStep(f, 0);
    StampedStep(f, 1);
  }

  lemma FrameLength()
    ensures |AC3_FRAME| == 128
  {
  }
}
