/** Stamps on a stream whose frames differ in length of sound: the time due is that of all frames since the anchor. */
module AudioGeometry {
  import opened Arithmetic
  import opened AudioFeed
  import opened AudioHeaders
  import opened AudioRun
  import opened AudioSplitter
  import opened AudioStamps
  import opened Bytes
  import opened Wrappers

  ghost predicate OneRate(f: Feed) {
    forall j | 0 <= j < |f.frames| :: f.Rate(j) == f.Rate(0)
  }

  /** Samples in the frames from `i` up to `j`. */
  function Sounded(f: Feed, i: nat, j: nat): nat
    requires i <= j <= |f.frames|
    decreases j - i
  {
    if i == j then 0 else Sounded(f, i, j - 1) + f.Samples(j - 1)
  }

  /** The anchor frame's stamp and the sound of the frames since, rounded down. */
  function DueBySound(f: Feed, j: nat): Option<int>
    requires Commenced(f, j)
  {
    match AnchorFrame(f, j)
    case None => None
    case Some(i) =>
      Some(f.PtsFor(i).value + Sounded(f, i, j) * 90_000 / (if f.Rate(j) == 0 then 1 else f.Rate(j)))
  }

  // ---- Samples come in blocks of 64 ----

  lemma SampleBlocks(syn: Syntax, b: seq<Byte>)
    requires syn.Parse(b).Some?
    ensures var info := syn.Parse(b).value; info.samplesPerFrame % 64 == 0 && 0 < info.sampleRate <= 96_000
  {
    match syn {
      case Ac3Syntax => Ac3Blocks(b);
      case MpegAudioSyntax => MpegBlocks(b);
      case AdtsSyntax => AdtsBlocks(b);
    }
  }

  lemma Ac3Blocks(b: seq<Byte>)
    requires ParseAc3Frame(b).Some?
    ensures var info := ParseAc3Frame(b).value; info.samplesPerFrame % 64 == 0 && 0 < info.sampleRate <= 96_000
  {
    ShortAc3(b);
    var code2 := b[4] as nat / 16 % 4;
    assert EAC3_BLOCKS[code2] * 256 % 64 == 0;
  }

  lemma MpegBlocks(b: seq<Byte>)
    requires ParseMpegAudioHeader(b).Some?
    ensures var info := ParseMpegAudioHeader(b).value; info.samplesPerFrame % 64 == 0 && 0 < info.sampleRate <= 96_000
  {
    hide MpegRates;
    ShortMpeg(b);
  }

  lemma AdtsBlocks(b: seq<Byte>)
    requires ParseAdtsHeader(b).Some?
    ensures var info := ParseAdtsHeader(b).value; info.samplesPerFrame % 64 == 0 && 0 < info.sampleRate <= 96_000
  {
    var sfIndex := b[2] as nat / 4 % 16;
    assert 0 < ADTS_SAMPLE_RATE[sfIndex] <= 96_000;
  }

  lemma FrameBlocks(f: Feed, j: nat)
    requires f.Clean() && j < |f.frames|
    ensures f.Samples(j) % 64 == 0 && 0 < f.Rate(j) <= 96_000 && f.Samples(j) > 0
  {
    CleanAt(f, j);
    SampleBlocks(f.syn, f.frames[j]);
    Geometry(f, j);
  }

  lemma {:induction false} SoundedBlocks(f: Feed, i: nat, j: nat)
    requires f.Clean() && i <= j <= |f.frames|
    ensures Sounded(f, i, j) % 64 == 0
    ensures i < j ==> Sounded(f, i, j) > 0
    decreases j - i
  {
    hide Feed.Clean, Feed.Samples;
    if i < j {
      SoundedBlocks(f, i, j - 1);
      FrameBlocks(f, j - 1);
      AddBlocks(Sounded(f, i, j - 1), f.Samples(j - 1));
    }
  }

  lemma AddBlocks(a: nat, b: nat)
    requires a % 64 == 0 && b % 64 == 0
    ensures (a + b) % 64 == 0
  {
  }

  /** Counts a block apart are at least sixty ticks apart: equal times mean equal counts. */
  lemma BlocksApart(x: nat, y: nat, rate: nat)
    requires x % 64 == 0 && y % 64 == 0 && 0 < rate <= 96_000
    ensures x * 90_000 / rate == y * 90_000 / rate <==> x == y
  {
    if x < y {
      BlockLater(x, y, rate);
    } else if y < x {
      BlockLater(y, x, rate);
    }
  }

  lemma BlockLater(x: nat, y: nat, rate: nat)
    requires x + 64 <= y && 0 < rate <= 96_000
    ensures x * 90_000 / rate < y * 90_000 / rate
  {
    var q, p := x * 90_000 / rate, y * 90_000 / rate;
    assert x * 90_000 == q * rate + x * 90_000 % rate;
    assert y * 90_000 == p * rate + y * 90_000 % rate;
    assert (p - q - 1) * rate == p * rate - q * rate - rate;
    NonNegative(p - q - 1, rate);
  }

  lemma MultipleBlocks(k: nat, samples: nat)
    requires samples % 64 == 0
    ensures k * samples % 64 == 0
  {
    var b := samples / 64;
    assert k * samples == (k * b) * 64;
  }

  // ---- The exact condition ----

  /**
   * At one sampling rate a frame gets the time of all the sound since its anchor exactly when nothing is
   * anchored, a PES stamps it, or a header was seen and the frames since the anchor hold as many samples as that
   * many frames like the last one seen.
   */
  lemma SoundExact(f: Feed, j: nat)
    requires f.Clean() && OneRate(f) && Commenced(f, j)
    ensures j < |f.frames|
    ensures Stamped(f, j).0 == DueBySound(f, j) <==>
            || AnchorFrame(f, j).None? || AnchorFrame(f, j).value == j
            || (GeometryKnown(f, j) && var i := AnchorFrame(f, j).value;
                                       (j - i) * GeometryAt(f, j).0 == Sounded(f, i, j))
  {
    hide *;
    FrameOf(f, j);
    StampMeaning(f, j);
    if AnchorFrame(f, j).Some? {
      var i := AnchorFrame(f, j).value;
      SoundDue(f, j);
      KnownGeometry(f, j);
      FrameBlocks(f, j);
      SoundedBlocks(f, i, j);
      SoundOf(f, j, i);
    } else {
      NothingDue(f, j);
    }
  }

  lemma NothingDue(f: Feed, j: nat)
    requires Commenced(f, j) && AnchorFrame(f, j).None?
    ensures DueBySound(f, j) == None
  {
  }

  lemma SoundDue(f: Feed, j: nat)
    requires f.Clean() && Commenced(f, j) && AnchorFrame(f, j).Some?
    ensures var i := AnchorFrame(f, j).value;
            j < |f.frames| && f.Rate(j) > 0
            && DueBySound(f, j) == Some(f.PtsFor(i).value + Sounded(f, i, j) * 90_000 / f.Rate(j))
  {
    hide AnchorFrame, Feed.PtsFor, Sounded;
    FrameOf(f, j);
    FrameBlocks(f, j);
  }

  lemma KnownGeometry(f: Feed, j: nat)
    requires f.Clean() && OneRate(f) && Commenced(f, j)
    ensures j < |f.frames|
    ensures GeometryAt(f, j) == if GeometryKnown(f, j) then (GeometryAt(f, j).0, f.Rate(j)) else (0, 0)
    ensures GeometryAt(f, j).0 % 64 == 0
  {
    hide Feed.Clean, Feed.Rate, Feed.Samples;
    LastShownStep(f, j);
    if GeometryKnown(f, j) {
      FrameBlocks(f, LastShown(f, j).value);
    }
  }

  /** Offsets by count and by sound. */
  lemma SoundOf(f: Feed, j: nat, i: nat)
    requires i <= j < |f.frames| && 0 < f.Rate(j) <= 96_000
    requires var (samples, rate) := GeometryAt(f, j);
             samples % 64 == 0 && ((GeometryKnown(f, j) && rate == f.Rate(j)) || (!GeometryKnown(f, j) && rate == 0))
    requires Sounded(f, i, j) % 64 == 0 && (i < j ==> Sounded(f, i, j) > 0)
    ensures var (samples, rate) := GeometryAt(f, j);
            FrameOffset(j - i, samples, rate) == Sounded(f, i, j) * 90_000 / f.Rate(j) <==>
            i == j || (GeometryKnown(f, j) && (j - i) * samples == Sounded(f, i, j))
  {
    hide GeometryAt, GeometryKnown, Feed.Rate;
    MultipleBlocks(j - i, GeometryAt(f, j).0);
    BlocksApart((j - i) * GeometryAt(f, j).0, Sounded(f, i, j), f.Rate(j));
    BlocksApart(0, Sounded(f, i, j), f.Rate(j));
  }

  lemma {:induction false} EqualFrames(f: Feed, i: nat, j: nat, samples: nat)
    requires i <= j <= |f.frames| && forall l | 0 <= l < |f.frames| :: f.Samples(l) == samples
    ensures Sounded(f, i, j) == (j - i) * samples
    decreases j - i
  {
    hide Feed.Samples;
    if i < j {
      EqualFrames(f, i, j - 1, samples);
      OneMore(j - 1 - i, samples);
    }
  }

  lemma OneMore(k: nat, samples: nat)
    ensures (k + 1) * samples == k * samples + samples
  {
  }

  lemma SamplesAlike(f: Feed, j: nat)
    requires Uniform(f) && j < |f.frames|
    ensures OneRate(f) && forall l | 0 <= l < |f.frames| :: f.Samples(l) == f.Samples(j)
  {
  }

  /**
   * Frames of one geometry are the plain case: the time due by sound is the one due by count, and the condition
   * is met as soon as a header is seen.
   */
  lemma UniformIsPlain(f: Feed, j: nat)
    requires f.Clean() && Uniform(f) && Commenced(f, j)
    ensures j < |f.frames| && OneRate(f) && DueBySound(f, j) == Due(f, j)
    ensures AnchorFrame(f, j).Some? && GeometryKnown(f, j) ==>
              var i := AnchorFrame(f, j).value;
              (j - i) * GeometryAt(f, j).0 == Sounded(f, i, j)
  {
    hide Feed.Clean, Uniform, Commenced, AnchorFrame, GeometryAt, GeometryKnown, OneRate, Sounded;
    hide Feed.PtsFor, Feed.Samples, Feed.Rate;
    FrameOf(f, j);
    UniformGeometry(f, j);
    SamplesAlike(f, j);
    if AnchorFrame(f, j).Some? {
      EqualFrames(f, AnchorFrame(f, j).value, j, f.Samples(j));
    }
  }

  // ---- A stream where it fails ----

  /** An AAC frame of seven bytes at 48 kHz, of two blocks of 1024 samples or of one. */
  function AdtsFrame(two: bool): seq<Byte> {
    [0xFF, 0xF1, 0x4C, 0x80, 0, 0xE0, if two then 1 else 0]
  }

  lemma AdtsFrameParses(two: bool, more: seq<Byte>)
    ensures ParseAdtsHeader(AdtsFrame(two) + more) ==
            Some(FrameInfo(AacAdts, 7, if two then 2048 else 1024, 48_000, 2, None))
  {
    var b := AdtsFrame(two) + more;
    assert b[..7] == AdtsFrame(two);
    assert b[0] == 0xFF && b[1] == 0xF1 && b[2] == 0x4C && b[3] == 0x80 && b[4] == 0 && b[5] == 0xE0;
    assert b[6] == if two then 1 else 0;
  }

  /** A frame of two blocks and one of one block, in one payload. */
  function TwoThenOne(pts: int): Feed {
    Feed(AdtsSyntax, [AdtsFrame(true), AdtsFrame(false)], [Payload(AdtsFrame(true) + AdtsFrame(false), Some(pts))])
  }

  lemma TwoThenOneSizes(pts: int)
    ensures var f := TwoThenOne(pts);
            && f.Start(0) == 0 && f.Start(1) == 7 && f.Start(2) == 14
            && f.Total(0) == 0 && f.Total(1) == 14 && PayloadBytes(f.payloads) == Concat(f.frames)
  {
    var f := TwoThenOne(pts);
    ConcatSnoc(f.frames, 0);
    ConcatSnoc(f.frames, 1);
    PayloadSnoc(f.payloads, 0);
    assert f.frames[..2] == f.frames && f.payloads[..1] == f.payloads;
  }

  lemma TwoThenOneInfos(pts: int)
    ensures var f := TwoThenOne(pts);
            && f.Info(0) == Some(FrameInfo(AacAdts, 7, 2048, 48_000, 2, None))
            && f.Info(1) == Some(FrameInfo(AacAdts, 7, 1024, 48_000, 2, None))
            && f.syn.Parse(f.payloads[0].bytes).Some?
  {
    hide ParseAdtsHeader;
    AdtsFrameParses(true, []);
    AdtsFrameParses(false, []);
    AdtsFrameParses(true, AdtsFrame(false));
    assert AdtsFrame(true) + [] == AdtsFrame(true) && AdtsFrame(false) + [] == AdtsFrame(false);
  }

  lemma TwoThenOnePlaces(pts: int)
    ensures var f := TwoThenOne(pts);
            && Commenced(f, 0) && Commenced(f, 1)
            && f.PtsFor(0) == Some(pts) && f.PtsFor(1) == None && f.HeaderInView(0) && f.HeaderInView(1)
  {
    hide PayloadBytes, Concat, Feed.Total, Feed.Start, Feed.PayloadOf;
    var f := TwoThenOne(pts);
    TwoThenOneSizes(pts);
    PayloadIs(f, 0, 0);
    PayloadIs(f, 1, 0);
  }

  /** Frame 1 follows 2048 samples, 3840 ticks, and is stamped 1920 ticks behind frame 0. */
  lemma LongFrameLostTicks(pts: int)
    ensures var f := TwoThenOne(pts);
            && f.Clean() && OneRate(f) && Commenced(f, 1)
            && Stamped(f, 0).0 == Some(pts) && Stamped(f, 1).0 == Some(pts + 1920)
            && DueBySound(f, 1) == Some(pts + 3840)
  {
    hide PayloadBytes, Concat, Feed.Total, Feed.Start, Feed.PtsFor, Feed.HeaderInView, Commenced, Stamped;
    hide ParseAdtsHeader, AdtsFrame;
    var f := TwoThenOne(pts);
    TwoThenOneSizes(pts);
    TwoThenOneInfos(pts);
    TwoThenOnePlaces(pts);
    SevenBytes();
    StampedStep(f, 0);
    StampedStep(f, 1);
    assert Sounded(f, 0, 1) == 2048;
  }

  lemma SevenBytes()
    ensures |AdtsFrame(true)| == 7 && |AdtsFrame(false)| == 7
  {
  }
}
