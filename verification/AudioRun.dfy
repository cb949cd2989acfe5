/** The splitter on a clean stream: exact framing and exactly-once stamping in any fragmentation. */
module AudioRun {
  import opened AudioFeed
  import opened AudioHeaders
  import opened AudioSplitter
  import opened Bytes
  import opened Wrappers

  // ---- Stamping the frames in order ----

  /** Frame `j` starts in a payload that was pushed. */
  predicate Commenced(f: Feed, j: nat) {
    j < |f.frames| && f.Start(j) < f.Total(|f.payloads|)
  }

  lemma CommencedBefore(f: Feed, i: nat, j: nat)
    requires i <= j && Commenced(f, j)
    ensures Commenced(f, i)
  {
    StartMonotone(f, i, j);
  }

  /** The stamp of frame `j`, taken where it commences, and the anchor after it. */
  function Stamped(f: Feed, j: nat): (Option<int>, Option<Anchor>)
    requires Commenced(f, j)
    decreases j
  {
    var a := if j == 0 then None else (CommencedBefore(f, j - 1, j); Stamped(f, j - 1).1);
    if f.HeaderInView(j) then TakeStamp(a, f.PtsFor(j), f.Samples(j), f.Rate(j))
    else TakeStamp(a, f.PtsFor(j), GuessedSamples(a), GuessedRate(a))
  }

  /** The anchor once the first `n` frames are stamped. */
  function AnchorAfter(f: Feed, n: nat): Option<Anchor>
    requires n > 0 ==> Commenced(f, n - 1)
  {
    if n == 0 then None else Stamped(f, n - 1).1
  }

  // ---- The state between pushes ----

  /** Frame `j` as the splitter should emit it. */
  ghost function FrameOut(f: Feed, j: nat): AudioFrame
    requires f.Clean() && Commenced(f, j)
  {
    assert f.CleanFrame(j);
    AudioFrame(f.frames[j], Stamped(f, j).0, f.Info(j).value)
  }

  ghost function Emitted(f: Feed, k: nat): (out: seq<AudioFrame>)
    requires f.Clean() && k <= |f.frames| && (k > 0 ==> Commenced(f, k - 1))
    ensures |out| == k
  {
    if k == 0 then []
    else
      (if k > 1 then CommencedBefore(f, k - 2, k - 1); Emitted(f, k - 1) else []) + [FrameOut(f, k - 1)]
  }

  /** Frames stamped so far: those complete, and the one under way. */
  function StampedCount(f: Feed, m: nat, k: nat): nat
    requires m <= |f.payloads| && k <= |f.frames|
  {
    if f.Start(k) < f.Total(m) then k + 1 else k
  }

  /** After `m` payloads `k` frames are out and the rest of what came is carried over. */
  ghost predicate Between(f: Feed, m: nat, k: nat, s: SplitState, out: seq<AudioFrame>)
    requires f.Clean()
  {
    && m <= |f.payloads| && f.Completes(k, f.Total(m)) && f.Total(m) <= |Concat(f.frames)|
    && s.residual == Concat(f.frames)[f.Start(k)..f.Total(m)]
    && s.discarded == 0 && (s.locked <==> k > 0)
    && (k > 0 ==> Commenced(f, k - 1)) && out == Emitted(f, k)
    && (f.Start(k) < f.Total(m) ==> Commenced(f, k) && s.residualPts == Stamped(f, k).0)
    && (f.Start(k) == f.Total(m) ==> s.residualPts == None)
    && s.anchor == AnchorAfter(f, StampedCount(f, m, k))
  }

  /** Inside push `m`: frames up to `j` are out, the buffer begins with frame `k`. */
  ghost predicate Within(f: Feed, m: nat, k: nat, j: nat, w: Work)
    requires f.Clean()
  {
    && m < |f.payloads| && k <= j <= |f.frames|
    && f.Completes(k, f.Total(m)) && f.Start(j) <= f.Total(m + 1) <= |Concat(f.frames)|
    && w.pos == f.Start(j) - f.Start(k)
    && w.discarded == 0 && (w.locked <==> j > 0)
    && (j > 0 ==> Commenced(f, j - 1))
    && |w.out| == j - k && Emitted(f, j)[k..] == w.out
    && (if j == k && f.Start(k) < f.Total(m)
        then Commenced(f, k) && w.residualPts == Stamped(f, k).0 && w.anchor == AnchorAfter(f, k + 1)
        else w.anchor == AnchorAfter(f, j) && w.residualPts == None)
    && w.pending == if j <= StampedCount(f, m, k) then f.payloads[m].pts else None
  }

  // ---- One push ----

  lemma SubSlice<T>(s: seq<T>, from: nat, to: nat, a: nat, b: nat)
    requires from <= a <= b <= to <= |s|
    ensures s[from..to][a - from..b - from] == s[a..b]
  {
    var x, y := s[from..to][a - from..b - from], s[a..b];
    forall i | 0 <= i < |x| ensures x[i] == y[i] {
      assert x[i] == s[from..to][a - from + i];
    }
  }

  lemma TailSlice<T>(s: seq<T>, from: nat, to: nat, a: nat)
    requires from <= a <= to <= |s|
    ensures s[from..to][a - from..] == s[a..to]
  {
    assert s[from..to][a - from..] == s[from..to][a - from..to - from];
  }

  lemma CleanAt(f: Feed, j: nat)
    requires f.Clean() && j < |f.frames|
    ensures f.CleanFrame(j) && f.syn.HeaderLen() > 0
  {
  }

  /** A header at the head of a clean run is the frame's own, and the frame is whole or partial by length alone. */
  lemma CleanDecide(f: Feed, j: nat, end: nat)
    requires f.Clean() && j < |f.frames| && f.Start(j) + f.syn.HeaderLen() <= end <= |Concat(f.frames)|
    ensures f.CleanFrame(j)
    ensures Decide(f.syn, Concat(f.frames)[f.Start(j)..end]) ==
            if f.Start(j + 1) <= end then Whole(f.Info(j).value) else Partial(f.Info(j).value)
  {
    hide Concat, PayloadBytes, Feed.Start, Feed.Total, Feed.Clean, Syntax.Parse;
    HeaderParses(f, j, end);
    FrameSlice(f, j);
    if f.Start(j + 1) + f.syn.HeaderLen() <= end {
      CleanAt(f, j);
      FrameInside(f, j + 1, end);
      CleanAt(f, j + 1);
      HeaderParses(f, j + 1, end);
      TailSlice(Concat(f.frames), f.Start(j), end, f.Start(j + 1));
    }
  }

  /** Bytes before the end of the stream belong to some frame. */
  lemma FrameInside(f: Feed, j: nat, end: nat)
    requires j <= |f.frames| && f.Start(j) < end <= |Concat(f.frames)|
    ensures j < |f.frames|
  {
    assert f.frames[..|f.frames|] == f.frames;
  }

  lemma HeaderParses(f: Feed, j: nat, end: nat)
    requires f.Clean() && j < |f.frames| && f.Start(j) + f.syn.HeaderLen() <= end <= |Concat(f.frames)|
    ensures f.CleanFrame(j)
    ensures f.syn.Parse(Concat(f.frames)[f.Start(j)..end]) == f.Info(j)
  {
    hide Concat, PayloadBytes, Feed.Start, Feed.Total, Feed.Clean, Syntax.Parse;
    CleanAt(f, j);
    FrameSlice(f, j);
    var hdr := f.syn.HeaderLen();
    SubSlice(Concat(f.frames), f.Start(j), end, f.Start(j), f.Start(j) + hdr);
    SubSlice(Concat(f.frames), f.Start(j), f.Start(j + 1), f.Start(j), f.Start(j) + hdr);
    ParseIsLocal(f.syn, Concat(f.frames)[f.Start(j)..end], f.frames[j]);
  }

  lemma CleanFrames(f: Feed)
    requires f.Clean()
    ensures forall j | 0 <= j < |f.frames| :: |f.frames[j]| > 0
  {
    forall j | 0 <= j < |f.frames| ensures |f.frames[j]| > 0 {
      assert f.CleanFrame(j);
    }
  }

  /** A frame not yet stamped when push `m` reaches it commences in payload `m`, and takes what is pending. */
  lemma FreshFrame(f: Feed, m: nat, k: nat, j: nat)
    requires f.Clean() && m < |f.payloads| && k <= j < |f.frames|
    requires f.Completes(k, f.Total(m)) && f.Start(j) < f.Total(m + 1)
    requires j >= StampedCount(f, m, k)
    ensures Commenced(f, j) && f.PayloadOf(j) == m
    ensures f.PtsFor(j) == if j <= StampedCount(f, m, k) then f.payloads[m].pts else None
  {
    CleanFrames(f);
    if k < j {
      StartMonotone(f, k + 1, j);
    }
    PayloadIs(f, j, m);
    if j > 0 {
      StartedEarlier(f, m, k, j);
    }
  }

  /** The frame before the first fresh one started in an earlier payload, the others' predecessors in this one. */
  lemma StartedEarlier(f: Feed, m: nat, k: nat, j: nat)
    requires f.Clean() && m < |f.payloads| && k <= j < |f.frames| && j > 0
    requires f.Completes(k, f.Total(m)) && j >= StampedCount(f, m, k)
    ensures f.Start(j - 1) < f.Total(m) <==> j == StampedCount(f, m, k)
  {
    hide Feed.Clean;
    CleanFrames(f);
    if j == StampedCount(f, m, k) {
      StartMonotone(f, j - 1, k);
    } else if k < j - 1 {
      StartMonotone(f, k + 1, j - 1);
    }
  }

  /** Pushing payload `m` reaches exactly this frame. */
  ghost predicate Reached(f: Feed, m: nat, k: nat)
    requires f.Clean() && m < |f.payloads|
  {
    k <= |f.frames| && f.Total(m + 1) <= |Concat(f.frames)| && f.Completes(k, f.Total(m + 1))
  }

  /** Frame `k`, begun in an earlier payload, stays incomplete: it keeps its stamp. */
  lemma CarryOld(f: Feed, m: nat, k: nat, w: Work, buf: seq<Byte>, samples: nat, rate: nat)
    requires f.Clean() && Within(f, m, k, k, w) && Reached(f, m, k) && f.Start(k) < f.Total(m)
    requires buf == Concat(f.frames)[f.Start(k)..f.Total(m + 1)]
    ensures f.Total(m) <= f.Total(m + 1)
    ensures Between(f, m + 1, k, CarryOver(buf, f.Total(m) - f.Start(k), w, samples, rate), Emitted(f, k))
  {
    hide Concat, PayloadBytes, Feed.Start, Feed.Total, TakeStamp, Emitted, Stamped, Feed.Clean;
    TotalMonotone(f, m, m + 1);
    TailSlice(Concat(f.frames), f.Start(k), f.Total(m + 1), f.Start(k));
  }

  /** Frame `j` commences in this payload and stays incomplete: it is stamped now. */
  lemma CarryFresh(f: Feed, m: nat, k: nat, j: nat, w: Work, buf: seq<Byte>)
    requires f.Clean() && Within(f, m, k, j, w) && Reached(f, m, j) && j >= StampedCount(f, m, k)
    requires buf == Concat(f.frames)[f.Start(k)..f.Total(m + 1)]
    requires j < |f.frames| && f.Start(j) < f.Total(m + 1)
    ensures w.pos >= f.Total(m) - f.Start(k)
    ensures var (samples, rate) := if f.Total(m + 1) - f.Start(j) >= f.syn.HeaderLen() then (f.Samples(j), f.Rate(j))
                                   else (GuessedSamples(w.anchor), GuessedRate(w.anchor));
            Between(f, m + 1, j, CarryOver(buf, f.Total(m) - f.Start(k), w, samples, rate), Emitted(f, j))
  {
    hide Concat, PayloadBytes, Feed.Start, Feed.Total, Feed.Clean;
    hide TakeStamp, Emitted, GuessedSamples, GuessedRate, Stamped;
    FreshWork(f, m, k, j, w);
    FreshStamp(f, m, k, j);
    TailSlice(Concat(f.frames), f.Start(k), f.Total(m + 1), f.Start(j));
  }

  /** Only the carried frame starts before the payload. */
  lemma PastCarried(f: Feed, m: nat, k: nat, j: nat)
    requires f.Clean() && m < |f.payloads| && k <= j <= |f.frames|
    requires f.Completes(k, f.Total(m)) && j >= StampedCount(f, m, k)
    ensures f.Start(j) >= f.Total(m)
  {
    if k < j {
      StartMonotone(f, k + 1, j);
    }
  }

  /** The loop variables behind frame `j`. */
  ghost function Behind(f: Feed, k: nat, j: nat, w: Work, pending: Option<int>): Work
    requires f.Clean() && k <= j && Commenced(f, j) && f.Start(k) <= f.Start(j + 1)
  {
    w.(pos := f.Start(j + 1) - f.Start(k), anchor := Stamped(f, j).1, residualPts := None,
       pending := pending, locked := true, out := w.out + [FrameOut(f, j)])
  }

  /** Emitting the carried frame `k` with the stamp it was given. */
  lemma EmitOld(f: Feed, m: nat, k: nat, w: Work, buf: seq<Byte>)
    requires f.Clean() && Within(f, m, k, k, w) && f.Start(k) < f.Total(m)
    requires buf == Concat(f.frames)[f.Start(k)..f.Total(m + 1)]
    requires k < |f.frames| && f.Start(k + 1) <= f.Total(m + 1)
    ensures f.CleanFrame(k) && w.pos + f.Info(k).value.frameLen <= |buf|
    ensures Within(f, m, k, k + 1, Emit(buf, f.Total(m) - f.Start(k), w, f.Info(k).value))
  {
    hide *;
    HeldWork(f, m, k, w);
    FrameBytes(f, m, k, k, buf, 0);
    EmitHeld(f, m, k, w, buf);
    EmittedGrows(f, k, k);
    Advance(f, m, k, k, w, w.pending);
  }

  lemma EmitHeld(f: Feed, m: nat, k: nat, w: Work, buf: seq<Byte>)
    requires f.Clean() && m <= |f.payloads| && Commenced(f, k) && f.CleanFrame(k)
    requires w.pos == 0 && w.residualPts == Stamped(f, k).0 && w.anchor == Stamped(f, k).1
    requires |f.frames[k]| <= |buf| && buf[..|f.frames[k]|] == f.frames[k]
    requires f.Start(k) < f.Total(m) && f.Start(k + 1) == f.Start(k) + |f.frames[k]|
    ensures Emit(buf, f.Total(m) - f.Start(k), w, f.Info(k).value) == Behind(f, k, k, w, w.pending)
  {
    hide Concat, PayloadBytes, Feed.Start, Feed.Total, Feed.Clean, Stamped, Interpolate, TakeStamp;
    UnstampedHasNoAnchor(f, k);
  }

  lemma HeldWork(f: Feed, m: nat, k: nat, w: Work)
    requires f.Clean() && Within(f, m, k, k, w) && f.Start(k) < f.Total(m) && k < |f.frames|
    ensures m < |f.payloads| && w.pos == 0 && Commenced(f, k)
    ensures w.residualPts == Stamped(f, k).0 && w.anchor == Stamped(f, k).1
    ensures f.Start(k) <= f.Start(k + 1) && f.Total(m + 1) <= |Concat(f.frames)|
    ensures k < StampedCount(f, m, k)
  {
    hide Emitted, Stamped;
    StartMonotone(f, k, k + 1);
  }

  /** Emitting frame `j`, which commences in this payload. */
  lemma EmitFresh(f: Feed, m: nat, k: nat, j: nat, w: Work, buf: seq<Byte>)
    requires f.Clean() && Within(f, m, k, j, w) && j >= StampedCount(f, m, k)
    requires buf == Concat(f.frames)[f.Start(k)..f.Total(m + 1)]
    requires j < |f.frames| && f.Start(j + 1) <= f.Total(m + 1)
    ensures f.CleanFrame(j) && w.pos + f.Info(j).value.frameLen <= |buf|
    ensures Within(f, m, k, j + 1, Emit(buf, f.Total(m) - f.Start(k), w, f.Info(j).value))
  {
    hide *;
    FreshWork(f, m, k, j, w);
    FrameBytes(f, m, k, j, buf, w.pos);
    EmitNew(f, m, k, j, w, buf);
    EmittedGrows(f, k, j);
    Advance(f, m, k, j, w, None);
  }

  lemma EmitNew(f: Feed, m: nat, k: nat, j: nat, w: Work, buf: seq<Byte>)
    requires f.Clean() && m < |f.payloads| && k <= j < |f.frames| && f.CleanFrame(j)
    requires f.Completes(k, f.Total(m)) && j >= StampedCount(f, m, k)
    requires f.Total(m) <= f.Start(j) && f.Start(j + 1) == f.Start(j) + |f.frames[j]| <= f.Total(m + 1)
    requires w.pos == f.Start(j) - f.Start(k) && w.residualPts == None
    requires j > 0 ==> Commenced(f, j - 1)
    requires w.anchor == AnchorAfter(f, j)
    requires w.pending == if j <= StampedCount(f, m, k) then f.payloads[m].pts else None
    requires w.pos + |f.frames[j]| <= |buf| && buf[w.pos..w.pos + |f.frames[j]|] == f.frames[j]
    ensures Commenced(f, j)
    ensures Emit(buf, f.Total(m) - f.Start(k), w, f.Info(j).value) == Behind(f, k, j, w, None)
  {
    hide Concat, PayloadBytes, Feed.Start, Feed.Total, Feed.Clean, Stamped, TakeStamp;
    FreshStamp(f, m, k, j);
  }

  lemma FreshWork(f: Feed, m: nat, k: nat, j: nat, w: Work)
    requires f.Clean() && Within(f, m, k, j, w) && j >= StampedCount(f, m, k) && j < |f.frames|
    ensures m < |f.payloads| && k <= j
    ensures f.Start(k) <= f.Start(j) <= f.Start(j + 1) && f.Total(m + 1) <= |Concat(f.frames)|
    ensures f.Completes(k, f.Total(m)) && f.Total(m) <= f.Start(j)
    ensures w.pos == f.Start(j) - f.Start(k) && w.residualPts == None
    ensures j > 0 ==> Commenced(f, j - 1)
    ensures w.anchor == AnchorAfter(f, j)
    ensures w.pending == if j <= StampedCount(f, m, k) then f.payloads[m].pts else None
  {
    hide Emitted, Stamped;
    StartMonotone(f, k, j);
    StartMonotone(f, j, j + 1);
    PastCarried(f, m, k, j);
  }

  lemma Advance(f: Feed, m: nat, k: nat, j: nat, w: Work, pending: Option<int>)
    requires f.Clean() && Within(f, m, k, j, w) && Commenced(f, j) && f.Start(k) <= f.Start(j) < f.Start(j + 1)
    requires f.Start(j + 1) <= f.Total(m + 1)
    requires pending == if j < StampedCount(f, m, k) then w.pending else None
    requires j > 0 ==> Commenced(f, j - 1)
    requires Emitted(f, j + 1)[k..] == Emitted(f, j)[k..] + [FrameOut(f, j)]
    ensures Within(f, m, k, j + 1, Behind(f, k, j, w, pending))
  {
    hide Concat, PayloadBytes, Feed.Start, Feed.Total, Emitted, Feed.Clean, Stamped;
  }

  /** The stamp a fresh frame takes in push `m` is the one it is due. */
  lemma FreshStamp(f: Feed, m: nat, k: nat, j: nat)
    requires f.Clean() && m < |f.payloads| && k <= j < |f.frames|
    requires f.Completes(k, f.Total(m)) && f.Start(j) < f.Total(m + 1)
    requires j >= StampedCount(f, m, k)
    ensures Commenced(f, j) && (j > 0 ==> Commenced(f, j - 1))
    ensures var a := AnchorAfter(f, j);
            var pending := if j <= StampedCount(f, m, k) then f.payloads[m].pts else None;
            Stamped(f, j) ==
            if f.Total(m + 1) - f.Start(j) >= f.syn.HeaderLen() then TakeStamp(a, pending, f.Samples(j), f.Rate(j))
            else TakeStamp(a, pending, GuessedSamples(a), GuessedRate(a))
  {
    hide TakeStamp, Concat, PayloadBytes, Feed.Clean;
    FreshFrame(f, m, k, j);
    if j > 0 {
      CommencedBefore(f, j - 1, j);
    }
  }

  /** Frame `j` inside the buffer of push `m`. */
  lemma FrameBytes(f: Feed, m: nat, k: nat, j: nat, buf: seq<Byte>, pos: nat)
    requires f.Clean() && m < |f.payloads| && k <= j < |f.frames|
    requires f.Start(k) <= f.Start(j) <= f.Start(j + 1) <= f.Total(m + 1) <= |Concat(f.frames)|
    requires buf == Concat(f.frames)[f.Start(k)..f.Total(m + 1)] && pos == f.Start(j) - f.Start(k)
    ensures f.CleanFrame(j) && f.Info(j).Some? && f.Info(j).value.frameLen == |f.frames[j]|
    ensures f.Start(j + 1) == f.Start(j) + |f.frames[j]|
    ensures |f.frames[j]| >= f.syn.HeaderLen() > 0
    ensures pos + |f.frames[j]| <= |buf| && buf[pos..pos + |f.frames[j]|] == f.frames[j]
    ensures f.Start(j) < f.Total(|f.payloads|)
  {
    hide Concat, PayloadBytes, Feed.Start, Feed.Total, Feed.Clean, Feed.Info, Syntax.Parse, Syntax.HeaderLen;
    CleanAt(f, j);
    FrameSlice(f, j);
    var n := |f.frames[j]|;
    SubSlice(Concat(f.frames), f.Start(k), f.Total(m + 1), f.Start(j), f.Start(j) + n);
    assert f.Start(j + 1) - f.Start(k) == f.Start(j) - f.Start(k) + n;
    TotalMonotone(f, m + 1, |f.payloads|);
  }

  lemma EmittedGrows(f: Feed, k: nat, j: nat)
    requires f.Clean() && k <= j && Commenced(f, j)
    ensures j > 0 ==> Commenced(f, j - 1)
    ensures Emitted(f, j + 1)[k..] == Emitted(f, j)[k..] + [FrameOut(f, j)]
  {
    if j > 0 {
      CommencedBefore(f, j - 1, j);
    }
  }

  /** A frame that got no stamp left no anchor, so interpolating later yields none either. */
  lemma UnstampedHasNoAnchor(f: Feed, j: nat)
    requires Commenced(f, j)
    ensures Stamped(f, j).0.None? <==> Stamped(f, j).1.None?
    ensures Stamped(f, j).0.None? ==> Interpolate(Stamped(f, j).1, f.Samples(j), f.Rate(j)) == (None, None)
  {
  }

  // ---- The whole push ----

  /** The first frame not complete when the push ends: its last bytes have not come. */
  lemma StopsAt(f: Feed, m: nat, k: nat, j: nat, w: Work)
    requires f.Clean() && Within(f, m, k, j, w)
    requires j < |f.frames| ==> f.Total(m + 1) < f.Start(j + 1)
    ensures Reached(f, m, j)
  {
    hide Concat, PayloadBytes, Feed.Start, Feed.Total, Emitted, Feed.Clean, Stamped, AnchorAfter;
  }

  lemma WithinBasics(f: Feed, m: nat, k: nat, j: nat, w: Work)
    requires f.Clean() && Within(f, m, k, j, w)
    ensures m < |f.payloads| && k <= j <= |f.frames| && k <= |f.frames|
    ensures f.Start(k) <= f.Start(j) <= f.Total(m + 1) <= |Concat(f.frames)|
    ensures w.pos == f.Start(j) - f.Start(k)
    ensures |w.out| == j - k && (j > 0 ==> Commenced(f, j - 1)) && Emitted(f, j)[k..] == w.out
    ensures j < StampedCount(f, m, k) ==> j == k && f.Start(k) < f.Total(m)
  {
    hide Concat, PayloadBytes, Feed.Start, Feed.Total, Emitted, Feed.Clean, Stamped, AnchorAfter;
  }

  lemma CarryStep(f: Feed, m: nat, k: nat, j: nat, w: Work, buf: seq<Byte>, samples: nat, rate: nat)
    requires f.Clean() && Within(f, m, k, j, w) && Reached(f, m, j)
    requires buf == Concat(f.frames)[f.Start(k)..f.Total(m + 1)]
    requires j < |f.frames| && f.Start(j) < f.Total(m + 1)
    requires (samples, rate) == if f.Total(m + 1) - f.Start(j) >= f.syn.HeaderLen() then (f.Samples(j), f.Rate(j))
                                else (GuessedSamples(w.anchor), GuessedRate(w.anchor))
    ensures w.pos <= |buf|
    ensures f.Start(k) <= f.Total(m) && (j > 0 ==> Commenced(f, j - 1))
    ensures Between(f, m + 1, j, CarryOver(buf, f.Total(m) - f.Start(k), w, samples, rate), Emitted(f, j))
  {
    hide *;
    WithinBasics(f, m, k, j, w);
    CarriedNat(f, m, k, j, w);
    if j < StampedCount(f, m, k) {
      CarryOld(f, m, k, w, buf, samples, rate);
    } else {
      CarryFresh(f, m, k, j, w, buf);
    }
  }

  lemma CarriedNat(f: Feed, m: nat, k: nat, j: nat, w: Work)
    requires f.Clean() && Within(f, m, k, j, w)
    ensures m < |f.payloads| && k <= |f.frames| && f.Start(k) <= f.Total(m)
  {
    hide Concat, PayloadBytes, Feed.Start, Feed.Total, Emitted, Feed.Clean, Stamped, AnchorAfter;
  }

  lemma EmitStep(f: Feed, m: nat, k: nat, j: nat, w: Work, buf: seq<Byte>)
    requires f.Clean() && Within(f, m, k, j, w)
    requires buf == Concat(f.frames)[f.Start(k)..f.Total(m + 1)]
    requires j < |f.frames| && f.Start(j + 1) <= f.Total(m + 1)
    ensures f.CleanFrame(j) && w.pos + f.Info(j).value.frameLen <= |buf| && f.Start(k) <= f.Total(m)
    ensures Within(f, m, k, j + 1, Emit(buf, f.Total(m) - f.Start(k), w, f.Info(j).value))
  {
    hide *;
    WithinBasics(f, m, k, j, w);
    CarriedNat(f, m, k, j, w);
    if j < StampedCount(f, m, k) {
      EmitOld(f, m, k, w, buf);
    } else {
      EmitFresh(f, m, k, j, w, buf);
    }
  }

  /** Nothing left: the splitter holds no partial frame. */
  lemma EndStep(f: Feed, m: nat, k: nat, j: nat, w: Work)
    requires f.Clean() && Within(f, m, k, j, w) && Reached(f, m, j) && f.Start(j) == f.Total(m + 1)
    ensures j > 0 ==> Commenced(f, j - 1)
    ensures Between(f, m + 1, j, SplitState([], None, w.anchor, w.discarded, w.locked), Emitted(f, j))
  {
    hide Concat, PayloadBytes, Feed.Start, Feed.Total, Emitted, Feed.Clean, Stamped, AnchorAfter;
    TotalMonotone(f, m, m + 1);
    assert Concat(f.frames)[f.Start(j)..f.Total(m + 1)] == [];
  }

  lemma NextStart(f: Feed, j: nat)
    requires f.Clean() && j < |f.frames|
    ensures f.Start(j + 1) >= f.Start(j) + f.syn.HeaderLen() && f.syn.HeaderLen() > 0
    ensures f.CleanFrame(j)
    ensures f.Info(j).value.samplesPerFrame == f.Samples(j) && f.Info(j).value.sampleRate == f.Rate(j)
  {
    FrameSlice(f, j);
    CleanAt(f, j);
  }

  /** From frame `j` on, the scan of push `m` emits each frame that completes and carries over the rest. */
  lemma {:induction false} ScanFeed(f: Feed, m: nat, k: nat, j: nat, w: Work, buf: seq<Byte>) returns (e: nat)
    requires f.Clean() && Within(f, m, k, j, w)
    requires buf == Concat(f.frames)[f.Start(k)..f.Total(m + 1)]
    ensures k <= |f.frames| && m < |f.payloads| && f.Start(k) <= f.Total(m) && w.pos <= |buf|
    ensures j <= e <= |f.frames| && (e > 0 ==> Commenced(f, e - 1))
    ensures var (s, out) := Scan(f.syn, buf, f.Total(m) - f.Start(k), w);
            Between(f, m + 1, e, s, Emitted(f, e)) && out == Emitted(f, e)[k..]
    decreases |f.frames| - j
  {
    hide *;
    WithinBasics(f, m, k, j, w);
    CarriedNat(f, m, k, j, w);
    var carried := f.Total(m) - f.Start(k);
    e := j;
    TailSlice(Concat(f.frames), f.Start(k), f.Total(m + 1), f.Start(j));
    if f.Start(j) == f.Total(m + 1) {
      if j < |f.frames| {
        NextStart(f, j);
      }
      HeaderNonEmpty(f);
      StopsAt(f, m, k, j, w);
      EndStep(f, m, k, j, w);
      ScanEnd(f.syn, buf, carried, w);
    } else {
      FrameInside(f, j, f.Total(m + 1));
      NextStart(f, j);
      if f.Total(m + 1) - f.Start(j) < f.syn.HeaderLen() {
        StopsAt(f, m, k, j, w);
        CarryStep(f, m, k, j, w, buf, GuessedSamples(w.anchor), GuessedRate(w.anchor));
        ScanEnd(f.syn, buf, carried, w);
      } else {
        CleanDecide(f, j, f.Total(m + 1));
        ScanStep(f.syn, buf, carried, w);
        if f.Start(j + 1) <= f.Total(m + 1) {
          EmitStep(f, m, k, j, w, buf);
          e := ScanFeed(f, m, k, j + 1, Emit(buf, carried, w, f.Info(j).value), buf);
        } else {
          StopsAt(f, m, k, j, w);
          CarryStep(f, m, k, j, w, buf, f.Samples(j), f.Rate(j));
        }
      }
    }
  }

  lemma HeaderNonEmpty(f: Feed)
    ensures f.syn.HeaderLen() > 0
  {
  }

  /** Before anything is pushed. */
  lemma BeforeFirst(f: Feed)
    requires f.Clean()
    ensures Between(f, 0, 0, NEW_STATE, [])
  {
    if |f.frames| > 0 {
      CleanAt(f, 0);
      FrameSlice(f, 0);
    }
  }

  /** A push begins with the carried bytes in front. */
  lemma Begins(f: Feed, m: nat, k: nat, s: SplitState, out: seq<AudioFrame>)
    requires f.Clean() && m < |f.payloads| && Between(f, m, k, s, out)
    ensures Within(f, m, k, k, Begin(s, f.payloads[m].pts))
    ensures k <= |f.frames| && |s.residual| == f.Total(m) - f.Start(k)
    ensures s.residual + f.payloads[m].bytes == Concat(f.frames)[f.Start(k)..f.Total(m + 1)]
  {
    hide Concat, PayloadBytes, Feed.Start, Feed.Total, Emitted, Feed.Clean, Stamped, AnchorAfter;
    PayloadSlice(f, m);
    Joins(Concat(f.frames), f.Start(k), f.Total(m), f.Total(m + 1));
  }

  lemma Joins<T>(s: seq<T>, a: nat, b: nat, c: nat)
    requires a <= b <= c <= |s|
    ensures s[a..b] + s[b..c] == s[a..c]
  {
  }

  /** Only a first payload could be passed through whole, and that one begins with a frame. */
  lemma NotPassedThrough(f: Feed, m: nat, k: nat, s: SplitState, out: seq<AudioFrame>)
    requires f.Clean() && m < |f.payloads| && Between(f, m, k, s, out)
    ensures s.locked || s.residual != [] || f.syn.Parse(f.payloads[m].bytes).Some?
  {
    if m > 0 {
      PayloadSlice(f, 0);
      TotalMonotone(f, 1, m);
      HeaderIsLong(f.syn, f.payloads[0].bytes);
    }
  }

  lemma HeaderIsLong(syn: Syntax, bytes: seq<Byte>)
    requires syn.Parse(bytes).Some?
    ensures |bytes| > 0
  {
  }

  lemma PushFeed(f: Feed, m: nat, k: nat, s: SplitState, out: seq<AudioFrame>) returns (e: nat)
    requires f.Clean() && m < |f.payloads| && Between(f, m, k, s, out)
    ensures var (s', o) := PushState(f.syn, s, f.payloads[m].bytes, f.payloads[m].pts);
            Between(f, m + 1, e, s', out + o)
  {
    hide Concat, PayloadBytes, Feed.Start, Feed.Total, Emitted, Feed.Clean;
    hide Stamped, AnchorAfter, Scan, Syntax.Parse, Within;
    Begins(f, m, k, s, out);
    NotPassedThrough(f, m, k, s, out);
    e := ScanFeed(f, m, k, k, Begin(s, f.payloads[m].pts), s.residual + f.payloads[m].bytes);
    EmittedPrefix(f, k, e);
  }

  lemma {:induction false} EmittedPrefix(f: Feed, k: nat, e: nat)
    requires f.Clean() && k <= e <= |f.frames| && (e > 0 ==> Commenced(f, e - 1))
    ensures k > 0 ==> Commenced(f, k - 1)
    ensures Emitted(f, e)[..k] == Emitted(f, k)
    ensures Emitted(f, k) + Emitted(f, e)[k..] == Emitted(f, e)
    decreases e
  {
    hide FrameOut, Feed.Clean, Commenced;
    if k < e && e > 1 {
      CommencedBefore(f, e - 2, e - 1);
      EmittedPrefix(f, k, e - 1);
    }
    assert Emitted(f, e) == Emitted(f, e)[..k] + Emitted(f, e)[k..];
  }

  /** Pushing payloads in turn, with all frames emitted on the way. */
  function PushAll(syn: Syntax, s: SplitState, payloads: seq<Payload>): (SplitState, seq<AudioFrame>) {
    if payloads == [] then (s, [])
    else
      var (s1, out) := PushAll(syn, s, payloads[..|payloads| - 1]);
      var last := payloads[|payloads| - 1];
      var (s2, o) := PushState(syn, s1, last.bytes, last.pts);
      (s2, out + o)
  }

  lemma {:induction false} RunFeed(f: Feed, m: nat) returns (e: nat)
    requires f.Clean() && m <= |f.payloads|
    ensures var (s, out) := PushAll(f.syn, NEW_STATE, f.payloads[..m]);
            Between(f, m, e, s, out)
  {
    hide Between, PushState, Feed.Clean;
    if m == 0 {
      e := 0;
      BeforeFirst(f);
    } else {
      assert f.payloads[..m][..m - 1] == f.payloads[..m - 1];
      e := RunFeed(f, m - 1);
      var (s, out) := PushAll(f.syn, NEW_STATE, f.payloads[..m - 1]);
      e := PushFeed(f, m - 1, e, s, out);
    }
  }

  /**
   * However a run of whole frames is cut into payloads, the splitter emits exactly the frames the
   * payloads complete, in order, each with its own stamp; drops no byte; and holds the unfinished rest.
   */
  lemma FragmentationIndependence(f: Feed) returns (e: nat)
    requires f.Clean()
    ensures e <= |f.frames| && (e > 0 ==> Commenced(f, e - 1))
    ensures f.Completes(e, |PayloadBytes(f.payloads)|)
    ensures var (s, out) := PushAll(f.syn, NEW_STATE, f.payloads);
            && |out| == e
            && (forall j | 0 <= j < e :: out[j].data == f.frames[j])
            && (forall j | 0 <= j < e ::
                  Commenced(f, j) && out[j].pts == Stamped(f, j).0 && f.Info(j) == Some(out[j].info))
            && s.discarded == 0
            && Concat(f.frames[..e]) + s.residual == PayloadBytes(f.payloads)
  {
    var n := |f.payloads|;
    assert f.payloads[..n] == f.payloads;
    e := RunFeed(f, n);
    var (s, out) := PushAll(f.syn, NEW_STATE, f.payloads);
    EmittedAre(f, e);
    Unfinished(f, e, s, out);
  }

  lemma Unfinished(f: Feed, e: nat, s: SplitState, out: seq<AudioFrame>)
    requires f.Clean() && Between(f, |f.payloads|, e, s, out)
    ensures e <= |f.frames| && Concat(f.frames[..e]) + s.residual == PayloadBytes(f.payloads)
  {
    assert f.payloads[..|f.payloads|] == f.payloads;
    assert f.frames[..|f.frames|] == f.frames;
    var all := Concat(f.frames);
    ConcatPrefix(f.frames, e, |f.frames|);
    Joins(all, 0, f.Start(e), f.Total(|f.payloads|));
    assert all[0..f.Total(|f.payloads|)] == PayloadBytes(f.payloads);
    assert all[0..f.Start(e)] == Concat(f.frames[..e]);
  }

  lemma {:induction false} EmittedAre(f: Feed, k: nat)
    requires f.Clean() && k <= |f.frames| && (k > 0 ==> Commenced(f, k - 1))
    ensures forall j | 0 <= j < k :: Commenced(f, j) && f.CleanFrame(j) && Emitted(f, k)[j] == FrameOut(f, j)
  {
    hide FrameOut, Commenced, Feed.Clean, Feed.CleanFrame;
    if k > 0 {
      CleanAt(f, k - 1);
      if k > 1 {
        CommencedBefore(f, k - 2, k - 1);
      }
      EmittedAre(f, k - 1);
    }
  }
}
