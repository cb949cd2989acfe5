/** What the demuxer makes of a splitter's answers: frames, or the payload whole while nothing has been framed. */
module AudioEmit {
  import opened AudioFeed
  import opened AudioHeaders
  import opened AudioRun
  import opened AudioSplitter
  import opened AudioStamps
  import opened Bytes
  import opened Wrappers

  datatype Emission = Frames(frames: seq<AudioFrame>) | Through(bytes: seq<Byte>, pts: Option<int>)

  /** A splitter as `Unlock` leaves it. */
  function Unlocked(s: SplitState): SplitState {
    SplitState([], None, None, s.discarded, false)
  }

  /** One payload: what the splitter cut, or all of it if an unlocked splitter cut nothing and is unlocked again. */
  function EmitPayload(syn: Syntax, s: SplitState, payload: seq<Byte>, pesPts: Option<int>): (SplitState, Emission) {
    var (next, frames) := PushState(syn, s, payload, pesPts);
    if frames == [] && !s.locked then (Unlocked(next), Through(payload, pesPts)) else (next, Frames(frames))
  }

  function EmitAll(syn: Syntax, s: SplitState, payloads: seq<Payload>): (SplitState, seq<Emission>) {
    if payloads == [] then (s, [])
    else
      var (before, es) := EmitAll(syn, s, payloads[..|payloads| - 1]);
      var last := payloads[|payloads| - 1];
      var (after, e) := EmitPayload(syn, before, last.bytes, last.pts);
      (after, es + [e])
  }

  predicate AllFramed(es: seq<Emission>) {
    forall e | e in es :: e.Frames?
  }

  function Flat(es: seq<Emission>): seq<AudioFrame> {
    if es == [] then []
    else Flat(es[..|es| - 1]) + (if es[|es| - 1].Frames? then es[|es| - 1].frames else [])
  }

  lemma EmitStep(syn: Syntax, s: SplitState, payloads: seq<Payload>, m: nat)
    requires m < |payloads|
    ensures var (before, es) := EmitAll(syn, s, payloads[..m]);
            var (after, e) := EmitPayload(syn, before, payloads[m].bytes, payloads[m].pts);
            && EmitAll(syn, s, payloads[..m + 1]) == (after, es + [e])
            && Flat(es + [e]) == Flat(es) + (if e.Frames? then e.frames else [])
            && (AllFramed(es + [e]) <==> AllFramed(es) && e.Frames?)
  {
    hide EmitPayload;
    assert payloads[..m + 1][..m] == payloads[..m];
    var es := EmitAll(syn, s, payloads[..m]).1;
    var e := EmitPayload(syn, EmitAll(syn, s, payloads[..m]).0, payloads[m].bytes, payloads[m].pts).1;
    assert (es + [e])[..|es|] == es;
  }

  lemma PushStep(syn: Syntax, s: SplitState, payloads: seq<Payload>, m: nat)
    requires m < |payloads|
    ensures var (before, out) := PushAll(syn, s, payloads[..m]);
            var (after, o) := PushState(syn, before, payloads[m].bytes, payloads[m].pts);
            PushAll(syn, s, payloads[..m + 1]) == (after, out + o)
  {
    hide PushState;
    assert payloads[..m + 1][..m] == payloads[..m];
  }

  /** The first payload holds the first frame whole. */
  predicate FirstCompletes(f: Feed) {
    f.frames != [] && f.payloads != [] && f.Start(1) <= f.Total(1)
  }

  lemma FramesThere(f: Feed)
    requires f.Clean()
    ensures f.frames != [] && f.payloads != []
  {
    PayloadSlice(f, 0);
    HeaderIsLong(f.syn, f.payloads[0].bytes);
    assert f.payloads[..0] == [];
  }

  /** Once the first payload is in, frames are out exactly if it completed one. */
  lemma OutAfterFirst(f: Feed, m: nat, k: nat, s: SplitState, out: seq<AudioFrame>)
    requires f.Clean() && 1 <= m && Between(f, m, k, s, out)
    ensures FirstCompletes(f) ==> k > 0 && s.locked
    ensures m == 1 && !FirstCompletes(f) ==> k == 0 && out == [] && !s.locked && s.discarded == 0
  {
    hide Concat, PayloadBytes, Feed.Total, Stamped, AnchorAfter, Feed.Clean;
    FramesThere(f);
    TotalMonotone(f, 1, m);
    if k > 0 {
      StartMonotone(f, 1, k);
    }
    if m == 1 && !FirstCompletes(f) {
      assert out == Emitted(f, 0);
    }
  }

  /** When the first payload completes a frame the demuxer's packets are the splitter's frames. */
  lemma {:induction false} EmitsPushed(f: Feed, m: nat)
    requires f.Clean() && m <= |f.payloads| && FirstCompletes(f)
    ensures var (s, es) := EmitAll(f.syn, NEW_STATE, f.payloads[..m]);
            AllFramed(es) && (s, Flat(es)) == PushAll(f.syn, NEW_STATE, f.payloads[..m])
  {
    hide PushState, AllFramed, Flat, Feed.Clean, Between, FirstCompletes;
    if m == 0 {
      NothingEmitted(f.syn);
      assert f.payloads[..0] == [];
    } else {
      EmitsPushed(f, m - 1);
      EmitStep(f.syn, NEW_STATE, f.payloads, m - 1);
      PushStep(f.syn, NEW_STATE, f.payloads, m - 1);
      FramedHere(f, m - 1);
    }
  }

  lemma NothingEmitted(syn: Syntax)
    ensures EmitAll(syn, NEW_STATE, []) == (NEW_STATE, []) && PushAll(syn, NEW_STATE, []) == (NEW_STATE, [])
    ensures AllFramed([]) && Flat([]) == []
  {
  }

  /** Payload `m` is not handed through. */
  lemma FramedHere(f: Feed, m: nat)
    requires f.Clean() && m < |f.payloads| && FirstCompletes(f)
    ensures var s := PushAll(f.syn, NEW_STATE, f.payloads[..m]).0;
            var p := f.payloads[m];
            EmitPayload(f.syn, s, p.bytes, p.pts) ==
            (PushState(f.syn, s, p.bytes, p.pts).0, Frames(PushState(f.syn, s, p.bytes, p.pts).1))
  {
    hide PushState, Feed.Clean, Between, FirstCompletes, Emitted, PushAll;
    var k := RunFeed(f, m);
    var (s, out) := PushAll(f.syn, NEW_STATE, f.payloads[..m]);
    if m > 0 {
      OutAfterFirst(f, m, k, s, out);
    } else {
      FirstAnswer(f);
      NothingEmitted(f.syn);
      assert f.payloads[..0] == [];
    }
  }

  /** The answer to the first payload is empty exactly if it completes no frame. */
  lemma FirstAnswer(f: Feed)
    requires f.Clean()
    ensures f.payloads != []
    ensures var (s, out) := PushState(f.syn, NEW_STATE, f.payloads[0].bytes, f.payloads[0].pts);
            && s.discarded == 0 && (out == [] <==> !FirstCompletes(f))
  {
    hide PushState, Feed.Clean, Between, FirstCompletes, Emitted;
    FramesThere(f);
    BeforeFirst(f);
    var e := PushFeed(f, 0, 0, NEW_STATE, []);
    var (s, out) := PushState(f.syn, NEW_STATE, f.payloads[0].bytes, f.payloads[0].pts);
    assert [] + out == out;
    OutAfterFirst(f, 1, e, s, out);
    FramesOut(f, 1, e, s, out);
  }

  lemma FramesOut(f: Feed, m: nat, k: nat, s: SplitState, out: seq<AudioFrame>)
    requires f.Clean() && Between(f, m, k, s, out)
    ensures |out| == k && s.discarded == 0
  {
    hide Emitted, Stamped, Feed.Clean;
  }

  /**
   * Splitting carries over to the demuxer exactly when the first payload completes a frame. Then its packets are
   * the splitter's frames; otherwise the first payload goes through whole and the splitter forgets its start.
   */
  lemma FramedExactly(f: Feed)
    requires f.Clean()
    ensures var (s, es) := EmitAll(f.syn, NEW_STATE, f.payloads);
            && (AllFramed(es) <==> FirstCompletes(f))
            && (FirstCompletes(f) ==> (s, Flat(es)) == PushAll(f.syn, NEW_STATE, f.payloads))
            && (!FirstCompletes(f) ==>
                  && f.payloads != [] && es != [] && es[0] == Through(f.payloads[0].bytes, f.payloads[0].pts)
                  && EmitAll(f.syn, NEW_STATE, f.payloads[..1]).0 == NEW_STATE)
  {
    hide PushState, Feed.Clean, FirstCompletes, AllFramed, Flat, PushAll, EmitAll;
    FramesThere(f);
    assert f.payloads[..|f.payloads|] == f.payloads;
    if FirstCompletes(f) {
      EmitsPushed(f, |f.payloads|);
    } else {
      FirstThrough(f);
      FirstStays(f.syn, f.payloads, 1, |f.payloads|);
      WholeIsNotFramed(EmitAll(f.syn, NEW_STATE, f.payloads).1);
    }
  }

  lemma FirstThrough(f: Feed)
    requires f.Clean() && !FirstCompletes(f)
    ensures f.payloads != []
    ensures EmitAll(f.syn, NEW_STATE, f.payloads[..1]) ==
            (NEW_STATE, [Through(f.payloads[0].bytes, f.payloads[0].pts)])
  {
    hide PushState, Feed.Clean, FirstCompletes;
    FirstAnswer(f);
    EmitStep(f.syn, NEW_STATE, f.payloads, 0);
    NothingEmitted(f.syn);
    assert f.payloads[..0] == [];
  }

  lemma {:induction false} FirstStays(syn: Syntax, payloads: seq<Payload>, m: nat, n: nat)
    requires m <= n <= |payloads|
    ensures EmitAll(syn, NEW_STATE, payloads[..m]).1 <= EmitAll(syn, NEW_STATE, payloads[..n]).1
  {
    hide EmitAll, EmitPayload;
    if m < n {
      FirstStays(syn, payloads, m, n - 1);
      EmitStep(syn, NEW_STATE, payloads, n - 1);
    }
  }

  lemma WholeIsNotFramed(es: seq<Emission>)
    requires es != [] && es[0].Through?
    ensures !AllFramed(es)
  {
    assert es[0] in es;
  }

  /** A first payload that ends inside its first frame: seven bytes go through whole, and no frame is cut for them. */
  lemma HandedThrough(pts: int)
    ensures var f := StallFeed(pts);
            && f.Clean() && !FirstCompletes(f)
            && var es := EmitAll(f.syn, NEW_STATE, f.payloads).1;
               es != [] && es[0] == Through(AC3_FRAME[..7], Some(pts)) && !AllFramed(es)
  {
    hide EmitAll, Feed.Clean, Feed.Start, Feed.Total, AC3_FRAME, Stamped, Due;
    StampsStall(pts);
    StallSizes(pts);
    FramedExactly(StallFeed(pts));
  }
}
