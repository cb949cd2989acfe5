/** What the splitter promises: byte conservation on any input, exact framing and stamping on a clean stream. */
module AudioLaws {
  import opened AudioHeaders
  import opened AudioSplitter
  import opened Bytes
  import opened Wrappers

  // ---- Conservation, on arbitrary input ----

  function TotalLen(frames: seq<AudioFrame>): nat {
    if frames == [] then 0 else |frames[0].data| + TotalLen(frames[1..])
  }

  /** The frames are disjoint slices of `buf` from `from` on, in order, each parsing to its own length. */
  ghost predicate Sliced(syn: Syntax, buf: seq<Byte>, from: nat, frames: seq<AudioFrame>)
    decreases |frames|
  {
    frames != [] ==>
      exists p: nat :: from <= p <= |buf| && SliceAt(syn, buf, p, frames[0]) &&
                       Sliced(syn, buf, p + |frames[0].data|, frames[1..])
  }

  ghost predicate SliceAt(syn: Syntax, buf: seq<Byte>, p: nat, f: AudioFrame) {
    && p + |f.data| <= |buf| && buf[p..p + |f.data|] == f.data
    && syn.Parse(f.data) == Some(f.info) && f.info.frameLen == |f.data|
  }

  lemma {:induction false} SlicedEarlier(syn: Syntax, buf: seq<Byte>, from: nat, earlier: nat, frames: seq<AudioFrame>)
    requires earlier <= from && Sliced(syn, buf, from, frames)
    ensures Sliced(syn, buf, earlier, frames)
  {
    if frames != [] {
      var p: nat :| from <= p <= |buf| && SliceAt(syn, buf, p, frames[0]) &&
                    Sliced(syn, buf, p + |frames[0].data|, frames[1..]);
    }
  }

  lemma WholeIsSlice(syn: Syntax, buf: seq<Byte>, pos: nat, pts: Option<int>)
    requires pos <= |buf| && Decide(syn, buf[pos..]).Whole?
    ensures var info := Decide(syn, buf[pos..]).info;
            && pos + info.frameLen <= |buf|
            && SliceAt(syn, buf, pos, AudioFrame(buf[pos..pos + info.frameLen], pts, info))
  {
    var info := Decide(syn, buf[pos..]).info;
    var data := buf[pos..pos + info.frameLen];
    assert data[..syn.HeaderLen()] == buf[pos..][..syn.HeaderLen()];
    ParseIsLocal(syn, data, buf[pos..]);
  }

  /** What the scan from `w` did with the bytes it had left. */
  ghost predicate Conserved(syn: Syntax, buf: seq<Byte>, w: Work, s: SplitState, out: seq<AudioFrame>)
    requires w.pos <= |buf|
  {
    && w.out <= out
    && Sliced(syn, buf, w.pos, out[|w.out|..])
    && |s.residual| <= |buf| - w.pos && s.residual == buf[|buf| - |s.residual|..]
    && w.discarded <= s.discarded
    && TotalLen(out[|w.out|..]) + (s.discarded - w.discarded) + |s.residual| == |buf| - w.pos
  }

  lemma {:induction false} ScanConserves(syn: Syntax, buf: seq<Byte>, carried: nat, w: Work)
    requires w.pos <= |buf|
    ensures var (s, out) := Scan(syn, buf, carried, w);
            Conserved(syn, buf, w, s, out)
    decreases |buf| - w.pos
  {
    hide Scan, Decide, TakeStamp, Interpolate, Sliced, SliceAt, Conserved, Emit;
    if |buf| - w.pos < syn.HeaderLen() {
      ScanEnd(syn, buf, carried, w);
      NothingEmitted(syn, buf, w, Scan(syn, buf, carried, w).0);
    } else {
      ScanStep(syn, buf, carried, w);
      var d := Decide(syn, buf[w.pos..]);
      var (s, out) := Scan(syn, buf, carried, w);
      if d.Discard? {
        ScanConserves(syn, buf, carried, Skip(w, d.keep));
        ConservedSkip(syn, buf, w, d.keep, s, out);
      } else if d.Partial? {
        NothingEmitted(syn, buf, w, s);
      } else {
        WholeFits(syn, buf, w.pos);
        EmitFacts(buf, carried, w, d.info);
        ScanConserves(syn, buf, carried, Emit(buf, carried, w, d.info));
        ConservedEmit(syn, buf, carried, w, d.info, s, out);
      }
    }
  }

  lemma WholeFits(syn: Syntax, buf: seq<Byte>, pos: nat)
    requires pos <= |buf| && Decide(syn, buf[pos..]).Whole?
    ensures 0 < Decide(syn, buf[pos..]).info.frameLen <= |buf| - pos
  {
  }

  lemma EmitFacts(buf: seq<Byte>, carried: nat, w: Work, info: FrameInfo)
    requires w.pos + info.frameLen <= |buf|
    ensures var w' := Emit(buf, carried, w, info);
            && w'.pos == w.pos + info.frameLen && w'.discarded == w.discarded && w'.locked
            && |w'.out| == |w.out| + 1 && w'.out[..|w.out|] == w.out
            && w'.out[|w.out|] == AudioFrame(buf[w.pos..w.pos + info.frameLen], w'.out[|w.out|].pts, info)
  {
  }

  lemma NothingEmitted(syn: Syntax, buf: seq<Byte>, w: Work, s: SplitState)
    requires w.pos <= |buf| && s.residual == buf[w.pos..] && s.discarded == w.discarded
    ensures Conserved(syn, buf, w, s, w.out)
  {
    assert w.out[|w.out|..] == [];
  }

  lemma ConservedSkip(syn: Syntax, buf: seq<Byte>, w: Work, keep: bool, s: SplitState, out: seq<AudioFrame>)
    requires w.pos < |buf| && Conserved(syn, buf, Skip(w, keep), s, out)
    ensures Conserved(syn, buf, w, s, out)
  {
    SlicedEarlier(syn, buf, w.pos + 1, w.pos, out[|w.out|..]);
  }

  lemma ConservedEmit(
    syn: Syntax, buf: seq<Byte>, carried: nat, w: Work, info: FrameInfo, s: SplitState, out: seq<AudioFrame>)
    requires w.pos <= |buf| && Decide(syn, buf[w.pos..]) == Whole(info) && w.pos + info.frameLen <= |buf|
    requires Emit(buf, carried, w, info).pos <= |buf|
    requires Conserved(syn, buf, Emit(buf, carried, w, info), s, out)
    ensures Conserved(syn, buf, w, s, out)
  {
    hide Decide, Emit, Sliced, SliceAt;
    EmitFacts(buf, carried, w, info);
    var w' := Emit(buf, carried, w, info);
    var f := w'.out[|w.out|];
    WholeIsSlice(syn, buf, w.pos, f.pts);
    assert out[|w.out|..] == [f] + out[|w'.out|..];
    ConsSlice(syn, buf, w.pos, f, out[|w'.out|..]);
    assert out[..|w.out|] == w'.out[..|w.out|];
  }

  lemma ConsSlice(syn: Syntax, buf: seq<Byte>, p: nat, f: AudioFrame, more: seq<AudioFrame>)
    requires p <= |buf| && SliceAt(syn, buf, p, f) && Sliced(syn, buf, p + |f.data|, more)
    ensures Sliced(syn, buf, p, [f] + more)
    ensures TotalLen([f] + more) == |f.data| + TotalLen(more)
  {
    assert ([f] + more)[0] == f && ([f] + more)[1..] == more;
  }

  /**
    One push, on any bytes: either nothing was consumed because nothing is
    framed yet and the payload does not begin a frame, or every byte carried
    in or pushed is emitted, counted as discarded, or carried over.
   */
  lemma PushConserves(syn: Syntax, s: SplitState, payload: seq<Byte>, pesPts: Option<int>)
    ensures var (s', out) := PushState(syn, s, payload, pesPts);
            var buf := s.residual + payload;
            if !s.locked && s.residual == [] && syn.Parse(payload).None? then s' == s && out == []
            else
              && Sliced(syn, buf, 0, out)
              && |s'.residual| <= |buf| && s'.residual == buf[|buf| - |s'.residual|..]
              && s.discarded <= s'.discarded
              && |s.residual| + |payload| == TotalLen(out) + (s'.discarded - s.discarded) + |s'.residual|
  {
    hide Scan, Syntax.Parse, Sliced;
    var w := Begin(s, pesPts);
    ScanConserves(syn, s.residual + payload, |s.residual|, w);
    var out := Scan(syn, s.residual + payload, |s.residual|, w).1;
    assert out[0..] == out;
  }
}
