/** The per-stream splitter that cuts PES payloads into audio access units. */
module AudioSplitter {
  import opened AudioHeaders
  import opened Bytes
  import opened Wrappers

  datatype AudioFrame = AudioFrame(data: seq<Byte>, pts: Option<int>, info: FrameInfo)

  // ---- Timestamps ----

  /** The last PES PTS taken, the frames stamped from it, and the frame geometry in use. */
  datatype Anchor = Anchor(pts: int, framesSince: nat, samplesPerFrame: nat, sampleRate: nat)

  /** 90 kHz offset of the k-th frame behind an anchor, rounded down. */
  function FrameOffset(k: nat, samplesPerFrame: nat, sampleRate: nat): nat {
    if sampleRate == 0 then 0 else k * samplesPerFrame * 90_000 / sampleRate
  }

  function Stamp(a: Anchor): (int, Anchor) {
    (a.pts + FrameOffset(a.framesSince, a.samplesPerFrame, a.sampleRate), a.(framesSince := a.framesSince + 1))
  }

  /** A stamp from the anchor there is, updated to the geometry when that is known. */
  function Interpolate(anchor: Option<Anchor>, samplesPerFrame: nat, sampleRate: nat): (Option<int>, Option<Anchor>) {
    match anchor
    case None => (None, None)
    case Some(a) =>
      var a' := if sampleRate != 0 then a.(samplesPerFrame := samplesPerFrame, sampleRate := sampleRate) else a;
      var (s, after) := Stamp(a');
      (Some(s), Some(after))
  }

  /** Stamp a frame that commences in this payload: a pending PES PTS re-anchors, else interpolate. */
  function TakeStamp(anchor: Option<Anchor>, pending: Option<int>, samplesPerFrame: nat, sampleRate: nat)
    : (Option<int>, Option<Anchor>)
  {
    match pending
    case Some(p) =>
      var (s, after) := Stamp(Anchor(p, 0, samplesPerFrame, sampleRate));
      (Some(s), Some(after))
    case None => Interpolate(anchor, samplesPerFrame, sampleRate)
  }

  /** Geometry for a frame whose header has not been seen: the anchor's own. */
  function GuessedSamples(anchor: Option<Anchor>): nat {
    if anchor.Some? then anchor.value.samplesPerFrame else 0
  }

  function GuessedRate(anchor: Option<Anchor>): nat {
    if anchor.Some? then anchor.value.sampleRate else 0
  }

  // ---- Splitting, as a function of the state ----

  datatype SplitState = SplitState(
    residual: seq<Byte>, residualPts: Option<int>, anchor: Option<Anchor>, discarded: nat, locked: bool)

  const NEW_STATE := SplitState([], None, None, 0, false)

  /** The loop's variables. */
  datatype Work = Work(
    pos: nat, residualPts: Option<int>, anchor: Option<Anchor>, pending: Option<int>,
    discarded: nat, locked: bool, out: seq<AudioFrame>)

  /** Skip one byte that starts no frame; `keep` says whether the carried stamp survives. */
  function Skip(w: Work, keep: bool): Work {
    w.(pos := w.pos + 1, discarded := w.discarded + 1, residualPts := if keep then w.residualPts else None)
  }

  /** Buffer `buf[w.pos..]` for the next payload, stamped now if it commences in this one. */
  function CarryOver(buf: seq<Byte>, carried: nat, w: Work, samplesPerFrame: nat, sampleRate: nat): SplitState
    requires w.pos <= |buf|
  {
    if w.pos >= carried then
      var (pts, anchor) := TakeStamp(w.anchor, w.pending, samplesPerFrame, sampleRate);
      SplitState(buf[w.pos..], pts, anchor, w.discarded, w.locked)
    else
      SplitState(buf[w.pos..], w.residualPts, w.anchor, w.discarded, w.locked)
  }

  lemma CarryOverIgnoresOut(buf: seq<Byte>, carried: nat, w: Work, samplesPerFrame: nat, sampleRate: nat)
    requires w.pos <= |buf|
    ensures CarryOver(buf, carried, w, samplesPerFrame, sampleRate) ==
            CarryOver(buf, carried, w.(out := []), samplesPerFrame, sampleRate)
  {
  }

  /** Emit the frame of `info` at `w.pos`. */
  function Emit(buf: seq<Byte>, carried: nat, w: Work, info: FrameInfo): Work
    requires w.pos + info.frameLen <= |buf|
  {
    var end := w.pos + info.frameLen;
    var data := buf[w.pos..end];
    if w.pos < carried then
      if w.residualPts.Some? then
        w.(pos := end, residualPts := None, locked := true, out := w.out + [AudioFrame(data, w.residualPts, info)])
      else
        var (pts, anchor) := Interpolate(w.anchor, info.samplesPerFrame, info.sampleRate);
        w.(pos := end, anchor := anchor, locked := true, out := w.out + [AudioFrame(data, pts, info)])
    else
      var (pts, anchor) := TakeStamp(w.anchor, w.pending, info.samplesPerFrame, info.sampleRate);
      w.(pos := end, anchor := anchor, pending := None, locked := true, out := w.out + [AudioFrame(data, pts, info)])
  }

  /** What is done at a position with a whole header in view. */
  datatype Decision = Discard(keep: bool) | Partial(info: FrameInfo) | Whole(info: FrameInfo)

  function Decide(syn: Syntax, rest: seq<Byte>): (d: Decision)
    ensures d.Whole? ==> syn.HeaderLen() <= d.info.frameLen <= |rest|
  {
    match syn.Parse(rest)
    case None => Discard(false)
    case Some(info) =>
      if info.frameLen < syn.HeaderLen() then Discard(true)
      else if info.frameLen > |rest| then Partial(info)
      else if |rest| - info.frameLen >= syn.HeaderLen() && syn.Parse(rest[info.frameLen..]).None? then Discard(false)
      else Whole(info)
  }

  function Scan(syn: Syntax, buf: seq<Byte>, carried: nat, w: Work): (SplitState, seq<AudioFrame>)
    requires w.pos <= |buf|
    decreases |buf| - w.pos
  {
    if |buf| - w.pos < syn.HeaderLen() then
      if w.pos < |buf| then
        (CarryOver(buf, carried, w, GuessedSamples(w.anchor), GuessedRate(w.anchor)), w.out)
      else
        (SplitState([], None, w.anchor, w.discarded, w.locked), w.out)
    else
      match Decide(syn, buf[w.pos..])
      case Discard(keep) => Scan(syn, buf, carried, Skip(w, keep))
      case Partial(info) => (CarryOver(buf, carried, w, info.samplesPerFrame, info.sampleRate), w.out)
      case Whole(info) => Scan(syn, buf, carried, Emit(buf, carried, w, info))
  }

  lemma ScanStep(syn: Syntax, buf: seq<Byte>, carried: nat, w: Work)
    requires w.pos <= |buf| && |buf| - w.pos >= syn.HeaderLen()
    ensures var d := Decide(syn, buf[w.pos..]);
            && (d.Discard? ==> Scan(syn, buf, carried, w) == Scan(syn, buf, carried, Skip(w, d.keep)))
            && (d.Partial? ==> Scan(syn, buf, carried, w) ==
                               (CarryOver(buf, carried, w, d.info.samplesPerFrame, d.info.sampleRate), w.out))
            && (d.Whole? ==> Scan(syn, buf, carried, w) == Scan(syn, buf, carried, Emit(buf, carried, w, d.info)))
  {
  }

  lemma ScanEnd(syn: Syntax, buf: seq<Byte>, carried: nat, w: Work)
    requires w.pos <= |buf| && |buf| - w.pos < syn.HeaderLen()
    ensures Scan(syn, buf, carried, w) ==
            if w.pos < |buf| then
              (CarryOver(buf, carried, w, GuessedSamples(w.anchor), GuessedRate(w.anchor)), w.out)
            else
              (SplitState([], None, w.anchor, w.discarded, w.locked), w.out)
  {
  }

  function Begin(s: SplitState, pesPts: Option<int>): Work {
    Work(0, s.residualPts, s.anchor, pesPts, s.discarded, s.locked, [])
  }

  function PushState(syn: Syntax, s: SplitState, payload: seq<Byte>, pesPts: Option<int>)
    : (SplitState, seq<AudioFrame>)
  {
    if !s.locked && s.residual == [] && syn.Parse(payload).None? then (s, [])
    else Scan(syn, s.residual + payload, |s.residual|, Begin(s, pesPts))
  }

  class AudioFrameSplitter {
    const syntax: Syntax
    var residual: seq<Byte>
    var residualPts: Option<int>
    var anchor: Option<Anchor>
    var discarded: nat
    var locked: bool

    ghost function State(): SplitState
      reads this
    {
      SplitState(residual, residualPts, anchor, discarded, locked)
    }

    constructor (syn: Syntax)
      ensures syntax == syn && State() == NEW_STATE
    {
      syntax, residual, residualPts, anchor, discarded, locked := syn, [], None, None, 0, false;
    }

    method Reset()
      modifies this
      ensures State() == SplitState([], None, None, old(discarded), old(locked))
    {
      residual, residualPts, anchor := [], None, None;
    }

    method Unlock()
      modifies this
      ensures State() == SplitState([], None, None, old(discarded), false)
    {
      Reset();
      locked := false;
    }

    method StampAnchor(samplesPerFrame: nat, sampleRate: nat) returns (pts: Option<int>)
      modifies this`anchor
      ensures (pts, anchor) == Interpolate(old(anchor), samplesPerFrame, sampleRate)
    {
      if anchor.None? {
        return None;
      }
      var a := anchor.value;
      if sampleRate != 0 {
        a := a.(samplesPerFrame := samplesPerFrame, sampleRate := sampleRate);
      }
      var (s, after) := Stamp(a);
      anchor := Some(after);
      pts := Some(s);
    }

    method TakeOrInterpolate(pending: Option<int>, samplesPerFrame: nat, sampleRate: nat)
      returns (pts: Option<int>)
      modifies this`anchor
      ensures (pts, anchor) == TakeStamp(old(anchor), pending, samplesPerFrame, sampleRate)
    {
      if pending.Some? {
        var (s, after) := Stamp(Anchor(pending.value, 0, samplesPerFrame, sampleRate));
        anchor := Some(after);
        return Some(s);
      }
      pts := StampAnchor(samplesPerFrame, sampleRate);
    }

    /** Keep `buf[pos..]` for the next payload. */
    method BufferTail(
      buf: seq<Byte>, pos: nat, carried: nat, pending: Option<int>, samplesPerFrame: nat, sampleRate: nat)
      requires pos <= |buf|
      modifies this
      ensures State() == CarryOver(buf, carried,
                                   Work(pos, old(residualPts), old(anchor), pending, old(discarded), old(locked), []),
                                   samplesPerFrame, sampleRate)
    {
      var pts := residualPts;
      if pos >= carried {
        pts := TakeOrInterpolate(pending, samplesPerFrame, sampleRate);
      }
      residual := buf[pos..];
      residualPts := pts;
    }

    /** The stamp of a complete frame: the one recorded when it was buffered, or a new one. */
    method FrameStamp(pos: nat, carried: nat, pending: Option<int>, info: FrameInfo) returns (pts: Option<int>)
      modifies this`residualPts, this`anchor
      ensures if pos < carried then
                residualPts == None
                && (if old(residualPts).Some? then pts == old(residualPts) && anchor == old(anchor)
                    else (pts, anchor) == Interpolate(old(anchor), info.samplesPerFrame, info.sampleRate))
              else
                residualPts == old(residualPts)
                && (pts, anchor) == TakeStamp(old(anchor), pending, info.samplesPerFrame, info.sampleRate)
    {
      if pos < carried {
        pts := residualPts;
        residualPts := None;
        if pts.None? {
          pts := StampAnchor(info.samplesPerFrame, info.sampleRate);
        }
      } else {
        pts := TakeOrInterpolate(pending, info.samplesPerFrame, info.sampleRate);
      }
    }

    method Push(payload: seq<Byte>, pesPts: Option<int>) returns (out: seq<AudioFrame>)
      modifies this
      ensures (State(), out) == PushState(syntax, old(State()), payload, pesPts)
    {
      hide Scan, CarryOver, TakeStamp, Interpolate, Syntax.Parse, GuessedSamples, GuessedRate;
      out := [];
      if !locked && residual == [] && syntax.Parse(payload).None? {
        return;
      }
      var carried := |residual|;
      var buf := residual + payload;
      residual := [];
      var newPtsPending := pesPts;
      var pos := 0;
      var hdr := syntax.HeaderLen();
      ghost var w := Begin(old(State()), pesPts);
      while |buf| - pos >= hdr
        invariant pos <= |buf| && residual == []
        invariant w == Work(pos, residualPts, anchor, newPtsPending, discarded, locked, out)
        invariant Scan(syntax, buf, carried, w) == PushState(syntax, old(State()), payload, pesPts)
        decreases |buf| - pos
      {
        ScanStep(syntax, buf, carried, w);
        var rest := buf[pos..];
        var parsed := syntax.Parse(rest);
        if parsed.None? {
          pos, discarded, residualPts := pos + 1, discarded + 1, None;
          w := Skip(w, false);
          continue;
        }
        var info := parsed.value;
        if info.frameLen < hdr {
          pos, discarded := pos + 1, discarded + 1;
          w := Skip(w, true);
          continue;
        }
        var end := pos + info.frameLen;
        if end > |buf| {
          CarryOverIgnoresOut(buf, carried, w, info.samplesPerFrame, info.sampleRate);
          BufferTail(buf, pos, carried, newPtsPending, info.samplesPerFrame, info.sampleRate);
          return;
        }
        assert rest[info.frameLen..] == buf[end..];
        if |buf| - end >= hdr && syntax.Parse(buf[end..]).None? {
          pos, discarded, residualPts := pos + 1, discarded + 1, None;
          w := Skip(w, false);
          continue;
        }
        var pts := FrameStamp(pos, carried, newPtsPending, info);
        if pos >= carried {
          newPtsPending := None;
        }
        locked := true;
        out := out + [AudioFrame(buf[pos..end], pts, info)];
        pos := end;
        w := Emit(buf, carried, w, info);
      }
      ScanEnd(syntax, buf, carried, w);
      if pos < |buf| {
        CarryOverIgnoresOut(buf, carried, w, GuessedSamples(anchor), GuessedRate(anchor));
        BufferTail(buf, pos, carried, newPtsPending, GuessedSamples(anchor), GuessedRate(anchor));
      } else {
        residualPts := None;
      }
    }

    method Flush() returns (f: Option<AudioFrame>)
      modifies this
      ensures old(residual) == [] || syntax.Parse(old(residual)).None? ==> f == None && State() == old(State())
      ensures old(residual) != [] && syntax.Parse(old(residual)).Some? ==>
                && f == Some(AudioFrame(old(residual), old(residualPts), syntax.Parse(old(residual)).value))
                && State() == old(State()).(residual := [], residualPts := None)
    {
      if residual == [] {
        return None;
      }
      var info := syntax.Parse(residual);
      if info.None? {
        return None;
      }
      var data, pts := residual, residualPts;
      residual, residualPts := [], None;
      f := Some(AudioFrame(data, pts, info.value));
    }
  }
}
