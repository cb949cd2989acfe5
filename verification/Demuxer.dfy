/** The demuxer's seek engine: an input cursor, the PCR bracket, the cached index and the timestamp trackers. */
module Demuxer {
  import opened AccessPoints
  import opened AccessPointScan
  import opened AudioEmit
  import opened AudioHeaders
  import opened AudioSplitter
  import opened Bytes
  import opened Locator
  import PcrClock
  import opened SeekChoice
  import opened SeekLanding
  import opened SeekRefinement
  import opened SeekWindow
  import opened StreamGrid
  import opened Timeline
  import opened Timestamps
  import opened Wrappers

  const NULL_PID: nat := 0x1FFF
  const TAIL_WINDOW: nat := 0x10_0000

  /** A reassembled PES. */
  datatype PesPacket = PesPacket(pts: Option<Ring>, dts: Option<Ring>, randomAccess: bool, payload: seq<Byte>)

  datatype OutPacket = OutPacket(
    streamIndex: nat, pts: Option<int>, dts: Option<int>, duration: Option<nat>, keyframe: bool, data: seq<Byte>)

  /** One audio access unit as a packet. */
  function FramePacket(streamIndex: nat, f: AudioFrame, randomAccess: bool): OutPacket {
    var d := f.info.Duration90k();
    OutPacket(streamIndex, f.pts, f.pts, if d > 0 then Some(d) else None, randomAccess, f.data)
  }

  /** The packets of one audio PES: its frames, the first of them flagged, or the PES handed through. */
  function AudioPackets(streamIndex: nat, e: Emission, dts: Option<int>, randomAccess: bool): seq<OutPacket> {
    match e
    case Through(bytes, pts) => [OutPacket(streamIndex, pts, dts, None, randomAccess, bytes)]
    case Frames(frames) =>
      seq(|frames|, k requires 0 <= k < |frames| => FramePacket(streamIndex, frames[k], k == 0 && randomAccess))
  }

  /** The splitter of one PID. */
  datatype Slot = Slot(syntax: Syntax, state: SplitState)

  /** A splitter after a seek: no partial frame, no anchor. */
  function ForgetPartial(splitters: map<nat, Slot>): map<nat, Slot> {
    map pid | pid in splitters ::
      var s := splitters[pid].state;
      Slot(splitters[pid].syntax, SplitState([], None, None, s.discarded, s.locked))
  }

  /** One PID's PES under assembly: its bytes, whether one has begun, and the indicators for it and for the next. */
  datatype Reassembler = Reassembler(buf: seq<Byte>, started: bool, currentRai: bool, pendingRai: bool)

  const NEW_REASSEMBLER: Reassembler := Reassembler([], false, false, false)

  function NewReassemblers(pids: set<nat>): map<nat, Reassembler> {
    map pid | pid in pids :: NEW_REASSEMBLER
  }

  function NewSplitters(syntaxes: map<nat, Syntax>): map<nat, Slot> {
    map pid | pid in syntaxes :: Slot(syntaxes[pid], NEW_STATE)
  }

  function NothingAssembled(reassemblers: map<nat, Reassembler>): map<nat, Reassembler> {
    map pid | pid in reassemblers :: NEW_REASSEMBLER
  }

  function Max(a: nat, b: nat): nat {
    if a < b then b else a
  }

  class Demuxer {
    const stream: Stream
    var pos: nat
    var bytesRead: nat
    var putback: seq<Byte>
    var pending: seq<OutPacket>
    var eofReached: bool
    var firstPcr: Option<(Ring, nat)>
    var lastPcr: Option<(Ring, nat)>
    var rapIndex: Option<seq<AccessPoint>>
    var pcrTracker: PcrClock.PcrState
    var reassemblers: map<nat, Reassembler>
    var ptsTrackers: Trackers
    var dtsTrackers: Trackers
    var splitters: map<nat, Slot>
    var startTimes: map<nat, nat>

    /** The recorded PCR is the one in its packet. */
    ghost predicate Recorded(pcr: (Ring, nat))
      requires stream.packetSize > 0
    {
      var i := pcr.1 / stream.packetSize;
      pcr.1 == stream.At(i) && i < |stream.events| && stream.PcrAt(i) == Some(pcr.0)
    }

    ghost predicate Valid()
      reads this`firstPcr, this`lastPcr, this`rapIndex
    {
      && stream.Valid()
      && (lastPcr.Some? ==> firstPcr.Some?)
      && (firstPcr.Some? ==> Recorded(firstPcr.value))
      && (lastPcr.Some? ==> Recorded(lastPcr.value) && Bracketed(stream, Head(), Tail()))
      && (rapIndex.Some? ==> rapIndex.value == Index(stream))
    }

    ghost function Head(): nat
      requires stream.packetSize > 0 && firstPcr.Some?
      reads this`firstPcr
    {
      firstPcr.value.1 / stream.packetSize
    }

    ghost function Tail(): nat
      requires stream.packetSize > 0 && lastPcr.Some?
      reads this`lastPcr
    {
      lastPcr.value.1 / stream.packetSize
    }

    /**
     * As opened: blank trackers and reassemblers for every elementary PID, splitters for the audio ones, the
     * bracket probed, the put-back of the header scan kept, and the cursor at its byte count.
     */
    constructor (s: Stream, start: nat, held: seq<Byte>, audio: map<nat, Syntax>)
      requires s.Valid()
      ensures Valid() && stream == s && pos == start && bytesRead == start && putback == held
      ensures pending == [] && !eofReached && rapIndex.None? && startTimes == map[]
      ensures ptsTrackers == dtsTrackers == BlankTrackers(s.streamOf.Keys)
      ensures reassemblers == NewReassemblers(s.streamOf.Keys) && splitters == NewSplitters(audio)
      ensures Anchored()
    {
      hide Anchored, Index, Bracketed, Recorded, BlankTrackers, NewReassemblers, NewSplitters;
      stream := s;
      pos, bytesRead, putback, pending, eofReached := start, start, held, [], false;
      firstPcr, lastPcr, rapIndex := None, None, None;
      pcrTracker := PcrClock.PcrState(PcrClock.DEFAULT_MAX_JITTER, None, None, false);
      reassemblers, splitters := NewReassemblers(s.streamOf.Keys), NewSplitters(audio);
      ptsTrackers, dtsTrackers := BlankTrackers(s.streamOf.Keys), BlankTrackers(s.streamOf.Keys);
      startTimes := map[];
      new;
      ProbeAnchors();
      pos := bytesRead;
    }

    /** The bracket is the first and last PCR of the file, if it has two packets and a PCR PID. */
    ghost predicate Anchored()
      requires stream.packetSize > 0
      reads this`firstPcr, this`lastPcr
    {
      var n := |stream.events|;
      var head := if stream.pcrPid == NULL_PID || n < 2 then None else FirstPcr(stream, 0, n);
      && (firstPcr.Some? <==> head.Some?)
      && (head.Some? ==> Head() == head.value && LastPcr(stream, 0, n).Some?)
      && (lastPcr.Some? <==> head.Some? && LastPcr(stream, 0, n).value > head.value)
      && (lastPcr.Some? ==> Tail() == LastPcr(stream, 0, n).value)
    }

    // ---- Reading packets ----

    /** The next whole packet at the cursor, on the grid; a shorter rest is consumed in vain. */
    method ReadPacket(ghost i: nat) returns (r: Option<Event>)
      requires stream.Valid() && pos == stream.At(i)
      modifies this`pos
      ensures r == if i < |stream.events| then Some(stream.events[i]) else None
      ensures i < |stream.events| ==> pos == stream.At(i + 1)
      ensures i == |stream.events| ==> pos == stream.Length()
    {
      WholePacket(stream, i);
      PacketOf(stream, i);
      Offsets(stream, i, i);
      if pos + stream.packetSize > stream.Length() {
        pos := if pos < stream.Length() then stream.Length() else pos;
        return None;
      }
      r := Some(stream.events[pos / stream.packetSize]);
      pos := pos + stream.packetSize;
    }

    function PcrOf(e: Event): Option<Ring> {
      if e.Event? && e.pid == stream.pcrPid then e.pcr else None
    }

    /** The first PCR of the packets `[a, b)`, given as bytes. */
    method ScanPcrForward(lo: nat, hi: nat, ghost a: nat, ghost b: nat) returns (r: Option<(Ring, nat)>)
      requires stream.Valid() && lo == stream.At(a) && b <= |stream.events|
      requires stream.At(b) <= hi < stream.At(b) + stream.packetSize
      modifies this`pos
      ensures var found := FirstPcr(stream, a, b);
              r == if found.Some? then Some((stream.PcrAt(found.value).value, stream.At(found.value))) else None
    {
      pos := lo;
      var off := lo;
      ghost var i := a;
      Offsets(stream, i, b);
      while off + stream.packetSize <= hi
        invariant off == pos == stream.At(i)
        invariant FirstPcr(stream, a, b) == FirstPcr(stream, i, b)
        decreases hi - off
      {
        InRange(i, b, hi);
        var packet := ReadPacket(i);
        if packet.None? {
          return None;
        }
        var pcr := PcrOf(packet.value);
        if pcr.Some? {
          return Some((pcr.value, off));
        }
        off := off + stream.packetSize;
        i := i + 1;
      }
      InRange(i, b, hi);
      r := None;
    }

    /** A packet ends within an aligned range just if it is one of its packets. */
    lemma InRange(i: nat, b: nat, hi: nat)
      requires stream.Valid() && stream.At(b) <= hi < stream.At(b) + stream.packetSize
      ensures stream.At(i) + stream.packetSize <= hi <==> i < b
      ensures stream.At(i + 1) == stream.At(i) + stream.packetSize
    {
      Offsets(stream, i, b);
      Offsets(stream, b, i);
      Offsets(stream, i + 1, b);
      Offsets(stream, b, i + 1);
    }

    /** The last one. */
    method ScanPcrBackward(lo: nat, hi: nat, ghost a: nat, ghost b: nat) returns (found: Option<(Ring, nat)>)
      requires stream.Valid() && lo == stream.At(a) && hi == stream.At(b) && a <= b <= |stream.events|
      modifies this`pos
      ensures var last := LastPcr(stream, a, b);
              found == if last.Some? then Some((stream.PcrAt(last.value).value, stream.At(last.value))) else None
    {
      pos := lo;
      var off := lo;
      found := None;
      ghost var i := a;
      while off + stream.packetSize <= hi
        invariant a <= i <= b && off == pos == stream.At(i)
        invariant var last := LastPcr(stream, a, i);
                  found == if last.Some? then Some((stream.PcrAt(last.value).value, stream.At(last.value))) else None
        decreases hi - off
      {
        InRange(i, b, hi);
        var packet := ReadPacket(i);
        if packet.None? {
          break;
        }
        var pcr := PcrOf(packet.value);
        if pcr.Some? {
          found := Some((pcr.value, off));
        }
        off := off + stream.packetSize;
        i := i + 1;
      }
      InRange(i, b, hi);
    }

    /** The last PCR of the file, sought in doubling windows from the end. */
    method FindTail(aligned: nat, ghost head: nat) returns (found: Option<(Ring, nat)>)
      requires stream.Valid() && aligned == stream.At(|stream.events|)
      requires head < |stream.events| && stream.PcrAt(head).Some?
      modifies this`pos
      ensures var last := LastPcr(stream, 0, |stream.events|);
              last.Some? && found == Some((stream.PcrAt(last.value).value, stream.At(last.value)))
    {
      hide Stream.PcrAt, Stream.At;
      ghost var n := |stream.events|;
      var window := TAIL_WINDOW;
      found := None;
      while true
        invariant 0 < window
        decreases if aligned > window then aligned - window else 0
      {
        var start := if aligned > window then aligned - window else 0;
        SnapDown(start);
        ghost var a := start / stream.packetSize;
        start := start / stream.packetSize * stream.packetSize;
        found := ScanPcrBackward(start, aligned, a, n);
        if found.Some? {
          LastPcrWidens(stream, a, n);
          return;
        }
        // A window over the whole file would have held the head PCR: the source's way out here is never taken.
        assert a != 0;
        SnapZero(a);
        assert start != 0;
        window := window * 2;
      }
    }

    lemma SnapZero(a: nat)
      requires stream.Valid()
      ensures stream.At(a) == 0 <==> a == 0
    {
    }

    /** Find the head and tail PCRs. */
    method ProbeAnchors()
      requires Valid() && firstPcr.None? && lastPcr.None?
      modifies this`pos, this`firstPcr, this`lastPcr
      ensures Valid()
      ensures Anchored()
    {
      hide Stream.PcrAt, Stream.At, FirstPcr, LastPcr, Index;
      var len := stream.Length();
      ghost var n := |stream.events|;
      AlignedLength(stream);
      LastIsThere(n);
      if stream.pcrPid == NULL_PID || len < 2 * stream.packetSize {
        return;
      }
      var first := FirstOfFile(len);
      if first.None? {
        return;
      }
      ghost var head := FirstPcr(stream, 0, n).value;
      var aligned := len / stream.packetSize * stream.packetSize;
      var last := FindTail(aligned, head);
      ghost var tail := LastPcr(stream, 0, n).value;
      PacketOf(stream, head);
      PacketOf(stream, tail);
      Offsets(stream, head, tail);
      firstPcr := first;
      if last.value.1 <= first.value.1 {
        return;
      }
      lastPcr := last;
      BracketFound(head, tail);
    }

    lemma LastIsThere(n: nat)
      requires n == |stream.events|
      ensures FirstPcr(stream, 0, n).Some? <==> LastPcr(stream, 0, n).Some?
    {
      var a, b := FirstPcr(stream, 0, n), LastPcr(stream, 0, n);
      assert a.Some? ==> stream.PcrAt(a.value).Some?;
      assert b.Some? ==> stream.PcrAt(b.value).Some?;
    }

    lemma BracketFound(head: nat, tail: nat)
      requires FirstPcr(stream, 0, |stream.events|) == Some(head)
      requires LastPcr(stream, 0, |stream.events|) == Some(tail) && head < tail
      ensures Bracketed(stream, head, tail)
    {
      hide Stream.PcrAt;
    }

    method FirstOfFile(len: nat) returns (first: Option<(Ring, nat)>)
      requires stream.Valid() && len == stream.Length()
      modifies this`pos
      ensures var found := FirstPcr(stream, 0, |stream.events|);
              first == if found.Some? then Some((stream.PcrAt(found.value).value, stream.At(found.value))) else None
    {
      SnapZero(0);
      first := ScanPcrForward(0, len, 0, |stream.events|);
    }

    /** Rounding down to the grid stays on it and before the end. */
    lemma SnapDown(x: nat)
      requires stream.Valid() && x <= stream.At(|stream.events|)
      ensures var a := x / stream.packetSize;
              x / stream.packetSize * stream.packetSize == stream.At(a) && a <= |stream.events|
    {
    }

    // ---- Bisection ----

    ghost predicate Seekable()
      reads this
    {
      Valid() && lastPcr.Some?
    }

    method LocatePcrAtOrBefore(target: int) returns (r: Result<(nat, int), SeekError>)
      requires Valid()
      modifies this`pos
      ensures r.Err? <==> lastPcr.None?
      ensures r.Err? ==> r.error == Unsupported && pos == old(pos)
      ensures r.Ok? ==> r.value == (stream.At(Locate(stream, Head(), Tail(), target)),
                                    LandingTime(stream, Head(), Tail(), target))
    {
      hide Bisect, FirstPcr, PcrExt90k, Time, Bracketed;
      if firstPcr.None? || lastPcr.None? {
        return Err(Unsupported);
      }
      var ((first, firstOff), (last, lastOff)) := (firstPcr.value, lastPcr.value);
      ghost var (head, tail) := (Head(), Tail());
      var firstExt, lastExt := PcrExt90k(Some(first), first), PcrExt90k(Some(first), last);
      ClampTimes(head, tail, target);
      if target <= firstExt {
        return Ok((firstOff, firstExt));
      }
      if target >= lastExt {
        return Ok((lastOff, lastExt));
      }
      var best := BisectPackets(target);
      r := Ok(best);
    }

    lemma ClampTimes(head: nat, tail: nat, target: int)
      requires Bracketed(stream, head, tail)
      ensures head < |stream.events| && tail < |stream.events| && stream.PcrAt(head).Some? && stream.PcrAt(tail).Some?
      ensures Time(stream, head, head) == PcrExt90k(Some(stream.PcrAt(head).value), stream.PcrAt(head).value)
      ensures Time(stream, head, tail) == PcrExt90k(Some(stream.PcrAt(head).value), stream.PcrAt(tail).value)
      ensures var r := Locate(stream, head, tail, target);
              && (target <= Time(stream, head, head) ==>
                    r == head && LandingTime(stream, head, tail, target) == Time(stream, head, head))
              && (Time(stream, head, head) < target && Time(stream, head, tail) <= target ==>
                    r == tail && LandingTime(stream, head, tail, target) == Time(stream, head, tail))
    {
      hide Bisect, PcrExt90k;
    }

    /** The search proper, between the head and tail packets. */
    method BisectPackets(target: int) returns (best: (nat, int))
      requires Seekable()
      requires Time(stream, Head(), Head()) < target < Time(stream, Head(), Tail())
      modifies this`pos
      ensures best == (stream.At(Locate(stream, Head(), Tail(), target)), LandingTime(stream, Head(), Tail(), target))
    {
      hide Bisect, FirstPcr, PcrExt90k, Time, Stream.At, Stream.PcrAt, Index;
      ghost var (head, tail) := (Head(), Tail());
      var lo, hi, first := firstPcr.value.1, lastPcr.value.1, firstPcr.value.0;
      best := (lo, PcrExt90k(Some(first), first));
      TimeIs(head, head);
      best := Search(target, lo, hi, first, best, head, tail);
    }

    method Search(target: int, lo0: nat, hi0: nat, first: Ring, best0: (nat, int), ghost head: nat, ghost tail: nat)
      returns (best: (nat, int))
      requires stream.Valid() && head < tail < |stream.events| && stream.PcrAt(head) == Some(first)
      requires lo0 == stream.At(head) && hi0 == stream.At(tail) && best0 == (lo0, Time(stream, head, head))
      modifies this`pos
      ensures var b := Bisect(stream, head, Bracket(head, tail, head), target).best;
              b < |stream.events| && stream.PcrAt(b).Some? && best == (stream.At(b), Time(stream, head, b))
    {
      hide Bisect, FirstPcr, PcrExt90k, Time, Stream.At, Stream.PcrAt, Stream.Valid;
      var lo, hi := lo0, hi0;
      best := best0;
      ghost var b := Bracket(head, tail, head);
      Midpoint(stream, head, tail);
      while hi - lo > stream.packetSize
        invariant b.lo <= b.hi <= |stream.events|
        invariant b.best < |stream.events| && stream.PcrAt(b.best).Some?
        invariant lo == stream.At(b.lo) && hi == stream.At(b.hi) && lo <= hi
        invariant hi - lo > stream.packetSize <==> b.hi - b.lo > 1
        invariant best == (stream.At(b.best), Time(stream, head, b.best))
        invariant Bisect(stream, head, b, target) == Bisect(stream, head, Bracket(head, tail, head), target)
        decreases b.hi - b.lo
      {
        lo, hi, best, b := Narrow(target, lo, hi, first, best, head, b);
        Midpoint(stream, b.lo, b.hi);
      }
      BisectStep(stream, head, b, target);
    }

    /** The loop body: look from the middle for a PCR, and go on above or below it. */
    method Narrow(target: int, lo0: nat, hi0: nat, first: Ring, best0: (nat, int), ghost head: nat, ghost b0: Bracket)
      returns (lo: nat, hi: nat, best: (nat, int), ghost b: Bracket)
      requires stream.Valid() && head < |stream.events| && stream.PcrAt(head) == Some(first)
      requires b0.lo + 1 < b0.hi <= |stream.events| && lo0 == stream.At(b0.lo) && hi0 == stream.At(b0.hi)
      requires b0.best < |stream.events| && stream.PcrAt(b0.best).Some?
      requires best0 == (stream.At(b0.best), Time(stream, head, b0.best))
      modifies this`pos
      ensures b.lo <= b.hi <= b0.hi && b.hi - b.lo < b0.hi - b0.lo
      ensures lo == stream.At(b.lo) && hi == stream.At(b.hi)
      ensures b.best < |stream.events| && stream.PcrAt(b.best).Some?
      ensures best == (stream.At(b.best), Time(stream, head, b.best))
      ensures Bisect(stream, head, b, target) == Bisect(stream, head, b0, target)
    {
      hide Bisect, FirstPcr, PcrExt90k, Time, Stream.At, Stream.PcrAt, Stream.Valid;
      lo, hi, best, b := lo0, hi0, best0, b0;
      BisectStep(stream, head, b0, target);
      ghost var m := b0.lo + (b0.hi - b0.lo) / 2;
      var mid := Middle(lo, hi, b0.lo, b0.hi);
      EndOf(b0.hi);
      var found := ScanPcrForward(mid, hi, m, b0.hi);
      if found.None? {
        hi := mid;
        b := b0.(hi := m);
        return;
      }
      var (pcr, off) := found.value;
      ghost var i := FirstPcr(stream, m, b0.hi).value;
      Offsets(stream, i, i);
      TimeIs(head, i);
      var ext := PcrExt90k(Some(first), pcr);
      if ext <= target {
        best := (off, ext);
        lo := off + stream.packetSize;
        b := Bracket(i + 1, b0.hi, i);
      } else {
        hi := off;
        b := b0.(hi := i);
      }
    }

    /** The grid position halfway. */
    method Middle(lo: nat, hi: nat, ghost a: nat, ghost b: nat) returns (mid: nat)
      requires stream.Valid() && a <= b && lo == stream.At(a) && hi == stream.At(b)
      ensures mid == stream.At(a + (b - a) / 2)
    {
      hide Stream.At;
      Midpoint(stream, a, b);
      Offsets(stream, a, a + (b - a) / 2);
      Offsets(stream, a + (b - a) / 2, a);
      mid := (lo + (hi - lo) / 2) / stream.packetSize * stream.packetSize;
      mid := Max(mid, lo);
    }

    lemma EndOf(b: nat)
      requires stream.Valid()
      ensures stream.At(b) <= stream.At(b) < stream.At(b) + stream.packetSize
    {
    }

    /** A PCR on the head's axis. */
    lemma TimeIs(head: nat, i: nat)
      requires head < |stream.events| && stream.PcrAt(head).Some?
      requires i < |stream.events| && stream.PcrAt(i).Some?
      ensures Time(stream, head, i) == PcrExt90k(Some(stream.PcrAt(head).value), stream.PcrAt(i).value)
    {
    }

    // ---- The window ----

    method ScanAccessPointsWindow(pid: nat, fromOff: nat, fromTime: int, target: int, ghost from: nat)
      returns (bestRai: Option<Landing>, bestDai: Option<Landing>)
      requires stream.Valid() && fromOff == stream.At(from) && from <= |stream.events|
      modifies this`pos
      ensures pos == WindowEnd(stream, pid, target, from, if fromTime < 0 then 0 else fromTime)
      ensures var w := OpenWindow(stream, pid, target, from, if fromTime < 0 then 0 else fromTime);
              bestRai == w.bestRai && bestDai == w.bestDai
    {
      hide ExtendNear, Saturate, WindowScan, WindowPacket, ScanStops, Stream.At, Stream.Length;
      pos := fromOff;
      bestRai, bestDai := None, None;
      var pendingRai: Option<nat> := None;
      var ptsRef: nat := if fromTime < 0 then 0 else fromTime;
      var off := fromOff;
      ghost var i := from;
      ghost var w := Window(None, None, None, ptsRef);
      while true
        invariant i <= |stream.events| && off == pos == stream.At(i)
        invariant w == Window(bestRai, bestDai, pendingRai, ptsRef)
        invariant WindowScan(stream, pid, target, i, w) ==
                  OpenWindow(stream, pid, target, from, if fromTime < 0 then 0 else fromTime)
        invariant ScanStops(stream, pid, target, i, w) ==
                  WindowEnd(stream, pid, target, from, if fromTime < 0 then 0 else fromTime)
        decreases |stream.events| - i
      {
        var packet := ReadPacket(i);
        if packet.None? {
          WindowEnds(pid, target, i, w);
          break;
        }
        WindowStep(stream, pid, target, i, w);
        Offsets(stream, i, i);
        var pktOff := off;
        off := off + stream.packetSize;
        var stop: bool;
        bestRai, bestDai, pendingRai, ptsRef, stop :=
          TakePacket(pid, target, packet.value, pktOff, bestRai, bestDai, pendingRai, ptsRef, i);
        w := Window(bestRai, bestDai, pendingRai, ptsRef);
        i := i + 1;
        if stop {
          break;
        }
      }
    }

    lemma WindowEnds(pid: nat, target: int, i: nat, w: Window)
      requires i >= |stream.events|
      ensures WindowScan(stream, pid, target, i, w) == w
      ensures ScanStops(stream, pid, target, i, w) == stream.Length()
    {
    }

    /** The loop body: one packet of the window. */
    method TakePacket(
      pid: nat, target: int, packet: Event, pktOff: nat,
      bestRai0: Option<Landing>, bestDai0: Option<Landing>, pendingRai0: Option<nat>, ptsRef0: nat, ghost i: nat)
      returns (bestRai: Option<Landing>, bestDai: Option<Landing>, pendingRai: Option<nat>, ptsRef: nat, stop: bool)
      requires i < |stream.events| && packet == stream.events[i] && pktOff == stream.At(i)
      ensures (Window(bestRai, bestDai, pendingRai, ptsRef), stop) ==
              WindowPacket(stream, pid, target, i, Window(bestRai0, bestDai0, pendingRai0, ptsRef0))
    {
      hide ExtendNear, Saturate, Stream.At;
      bestRai, bestDai, pendingRai, ptsRef, stop := bestRai0, bestDai0, pendingRai0, ptsRef0, false;
      if packet.Corrupt? || packet.pid != pid {
        return;
      }
      if packet.rai && pendingRai.None? {
        pendingRai := Some(pktOff);
      }
      if packet.start.None? || packet.start.value.Unparsable? {
        return;
      }
      var pes := packet.start.value;
      if pes.pts.None? {
        pendingRai := None;
        return;
      }
      var ext := ExtendNear(pes.pts.value, ptsRef);
      ptsRef := ext;
      if pendingRai.Some? {
        var anchor := pendingRai.value;
        pendingRai := None;
        if ext <= target {
          bestRai := Some(Landing(anchor, ext));
        }
      } else if pes.aligned && ext <= target {
        bestDai := Some(Landing(pktOff, ext));
      }
      stop := ext > Saturate(target + REORDER_GRACE);
    }

    // ---- The index ----

    method RandomAccessPoints() returns (index: seq<AccessPoint>)
      requires Valid()
      modifies this`pos, this`rapIndex
      ensures Valid() && pos == old(pos)
      ensures index == Index(stream) && rapIndex == Some(index)
    {
      if rapIndex.None? {
        var scanned := ScanRandomAccessPoints();
        rapIndex := Some(scanned);
      }
      index := rapIndex.value;
    }

    method ScanRandomAccessPoints() returns (out: seq<AccessPoint>)
      requires stream.Valid()
      modifies this`pos
      ensures out == Index(stream) && pos == old(pos)
    {
      hide Scanned, ScanPacket, Index, RecordsScanned, Stream.At;
      var resume := pos;
      var len := stream.Length();
      AlignedLength(stream);
      var aligned := len / stream.packetSize * stream.packetSize;
      pos := 0;
      out := [];
      var unresolved: map<nat, seq<nat>> := map[];
      var ptsRef: map<nat, nat> := map[];
      var off := 0;
      ghost var i := 0;
      ghost var n := |stream.events|;
      BlankScanned(stream);
      SnapZero(0);
      EndOf(n);
      while off + stream.packetSize <= aligned
        invariant i <= n && off == pos == stream.At(i)
        invariant Scanned(stream, i, ScanState(out, unresolved, ptsRef))
        decreases n - i
      {
        InRange(i, n, aligned);
        var packet := ReadPacket(i);
        if packet.None? {
          break;
        }
        ScannedStep(stream, i, ScanState(out, unresolved, ptsRef));
        WaitingInBounds(stream, i, ScanState(out, unresolved, ptsRef));
        out, unresolved, ptsRef := IndexPacket(packet.value, off, out, unresolved, ptsRef, i);
        off := off + stream.packetSize;
        i := i + 1;
      }
      InRange(i, n, aligned);
      IndexScanned(ScanState(out, unresolved, ptsRef));
      pos := resume;
    }

    lemma IndexScanned(st: ScanState)
      requires Scanned(stream, |stream.events|, st)
      ensures st.out == Index(stream)
    {
      hide Index, RecordsScanned, PidScanned;
      ScannedIsIndex(stream, st);
    }

    /** The loop body: one packet of the index scan. */
    method IndexPacket(
      packet: Event, off: nat,
      out0: seq<AccessPoint>, unresolved0: map<nat, seq<nat>>, ptsRef0: map<nat, nat>, ghost i: nat)
      returns (out: seq<AccessPoint>, unresolved: map<nat, seq<nat>>, ptsRef: map<nat, nat>)
      requires i < |stream.events| && packet == stream.events[i] && off == stream.At(i)
      requires InBounds(out0, unresolved0)
      ensures ScanState(out, unresolved, ptsRef) == ScanPacket(stream, i, ScanState(out0, unresolved0, ptsRef0))
    {
      hide ExtendNear, Stream.At, Patched;
      out, unresolved, ptsRef := out0, unresolved0, ptsRef0;
      if packet.Corrupt? || packet.pid !in stream.streamOf {
        return;
      }
      var pid, streamIndex := packet.pid, stream.streamOf[packet.pid];
      if packet.rai {
        var waiting := if pid in unresolved then unresolved[pid] else [];
        unresolved := unresolved[pid := waiting + [|out|]];
        out := out + [AccessPoint(off, pid, streamIndex, None, RandomAccessIndicator)];
      }
      if packet.start.None? {
        return;
      }
      var pes := packet.start.value;
      var pts: Option<nat> := None;
      if pes.Pes? && pes.pts.Some? {
        var ext := if pid in ptsRef then ExtendNear(pes.pts.value, ptsRef[pid]) else pes.pts.value;
        ptsRef := ptsRef[pid := ext];
        pts := Some(ext);
      }
      if pid in unresolved {
        var waiting := unresolved[pid];
        unresolved := unresolved - {pid};
        out := Resolve(out, waiting, pts);
      } else if pes.Pes? && pes.aligned && pts.Some? {
        out := out + [AccessPoint(off, pid, streamIndex, pts, DataAligned)];
      }
    }

    /** Give the announced PES's PTS to the records waiting for it. */
    method Resolve(out0: seq<AccessPoint>, waiting: seq<nat>, pts: Option<nat>) returns (out: seq<AccessPoint>)
      requires forall k | k in waiting :: k < |out0|
      ensures out == Patched(out0, waiting, pts)
    {
      out := out0;
      for n := 0 to |waiting|
        invariant |out| == |out0|
        invariant forall k | 0 <= k < |out| :: out[k] == if k in waiting[..n] then out0[k].(pts := pts) else out0[k]
      {
        var k := waiting[n];
        assert k in waiting && waiting[..n + 1] == waiting[..n] + [k];
        out := out[k := out[k].(pts := pts)];
      }
      assert waiting[..|waiting|] == waiting;
    }

    // ---- Seeking ----

    /** Reading goes on at `offset`, with nothing in flight. */
    ghost predicate HomeAt(offset: nat)
      reads this`pos, this`bytesRead, this`putback, this`pending, this`eofReached
    {
      pos == offset && bytesRead == offset && putback == [] && pending == [] && !eofReached
    }

    /** Every tracker is seeded with the hint or reset; no PES is under assembly, no splitter holds a partial frame. */
    twostate predicate Forgotten(new hint: Option<int>)
      reads this`pcrTracker, this`reassemblers, this`splitters, this`ptsTrackers, this`dtsTrackers
    {
      && pcrTracker == PcrClock.PcrState(old(pcrTracker).maxJitter, None, None, false)
      && ptsTrackers == Reseeded(old(ptsTrackers), hint) && dtsTrackers == Reseeded(old(dtsTrackers), hint)
      && splitters == ForgetPartial(old(splitters)) && reassemblers == NothingAssembled(old(reassemblers))
    }

    /** The streaming state re-homed at `offset`; the bracket and the start times stay. */
    twostate predicate Landed(new offset: nat, new hint: Option<int>)
      reads this
    {
      && HomeAt(offset) && Forgotten(hint)
      && startTimes == old(startTimes) && firstPcr == old(firstPcr) && lastPcr == old(lastPcr)
    }

    method Reposition(offset: nat, hint: Option<int>)
      modifies this
      ensures Landed(offset, hint) && rapIndex == old(rapIndex)
    {
      hide Reseeded, ForgetPartial, NothingAssembled;
      pos, bytesRead, putback, pending, eofReached := offset, offset, [], [], false;
      Forget(hint);
    }

    method Forget(hint: Option<int>)
      modifies this`pcrTracker, this`reassemblers, this`splitters, this`ptsTrackers, this`dtsTrackers
      ensures Forgotten(hint)
    {
      hide Reseeded, ForgetPartial, NothingAssembled;
      pcrTracker := PcrClock.PcrState(pcrTracker.maxJitter, None, None, false);
      var empty := RenewEach(reassemblers);
      var reset := ResetEach(splitters);
      var pts := SeedEach(ptsTrackers, hint);
      var dts := SeedEach(dtsTrackers, hint);
      reassemblers, splitters, ptsTrackers, dtsTrackers := empty, reset, pts, dts;
    }

    method RenewEach(all: map<nat, Reassembler>) returns (r: map<nat, Reassembler>)
      ensures r == NothingAssembled(all)
    {
      r := all;
      var todo := all.Keys;
      while todo != {}
        invariant todo <= r.Keys == all.Keys
        invariant forall pid | pid in r :: r[pid] == if pid in todo then all[pid] else NEW_REASSEMBLER
      {
        var pid :| pid in todo;
        r := r[pid := NEW_REASSEMBLER];
        todo := todo - {pid};
      }
    }

    method ResetEach(all: map<nat, Slot>) returns (r: map<nat, Slot>)
      ensures r == ForgetPartial(all)
    {
      r := all;
      var todo := all.Keys;
      while todo != {}
        invariant todo <= r.Keys == all.Keys
        invariant forall pid | pid in r :: r[pid] == if pid in todo then all[pid] else ForgetPartial(all)[pid]
      {
        var pid :| pid in todo;
        var reset := r[pid].state.(residual := [], residualPts := None, anchor := None);
        r := r[pid := Slot(r[pid].syntax, reset)];
        todo := todo - {pid};
      }
    }

    /** Seed every tracker of a map, or reset it without a hint that is a time. */
    method SeedEach(trackers: Trackers, hint: Option<int>) returns (r: Trackers)
      ensures r == Reseeded(trackers, hint)
    {
      r := trackers;
      var todo := trackers.Keys;
      while todo != {}
        invariant todo <= r.Keys == trackers.Keys
        invariant forall pid | pid in r ::
                    r[pid] == if pid in todo then trackers[pid] else Reseeded(trackers, hint)[pid]
      {
        var pid :| pid in todo;
        if hint.Some? && hint.value >= 0 {
          r := r[pid := Seeded(hint.value)];
        } else {
          r := r[pid := FRESH];
        }
        todo := todo - {pid};
      }
    }

    method SeekViaIndex(streamIndex: nat, target: int) returns (r: Result<int, SeekError>)
      requires Valid()
      modifies this
      ensures Valid() && rapIndex == Some(Index(stream))
      ensures var choice := IndexChoice(Index(stream), streamIndex, target);
              if choice.Ok? then r == Ok(choice.value.pts) && Landed(choice.value.offset, Some(choice.value.pts))
              else r == Err(choice.error) && Kept() && pos == old(pos)
    {
      hide Index, BestPoint, FirstPoint;
      var index := RandomAccessPoints();
      var best: seq<Option<Landing>> := [None, None];
      var first: seq<Option<Landing>> := [None, None];
      NoChoice(streamIndex, RandomAccessIndicator, target);
      NoChoice(streamIndex, DataAligned, target);
      assert index[..0] == [];
      for n := 0 to |index|
        invariant Kept() && pos == old(pos) && Valid() && rapIndex == Some(index)
        invariant best == [BestPoint(index[..n], streamIndex, RandomAccessIndicator, target),
                           BestPoint(index[..n], streamIndex, DataAligned, target)]
        invariant first == [FirstPoint(index[..n], streamIndex, RandomAccessIndicator),
                            FirstPoint(index[..n], streamIndex, DataAligned)]
      {
        ChoiceStep(index, n, streamIndex, RandomAccessIndicator, target);
        ChoiceStep(index, n, streamIndex, DataAligned, target);
        var rap := index[n];
        if rap.streamIndex != streamIndex || rap.pts.None? {
          continue;
        }
        var tier := if rap.kind == RandomAccessIndicator then 0 else 1;
        var here := Landing(rap.byteOffset, rap.pts.value);
        if first[tier].None? {
          first := first[tier := Some(here)];
        }
        if rap.pts.value <= target {
          best := best[tier := Some(here)];
        }
      }
      assert index[..|index|] == index;
      var choice := OrElse(best[0], OrElse(best[1], OrElse(first[0], first[1])));
      if choice.None? {
        return Err(Unsupported);
      }
      Reposition(choice.value.offset, Some(choice.value.pts));
      r := Ok(choice.value.pts);
    }

    /** Nothing but the input cursor and the cached index has changed. */
    twostate predicate Kept()
      reads this
    {
      && bytesRead == old(bytesRead) && putback == old(putback) && pending == old(pending)
      && eofReached == old(eofReached)
      && ptsTrackers == old(ptsTrackers) && dtsTrackers == old(dtsTrackers) && splitters == old(splitters)
      && pcrTracker == old(pcrTracker) && reassemblers == old(reassemblers)
      && startTimes == old(startTimes) && firstPcr == old(firstPcr) && lastPcr == old(lastPcr)
    }

    lemma ChoiceStep(index: seq<AccessPoint>, n: nat, streamIndex: nat, kind: Kind, target: int)
      requires n < |index|
      ensures var p := index[n];
              var hit := p.streamIndex == streamIndex && p.kind == kind && p.pts.Some?;
              && BestPoint(index[..n + 1], streamIndex, kind, target) ==
                 (if hit && p.pts.value <= target then Some(Landing(p.byteOffset, p.pts.value))
                  else BestPoint(index[..n], streamIndex, kind, target))
              && FirstPoint(index[..n + 1], streamIndex, kind) ==
                 (if FirstPoint(index[..n], streamIndex, kind).None? && hit
                  then Some(Landing(p.byteOffset, p.pts.value))
                  else FirstPoint(index[..n], streamIndex, kind))
    {
      assert index[..n + 1][..n] == index[..n];
    }

    lemma NoChoice(streamIndex: nat, kind: Kind, target: int)
      ensures BestPoint([], streamIndex, kind, target) == None && FirstPoint([], streamIndex, kind) == None
    {
    }

    /** The landing was taken as `choice` says; or it failed, and only the cursor and the cached index moved. */
    twostate predicate Sought(new choice: Result<Landing, SeekError>, new r: Result<int, SeekError>)
      reads this
    {
      if choice.Ok? then r == Ok(choice.value.pts) && Landed(choice.value.offset, Some(choice.value.pts))
      else r == Err(choice.error) && Kept()
    }

    /** Where an access-point seek lands: by the index once there is one, or without a PCR bracket; else by windows. */
    ghost function AccessPointSeek(pid: nat, streamIndex: nat, target: int): Result<Landing, SeekError>
      requires Valid()
      reads this
    {
      if rapIndex.Some? || lastPcr.None? then IndexChoice(Index(stream), streamIndex, target)
      else WindowedSeek(stream, Head(), Tail(), pid, streamIndex, target, target, 90_000)
    }

    /** The cursor after a failure: as it was, unless windows were scanned. */
    ghost function CursorIfFailed(pid: nat, target: int): nat
      requires Valid()
      reads this
    {
      FailedCursor(stream, if lastPcr.Some? then Some(Head()) else None, rapIndex.Some?, pid, target, pos)
    }

    /** In every state, indexed or not, the seek is the index seek. */
    lemma SeekIsIndexSeek(pid: nat, times: seq<nat>, target: int)
      requires Valid() && Indexed(stream, pid, times) && target <= I64_MAX
      requires |times| == |stream.events| && Reordered(stream, pid, times)
      requires lastPcr.Some? ==> PcrsNear(stream, Head(), pid, times)
      ensures SameLanding(stream, pid, AccessPointSeek(pid, stream.streamOf[pid], target),
                          IndexChoice(Index(stream), stream.streamOf[pid], target))
    {
      hide Index, WindowedSeek, IndexChoice, Timed, Reordered, PcrsNear, SameLanding;
      SameItself(stream, pid, IndexChoice(Index(stream), stream.streamOf[pid], target));
      if lastPcr.Some? {
        WindowedSeekRefinesIndex(stream, Head(), Tail(), pid, times, target, target, 90_000);
      }
    }

    /**
     * After any successful access-point seek the first PES to start on the PID has the PTS the seek returned, and
     * the re-seeded tracker stamps it with that.
     */
    lemma SeekPicksUp(pid: nat, times: seq<nat>, target: int)
      requires Valid() && Indexed(stream, pid, times) && target <= I64_MAX && pid in ptsTrackers
      requires |times| == |stream.events| && Reordered(stream, pid, times)
      requires lastPcr.Some? ==> PcrsNear(stream, Head(), pid, times)
      ensures var r := AccessPointSeek(pid, stream.streamOf[pid], target);
              r.Ok? ==> PicksUp(stream, pid, times, ptsTrackers, r.value)
    {
      hide Index, WindowedSeek, IndexChoice, Timed, Reordered, PcrsNear, AccessPointSeek, SameLanding, PicksUp;
      SeekIsIndexSeek(pid, times, target);
      SamePicksUp(stream, pid, times, target, ptsTrackers, AccessPointSeek(pid, stream.streamOf[pid], target));
    }

    method FindPid(streamIndex: nat) returns (pid: Option<nat>)
      ensures pid.Some? ==> pid.value in stream.streamOf && stream.streamOf[pid.value] == streamIndex
      ensures pid.None? ==> streamIndex !in stream.streamOf.Values
    {
      pid := None;
      var todo := stream.streamOf.Keys;
      while todo != {}
        invariant todo <= stream.streamOf.Keys
        invariant forall p | p in stream.streamOf && p !in todo :: stream.streamOf[p] != streamIndex
      {
        var p :| p in todo;
        if stream.streamOf[p] == streamIndex {
          return Some(p);
        }
        todo := todo - {p};
      }
    }

    method SeekToAccessPoint(streamIndex: nat, target: int) returns (r: Result<int, SeekError>)
      requires Valid()
      modifies this
      ensures Valid()
      ensures streamIndex !in stream.streamOf.Values ==> r == Err(NoSuchStream) && Kept() && pos == old(pos)
      ensures forall pid | pid in stream.streamOf && stream.streamOf[pid] == streamIndex ::
                && Sought(old(AccessPointSeek(pid, streamIndex, target)), r)
                && (r.Err? ==> pos == old(CursorIfFailed(pid, target)))
    {
      hide Index, WindowedSeek, IndexChoice, Bracketed, Locate, LandingTime, Rounds;
      var found := FindPid(streamIndex);
      if found.None? {
        return Err(NoSuchStream);
      }
      if rapIndex.Some? || firstPcr.None? || lastPcr.None? {
        r := SeekViaIndex(streamIndex, target);
        return;
      }
      ghost var rounds;
      r, rounds := BackOff(found.value, streamIndex, target);
    }

    /** Bisect and scan, further back each round. */
    method BackOff(pid: nat, streamIndex: nat, target: int) returns (r: Result<int, SeekError>, ghost rounds: nat)
      requires Seekable() && rapIndex.None?
      requires pid in stream.streamOf && stream.streamOf[pid] == streamIndex
      modifies this
      ensures Valid()
      ensures Sought(old(WindowedSeek(stream, Head(), Tail(), pid, streamIndex, target, target, 90_000)), r)
      ensures r.Err? ==> pos == old(CursorIfFailed(pid, target))
      ensures 1 <= rounds <= old(Rounds(stream, Head(), Tail(), target, 90_000)) <= 18
    {
      hide Index, WindowedSeek, IndexChoice, Bracketed, Locate, LandingTime, Rounds, OpenWindow, UsesIndicator;
      hide NextProbe, NextBack, Above, WindowScan, ScanStops, WindowEnd, Time;
      var firstOff := firstPcr.value.1;
      ghost var (head, tail) := (Head(), Tail());
      var probeTarget := target;
      var back: nat := 90_000;
      rounds := 0;
      BackOffIsLogarithmic(stream, head, tail, target);
      while true
        invariant Seekable() && Kept() && rapIndex.None?
        invariant 0 < back <= I64_MAX
        invariant WindowedSeek(stream, head, tail, pid, streamIndex, target, probeTarget, back) ==
                  WindowedSeek(stream, head, tail, pid, streamIndex, target, target, 90_000)
        invariant rounds + Rounds(stream, head, tail, probeTarget, back) == Rounds(stream, head, tail, target, 90_000)
        decreases Rounds(stream, head, tail, probeTarget, back)
      {
        WindowedStep(stream, head, tail, pid, streamIndex, target, probeTarget, back);
        RoundsStep(stream, head, tail, probeTarget, back);
        rounds := rounds + 1;
        var located := LocatePcrAtOrBefore(probeTarget);
        var (fromOff, fromTime) := located.value;
        ghost var landing := Locate(stream, head, tail, probeTarget);
        Offsets(stream, landing, head);
        Offsets(stream, head, landing);
        var bestRai, bestDai := ScanAccessPointsWindow(pid, fromOff, fromTime, target, landing);
        if bestRai.Some? {
          Reposition(bestRai.value.offset, Some(bestRai.value.pts));
          r := Ok(bestRai.value.pts);
          return;
        }
        if bestDai.Some? {
          AlignedMeansSuccess(stream, pid, target, landing, fromTime);
          r := DecideTier(pid, streamIndex, target, bestDai.value);
          return;
        }
        if fromOff <= firstOff {
          HeadLanding(stream, head, tail, probeTarget);
          break;
        }
        Steps(probeTarget, back);
        probeTarget := Saturate(fromTime - back);
        back := Saturate(back * 2);
      }
      r := SeekViaIndex(streamIndex, target);
    }

    lemma Steps(probe: int, back: nat)
      requires stream.Valid() && Seekable()
      ensures NextProbe(stream, Head(), Tail(), probe, back) ==
              Saturate(LandingTime(stream, Head(), Tail(), probe) - back)
      ensures NextBack(back) == Saturate(back * 2)
    {
      hide LandingTime;
    }

    /** Only aligned points in the window: an indicator anywhere on the PID outranks them. */
    method DecideTier(pid: nat, streamIndex: nat, target: int, dai: Landing) returns (r: Result<int, SeekError>)
      requires Valid()
      modifies this
      ensures Valid()
      ensures Sought(if UsesIndicator(Index(stream), pid)
                     then IndexChoice(Index(stream), streamIndex, target) else Ok(dai), r)
    {
      hide Index, IndexChoice;
      var index := RandomAccessPoints();
      var usesRai := false;
      for n := 0 to |index|
        invariant Valid() && Kept() && rapIndex == Some(index)
        invariant usesRai <==> UsesIndicator(index[..n], pid)
      {
        assert index[..n + 1] == index[..n] + [index[n]];
        usesRai := usesRai || (index[n].pid == pid && index[n].kind == RandomAccessIndicator);
        UsesSnoc(index[..n], index[n], pid);
      }
      assert index[..|index|] == index;
      if usesRai {
        r := SeekViaIndex(streamIndex, target);
        return;
      }
      Reposition(dai.offset, Some(dai.pts));
      r := Ok(dai.pts);
    }

    lemma UsesSnoc(points: seq<AccessPoint>, p: AccessPoint, pid: nat)
      ensures UsesIndicator(points + [p], pid) <==>
              UsesIndicator(points, pid) || (p.pid == pid && p.kind == RandomAccessIndicator)
    {
      var all := points + [p];
      assert all[|points|] == p;
      assert forall k | 0 <= k < |points| :: all[k] == points[k];
    }

    /** Land on the clock itself. */
    method SeekByPcr(target: int) returns (r: Result<int, SeekError>)
      requires Valid()
      modifies this
      ensures Valid() && rapIndex == old(rapIndex)
      ensures old(lastPcr).None? ==> r == Err(Unsupported) && Kept() && pos == old(pos)
      ensures old(lastPcr).Some? ==>
                && r == Ok(old(LandingTime(stream, Head(), Tail(), target)))
                && Landed(old(stream.At(Locate(stream, Head(), Tail(), target))), Some(r.value))
    {
      hide Index, Bracketed, Locate, LandingTime;
      var located := LocatePcrAtOrBefore(target);
      if located.Err? {
        return Err(located.error);
      }
      var (off, landed) := located.value;
      Reposition(off, Some(landed));
      r := Ok(landed);
    }

    /** Access points first; the clock for a stream that signals none. */
    method SeekTo(streamIndex: nat, target: int) returns (r: Result<int, SeekError>)
      requires Valid()
      modifies this
      ensures Valid()
      ensures streamIndex !in stream.streamOf.Values ==> r == Err(NoSuchStream) && Kept() && pos == old(pos)
      ensures forall pid | pid in stream.streamOf && stream.streamOf[pid] == streamIndex ::
                var choice := old(AccessPointSeek(pid, streamIndex, target));
                if choice.Ok? then Sought(choice, r)
                else if old(lastPcr).None? then r == Err(Unsupported) && Kept() && pos == old(pos)
                else r == Ok(old(LandingTime(stream, Head(), Tail(), target)))
                     && Landed(old(stream.At(Locate(stream, Head(), Tail(), target))), Some(r.value))
    {
      hide Index, WindowedSeek, IndexChoice, Bracketed, Locate, LandingTime;
      r := SeekToAccessPoint(streamIndex, target);
      if r == Err(Unsupported) {
        r := SeekByPcr(target);
      }
    }

    // ---- Stamping ----

    method FinishPes(pid: nat, streamIndex: nat, pes: PesPacket) returns (packet: OutPacket)
      modifies this`ptsTrackers, this`dtsTrackers, this`startTimes
      ensures var (clocks, stamps) := Finish(Clocks(old(ptsTrackers), old(dtsTrackers)), pid, pes.pts, pes.dts);
              && Clocks(ptsTrackers, dtsTrackers) == clocks
              && packet == OutPacket(streamIndex, stamps.pts, stamps.dts, None, pes.randomAccess, pes.payload)
              && startTimes == if stamps.pts.Some? && streamIndex !in old(startTimes)
                               then old(startTimes)[streamIndex := stamps.pts.value] else old(startTimes)
    {
      hide ObserveState;
      var ptsExt: Option<nat> := None;
      if pes.pts.Some? {
        var raw := pes.pts.value;
        var ext: nat := raw;
        if pid in ptsTrackers {
          var t := ObserveState(ptsTrackers[pid], raw).0;
          ptsTrackers := ptsTrackers[pid := t];
          ext := if t.Extended().Some? then t.Extended().value else raw;
        }
        ptsExt := Some(ext);
        if streamIndex !in startTimes {
          startTimes := startTimes[streamIndex := ext];
        }
      }
      var dtsExt: Option<nat> := None;
      if pes.dts.Some? {
        var raw := pes.dts.value;
        var ext: nat := raw;
        if pid in dtsTrackers {
          if dtsTrackers[pid].Extended().None? && ptsExt.Some? {
            dtsTrackers := dtsTrackers[pid := Seeded(ptsExt.value)];
          }
          var t := ObserveState(dtsTrackers[pid], raw).0;
          dtsTrackers := dtsTrackers[pid := t];
          ext := if t.Extended().Some? then t.Extended().value else raw;
        }
        dtsExt := Some(ext);
      }
      packet := OutPacket(streamIndex, ptsExt, dtsExt, None, pes.randomAccess, pes.payload);
    }

    /** Queue the packets of one reassembled PES. */
    method EmitPes(pid: nat, streamIndex: nat, pes: PesPacket) returns (count: nat)
      modifies this`ptsTrackers, this`dtsTrackers, this`startTimes, this`splitters, this`pending
      ensures var (clocks, stamps) := Finish(Clocks(old(ptsTrackers), old(dtsTrackers)), pid, pes.pts, pes.dts);
              && Clocks(ptsTrackers, dtsTrackers) == clocks
              && |pending| == |old(pending)| + count
              && if pid !in old(splitters) then
                   && splitters == old(splitters)
                   && pending == old(pending)
                                 + [OutPacket(streamIndex, stamps.pts, stamps.dts, None, pes.randomAccess, pes.payload)]
                 else
                   var slot := old(splitters)[pid];
                   var (next, e) := EmitPayload(slot.syntax, slot.state, pes.payload, stamps.pts);
                   && splitters == old(splitters)[pid := Slot(slot.syntax, next)]
                   && pending == old(pending) + AudioPackets(streamIndex, e, stamps.dts, pes.randomAccess)
    {
      hide Finish, PushState, FramePacket;
      if pid !in splitters {
        var packet := FinishPes(pid, streamIndex, pes);
        pending := pending + [packet];
        return 1;
      }
      var head := FinishPes(pid, streamIndex, pes.(payload := []));
      var slot := splitters[pid];
      var wasLocked := slot.state.locked;
      var (next, frames) := PushState(slot.syntax, slot.state, pes.payload, head.pts);
      if frames == [] && !wasLocked {
        splitters := splitters[pid := Slot(slot.syntax, Unlocked(next))];
        pending := pending + [head.(data := pes.payload)];
        return 1;
      }
      splitters := splitters[pid := Slot(slot.syntax, next)];
      var packets := QueueFrames(streamIndex, frames, pes.randomAccess);
      pending := pending + packets;
      count := |frames|;
    }

    method QueueFrames(streamIndex: nat, frames: seq<AudioFrame>, randomAccess: bool) returns (packets: seq<OutPacket>)
      ensures |packets| == |frames|
      ensures forall dts :: packets == AudioPackets(streamIndex, Frames(frames), dts, randomAccess)
    {
      packets := [];
      for k := 0 to |frames|
        invariant |packets| == k
        invariant forall i | 0 <= i < k :: packets[i] == FramePacket(streamIndex, frames[i], i == 0 && randomAccess)
      {
        packets := packets + [FramePacket(streamIndex, frames[k], k == 0 && randomAccess)];
      }
    }
  }
}
