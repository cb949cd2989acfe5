/** Access points: which packets announce one, the full index of them, and the window scanned for one seek. */
module AccessPoints {
  import opened Locator
  import opened StreamGrid
  import opened Timestamps
  import opened Wrappers

  // ---- One PID ----

  predicate OnPid(s: Stream, pid: nat, i: nat) {
    i < |s.events| && s.events[i].Event? && s.events[i].pid == pid
  }

  /** Packet `i` sets the random-access indicator. */
  predicate Flags(s: Stream, pid: nat, i: nat) {
    OnPid(s, pid, i) && s.events[i].rai
  }

  /** A PES starts in packet `i`. */
  predicate Starts(s: Stream, pid: nat, i: nat) {
    OnPid(s, pid, i) && s.events[i].start.Some?
  }

  function PtsAt(s: Stream, pid: nat, i: nat): Option<Ring> {
    if Starts(s, pid, i) && s.events[i].start.value.Pes? then s.events[i].start.value.pts else None
  }

  predicate Aligned(s: Stream, pid: nat, i: nat) {
    Starts(s, pid, i) && s.events[i].start.value.Pes? && s.events[i].start.value.aligned
  }

  /** The first PES start in `[i, n)`. */
  function NextStart(s: Stream, pid: nat, i: nat, n: nat): (r: Option<nat>)
    ensures r.Some? ==> i <= r.value < n && Starts(s, pid, r.value)
    ensures forall j :: i <= j < (if r.Some? then r.value else n) ==> !Starts(s, pid, j)
    decreases if i < n then n - i else 0
  {
    if i >= n then None
    else if Starts(s, pid, i) then Some(i)
    else NextStart(s, pid, i + 1, n)
  }

  /** Some indicator before packet `n` has met no PES start yet. */
  predicate Pending(s: Stream, pid: nat, n: nat) {
    n > 0 && !Starts(s, pid, n - 1) && (Flags(s, pid, n - 1) || Pending(s, pid, n - 1))
  }

  /** The last PES with a PTS before packet `n`. */
  function LastPts(s: Stream, pid: nat, n: nat): (r: Option<nat>)
    ensures r.Some? ==> r.value < n && PtsAt(s, pid, r.value).Some?
    ensures forall j :: (if r.Some? then r.value + 1 else 0) <= j < n ==> PtsAt(s, pid, j).None?
  {
    if n == 0 then None
    else if PtsAt(s, pid, n - 1).Some? then Some(n - 1)
    else LastPts(s, pid, n - 1)
  }

  /** The PTS starting in packet `i`, unwrapped next to the one before it on the PID. */
  function ExtAt(s: Stream, pid: nat, i: nat): (r: Option<nat>)
    ensures r.Some? <==> PtsAt(s, pid, i).Some?
    decreases i
  {
    var raw := PtsAt(s, pid, i);
    if raw.None? then None
    else
      var before := LastPts(s, pid, i);
      if before.None? then Some(raw.value)
      else Some(ExtendNear(raw.value, ExtAt(s, pid, before.value).value))
  }

  /** The unwrap reference after the packets before `n`. */
  function RefBefore(s: Stream, pid: nat, n: nat): Option<nat> {
    var before := LastPts(s, pid, n);
    if before.None? then None else ExtAt(s, pid, before.value)
  }

  // ---- The index ----

  datatype Kind = RandomAccessIndicator | DataAligned

  datatype AccessPoint = AccessPoint(byteOffset: nat, pid: nat, streamIndex: nat, pts: Option<nat>, kind: Kind)

  /** Packet `i` is an access point: it sets the indicator, or starts an aligned, unannounced, timed PES. */
  predicate HasPoint(s: Stream, i: nat) {
    && i < |s.events| && s.events[i].Event? && s.events[i].pid in s.streamOf
    && var pid := s.events[i].pid;
       Flags(s, pid, i) || (!Pending(s, pid, i) && Aligned(s, pid, i) && PtsAt(s, pid, i).Some?)
  }

  /** The record of access point `i` once the packets before `n` are scanned. */
  function PointAt(s: Stream, i: nat, n: nat): AccessPoint
    requires HasPoint(s, i)
  {
    var pid := s.events[i].pid;
    if Flags(s, pid, i) then
      var start := NextStart(s, pid, i, n);
      AccessPoint(s.At(i), pid, s.streamOf[pid],
                  if start.None? then None else ExtAt(s, pid, start.value), RandomAccessIndicator)
    else
      AccessPoint(s.At(i), pid, s.streamOf[pid], ExtAt(s, pid, i), DataAligned)
  }

  /** Access points among the first `m` packets, in order. */
  function Points(s: Stream, m: nat, n: nat): seq<AccessPoint> {
    if m == 0 then []
    else Points(s, m - 1, n) + (if HasPoint(s, m - 1) then [PointAt(s, m - 1, n)] else [])
  }

  function Index(s: Stream): seq<AccessPoint> {
    Points(s, |s.events|, |s.events|)
  }

  // ---- Choosing from the index ----

  datatype Landing = Landing(offset: nat, pts: nat)

  datatype SeekError = Unsupported | NoSuchStream

  function OrElse<T>(a: Option<T>, b: Option<T>): Option<T> {
    if a.Some? then a else b
  }

  /** The last point of one tier at or before the target. */
  function BestPoint(points: seq<AccessPoint>, streamIndex: nat, kind: Kind, target: int): Option<Landing> {
    if points == [] then None
    else
      var p := points[|points| - 1];
      if p.streamIndex == streamIndex && p.kind == kind && p.pts.Some? && p.pts.value <= target
      then Some(Landing(p.byteOffset, p.pts.value))
      else BestPoint(points[..|points| - 1], streamIndex, kind, target)
  }

  function FirstPoint(points: seq<AccessPoint>, streamIndex: nat, kind: Kind): Option<Landing> {
    if points == [] then None
    else
      var p := points[|points| - 1];
      OrElse(FirstPoint(points[..|points| - 1], streamIndex, kind),
             if p.streamIndex == streamIndex && p.kind == kind && p.pts.Some?
             then Some(Landing(p.byteOffset, p.pts.value)) else None)
  }

  /** Indicators before alignment, at or before the target before clamping up. */
  function IndexChoice(points: seq<AccessPoint>, streamIndex: nat, target: int): (r: Result<Landing, SeekError>)
    ensures r.Err? ==> r.error == Unsupported
  {
    var choice :=
      OrElse(BestPoint(points, streamIndex, RandomAccessIndicator, target),
      OrElse(BestPoint(points, streamIndex, DataAligned, target),
      OrElse(FirstPoint(points, streamIndex, RandomAccessIndicator),
             FirstPoint(points, streamIndex, DataAligned))));
    if choice.Some? then Ok(choice.value) else Err(Unsupported)
  }

  // ---- The window ----

  const REORDER_GRACE: int := 90_000

  datatype Window = Window(bestRai: Option<Landing>, bestDai: Option<Landing>, pendingRai: Option<nat>, ptsRef: nat)

  /** One packet of the scan, and whether the scan stops behind it. */
  function WindowPacket(s: Stream, pid: nat, target: int, i: nat, w: Window): (Window, bool)
    requires i < |s.events|
  {
    if !OnPid(s, pid, i) then (w, false)
    else
      var w1 := if s.events[i].rai && w.pendingRai.None? then w.(pendingRai := Some(s.At(i))) else w;
      if s.events[i].start.None? || s.events[i].start.value.Unparsable? then (w1, false)
      else
        var pes := s.events[i].start.value;
        if pes.pts.None? then (w1.(pendingRai := None), false)
        else
          var ext := ExtendNear(pes.pts.value, w1.ptsRef);
          var w2 := w1.(ptsRef := ext, pendingRai := None);
          var w3 :=
            if w1.pendingRai.Some? then
              if ext <= target then w2.(bestRai := Some(Landing(w1.pendingRai.value, ext))) else w2
            else if pes.aligned && ext <= target then w2.(bestDai := Some(Landing(s.At(i), ext)))
            else w2;
          (w3, ext > Saturate(target + REORDER_GRACE))
  }

  function WindowScan(s: Stream, pid: nat, target: int, i: nat, w: Window): Window
    decreases |s.events| - i
  {
    if i >= |s.events| then w
    else
      var (w', stop) := WindowPacket(s, pid, target, i, w);
      if stop then w' else WindowScan(s, pid, target, i + 1, w')
  }

  /** Where the scan leaves the input: behind the packet it stopped at, or at the end of the file. */
  function ScanStops(s: Stream, pid: nat, target: int, i: nat, w: Window): nat
    decreases |s.events| - i
  {
    if i >= |s.events| then s.Length()
    else
      var (w', stop) := WindowPacket(s, pid, target, i, w);
      if stop then s.At(i + 1) else ScanStops(s, pid, target, i + 1, w')
  }

  lemma WindowStep(s: Stream, pid: nat, target: int, i: nat, w: Window)
    requires i < |s.events|
    ensures var (w', stop) := WindowPacket(s, pid, target, i, w);
            && WindowScan(s, pid, target, i, w) == (if stop then w' else WindowScan(s, pid, target, i + 1, w'))
            && ScanStops(s, pid, target, i, w) == (if stop then s.At(i + 1) else ScanStops(s, pid, target, i + 1, w'))
  {
  }

  /** A window opened at packet `i`, unwrapping next to the landing's time. */
  function OpenWindow(s: Stream, pid: nat, target: int, i: nat, time: nat): Window {
    WindowScan(s, pid, target, i, Window(None, None, None, time))
  }

  /** Where such a window leaves the input. */
  function WindowEnd(s: Stream, pid: nat, target: int, i: nat, time: nat): nat {
    ScanStops(s, pid, target, i, Window(None, None, None, time))
  }

  // ---- Seeking ----

  predicate UsesIndicator(points: seq<AccessPoint>, pid: nat) {
    exists k :: 0 <= k < |points| && points[k].pid == pid && points[k].kind == RandomAccessIndicator
  }

  /** Bisect, scan the window, back off; the index decides where the window cannot. */
  function WindowedSeek(s: Stream, head: nat, tail: nat, pid: nat, streamIndex: nat, target: int, probe: int, back: nat)
    : (r: Result<Landing, SeekError>)
    requires Bracketed(s, head, tail) && 0 < back <= I64_MAX
    ensures r.Err? ==> r.error == Unsupported
    decreases Above(s, head, probe)
  {
    var landing := Locate(s, head, tail, probe);
    var w := OpenWindow(s, pid, target, landing, LandingTime(s, head, tail, probe));
    if w.bestRai.Some? then Ok(w.bestRai.value)
    else if w.bestDai.Some? && !UsesIndicator(Index(s), pid) then Ok(w.bestDai.value)
    else if w.bestDai.Some? || landing <= head then IndexChoice(Index(s), streamIndex, target)
    else
      ProbeFalls(s, head, tail, probe, back);
      WindowedSeek(s, head, tail, pid, streamIndex, target, NextProbe(s, head, tail, probe, back), NextBack(back))
  }
}
