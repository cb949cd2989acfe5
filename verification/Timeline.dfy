/** The 64-bit PTS and DTS timelines of all PIDs, through reads and seeks in any order. */
module Timeline {
  import opened StreamGrid
  import opened Timestamps
  import opened Wrappers

  type Trackers = map<nat, TrackerState>

  /** What a landing does to every tracker: seed it with a usable hint, else forget. */
  function Reseeded(trackers: Trackers, hint: Option<int>): Trackers {
    map pid | pid in trackers :: if hint.Some? && hint.value >= 0 then Seeded(hint.value) else FRESH
  }

  function BlankTrackers(pids: set<nat>): Trackers {
    map pid | pid in pids :: FRESH
  }

  datatype Clocks = Clocks(pts: Trackers, dts: Trackers)

  datatype Stamps = Stamps(pts: Option<nat>, dts: Option<nat>)

  /** One timestamp of a PID, extended, and its tracker afterwards. */
  function Extend(trackers: Trackers, pid: nat, raw: Ring): (Trackers, nat) {
    if pid in trackers then
      var t := ObserveState(trackers[pid], raw).0;
      (trackers[pid := t], if t.Extended().Some? then t.Extended().value else raw)
    else (trackers, raw)
  }

  /** A DTS tracker that has seen nothing enters the timeline next to this PES's PTS. */
  function Prepared(trackers: Trackers, pid: nat, pts: Option<nat>): Trackers {
    if pid in trackers && trackers[pid].Extended().None? && pts.Some? then trackers[pid := Seeded(pts.value)]
    else trackers
  }

  /** The stamps of one PES. */
  function Finish(c: Clocks, pid: nat, pts: Option<Ring>, dts: Option<Ring>): (Clocks, Stamps) {
    var (p, ptsExt) := if pts.Some? then (var (t, e) := Extend(c.pts, pid, pts.value); (t, Some(e))) else (c.pts, None);
    var (d, dtsExt) :=
      if dts.Some? then (var (t, e) := Extend(Prepared(c.dts, pid, ptsExt), pid, dts.value); (t, Some(e)))
      else (c.dts, None);
    (Clocks(p, d), Stamps(ptsExt, dtsExt))
  }

  // ---- Runs ----

  /** A reposition with its time hint, or the next PES of a PID with its true times. */
  datatype Op = Jump(hint: Option<int>) | Read(pid: nat, pts: Option<nat>, dts: Option<nat>)

  function Residue(time: Option<nat>): Option<Ring> {
    if time.None? then None else Some(time.value % TIMESTAMP_MODULUS)
  }

  /** The stamps given to the PES of a run, whose headers carry residues only. */
  function Play(c: Clocks, ops: seq<Op>): seq<Stamps>
    decreases |ops|
  {
    if ops == [] then []
    else
      match ops[0]
      case Jump(hint) => Play(Clocks(Reseeded(c.pts, hint), Reseeded(c.dts, hint)), ops[1..])
      case Read(pid, pts, dts) =>
        var (next, stamps) := Finish(c, pid, Residue(pts), Residue(dts));
        [stamps] + Play(next, ops[1..])
  }

  function TrueStamps(ops: seq<Op>): seq<Stamps>
    decreases |ops|
  {
    if ops == [] then []
    else (if ops[0].Read? then [Stamps(ops[0].pts, ops[0].dts)] else []) + TrueStamps(ops[1..])
  }

  // ---- What the times of a run must satisfy ----

  /** True times read since the last jump, and the hint that jump came with. */
  datatype Memory = Memory(hint: Option<nat>, seen: map<nat, nat>)

  const START: Memory := Memory(None, map[])

  function JumpTo(hint: Option<int>): Memory {
    Memory(if hint.Some? && hint.value >= 0 then Some(hint.value) else None, map[])
  }

  /** A time that may come next: a forward step under half a wrap, or near the hint, or in the first epoch. */
  predicate Follows(m: Memory, pid: nat, time: nat) {
    if pid in m.seen then m.seen[pid] <= time < m.seen[pid] + WRAP_THRESHOLD
    else if m.hint.Some? then Distance(time, m.hint.value) < WRAP_THRESHOLD
    else time < TIMESTAMP_MODULUS
  }

  function Note(m: Memory, pid: nat, time: Option<nat>): Memory {
    if time.Some? then m.(seen := m.seen[pid := time.value]) else m
  }

  /** A first DTS may stay near its own PTS instead. */
  predicate DtsFollows(m: Memory, pid: nat, pts: Option<nat>, dts: nat) {
    if pid !in m.seen && pts.Some? then Distance(dts, pts.value) < WRAP_THRESHOLD
    else Follows(m, pid, dts)
  }

  predicate Smooth(pids: set<nat>, p: Memory, d: Memory, ops: seq<Op>)
    decreases |ops|
  {
    ops == [] ||
    match ops[0]
    case Jump(hint) => Smooth(pids, JumpTo(hint), JumpTo(hint), ops[1..])
    case Read(pid, pts, dts) =>
      && pid in pids
      && (pts.Some? ==> Follows(p, pid, pts.value))
      && (dts.Some? ==> DtsFollows(d, pid, pts, dts.value))
      && Smooth(pids, Note(p, pid, pts), Note(d, pid, dts), ops[1..])
  }

  // ---- The invariant ----

  ghost predicate Remembers(trackers: Trackers, pids: set<nat>, m: Memory) {
    && trackers.Keys == pids
    && forall pid | pid in pids ::
         if pid in m.seen then Tracks(trackers[pid], m.seen[pid])
         else trackers[pid] == (if m.hint.Some? then Seeded(m.hint.value) else FRESH)
  }

  lemma ObserveTracked(t: TrackerState, m: Memory, pid: nat, time: nat)
    requires Follows(m, pid, time)
    requires if pid in m.seen then Tracks(t, m.seen[pid])
             else t == (if m.hint.Some? then Seeded(m.hint.value) else FRESH)
    ensures var t' := ObserveState(t, time % TIMESTAMP_MODULUS).0;
            Tracks(t', time) && t'.Extended() == Some(time)
  {
    hide ObserveState, Tracks, TrackerState.Extended;
    if pid in m.seen {
      NextTracked(t, m.seen[pid], time);
    } else {
      FirstObservation(t, time);
      Tracked(ObserveState(t, time % TIMESTAMP_MODULUS).0, time);
    }
  }

  lemma Tracked(t: TrackerState, time: nat)
    requires Tracks(t, time)
    ensures t.Extended() == Some(time)
  {
  }

  /** One timestamp of a run. */
  lemma ExtendStep(trackers: Trackers, pids: set<nat>, m: Memory, pid: nat, time: nat)
    requires Remembers(trackers, pids, m) && pid in pids && Follows(m, pid, time)
    ensures var (next, ext) := Extend(trackers, pid, time % TIMESTAMP_MODULUS);
            ext == time && Remembers(next, pids, Note(m, pid, Some(time)))
  {
    hide ObserveState, Tracks, Follows;
    ObserveTracked(trackers[pid], m, pid, time);
  }

  lemma UnseenIsBlank(trackers: Trackers, pids: set<nat>, m: Memory, pid: nat)
    requires Remembers(trackers, pids, m) && pid in pids
    ensures trackers[pid].Extended().None? <==> pid !in m.seen
  {
  }

  /** A first DTS enters next to its PTS whatever hint came before. */
  lemma DtsStep(trackers: Trackers, pids: set<nat>, m: Memory, pid: nat, pts: Option<nat>, dts: nat)
    requires Remembers(trackers, pids, m) && pid in pids && DtsFollows(m, pid, pts, dts)
    ensures var (next, ext) := Extend(Prepared(trackers, pid, pts), pid, dts % TIMESTAMP_MODULUS);
            ext == dts && Remembers(next, pids, Note(m, pid, Some(dts)))
  {
    hide ObserveState, Tracks, TrackerState.Extended;
    UnseenIsBlank(trackers, pids, m, pid);
    if pid !in m.seen && pts.Some? {
      ObserveTracked(Seeded(pts.value), Memory(Some(pts.value), map[]), pid, dts);
    } else {
      ExtendStep(trackers, pids, m, pid, dts);
    }
  }

  lemma FinishStep(c: Clocks, pids: set<nat>, p: Memory, d: Memory, pid: nat, pts: Option<nat>, dts: Option<nat>)
    requires Remembers(c.pts, pids, p) && Remembers(c.dts, pids, d) && pid in pids
    requires pts.Some? ==> Follows(p, pid, pts.value)
    requires dts.Some? ==> DtsFollows(d, pid, pts, dts.value)
    ensures var (next, stamps) := Finish(c, pid, Residue(pts), Residue(dts));
            && stamps == Stamps(pts, dts)
            && Remembers(next.pts, pids, Note(p, pid, pts)) && Remembers(next.dts, pids, Note(d, pid, dts))
  {
    hide Extend, Prepared, Remembers, Follows, DtsFollows;
    if pts.Some? {
      ExtendStep(c.pts, pids, p, pid, pts.value);
    }
    if dts.Some? {
      DtsStep(c.dts, pids, d, pid, pts, dts.value);
    }
  }

  lemma JumpStep(trackers: Trackers, pids: set<nat>, m: Memory, hint: Option<int>)
    requires Remembers(trackers, pids, m)
    ensures Remembers(Reseeded(trackers, hint), pids, JumpTo(hint))
  {
  }

  lemma SmoothRead(pids: set<nat>, p: Memory, d: Memory, ops: seq<Op>)
    requires Smooth(pids, p, d, ops) && ops != []
    ensures ops[0].Jump? ==> Smooth(pids, JumpTo(ops[0].hint), JumpTo(ops[0].hint), ops[1..])
    ensures ops[0].Read? ==>
              var pid := ops[0].pid;
              && pid in pids
              && (ops[0].pts.Some? ==> Follows(p, pid, ops[0].pts.value))
              && (ops[0].dts.Some? ==> DtsFollows(d, pid, ops[0].pts, ops[0].dts.value))
              && Smooth(pids, Note(p, pid, ops[0].pts), Note(d, pid, ops[0].dts), ops[1..])
  {
  }

  /** Whatever seeks come between them, all PES get their true times. */
  lemma {:induction false} TimelineIsSeekStable(c: Clocks, pids: set<nat>, p: Memory, d: Memory, ops: seq<Op>)
    requires Remembers(c.pts, pids, p) && Remembers(c.dts, pids, d) && Smooth(pids, p, d, ops)
    ensures Play(c, ops) == TrueStamps(ops)
    decreases |ops|
  {
    hide Finish, Remembers, Reseeded, Smooth, JumpTo, Note, Follows, DtsFollows;
    if ops != [] {
      SmoothRead(pids, p, d, ops);
      match ops[0] {
        case Jump(hint) =>
          JumpStep(c.pts, pids, p, hint);
          JumpStep(c.dts, pids, d, hint);
          var m := JumpTo(hint);
          TimelineIsSeekStable(Clocks(Reseeded(c.pts, hint), Reseeded(c.dts, hint)), pids, m, m, ops[1..]);
        case Read(pid, pts, dts) =>
          FinishStep(c, pids, p, d, pid, pts, dts);
          var next := Finish(c, pid, Residue(pts), Residue(dts)).0;
          TimelineIsSeekStable(next, pids, Note(p, pid, pts), Note(d, pid, dts), ops[1..]);
      }
    }
  }

  /** From a newly opened demuxer. */
  lemma FreshTimeline(pids: set<nat>, ops: seq<Op>)
    requires Smooth(pids, START, START, ops)
    ensures Play(Clocks(BlankTrackers(pids), BlankTrackers(pids)), ops) == TrueStamps(ops)
  {
    TimelineIsSeekStable(Clocks(BlankTrackers(pids), BlankTrackers(pids)), pids, START, START, ops);
  }

  /** Just which true times survive a jump: those half a wrap around the hint, or the first epoch above a low one. */
  lemma ReentryExact(trackers: Trackers, pid: nat, hint: Option<int>, time: nat)
    requires pid in trackers
    ensures Extend(Reseeded(trackers, hint), pid, time % TIMESTAMP_MODULUS).1 == time <==>
            if hint.Some? && hint.value >= 0
            then hint.value - time <= WRAP_THRESHOLD && (time - hint.value < WRAP_THRESHOLD || time < TIMESTAMP_MODULUS)
            else time < TIMESTAMP_MODULUS
  {
    hide ObserveState, Tracks, TrackerState.Extended;
    var t := Reseeded(trackers, hint)[pid];
    var next := ObserveState(t, time % TIMESTAMP_MODULUS).0;
    FirstObservation(t, time);
    ObservedIsLast(t, time % TIMESTAMP_MODULUS);
    TracksExtended(next, time);
  }

  lemma ObservedIsLast(t: TrackerState, raw: Ring)
    requires t.lastRaw.None?
    ensures var next := ObserveState(t, raw).0;
            next.seedHint.None? && next.lastRaw.Some? && next.Extended().Some?
  {
  }
}
