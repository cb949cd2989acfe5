/** Reading physical packets from a byte stream, and finding the packet grid again after garbage. */
module PacketReader {
  import opened Bytes

  const TS_PACKET_LEN: nat := 188
  const SYNC: Byte := 0x47
  const RESYNC_PACKET_LIMIT: nat := 256

  datatype Layout = Layout(packetSize: nat, syncOffset: nat)
  {
    /** Plain, source-packet and Reed-Solomon framings. */
    predicate Known() {
      this in {Layout(188, 0), Layout(192, 4), Layout(204, 0)}
    }

    function Window(chunk: seq<Byte>): seq<Byte>
      requires Known() && |chunk| == packetSize
    {
      chunk[syncOffset..syncOffset + TS_PACKET_LEN]
    }
  }

  /** `confirmed`: the packet came from a resync that saw the next packet's sync byte too. */
  datatype Outcome = Packet(bytes: seq<Byte>, confirmed: bool) | End | Failed

  /** What the bytes behind a candidate packet say about it. */
  datatype Verdict = HitEnd | Confirmed | Coincidence

  /** Look for the grid from a chunk boundary, at most `tries` chunks on; what is left goes second. */
  function ResyncFrom(l: Layout, s: seq<Byte>, tries: nat): (Outcome, seq<Byte>)
    requires l.Known()
    decreases tries
  {
    if tries == 0 then (Failed, s)
    else if |s| < l.packetSize then (Failed, [])
    else
      var chunk, t := s[..l.packetSize], s[l.packetSize..];
      if chunk[l.syncOffset] != SYNC then ResyncFrom(l, t, tries - 1)
      else if |t| < l.syncOffset + 1 then (Packet(l.Window(chunk), false), [])
      else if t[l.syncOffset] == SYNC then (Packet(l.Window(chunk), true), t)
      else ResyncFrom(l, t[l.syncOffset + 1..], tries - 1)
  }

  function ReadOne(l: Layout, s: seq<Byte>): (Outcome, seq<Byte>)
    requires l.Known()
  {
    if s == [] then (End, [])
    else if |s| < l.packetSize then (Failed, [])
    else if s[l.syncOffset] != SYNC then ResyncFrom(l, s[l.packetSize..], RESYNC_PACKET_LIMIT)
    else (Packet(l.Window(s[..l.packetSize]), false), s[l.packetSize..])
  }

  class Reader {
    const data: seq<Byte>
    var pos: nat
    var putback: seq<Byte>

    ghost predicate Valid()
      reads this
    {
      pos <= |data|
    }

    /** The bytes the next reads will see. */
    ghost function Stream(): seq<Byte>
      requires Valid()
      reads this
    {
      putback + data[pos..]
    }

    constructor (input: seq<Byte>)
      ensures Valid() && Stream() == input && putback == []
    {
      data, pos, putback := input, 0, [];
    }

    /** One read call: some non-empty prefix of what is left, however short, or nothing at the end. */
    method Read(max: nat) returns (chunk: seq<Byte>)
      requires Valid() && max > 0
      modifies this`pos
      ensures Valid() && old(pos) <= pos
      ensures |chunk| <= max && chunk == data[old(pos)..pos]
      ensures chunk == [] <==> old(pos) == |data|
    {
      if pos == |data| {
        return [];
      }
      var n: nat :| 1 <= n <= max && pos + n <= |data|;
      chunk := data[pos..pos + n];
      pos := pos + n;
    }

    /** Keep reading until `want` bytes have come or the input ends. */
    method Fill(want: nat) returns (buf: seq<Byte>)
      requires Valid()
      modifies this`pos
      ensures Valid()
      ensures var have := |data| - old(pos);
              var n := if want < have then want else have;
              pos == old(pos) + n && buf == data[old(pos)..pos]
    {
      buf := [];
      while |buf| < want
        invariant Valid() && old(pos) <= pos && |buf| <= want
        invariant buf == data[old(pos)..pos]
        decreases want - |buf|
      {
        var chunk := Read(want - |buf|);
        if chunk == [] {
          return;
        }
        buf := buf + chunk;
      }
    }

    method ReadOnePacket(l: Layout) returns (r: Outcome)
      requires Valid() && l.Known() && |putback| <= l.packetSize
      modifies this
      ensures Valid()
      ensures (r, Stream()) == ReadOne(l, old(Stream()))
      ensures |putback| == if r.Packet? && r.confirmed then l.syncOffset + 1 else 0
    {
      ghost var s := Stream();
      var buf: seq<Byte> := [];
      while |buf| < l.packetSize && putback != []
        invariant Valid() && pos == old(pos)
        invariant buf + putback == old(putback)
        decreases |putback|
      {
        assert putback == [putback[0]] + putback[1..];
        assert buf + putback == (buf + [putback[0]]) + putback[1..];
        buf := buf + [putback[0]];
        putback := putback[1..];
      }
      assert putback == [] && buf == old(putback);
      ghost var here := pos;
      assert s == buf + data[here..];
      var more := Fill(l.packetSize - |buf|);
      assert data[here..] == more + data[pos..];
      assert buf + (more + data[pos..]) == (buf + more) + data[pos..];
      buf := buf + more;
      if |buf| < l.packetSize {
        assert data[pos..] == [] && Stream() == [];
        assert s == buf;
        return if |buf| == 0 then End else Failed;
      }
      ReadStep(l, buf, data[pos..]);
      assert Stream() == data[pos..];
      if buf[l.syncOffset] != SYNC {
        r := Resync(l);
        return;
      }
      r := Packet(l.Window(buf), false);
    }

    /** Read up to the next packet's sync byte, and put the probe back when it is one. */
    method Probe(l: Layout) returns (v: Verdict)
      requires Valid() && l.Known() && putback == []
      modifies this
      ensures Valid()
      ensures var t := data[old(pos)..];
              if |t| < l.syncOffset + 1 then v == HitEnd && putback == [] && Stream() == []
              else if t[l.syncOffset] == SYNC then
                v == Confirmed && |putback| == l.syncOffset + 1 && Stream() == t
              else v == Coincidence && putback == [] && Stream() == t[l.syncOffset + 1..]
    {
      var probeLen := l.syncOffset + 1;
      ghost var t := data[pos..];
      var probe := Fill(probeLen);
      assert t == probe + data[pos..];
      if |probe| < probeLen {
        v := HitEnd;
      } else if probe[probeLen - 1] == SYNC {
        putback := probe;
        v := Confirmed;
      } else {
        v := Coincidence;
      }
    }

    method Resync(l: Layout) returns (r: Outcome)
      requires Valid() && l.Known() && putback == []
      modifies this
      ensures Valid()
      ensures (r, Stream()) == ResyncFrom(l, old(Stream()), RESYNC_PACKET_LIMIT)
      ensures |putback| == if r.Packet? && r.confirmed then l.syncOffset + 1 else 0
    {
      hide ResyncFrom;
      for tried := 0 to RESYNC_PACKET_LIMIT
        invariant Valid() && putback == []
        invariant ResyncFrom(l, old(Stream()), RESYNC_PACKET_LIMIT)
               == ResyncFrom(l, Stream(), RESYNC_PACKET_LIMIT - tried)
      {
        ghost var s := Stream();
        var buf := Fill(l.packetSize);
        assert s == buf + Stream();
        if |buf| < l.packetSize {
          assert Stream() == [];
          ResyncStarved(l, s, RESYNC_PACKET_LIMIT - tried);
          return Failed;
        }
        ResyncStep(l, buf, Stream(), RESYNC_PACKET_LIMIT - tried);
        if buf[l.syncOffset] == SYNC {
          assert Stream() == data[pos..];
          var v := Probe(l);
          if v != Coincidence {
            return Packet(l.Window(buf), v == Confirmed);
          }
        }
      }
      ResyncExhausted(l, Stream());
      r := Failed;
    }
  }

  lemma ReadStep(l: Layout, chunk: seq<Byte>, t: seq<Byte>)
    requires l.Known() && |chunk| == l.packetSize
    ensures ReadOne(l, chunk + t) ==
            if chunk[l.syncOffset] != SYNC then ResyncFrom(l, t, RESYNC_PACKET_LIMIT)
            else (Packet(l.Window(chunk), false), t)
  {
    assert (chunk + t)[..l.packetSize] == chunk && (chunk + t)[l.packetSize..] == t;
  }

  lemma ResyncExhausted(l: Layout, s: seq<Byte>)
    requires l.Known()
    ensures ResyncFrom(l, s, 0) == (Failed, s)
  {
  }

  lemma ResyncStarved(l: Layout, s: seq<Byte>, tries: nat)
    requires l.Known() && |s| < l.packetSize && tries > 0
    ensures ResyncFrom(l, s, tries) == (Failed, [])
  {
  }

  /** What one chunk decides. */
  lemma ResyncStep(l: Layout, chunk: seq<Byte>, t: seq<Byte>, tries: nat)
    requires l.Known() && |chunk| == l.packetSize && tries > 0
    ensures ResyncFrom(l, chunk + t, tries) ==
            if chunk[l.syncOffset] != SYNC then ResyncFrom(l, t, tries - 1)
            else if |t| < l.syncOffset + 1 then (Packet(l.Window(chunk), false), [])
            else if t[l.syncOffset] == SYNC then (Packet(l.Window(chunk), true), t)
            else ResyncFrom(l, t[l.syncOffset + 1..], tries - 1)
  {
    assert (chunk + t)[..l.packetSize] == chunk && (chunk + t)[l.packetSize..] == t;
  }

  // ---- Exactness over a whole stream ----

  datatype Unit = Clean(bytes: seq<Byte>) | Garbage(bytes: seq<Byte>)
  {
    ghost predicate WellFormed(l: Layout)
      requires l.Known()
    {
      |bytes| == l.packetSize && (Clean? <==> bytes[l.syncOffset] == SYNC)
    }
  }

  ghost predicate AllWellFormed(l: Layout, us: seq<Unit>)
    requires l.Known()
  {
    forall i | 0 <= i < |us| :: us[i].WellFormed(l)
  }

  function Join(us: seq<Unit>): seq<Byte> {
    if us == [] then [] else us[0].bytes + Join(us[1..])
  }

  function GarbageRun(us: seq<Unit>): (n: nat)
    ensures n <= |us|
    ensures n < |us| ==> us[n].Clean?
    ensures forall i | 0 <= i < n :: us[i].Garbage?
  {
    if us == [] || us[0].Clean? then 0 else 1 + GarbageRun(us[1..])
  }

  /** Every garbage run is short enough, and followed by two clean packets or by one that ends the file. */
  ghost predicate Recoverable(us: seq<Unit>)
    decreases |us|
  {
    us != [] ==>
      if us[0].Clean? then Recoverable(us[1..])
      else
        var n := GarbageRun(us);
        && 0 < n <= RESYNC_PACKET_LIMIT && n < |us|
        && (n + 1 < |us| ==> us[n + 1].Clean?)
        && Recoverable(us[n..])
  }

  function CleanWindows(l: Layout, us: seq<Unit>): seq<seq<Byte>>
    requires l.Known() && forall i | 0 <= i < |us| :: |us[i].bytes| == l.packetSize
  {
    if us == [] then []
    else (if us[0].Clean? then [l.Window(us[0].bytes)] else []) + CleanWindows(l, us[1..])
  }

  /** Reads repeated until one does not return a packet. */
  function ReadAll(l: Layout, s: seq<Byte>, fuel: nat): (seq<seq<Byte>>, Outcome)
    requires l.Known()
    decreases fuel
  {
    var (r, rest) := ReadOne(l, s);
    if !r.Packet? || fuel == 0 then ([], r)
    else
      var (more, last) := ReadAll(l, rest, fuel - 1);
      ([r.bytes] + more, last)
  }

  lemma JoinHead(l: Layout, us: seq<Unit>)
    requires l.Known() && us != [] && AllWellFormed(l, us)
    ensures Join(us) != [] && |Join(us)| >= l.packetSize
    ensures Join(us)[..l.packetSize] == us[0].bytes
    ensures Join(us)[l.syncOffset] == us[0].bytes[l.syncOffset]
    ensures Join(us)[l.packetSize..] == Join(us[1..])
    ensures Join(us) == us[0].bytes + Join(us[1..])
    ensures AllWellFormed(l, us[1..]) && us[0].WellFormed(l)
  {
    assert us[0].WellFormed(l);
  }

  /** From a chunk boundary inside a garbage run, resync lands on the clean packet behind it. */
  lemma {:induction false} ResyncSkips(l: Layout, us: seq<Unit>, tries: nat)
    requires l.Known() && AllWellFormed(l, us)
    requires var n := GarbageRun(us);
             n < |us| && (n + 1 < |us| ==> us[n + 1].Clean?)
    ensures var n := GarbageRun(us);
            ResyncFrom(l, Join(us), tries) ==
            if n < tries then (Packet(l.Window(us[n].bytes), n + 1 < |us|), Join(us[n + 1..]))
            else (Failed, Join(us[tries..]))
    decreases tries
  {
    hide ResyncFrom, Join, AllWellFormed;
    var n := GarbageRun(us);
    JoinHead(l, us);
    if tries == 0 {
      ResyncExhausted(l, Join(us));
      assert us[0..] == us;
    } else {
      ResyncStep(l, us[0].bytes, Join(us[1..]), tries);
      assert Join(us) == us[0].bytes + Join(us[1..]);
      if us[0].Garbage? {
        ResyncSkips(l, us[1..], tries - 1);
        assert us[1..][n..] == us[n + 1..];
        assert n >= tries ==> us[1..][tries - 1..] == us[tries..];
        assert us[1..][n - 1] == us[n];
      } else if |us| > 1 {
        JoinHead(l, us[1..]);
      } else {
        assert us[1..] == [];
        JoinNothing();
      }
    }
  }

  lemma JoinNothing()
    ensures Join([]) == []
  {
  }

  lemma {:induction false} WindowsSkipGarbage(l: Layout, us: seq<Unit>)
    requires l.Known() && AllWellFormed(l, us)
    ensures var n := GarbageRun(us);
            && AllWellFormed(l, us[n..])
            && CleanWindows(l, us) == CleanWindows(l, us[n..])
  {
    if us != [] && us[0].Garbage? {
      WindowsSkipGarbage(l, us[1..]);
      assert us[1..][GarbageRun(us[1..])..] == us[GarbageRun(us)..];
    } else {
      assert us[0..] == us;
    }
  }

  /** The next read returns the next clean packet and leaves the stream just behind it. */
  lemma NextClean(l: Layout, us: seq<Unit>)
    requires l.Known() && AllWellFormed(l, us) && Recoverable(us) && us != []
    ensures var n := GarbageRun(us);
            && n < |us|
            && ReadOne(l, Join(us)) == (Packet(l.Window(us[n].bytes), n > 0 && n + 1 < |us|), Join(us[n + 1..]))
            && Recoverable(us[n + 1..])
            && AllWellFormed(l, us[n + 1..])
            && (forall i | 0 <= i < |us| :: |us[i].bytes| == l.packetSize)
  {
    JoinHead(l, us);
    var n := GarbageRun(us);
    if us[0].Garbage? {
      assert us[1..][n - 1] == us[n];
      ResyncSkips(l, us[1..], RESYNC_PACKET_LIMIT);
      assert us[1..][n..] == us[n + 1..];
      assert us[n..][0] == us[n];
      assert us[n..][1..] == us[n + 1..];
    }
  }

  lemma AtEnd(l: Layout)
    requires l.Known()
    ensures ReadOne(l, []) == (End, [])
  {
  }

  /** Repeated reads return exactly the clean packets, in order, and then the end of the stream. */
  lemma {:induction false} ResyncExact(l: Layout, us: seq<Unit>, fuel: nat)
    requires l.Known() && AllWellFormed(l, us) && Recoverable(us) && fuel >= |us|
    ensures ReadAll(l, Join(us), fuel) == (CleanWindows(l, us), End)
    decreases |us|
  {
    hide ReadOne, Recoverable, AllWellFormed;
    if us == [] {
      AtEnd(l);
    } else {
      NextClean(l, us);
      WindowsSkipGarbage(l, us);
      var n := GarbageRun(us);
      assert us[n..][0] == us[n] && us[n..][1..] == us[n + 1..];
      ResyncExact(l, us[n + 1..], fuel - 1);
    }
  }

  /** The ceiling: a run before two clean packets is crossed exactly when it has at most 256 packets. */
  lemma ResyncCeiling(l: Layout, us: seq<Unit>)
    requires l.Known() && AllWellFormed(l, us)
    requires var n := GarbageRun(us);
             0 < n && n + 1 < |us| && us[n + 1].Clean?
    ensures var n := GarbageRun(us);
            var r := ReadOne(l, Join(us)).0;
            if n <= RESYNC_PACKET_LIMIT then r == Packet(l.Window(us[n].bytes), true) else r == Failed
  {
    JoinHead(l, us);
    var n := GarbageRun(us);
    assert us[1..][n - 1] == us[n] && us[1..][n] == us[n + 1];
    ResyncSkips(l, us[1..], RESYNC_PACKET_LIMIT);
  }
}
