/** Opening a stream: the packets read up to the PMT, and where streaming goes on behind them. */
module HeaderScan {
  import opened Bytes
  import opened PacketReader
  import opened Wrappers

  /** Behind the scan: the bytes not read yet, and how many of them are held as put-back. */
  datatype Behind = Behind(rest: seq<Byte>, held: nat)

  /** The first `n` packets of a stream, unless reading ends or fails before. */
  function Scanned(l: Layout, s: seq<Byte>, n: nat): Option<Behind>
    requires l.Known()
    decreases n
  {
    if n == 0 then Some(Behind(s, 0))
    else
      var (r, t) := ReadOne(l, s);
      if !r.Packet? then None
      else if n == 1 then Some(Behind(t, if r.confirmed then l.syncOffset + 1 else 0))
      else Scanned(l, t, n - 1)
  }

  /** The put-back bytes stay in front, and the input is sought to the byte count of the packets returned. */
  function Reopened(l: Layout, s: seq<Byte>, n: nat, b: Behind): seq<Byte>
    requires l.Known() && b.held <= |b.rest| && n * l.packetSize <= |s|
  {
    b.rest[..b.held] + s[n * l.packetSize..]
  }

  /** The first `n` packets stand in their places on the grid from the start: no read had to resync. */
  predicate Straight(l: Layout, s: seq<Byte>, n: nat)
    requires l.Known()
    decreases n
  {
    n > 0 ==> |s| >= l.packetSize && s[l.syncOffset] == SYNC && Straight(l, s[l.packetSize..], n - 1)
  }

  // ---- What a read takes ----

  lemma {:induction false} ResyncTakes(l: Layout, s: seq<Byte>, tries: nat)
    requires l.Known() && ResyncFrom(l, s, tries).0.Packet?
    ensures var (r, t) := ResyncFrom(l, s, tries);
            |t| + l.packetSize <= |s| && (r.confirmed ==> |t| >= l.syncOffset + 1)
    decreases tries
  {
    if tries > 0 && |s| >= l.packetSize {
      var t := s[l.packetSize..];
      if s[..l.packetSize][l.syncOffset] != SYNC {
        ResyncTakes(l, t, tries - 1);
      } else if |t| >= l.syncOffset + 1 && t[l.syncOffset] != SYNC {
        ResyncTakes(l, t[l.syncOffset + 1..], tries - 1);
      }
    }
  }

  /** A read takes one packet from the grid, or by resync at least two packets' bytes. */
  lemma ReadTakes(l: Layout, s: seq<Byte>)
    requires l.Known() && ReadOne(l, s).0.Packet?
    ensures |s| >= l.packetSize
    ensures var (r, t) := ReadOne(l, s);
            && (r.confirmed ==> |t| >= l.syncOffset + 1)
            && if s[l.syncOffset] == SYNC then t == s[l.packetSize..] && !r.confirmed
               else |t| + 2 * l.packetSize <= |s|
  {
    hide ResyncFrom;
    if s[l.syncOffset] != SYNC {
      ResyncTakes(l, s[l.packetSize..], RESYNC_PACKET_LIMIT);
    }
  }

  lemma ScannedStep(l: Layout, s: seq<Byte>, n: nat)
    requires l.Known() && n > 0 && Scanned(l, s, n).Some?
    ensures var (r, t) := ReadOne(l, s);
            && r.Packet? && Scanned(l, t, n - 1).Some?
            && (n > 1 ==> Scanned(l, s, n) == Scanned(l, t, n - 1))
            && (n == 1 ==> Scanned(l, s, n) == Some(Behind(t, if r.confirmed then l.syncOffset + 1 else 0)))
  {
    hide ReadOne;
  }

  lemma StraightStep(l: Layout, s: seq<Byte>, n: nat)
    requires l.Known() && n > 0 && |s| >= l.packetSize
    ensures Straight(l, s, n) <==> s[l.syncOffset] == SYNC && Straight(l, s[l.packetSize..], n - 1)
  {
  }

  /** The scan leaves what lies behind `n` packets exactly if it is straight, and less otherwise. */
  lemma {:induction false} ScanTakes(l: Layout, s: seq<Byte>, n: nat)
    requires l.Known() && Scanned(l, s, n).Some?
    ensures var b := Scanned(l, s, n).value;
            && b.held <= |b.rest| && |b.rest| + n * l.packetSize <= |s|
            && if Straight(l, s, n) then b == Behind(s[n * l.packetSize..], 0)
               else |b.rest| + (n + 1) * l.packetSize <= |s|
    decreases n
  {
    hide ReadOne, Scanned, Straight, SYNC;
    if n == 0 {
      NothingScanned(l, s);
    } else {
      ScannedStep(l, s, n);
      ReadTakes(l, s);
      StraightStep(l, s, n);
      var t := ReadOne(l, s).1;
      ScanTakes(l, t, n - 1);
      Packets(n - 1, l.packetSize);
      if n == 1 {
        NothingScanned(l, t);
      }
      if s[l.syncOffset] == SYNC {
        Beyond(s, l.packetSize, (n - 1) * l.packetSize);
      }
    }
  }

  lemma NothingScanned(l: Layout, s: seq<Byte>)
    requires l.Known()
    ensures Scanned(l, s, 0) == Some(Behind(s, 0)) && Straight(l, s, 0) && s[0..] == s
  {
  }

  lemma Packets(n: nat, p: nat)
    ensures (n + 1) * p == n * p + p && (n + 2) * p == n * p + 2 * p
  {
  }

  lemma Beyond<T>(s: seq<T>, a: nat, b: nat)
    requires a <= |s|
    ensures a + b <= |s| ==> s[a..][b..] == s[a + b..]
  {
  }

  /**
   * Streaming goes on with the bytes behind the header scan exactly when no read of the scan had to resync.
   * After a resync the byte count lies short of the input, and earlier packets are read again.
   */
  lemma ResumesExactly(l: Layout, s: seq<Byte>, n: nat)
    requires l.Known() && Scanned(l, s, n).Some?
    ensures var b := Scanned(l, s, n).value;
            && b.held <= |b.rest| && n * l.packetSize <= |s|
            && (Reopened(l, s, n, b) == b.rest <==> Straight(l, s, n))
            && (!Straight(l, s, n) ==> |Reopened(l, s, n, b)| >= b.held + |b.rest| + l.packetSize)
  {
    hide Scanned, Straight;
    ScanTakes(l, s, n);
    Packets(n, l.packetSize);
  }

  // ---- A stream that is read again ----

  const PLAIN: Layout := Layout(188, 0)

  function CleanPacket(): seq<Byte> {
    [SYNC] + Zeros(187)
  }

  /** One packet of zeros before two clean ones. */
  function GarbageFirst(): seq<Byte> {
    Zeros(188) + (CleanPacket() + CleanPacket())
  }

  lemma GarbageSkipped()
    ensures ReadOne(PLAIN, GarbageFirst()) == (Packet(CleanPacket(), true), CleanPacket())
  {
    hide ResyncFrom;
    var (c, t) := (CleanPacket(), CleanPacket() + CleanPacket());
    ReadStep(PLAIN, Zeros(188), t);
    assert PLAIN.Window(c) == c;
    ResyncStep(PLAIN, c, c, RESYNC_PACKET_LIMIT);
  }

  /** A scan of one packet leaves one clean packet unread; the opened stream holds a stray byte, then two packets. */
  lemma ReadsAgain()
    ensures var (s, c) := (GarbageFirst(), CleanPacket());
            && Scanned(PLAIN, s, 1) == Some(Behind(c, 1)) && 188 <= |s|
            && Reopened(PLAIN, s, 1, Behind(c, 1)) == [SYNC] + (c + c) != c
  {
    hide ReadOne;
    GarbageSkipped();
    var (s, c) := (GarbageFirst(), CleanPacket());
    assert s[188..] == c + c;
    assert c[..1] == [SYNC];
    assert |Reopened(PLAIN, s, 1, Behind(c, 1))| == 377;
  }
}
