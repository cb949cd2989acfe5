/** A transport stream as what the demuxer sees at each position of the packet grid. */
module StreamGrid {
  import opened Arithmetic
  import opened Timestamps
  import opened Wrappers

  /** A raw 33-bit 90 kHz time. */
  type Ring = n: nat | n < TIMESTAMP_MODULUS witness 0

  /** The payload of a packet that starts a PES: its header, unless that does not parse. */
  datatype PesStart = Unparsable | Pes(pts: Option<Ring>, aligned: bool)

  /** One packet: what the demuxer reads off it, or one that does not parse. */
  datatype Event = Corrupt | Event(pid: nat, pcr: Option<Ring>, rai: bool, start: Option<PesStart>)

  /** The file: whole packets of one physical size and a shorter tail; the selected program's PIDs. */
  datatype Stream = Stream(events: seq<Event>, packetSize: nat, tail: nat, pcrPid: nat, streamOf: map<nat, nat>)
  {
    /** A known packet size; distinct PIDs carry distinct streams. */
    ghost predicate Valid() {
      && packetSize in {188, 192, 204} && tail < packetSize
      && forall p, q | p in streamOf && q in streamOf && streamOf[p] == streamOf[q] :: p == q
    }

    /** Byte offset of packet `i`. */
    function At(i: nat): nat {
      i * packetSize
    }

    function Length(): nat {
      At(|events|) + tail
    }

    function PcrAt(i: nat): Option<Ring>
      requires i < |events|
    {
      if events[i].Event? && events[i].pid == pcrPid then events[i].pcr else None
    }
  }

  // ---- Byte offsets on the grid ----

  lemma Offsets(s: Stream, i: nat, j: nat)
    requires s.Valid()
    ensures s.At(i) < s.At(j) <==> i < j
    ensures s.At(i) == s.At(j) <==> i == j
    ensures s.At(i + 1) == s.At(i) + s.packetSize
  {
    if i < j {
      assert s.At(j) == s.At(i) + (j - i) * s.packetSize;
    } else if j < i {
      assert s.At(i) == s.At(j) + (i - j) * s.packetSize;
    }
  }

  lemma PacketOf(s: Stream, i: nat)
    requires s.Valid()
    ensures s.At(i) / s.packetSize == i
  {
  }

  /** A packet is whole exactly when its end lies within the file. */
  lemma WholePacket(s: Stream, i: nat)
    requires s.Valid()
    ensures s.At(i) + s.packetSize <= s.Length() <==> i < |s.events|
  {
    Offsets(s, i, |s.events|);
    Offsets(s, |s.events|, i);
    if i < |s.events| {
      assert s.At(|s.events|) == s.At(i) + (|s.events| - i) * s.packetSize;
    }
  }

  /** Halving a byte range and rounding down to the grid halves the packet range. */
  lemma Midpoint(s: Stream, a: nat, b: nat)
    requires s.Valid() && a <= b
    ensures s.At(a) <= s.At(b)
    ensures (s.At(a) + (s.At(b) - s.At(a)) / 2) / s.packetSize * s.packetSize == s.At(a + (b - a) / 2)
    ensures s.At(b) - s.At(a) > s.packetSize <==> b - a > 1
  {
    Offsets(s, a, b);
    Offsets(s, b, a);
    Offsets(s, a + 1, b);
    HalfOnGrid(a, b - a, s.packetSize);
    Span(s, a, b);
  }

  lemma Span(s: Stream, a: nat, b: nat)
    requires a <= b
    ensures s.At(b) - s.At(a) == (b - a) * s.packetSize
  {
  }

  lemma HalfOnGrid(a: nat, d: nat, p: nat)
    requires p > 0
    ensures (a * p + d * p / 2) / p * p == (a + d / 2) * p
  {
    var h, e := d / 2, d % 2;
    Halves(d, h, e, p);
    QuotientIs(a * p + d * p / 2, p, a + h, if e == 0 then 0 else p / 2);
  }

  lemma Halves(d: nat, h: nat, e: nat, p: nat)
    requires d == 2 * h + e && e < 2
    ensures d * p / 2 == h * p + (if e == 0 then 0 else p / 2)
  {
    assert d * p == 2 * (h * p) + e * p;
  }

  /** The whole packets of the file, by its length in bytes. */
  lemma AlignedLength(s: Stream)
    requires s.Valid()
    ensures s.Length() / s.packetSize * s.packetSize == s.At(|s.events|)
    ensures s.Length() < 2 * s.packetSize <==> |s.events| < 2
  {
  }
}
