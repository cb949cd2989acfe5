/** A clean stream of whole frames, cut into payloads anywhere. */
module AudioFeed {
  import opened AudioHeaders
  import opened Bytes
  import opened Wrappers

  datatype Payload = Payload(bytes: seq<Byte>, pts: Option<int>)

  function Concat(frames: seq<seq<Byte>>): seq<Byte> {
    if frames == [] then [] else Concat(frames[..|frames| - 1]) + frames[|frames| - 1]
  }

  function PayloadBytes(payloads: seq<Payload>): seq<Byte> {
    if payloads == [] then [] else PayloadBytes(payloads[..|payloads| - 1]) + payloads[|payloads| - 1].bytes
  }

  datatype Feed = Feed(syn: Syntax, frames: seq<seq<Byte>>, payloads: seq<Payload>)
  {
    function Info(j: nat): Option<FrameInfo>
      requires j < |frames|
    {
      syn.Parse(frames[j])
    }

    ghost predicate CleanFrame(j: nat)
      requires j < |frames|
    {
      && |frames[j]| >= syn.HeaderLen()
      && Info(j).Some? && Info(j).value.frameLen == |frames[j]|
    }

    /** Samples in frame `j`, as its header says. */
    function Samples(j: nat): nat
      requires j < |frames|
    {
      if Info(j).Some? then Info(j).value.samplesPerFrame else 0
    }

    /** Sampling rate of frame `j`. */
    function Rate(j: nat): nat
      requires j < |frames|
    {
      if Info(j).Some? then Info(j).value.sampleRate else 0
    }

    /** Whole frames, of any lengths and geometries; the payloads cut a prefix of them; the first payload parses. */
    ghost predicate Clean() {
      && (forall j | 0 <= j < |frames| :: CleanFrame(j))
      && PayloadBytes(payloads) <= Concat(frames)
      && payloads != [] && syn.Parse(payloads[0].bytes).Some?
    }

    /** Where frame `j` starts in the stream. */
    function Start(j: nat): nat
      requires j <= |frames|
    {
      |Concat(frames[..j])|
    }

    /** Bytes in the first `m` payloads. */
    function Total(m: nat): nat
      requires m <= |payloads|
    {
      |PayloadBytes(payloads[..m])|
    }

    /** The first `n` bytes hold exactly `k` whole frames. */
    ghost predicate Completes(k: nat, n: nat) {
      k <= |frames| && Start(k) <= n && (k < |frames| ==> n < Start(k + 1))
    }

    /** The payload holding the byte at `off`, searched from the `m`-th on. */
    function PayloadFrom(off: nat, m: nat): (r: nat)
      requires m <= |payloads| && Total(m) <= off < Total(|payloads|)
      ensures r < |payloads| && Total(r) <= off < Total(r + 1)
      decreases |payloads| - m
    {
      if off < Total(m + 1) then m else PayloadFrom(off, m + 1)
    }

    /** The payload in which frame `j` commences. */
    function PayloadOf(j: nat): (r: nat)
      requires j < |frames| && Start(j) < Total(|payloads|)
      ensures r < |payloads| && Total(r) <= Start(j) < Total(r + 1)
    {
      PayloadFrom(Start(j), 0)
    }

    /** The PES PTS that falls to frame `j`: its payload's, if it is the first to commence there. */
    function PtsFor(j: nat): Option<int>
      requires j < |frames| && Start(j) < Total(|payloads|)
    {
      var m := PayloadOf(j);
      if j == 0 || Start(j - 1) < Total(m) then payloads[m].pts else None
    }

    /** Enough of frame `j` lies in the payload where it commences to parse its header there. */
    predicate HeaderInView(j: nat)
      requires j < |frames| && Start(j) < Total(|payloads|)
    {
      Total(PayloadOf(j) + 1) - Start(j) >= syn.HeaderLen()
    }
  }

  lemma ConcatSnoc(frames: seq<seq<Byte>>, j: nat)
    requires j < |frames|
    ensures Concat(frames[..j + 1]) == Concat(frames[..j]) + frames[j]
  {
    assert frames[..j + 1][..j] == frames[..j];
  }

  lemma PayloadSnoc(payloads: seq<Payload>, m: nat)
    requires m < |payloads|
    ensures PayloadBytes(payloads[..m + 1]) == PayloadBytes(payloads[..m]) + payloads[m].bytes
  {
    assert payloads[..m + 1][..m] == payloads[..m];
  }

  lemma {:induction false} ConcatPrefix(frames: seq<seq<Byte>>, i: nat, j: nat)
    requires i <= j <= |frames|
    ensures Concat(frames[..i]) <= Concat(frames[..j])
    decreases j - i
  {
    if i < j {
      ConcatPrefix(frames, i, j - 1);
      ConcatSnoc(frames, j - 1);
    }
  }

  lemma {:induction false} PayloadPrefix(payloads: seq<Payload>, i: nat, j: nat)
    requires i <= j <= |payloads|
    ensures PayloadBytes(payloads[..i]) <= PayloadBytes(payloads[..j])
    decreases j - i
  {
    if i < j {
      PayloadPrefix(payloads, i, j - 1);
      PayloadSnoc(payloads, j - 1);
    }
  }

  /** Frame `j` occupies its place in the stream. */
  lemma FrameSlice(f: Feed, j: nat)
    requires j < |f.frames|
    ensures f.Start(j) + |f.frames[j]| == f.Start(j + 1) <= |Concat(f.frames)|
    ensures Concat(f.frames)[f.Start(j)..f.Start(j + 1)] == f.frames[j]
  {
    ConcatSnoc(f.frames, j);
    ConcatPrefix(f.frames, j + 1, |f.frames|);
    assert f.frames[..|f.frames|] == f.frames;
  }

  lemma PayloadSlice(f: Feed, m: nat)
    requires f.Clean() && m < |f.payloads|
    ensures f.Total(m) + |f.payloads[m].bytes| == f.Total(m + 1) <= |Concat(f.frames)|
    ensures Concat(f.frames)[f.Total(m)..f.Total(m + 1)] == f.payloads[m].bytes
    ensures f.Total(m + 1) <= f.Total(|f.payloads|)
  {
    PayloadSnoc(f.payloads, m);
    PayloadPrefix(f.payloads, m + 1, |f.payloads|);
    assert f.payloads[..|f.payloads|] == f.payloads;
  }

  lemma StartMonotone(f: Feed, i: nat, j: nat)
    requires i <= j <= |f.frames|
    ensures f.Start(i) <= f.Start(j)
    ensures (forall k | 0 <= k < |f.frames| :: |f.frames[k]| > 0) && i < j ==> f.Start(i) < f.Start(j)
  {
    ConcatPrefix(f.frames, i, j);
    if i < j {
      FrameSlice(f, i);
      ConcatPrefix(f.frames, i + 1, j);
    }
  }

  lemma TotalMonotone(f: Feed, i: nat, j: nat)
    requires i <= j <= |f.payloads|
    ensures f.Total(i) <= f.Total(j)
  {
    PayloadPrefix(f.payloads, i, j);
  }

  lemma PayloadIs(f: Feed, j: nat, m: nat)
    requires j < |f.frames| && m < |f.payloads| && f.Total(m) <= f.Start(j) < f.Total(m + 1)
    ensures f.Start(j) < f.Total(|f.payloads|) && f.PayloadOf(j) == m
  {
    TotalMonotone(f, m + 1, |f.payloads|);
    var r := f.PayloadOf(j);
    if r < m {
      TotalMonotone(f, r + 1, m);
    } else if m < r {
      TotalMonotone(f, m + 1, r);
    }
  }
}
