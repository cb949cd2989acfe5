/** Byte-stream framing of H.264 NAL units: start codes and emulation prevention. */
module AnnexB {
  import opened Bytes

  predicate StartCodeAt(es: seq<Byte>, i: nat) {
    i + 3 <= |es| && es[i] == 0 && es[i + 1] == 0 && es[i + 2] == 1
  }

  /** Positions just past each start code found scanning from `i`. */
  function Starts(es: seq<Byte>, i: nat): seq<nat>
    decreases |es| - i
  {
    if i + 3 > |es| then []
    else if StartCodeAt(es, i) then [i + 3] + Starts(es, i + 3)
    else Starts(es, i + 1)
  }

  /** Ascending, at least a start code apart, inside the stream. */
  predicate Spaced(starts: seq<nat>, from: nat, to: nat) {
    && (forall k | 0 <= k < |starts| :: from + 3 <= starts[k] <= to)
    && forall k | 0 < k < |starts| :: starts[k - 1] + 3 <= starts[k]
  }

  lemma {:induction false} StartsSpaced(es: seq<Byte>, i: nat)
    ensures Spaced(Starts(es, i), i, |es|)
    decreases |es| - i
  {
    if i + 3 <= |es| {
      if StartCodeAt(es, i) {
        StartsSpaced(es, i + 3);
      } else {
        StartsSpaced(es, i + 1);
      }
    }
  }

  function Units(es: seq<Byte>, starts: seq<nat>): (r: seq<seq<Byte>>)
    requires Spaced(starts, 0, |es|)
    ensures |r| == |starts|
  {
    seq(|starts|, k requires 0 <= k < |starts| =>
      es[starts[k]..if k + 1 < |starts| then starts[k + 1] - 3 else |es|])
  }

  method StartCodeUnits(es: seq<Byte>) returns (units: seq<seq<Byte>>)
    ensures Spaced(Starts(es, 0), 0, |es|)
    ensures units == Units(es, Starts(es, 0))
  {
    var starts: seq<nat> := [];
    var i := 0;
    while i + 3 <= |es|
      invariant starts + Starts(es, i) == Starts(es, 0)
      decreases |es| - i
    {
      if es[i] == 0 && es[i + 1] == 0 && es[i + 2] == 1 {
        assert (starts + [i + 3]) + Starts(es, i + 3) == starts + Starts(es, i);
        starts := starts + [i + 3];
        i := i + 3;
      } else {
        i := i + 1;
      }
    }
    assert starts == starts + [] == Starts(es, 0);
    StartsSpaced(es, 0);
    units := Slices(es, starts);
  }

  /** The lazy half of the iterator: the slice after each start up to the next prefix. */
  method Slices(es: seq<Byte>, starts: seq<nat>) returns (units: seq<seq<Byte>>)
    requires Spaced(starts, 0, |es|)
    ensures units == Units(es, starts)
  {
    var n := |starts|;
    units := [];
    for k := 0 to n
      invariant units == Units(es, starts)[..k]
    {
      var e := if k + 1 < n then starts[k + 1] - 3 else |es|;
      units := units + [es[starts[k]..e]];
    }
  }

  /** Drop each emulation-prevention byte; `zeros` counts the zero bytes just kept. */
  function Unescape(nal: seq<Byte>, zeros: nat): seq<Byte> {
    if nal == [] then []
    else if zeros >= 2 && nal[0] == 3 then Unescape(nal[1..], 0)
    else [nal[0]] + Unescape(nal[1..], if nal[0] == 0 then zeros + 1 else 0)
  }

  method NalToRbsp(nal: seq<Byte>) returns (out: seq<Byte>)
    ensures out == Unescape(nal, 0)
  {
    hide Unescape;
    out := [];
    var zeros := 0;
    assert nal[0..] == nal;
    for i := 0 to |nal|
      invariant out + Unescape(nal[i..], zeros) == Unescape(nal, 0)
    {
      var b := nal[i];
      assert nal[i..] == [b] + nal[i + 1..];
      UnescapeCons(b, nal[i + 1..], zeros);
      if zeros >= 2 && b == 3 {
        zeros := 0;
      } else {
        zeros := if b == 0 then zeros + 1 else 0;
        out := out + [b];
      }
    }
    assert nal[|nal|..] == [];
    UnescapeNothing(zeros);
  }

  lemma UnescapeNothing(zeros: nat)
    ensures Unescape([], zeros) == []
  {
  }

  lemma UnescapeCons(b: Byte, rest: seq<Byte>, zeros: nat)
    ensures Unescape([b] + rest, zeros) ==
            if zeros >= 2 && b == 3 then Unescape(rest, 0)
            else [b] + Unescape(rest, if b == 0 then zeros + 1 else 0)
  {
    assert ([b] + rest)[1..] == rest;
  }

  /** The inverse rule: a 3 before any byte up to 3 that follows two zeros. */
  function Escape(rbsp: seq<Byte>, zeros: nat): seq<Byte> {
    if rbsp == [] then []
    else
      var b := rbsp[0];
      if zeros >= 2 && b <= 3 then [3, b] + Escape(rbsp[1..], if b == 0 then 1 else 0)
      else [b] + Escape(rbsp[1..], if b == 0 then zeros + 1 else 0)
  }

  // ---- Escaping and unescaping undo each other ----

  lemma {:induction false} UnescapeEscape(rbsp: seq<Byte>, zeros: nat, tail: nat)
    requires zeros <= 2
    ensures Unescape(Escape(rbsp, zeros) + Zeros(tail), zeros) == rbsp + Zeros(tail)
    decreases |rbsp|
  {
    hide Unescape;
    if rbsp == [] {
      assert Escape(rbsp, zeros) + Zeros(tail) == rbsp + Zeros(tail) == Zeros(tail);
      UnescapeZeros(tail, zeros);
    } else {
      var b := rbsp[0];
      var escaped := zeros >= 2 && b <= 3;
      var after := if b != 0 then 0 else if escaped then 1 else zeros + 1;
      var rest := Escape(rbsp[1..], after) + Zeros(tail);
      UnescapeEscape(rbsp[1..], after, tail);
      if escaped {
        assert Escape(rbsp, zeros) + Zeros(tail) == [3] + ([b] + rest);
        UnescapeCons(3, [b] + rest, zeros);
        UnescapeCons(b, rest, 0);
      } else {
        assert Escape(rbsp, zeros) + Zeros(tail) == [b] + rest;
        UnescapeCons(b, rest, zeros);
      }
      assert rbsp + Zeros(tail) == [b] + (rbsp[1..] + Zeros(tail));
    }
  }

  lemma {:induction false} UnescapeZeros(n: nat, zeros: nat)
    ensures Unescape(Zeros(n), zeros) == Zeros(n)
  {
    if n > 0 {
      assert Zeros(n)[1..] == Zeros(n - 1);
      UnescapeZeros(n - 1, zeros + 1);
      assert Zeros(n) == [0] + Zeros(n - 1);
    }
  }

  /** No two zeros followed by 0, 1 or 2. */
  ghost predicate Clean(s: seq<Byte>) {
    forall q {:trigger s[q]} | 0 <= q < |s| - 2 :: s[q] == 0 && s[q + 1] == 0 ==> s[q + 2] > 2
  }

  /** The same, scanned with a count of the zeros just passed. */
  ghost predicate CleanAfter(s: seq<Byte>, zeros: nat) {
    s == [] || ((zeros >= 2 ==> s[0] > 2) && CleanAfter(s[1..], if s[0] == 0 then zeros + 1 else 0))
  }

  lemma {:induction false} CleanAfterIsClean(s: seq<Byte>, zeros: nat)
    requires CleanAfter(s, zeros)
    ensures Clean(s)
  {
    if s != [] {
      var zeros' := if s[0] == 0 then zeros + 1 else 0;
      CleanAfterIsClean(s[1..], zeros');
      if |s| >= 3 && s[0] == 0 && s[1] == 0 {
        assert CleanAfter(s[1..][1..], zeros' + 1);
      }
      forall q | 0 <= q < |s| - 2 && s[q] == 0 && s[q + 1] == 0 ensures s[q + 2] > 2 {
        if q > 0 {
          assert s[1..][q - 1] == s[q];
        }
      }
    }
  }

  lemma {:induction false} EscapeIsClean(rbsp: seq<Byte>, zeros: nat)
    ensures CleanAfter(Escape(rbsp, zeros), zeros)
  {
    if rbsp != [] {
      var b := rbsp[0];
      var e := Escape(rbsp, zeros);
      if zeros >= 2 && b <= 3 {
        var after := if b == 0 then 1 else 0;
        EscapeIsClean(rbsp[1..], after);
        assert e[1..] == [b] + Escape(rbsp[1..], after);
        assert e[1..][1..] == Escape(rbsp[1..], after);
      } else {
        EscapeIsClean(rbsp[1..], if b == 0 then zeros + 1 else 0);
      }
    }
  }

  // ---- Framing ----

  /** One NAL unit: the zero bytes before its start code, its header byte and its payload. */
  datatype Nal = Nal(leadingZeros: nat, header: Byte, rbsp: seq<Byte>)
  {
    function Bytes(): seq<Byte> { [header] + Escape(rbsp, 0) }
  }

  function Stream(nals: seq<Nal>): seq<Byte> {
    if nals == [] then []
    else Zeros(nals[0].leadingZeros) + ([0, 0, 1] + (nals[0].Bytes() + Stream(nals[1..])))
  }

  /** Where each unit starts when the stream of `nals` begins at `off`. */
  function Positions(nals: seq<Nal>, off: nat): seq<nat> {
    if nals == [] then []
    else
      var start := off + nals[0].leadingZeros + 3;
      [start] + Positions(nals[1..], start + |nals[0].Bytes()|)
  }

  lemma NalIsClean(nal: Nal)
    requires nal.header != 0
    ensures Clean(nal.Bytes())
  {
    EscapeIsClean(nal.rbsp, 0);
    assert nal.Bytes()[1..] == Escape(nal.rbsp, 0);
    CleanAfterIsClean(nal.Bytes(), 0);
  }

  lemma {:induction false} SkipQuiet(es: seq<Byte>, i: nat, j: nat)
    requires i <= j <= |es|
    requires forall q | i <= q < j :: !StartCodeAt(es, q)
    ensures Starts(es, i) == Starts(es, j)
    decreases j - i
  {
    if i < j {
      SkipQuiet(es, i + 1, j);
    }
  }

  /** What follows a unit is the end, or zeros and then a start code; never a 1 after fewer than two zeros. */
  lemma StreamHead(nals: seq<Nal>)
    ensures nals != [] ==> |Stream(nals)| >= 3 && Stream(nals)[0] == 0 && Stream(nals)[1] == 0
  {
  }

  /** Where the parts of the first unit lie when the stream begins at `off`. */
  lemma Layout(es: seq<Byte>, off: nat, nals: seq<Nal>)
    requires off <= |es| && es[off..] == Stream(nals) && nals != []
    ensures var z := nals[0].leadingZeros;
            var start := off + z + 3;
            var end := start + |nals[0].Bytes()|;
            && end <= |es|
            && (forall q | off <= q < off + z + 2 :: es[q] == 0)
            && es[off + z + 2] == 1
            && es[start..end] == nals[0].Bytes()
            && es[end..] == Stream(nals[1..])
  {
    hide Escape;
    var z := nals[0].leadingZeros;
    var body := nals[0].Bytes();
    var rest := Stream(nals[1..]);
    Split(es, off, Zeros(z), [0, 0, 1] + (body + rest));
    Split(es, off + z, [0, 0, 1], body + rest);
    Split(es, off + z + 3, body, rest);
    forall q | off <= q < off + z + 3
      ensures es[q] == if q == off + z + 2 then 1 else 0
    {
      if q < off + z {
        assert es[off..off + z][q - off] == 0;
      } else {
        assert es[off + z..off + z + 3][q - off - z] == [0, 0, 1][q - off - z];
      }
    }
  }

  lemma Split<T>(s: seq<T>, off: nat, a: seq<T>, b: seq<T>)
    requires off <= |s| && s[off..] == a + b
    ensures off + |a| <= |s|
    ensures s[off..off + |a|] == a
    ensures s[off + |a|..] == b
  {
    assert s[off..off + |a|] == s[off..][..|a|];
    assert s[off + |a|..] == s[off..][|a|..];
  }

  /** Scanning the stream from `off` finds exactly the start codes that were written. */
  lemma {:induction false} StartsOfStream(es: seq<Byte>, off: nat, nals: seq<Nal>)
    requires off <= |es| && es[off..] == Stream(nals)
    requires forall n | n in nals :: n.header != 0
    ensures Starts(es, off) == Positions(nals, off)
    decreases |nals|
  {
    hide Stream, Clean;
    if nals == [] {
      EmptyStream();
    } else {
      Layout(es, off, nals);
      var body := nals[0].Bytes();
      var start := off + nals[0].leadingZeros + 3;
      var end := start + |body|;
      SkipQuiet(es, off, start - 3);
      NalIsClean(nals[0]);
      forall q | start <= q < end ensures !StartCodeAt(es, q) {
        QuietInUnit(es, start, body, nals[1..], q);
      }
      SkipQuiet(es, start, end);
      StartsOfStream(es, end, nals[1..]);
    }
  }

  lemma EmptyStream()
    ensures Stream([]) == []
  {
  }

  lemma QuietInUnit(es: seq<Byte>, start: nat, body: seq<Byte>, rest: seq<Nal>, q: nat)
    requires start <= q < start + |body| <= |es|
    requires es[start..start + |body|] == body && Clean(body)
    requires es[start + |body|..] == Stream(rest)
    ensures !StartCodeAt(es, q)
  {
    var end := start + |body|;
    StreamHead(rest);
    assert forall k | 0 <= k < |body| :: es[start..end][k] == es[start + k];
    assert forall k | 0 <= k < |Stream(rest)| :: es[end..][k] == es[end + k];
    if q + 2 < end {
      var k := q - start;
      assert body[k] == es[q] && body[k + 1] == es[q + 1] && body[k + 2] == es[q + 2];
    } else if q + 3 <= |es| {
      assert es[q + 2] == Stream(rest)[q + 2 - end] == 0;
    }
  }

  function ZerosAfter(nals: seq<Nal>, k: nat): nat {
    if k + 1 < |nals| then nals[k + 1].leadingZeros else 0
  }

  /** The units recovered: each NAL, with the zeros that precede the next start code left on its tail. */
  function Framed(nals: seq<Nal>): seq<seq<Byte>> {
    if nals == [] then []
    else [nals[0].Bytes() + Zeros(ZerosAfter(nals, 0))] + Framed(nals[1..])
  }

  lemma {:induction false} UnitsOfStream(es: seq<Byte>, off: nat, nals: seq<Nal>, starts: seq<nat>, k: nat)
    requires off <= |es| && es[off..] == Stream(nals)
    requires Spaced(starts, 0, |es|)
    requires k <= |starts| && starts[k..] == Positions(nals, off)
    ensures Units(es, starts)[k..] == Framed(nals)
    decreases |nals|
  {
    hide Stream, Escape, Units, Spaced, StartCodeAt, Clean, CleanAfter;
    if nals == [] {
      assert Units(es, starts)[k..] == [];
    } else {
      Layout(es, off, nals);
      EmptyStream();
      var start := off + nals[0].leadingZeros + 3;
      var end := start + |nals[0].Bytes()|;
      assert starts[k..][0] == starts[k] == start;
      assert starts[k + 1..] == starts[k..][1..] == Positions(nals[1..], end);
      UnitsOfStream(es, end, nals[1..], starts, k + 1);
      var z := ZerosAfter(nals, 0);
      if |nals| > 1 {
        Layout(es, end, nals[1..]);
        assert starts[k + 1..][0] == starts[k + 1] == end + z + 3;
      }
      UnitAt(es, starts, k, end, z);
      assert Units(es, starts)[k..] == [Units(es, starts)[k]] + Units(es, starts)[k + 1..];
    }
  }

  lemma UnitAt(es: seq<Byte>, starts: seq<nat>, k: nat, end: nat, z: nat)
    requires Spaced(starts, 0, |es|) && k < |starts| && starts[k] <= end && end + z <= |es|
    requires end + z == if k + 1 < |starts| then starts[k + 1] - 3 else |es|
    requires forall q | end <= q < end + z :: es[q] == 0
    ensures Units(es, starts)[k] == es[starts[k]..end] + Zeros(z)
  {
    assert es[end..end + z] == Zeros(z);
    assert es[starts[k]..end + z] == es[starts[k]..end] + es[end..end + z];
  }

  lemma FramedLength(nals: seq<Nal>)
    ensures |Framed(nals)| == |nals|
  {
  }

  lemma {:induction false} FramedAt(nals: seq<Nal>, k: nat)
    requires k < |nals|
    ensures |Framed(nals)| == |nals|
    ensures Framed(nals)[k] == nals[k].Bytes() + Zeros(ZerosAfter(nals, k))
  {
    FramedLength(nals);
    if k > 0 {
      FramedAt(nals[1..], k - 1);
    }
  }

  /** What the header readers get from one recovered unit. */
  ghost predicate Recovers(unit: seq<Byte>, nal: Nal, zerosAfter: nat) {
    && Clean(nal.Bytes())
    && unit == nal.Bytes() + Zeros(zerosAfter)
    && Unescape(unit[1..], 0) == nal.rbsp + Zeros(zerosAfter)
  }

  /**
    Framing round trip, for 3- and 4-byte start codes alike: the escaped
    bytes hold no start code, the units come back exactly (a leading zero of
    the next start code staying on the tail), and each payload is recovered.
   */
  lemma AnnexBRoundTrip(nals: seq<Nal>)
    requires forall n | n in nals :: n.header != 0
    ensures Spaced(Starts(Stream(nals), 0), 0, |Stream(nals)|)
    ensures var units := Units(Stream(nals), Starts(Stream(nals), 0));
            && |units| == |nals|
            && forall k | 0 <= k < |nals| :: Recovers(units[k], nals[k], ZerosAfter(nals, k))
  {
    var es := Stream(nals);
    assert es[0..] == es;
    StartsOfStream(es, 0, nals);
    var starts := Starts(es, 0);
    StartsSpaced(es, 0);
    assert starts[0..] == starts;
    UnitsOfStream(es, 0, nals, starts, 0);
    var units := Units(es, starts);
    assert units == units[0..] == Framed(nals);
    FramedLength(nals);
    forall k | 0 <= k < |nals| ensures Recovers(units[k], nals[k], ZerosAfter(nals, k)) {
      FramedAt(nals, k);
      UnitRecovers(nals[k], ZerosAfter(nals, k));
    }
  }

  lemma UnitRecovers(nal: Nal, zerosAfter: nat)
    requires nal.header != 0
    ensures Recovers(nal.Bytes() + Zeros(zerosAfter), nal, zerosAfter)
  {
    var unit := nal.Bytes() + Zeros(zerosAfter);
    assert unit[1..] == Escape(nal.rbsp, 0) + Zeros(zerosAfter);
    UnescapeEscape(nal.rbsp, 0, zerosAfter);
    NalIsClean(nal);
  }
}
