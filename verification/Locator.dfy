/** The PCR bisection: where a seek starts reading, and what the search guarantees. */
module Locator {
  import opened Arithmetic
  import opened StreamGrid
  import opened Timestamps
  import opened Wrappers

  // ---- PCR scans ----

  /** The first packet of `[lo, hi)` that carries a PCR. */
  function FirstPcr(s: Stream, lo: nat, hi: nat): (r: Option<nat>)
    requires hi <= |s.events|
    ensures r.Some? ==> lo <= r.value < hi && s.PcrAt(r.value).Some?
    ensures forall i :: lo <= i < (if r.Some? then r.value else hi) ==> s.PcrAt(i).None?
    decreases if lo < hi then hi - lo else 0
  {
    if lo >= hi then None
    else if s.PcrAt(lo).Some? then Some(lo)
    else FirstPcr(s, lo + 1, hi)
  }

  /** The last one. */
  function LastPcr(s: Stream, lo: nat, hi: nat): (r: Option<nat>)
    requires hi <= |s.events|
    ensures r.Some? ==> lo <= r.value < hi && s.PcrAt(r.value).Some?
    ensures forall i :: (if r.Some? then r.value + 1 else lo) <= i < hi ==> s.PcrAt(i).None?
    decreases hi
  {
    if lo >= hi then None
    else if s.PcrAt(hi - 1).Some? then Some(hi - 1)
    else LastPcr(s, lo, hi - 1)
  }

  /** The last PCR of a tail is the last of all. */
  lemma LastPcrWidens(s: Stream, lo: nat, hi: nat)
    requires hi <= |s.events| && LastPcr(s, lo, hi).Some?
    ensures LastPcr(s, 0, hi) == LastPcr(s, lo, hi)
  {
    var a, b := LastPcr(s, lo, hi).value, LastPcr(s, 0, hi);
    assert s.PcrAt(a).Some?;
    assert b.Some? && s.PcrAt(b.value).Some?;
  }

  // ---- The bracket ----

  /** The head and tail PCR packets found when the stream is opened. */
  ghost predicate Bracketed(s: Stream, head: nat, tail: nat) {
    && head < tail < |s.events|
    && s.PcrAt(head).Some? && s.PcrAt(tail).Some?
    && (forall i | 0 <= i < head :: s.PcrAt(i).None?)
    && (forall i | tail < i < |s.events| :: s.PcrAt(i).None?)
  }

  /** Extended time of the PCR in packet `i`. */
  function Time(s: Stream, head: nat, i: nat): (t: nat)
    requires head < |s.events| && s.PcrAt(head).Some?
    requires i < |s.events| && s.PcrAt(i).Some?
    ensures s.PcrAt(head).value <= t < s.PcrAt(head).value + TIMESTAMP_MODULUS
    ensures i == head ==> t == s.PcrAt(head).value
  {
    PcrExt90k(Some(s.PcrAt(head).value), s.PcrAt(i).value)
  }

  /** The search between `lo` and `hi` with the best landing so far; the last bracket is part of the result. */
  datatype Bracket = Bracket(lo: nat, hi: nat, best: nat)

  function Bisect(s: Stream, head: nat, b: Bracket, target: int): (r: Bracket)
    requires head < |s.events| && s.PcrAt(head).Some?
    requires b.lo <= b.hi <= |s.events|
    ensures r.lo <= r.hi <= r.lo + 1
    decreases b.hi - b.lo
  {
    if b.hi - b.lo <= 1 then b
    else
      var mid := b.lo + (b.hi - b.lo) / 2;
      match FirstPcr(s, mid, b.hi)
      case None => Bisect(s, head, b.(hi := mid), target)
      case Some(i) =>
        if Time(s, head, i) <= target then Bisect(s, head, Bracket(i + 1, b.hi, i), target)
        else Bisect(s, head, b.(hi := i), target)
  }

  lemma BisectStep(s: Stream, head: nat, b: Bracket, target: int)
    requires head < |s.events| && s.PcrAt(head).Some?
    requires b.lo <= b.hi <= |s.events|
    ensures b.hi - b.lo <= 1 ==> Bisect(s, head, b, target) == b
    ensures b.hi - b.lo > 1 ==>
              var mid := b.lo + (b.hi - b.lo) / 2;
              var found := FirstPcr(s, mid, b.hi);
              b.lo < mid < b.hi
              && Bisect(s, head, b, target) ==
                 (if found.None? then Bisect(s, head, b.(hi := mid), target)
                  else if Time(s, head, found.value) <= target then
                    Bisect(s, head, Bracket(found.value + 1, b.hi, found.value), target)
                  else Bisect(s, head, b.(hi := found.value), target))
  {
    hide *;
    if b.hi - b.lo <= 1 {
      BisectEnds(s, head, b, target);
    } else {
      BisectHalves(s, head, b, target);
    }
  }

  lemma BisectEnds(s: Stream, head: nat, b: Bracket, target: int)
    requires head < |s.events| && s.PcrAt(head).Some?
    requires b.lo <= b.hi <= |s.events| && b.hi - b.lo <= 1
    ensures Bisect(s, head, b, target) == b
  {
  }

  lemma BisectHalves(s: Stream, head: nat, b: Bracket, target: int)
    requires head < |s.events| && s.PcrAt(head).Some?
    requires b.lo <= b.hi <= |s.events| && b.hi - b.lo > 1
    ensures var mid := b.lo + (b.hi - b.lo) / 2;
            var found := FirstPcr(s, mid, b.hi);
            b.lo < mid < b.hi
            && Bisect(s, head, b, target) ==
               (if found.None? then Bisect(s, head, b.(hi := mid), target)
                else if Time(s, head, found.value) <= target then
                  Bisect(s, head, Bracket(found.value + 1, b.hi, found.value), target)
                else Bisect(s, head, b.(hi := found.value), target))
  {
    hide Time, FirstPcr, PcrExt90k, Stream.PcrAt;
  }

  /** Landing packet for a target. */
  function Locate(s: Stream, head: nat, tail: nat, target: int): nat
    requires Bracketed(s, head, tail)
  {
    if target <= Time(s, head, head) then head
    else if target >= Time(s, head, tail) then tail
    else Bisect(s, head, Bracket(head, tail, head), target).best
  }

  // ---- On every stream ----

  /** The landing carries a PCR at or before the target, or is the head. */
  lemma {:induction false} BisectLands(s: Stream, head: nat, b: Bracket, target: int)
    requires head < |s.events| && s.PcrAt(head).Some?
    requires b.lo <= b.hi <= |s.events| && head <= b.best <= b.lo
    requires b.best < |s.events| && s.PcrAt(b.best).Some? && Time(s, head, b.best) <= target
    requires b.lo == b.best || b.lo == b.best + 1
    ensures var r := Bisect(s, head, b, target);
            && head <= r.best < |s.events| && s.PcrAt(r.best).Some? && Time(s, head, r.best) <= target
            && (r.lo == r.best || r.lo == r.best + 1)
            && r.best <= b.hi && r.hi <= b.hi
    decreases b.hi - b.lo
  {
    hide *;
    BisectStep(s, head, b, target);
    if b.hi - b.lo > 1 {
      var mid := b.lo + (b.hi - b.lo) / 2;
      var found := FirstPcr(s, mid, b.hi);
      if found.None? {
        BisectLands(s, head, b.(hi := mid), target);
      } else if Time(s, head, found.value) <= target {
        BisectLands(s, head, Bracket(found.value + 1, b.hi, found.value), target);
      } else {
        BisectLands(s, head, b.(hi := found.value), target);
      }
    }
  }

  lemma Lands(s: Stream, head: nat, tail: nat, target: int)
    requires Bracketed(s, head, tail)
    ensures var r := Locate(s, head, tail, target);
            && head <= r <= tail && s.PcrAt(r).Some?
            && (Time(s, head, r) <= target || (r == head && target < Time(s, head, head)))
  {
    hide Bisect, PcrExt90k, Time;
    if Time(s, head, head) < target < Time(s, head, tail) {
      BisectLands(s, head, Bracket(head, tail, head), target);
    }
  }

  // ---- On streams whose PCRs do not run backward ----

  ghost predicate Forward(s: Stream, head: nat, tail: nat) {
    && Bracketed(s, head, tail)
    && forall i, j | head <= i < j <= tail && s.PcrAt(i).Some? && s.PcrAt(j).Some? ::
         Time(s, head, i) <= Time(s, head, j)
  }

  /** Nothing from `hi` on is at or before the target. */
  ghost predicate After(s: Stream, head: nat, tail: nat, hi: nat, target: int)
    requires Bracketed(s, head, tail)
  {
    forall i | hi <= i <= tail && s.PcrAt(i).Some? :: head <= i && Time(s, head, i) > target
  }

  lemma AfterFound(s: Stream, head: nat, tail: nat, i: nat, target: int)
    requires Forward(s, head, tail)
    requires head <= i <= tail && s.PcrAt(i).Some? && Time(s, head, i) > target
    ensures After(s, head, tail, i, target)
  {
  }

  lemma BracketFacts(s: Stream, head: nat, tail: nat)
    requires Forward(s, head, tail)
    ensures Bracketed(s, head, tail) && head < tail < |s.events| && s.PcrAt(head).Some?
  {
  }

  lemma {:induction false} BisectExact(s: Stream, head: nat, tail: nat, b: Bracket, target: int)
    requires Forward(s, head, tail)
    requires head <= b.best <= b.lo <= b.hi <= tail
    requires After(s, head, tail, b.hi, target)
    ensures var r := Bisect(s, head, b, target);
            After(s, head, tail, r.hi, target)
    decreases b.hi - b.lo
  {
    hide Bisect, PcrExt90k, After, Time, FirstPcr, Stream.PcrAt, Forward, Bracketed;
    BracketFacts(s, head, tail);
    BisectStep(s, head, b, target);
    if b.hi - b.lo > 1 {
      var mid := b.lo + (b.hi - b.lo) / 2;
      var found := FirstPcr(s, mid, b.hi);
      if found.None? {
        AfterSparse(s, head, tail, mid, b.hi, target);
        BisectExact(s, head, tail, b.(hi := mid), target);
      } else if Time(s, head, found.value) <= target {
        BisectExact(s, head, tail, Bracket(found.value + 1, b.hi, found.value), target);
      } else {
        AfterFound(s, head, tail, found.value, target);
        BisectExact(s, head, tail, b.(hi := found.value), target);
      }
    }
  }

  lemma AfterSparse(s: Stream, head: nat, tail: nat, mid: nat, hi: nat, target: int)
    requires Bracketed(s, head, tail) && mid <= hi <= tail
    requires After(s, head, tail, hi, target) && forall i | mid <= i < hi :: s.PcrAt(i).None?
    ensures After(s, head, tail, mid, target)
  {
  }

  /** `r` is the last PCR at or before the target. */
  ghost predicate LastAtOrBefore(s: Stream, head: nat, tail: nat, r: nat, target: int)
    requires Bracketed(s, head, tail)
  {
    && head <= r <= tail && s.PcrAt(r).Some? && Time(s, head, r) <= target
    && forall i | r < i <= tail && s.PcrAt(i).Some? :: Time(s, head, i) > target
  }

  /** The search stops with one packet in the bracket that it has not looked at, and its PCR is not past the target. */
  ghost predicate SkipsLastPacket(s: Stream, head: nat, tail: nat, target: int)
    requires Bracketed(s, head, tail)
  {
    && Time(s, head, head) < target < Time(s, head, tail)
    && var b := Bisect(s, head, Bracket(head, tail, head), target);
       && b.hi == b.lo + 1 && head < b.lo <= tail && b.best < b.lo
       && s.PcrAt(b.lo).Some? && Time(s, head, b.lo) <= target
  }

  /** Every PCR past the landing is after the target, but perhaps the one in the very next packet. */
  lemma LandingGuarantee(s: Stream, head: nat, tail: nat, target: int)
    requires Forward(s, head, tail) && target != Time(s, head, head)
    ensures var r := Locate(s, head, tail, target);
            && head <= r <= tail && s.PcrAt(r).Some?
            && (forall i | r + 1 < i <= tail && s.PcrAt(i).Some? :: Time(s, head, i) > target)
            && (if target < Time(s, head, head) then r == head
                else LastAtOrBefore(s, head, tail, r, target) <==> !SkipsLastPacket(s, head, tail, target))
  {
    hide *;
    LocateCases(s, head, tail, target);
    Lands(s, head, tail, target);
    if target < Time(s, head, head) {
      AllFrom(s, head, tail, target);
    } else if target < Time(s, head, tail) {
      InsideBracket(s, head, tail, target);
    } else {
      AtTail(s, head, tail, target);
    }
  }

  lemma LocateCases(s: Stream, head: nat, tail: nat, target: int)
    requires Forward(s, head, tail)
    ensures Bracketed(s, head, tail)
    ensures Locate(s, head, tail, target) ==
            if target <= Time(s, head, head) then head
            else if target >= Time(s, head, tail) then tail
            else Bisect(s, head, Bracket(head, tail, head), target).best
  {
  }

  lemma AllFrom(s: Stream, head: nat, tail: nat, target: int)
    requires Forward(s, head, tail)
    ensures forall i | head < i <= tail && s.PcrAt(i).Some? :: Time(s, head, i) >= Time(s, head, head)
  {
    hide PcrExt90k, Time;
  }

  lemma AtTail(s: Stream, head: nat, tail: nat, target: int)
    requires Bracketed(s, head, tail) && target >= Time(s, head, tail)
    ensures LastAtOrBefore(s, head, tail, tail, target) && !SkipsLastPacket(s, head, tail, target)
  {
    hide PcrExt90k, Time, Bisect;
  }

  lemma InsideBracket(s: Stream, head: nat, tail: nat, target: int)
    requires Forward(s, head, tail) && Time(s, head, head) < target < Time(s, head, tail)
    ensures var r := Bisect(s, head, Bracket(head, tail, head), target).best;
            && head <= r <= tail && s.PcrAt(r).Some?
            && (forall i | r + 1 < i <= tail && s.PcrAt(i).Some? :: Time(s, head, i) > target)
            && (LastAtOrBefore(s, head, tail, r, target) <==> !SkipsLastPacket(s, head, tail, target))
  {
    hide Bisect, PcrExt90k, Time;
    BisectLands(s, head, Bracket(head, tail, head), target);
    AfterFound(s, head, tail, tail, target);
    BisectExact(s, head, tail, Bracket(head, tail, head), target);
  }

  /** A target equal to the head's time lands on the head, the last such PCR only if no later one repeats the time. */
  lemma HeadTarget(s: Stream, head: nat, tail: nat)
    requires Forward(s, head, tail)
    ensures var target := Time(s, head, head);
            && Locate(s, head, tail, target) == head
            && (LastAtOrBefore(s, head, tail, head, target) <==>
                forall i | head < i <= tail && s.PcrAt(i).Some? :: Time(s, head, i) != target)
  {
    hide Bisect, PcrExt90k, Time;
    AllFrom(s, head, tail, Time(s, head, head));
  }

  // ---- The promise, from the placement of the PCRs ----

  /** Halving `[lo, hi)` comes upon the PCR of packet `p`, going by packet numbers alone. */
  function Meets(s: Stream, lo: nat, hi: nat, p: nat): bool
    requires lo <= hi <= |s.events|
    decreases hi - lo
  {
    hi - lo > 1 &&
    var mid := lo + (hi - lo) / 2;
    var found := FirstPcr(s, mid, hi);
    if found.None? then Meets(s, lo, mid, p)
    else if found.value == p then true
    else if found.value < p then Meets(s, found.value + 1, hi, p)
    else Meets(s, lo, found.value, p)
  }

  /** The PCRs not past the target are those up to packet `p`. */
  ghost predicate SplitsAt(s: Stream, head: nat, tail: nat, p: nat, target: int)
    requires Bracketed(s, head, tail)
  {
    forall i | head <= i <= tail && s.PcrAt(i).Some? :: Time(s, head, i) <= target <==> i <= p
  }

  lemma LastSplits(s: Stream, head: nat, tail: nat, p: nat, target: int)
    requires Forward(s, head, tail) && LastAtOrBefore(s, head, tail, p, target)
    ensures SplitsAt(s, head, tail, p, target)
  {
    hide PcrExt90k, Time;
  }

  lemma SplitsFound(s: Stream, head: nat, tail: nat, p: nat, target: int, i: nat)
    requires Bracketed(s, head, tail) && SplitsAt(s, head, tail, p, target)
    requires head <= i <= tail && s.PcrAt(i).Some?
    ensures Time(s, head, i) <= target <==> i <= p
  {
  }

  /** Behind the last PCR at or before the target the landing does not move any more. */
  lemma {:induction false} LandingStays(s: Stream, head: nat, tail: nat, b: Bracket, p: nat, target: int)
    requires Bracketed(s, head, tail) && SplitsAt(s, head, tail, p, target)
    requires head <= b.lo <= b.hi <= tail && p < b.lo
    ensures Bisect(s, head, b, target).best == b.best
    decreases b.hi - b.lo
  {
    hide Bisect, PcrExt90k, Time, FirstPcr, SplitsAt, Stream.PcrAt;
    BisectStep(s, head, b, target);
    if b.hi - b.lo > 1 {
      var mid := b.lo + (b.hi - b.lo) / 2;
      var found := FirstPcr(s, mid, b.hi);
      if found.Some? {
        SplitsFound(s, head, tail, p, target, found.value);
        LandingStays(s, head, tail, b.(hi := found.value), p, target);
      } else {
        LandingStays(s, head, tail, b.(hi := mid), p, target);
      }
    }
  }

  /** The search lands on `p` exactly when halving comes upon it. */
  lemma {:induction false} LandsIfMet(s: Stream, head: nat, tail: nat, b: Bracket, p: nat, target: int)
    requires Bracketed(s, head, tail) && SplitsAt(s, head, tail, p, target)
    requires head <= b.lo <= b.hi <= tail && b.best != p
    ensures Bisect(s, head, b, target).best == p <==> Meets(s, b.lo, b.hi, p)
    decreases b.hi - b.lo
  {
    hide Bisect, PcrExt90k, Time, FirstPcr, SplitsAt, Stream.PcrAt, Meets;
    BisectStep(s, head, b, target);
    MeetsStep(s, b.lo, b.hi, p);
    if b.hi - b.lo > 1 {
      var mid := b.lo + (b.hi - b.lo) / 2;
      var found := FirstPcr(s, mid, b.hi);
      if found.None? {
        LandsIfMet(s, head, tail, b.(hi := mid), p, target);
      } else {
        var i := found.value;
        SplitsFound(s, head, tail, p, target, i);
        if i == p {
          LandingStays(s, head, tail, Bracket(i + 1, b.hi, i), p, target);
        } else if i < p {
          LandsIfMet(s, head, tail, Bracket(i + 1, b.hi, i), p, target);
        } else {
          LandsIfMet(s, head, tail, b.(hi := i), p, target);
        }
      }
    }
  }

  lemma MeetsStep(s: Stream, lo: nat, hi: nat, p: nat)
    requires lo <= hi <= |s.events|
    ensures hi - lo <= 1 ==> !Meets(s, lo, hi, p)
    ensures hi - lo > 1 ==>
              var mid := lo + (hi - lo) / 2;
              var found := FirstPcr(s, mid, hi);
              lo < mid < hi
              && (Meets(s, lo, hi, p) <==>
                  if found.None? then Meets(s, lo, mid, p)
                  else found.value == p
                       || (if found.value < p then Meets(s, found.value + 1, hi, p) else Meets(s, lo, found.value, p)))
  {
    hide FirstPcr;
  }

  /**
   * The landing for a target past the head whose last PCR is in packet `p`: that packet if it is an end of the
   * bracket or halving comes upon it, and otherwise packet `p - 1`, which then carries a PCR too. Neither the
   * clock values nor the target have a part in which of the two it is.
   */
  lemma LandingExact(s: Stream, head: nat, tail: nat, p: nat, target: int)
    requires Forward(s, head, tail) && LastAtOrBefore(s, head, tail, p, target) && target > Time(s, head, head)
    ensures var r := Locate(s, head, tail, target);
            && (r == p || (r + 1 == p && s.PcrAt(r).Some?))
            && (r == p <==> p == head || p == tail || Meets(s, head, tail, p))
  {
    hide *;
    LocateCases(s, head, tail, target);
    NeighbourAtMost(s, head, tail, p, target);
    if target < Time(s, head, tail) {
      LastSplits(s, head, tail, p, target);
      BeforeTail(s, head, tail, p, target);
      if p == head {
        HeadShrinks(s, head, tail, Bracket(head, tail, head), target);
      } else {
        LandsIfMet(s, head, tail, Bracket(head, tail, head), p, target);
      }
    } else {
      TailIsLast(s, head, tail, p, target);
    }
  }

  lemma BeforeTail(s: Stream, head: nat, tail: nat, p: nat, target: int)
    requires Bracketed(s, head, tail) && LastAtOrBefore(s, head, tail, p, target) && target < Time(s, head, tail)
    ensures p != tail && head < tail <= |s.events| && s.PcrAt(head).Some?
  {
    hide PcrExt90k, Time;
  }

  lemma TailIsLast(s: Stream, head: nat, tail: nat, p: nat, target: int)
    requires Bracketed(s, head, tail) && LastAtOrBefore(s, head, tail, p, target) && target >= Time(s, head, tail)
    ensures p == tail
  {
    hide PcrExt90k, Time;
  }

  /** Without a PCR at or before the target behind the head, the landing stays the head. */
  lemma {:induction false} HeadShrinks(s: Stream, head: nat, tail: nat, b: Bracket, target: int)
    requires Bracketed(s, head, tail) && SplitsAt(s, head, tail, head, target)
    requires b.lo == head == b.best && head <= b.hi <= tail
    ensures Bisect(s, head, b, target).best == head
    decreases b.hi - b.lo
  {
    hide Bisect, PcrExt90k, Time, Stream.PcrAt, FirstPcr, SplitsAt;
    BisectStep(s, head, b, target);
    if b.hi - b.lo > 1 {
      var mid := b.lo + (b.hi - b.lo) / 2;
      var found := FirstPcr(s, mid, b.hi);
      if found.Some? {
        SplitsFound(s, head, tail, head, target, found.value);
        HeadShrinks(s, head, tail, b.(hi := found.value), target);
      } else {
        HeadShrinks(s, head, tail, b.(hi := mid), target);
      }
    }
  }

  /** The landing is the last PCR at or before the target or sits right before it. */
  lemma NeighbourAtMost(s: Stream, head: nat, tail: nat, p: nat, target: int)
    requires Forward(s, head, tail) && LastAtOrBefore(s, head, tail, p, target) && target > Time(s, head, head)
    ensures var r := Locate(s, head, tail, target);
            r == p || (r + 1 == p && s.PcrAt(r).Some?)
  {
    hide Bisect, PcrExt90k, Time, Locate;
    LandingGuarantee(s, head, tail, target);
    Lands(s, head, tail, target);
  }

  /** Without a PCR in the packet before it, the last PCR at or before the target is the landing. */
  lemma SpacedPcrs(s: Stream, head: nat, tail: nat, p: nat, target: int)
    requires Forward(s, head, tail) && LastAtOrBefore(s, head, tail, p, target) && target > Time(s, head, head)
    requires p == 0 || s.PcrAt(p - 1).None?
    ensures Locate(s, head, tail, target) == p
  {
    hide *;
    NeighbourAtMost(s, head, tail, p, target);
  }

  // ---- The skipped packet, on one stream ----

  /** Packets 2 to 12 carry PCRs 0, 9000, ..., 90000, back to back. */
  function BackToBack(): Stream {
    Stream(seq(13, i requires 0 <= i < 13 => if i < 2 then Corrupt else Event(256, Some((i - 2) * 9000), false, None)),
           188, 0, 256, map[])
  }

  lemma BackToBackTimes()
    ensures var s := BackToBack();
            && s.Valid() && Bracketed(s, 2, 12)
            && forall i | 2 <= i <= 12 :: s.PcrAt(i).Some? && Time(s, 2, i) == (i - 2) * 9000
  {
  }

  /** Target 27000 is the PCR of packet 5; the search stops at packet 4, 18000, with packet 5 unexamined. */
  lemma StopsOneShort()
    ensures var s := BackToBack();
            && Forward(s, 2, 12)
            && Locate(s, 2, 12, 27_000) == 4 && Time(s, 2, 4) == 18_000
            && SkipsLastPacket(s, 2, 12, 27_000) && Time(s, 2, 5) == 27_000
            && !Meets(s, 2, 12, 5)
  {
    hide PcrExt90k, Bisect, Time, Meets;
    var s := BackToBack();
    BackToBackTimes();
    BisectStep(s, 2, Bracket(2, 12, 2), 27_000);
    BisectStep(s, 2, Bracket(2, 7, 2), 27_000);
    BisectStep(s, 2, Bracket(5, 7, 4), 27_000);
    BisectStep(s, 2, Bracket(5, 6, 4), 27_000);
    MeetsStep(s, 2, 12, 5);
    MeetsStep(s, 2, 7, 5);
    MeetsStep(s, 5, 7, 5);
    MeetsStep(s, 5, 6, 5);
  }

  // ---- Backing off ----

  const I64_MAX: int := 0x7FFF_FFFF_FFFF_FFFF
  const I64_MIN: int := -0x8000_0000_0000_0000

  /** A saturating 64-bit result. */
  function Saturate(x: int): int {
    if x > I64_MAX then I64_MAX else if x < I64_MIN then I64_MIN else x
  }

  function LandingTime(s: Stream, head: nat, tail: nat, probe: int): (t: nat)
    requires Bracketed(s, head, tail)
    ensures Time(s, head, head) <= t < Time(s, head, head) + TIMESTAMP_MODULUS
    ensures Locate(s, head, tail, probe) > head ==> t <= probe && Time(s, head, head) < probe
    ensures head <= Locate(s, head, tail, probe) <= tail
  {
    Lands(s, head, tail, probe);
    Time(s, head, Locate(s, head, tail, probe))
  }

  /** Each round that finds nothing steps back from its own landing, twice as far as the round before. */
  function NextProbe(s: Stream, head: nat, tail: nat, probe: int, back: nat): int
    requires Bracketed(s, head, tail)
  {
    Saturate(LandingTime(s, head, tail, probe) - back)
  }

  function NextBack(back: nat): nat {
    Saturate(back * 2)
  }

  /** How far a probe lies past the head: what the rounds use up. */
  function Above(s: Stream, head: nat, probe: int): nat
    requires head < |s.events| && s.PcrAt(head).Some?
  {
    var t := Time(s, head, head);
    if probe > t then probe - t else 0
  }

  lemma ProbeFalls(s: Stream, head: nat, tail: nat, probe: int, back: nat)
    requires Bracketed(s, head, tail) && 0 < back <= I64_MAX
    ensures var next := NextProbe(s, head, tail, probe, back);
            && next == LandingTime(s, head, tail, probe) - back
            && (Locate(s, head, tail, probe) > head ==>
                  next <= probe - back && Above(s, head, next) < Above(s, head, probe))
  {
    hide Bisect, PcrExt90k, Time, Locate, LandingTime;
  }

  /** Rounds until the window starts at the head, if none before finds anything. */
  function Rounds(s: Stream, head: nat, tail: nat, probe: int, back: nat): (n: nat)
    requires Bracketed(s, head, tail) && 0 < back <= I64_MAX
    ensures n > 0
    decreases Above(s, head, probe)
  {
    if Locate(s, head, tail, probe) <= head then 1
    else
      ProbeFalls(s, head, tail, probe, back);
      1 + Rounds(s, head, tail, NextProbe(s, head, tail, probe, back), NextBack(back))
  }

  lemma RoundsStep(s: Stream, head: nat, tail: nat, probe: int, back: nat)
    requires Bracketed(s, head, tail) && 0 < back <= I64_MAX
    ensures 0 < NextBack(back) <= I64_MAX
    ensures back <= TIMESTAMP_MODULUS ==> NextBack(back) == 2 * back
    ensures Rounds(s, head, tail, probe, back) ==
            if Locate(s, head, tail, probe) <= head then 1
            else 1 + Rounds(s, head, tail, NextProbe(s, head, tail, probe, back), NextBack(back))
  {
    hide Bisect, PcrExt90k, Time, Locate, LandingTime, NextProbe, Above;
    ProbeFalls(s, head, tail, probe, back);
  }

  /** The rounds double what they step back, within the time between the head and the first landing. */
  lemma {:induction false} RoundsBound(s: Stream, head: nat, tail: nat, probe: int, back: nat)
    requires Bracketed(s, head, tail) && 0 < back <= I64_MAX
    ensures var n := Rounds(s, head, tail, probe, back);
            n >= 2 ==>
              && Locate(s, head, tail, probe) > head
              && back * (Pow2(n - 2) - 1) <= LandingTime(s, head, tail, probe) - Time(s, head, head)
    decreases Above(s, head, probe)
  {
    hide Locate, LandingTime, Bisect, Time, PcrExt90k, NextProbe, NextBack, Rounds, Above, Pow2;
    RoundsStep(s, head, tail, probe, back);
    if Locate(s, head, tail, probe) > head {
      ProbeFalls(s, head, tail, probe, back);
      var next := NextProbe(s, head, tail, probe, back);
      RoundsBound(s, head, tail, next, NextBack(back));
      var t, t' := LandingTime(s, head, tail, probe), LandingTime(s, head, tail, next);
      Doubling(back, Rounds(s, head, tail, next, NextBack(back)), t - Time(s, head, head), t' - Time(s, head, head));
    }
  }

  lemma Doubling(back: nat, n: nat, t: int, t': int)
    requires n >= 1 && 0 < back && 0 <= t < TIMESTAMP_MODULUS
    requires n >= 2 ==> 0 <= t' <= t - back
    requires back <= TIMESTAMP_MODULUS ==> NextBack(back) == 2 * back
    requires n >= 2 ==> NextBack(back) * (Pow2(n - 2) - 1) <= t'
    ensures back * (Pow2(n - 1) - 1) <= t
  {
    if n >= 2 {
      var p := Pow2(n - 2);
      assert Pow2(n - 1) == 2 * p;
      assert back * (2 * p - 1) == 2 * back * (p - 1) + back;
    }
  }

  lemma {:induction false} PowerBelow(k: nat)
    ensures Pow2(k) >= k + 1
    ensures k >= 17 ==> Pow2(k) >= 131_072
  {
    if k == 17 {
      assert Pow2(2) == 4 && Pow2(4) == 16 && Pow2(6) == 64 && Pow2(8) == 256;
      assert Pow2(10) == 1024 && Pow2(12) == 4096 && Pow2(14) == 16_384 && Pow2(16) == 65_536;
    } else if k > 0 {
      PowerBelow(k - 1);
    }
  }

  /** At most eighteen rounds for any target, and the doubling is never cut off by saturation. */
  lemma BackOffIsLogarithmic(s: Stream, head: nat, tail: nat, target: int)
    requires Bracketed(s, head, tail)
    ensures var n := Rounds(s, head, tail, target, 90_000);
            && n <= 18
            && (n >= 2 ==> 90_000 * (Pow2(n - 2) - 1) <= LandingTime(s, head, tail, target) - Time(s, head, head))
  {
    hide Locate, LandingTime, Bisect, Time, PcrExt90k, NextProbe, NextBack, Rounds, Above, Pow2;
    RoundsBound(s, head, tail, target, 90_000);
    var n := Rounds(s, head, tail, target, 90_000);
    if n >= 2 {
      PowerBelow(n - 2);
    }
  }

  // ---- Where round n starts ----

  function Back(n: nat): (b: nat)
    ensures 0 < b <= I64_MAX
  {
    if n == 0 then 90_000 else NextBack(Back(n - 1))
  }

  function Probe(s: Stream, head: nat, tail: nat, target: int, n: nat): int
    requires Bracketed(s, head, tail)
  {
    if n == 0 then target else NextProbe(s, head, tail, Probe(s, head, tail, target, n - 1), Back(n - 1))
  }

  /** Round `n`, and every round before it, lands past the head. */
  ghost predicate Unclamped(s: Stream, head: nat, tail: nat, target: int, n: nat)
    requires Bracketed(s, head, tail)
  {
    forall k: nat | k <= n :: Locate(s, head, tail, Probe(s, head, tail, target, k)) > head
  }

  lemma {:induction false} RoundLanding(s: Stream, head: nat, tail: nat, target: int, n: nat)
    requires Bracketed(s, head, tail) && Unclamped(s, head, tail, target, n)
    ensures Back(n) == 90_000 * Pow2(n)
    ensures LandingTime(s, head, tail, Probe(s, head, tail, target, n)) <=
            LandingTime(s, head, tail, target) - 90_000 * (Pow2(n) - 1)
  {
    hide Locate, LandingTime, Bisect, Time, NextProbe;
    if n > 0 {
      RoundLanding(s, head, tail, target, n - 1);
      ProbeFalls(s, head, tail, Probe(s, head, tail, target, n - 1), Back(n - 1));
    }
  }

  /** Round `n` searches at or before target - 90000 * (2^n - 1), whatever the stream. */
  lemma RoundStart(s: Stream, head: nat, tail: nat, target: int, n: nat)
    requires Bracketed(s, head, tail) && (n > 0 ==> Unclamped(s, head, tail, target, n - 1))
    ensures Back(n) == 90_000 * Pow2(n)
    ensures Probe(s, head, tail, target, n) <= target - 90_000 * (Pow2(n) - 1)
  {
    hide Locate, LandingTime, Bisect, Time, NextProbe;
    if n > 0 {
      RoundLanding(s, head, tail, target, n - 1);
      FirstRound(s, head, tail, target, n - 1);
      ProbeFalls(s, head, tail, Probe(s, head, tail, target, n - 1), Back(n - 1));
    }
  }

  lemma FirstRound(s: Stream, head: nat, tail: nat, target: int, n: nat)
    requires Bracketed(s, head, tail) && Unclamped(s, head, tail, target, n)
    ensures LandingTime(s, head, tail, target) <= target
  {
    hide Locate, LandingTime;
    assert Probe(s, head, tail, target, 0) == target;
  }
}
