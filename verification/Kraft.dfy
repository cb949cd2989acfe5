/** Prefix codes and the Kraft sum that tells the complete ones. */
module Kraft {
  import opened Arithmetic
  import opened Bytes

  type Word = seq<Bit>

  /** Neither word starts the other. */
  predicate Apart(u: Word, v: Word) {
    !(u <= v) && !(v <= u)
  }

  ghost predicate PrefixFree(codes: seq<Word>) {
    codes != [] ==> (forall t | t in codes[1..] :: Apart(codes[0], t)) && PrefixFree(codes[1..])
  }

  /** The same, two positions at a time. */
  lemma {:induction false} PairwiseApart(codes: seq<Word>)
    ensures PrefixFree(codes) <==> forall i, j | 0 <= i < j < |codes| :: Apart(codes[i], codes[j])
  {
    if codes != [] {
      PairwiseApart(codes[1..]);
      if PrefixFree(codes) {
        forall i, j | 0 <= i < j < |codes| ensures Apart(codes[i], codes[j]) {
          assert codes[j] == codes[1..][j - 1];
          if i > 0 {
            assert codes[i] == codes[1..][i - 1];
          }
        }
      }
      if forall i, j | 0 <= i < j < |codes| :: Apart(codes[i], codes[j]) {
        forall t | t in codes[1..] ensures Apart(codes[0], t) {
          var j :| 0 <= j < |codes[1..]| && codes[1..][j] == t;
          assert codes[j + 1] == t;
        }
        forall i, j | 0 <= i < j < |codes[1..]| ensures Apart(codes[1..][i], codes[1..][j]) {
          assert codes[1..][i] == codes[i + 1] && codes[1..][j] == codes[j + 1];
        }
      }
    }
  }

  ghost predicate Bounded(codes: seq<Word>, max: nat) {
    forall c | c in codes :: |c| <= max
  }

  ghost predicate StartsCode(codes: seq<Word>, w: Word) {
    exists c :: c in codes && c <= w
  }

  /** Every word of `max` bits starts with some code. */
  ghost predicate Complete(codes: seq<Word>, max: nat) {
    forall w: Word | |w| == max :: StartsCode(codes, w)
  }

  /** The Kraft sum scaled by 2^max. */
  function KraftSum(codes: seq<Word>, max: nat): nat {
    if codes == [] then 0
    else (if |codes[0]| <= max then Pow2(max - |codes[0]|) else 0) + KraftSum(codes[1..], max)
  }

  /** The codes that begin with `b`, with that bit removed. */
  function Branch(codes: seq<Word>, b: Bit): seq<Word> {
    if codes == [] then []
    else if codes[0] != [] && codes[0][0] == b then [codes[0][1..]] + Branch(codes[1..], b)
    else Branch(codes[1..], b)
  }

  lemma {:induction false} BranchMember(codes: seq<Word>, b: Bit, t: Word)
    ensures t in Branch(codes, b) <==> [b] + t in codes
  {
    if codes != [] {
      BranchMember(codes[1..], b, t);
      var head := codes[0];
      assert [b] + t in codes <==> head == [b] + t || [b] + t in codes[1..];
      if head != [] && head[0] == b {
        assert head == [b] + head[1..];
        assert ([b] + t)[1..] == t;
      }
    }
  }

  lemma ConsPrefix(b: Bit, u: Word, v: Word)
    ensures [b] + u <= [b] + v <==> u <= v
  {
    if [b] + u <= [b] + v {
      assert forall i | 0 <= i < |u| :: u[i] == ([b] + u)[i + 1] == ([b] + v)[i + 1] == v[i];
    }
  }

  lemma BranchBounded(codes: seq<Word>, b: Bit, max: nat)
    requires Bounded(codes, max) && max > 0
    ensures Bounded(Branch(codes, b), max - 1)
  {
    forall t | t in Branch(codes, b) ensures |t| <= max - 1 {
      BranchMember(codes, b, t);
      assert |[b] + t| <= max;
    }
  }

  lemma {:induction false} BranchPrefixFree(codes: seq<Word>, b: Bit)
    requires PrefixFree(codes)
    ensures PrefixFree(Branch(codes, b))
  {
    if codes != [] {
      var head, tail := codes[0], codes[1..];
      BranchPrefixFree(tail, b);
      if head != [] && head[0] == b {
        forall t | t in Branch(tail, b) ensures Apart(head[1..], t) {
          BranchMember(tail, b, t);
          assert head == [b] + head[1..];
          ConsPrefix(b, head[1..], t);
          ConsPrefix(b, t, head[1..]);
        }
        assert Branch(codes, b)[1..] == Branch(tail, b);
      }
    }
  }

  lemma {:induction false} BranchSums(codes: seq<Word>, max: nat)
    requires max > 0 && [] !in codes
    ensures KraftSum(codes, max) == KraftSum(Branch(codes, 0), max - 1) + KraftSum(Branch(codes, 1), max - 1)
  {
    if codes != [] {
      var head, tail := codes[0], codes[1..];
      BranchSums(tail, max);
      assert head != [];
      SumCons(head[1..], Branch(tail, head[0]), max - 1);
      SumCons(head, tail, max);
      assert codes == [head] + tail;
    }
  }

  lemma SumCons(c: Word, codes: seq<Word>, max: nat)
    ensures KraftSum([c] + codes, max) == (if |c| <= max then Pow2(max - |c|) else 0) + KraftSum(codes, max)
  {
    assert ([c] + codes)[1..] == codes;
  }

  lemma StartsBranch(codes: seq<Word>, b: Bit, w: Word)
    requires [] !in codes
    ensures StartsCode(codes, [b] + w) <==> StartsCode(Branch(codes, b), w)
  {
    if c :| c in codes && c <= [b] + w {
      assert c[0] == ([b] + w)[0];
      assert c == [b] + c[1..];
      ConsPrefix(b, c[1..], w);
      BranchMember(codes, b, c[1..]);
    }
    if t :| t in Branch(codes, b) && t <= w {
      BranchMember(codes, b, t);
      ConsPrefix(b, t, w);
    }
  }

  lemma BranchComplete(codes: seq<Word>, max: nat)
    requires max > 0 && [] !in codes
    ensures Complete(codes, max) <==> Complete(Branch(codes, 0), max - 1) && Complete(Branch(codes, 1), max - 1)
  {
    hide StartsCode, Branch;
    if Complete(codes, max) {
      forall w: Word | |w| == max - 1
        ensures StartsCode(Branch(codes, 0), w) && StartsCode(Branch(codes, 1), w)
      {
        StartsBranch(codes, 0, w);
        StartsBranch(codes, 1, w);
      }
    }
    if Complete(Branch(codes, 0), max - 1) && Complete(Branch(codes, 1), max - 1) {
      forall w: Word | |w| == max ensures StartsCode(codes, w) {
        StartsBranch(codes, w[0], w[1..]);
        assert w == [w[0]] + w[1..];
        assert w[0] == 0 || w[0] == 1;
      }
    }
  }

  lemma HeadOrTail(codes: seq<Word>, c: Word)
    requires codes != []
    ensures c in codes <==> c == codes[0] || c in codes[1..]
  {
  }

  lemma FirstIsMember(codes: seq<Word>)
    ensures codes == [] || codes[0] in codes
  {
  }

  /** A prefix-free code with the empty word has nothing else. */
  lemma EmptyWordAlone(codes: seq<Word>, max: nat)
    requires PrefixFree(codes) && [] in codes
    ensures KraftSum(codes, max) == Pow2(max) && Complete(codes, max)
  {
    HeadOrTail(codes, []);
    FirstIsMember(codes[1..]);
    forall w: Word | |w| == max ensures StartsCode(codes, w) {
      assert [] <= w;
    }
  }

  /**
    Kraft's inequality, with its equality case: a prefix-free code never
    exceeds a sum of one, and reaches it exactly when every long enough bit
    string starts with a code.
   */
  lemma {:induction false} KraftCompleteness(codes: seq<Word>, max: nat)
    requires PrefixFree(codes) && Bounded(codes, max)
    ensures KraftSum(codes, max) <= Pow2(max)
    ensures Complete(codes, max) <==> KraftSum(codes, max) == Pow2(max)
    decreases max
  {
    hide PrefixFree, Complete;
    if [] in codes {
      EmptyWordAlone(codes, max);
    } else if max == 0 {
      NoCodes(codes);
    } else {
      BranchPrefixFree(codes, 0);
      BranchPrefixFree(codes, 1);
      BranchBounded(codes, 0, max);
      BranchBounded(codes, 1, max);
      KraftCompleteness(Branch(codes, 0), max - 1);
      KraftCompleteness(Branch(codes, 1), max - 1);
      BranchSums(codes, max);
      BranchComplete(codes, max);
    }
  }

  lemma NoCodes(codes: seq<Word>)
    requires Bounded(codes, 0) && [] !in codes
    ensures codes == [] && !Complete(codes, 0)
  {
    FirstIsMember(codes);
    assert !StartsCode(codes, []);
  }

  /** At most one code starts a given word. */
  lemma {:induction false} UniqueStart(codes: seq<Word>, w: Word, u: Word, v: Word)
    requires PrefixFree(codes) && u in codes && v in codes && u <= w && v <= w
    ensures u == v
  {
    HeadOrTail(codes, u);
    HeadOrTail(codes, v);
    SharedStart(u, v, w);
    if u in codes[1..] && v in codes[1..] {
      UniqueStart(codes[1..], w, u, v);
    }
  }

  lemma SharedStart(u: Word, v: Word, w: Word)
    requires u <= w && v <= w
    ensures u <= v || v <= u
  {
    if |u| <= |v| {
      assert u == w[..|u|] == v[..|u|];
    } else {
      assert v == w[..|v|] == u[..|v|];
    }
  }
}
