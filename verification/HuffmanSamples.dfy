/** Contexts of the title table, and a table of the shipped shape built from them. */
module HuffmanSamples {
  import opened Arithmetic
  import opened Bytes
  import opened Huffman
  import opened HuffmanLaws
  import opened Kraft

  /** Contexts 33, 36, 42 and 48 as printed; the others here are the lone escape, as context 27 is in both tables. */
  function TitleContext(prior: Byte): seq<Entry> {
    if prior == 33 then [Entry(33, 0, 1, 1), Entry(33, 27, 2, 1), Entry(33, 32, 2, 0)]
    else if prior == 36 then [Entry(36, 27, 1, 1), Entry(36, 49, 1, 0)]
    else if prior == 42 then [Entry(42, 27, 2, 0), Entry(42, 65, 2, 1), Entry(42, 72, 2, 2), Entry(42, 83, 2, 3)]
    else if prior == 48 then
      [Entry(48, 0, 2, 1), Entry(48, 27, 3, 1), Entry(48, 32, 2, 2), Entry(48, 45, 3, 0), Entry(48, 48, 2, 3)]
    else [Entry(prior, ESCAPE, 1, 1)]
  }

  function Sample(n: nat): Table
    requires n <= 128
  {
    if n == 0 then [] else Sample(n - 1) + TitleContext((n - 1) as Byte)
  }

  // ---- Its contexts ----

  lemma {:induction false} PartitionConcat(a: Table, b: Table, p: nat)
    ensures PartitionPoint(a + b, p) ==
            if PartitionPoint(a, p) < |a| then PartitionPoint(a, p) else |a| + PartitionPoint(b, p)
  {
    if a != [] {
      assert (a + b)[1..] == a[1..] + b;
      PartitionConcat(a[1..], b, p);
    } else {
      assert a + b == b;
    }
  }

  lemma {:induction false} PartitionBlock(block: Table, q: nat, p: nat)
    requires forall e | e in block :: e.prior as nat == q
    ensures PartitionPoint(block, p) == if q < p then |block| else 0
  {
    if block != [] {
      assert block[0] in block;
      PartitionBlock(block[1..], q, p);
    }
  }

  lemma ContextPrior(prior: Byte)
    ensures forall e | e in TitleContext(prior) :: e.prior == prior
    ensures TitleContext(prior) != []
  {
  }

  lemma {:induction false} SamplePartition(n: nat, p: nat)
    requires n <= 128 && p <= 128
    ensures PartitionPoint(Sample(n), p) == |Sample(if p < n then p else n)|
    ensures p <= n ==> Sample(p) <= Sample(n)
  {
    hide TitleContext, PartitionPoint;
    if n > 0 {
      SamplePartition(n - 1, p);
      ContextPrior((n - 1) as Byte);
      PartitionConcat(Sample(n - 1), TitleContext((n - 1) as Byte), p);
      PartitionBlock(TitleContext((n - 1) as Byte), n - 1, p);
      SampleGrows(p, n - 1);
    } else {
      PartitionBlock([], 0, p);
    }
  }

  lemma {:induction false} SampleGrows(p: nat, n: nat)
    requires p <= 128 && n <= 128
    ensures p < n ==> |Sample(p)| < |Sample(n)|
  {
    hide TitleContext;
    if p < n {
      ContextPrior((n - 1) as Byte);
      SampleGrows(p, n - 1);
    }
  }

  lemma SampleContext(prior: Byte)
    requires prior < RAW_FROM
    ensures Context(Sample(128), prior) == TitleContext(prior)
  {
    hide TitleContext, PartitionPoint;
    var p := prior as nat;
    SamplePartition(128, p);
    SamplePartition(128, p + 1);
    assert Sample(p + 1) == Sample(p) + TitleContext(prior);
  }

  // ---- Each context is a complete tree or the lone escape ----

  lemma ShortWords(e: Entry)
    ensures e.len == 1 ==> Codeword(e) == [(e.code % 2) as Bit]
    ensures e.len == 2 ==> Codeword(e) == [(e.code / 2 % 2) as Bit, (e.code % 2) as Bit]
    ensures e.len == 3 ==> Codeword(e) == [(e.code / 4 % 2) as Bit, (e.code / 2 % 2) as Bit, (e.code % 2) as Bit]
  {
    if e.len == 1 {
      assert Binary(e.code, 1) == Binary(e.code / 2, 0) + [(e.code % 2) as Bit];
    } else if e.len == 2 {
      assert Binary(e.code / 2, 1) == Binary(e.code / 4, 0) + [(e.code / 2 % 2) as Bit];
    } else if e.len == 3 {
      assert Binary(e.code / 4, 1) == Binary(e.code / 8, 0) + [(e.code / 4 % 2) as Bit];
      assert Binary(e.code / 2, 2) == Binary(e.code / 4, 1) + [(e.code / 2 % 2) as Bit];
    }
  }

  lemma {:induction false} WordsAre(ctx: seq<Entry>, words: seq<Word>)
    requires |words| == |ctx| && forall k | 0 <= k < |ctx| :: words[k] == Codeword(ctx[k])
    ensures Words(ctx) == words
  {
    if ctx != [] {
      WordsAre(ctx[1..], words[1..]);
    }
  }

  /** One of the first three bits tells the words apart. */
  predicate Differ(u: Word, v: Word) {
    || (|u| > 0 && |v| > 0 && u[0] != v[0])
    || (|u| > 1 && |v| > 1 && u[1] != v[1])
    || (|u| > 2 && |v| > 2 && u[2] != v[2])
  }

  lemma DifferApart(u: Word, v: Word)
    requires Differ(u, v)
    ensures Apart(u, v)
  {
  }

  /** A context with these codewords is in order once they are pairwise apart and fill their longest length. */
  lemma InOrder(ctx: seq<Entry>, words: seq<Word>)
    requires |words| == |ctx| && forall k | 0 <= k < |ctx| :: words[k] == Codeword(ctx[k])
    requires Codable(ctx) && forall i, j | 0 <= i < j < |words| :: Differ(words[i], words[j])
    requires KraftSum(words, MaxLen(ctx)) == Pow2(MaxLen(ctx))
    requires exists k :: 0 <= k < |ctx| && ctx[k].symbol == ESCAPE
    ensures ContextOk(ctx) && HasEscape(ctx) && FullTree(ctx)
  {
    hide Words, KraftSum, Pow2, MaxLen, PrefixFree, Codeword, Codable, Differ, Apart;
    WordsAre(ctx, words);
    forall i, j | 0 <= i < j < |words| ensures Apart(words[i], words[j]) {
      DifferApart(words[i], words[j]);
    }
    PairwiseApart(words);
    var k :| 0 <= k < |ctx| && ctx[k].symbol == ESCAPE;
    assert ctx[k] in ctx;
  }

  lemma Powers()
    ensures Pow2(0) == 1 && Pow2(1) == 2 && Pow2(2) == 4 && Pow2(3) == 8
  {
  }

  lemma Context33()
    ensures var ctx := TitleContext(33); ContextOk(ctx) && HasEscape(ctx) && FullTree(ctx)
  {
    hide Codeword;
    var ctx := TitleContext(33);
    var words: seq<Word> := [[1], [0, 1], [0, 0]];
    ShortWords(ctx[0]);
    ShortWords(ctx[1]);
    ShortWords(ctx[2]);
    Powers();
    assert MaxLen(ctx) == 2;
    assert ctx[1].symbol == ESCAPE;
    InOrder(ctx, words);
  }

  lemma Context36()
    ensures var ctx := TitleContext(36); ContextOk(ctx) && HasEscape(ctx) && FullTree(ctx)
  {
    hide Codeword;
    var ctx := TitleContext(36);
    var words: seq<Word> := [[1], [0]];
    ShortWords(ctx[0]);
    ShortWords(ctx[1]);
    Powers();
    assert MaxLen(ctx) == 1;
    assert ctx[0].symbol == ESCAPE;
    InOrder(ctx, words);
  }

  lemma Context42()
    ensures var ctx := TitleContext(42); ContextOk(ctx) && HasEscape(ctx) && FullTree(ctx)
  {
    hide Codeword;
    var ctx := TitleContext(42);
    var words: seq<Word> := [[0, 0], [0, 1], [1, 0], [1, 1]];
    ShortWords(ctx[0]);
    ShortWords(ctx[1]);
    ShortWords(ctx[2]);
    ShortWords(ctx[3]);
    Powers();
    assert MaxLen(ctx) == 2;
    assert ctx[0].symbol == ESCAPE;
    InOrder(ctx, words);
  }

  lemma Context48()
    ensures var ctx := TitleContext(48); ContextOk(ctx) && HasEscape(ctx) && FullTree(ctx)
  {
    hide Codeword;
    var ctx := TitleContext(48);
    var words: seq<Word> := [[0, 1], [0, 0, 1], [1, 0], [0, 0, 0], [1, 1]];
    ShortWords(ctx[0]);
    ShortWords(ctx[1]);
    ShortWords(ctx[2]);
    ShortWords(ctx[3]);
    ShortWords(ctx[4]);
    Powers();
    assert MaxLen(ctx) == 3;
    assert ctx[1].symbol == ESCAPE;
    InOrder(ctx, words);
  }

  lemma ContextInOrder(prior: Byte)
    requires prior < RAW_FROM
    ensures var ctx := TitleContext(prior);
            ContextOk(ctx) && HasEscape(ctx) && (FullTree(ctx) || LoneEscape(ctx, prior))
  {
    hide ContextOk, HasEscape, FullTree;
    Context33();
    Context36();
    Context42();
    Context48();
    LoneContextOk(prior);
  }

  /** The sample has the shipped shape, with complete trees of several codes and 27 alone in its own context. */
  lemma SampleIsShipped()
    ensures Shipped(Sample(128)) && LoneEscape(Context(Sample(128), ESCAPE), ESCAPE)
    ensures FullTree(Context(Sample(128), 48)) && |Context(Sample(128), 48)| == 5
  {
    hide ContextOk, HasEscape, FullTree, Context, Sample;
    forall prior: Byte | prior < RAW_FROM
      ensures var ctx := Context(Sample(128), prior);
              ContextOk(ctx) && HasEscape(ctx) && (FullTree(ctx) || LoneEscape(ctx, prior))
    {
      SampleContext(prior);
      ContextInOrder(prior);
    }
    SampleContext(ESCAPE);
    SampleContext(48);
    Context48();
  }

  /** So the texts that every well-formed table returns are exactly the encodable ones. */
  lemma EncodableUnderAll(text: seq<Byte>)
    ensures Encodable(text, 0) <==>
            forall table | WellFormed(table) && Escapable(table) :: ComesBack(table, text)
  {
    hide ComesBack, WellFormed, Escapable, Encodable, Sample, LoneEscape, FullTree;
    if Encodable(text, 0) {
      forall table | WellFormed(table) && Escapable(table) ensures ComesBack(table, text) {
        HuffmanRoundTrip(table, text);
      }
    } else {
      SampleIsShipped();
      ShippedIsWellFormed();
      EncodableExactly(Sample(128), text);
    }
  }

  lemma ShippedIsWellFormed()
    ensures Shipped(Sample(128)) ==> WellFormed(Sample(128))
  {
    hide Sample;
  }
}
