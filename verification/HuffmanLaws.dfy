/** Laws of the annex C text code: totality, round trip, stability under truncation. */
module HuffmanLaws {
  import opened Arithmetic
  import opened Bytes
  import opened Huffman
  import opened Kraft
  import opened Wrappers

  // ---- Totality ----

  /** The context's code words cover every bit string: its Kraft sum is exactly one. */
  predicate FullTree(ctx: seq<Entry>) {
    KraftSum(Words(ctx), MaxLen(ctx)) == Pow2(MaxLen(ctx))
  }

  lemma StartsIsStartsCode(ctx: seq<Entry>, bits: seq<Bit>)
    ensures Starts(ctx, bits, |bits|) <==> StartsCode(Words(ctx), bits)
  {
    WordsMembers(ctx);
    if w :| w in Words(ctx) && w <= bits {
      var e :| e in ctx && Codeword(e) == w;
      assert e.len <= |bits|;
    }
  }

  lemma WordsBounded(ctx: seq<Entry>)
    ensures Bounded(Words(ctx), MaxLen(ctx))
  {
    WordsMembers(ctx);
    MaxLenBounds(ctx);
    forall w | w in Words(ctx) ensures |w| <= MaxLen(ctx) {
      var e :| e in ctx && Codeword(e) == w;
    }
  }

  /** A code word that starts a longer string starts any prefix at least as long as the longest code. */
  lemma StartsPrefix(ctx: seq<Entry>, bits: seq<Bit>)
    requires MaxLen(ctx) <= |bits|
    ensures Starts(ctx, bits, |bits|) <==> Starts(ctx, bits[..MaxLen(ctx)], MaxLen(ctx))
  {
    var cut := bits[..MaxLen(ctx)];
    MaxLenBounds(ctx);
    if e :| e in ctx && e.len <= |bits| && Codeword(e) <= bits {
      assert Codeword(e) == bits[..e.len] == cut[..e.len];
    }
    if e :| e in ctx && e.len <= MaxLen(ctx) && Codeword(e) <= cut {
      assert Codeword(e) == cut[..e.len] == bits[..e.len];
    }
  }

  ghost predicate ReadsAll(ctx: seq<Entry>) {
    forall bits :: ReadCode(ctx, bits, 0, 0) != NoMatch
  }

  /** A context reads every bit string without a mismatch exactly when its Kraft sum is one. */
  lemma ContextTotal(ctx: seq<Entry>)
    requires ContextOk(ctx) && ctx != []
    ensures FullTree(ctx) <==> ReadsAll(ctx)
  {
    hide ReadCode, ContextOk;
    if FullTree(ctx) {
      forall bits ensures ReadCode(ctx, bits, 0, 0) != NoMatch {
        FullTreeReads(ctx, bits);
      }
    }
    if ReadsAll(ctx) {
      ReadsAllIsFull(ctx);
    }
  }

  lemma ReadsAllIsFull(ctx: seq<Entry>)
    requires ContextOk(ctx) && ctx != [] && ReadsAll(ctx)
    ensures FullTree(ctx)
  {
    forall w: Word | |w| == MaxLen(ctx) ensures StartsCode(Words(ctx), w) {
      ReadCodeFromStart(ctx, w);
      var r := ReadCode(ctx, w, 0, 0);
      assert r != NoMatch;
      if r.Symbol? {
        var e :| e in ctx && e.symbol == r.symbol && e.len == r.used && Codeword(e) <= w;
        assert Starts(ctx, w, |w|);
      }
      StartsIsStartsCode(ctx, w);
    }
    WordsBounded(ctx);
    KraftCompleteness(Words(ctx), MaxLen(ctx));
  }

  lemma FullTreeReads(ctx: seq<Entry>, bits: seq<Bit>)
    requires ContextOk(ctx) && ctx != [] && FullTree(ctx)
    ensures ReadCode(ctx, bits, 0, 0) != NoMatch
  {
    WordsBounded(ctx);
    KraftCompleteness(Words(ctx), MaxLen(ctx));
    ReadCodeFromStart(ctx, bits);
    if MaxLen(ctx) <= |bits| {
      var cut := bits[..MaxLen(ctx)];
      assert StartsCode(Words(ctx), cut);
      StartsIsStartsCode(ctx, cut);
      StartsPrefix(ctx, bits);
    }
  }

  /** The spec prints some contexts as the escape alone, at the code '1'. */
  predicate LoneEscape(ctx: seq<Entry>, prior: Byte) {
    ctx == [Entry(prior, ESCAPE, 1, 1)]
  }

  lemma LoneEscapeReads(prior: Byte, bits: seq<Bit>)
    ensures ReadCode([Entry(prior, ESCAPE, 1, 1)], bits, 0, 0) ==
            if bits == [] then Exhausted else if bits[0] == 1 then Symbol(ESCAPE, 1) else NoMatch
  {
    var ctx := [Entry(prior, ESCAPE, 1, 1)];
    assert MaxLen(ctx) == 1 by { assert MaxLen(ctx[1..]) == 0; }
    if bits != [] && bits[0] == 0 {
      assert FindCode(ctx, 1, 0) == FindCode(ctx[1..], 1, 0) == None;
    }
  }

  /** The shape of the shipped tables: a complete tree in every context, or the lone escape. */
  ghost predicate Shipped(table: Table) {
    && WellFormed(table)
    && forall prior: Byte | prior < RAW_FROM ::
         FullTree(Context(table, prior)) || LoneEscape(Context(table, prior), prior)
  }

  /** Decoding fails only on a 0 bit in a lone-escape context; with complete trees throughout, never. */
  lemma {:induction false} OnlyLoneEscapesFail(table: Table, bits: seq<Bit>, prior: Byte)
    requires Shipped(table)
    ensures var d := Decode(table, bits, prior);
            d.Corrupt? ==>
              && d.prior < RAW_FROM && LoneEscape(Context(table, d.prior), d.prior)
              && d.rest != [] && d.rest[0] == 0
    decreases |bits|
  {
    hide Shipped, LoneEscape, NextChar, Context;
    var s := NextChar(table, bits, prior);
    if s.Bad? {
      StepFailure(table, bits, prior);
    }
    if s.Char? && s.ch != 0 {
      OnlyLoneEscapesFail(table, bits[s.used..], s.ch);
    }
  }

  lemma StepFailure(table: Table, bits: seq<Bit>, prior: Byte)
    requires Shipped(table) && NextChar(table, bits, prior).Bad?
    ensures prior < RAW_FROM && LoneEscape(Context(table, prior), prior) && bits != [] && bits[0] == 0
  {
    hide ContextOk, FullTree;
    var ctx := Context(table, prior);
    if FullTree(ctx) {
      FullTreeReads(ctx, bits);
    } else {
      LoneEscapeReads(prior, bits);
    }
  }

  ghost predicate AllFull(table: Table) {
    forall prior: Byte | prior < RAW_FROM :: FullTree(Context(table, prior))
  }

  ghost predicate DecodesAll(table: Table) {
    forall bytes :: Decode(table, BitsOf(bytes), 0).Text?
  }

  /** With a complete tree in every context no bytes are corrupt, and the converse. */
  lemma DecodingIsTotal(table: Table)
    requires WellFormed(table)
    ensures AllFull(table) <==> DecodesAll(table)
  {
    hide *;
    if AllFull(table) {
      AllBytesDecode(table);
    }
    if DecodesAll(table) {
      AllContextsFull(table);
    }
  }

  lemma AllBytesDecode(table: Table)
    requires WellFormed(table) && AllFull(table)
    ensures DecodesAll(table)
  {
    hide WellFormed, AllFull, Decode;
    forall bytes ensures Decode(table, BitsOf(bytes), 0).Text? {
      FullTreesDecode(table, BitsOf(bytes), 0);
    }
  }

  lemma AllContextsFull(table: Table)
    requires WellFormed(table) && DecodesAll(table)
    ensures AllFull(table)
  {
    hide ContextOk, FullTree, Decode, ReadCode;
    forall prior: Byte | prior < RAW_FROM ensures FullTree(Context(table, prior)) {
      forall bits ensures ReadCode(Context(table, prior), bits, 0, 0) != NoMatch {
        if ReadCode(Context(table, prior), bits, 0, 0) == NoMatch {
          var bytes := MismatchStream(table, prior, bits);
          assert false;
        }
      }
      ContextTotal(Context(table, prior));
    }
  }

  lemma {:induction false} FullTreesDecode(table: Table, bits: seq<Bit>, prior: Byte)
    requires WellFormed(table) && AllFull(table)
    ensures Decode(table, bits, prior).Text?
    decreases |bits|
  {
    if prior < RAW_FROM {
      FullTreeReads(Context(table, prior), bits);
    }
    var s := NextChar(table, bits, prior);
    if s.Char? && s.ch != 0 {
      FullTreesDecode(table, bits[s.used..], s.ch);
    }
  }

  // ---- The encoder ----

  function FindSymbol(ctx: seq<Entry>, symbol: Byte): (r: Option<Entry>)
    ensures r.Some? ==> r.value in ctx && r.value.symbol == symbol
    ensures r.None? ==> forall e | e in ctx :: e.symbol != symbol
  {
    if ctx == [] then None
    else if ctx[0].symbol == symbol then Some(ctx[0])
    else FindSymbol(ctx[1..], symbol)
  }

  /** A code of the context, or the escape and eight bits, or eight bits behind a raw character. */
  function EncodeChar(table: Table, prior: Byte, ch: Byte): seq<Bit>
    requires prior < RAW_FROM ==> HasEscape(Context(table, prior))
  {
    if prior >= RAW_FROM then Binary(ch as nat, 8)
    else
      var ctx := Context(table, prior);
      match FindSymbol(ctx, ch)
      case Some(e) => Codeword(e)
      case None => Codeword(FindSymbol(ctx, ESCAPE).value) + Binary(ch as nat, 8)
  }

  ghost predicate Escapable(table: Table) {
    forall prior: Byte | prior < RAW_FROM :: HasEscape(Context(table, prior))
  }

  ghost function EncodeChars(table: Table, chars: seq<Byte>, prior: Byte): seq<Bit>
    requires Escapable(table)
  {
    if chars == [] then []
    else EncodeChar(table, prior, chars[0]) + EncodeChars(table, chars[1..], chars[0])
  }

  /** The whole text, terminated and packed. */
  ghost function EncodeText(table: Table, text: seq<Byte>): seq<Byte>
    requires Escapable(table)
  {
    Pack(EncodeChars(table, text + [0], 0))
  }

  /** No terminator inside, and no escape symbol where a code would be read for it. */
  predicate Encodable(text: seq<Byte>, prior: Byte) {
    text != [] ==>
      && text[0] != 0
      && (text[0] == ESCAPE ==> prior >= RAW_FROM)
      && Encodable(text[1..], text[0])
  }

  // ---- Round trip ----

  lemma RawCharOf(before: seq<Bit>, ch: Byte, rest: seq<Bit>)
    ensures RawChar(before + Binary(ch as nat, 8) + rest, |before|) == Char(ch, |before| + 8)
  {
    var bits := before + Binary(ch as nat, 8) + rest;
    assert bits[|before|..|before| + 8] == Binary(ch as nat, 8);
    assert Pow2(8) == 256;
    ValueOfBinary(ch as nat, 8);
  }

  lemma NextCharOf(table: Table, prior: Byte, ch: Byte, rest: seq<Bit>)
    requires WellFormed(table)
    requires prior >= RAW_FROM || ch != ESCAPE
    ensures var code := EncodeChar(table, prior, ch);
            NextChar(table, code + rest, prior) == Char(ch, |code|)
  {
    hide ReadCode, RawChar, ContextOk;
    if prior >= RAW_FROM {
      assert [] + Binary(ch as nat, 8) + rest == Binary(ch as nat, 8) + rest;
      RawCharOf([], ch, rest);
    } else {
      var ctx := Context(table, prior);
      var found := FindSymbol(ctx, ch);
      if found.Some? {
        ReadCodeOf(ctx, found.value, rest);
      } else {
        var esc := FindSymbol(ctx, ESCAPE).value;
        var raw := Binary(ch as nat, 8);
        ReadCodeOf(ctx, esc, raw + rest);
        RawCharOf(Codeword(esc), ch, rest);
        assert Codeword(esc) + raw + rest == Codeword(esc) + (raw + rest);
      }
    }
  }

  lemma {:induction false} DecodeEncoded(table: Table, text: seq<Byte>, prior: Byte, pad: seq<Bit>)
    requires WellFormed(table) && Encodable(text, prior)
    ensures Escapable(table)
    ensures Decode(table, EncodeChars(table, text + [0], prior) + pad, prior) == Text(text)
    decreases |text|
  {
    hide NextChar, EncodeChar, WellFormed;
    WellFormedEscapes(table);
    var all := text + [0];
    var code := EncodeChar(table, prior, all[0]);
    var rest := EncodeChars(table, all[1..], all[0]) + pad;
    assert EncodeChars(table, all, prior) + pad == code + rest;
    NextCharOf(table, prior, all[0], rest);
    assert (code + rest)[|code|..] == rest;
    if text != [] {
      assert all[1..] == text[1..] + [0];
      DecodeEncoded(table, text[1..], text[0], pad);
      assert [text[0]] + text[1..] == text;
    }
  }

  lemma WellFormedEscapes(table: Table)
    requires WellFormed(table)
    ensures Escapable(table)
  {
  }

  /** Decoding the packed encoding returns the text, through escapes, raw characters and padding. */
  lemma HuffmanRoundTrip(table: Table, text: seq<Byte>)
    requires WellFormed(table) && Encodable(text, 0)
    ensures Escapable(table) && ComesBack(table, text)
  {
    hide Decode, EncodeChars, WellFormed;
    WellFormedEscapes(table);
    var bits := EncodeChars(table, text + [0], 0);
    BitsOfPack(bits);
    DecodeEncoded(table, text, 0, Padding(8 * |Pack(bits)| - |bits|));
  }

  ghost predicate ComesBack(table: Table, text: seq<Byte>)
    requires Escapable(table)
  {
    Decode(table, BitsOf(EncodeText(table, text)), 0) == Text(text)
  }

  // ---- Only encodable texts come back ----

  /** A decoded text never contains the terminator. */
  lemma {:induction false} DecodedHasNoZero(table: Table, bits: seq<Bit>, prior: Byte)
    ensures Decode(table, bits, prior).Text? ==> 0 !in Decode(table, bits, prior).chars
    decreases |bits|
  {
    var s := NextChar(table, bits, prior);
    if s.Char? && s.ch != 0 {
      DecodedHasNoZero(table, bits[s.used..], s.ch);
    }
  }

  /** In a lone-escape context the encoding goes on with a 1 bit. */
  lemma LoneEncodes(table: Table, prior: Byte, ch: Byte)
    requires prior < RAW_FROM && LoneEscape(Context(table, prior), prior)
    ensures HasEscape(Context(table, prior))
    ensures EncodeChar(table, prior, ch) != [] && EncodeChar(table, prior, ch)[0] == 1
  {
    hide Context;
    LoneContextOk(prior);
    LoneCodeword(prior);
    LoneFind(Entry(prior, ESCAPE, 1, 1), ch);
    LoneFind(Entry(prior, ESCAPE, 1, 1), ESCAPE);
  }

  lemma LoneContextOk(prior: Byte)
    ensures var ctx := [Entry(prior, ESCAPE, 1, 1)];
            ContextOk(ctx) && HasEscape(ctx) && LoneEscape(ctx, prior)
  {
    var ctx := [Entry(prior, ESCAPE, 1, 1)];
    assert ctx[0] in ctx;
    assert Pow2(1) == 2;
    assert ctx[1..] == [];
    assert Words(ctx)[1..] == [];
  }

  lemma LoneCodeword(prior: Byte)
    ensures Codeword(Entry(prior, ESCAPE, 1, 1)) == [1]
  {
    assert Binary(1, 1) == Binary(0, 0) + [1];
  }

  lemma LoneFind(e: Entry, ch: Byte)
    ensures FindSymbol([e], ch) == if ch == e.symbol then Some(e) else None
  {
    assert [e][1..] == [];
  }

  lemma HighBitByte(bits: seq<Bit>)
    requires |bits| == 8 && bits[0] == 1
    ensures 128 <= Value(bits) < 256
  {
    assert Value(bits[..1]) == 1 by { assert bits[..1][..0] == []; }
    assert Value(bits[..2]) >= 2 by { assert bits[..2][..1] == bits[..1]; }
    assert Value(bits[..3]) >= 4 by { assert bits[..3][..2] == bits[..2]; }
    assert Value(bits[..4]) >= 8 by { assert bits[..4][..3] == bits[..3]; }
    assert Value(bits[..5]) >= 16 by { assert bits[..5][..4] == bits[..4]; }
    assert Value(bits[..6]) >= 32 by { assert bits[..6][..5] == bits[..5]; }
    assert Value(bits[..7]) >= 64 by { assert bits[..7][..6] == bits[..6]; }
    assert bits[..8] == bits;
    assert Pow2(8) == 256;
  }

  /** The character 27, sent as its own code, is taken for an escape, and what follows for a byte of 128 or above. */
  lemma EscapeMisread(table: Table, more: seq<Byte>, prior: Byte, pad: seq<Bit>)
    requires WellFormed(table) && LoneEscape(Context(table, ESCAPE), ESCAPE)
    requires prior < RAW_FROM && more != []
    ensures Escapable(table)
    ensures var bits := EncodeChar(table, prior, ESCAPE) + (EncodeChars(table, more, ESCAPE) + pad);
            var d := Decode(table, bits, prior);
            d.Text? ==> d.chars == [] || d.chars[0] != ESCAPE
  {
    hide Context, EncodeChar, ReadCode, Value, ContextOk;
    WellFormedEscapes(table);
    LoneEncodes(table, ESCAPE, more[0]);
    var next := EncodeChars(table, more, ESCAPE) + pad;
    assert next[0] == 1;
    var code := EncodeChar(table, prior, ESCAPE);
    EscapeCode(table, prior, next);
    if |next| >= 8 {
      HighBitByte(next[..8]);
      assert (code + next)[|code|..|code| + 8] == next[..8];
    }
  }

  lemma EscapeCode(table: Table, prior: Byte, rest: seq<Bit>)
    requires WellFormed(table) && prior < RAW_FROM
    ensures HasEscape(Context(table, prior)) && Context(table, prior) != []
    ensures var code := EncodeChar(table, prior, ESCAPE);
            ReadCode(Context(table, prior), code + rest, 0, 0) == Symbol(ESCAPE, |code|)
  {
    hide ReadCode, ContextOk;
    var ctx := Context(table, prior);
    ReadCodeOf(ctx, FindSymbol(ctx, ESCAPE).value, rest);
  }

  /** Where 27's own context is the lone escape, a text that is not encodable does not come back. */
  lemma {:induction false} NotEncodable(table: Table, text: seq<Byte>, prior: Byte, pad: seq<Bit>)
    requires WellFormed(table) && LoneEscape(Context(table, ESCAPE), ESCAPE) && !Encodable(text, prior)
    ensures Escapable(table)
    ensures Decode(table, EncodeChars(table, text + [0], prior) + pad, prior) != Text(text)
    decreases |text|
  {
    hide NextChar, EncodeChar, WellFormed, LoneEscape, Escapable, Decode, Behind, Context;
    WellFormedEscapes(table);
    var all := text + [0];
    EncodeSplit(table, text, prior, pad);
    var rest := EncodeChars(table, all[1..], text[0]) + pad;
    assert all[1..] == text[1..] + [0];
    if text[0] == 0 {
      DecodedHasNoZero(table, EncodeChars(table, all, prior) + pad, prior);
    } else if text[0] == ESCAPE && prior < RAW_FROM {
      EscapeMisread(table, all[1..], prior, pad);
    } else {
      NotEncodable(table, text[1..], text[0], pad);
      OneEncoded(table, prior, text[0], rest);
      TailDiffers(text, Decode(table, rest, text[0]));
    }
  }

  lemma EncodeSplit(table: Table, text: seq<Byte>, prior: Byte, pad: seq<Bit>)
    requires Escapable(table) && text != []
    ensures prior < RAW_FROM ==> HasEscape(Context(table, prior))
    ensures var all := text + [0];
            EncodeChars(table, all, prior) + pad ==
            EncodeChar(table, prior, text[0]) + (EncodeChars(table, all[1..], text[0]) + pad)
  {
    hide EncodeChar;
  }

  lemma OneEncoded(table: Table, prior: Byte, ch: Byte, rest: seq<Bit>)
    requires WellFormed(table) && ch != 0 && (prior >= RAW_FROM || ch != ESCAPE)
    ensures prior < RAW_FROM ==> HasEscape(Context(table, prior))
    ensures Decode(table, EncodeChar(table, prior, ch) + rest, prior) == Behind([ch], Decode(table, rest, ch))
  {
    hide NextChar, EncodeChar, Decode, Behind, ContextOk, Context;
    var code := EncodeChar(table, prior, ch);
    NextCharOf(table, prior, ch, rest);
    assert (code + rest)[|code|..] == rest;
    DecodeStep(table, code + rest, prior, ch, |code|);
  }

  lemma DecodeStep(table: Table, bits: seq<Bit>, prior: Byte, ch: Byte, used: nat)
    requires NextChar(table, bits, prior) == Char(ch, used) && ch != 0
    ensures Decode(table, bits, prior) == Behind([ch], Decode(table, bits[used..], ch))
  {
  }

  lemma TailDiffers(text: seq<Byte>, d: Decoded)
    requires text != [] && d != Text(text[1..])
    ensures Behind([text[0]], d) != Text(text)
  {
    if d.Text? {
      assert ([text[0]] + d.chars)[1..] == d.chars;
    }
  }

  /**
   * Under a table whose context 27 is the lone escape, as in both shipped tables, the texts that come back are
   * exactly the encodable ones.
   */
  lemma EncodableExactly(table: Table, text: seq<Byte>)
    requires WellFormed(table) && LoneEscape(Context(table, ESCAPE), ESCAPE)
    ensures Escapable(table) && (ComesBack(table, text) <==> Encodable(text, 0))
  {
    hide Decode, EncodeChars, WellFormed, Encodable, LoneEscape;
    WellFormedEscapes(table);
    if Encodable(text, 0) {
      HuffmanRoundTrip(table, text);
    } else {
      var bits := EncodeChars(table, text + [0], 0);
      BitsOfPack(bits);
      NotEncodable(table, text, 0, Padding(8 * |Pack(bits)| - |bits|));
    }
  }

  // ---- Reaching a context ----

  function LastChar(chars: seq<Byte>, prior: Byte): Byte {
    if chars == [] then prior else chars[|chars| - 1]
  }

  /** Decoding goes through encoded characters to the context they lead to. */
  lemma {:induction false} DecodeBehind(table: Table, chars: seq<Byte>, prior: Byte, rest: seq<Bit>)
    requires WellFormed(table) && Encodable(chars, prior)
    ensures Escapable(table)
    ensures Decode(table, EncodeChars(table, chars, prior) + rest, prior) ==
            Behind(chars, Decode(table, rest, LastChar(chars, prior)))
    decreases |chars|
  {
    hide EncodeChar, WellFormed, Decode, Context, HasEscape;
    WellFormedEscapes(table);
    if chars == [] {
      assert EncodeChars(table, chars, prior) + rest == rest;
      BehindNothing(Decode(table, rest, prior));
    } else {
      var tail := EncodeChars(table, chars[1..], chars[0]);
      OneEncoded(table, prior, chars[0], tail + rest);
      assert EncodeChars(table, chars, prior) + rest == EncodeChar(table, prior, chars[0]) + (tail + rest);
      DecodeBehind(table, chars[1..], chars[0], rest);
      assert [chars[0]] + chars[1..] == chars;
    }
  }

  lemma BehindNothing(d: Decoded)
    ensures Behind([], d) == d
  {
    if d.Text? {
      assert [] + d.chars == d.chars;
    }
  }

  /** Bits no code of a context matches make a stream from the start corrupt: encode the context's character first. */
  lemma MismatchStream(table: Table, prior: Byte, bits: seq<Bit>) returns (bytes: seq<Byte>)
    requires WellFormed(table) && prior < RAW_FROM && ReadCode(Context(table, prior), bits, 0, 0) == NoMatch
    ensures Decode(table, BitsOf(bytes), 0).Corrupt?
  {
    hide ReadCode, EncodeChars, Decode, WellFormed, Context;
    WellFormedEscapes(table);
    var chars := if prior == 0 then [] else if prior == ESCAPE then [RAW_FROM, ESCAPE] else [prior];
    PathEncodable(prior);
    var code := EncodeChars(table, chars, 0);
    bytes := Pack(code + bits);
    BitsOfPack(code + bits);
    var pad := Padding(8 * |bytes| - |code + bits|);
    assert BitsOf(bytes) == code + (bits + pad);
    DecodeBehind(table, chars, 0, bits + pad);
    MismatchStays(table, prior, bits, pad);
  }

  lemma PathEncodable(prior: Byte)
    ensures var chars := if prior == 0 then [] else if prior == ESCAPE then [RAW_FROM, ESCAPE] else [prior];
            Encodable(chars, 0) && LastChar(chars, 0) == prior
  {
  }

  lemma MismatchStays(table: Table, prior: Byte, bits: seq<Bit>, pad: seq<Bit>)
    requires prior < RAW_FROM && ReadCode(Context(table, prior), bits, 0, 0) == NoMatch
    ensures Decode(table, bits + pad, prior).Corrupt?
  {
    hide Context, ReadCode;
    assert (bits + pad)[..|bits|] == bits;
    ReadCodeTruncated(Context(table, prior), bits + pad, |bits|, 0, 0);
  }

  // ---- Truncation ----

  lemma {:induction false} ReadCodeTruncated(ctx: seq<Entry>, bits: seq<Bit>, cut: nat, n: nat, acc: nat)
    requires n <= cut <= |bits|
    ensures var whole, part := ReadCode(ctx, bits, n, acc), ReadCode(ctx, bits[..cut], n, acc);
            part == whole || part == Exhausted
    ensures ReadCode(ctx, bits, n, acc) == Exhausted ==> ReadCode(ctx, bits[..cut], n, acc) == Exhausted
    decreases |bits| - n
  {
    if n < cut {
      var acc' := acc * 2 % 0x1_0000 + bits[n] as nat;
      if FindCode(ctx, n + 1, acc').None? && n + 1 < MaxLen(ctx) {
        ReadCodeTruncated(ctx, bits, cut, n + 1, acc');
      }
    }
  }

  lemma NextCharTruncated(table: Table, bits: seq<Bit>, cut: nat, prior: Byte)
    requires cut <= |bits|
    ensures var whole, part := NextChar(table, bits, prior), NextChar(table, bits[..cut], prior);
            part == whole || part == Stop
  {
    if prior < RAW_FROM {
      ReadCodeTruncated(Context(table, prior), bits, cut, 0, 0);
      var r := ReadCode(Context(table, prior), bits[..cut], 0, 0);
      if r.Symbol? && cut >= r.used + 8 {
        assert bits[..cut][r.used..r.used + 8] == bits[r.used..r.used + 8];
      }
    } else if cut >= 8 {
      assert bits[..cut][0..8] == bits[0..8];
    }
  }

  ghost predicate IsPrefixOf(part: Decoded, whole: Decoded) {
    if whole.Text? then part.Text? && part.chars <= whole.chars else true
  }

  lemma {:induction false} TruncatedBits(table: Table, bits: seq<Bit>, cut: nat, prior: Byte)
    requires cut <= |bits|
    ensures IsPrefixOf(Decode(table, bits[..cut], prior), Decode(table, bits, prior))
    decreases |bits|
  {
    hide NextChar;
    NextCharTruncated(table, bits, cut, prior);
    var s := NextChar(table, bits[..cut], prior);
    if s.Char? && s.ch != 0 {
      assert bits[..cut][s.used..] == bits[s.used..][..cut - s.used];
      TruncatedBits(table, bits[s.used..], cut - s.used, s.ch);
    }
  }

  /** Decoding a byte prefix of a stream that decodes yields a prefix of its text. */
  lemma TruncatedStream(table: Table, bytes: seq<Byte>, more: seq<Byte>)
    ensures IsPrefixOf(Decode(table, BitsOf(bytes), 0), Decode(table, BitsOf(bytes + more), 0))
  {
    BitsOfConcat(bytes, more);
    assert BitsOf(bytes + more)[..8 * |bytes|] == BitsOf(bytes);
    TruncatedBits(table, BitsOf(bytes + more), 8 * |bytes|, 0);
  }
}
