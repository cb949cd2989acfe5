/** The order-1 Huffman text code of annex C of ATSC A/65:2013. */
module Huffman {
  import opened Arithmetic
  import opened Bytes
  import opened Kraft
  import opened Wrappers

  const ESCAPE: Byte := 27
  const RAW_FROM: Byte := 128

  datatype Entry = Entry(prior: Byte, symbol: Byte, len: nat, code: nat)

  type Table = seq<Entry>

  function Codeword(e: Entry): Word {
    Binary(e.code, e.len)
  }

  // ---- Tables ----

  /** Entries before the first one whose prior is not below `p`: the partition point of a sorted table. */
  function PartitionPoint(table: Table, p: nat): (n: nat)
    ensures n <= |table|
  {
    if table == [] || table[0].prior as nat >= p then 0 else 1 + PartitionPoint(table[1..], p)
  }

  lemma {:induction false} PartitionOrder(table: Table, p: nat, q: nat)
    requires p <= q
    ensures PartitionPoint(table, p) <= PartitionPoint(table, q)
  {
    if table != [] {
      PartitionOrder(table[1..], p, q);
    }
  }

  /** The slice of one order-1 context. */
  function Context(table: Table, prior: Byte): seq<Entry> {
    PartitionOrder(table, prior as nat, prior as nat + 1);
    table[PartitionPoint(table, prior as nat)..PartitionPoint(table, prior as nat + 1)]
  }

  predicate Sorted(table: Table) {
    forall i, j | 0 <= i < j < |table| ::
      table[i].prior < table[j].prior || (table[i].prior == table[j].prior && table[i].symbol < table[j].symbol)
  }

  lemma {:induction false} PartitionSplits(table: Table, p: nat)
    requires Sorted(table)
    ensures forall i | 0 <= i < |table| :: table[i].prior as nat < p <==> i < PartitionPoint(table, p)
  {
    if table != [] {
      var tail := table[1..];
      assert forall i | 0 <= i < |tail| :: tail[i] == table[i + 1];
      PartitionSplits(tail, p);
      forall i | 0 <= i < |table| ensures table[i].prior as nat < p <==> i < PartitionPoint(table, p) {
        if i > 0 {
          assert tail[i - 1] == table[i];
        }
      }
    }
  }

  /** On a sorted table the slice holds exactly the entries of its context. */
  lemma ContextIsExact(table: Table, prior: Byte, e: Entry)
    requires Sorted(table)
    ensures e in Context(table, prior) <==> e in table && e.prior == prior
  {
    PartitionSplits(table, prior as nat);
    PartitionSplits(table, prior as nat + 1);
    PartitionOrder(table, prior as nat, prior as nat + 1);
    var lo := PartitionPoint(table, prior as nat);
    if e in table && e.prior == prior {
      var i :| 0 <= i < |table| && table[i] == e;
      assert Context(table, prior)[i - lo] == e;
    }
  }

  function Words(ctx: seq<Entry>): (w: seq<Word>)
    ensures |w| == |ctx|
  {
    if ctx == [] then [] else [Codeword(ctx[0])] + Words(ctx[1..])
  }

  lemma {:induction false} WordsMembers(ctx: seq<Entry>)
    ensures forall e | e in ctx :: Codeword(e) in Words(ctx)
    ensures forall w | w in Words(ctx) :: exists e :: e in ctx && Codeword(e) == w
  {
    if ctx != [] {
      WordsMembers(ctx[1..]);
      forall w | w in Words(ctx) ensures exists e :: e in ctx && Codeword(e) == w {
        if w == Codeword(ctx[0]) {
          assert ctx[0] in ctx;
        } else {
          assert w in Words(ctx[1..]);
          var e :| e in ctx[1..] && Codeword(e) == w;
          assert e in ctx;
        }
      }
    }
  }

  /** Lengths the 16-bit accumulator can hold, and codes that fit them. */
  predicate Codable(ctx: seq<Entry>) {
    forall e | e in ctx :: 1 <= e.len <= 16 && e.code < Pow2(e.len)
  }

  ghost predicate ContextOk(ctx: seq<Entry>) {
    Codable(ctx) && PrefixFree(Words(ctx))
  }

  predicate HasEscape(ctx: seq<Entry>) {
    exists e :: e in ctx && e.symbol == ESCAPE
  }

  /** What the shipped tables satisfy: every context below 128 is a prefix code with an escape. */
  ghost predicate WellFormed(table: Table) {
    forall prior: Byte | prior < RAW_FROM :: ContextOk(Context(table, prior)) && HasEscape(Context(table, prior))
  }

  // ---- One code ----

  function MaxLen(ctx: seq<Entry>): nat {
    if ctx == [] then 0
    else
      var more := MaxLen(ctx[1..]);
      if ctx[0].len > more then ctx[0].len else more
  }

  lemma {:induction false} MaxLenBounds(ctx: seq<Entry>)
    ensures forall e | e in ctx :: e.len <= MaxLen(ctx)
    ensures ctx != [] ==> exists e :: e in ctx && e.len == MaxLen(ctx)
  {
    if ctx != [] {
      MaxLenBounds(ctx[1..]);
      if ctx[0].len > MaxLen(ctx[1..]) || ctx[1..] == [] {
        assert ctx[0] in ctx;
      } else {
        var e :| e in ctx[1..] && e.len == MaxLen(ctx[1..]);
        assert e in ctx;
      }
    }
  }

  /** The first entry of the context with this length and code. */
  function FindCode(ctx: seq<Entry>, len: nat, code: nat): Option<Byte> {
    if ctx == [] then None
    else if ctx[0].len == len && ctx[0].code == code then Some(ctx[0].symbol)
    else FindCode(ctx[1..], len, code)
  }

  datatype CodeRead = Exhausted | NoMatch | Symbol(symbol: Byte, used: nat)

  /** Bit by bit from the `n`-th, `acc` holding the bits before it in 16 bits. */
  function ReadCode(ctx: seq<Entry>, bits: seq<Bit>, n: nat, acc: nat): (r: CodeRead)
    ensures r.Symbol? ==> n < r.used <= |bits|
    decreases |bits| - n
  {
    if n >= |bits| then Exhausted
    else
      var acc' := acc * 2 % 0x1_0000 + bits[n] as nat;
      match FindCode(ctx, n + 1, acc')
      case Some(symbol) => Symbol(symbol, n + 1)
      case None => if n + 1 >= MaxLen(ctx) then NoMatch else ReadCode(ctx, bits, n + 1, acc')
  }

  ghost predicate Starts(ctx: seq<Entry>, bits: seq<Bit>, upTo: nat) {
    exists e :: e in ctx && e.len <= upTo && Codeword(e) <= bits
  }

  lemma {:induction false} FindCodeMeaning(ctx: seq<Entry>, len: nat, code: nat)
    ensures match FindCode(ctx, len, code)
            case Some(s) => exists e :: e in ctx && e.len == len && e.code == code && e.symbol == s
            case None => forall e | e in ctx :: !(e.len == len && e.code == code)
  {
    if ctx != [] {
      FindCodeMeaning(ctx[1..], len, code);
      if ctx[0].len == len && ctx[0].code == code {
        assert ctx[0] in ctx;
      } else if FindCode(ctx[1..], len, code).Some? {
        var e :| e in ctx[1..] && e.len == len && e.code == code && e.symbol == FindCode(ctx[1..], len, code).value;
        assert e in ctx;
      }
    }
  }

  /** A codeword starts the bits exactly when its number is the value of that many of them. */
  lemma CodewordStarts(e: Entry, bits: seq<Bit>)
    requires e.code < Pow2(e.len)
    ensures Codeword(e) <= bits <==> e.len <= |bits| && e.code == Value(bits[..e.len])
  {
    ValueOfBinary(e.code, e.len);
    if e.len <= |bits| {
      BinaryOfValue(bits[..e.len]);
      assert Codeword(e) <= bits <==> bits[..e.len] == Codeword(e);
    }
  }

  lemma Accumulate(bits: seq<Bit>, n: nat)
    requires n < |bits| && n < 16
    ensures Value(bits[..n]) * 2 % 0x1_0000 + bits[n] as nat == Value(bits[..n + 1])
  {
    assert bits[..n + 1][..n] == bits[..n];
    SmallPow2(n);
    assert Value(bits[..n]) * 2 < 0x1_0000;
  }

  lemma SmallPow2(n: nat)
    requires n < 16
    ensures Pow2(n) <= 0x8000
  {
    assert Pow2(4) == 16;
    assert Pow2(8) == 256;
    assert Pow2(12) == 4096;
    assert Pow2(15) == 0x8000;
    Pow2Monotone(n, 15);
  }

  /** A result of the bit-by-bit search, in terms of codewords. */
  ghost predicate Decided(ctx: seq<Entry>, bits: seq<Bit>, r: CodeRead) {
    match r
    case Symbol(s, used) => exists e :: e in ctx && e.symbol == s && e.len == used && Codeword(e) <= bits
    case NoMatch => MaxLen(ctx) <= |bits| && !Starts(ctx, bits, |bits|)
    case Exhausted => |bits| < MaxLen(ctx) && !Starts(ctx, bits, |bits|)
  }

  lemma ReadCodeStep(ctx: seq<Entry>, bits: seq<Bit>, n: nat)
    requires n < |bits| && n < 16
    ensures var acc := Value(bits[..n + 1]);
            var found := FindCode(ctx, n + 1, acc);
            ReadCode(ctx, bits, n, Value(bits[..n])) ==
            if found.Some? then Symbol(found.value, n + 1)
            else if n + 1 >= MaxLen(ctx) then NoMatch else ReadCode(ctx, bits, n + 1, acc)
  {
    hide Value, MaxLen, FindCode;
    Accumulate(bits, n);
  }

  /** One bit more either completes a codeword or starts none. */
  lemma LongerStart(ctx: seq<Entry>, bits: seq<Bit>, n: nat)
    requires Codable(ctx) && n < |bits| && !Starts(ctx, bits, n)
    ensures var found := FindCode(ctx, n + 1, Value(bits[..n + 1]));
            if found.Some? then Decided(ctx, bits, Symbol(found.value, n + 1)) else !Starts(ctx, bits, n + 1)
  {
    hide Value, MaxLen, FindCode, Codeword, Pow2;
    var acc := Value(bits[..n + 1]);
    FindCodeMeaning(ctx, n + 1, acc);
    forall e | e in ctx && e.len == n + 1
      ensures Codeword(e) <= bits <==> e.code == acc
    {
      CodewordStarts(e, bits);
    }
  }

  lemma NoneLonger(ctx: seq<Entry>, bits: seq<Bit>, n: nat)
    requires ctx != [] && MaxLen(ctx) <= n && !Starts(ctx, bits, n)
    ensures !Starts(ctx, bits, |bits|)
  {
    hide MaxLen, Codeword;
    MaxLenBounds(ctx);
  }

  lemma CodableLength(ctx: seq<Entry>)
    requires Codable(ctx) && ctx != []
    ensures MaxLen(ctx) <= 16
  {
    hide MaxLen;
    MaxLenBounds(ctx);
  }

  lemma {:induction false} ReadCodeMeaning(ctx: seq<Entry>, bits: seq<Bit>, n: nat)
    requires Codable(ctx) && ctx != []
    requires n <= |bits| && n < MaxLen(ctx) && !Starts(ctx, bits, n)
    ensures Decided(ctx, bits, ReadCode(ctx, bits, n, Value(bits[..n])))
    decreases |bits| - n
  {
    if n < |bits| {
      hide *;
      CodableLength(ctx);
      ReadCodeStep(ctx, bits, n);
      LongerStart(ctx, bits, n);
      if FindCode(ctx, n + 1, Value(bits[..n + 1])).None? {
        if n + 1 < MaxLen(ctx) {
          ReadCodeMeaning(ctx, bits, n + 1);
        } else {
          NoneLonger(ctx, bits, n + 1);
          NoMatchDecided(ctx, bits);
        }
      }
    }
  }

  lemma NoMatchDecided(ctx: seq<Entry>, bits: seq<Bit>)
    requires MaxLen(ctx) <= |bits| && !Starts(ctx, bits, |bits|)
    ensures Decided(ctx, bits, NoMatch)
  {
  }

  lemma ReadCodeFromStart(ctx: seq<Entry>, bits: seq<Bit>)
    requires Codable(ctx) && ctx != []
    ensures match ReadCode(ctx, bits, 0, 0)
            case Symbol(s, used) =>
              exists e :: e in ctx && e.symbol == s && e.len == used && Codeword(e) <= bits
            case NoMatch => MaxLen(ctx) <= |bits| && !Starts(ctx, bits, |bits|)
            case Exhausted => |bits| < MaxLen(ctx) && !Starts(ctx, bits, |bits|)
  {
    MaxLenBounds(ctx);
    assert ctx[0] in ctx;
    assert bits[..0] == [];
    ReadCodeMeaning(ctx, bits, 0);
  }

  lemma {:induction false} OneEntryPerWord(ctx: seq<Entry>, e: Entry, f: Entry)
    requires PrefixFree(Words(ctx)) && e in ctx && f in ctx && Codeword(e) == Codeword(f)
    ensures e == f
  {
    var head, tail := ctx[0], ctx[1..];
    assert Words(ctx)[1..] == Words(tail);
    WordsMembers(tail);
    if e in tail && f in tail {
      OneEntryPerWord(tail, e, f);
    } else {
      assert e == head || f == head;
      assert e in tail ==> Apart(Codeword(head), Codeword(e));
      assert f in tail ==> Apart(Codeword(head), Codeword(f));
    }
  }

  /** A codeword reads back as its own symbol, whatever follows. */
  lemma ReadCodeOf(ctx: seq<Entry>, e: Entry, rest: seq<Bit>)
    requires ContextOk(ctx) && e in ctx
    ensures ReadCode(ctx, Codeword(e) + rest, 0, 0) == Symbol(e.symbol, e.len)
  {
    var bits := Codeword(e) + rest;
    assert Codeword(e) <= bits;
    assert Starts(ctx, bits, |bits|);
    ReadCodeFromStart(ctx, bits);
    var r := ReadCode(ctx, bits, 0, 0);
    var f :| f in ctx && f.symbol == r.symbol && f.len == r.used && Codeword(f) <= bits;
    WordsMembers(ctx);
    UniqueStart(Words(ctx), bits, Codeword(e), Codeword(f));
    OneEntryPerWord(ctx, e, f);
  }

  // ---- One character ----

  datatype Step = Char(ch: Byte, used: nat) | Stop | Bad

  /** Eight uncompressed bits after the first `skip`. */
  function RawChar(bits: seq<Bit>, skip: nat): Step
    requires skip <= |bits|
  {
    if |bits| < skip + 8 then Stop
    else
      assert Pow2(8) == 256;
      Char(Value(bits[skip..skip + 8]) as Byte, skip + 8)
  }

  function NextChar(table: Table, bits: seq<Bit>, prior: Byte): (s: Step)
    ensures s.Char? ==> 0 < s.used <= |bits|
  {
    if prior >= RAW_FROM then RawChar(bits, 0)
    else
      var ctx := Context(table, prior);
      if ctx == [] then Bad
      else
        match ReadCode(ctx, bits, 0, 0)
        case Exhausted => Stop
        case NoMatch => Bad
        case Symbol(symbol, used) => if symbol == ESCAPE then RawChar(bits, used) else Char(symbol, used)
  }

  /** The text, or the context and the bits no code in it matched. */
  datatype Decoded = Text(chars: seq<Byte>) | Corrupt(prior: Byte, rest: seq<Bit>)

  function Behind(chars: seq<Byte>, d: Decoded): Decoded {
    if d.Text? then Text(chars + d.chars) else d
  }

  function Decode(table: Table, bits: seq<Bit>, prior: Byte): Decoded
    decreases |bits|
  {
    match NextChar(table, bits, prior)
    case Stop => Text([])
    case Bad => Corrupt(prior, bits)
    case Char(ch, used) => if ch == 0 then Text([]) else Behind([ch], Decode(table, bits[used..], ch))
  }

  class BitReader {
    const data: seq<Byte>
    var pos: nat

    ghost predicate Valid()
      reads this
    {
      pos <= 8 * |data|
    }

    ghost function Rest(): seq<Bit>
      requires Valid()
      reads this
    {
      BitsOf(data)[pos..]
    }

    constructor (bytes: seq<Byte>)
      ensures Valid() && data == bytes && pos == 0
    {
      data, pos := bytes, 0;
    }

    method NextBit() returns (b: Option<Bit>)
      requires Valid()
      modifies this
      ensures Valid()
      ensures if old(Rest()) == [] then b == None && pos == old(pos)
              else b == Some(old(Rest())[0]) && pos == old(pos) + 1
    {
      if pos / 8 >= |data| {
        return None;
      }
      BitAtIs(data, pos);
      b := Some(BitAt(data[pos / 8], pos % 8));
      pos := pos + 1;
    }

    method NextByte() returns (v: Option<Byte>)
      requires Valid()
      modifies this
      ensures Valid()
      ensures var s := RawChar(old(Rest()), 0);
              if s.Char? then v == Some(s.ch) && pos == old(pos) + 8 else v == None
    {
      ghost var rest := Rest();
      var acc := 0;
      for i := 0 to 8
        invariant Valid() && pos == old(pos) + i && i <= |rest|
        invariant acc == Value(rest[..i])
      {
        assert Rest() == rest[i..];
        var b := NextBit();
        if b.None? {
          return None;
        }
        assert rest[..i + 1][..i] == rest[..i];
        acc := 2 * acc + b.value as nat;
      }
      assert rest[0..8] == rest[..8];
      ByteSized(rest[..8]);
      v := Some(acc as Byte);
    }

    /** The inner loop: one code of the context. */
    method NextCode(ctx: seq<Entry>) returns (r: CodeRead)
      requires Valid()
      modifies this
      ensures Valid()
      ensures r == ReadCode(ctx, old(Rest()), 0, 0)
      ensures r.Symbol? ==> pos == old(pos) + r.used
    {
      ghost var rest := Rest();
      var acc: nat, n: nat := 0, 0;
      while true
        invariant Valid() && pos == old(pos) + n && n <= |rest|
        invariant ReadCode(ctx, rest, 0, 0) == ReadCode(ctx, rest, n, acc)
        decreases |rest| - n
      {
        assert Rest() == rest[n..];
        var b := NextBit();
        if b.None? {
          return Exhausted;
        }
        acc := acc * 2 % 0x1_0000 + b.value as nat;
        n := n + 1;
        var found := FindCode(ctx, n, acc);
        if found.Some? {
          return Symbol(found.value, n);
        }
        if n >= MaxLen(ctx) {
          return NoMatch;
        }
      }
    }
  }

  lemma ByteSized(bits: seq<Bit>)
    requires |bits| == 8
    ensures Value(bits) < 256
  {
    assert Pow2(8) == 256;
  }

  function AsOption(d: Decoded): Option<seq<Byte>> {
    if d.Text? then Some(d.chars) else None
  }

  lemma BehindLaws(out: seq<Byte>, ch: Byte, d: Decoded)
    ensures Behind([], d) == d
    ensures Behind(out, Text([])) == Text(out)
    ensures Behind(out, Behind([ch], d)) == Behind(out + [ch], d)
  {
    if d.Text? {
      assert [] + d.chars == d.chars;
      assert out + ([ch] + d.chars) == (out + [ch]) + d.chars;
    }
    assert out + [] == out;
  }

  method HuffmanDecodeText(bytes: seq<Byte>, table: Table) returns (r: Option<seq<Byte>>)
    ensures r == AsOption(Decode(table, BitsOf(bytes), 0))
  {
    hide RawChar, ReadCode, Context, BitsOf, Behind;
    var reader := new BitReader(bytes);
    var prior: Byte := 0;
    var out: seq<Byte> := [];
    BehindLaws([], 0, Decode(table, BitsOf(bytes), 0));
    assert reader.Rest() == BitsOf(bytes);
    while true
      invariant reader.Valid() && reader.data == bytes
      invariant Decode(table, BitsOf(bytes), 0) == Behind(out, Decode(table, reader.Rest(), prior))
      decreases 8 * |bytes| - reader.pos
    {
      ghost var rest, start := reader.Rest(), reader.pos;
      BehindLaws(out, 0, Text([]));
      BehindCorrupt(out, prior, rest);
      var ch: Byte;
      if prior >= RAW_FROM {
        RawCharUses(rest, 0);
        var raw := reader.NextByte();
        if raw.None? {
          return Some(out);
        }
        ch := raw.value;
      } else {
        var ctx := Context(table, prior);
        if ctx == [] {
          return None;
        }
        var code := reader.NextCode(ctx);
        if code.Exhausted? {
          return Some(out);
        }
        if code.NoMatch? {
          return None;
        }
        if code.symbol == ESCAPE {
          assert reader.Rest() == rest[code.used..];
          RawCharUses(rest, code.used);
          var raw := reader.NextByte();
          if raw.None? {
            return Some(out);
          }
          ch := raw.value;
        } else {
          ch := code.symbol;
        }
      }
      assert reader.pos > start;
      assert NextChar(table, rest, prior) == Char(ch, reader.pos - start);
      assert reader.Rest() == rest[reader.pos - start..];
      if ch == 0 {
        return Some(out);
      }
      BehindLaws(out, ch, Decode(table, reader.Rest(), ch));
      out := out + [ch];
      prior := ch;
    }
  }

  lemma BehindCorrupt(out: seq<Byte>, prior: Byte, rest: seq<Bit>)
    ensures Behind(out, Corrupt(prior, rest)) == Corrupt(prior, rest)
  {
  }

  /** Skipping first or not, the same eight bits. */
  lemma RawCharUses(bits: seq<Bit>, skip: nat)
    requires skip <= |bits|
    ensures match RawChar(bits[skip..], 0)
            case Char(ch, used) => used == 8 && RawChar(bits, skip) == Char(ch, skip + 8)
            case Stop => RawChar(bits, skip) == Stop
            case Bad => false
  {
    if skip + 8 <= |bits| {
      assert bits[skip..][0..8] == bits[skip..skip + 8];
    }
  }
}
