/** The RBSP bit reader, its writer, and Exp-Golomb codes at any bit position. */
module ExpGolomb {
  import opened Arithmetic
  import opened Bytes
  import opened Wrappers

  const U32: nat := 0x1_0000_0000

  /** `n` bits as a 32-bit number, the shift dropping what no longer fits. */
  function ReadU(bits: seq<Bit>, n: nat): (v: Option<nat>)
    ensures v.None? <==> |bits| < n
  {
    if |bits| < n then None else Some(Value(bits[..n]) % U32)
  }

  function LeadingZeros(bits: seq<Bit>): (z: nat)
    ensures z <= |bits|
    ensures forall i | 0 <= i < z :: bits[i] == 0
    ensures z < |bits| ==> bits[z] == 1
  {
    if bits == [] || bits[0] == 1 then 0 else 1 + LeadingZeros(bits[1..])
  }

  /** A decoded number and the bits consumed, whether or not decoding succeeded. */
  datatype Parsed = Parsed(value: Option<nat>, used: nat)

  function ReadUe(bits: seq<Bit>): (p: Parsed)
    ensures p.used <= |bits|
  {
    var z := LeadingZeros(bits);
    if z > 31 then Parsed(None, 32)
    else if |bits| < 2 * z + 1 then Parsed(None, |bits|)
    else
      var v := Pow2(z) - 1 + ReadU(bits[z + 1..], z).value;
      Parsed(Some(if v < U32 then v else U32 - 1), 2 * z + 1)
  }

  function SeOf(k: nat): int {
    if k % 2 == 1 then (k + 1) / 2 else -(k / 2)
  }

  class Bits {
    const b: seq<Byte>
    var pos: nat

    ghost predicate Valid()
      reads this
    {
      pos <= 8 * |b|
    }

    /** The bits not read yet. */
    ghost function Rest(): seq<Bit>
      requires Valid()
      reads this
    {
      BitsOf(b)[pos..]
    }

    constructor (data: seq<Byte>)
      ensures Valid() && b == data && pos == 0
    {
      b, pos := data, 0;
    }

    method U(n: nat) returns (v: Option<nat>)
      requires Valid()
      modifies this
      ensures Valid()
      ensures v == ReadU(old(Rest()), n)
      ensures pos == if v.Some? then old(pos) + n else 8 * |b|
    {
      ghost var rest := Rest();
      var acc := 0;
      for i := 0 to n
        invariant Valid() && pos == old(pos) + i
        invariant i <= |rest| && acc == Value(rest[..i]) % U32
      {
        if pos / 8 >= |b| {
          return None;
        }
        BitAtIs(b, pos);
        AppendBit(rest, i);
        acc := (2 * acc) % U32 + BitAt(b[pos / 8], pos % 8) as nat;
        pos := pos + 1;
      }
      v := Some(acc);
    }

    /** ue(v). */
    method Ue() returns (v: Option<nat>)
      requires Valid()
      modifies this
      ensures Valid() && old(pos) <= pos
      ensures Parsed(v, pos - old(pos)) == ReadUe(old(Rest()))
    {
      hide ReadU, BitsOf, Value, Pow2;
      Pow2Of0();
      ghost var rest := Rest();
      var zeros := 0;
      while true
        invariant Valid() && pos == old(pos) + zeros && zeros <= 31
        invariant zeros <= LeadingZeros(rest)
        decreases 32 - zeros
      {
        assert Rest() == rest[zeros..];
        var bit := U(1);
        if bit.None? {
          return None;
        }
        OneBit(rest, zeros);
        if bit.value != 0 {
          break;
        }
        zeros := zeros + 1;
        if zeros > 31 {
          return None;
        }
      }
      assert Rest() == rest[zeros + 1..];
      var suffix := U(zeros);
      if suffix.None? {
        return None;
      }
      var sum := Pow2(zeros) - 1 + suffix.value;
      v := Some(if sum < U32 then sum else U32 - 1);
    }

    /** se(v). */
    method Se() returns (v: Option<int>)
      requires Valid()
      modifies this
      ensures Valid()
      ensures var p := ReadUe(old(Rest()));
              && pos == old(pos) + p.used
              && v == if p.value.Some? then Some(SeOf(p.value.value)) else None
    {
      var k := Ue();
      if k.None? {
        return None;
      }
      var code: int := k.value;
      v := Some(if code % 2 == 1 then (code + 1) / 2 else -(code / 2));
    }
  }

  lemma Pow2Of0()
    ensures Pow2(0) == 1
  {
  }

  lemma OneBit(rest: seq<Bit>, i: nat)
    requires i < |rest|
    ensures ReadU(rest[i..], 1) == Some(rest[i] as nat)
  {
    assert rest[i..][..1] == [rest[i]];
    assert [rest[i]][..0] == [];
    assert Value([rest[i]]) == 2 * Value([]) + rest[i] as nat;
  }

  lemma AppendBit(rest: seq<Bit>, i: nat)
    requires i < |rest|
    ensures Value(rest[..i + 1]) % U32 == (2 * (Value(rest[..i]) % U32)) % U32 + rest[i] as nat
  {
    assert rest[..i + 1][..i] == rest[..i];
    var v := Value(rest[..i]);
    assert Value(rest[..i + 1]) == 2 * v + rest[i] as nat;
    DoubleMod(v, rest[i] as nat);
  }

  lemma DoubleMod(v: nat, bit: nat)
    requires bit < 2
    ensures (2 * v + bit) % U32 == (2 * (v % U32)) % U32 + bit
  {
    var q, r := v / U32, v % U32;
    assert v == q * U32 + r;
    if r < U32 / 2 {
      QuotientIs(2 * v + bit, U32, 2 * q, 2 * r + bit);
      QuotientIs(2 * r, U32, 0, 2 * r);
    } else {
      QuotientIs(2 * v + bit, U32, 2 * q + 1, 2 * r + bit - U32);
      QuotientIs(2 * r, U32, 1, 2 * r - U32);
    }
  }

  // ---- The writer ----

  class Writer {
    var bytes: seq<Byte>
    var count: nat
    ghost var written: seq<Bit>

    ghost predicate Valid()
      reads this
    {
      && |written| == count
      && |bytes| == (count + 7) / 8
      && BitsOf(bytes) == written + Padding(8 * |bytes| - count)
    }

    constructor ()
      ensures Valid() && written == []
    {
      bytes, count, written := [], 0, [];
    }

    /** Append the low `n` bits of `v`, most significant first. */
    method U(n: nat, v: nat)
      requires Valid()
      modifies this
      ensures Valid() && written == old(written) + Binary(v, n)
    {
      for k := 0 to n
        invariant Valid() && written == old(written) + Binary(v, n)[..k]
      {
        BinaryAt(v, n, k);
        WriteBit((v / Pow2(n - 1 - k) % 2) as Bit);
      }
    }

    method WriteBit(bit: Bit)
      requires Valid()
      modifies this
      ensures Valid() && written == old(written) + [bit]
    {
      hide Pow2, BitsOf;
      GrowByte(bytes, written);
      var grown := if count % 8 == 0 then bytes + [0] else bytes;
      SetBit(grown, written, bit);
      var last := |grown| - 1;
      bytes := grown[last := (grown[last] as nat + bit as nat * Pow2(7 - count % 8)) as Byte];
      count := count + 1;
      written := written + [bit];
    }

    method Ue(v: nat)
      requires Valid()
      modifies this
      ensures Valid() && written == old(written) + UeBits(v)
    {
      hide BitsOf, BitLength, Binary, Pow2, Padding;
      var x := v + 1;
      var len := BitLength(x);
      U(len - 1, 0);
      U(len, x);
    }
  }

  lemma GrowByte(bytes: seq<Byte>, written: seq<Bit>)
    requires |bytes| == (|written| + 7) / 8
    requires BitsOf(bytes) == written + Padding(8 * |bytes| - |written|)
    ensures var grown := if |written| % 8 == 0 then bytes + [0] else bytes;
            && grown != [] && 8 * |grown| - 8 <= |written| < 8 * |grown|
            && BitsOf(grown) == written + Padding(8 * |grown| - |written|)
  {
    if |written| % 8 == 0 {
      BitsOfLast(bytes, 0);
      BinaryOfZero(8);
      assert written + Padding(0) == written;
    }
  }

  lemma ByteValue(b: Byte)
    ensures Value(ByteBits(b)) == b as nat
  {
    Pow2Of8();
    ValueOfBinary(b as nat, 8);
  }

  lemma ByteOfBits(s: seq<Bit>, sum: nat)
    requires |s| == 8 && Value(s) == sum
    ensures sum < 256 && ByteBits(sum as Byte) == s
  {
    Pow2Of8();
    BinaryOfValue(s);
  }

  /** Setting the first of a byte's `after + 1` padding bits appends a bit to the ones it holds. */
  lemma SetByteBit(b: Byte, held: seq<Bit>, bit: Bit, after: nat)
    requires |held| + after == 7 && ByteBits(b) == held + Padding(after + 1)
    ensures var sum := b as nat + bit as nat * Pow2(after);
            sum < 256 && ByteBits(sum as Byte) == held + [bit] + Padding(after)
  {
    hide *;
    SetPadding(held, bit, after);
    ByteValue(b);
    ByteOfBits(held + [bit] + Padding(after), b as nat + bit as nat * Pow2(after));
  }

  lemma Pow2Of8()
    ensures Pow2(8) == 256
  {
  }

  /** Setting the first padding bit of the last byte appends a bit. */
  lemma SetBit(bytes: seq<Byte>, written: seq<Bit>, bit: Bit)
    requires bytes != [] && 8 * |bytes| - 8 <= |written| < 8 * |bytes|
    requires BitsOf(bytes) == written + Padding(8 * |bytes| - |written|)
    ensures var last := |bytes| - 1;
            var sum := bytes[last] as nat + bit as nat * Pow2(7 - |written| % 8);
            && sum < 256
            && BitsOf(bytes[last := sum as Byte]) == written + [bit] + Padding(8 * |bytes| - |written| - 1)
  {
    hide BitsOf, ByteBits, Pow2, Padding;
    var last := |bytes| - 1;
    var init := bytes[..last];
    var after := 8 * |bytes| - |written| - 1;
    assert bytes == init + [bytes[last]];
    SetLastBit(init, bytes[last], written, bit, after);
    var sum := bytes[last] as nat + bit as nat * Pow2(after);
    assert bytes[last := sum as Byte] == init + [sum as Byte];
  }

  lemma SetLastBit(init: seq<Byte>, b: Byte, written: seq<Bit>, bit: Bit, after: nat)
    requires 8 * |init| <= |written| && |written| + after == 8 * |init| + 7
    requires BitsOf(init + [b]) == written + Padding(after + 1)
    ensures var sum := b as nat + bit as nat * Pow2(after);
            sum < 256 && BitsOf(init + [sum as Byte]) == written + [bit] + Padding(after)
  {
    hide BitsOf, ByteBits, Pow2, Padding;
    var held := written[8 * |init|..];
    BitsOfLast(init, b);
    Regroup(BitsOf(init), ByteBits(b), written, Padding(after + 1));
    SetByteBit(b, held, bit, after);
    var sum := b as nat + bit as nat * Pow2(after);
    BitsOfLast(init, sum as Byte);
    Reassemble(written, 8 * |init|, [bit], Padding(after));
  }

  lemma Reassemble<T>(s: seq<T>, n: nat, x: seq<T>, y: seq<T>)
    requires n <= |s|
    ensures s[..n] + (s[n..] + x + y) == s + x + y
  {
  }

  lemma Regroup<T>(a: seq<T>, b: seq<T>, c: seq<T>, d: seq<T>)
    requires a + b == c + d && |a| <= |c|
    ensures a == c[..|a|] && b == c[|a|..] + d
  {
    assert a == (a + b)[..|a|] == (c + d)[..|a|];
    assert b == (a + b)[|a|..] == (c + d)[|a|..];
  }

  lemma BitsOfLast(init: seq<Byte>, b: Byte)
    ensures BitsOf(init + [b]) == BitsOf(init) + ByteBits(b)
  {
    BitsOfConcat(init, [b]);
    assert BitsOf([b]) == ByteBits(b) + BitsOf([]) == ByteBits(b);
  }

  lemma {:induction false} SetPadding(bits: seq<Bit>, bit: Bit, after: nat)
    ensures Value(bits + [bit] + Padding(after)) == Value(bits + Padding(after + 1)) + bit as nat * Pow2(after)
  {
    var s, t := bits + [bit] + Padding(after), bits + Padding(after + 1);
    if after == 0 {
      assert s[..|s| - 1] == bits == t[..|t| - 1];
    } else {
      SetPadding(bits, bit, after - 1);
      assert s[..|s| - 1] == bits + [bit] + Padding(after - 1);
      assert t[..|t| - 1] == bits + Padding(after);
      assert s[|s| - 1] == 0 && t[|t| - 1] == 0;
      DoubleProduct(bit as nat, Pow2(after - 1));
    }
  }

  lemma DoubleProduct(a: nat, p: nat)
    ensures 2 * (a * p) == a * (2 * p)
  {
  }

  /** Number of binary digits of a positive number: 64 minus its leading zeros. */
  function BitLength(x: nat): (n: nat)
    requires x > 0
    ensures n > 0
  {
    if x == 1 then 1 else 1 + BitLength(x / 2)
  }

  lemma {:induction false} BitLengthBounds(x: nat)
    requires x > 0
    ensures Pow2(BitLength(x) - 1) <= x < Pow2(BitLength(x))
  {
    if x > 1 {
      BitLengthBounds(x / 2);
    }
  }

  /** floor(log2(x)). */
  function Log2(x: nat): nat
    requires x > 0
  {
    BitLength(x) - 1
  }

  function UeBits(v: nat): (r: seq<Bit>)
    ensures |r| == 2 * Log2(v + 1) + 1
  {
    Binary(0, BitLength(v + 1) - 1) + Binary(v + 1, BitLength(v + 1))
  }

  /** Signed values in coding order: 0, 1, -1, 2, -2, ... */
  function SignedCode(x: int): nat {
    if x > 0 then 2 * x - 1 else -2 * x
  }

  // ---- Round trips ----

  lemma {:induction false} BinaryOfZero(n: nat)
    ensures Binary(0, n) == Padding(n)
  {
    if n > 0 {
      BinaryOfZero(n - 1);
    }
  }

  lemma {:induction false} LeadingZerosOf(n: nat, rest: seq<Bit>)
    requires rest != [] && rest[0] == 1
    ensures LeadingZeros(Padding(n) + rest) == n
  {
    var s := Padding(n) + rest;
    if n == 0 {
      assert s == rest;
    } else {
      assert s[1..] == Padding(n - 1) + rest;
      LeadingZerosOf(n - 1, rest);
    }
  }

  /** The leading digit of a binary number is 1, and the rest spells what is left of it. */
  lemma {:induction false} LeadingDigit(x: nat)
    requires x > 0
    ensures Binary(x, BitLength(x))[0] == 1
    ensures Value(Binary(x, BitLength(x))[1..]) == x - Pow2(BitLength(x) - 1)
  {
    var n := BitLength(x);
    var d := Binary(x, n);
    if x == 1 {
      assert d == Binary(0, 0) + [1];
      assert d[1..] == [];
    } else {
      LeadingDigit(x / 2);
      assert d == Binary(x / 2, n - 1) + [(x % 2) as Bit];
      assert d[1..][..n - 2] == Binary(x / 2, n - 1)[1..];
      assert d[1..][n - 2] as nat == x % 2;
    }
  }

  lemma Pow2Of32()
    ensures Pow2(32) == U32 && Pow2(31) == U32 / 2
  {
    assert Pow2(4) == 16;
    assert Pow2(8) == 256;
    assert Pow2(12) == 4096;
    assert Pow2(16) == 65536;
    assert Pow2(20) == 0x10_0000;
    assert Pow2(24) == 0x100_0000;
    assert Pow2(28) == 0x1000_0000;
  }

  /** The digits fit the 31 zeros the reader allows exactly below 2^32. */
  lemma ShortEnough(x: nat)
    requires x > 0
    ensures BitLength(x) <= 32 <==> x < U32
  {
    BitLengthBounds(x);
    Pow2Of32();
    var n := BitLength(x);
    if n <= 32 {
      Pow2Monotone(n, 32);
    } else {
      Pow2Monotone(32, n - 1);
    }
  }

  /** ue reads back what was written, in exactly 2 floor(log2(v + 1)) + 1 bits, precisely below 2^32 - 1. */
  lemma UeRoundTrip(v: nat, rest: seq<Bit>)
    ensures ReadUe(UeBits(v) + rest) ==
            if v < U32 - 1 then Parsed(Some(v), 2 * Log2(v + 1) + 1) else Parsed(None, 32)
  {
    hide Pow2, Binary, BitLength, Value, LeadingZeros;
    var n := BitLength(v + 1);
    var d := Binary(v + 1, n);
    var s := UeBits(v) + rest;
    BinaryOfZero(n - 1);
    LeadingDigit(v + 1);
    ShortEnough(v + 1);
    assert s == Padding(n - 1) + (d + rest);
    LeadingZerosOf(n - 1, d + rest);
    if v < U32 - 1 {
      Pow2Of32();
      Pow2Monotone(n - 1, 31);
      assert s[n..][..n - 1] == d[1..];
    }
  }

  function ConcatUe(vs: seq<nat>): seq<Bit> {
    if vs == [] then [] else UeBits(vs[0]) + ConcatUe(vs[1..])
  }

  /** `n` fields in a row, and the bits they used. */
  function ReadFields(bits: seq<Bit>, n: nat): (Option<seq<nat>>, nat) {
    if n == 0 then (Some([]), 0)
    else
      var p := ReadUe(bits);
      if p.value.None? then (None, p.used)
      else
        var (more, used) := ReadFields(bits[p.used..], n - 1);
        (if more.Some? then Some([p.value.value] + more.value) else None, p.used + used)
  }

  lemma {:induction false} FieldsRoundTrip(vs: seq<nat>, rest: seq<Bit>)
    requires forall i | 0 <= i < |vs| :: vs[i] < U32 - 1
    ensures ReadFields(ConcatUe(vs) + rest, |vs|) == (Some(vs), |ConcatUe(vs)|)
  {
    hide ReadUe, UeBits, BitsOf, Pow2;
    if vs == [] {
    } else {
      var first := UeBits(vs[0]);
      var tail := ConcatUe(vs[1..]) + rest;
      var bits := ConcatUe(vs) + rest;
      assert bits == first + tail;
      UeRoundTrip(vs[0], tail);
      assert ReadUe(bits) == Parsed(Some(vs[0]), |first|);
      assert bits[|first|..] == tail;
      FieldsRoundTrip(vs[1..], rest);
      FieldsStep(bits, |vs|, vs[0], |first|, vs[1..], |ConcatUe(vs[1..])|);
      assert [vs[0]] + vs[1..] == vs;
    }
  }

  lemma FieldsStep(bits: seq<Bit>, n: nat, v: nat, used: nat, more: seq<nat>, usedMore: nat)
    requires n > 0 && used <= |bits| && ReadUe(bits) == Parsed(Some(v), used)
    requires ReadFields(bits[used..], n - 1) == (Some(more), usedMore)
    ensures ReadFields(bits, n) == (Some([v] + more), used + usedMore)
  {
    hide ReadUe, BitsOf, Pow2, Value;
  }

  /** The signed mapping is a bijection between the codes ue can read and the 32-bit integers but the least. */
  lemma SignedRoundTrip(x: int, k: nat)
    ensures SeOf(SignedCode(x)) == x
    ensures SignedCode(SeOf(k)) == k
    ensures -(U32 / 2) < x < U32 / 2 <==> SignedCode(x) < U32 - 1
  {
  }

  /** A reader positioned anywhere in written bytes gets the field that was written there. */
  lemma FieldAtAnyPosition(data: seq<Byte>, before: seq<Bit>, v: nat, after: seq<Bit>, pad: nat)
    requires BitsOf(data) == before + UeBits(v) + after + Padding(pad)
    requires v < U32 - 1
    ensures ReadUe(BitsOf(data)[|before|..]) == Parsed(Some(v), |UeBits(v)|)
  {
    assert BitsOf(data)[|before|..] == UeBits(v) + (after + Padding(pad));
    UeRoundTrip(v, after + Padding(pad));
  }
}
