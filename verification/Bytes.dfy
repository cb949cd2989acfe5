/** Bytes and the bits they hold, most significant first. */
module Bytes {
  import opened Arithmetic

  newtype Byte = b: int | 0 <= b < 256

  newtype Bit = b: int | 0 <= b < 2

  function Zeros(n: nat): (z: seq<Byte>)
    ensures |z| == n
  {
    seq(n, _ => 0)
  }

  /** The number a bit string spells. */
  function Value(bits: seq<Bit>): (v: nat)
    ensures v < Pow2(|bits|)
  {
    if bits == [] then 0 else 2 * Value(bits[..|bits| - 1]) + bits[|bits| - 1] as nat
  }

  /** The low `n` bits of a number. */
  function Binary(v: nat, n: nat): (r: seq<Bit>)
    ensures |r| == n
  {
    if n == 0 then [] else Binary(v / 2, n - 1) + [(v % 2) as Bit]
  }

  lemma {:induction false} ValueOfBinary(v: nat, n: nat)
    ensures v < Pow2(n) ==> Value(Binary(v, n)) == v
  {
    if n > 0 {
      ValueOfBinary(v / 2, n - 1);
      assert Binary(v, n)[..n - 1] == Binary(v / 2, n - 1);
    }
  }

  lemma {:induction false} BinaryOfValue(bits: seq<Bit>)
    ensures Binary(Value(bits), |bits|) == bits
  {
    if bits != [] {
      BinaryOfValue(bits[..|bits| - 1]);
    }
  }

  function ByteBits(b: Byte): (r: seq<Bit>)
    ensures |r| == 8
  {
    Binary(b as nat, 8)
  }

  function BitsOf(data: seq<Byte>): (r: seq<Bit>)
    ensures |r| == 8 * |data|
  {
    if data == [] then [] else ByteBits(data[0]) + BitsOf(data[1..])
  }

  lemma {:induction false} BitsOfAt(data: seq<Byte>, k: nat)
    requires k < 8 * |data|
    ensures BitsOf(data)[k] == ByteBits(data[k / 8])[k % 8]
  {
    if k >= 8 {
      BitsOfAt(data[1..], k - 8);
    }
  }

  lemma {:induction false} BitsOfConcat(a: seq<Byte>, b: seq<Byte>)
    ensures BitsOf(a + b) == BitsOf(a) + BitsOf(b)
  {
    if a == [] {
      assert a + b == b;
    } else {
      assert (a + b)[1..] == a[1..] + b;
      BitsOfConcat(a[1..], b);
    }
  }

  /** The bit a shift and mask pull out of a byte. */
  function BitAt(b: Byte, k: nat): Bit
    requires k < 8
  {
    (b as nat / Pow2(7 - k) % 2) as Bit
  }

  lemma {:induction false} BinaryAt(v: nat, n: nat, k: nat)
    requires k < n
    ensures Binary(v, n)[k] as nat == v / Pow2(n - 1 - k) % 2
  {
    if k < n - 1 {
      BinaryAt(v / 2, n - 1, k);
      HalfThenDivide(v, Pow2(n - 2 - k));
    }
  }

  lemma HalfThenDivide(v: nat, p: nat)
    requires p > 0
    ensures v / 2 / p == v / (2 * p)
  {
    var h := v / 2;
    var q := h / p;
    assert h == q * p + h % p;
    assert v == q * (2 * p) + (2 * (h % p) + v % 2);
    QuotientIs(v, 2 * p, q, 2 * (h % p) + v % 2);
  }

  lemma BitAtIs(data: seq<Byte>, k: nat)
    requires k < 8 * |data|
    ensures BitAt(data[k / 8], k % 8) == BitsOf(data)[k]
  {
    hide BitsOf, Binary, Pow2;
    BitsOfAt(data, k);
    BinaryAt(data[k / 8] as nat, 8, k % 8);
  }

  /** Bits to bytes, the last byte padded with zeros. */
  function Pack(bits: seq<Bit>): (r: seq<Byte>)
    ensures |r| == (|bits| + 7) / 8
    decreases |bits|
  {
    if bits == [] then []
    else if |bits| < 8 then [PackByte(bits + Padding(8 - |bits|))]
    else [PackByte(bits[..8])] + Pack(bits[8..])
  }

  function Padding(n: nat): (z: seq<Bit>)
    ensures |z| == n
  {
    seq(n, _ => 0)
  }

  function PackByte(bits: seq<Bit>): Byte
    requires |bits| == 8
  {
    assert Pow2(8) == 256;
    Value(bits) as Byte
  }

  lemma PackByteBits(bits: seq<Bit>)
    requires |bits| == 8
    ensures ByteBits(PackByte(bits)) == bits
  {
    BinaryOfValue(bits);
  }

  lemma {:induction false} BitsOfPack(bits: seq<Bit>)
    ensures var pad := 8 * |Pack(bits)| - |bits|;
            0 <= pad < 8 && BitsOf(Pack(bits)) == bits + Padding(pad)
    decreases |bits|
  {
    if bits == [] {
    } else if |bits| < 8 {
      PackByteBits(bits + Padding(8 - |bits|));
    } else {
      PackByteBits(bits[..8]);
      BitsOfPack(bits[8..]);
      assert Pack(bits)[1..] == Pack(bits[8..]);
      assert bits == bits[..8] + bits[8..];
    }
  }
}
