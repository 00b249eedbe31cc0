/** Fixed-width unsigned integers and their big-endian byte encoding
    (`to_be_bytes` / `from_be_bytes`), the reads `read_u16_be` / `read_u32_be`
    on an input indexed by absolute position, and Rust's overflow-checked
    `u16` / `u32` arithmetic. */
module ByteCodec {
  import opened Io

  type Byte = b: int | 0 <= b < 0x100
  type U16 = x: int | 0 <= x < 0x1_0000
  type U32 = x: int | 0 <= x < 0x1_0000_0000

  function Pow256(width: nat): (r: nat)
    ensures r >= 1
  {
    if width == 0 then 1 else 0x100 * Pow256(width - 1)
  }

  /** The `width` low-order bytes of `x`, most significant first. */
  function BigEndian(x: nat, width: nat): (r: seq<Byte>)
    ensures |r| == width
  {
    if width == 0 then [] else BigEndian(x / 0x100, width - 1) + [x % 0x100]
  }

  /** The number whose big-endian bytes are `b`. */
  function FromBigEndian(b: seq<Byte>): (x: nat)
    ensures x < Pow256(|b|)
  {
    if b == [] then 0 else FromBigEndian(b[..|b| - 1]) * 0x100 + b[|b| - 1]
  }

  /** Decoding the bytes of a value that fits in `width` bytes gives it back. */
  lemma {:induction false} FromBigEndianInverse(x: nat, width: nat)
    requires x < Pow256(width)
    ensures FromBigEndian(BigEndian(x, width)) == x
  {
    if width > 0 {
      var b := BigEndian(x, width);
      assert b[..width - 1] == BigEndian(x / 0x100, width - 1);
      FromBigEndianInverse(x / 0x100, width - 1);
    }
  }

  /** Encoding a decoded byte string gives the same bytes back. */
  lemma {:induction false} BigEndianInverse(b: seq<Byte>)
    ensures BigEndian(FromBigEndian(b), |b|) == b
  {
    if b != [] {
      var n := |b| - 1;
      var x := FromBigEndian(b);
      assert x / 0x100 == FromBigEndian(b[..n]) && x % 0x100 == b[n];
      BigEndianInverse(b[..n]);
      assert b[..n] + [b[n]] == b;
    }
  }

  lemma Pow256Values()
    ensures Pow256(2) == 0x1_0000 && Pow256(4) == 0x1_0000_0000
  {
    assert Pow256(1) == 0x100;
    assert Pow256(3) == 0x100_0000;
  }

  /** `u16::to_be_bytes`: the two bytes `write_u16_be` emits. */
  function EncodeU16(x: U16): (r: seq<Byte>)
    ensures |r| == 2
  {
    [x / 0x100, x % 0x100]
  }

  /** `u16::from_be_bytes`. */
  function DecodeU16(b: seq<Byte>): U16
    requires |b| == 2
  {
    b[0] as int * 0x100 + b[1]
  }

  /** `u32::to_be_bytes`: the four bytes `write_u32_be` emits. */
  function EncodeU32(x: U32): (r: seq<Byte>)
    ensures |r| == 4
  {
    [x / 0x100_0000, x / 0x1_0000 % 0x100, x / 0x100 % 0x100, x % 0x100]
  }

  /** `u32::from_be_bytes`. */
  function DecodeU32(b: seq<Byte>): U32
    requires |b| == 4
  {
    ((b[0] as int * 0x100 + b[1]) * 0x100 + b[2]) * 0x100 + b[3]
  }

  /** The fixed-width encoders are the big-endian encoding of their width. */
  lemma EncodeU16IsBigEndian(x: U16)
    ensures EncodeU16(x) == BigEndian(x, 2)
  {
    assert BigEndian(x / 0x100, 1) == BigEndian(x / 0x100 / 0x100, 0) + [x / 0x100 % 0x100];
    assert x / 0x100 % 0x100 == x / 0x100;
  }

  lemma EncodeU32IsBigEndian(x: U32)
    ensures EncodeU32(x) == BigEndian(x, 4)
  {
    var q1 := x / 0x100;
    var q2 := q1 / 0x100;
    var q3 := q2 / 0x100;
    assert q2 == x / 0x1_0000;
    assert q3 == x / 0x100_0000;
    assert q3 % 0x100 == q3;
    assert BigEndian(q3, 1) == [q3 % 0x100];
    assert BigEndian(q2, 2) == BigEndian(q3, 1) + [q2 % 0x100];
    assert BigEndian(q1, 3) == BigEndian(q2, 2) + [q1 % 0x100];
    assert BigEndian(x, 4) == BigEndian(q1, 3) + [x % 0x100];
  }

  /** The fixed-width decoders are big-endian decoding. */
  lemma DecodeU16IsFromBigEndian(b: seq<Byte>)
    requires |b| == 2
    ensures DecodeU16(b) == FromBigEndian(b)
  {
    assert b[..1][..0] == [];
    assert FromBigEndian(b[..1]) == b[0];
  }

  lemma DecodeU32IsFromBigEndian(b: seq<Byte>)
    requires |b| == 4
    ensures DecodeU32(b) == FromBigEndian(b)
  {
    var b1, b2, b3 := b[..1], b[..2], b[..3];
    assert b1[..0] == [] && b2[..1] == b1 && b3[..2] == b2 && b[..3] == b3;
    assert FromBigEndian(b1) == b[0];
    assert FromBigEndian(b2) == b[0] as int * 0x100 + b[1];
    assert FromBigEndian(b3) == (b[0] as int * 0x100 + b[1]) * 0x100 + b[2];
  }

  lemma DecodeEncodeU16(x: U16)
    ensures DecodeU16(EncodeU16(x)) == x
  {
    Pow256Values();
    EncodeU16IsBigEndian(x);
    DecodeU16IsFromBigEndian(EncodeU16(x));
    FromBigEndianInverse(x, 2);
  }

  lemma EncodeDecodeU16(b: seq<Byte>)
    requires |b| == 2
    ensures EncodeU16(DecodeU16(b)) == b
  {
    DecodeU16IsFromBigEndian(b);
    EncodeU16IsBigEndian(DecodeU16(b));
    BigEndianInverse(b);
  }

  lemma DecodeEncodeU32(x: U32)
    ensures DecodeU32(EncodeU32(x)) == x
  {
    Pow256Values();
    EncodeU32IsBigEndian(x);
    DecodeU32IsFromBigEndian(EncodeU32(x));
    FromBigEndianInverse(x, 4);
  }

  lemma EncodeDecodeU32(b: seq<Byte>)
    requires |b| == 4
    ensures EncodeU32(DecodeU32(b)) == b
  {
    DecodeU32IsFromBigEndian(b);
    EncodeU32IsBigEndian(DecodeU32(b));
    BigEndianInverse(b);
  }

  /** `read_u16_be` on an input whose cursor stands at `pos`: it fails exactly
      when fewer than two bytes remain, and otherwise yields the value whose
      big-endian encoding is the next two bytes. */
  function ReadU16(input: seq<Byte>, pos: nat): (r: Result<U16>)
    ensures r.Success? <==> pos + 2 <= |input|
    ensures r.Failure? ==> r.error == UnexpectedEof
  {
    if pos + 2 <= |input| then Success(DecodeU16(input[pos..pos + 2])) else Failure(UnexpectedEof)
  }

  /** A successful read returns the value whose encoding is the 2 bytes at `pos`. */
  lemma ReadU16Encoded(input: seq<Byte>, pos: nat)
    requires pos + 2 <= |input|
    ensures EncodeU16(ReadU16(input, pos).value) == input[pos..pos + 2]
  {
    EncodeDecodeU16(input[pos..pos + 2]);
  }

  /** `read_u32_be`, likewise with four bytes. */
  function ReadU32(input: seq<Byte>, pos: nat): (r: Result<U32>)
    ensures r.Success? <==> pos + 4 <= |input|
    ensures r.Failure? ==> r.error == UnexpectedEof
  {
    if pos + 4 <= |input| then Success(DecodeU32(input[pos..pos + 4])) else Failure(UnexpectedEof)
  }

  /** A successful read returns the value whose encoding is the 4 bytes at `pos`. */
  lemma ReadU32Encoded(input: seq<Byte>, pos: nat)
    requires pos + 4 <= |input|
    ensures EncodeU32(ReadU32(input, pos).value) == input[pos..pos + 4]
  {
    EncodeDecodeU32(input[pos..pos + 4]);
  }

  /** Where a stream holds `a + b` from position `k`, it holds `a` from `k`
      and `b` right after it. */
  lemma SplitAt<T>(stream: seq<T>, k: nat, w: seq<T>, a: seq<T>, b: seq<T>)
    requires k + |w| <= |stream| && stream[k..k + |w|] == w && w == a + b
    ensures stream[k..k + |a|] == a && stream[k + |a|..k + |a| + |b|] == b
  {
    assert stream[k..k + |a|] == (a + b)[..|a|];
    assert stream[k + |a|..k + |a| + |b|] == (a + b)[|a|..];
  }

  /** The encodings are injective, so a read determines its value. */
  lemma EncodeU16Injective(x: U16, y: U16)
    requires EncodeU16(x) == EncodeU16(y)
    ensures x == y
  {
    DecodeEncodeU16(x);
    DecodeEncodeU16(y);
  }

  lemma EncodeU32Injective(x: U32, y: U32)
    requires EncodeU32(x) == EncodeU32(y)
    ensures x == y
  {
    DecodeEncodeU32(x);
    DecodeEncodeU32(y);
  }

  /** `a + b` on `u32` with overflow checks: a panic when the sum leaves the type. */
  function CheckedAddU32(a: U32, b: U32): (r: Result<U32>)
    ensures r.Success? <==> a + b < 0x1_0000_0000
    ensures r.Success? ==> r.value == a + b
    ensures r.Failure? ==> r.error == ArithmeticOverflow
  {
    if a + b < 0x1_0000_0000 then Success(a + b) else Failure(ArithmeticOverflow)
  }

  /** `a * b` on `u16` with overflow checks. */
  function CheckedMulU16(a: U16, b: U16): (r: Result<U16>)
    ensures r.Success? <==> a * b < 0x1_0000
    ensures r.Success? ==> r.value == a * b
    ensures r.Failure? ==> r.error == ArithmeticOverflow
  {
    if a * b < 0x1_0000 then Success(a * b) else Failure(ArithmeticOverflow)
  }
}
