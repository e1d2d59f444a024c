/** Fixed-width integers and their little-endian byte encodings, as written by `fwrite`
    of the source's plain-old-data structs on a little-endian machine. */
module Bytes {
  import opened Wrappers

  const TWO_32: int := 0x1_0000_0000

  /** Every value of a C `int` is below this bound; signed overflow is undefined behaviour. */
  const INT_LIMIT: nat := 0x8000_0000

  type byte = x: int | 0 <= x < 0x100
  type uint32 = x: int | 0 <= x < 0x1_0000_0000
  type uint64 = x: int | 0 <= x < 0x1_0000_0000_0000_0000
  type int32 = x: int | -0x8000_0000 <= x < 0x8000_0000

  /** A 32-bit float, as its bit pattern: the model moves floats but never computes with them. */
  type Float32 = uint32

  /** The bit pattern of 1.0f. */
  const ONE_F: Float32 := 0x3F80_0000

  /** The C conversion of a non-negative count to `uint32_t` (wraps modulo 2^32). */
  function U32(x: nat): uint32 { x % TWO_32 }

  lemma U32Le(x: nat)
    ensures U32(x) <= x
  {
  }

  lemma U32Small(x: nat)
    requires x < TWO_32
    ensures U32(x) == x
  {
  }

  function EncodeU32(x: uint32): (r: seq<byte>)
    ensures |r| == 4
  {
    var q1 := x / 0x100;
    var q2 := q1 / 0x100;
    var q3 := q2 / 0x100;
    [x % 0x100, q1 % 0x100, q2 % 0x100, q3]
  }

  function DecodeU32(b: seq<byte>): uint32
    requires |b| == 4
  {
    b[0] as int + 0x100 * b[1] as int + 0x1_0000 * b[2] as int + 0x100_0000 * b[3] as int
  }

  lemma DecodeEncodeU32(x: uint32)
    ensures DecodeU32(EncodeU32(x)) == x
  {
    var q1 := x / 0x100;
    var q2 := q1 / 0x100;
    var q3 := q2 / 0x100;
    assert x == x % 0x100 + 0x100 * q1;
    assert q1 == q1 % 0x100 + 0x100 * q2;
    assert q2 == q2 % 0x100 + 0x100 * q3;
  }

  /** Four bytes are the encoding of the word they decode to. */
  lemma EncodeDecodeU32(b: seq<byte>)
    requires |b| == 4
    ensures EncodeU32(DecodeU32(b)) == b
  {
    var q2 := b[2] as int + 0x100 * b[3] as int;
    var q1 := b[1] as int + 0x100 * q2;
    ByteStep(b[0], q1);
    ByteStep(b[1], q2);
    ByteStep(b[2], b[3]);
  }

  lemma ByteStep(a: byte, q: nat)
    ensures (a + 0x100 * q) / 0x100 == q && (a + 0x100 * q) % 0x100 == a
  {
  }

  /** Two's-complement reinterpretation of an `int32_t` as the `uint32_t` with the same bits. */
  function Int32Bits(x: int32): uint32 { if x < 0 then x + TWO_32 else x }

  function BitsInt32(w: uint32): int32 { if w >= 0x8000_0000 then w - TWO_32 else w }

  lemma BitsInt32RoundTrip(x: int32)
    ensures BitsInt32(Int32Bits(x)) == x
  {
  }

  function EncodeWords(ws: seq<uint32>): (r: seq<byte>)
    ensures |r| == 4 * |ws|
  {
    if ws == [] then [] else EncodeU32(ws[0]) + EncodeWords(ws[1..])
  }

  /** `fread` of one `uint32_t`; fewer than four remaining bytes is a short read. */
  function ReadU32(input: seq<byte>): (r: Result<(uint32, seq<byte>)>)
    ensures r.Ok? <==> |input| >= 4
    ensures r.Ok? ==> r.value.1 == input[4..]
  {
    if |input| < 4 then Err(ShortRead) else Ok((DecodeU32(input[..4]), input[4..]))
  }

  /** `fread` of `n` consecutive `uint32_t` values. */
  function ReadWords(input: seq<byte>, n: nat): (r: Result<(seq<uint32>, seq<byte>)>)
    ensures r.Ok? <==> |input| >= 4 * n
    ensures r.Ok? ==> |r.value.0| == n && r.value.1 == input[4 * n..]
  {
    if n == 0 then Ok(([], input))
    else if |input| < 4 then Err(ShortRead)
    else
      match ReadWords(input[4..], n - 1)
      case Err(e) => Err(e)
      case Ok((ws, rest)) => Ok(([DecodeU32(input[..4])] + ws, rest))
  }

  lemma ReadU32Encode(x: uint32, rest: seq<byte>)
    ensures ReadU32(EncodeU32(x) + rest) == Ok((x, rest))
  {
    var input := EncodeU32(x) + rest;
    assert input[..4] == EncodeU32(x);
    assert input[4..] == rest;
    DecodeEncodeU32(x);
  }

  lemma {:induction false} ReadWordsEncode(ws: seq<uint32>, rest: seq<byte>)
    ensures ReadWords(EncodeWords(ws) + rest, |ws|) == Ok((ws, rest))
  {
    if ws != [] {
      var input := EncodeWords(ws) + rest;
      assert input == EncodeU32(ws[0]) + (EncodeWords(ws[1..]) + rest);
      assert input[..4] == EncodeU32(ws[0]);
      assert input[4..] == EncodeWords(ws[1..]) + rest;
      DecodeEncodeU32(ws[0]);
      ReadWordsEncode(ws[1..], rest);
      assert [ws[0]] + ws[1..] == ws;
    }
  }

  // ---------------------------------------------------------------------------------------
  // Powers of two

  function Pow2(k: nat): (r: nat)
    ensures r >= 1
  {
    if k == 0 then 1 else 2 * Pow2(k - 1)
  }

  lemma {:induction false} Pow2Mono(j: nat, k: nat)
    requires j <= k
    ensures Pow2(j) <= Pow2(k)
    decreases k
  {
    if j < k {
      Pow2Mono(j, k - 1);
    }
  }

  lemma {:induction false} Pow2Add(a: nat, b: nat)
    ensures Pow2(a + b) == Pow2(a) * Pow2(b)
  {
    if a > 0 {
      Pow2Add(a - 1, b);
      assert Pow2(a + b) == 2 * Pow2(a - 1 + b);
    }
  }
}
