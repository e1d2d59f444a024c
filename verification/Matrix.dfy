/** A `glm::mat4` as the sixteen raw `float` bit patterns it is stored as. The model never
    interprets the floats: the matrix product is a parameter of the operations that need it. */
module Matrix {
  import opened Bytes
  import opened Wrappers

  type Mat4 = m: seq<uint32> | |m| == 16 witness seq(16, _ => 0)

  /** `glm::mat4(1.0f)`: 1.0f on the diagonal, +0.0f elsewhere. */
  function Identity(): (r: Mat4)
    ensures forall i :: 0 <= i < 16 ==> r[i] == (if i % 5 == 0 then ONE_F else 0)
  {
    seq(16, i => if i % 5 == 0 then ONE_F else 0)
  }

  /** The 64 bytes `fwrite` emits for one matrix. */
  function EncodeMat(m: Mat4): (r: seq<byte>)
    ensures |r| == 64
  {
    EncodeWords(m)
  }

  function EncodeMats(ms: seq<Mat4>): (r: seq<byte>)
    ensures |r| == 64 * |ms|
  {
    if ms == [] then [] else EncodeMat(ms[0]) + EncodeMats(ms[1..])
  }

  function ReadMats(input: seq<byte>, n: nat): (r: Result<(seq<Mat4>, seq<byte>)>)
    ensures r.Ok? <==> |input| >= 64 * n
    ensures r.Ok? ==> |r.value.0| == n && r.value.1 == input[64 * n..]
  {
    if n == 0 then Ok(([], input))
    else
      match ReadWords(input, 16)
      case Err(e) => Err(e)
      case Ok((m, rest)) =>
        match ReadMats(rest, n - 1)
        case Err(e) => Err(e)
        case Ok((ms, rest')) => Ok(([m] + ms, rest'))
  }

  lemma {:induction false} ReadMatsEncode(ms: seq<Mat4>, rest: seq<byte>)
    ensures ReadMats(EncodeMats(ms) + rest, |ms|) == Ok((ms, rest))
  {
    if ms != [] {
      var tail := EncodeMats(ms[1..]) + rest;
      var input := EncodeMats(ms) + rest;
      assert input == EncodeWords(ms[0]) + tail;
      ReadWordsEncode(ms[0], tail);
      var w: seq<uint32> := ms[0];
      assert ReadWords(input, 16) == Ok((w, tail));
      ReadMatsEncode(ms[1..], rest);
      assert ReadMats(tail, |ms| - 1) == Ok((ms[1..], rest));
      assert [ms[0]] + ms[1..] == ms;
    }
  }
}
