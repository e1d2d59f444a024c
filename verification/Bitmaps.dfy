/** `Bitmap`: a width x height (x depth) image of `comp` components per pixel, stored as
    bytes, each component one byte or one 32-bit float. Floats are kept as their bit
    patterns; the conversion between floats and bytes of the unsigned-byte accessors is a
    parameter. */
module Bitmaps {
  import opened Bytes

  datatype Format = UnsignedByte | Float

  /** `getBytesPerComponent`. Both enumerators are covered; its fallback of 0 is not
      reachable from a `Format`. */
  function BytesPerComponent(fmt: Format): (n: nat)
    ensures fmt == UnsignedByte ==> n == 1
    ensures fmt == Float ==> n == 4
  {
    match fmt
    case UnsignedByte => 1
    case Float => 4
  }

  /** `glm::vec4` of floats. */
  datatype Color = Color(x: Float32, y: Float32, z: Float32, w: Float32)

  function Component(c: Color, k: nat): Float32
    requires k < 4
  {
    if k == 0 then c.x else if k == 1 then c.y else if k == 2 then c.z else c.w
  }

  datatype Bitmap = Bitmap(width: int, height: int, depth: int, comp: int, fmt: Format, data: seq<byte>)

  /** The buffer size the constructors allocate. */
  function BufferSize(w: nat, h: nat, d: nat, comp: nat, fmt: Format): nat {
    w * h * d * comp * BytesPerComponent(fmt)
  }

  /** The constructors compute the buffer size as a signed `int` product, multiplying from
      the left. Each partial product must stay below `INT_LIMIT`, since an overflow is
      undefined behaviour. The 2-D constructor is the case `d == 1`. */
  predicate SizeFits(w: nat, h: nat, d: nat, comp: nat, fmt: Format) {
    && w * h < INT_LIMIT
    && w * h * d < INT_LIMIT
    && w * h * d * comp < INT_LIMIT
    && BufferSize(w, h, d, comp, fmt) < INT_LIMIT
  }

  /** The products of one layer fit whenever those of several layers do. */
  lemma LayerFits(w: nat, h: nat, d: nat, comp: nat, fmt: Format)
    requires d >= 1 && SizeFits(w, h, d, comp, fmt)
    ensures SizeFits(w, h, 1, comp, fmt)
    ensures w * h * comp * BytesPerComponent(fmt) <= BufferSize(w, h, d, comp, fmt)
  {
    MulMono(1, d, w * h);
    MulMono(w * h, w * h * d, comp);
    MulMono(w * h * comp, w * h * d * comp, BytesPerComponent(fmt));
    assert w * h * 1 == w * h;
  }

  /** A single layer's size is the product without the depth. */
  lemma OneLayer(w: nat, h: nat, comp: nat, fmt: Format)
    ensures BufferSize(w, h, 1, comp, fmt) == w * h * comp * BytesPerComponent(fmt)
  {
    assert w * h * 1 == w * h;
  }

  /** The 2-D constructor: depth 1 and a zeroed buffer of w * h * comp * bytesPerComponent
      bytes. The result satisfies what the pixel accessors need. */
  function NewBitmap(w: nat, h: nat, comp: nat, fmt: Format): (b: Bitmap)
    requires SizeFits(w, h, 1, comp, fmt)
    ensures |b.data| == w * h * comp * BytesPerComponent(fmt) < INT_LIMIT
    ensures forall i :: 0 <= i < |b.data| ==> b.data[i] == 0
    ensures WellSized(b)
  {
    LayerFits(w, h, 1, comp, fmt);
    Bitmap(w, h, 1, comp, fmt, seq(BufferSize(w, h, 1, comp, fmt), _ => 0))
  }

  /** The 3-D constructor: a zeroed buffer of w * h * d * comp * bytesPerComponent bytes.
      With at least one layer, the first layer serves the pixel accessors. */
  function NewBitmap3D(w: nat, h: nat, d: nat, comp: nat, fmt: Format): (b: Bitmap)
    requires SizeFits(w, h, d, comp, fmt)
    ensures |b.data| == w * h * d * comp * BytesPerComponent(fmt) < INT_LIMIT
    ensures forall i :: 0 <= i < |b.data| ==> b.data[i] == 0
    ensures d >= 1 ==> WellSized(b)
  {
    var b := Bitmap(w, h, d, comp, fmt, seq(BufferSize(w, h, d, comp, fmt), _ => 0));
    if d >= 1 then LayerFits(w, h, d, comp, fmt); b else b
  }

  /** The constructor from a pointer: the 2-D constructor, then the buffer is overwritten
      by a copy of the first bytes there. */
  function BitmapFrom(w: nat, h: nat, comp: nat, fmt: Format, source: seq<byte>): (b: Bitmap)
    requires SizeFits(w, h, 1, comp, fmt)
    requires |source| >= BufferSize(w, h, 1, comp, fmt)
    ensures b.data == source[..w * h * comp * BytesPerComponent(fmt)]
    ensures b.(data := []) == Bitmap(w, h, 1, comp, fmt, [])
    ensures WellSized(b)
  {
    var b := NewBitmap(w, h, comp, fmt);
    b.(data := source[..|b.data|])
  }

  /** What the pixel accessors rely on: the first layer is in the buffer, and the `int`
      arithmetic of a pixel offset cannot overflow. */
  predicate WellSized(b: Bitmap) {
    && b.width >= 0 && b.height >= 0 && b.depth >= 1 && b.comp >= 0
    && |b.data| >= b.width * b.height * b.comp * BytesPerComponent(b.fmt)
    && b.width * b.height < INT_LIMIT
    && b.width * b.height * b.comp < INT_LIMIT
  }

  predicate InImage(b: Bitmap, x: int, y: int) {
    0 <= x < b.width && 0 <= y < b.height
  }

  /** The index of the first component of pixel (x, y), counted in components. In a
      well-sized bitmap every `int` that `mComp * (y * mWidth + x) + k` passes through, for
      k below the component count, is below `INT_LIMIT`. */
  function PixelOffset(b: Bitmap, x: int, y: int): (r: int)
    ensures InImage(b, x, y) && b.comp >= 0 ==> 0 <= r && r + b.comp <= b.width * b.height * b.comp
    ensures InImage(b, x, y) && WellSized(b) ==>
              && 0 <= y * b.width <= y * b.width + x < INT_LIMIT
              && 0 <= r <= r + b.comp < INT_LIMIT
  {
    var r := b.comp * (y * b.width + x);
    if InImage(b, x, y) && b.comp > 0 then
      PixelInBounds(b.width, b.height, b.comp, x, y, b.comp - 1);
      r
    else if InImage(b, x, y) then
      PixelInBounds(b.width, b.height, 1, x, y, 0);
      r
    else r
  }

  /** Every component of a pixel inside the image is inside the first image layer, and the
      pixel's index is below w * h. So no intermediate value exceeds w * h or w * h * comp. */
  lemma PixelInBounds(w: int, h: int, comp: int, x: int, y: int, k: int)
    requires 0 <= x < w && 0 <= y < h && 0 <= k < comp
    ensures 0 <= y * w <= y * w + x < w * h
    ensures 0 <= comp * (y * w + x) + k < w * h * comp
  {
    var i := y * w + x;
    MulMono(0, y, w);
    MulMono(y + 1, h, w);
    assert (y + 1) * w == y * w + w;
    assert i + 1 <= h * w;
    MulMono(0, i, comp);
    MulMono(i + 1, h * w, comp);
    assert comp * (i + 1) == comp * i + comp;
    assert comp * (h * w) == w * h * comp;
  }

  lemma MulMono(a: int, b: int, c: int)
    requires a <= b && c >= 0
    ensures a * c <= b * c && c * a <= c * b
  {
  }

  // ---------------------------------------------------------------------------------------
  // Float components

  /** The float at component index `i` of the buffer. */
  function ReadFloat(data: seq<byte>, i: nat): Float32
    requires 4 * i + 4 <= |data|
  {
    DecodeU32(data[4 * i..4 * i + 4])
  }

  function WriteFloat(data: seq<byte>, i: nat, v: Float32): (r: seq<byte>)
    requires 4 * i + 4 <= |data|
    ensures |r| == |data|
  {
    data[..4 * i] + EncodeU32(v) + data[4 * i + 4..]
  }

  lemma ReadWriteFloat(data: seq<byte>, i: nat, v: Float32, j: nat)
    requires 4 * i + 4 <= |data| && 4 * j + 4 <= |data|
    ensures ReadFloat(WriteFloat(data, i, v), j) == if i == j then v else ReadFloat(data, j)
    ensures forall b :: 0 <= b < |data| && !(4 * i <= b < 4 * i + 4) ==> WriteFloat(data, i, v)[b] == data[b]
  {
    var r := WriteFloat(data, i, v);
    if i == j {
      assert r[4 * i..4 * i + 4] == EncodeU32(v);
      DecodeEncodeU32(v);
    } else {
      assert r[4 * j..4 * j + 4] == data[4 * j..4 * j + 4];
    }
  }

  /** The components `setPixelFloat` writes: the first `comp` of the colour, at most four. */
  function Written(c: Color, comp: int): (ws: seq<Float32>)
    ensures |ws| == if comp < 0 then 0 else if comp > 4 then 4 else comp
  {
    var n := if comp < 0 then 0 else if comp > 4 then 4 else comp;
    seq(n, k requires 0 <= k < n => Component(c, k))
  }

  /** The writes of consecutive components from index `i` on. */
  function WriteFloats(data: seq<byte>, i: nat, ws: seq<Float32>): (r: seq<byte>)
    requires 4 * (i + |ws|) <= |data|
    ensures |r| == |data|
    decreases |ws|
  {
    if ws == [] then data else WriteFloats(WriteFloat(data, i, ws[0]), i + 1, ws[1..])
  }

  /** After the writes, a written index holds its value and every other index is unchanged. */
  lemma {:induction false} WriteFloatsRead(data: seq<byte>, i: nat, ws: seq<Float32>, j: nat)
    requires 4 * (i + |ws|) <= |data| && 4 * j + 4 <= |data|
    ensures ReadFloat(WriteFloats(data, i, ws), j) == if i <= j < i + |ws| then ws[j - i] else ReadFloat(data, j)
    decreases |ws|
  {
    if ws != [] {
      ReadWriteFloat(data, i, ws[0], j);
      WriteFloatsRead(WriteFloat(data, i, ws[0]), i + 1, ws[1..], j);
      if j > i && j < i + |ws| {
        assert ws[1..][j - (i + 1)] == ws[j - i];
      }
    }
  }

  /** The writes leave every byte outside the written indices unchanged. */
  lemma {:induction false} WriteFloatsFrame(data: seq<byte>, i: nat, ws: seq<Float32>)
    requires 4 * (i + |ws|) <= |data|
    ensures forall b :: 0 <= b < |data| && !(4 * i <= b < 4 * (i + |ws|)) ==> WriteFloats(data, i, ws)[b] == data[b]
    decreases |ws|
  {
    if ws != [] {
      ReadWriteFloat(data, i, ws[0], i);
      WriteFloatsFrame(WriteFloat(data, i, ws[0]), i + 1, ws[1..]);
    }
  }

  /** `setPixelFloat`. */
  function SetPixelFloat(b: Bitmap, x: int, y: int, c: Color): (r: Bitmap)
    requires WellSized(b) && b.fmt == Float && InImage(b, x, y)
    ensures r.(data := b.data) == b && |r.data| == |b.data|
  {
    PixelWithinData(b, x, y);
    b.(data := WriteFloats(b.data, PixelOffset(b, x, y), Written(c, b.comp)))
  }

  /** Component `k` of the pixel at component index `off`: 0 (the bits of 0.0f) at and past
      the component count. */
  function ReadComponent(data: seq<byte>, off: nat, comp: int, k: nat): Float32
    requires comp > k ==> 4 * (off + k) + 4 <= |data|
  {
    if comp > k then ReadFloat(data, off + k) else 0
  }

  /** `getPixelFloat`. */
  function GetPixelFloat(b: Bitmap, x: int, y: int): (c: Color)
    requires WellSized(b) && b.fmt == Float && InImage(b, x, y)
    ensures b.comp > 0 ==> c.x == ReadFloat(b.data, PixelOffset(b, x, y))
    ensures b.comp > 1 ==> c.y == ReadFloat(b.data, PixelOffset(b, x, y) + 1)
    ensures b.comp > 2 ==> c.z == ReadFloat(b.data, PixelOffset(b, x, y) + 2)
    ensures b.comp > 3 ==> c.w == ReadFloat(b.data, PixelOffset(b, x, y) + 3)
    ensures forall k :: b.comp <= k < 4 ==> Component(c, k) == 0
  {
    var off := PixelOffset(b, x, y);
    FloatComponentsInData(b, x, y);
    Color(ReadComponent(b.data, off, b.comp, 0), ReadComponent(b.data, off, b.comp, 1),
          ReadComponent(b.data, off, b.comp, 2), ReadComponent(b.data, off, b.comp, 3))
  }

  /** Each present component of a float pixel is a whole float of the buffer, at a float
      index that an `int` holds. */
  lemma FloatComponentsInData(b: Bitmap, x: int, y: int)
    requires WellSized(b) && b.fmt == Float && InImage(b, x, y)
    ensures 0 <= PixelOffset(b, x, y) && 4 * (PixelOffset(b, x, y) + b.comp) <= |b.data|
    ensures PixelOffset(b, x, y) + b.comp < INT_LIMIT
  {
    var n := b.width * b.height * b.comp;
    assert |b.data| >= 4 * n;
  }

  /** The components of a pixel lie in the buffer, whatever the component count, at float
      indices that an `int` holds. */
  lemma PixelWithinData(b: Bitmap, x: int, y: int)
    requires WellSized(b) && b.fmt == Float && InImage(b, x, y)
    ensures PixelOffset(b, x, y) >= 0
    ensures PixelOffset(b, x, y) + |Written(Color(0, 0, 0, 0), b.comp)| < INT_LIMIT
    ensures 4 * (PixelOffset(b, x, y) + |Written(Color(0, 0, 0, 0), b.comp)|) <= |b.data|
  {
    if b.comp > 0 {
      var n := |Written(Color(0, 0, 0, 0), b.comp)|;
      PixelInBounds(b.width, b.height, b.comp, x, y, 0);
      PixelInBounds(b.width, b.height, b.comp, x, y, b.comp - 1);
      assert PixelOffset(b, x, y) + n <= b.width * b.height * b.comp;
    } else {
      assert PixelOffset(b, x, y) == 0;
    }
  }

  /** `getPixel` after `setPixel` on a float bitmap: the written components come back and
      the rest read as 0.0f. */
  lemma FloatGetAfterSet(b: Bitmap, x: int, y: int, c: Color)
    requires WellSized(b) && b.fmt == Float && InImage(b, x, y)
    ensures var g := GetPixelFloat(SetPixelFloat(b, x, y, c), x, y);
            && g.x == (if b.comp > 0 then c.x else 0)
            && g.y == (if b.comp > 1 then c.y else 0)
            && g.z == (if b.comp > 2 then c.z else 0)
            && g.w == (if b.comp > 3 then c.w else 0)
  {
    PixelWithinData(b, x, y);
    var off := PixelOffset(b, x, y);
    var ws := Written(c, b.comp);
    var data := SetPixelFloat(b, x, y, c).data;
    assert data == WriteFloats(b.data, off, ws);
    ComponentAfterWrite(b.data, off, b.comp, c, 0);
    ComponentAfterWrite(b.data, off, b.comp, c, 1);
    ComponentAfterWrite(b.data, off, b.comp, c, 2);
    ComponentAfterWrite(b.data, off, b.comp, c, 3);
  }

  lemma ComponentAfterWrite(data: seq<byte>, off: nat, comp: int, c: Color, k: nat)
    requires 4 * (off + |Written(c, comp)|) <= |data| && k < 4
    ensures ReadComponent(WriteFloats(data, off, Written(c, comp)), off, comp, k) == if comp > k then Component(c, k) else 0
  {
    if comp > k {
      WriteFloatsRead(data, off, Written(c, comp), off + k);
    }
  }

  /** `setPixel` on a float bitmap changes only the bytes of the pixel's written components. */
  lemma FloatSetFrame(b: Bitmap, x: int, y: int, c: Color)
    requires WellSized(b) && b.fmt == Float && InImage(b, x, y)
    ensures var off := PixelOffset(b, x, y);
            var n := |Written(c, b.comp)|;
            forall i :: 0 <= i < |b.data| && !(4 * off <= i < 4 * (off + n)) ==>
              SetPixelFloat(b, x, y, c).data[i] == b.data[i]
  {
    PixelWithinData(b, x, y);
    WriteFloatsFrame(b.data, PixelOffset(b, x, y), Written(c, b.comp));
  }

  // ---------------------------------------------------------------------------------------
  // Unsigned-byte components

  /** The writes of `setPixelUnsignedByte`, one byte per component, converted by `toByte`. */
  function WriteBytes(data: seq<byte>, i: nat, ws: seq<Float32>, toByte: Float32 -> byte): (r: seq<byte>)
    requires i + |ws| <= |data|
    ensures |r| == |data|
    ensures forall j :: 0 <= j < |data| ==> r[j] == if i <= j < i + |ws| then toByte(ws[j - i]) else data[j]
    decreases |ws|
  {
    if ws == [] then data else WriteBytes(data[i := toByte(ws[0])], i + 1, ws[1..], toByte)
  }

  function SetPixelUnsignedByte(b: Bitmap, x: int, y: int, c: Color, toByte: Float32 -> byte): (r: Bitmap)
    requires WellSized(b) && b.fmt == UnsignedByte && InImage(b, x, y)
    ensures r.(data := b.data) == b && |r.data| == |b.data|
  {
    BytePixelWithinData(b, x, y);
    b.(data := WriteBytes(b.data, PixelOffset(b, x, y), Written(c, b.comp), toByte))
  }

  function GetPixelUnsignedByte(b: Bitmap, x: int, y: int, fromByte: byte -> Float32): (c: Color)
    requires WellSized(b) && b.fmt == UnsignedByte && InImage(b, x, y)
    ensures forall k :: 0 <= k < 4 ==>
              Component(c, k) == if k < b.comp then fromByte(b.data[PixelOffset(b, x, y) + k]) else 0
  {
    BytePixelWithinData(b, x, y);
    var off := PixelOffset(b, x, y);
    Color(if b.comp > 0 then fromByte(b.data[off]) else 0,
          if b.comp > 1 then fromByte(b.data[off + 1]) else 0,
          if b.comp > 2 then fromByte(b.data[off + 2]) else 0,
          if b.comp > 3 then fromByte(b.data[off + 3]) else 0)
  }

  /** The components of a byte pixel lie in the buffer, at indices that an `int` holds. */
  lemma BytePixelWithinData(b: Bitmap, x: int, y: int)
    requires WellSized(b) && b.fmt == UnsignedByte && InImage(b, x, y)
    ensures PixelOffset(b, x, y) >= 0
    ensures PixelOffset(b, x, y) + |Written(Color(0, 0, 0, 0), b.comp)| < INT_LIMIT
    ensures PixelOffset(b, x, y) + |Written(Color(0, 0, 0, 0), b.comp)| <= |b.data|
  {
    if b.comp > 0 {
      PixelInBounds(b.width, b.height, b.comp, x, y, 0);
      PixelInBounds(b.width, b.height, b.comp, x, y, b.comp - 1);
    } else {
      assert PixelOffset(b, x, y) == 0;
    }
  }

  /** On an unsigned-byte bitmap a component comes back through `toByte` then `fromByte`. */
  lemma ByteGetAfterSet(b: Bitmap, x: int, y: int, c: Color, toByte: Float32 -> byte, fromByte: byte -> Float32)
    requires WellSized(b) && b.fmt == UnsignedByte && InImage(b, x, y)
    ensures var g := GetPixelUnsignedByte(SetPixelUnsignedByte(b, x, y, c, toByte), x, y, fromByte);
            && g.x == (if b.comp > 0 then fromByte(toByte(c.x)) else 0)
            && g.y == (if b.comp > 1 then fromByte(toByte(c.y)) else 0)
            && g.z == (if b.comp > 2 then fromByte(toByte(c.z)) else 0)
            && g.w == (if b.comp > 3 then fromByte(toByte(c.w)) else 0)
  {
    BytePixelWithinData(b, x, y);
  }

  // ---------------------------------------------------------------------------------------
  // Dispatch

  /** `setPixel`: the accessor fixed by the format at construction. */
  function SetPixel(b: Bitmap, x: int, y: int, c: Color, toByte: Float32 -> byte): (r: Bitmap)
    requires WellSized(b) && InImage(b, x, y)
    ensures WellSized(r) && r.fmt == b.fmt && r.width == b.width && r.height == b.height && r.comp == b.comp
  {
    match b.fmt
    case UnsignedByte => SetPixelUnsignedByte(b, x, y, c, toByte)
    case Float => SetPixelFloat(b, x, y, c)
  }

  /** `getPixel`: whatever the format, the components past `comp` read as 0.0f. */
  function GetPixel(b: Bitmap, x: int, y: int, fromByte: byte -> Float32): (c: Color)
    requires WellSized(b) && InImage(b, x, y)
    ensures forall k :: b.comp <= k < 4 ==> Component(c, k) == 0
    ensures b.fmt == Float && b.comp > 0 ==> c.x == ReadFloat(b.data, PixelOffset(b, x, y))
    ensures b.fmt == UnsignedByte && b.comp > 0 ==> c.x == fromByte(b.data[PixelOffset(b, x, y)])
  {
    match b.fmt
    case UnsignedByte => GetPixelUnsignedByte(b, x, y, fromByte)
    case Float => GetPixelFloat(b, x, y)
  }
}
