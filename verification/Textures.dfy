/** The parts of `GLTexture` that do not talk to the GPU: the mip-level count, the
    checkerboard image used when a texture file cannot be loaded, the level parameters set
    on each kind of texture, the offsets of the six cube faces, and the ownership of the
    texture handles under move and destruction. The GL calls themselves are not modelled;
    handles and loaded images are parameters. */
module Textures {
  import opened Wrappers
  import opened Bytes
  import opened Bitmaps

  /** `a | b` on non-negative ints, bit by bit from the least significant one. */
  function Or(a: nat, b: nat): nat
    decreases a + b
  {
    if a == 0 then b
    else if b == 0 then a
    else 2 * Or(a / 2, b / 2) + (if a % 2 == 1 || b % 2 == 1 then 1 else 0)
  }

  /** `x >> k` on a non-negative int: `k` halvings, rounding down. */
  function Shr(x: nat, k: nat): nat {
    if k == 0 then x else Shr(x / 2, k - 1)
  }

  lemma {:induction false} ShrZero(x: nat, k: nat)
    ensures Shr(x, k) == 0 <==> x < Pow2(k)
  {
    if k > 0 {
      ShrZero(x / 2, k - 1);
    }
  }

  lemma {:induction false} OrPositive(a: nat, b: nat)
    requires a > 0
    ensures Or(a, b) > 0
    decreases a + b
  {
    if b != 0 && a / 2 > 0 {
      OrPositive(a / 2, b / 2);
    }
  }

  /** An `Or` is below a power of two exactly when both operands are. */
  lemma {:induction false} OrBelow(a: nat, b: nat, k: nat)
    ensures Or(a, b) < Pow2(k) <==> a < Pow2(k) && b < Pow2(k)
    decreases k
  {
    if a != 0 && b != 0 {
      if k == 0 {
        OrPositive(a, b);
      } else {
        OrBelow(a / 2, b / 2, k - 1);
      }
    }
  }

  /** The loop of `getNumMipMapLevels2D` from `levels` on. Shifting a value below 2^31 by
      31 gives 0, so the loop stops by then and the shift never reaches the width of an int. */
  function LevelsFrom(v: nat, levels: nat): (r: nat)
    requires 1 <= levels <= 31 && v < Pow2(31)
    ensures levels <= r <= 31
    ensures Shr(v, r) == 0
    ensures r == levels || Shr(v, r - 1) != 0
    decreases 31 - levels
  {
    if Shr(v, levels) == 0 then levels
    else
      ShrZero(v, levels);
      if levels == 31 then assert false; levels
      else LevelsFrom(v, levels + 1)
  }

  /** `getNumMipMapLevels2D(w, h)`: the least L >= 1 with `(w | h) >> L == 0`. */
  function NumMipLevels(w: int, h: int): (levels: int)
    requires 0 <= w < INT_LIMIT && 0 <= h < INT_LIMIT
    ensures 1 <= levels <= 31
    ensures Shr(Or(w, h), levels) == 0
    ensures levels == 1 || Shr(Or(w, h), levels - 1) != 0
  {
    assert Pow2(31) == INT_LIMIT by { Pow2Value31(); }
    OrBelow(w, h, 31);
    LevelsFrom(Or(w, h), 1)
  }

  lemma Pow2Value31()
    ensures Pow2(31) == 0x8000_0000
  {
    Pow2Value8();
    Pow2Add(8, 8);
    Pow2Add(16, 8);
    Pow2Add(24, 7);
  }

  /** A power of two lies in exactly one interval [2^(n-1), 2^n). */
  lemma Pow2Exact(j: nat, n: nat)
    requires n >= 1 && Pow2(n - 1) <= Pow2(j) < Pow2(n)
    ensures n == j + 1
  {
    if n - 1 > j {
      Pow2Mono(j + 1, n - 1);
    } else if n - 1 < j {
      Pow2Mono(n, j);
    }
  }

  lemma Pow2Value8()
    ensures Pow2(7) == 128 && Pow2(8) == 256
  {
  }

  /** The mip-level count is 1 + floor(log2 max(w, h)) for a non-empty image and 1 for an
      empty one. */
  lemma MipLevelsLog(w: int, h: int)
    requires 0 <= w < INT_LIMIT && 0 <= h < INT_LIMIT
    ensures var levels := NumMipLevels(w, h);
            var m := if w < h then h else w;
            && (m == 0 ==> levels == 1)
            && (m > 0 ==> Pow2(levels - 1) <= m < Pow2(levels))
  {
    var levels := NumMipLevels(w, h);
    ShrZero(Or(w, h), levels);
    OrBelow(w, h, levels);
    if levels > 1 {
      ShrZero(Or(w, h), levels - 1);
      OrBelow(w, h, levels - 1);
    }
  }

  /** No smaller level count leaves the shifted size at 0. */
  lemma MipLevelsLeast(w: int, h: int, k: nat)
    requires 0 <= w < INT_LIMIT && 0 <= h < INT_LIMIT
    requires 1 <= k < NumMipLevels(w, h)
    ensures Shr(Or(w, h), k) != 0
  {
    var levels := NumMipLevels(w, h);
    ShrZero(Or(w, h), k);
    ShrZero(Or(w, h), levels - 1);
    Pow2Mono(k, levels - 1);
  }

  // ---------------------------------------------------------------------------------------
  // The checkerboard fallback

  const CHECKER_SIZE: int := 128

  /** The grey level of pixel `i` of the checkerboard: 0xFF on odd squares, 0 on even ones. */
  function Shade(i: int): byte
    requires 0 <= i
  {
    0xFF * ((i / CHECKER_SIZE + i % CHECKER_SIZE) % 2)
  }

  /** `genDefaultCheckerboardImage`. `mallocSucceeded` says whether `malloc` succeeded, and
      `widthOut` and `heightOut` stand for the two pointers: `None` is a null pointer and
      `Some(v)` one holding `v`. On success the image is 128 x 128 RGB, byte `k` being a
      channel of pixel `k / 3` and set to its `Shade`, and each non-null pointer receives 128; on failure there is
      no image and nothing is written. */
  method Checkerboard(mallocSucceeded: bool, widthOut: Option<int>, heightOut: Option<int>)
    returns (img: Option<seq<byte>>, width: Option<int>, height: Option<int>)
    ensures img.Some? <==> mallocSucceeded
    ensures img.Some? ==> |img.value| == 3 * CHECKER_SIZE * CHECKER_SIZE
    ensures img.Some? ==> forall k :: 0 <= k < |img.value| ==> img.value[k] == Shade(k / 3)
    ensures width.None? <==> widthOut.None?
    ensures height.None? <==> heightOut.None?
    ensures img.Some? && width.Some? ==> width.value == CHECKER_SIZE
    ensures img.Some? && height.Some? ==> height.value == CHECKER_SIZE
    ensures img.None? ==> width == widthOut && height == heightOut
  {
    width, height := widthOut, heightOut;
    if !mallocSucceeded {
      return None, width, height;
    }
    var data: seq<byte> := [];
    for i := 0 to CHECKER_SIZE * CHECKER_SIZE
      invariant |data| == 3 * i
      invariant forall k :: 0 <= k < |data| ==> data[k] == Shade(k / 3)
    {
      var v := Shade(i);
      data := data + [v, v, v];
    }
    if width.Some? {
      width := Some(CHECKER_SIZE);
    }
    if height.Some? {
      height := Some(CHECKER_SIZE);
    }
    img := Some(data);
  }

  lemma RowCol(row: int, col: int)
    requires 0 <= row < CHECKER_SIZE && 0 <= col < CHECKER_SIZE
    ensures (row * CHECKER_SIZE + col) / CHECKER_SIZE == row
    ensures (row * CHECKER_SIZE + col) % CHECKER_SIZE == col
  {
  }

  /** Horizontally and vertically adjacent pixels of the checkerboard differ: one is black
      and the other white. */
  lemma CheckerNeighbours(row: int, col: int)
    requires 0 <= row < CHECKER_SIZE && 0 <= col < CHECKER_SIZE
    ensures var s := Shade(row * CHECKER_SIZE + col);
            && (s == 0 || s == 0xFF)
            && (col + 1 < CHECKER_SIZE ==> Shade(row * CHECKER_SIZE + col + 1) != s)
            && (row + 1 < CHECKER_SIZE ==> Shade((row + 1) * CHECKER_SIZE + col) != s)
  {
    RowCol(row, col);
    if col + 1 < CHECKER_SIZE {
      RowCol(row, col + 1);
    }
    if row + 1 < CHECKER_SIZE {
      RowCol(row + 1, col);
    }
  }

  // ---------------------------------------------------------------------------------------
  // Level parameters of the textures

  /** The level state of a texture: the number of storage levels allocated and the
      `GL_TEXTURE_MAX_LEVEL` parameter. */
  datatype Levels = Levels(storage: int, maxLevel: int)

  /** The render-target constructor allocates the full mip chain but leaves
      `GL_TEXTURE_MAX_LEVEL` at 0. */
  function RenderTargetLevels(w: int, h: int): (r: Levels)
    requires 0 <= w < INT_LIMIT && 0 <= h < INT_LIMIT
    ensures r.storage >= 1 && r.maxLevel == 0
  {
    Levels(NumMipLevels(w, h), 0)
  }

  /** The mip chain of an image of `w` x `h` pixels, and `GL_TEXTURE_MAX_LEVEL` one below its
      length, as the file, cube-map and pixel constructors set it. */
  function MipChain(w: int, h: int): (r: Levels)
    requires 0 <= w < INT_LIMIT && 0 <= h < INT_LIMIT
    ensures r.storage >= 1 && r.maxLevel == r.storage - 1
  {
    var n := NumMipLevels(w, h);
    Levels(n, n - 1)
  }

  /** A 2-D texture from an image file: `loaded` is the size of the decoded image, `None`
      when the file could not be loaded. The checkerboard then stands in; when even its
      allocation fails the process exits with `EXIT_FAILURE`. */
  function Texture2DFromFile(loaded: Option<(int, int)>, fallbackAllocated: bool): (r: Result<Levels>)
    requires loaded.Some? ==> 0 <= loaded.value.0 < INT_LIMIT && 0 <= loaded.value.1 < INT_LIMIT
    ensures loaded.None? && !fallbackAllocated <==> r == Err(Exit(1))
    ensures r.Ok? ==> r.value.storage >= 1 && r.value.maxLevel == r.value.storage - 1
    ensures loaded.Some? ==> r == Ok(MipChain(loaded.value.0, loaded.value.1))
  {
    match loaded
    case Some((w, h)) => Ok(MipChain(w, h))
    case None =>
      if fallbackAllocated then Ok(MipChain(CHECKER_SIZE, CHECKER_SIZE)) else Err(Exit(1))
  }

  /** The checkerboard has eight mip levels, 128 x 128 down to 1 x 1. */
  lemma FallbackLevels()
    ensures Texture2DFromFile(None, true) == Ok(Levels(8, 7))
  {
    MipLevelsLog(CHECKER_SIZE, CHECKER_SIZE);
    Pow2Value8();
    Pow2Exact(7, NumMipLevels(CHECKER_SIZE, CHECKER_SIZE));
  }

  /** A cube-map source is converted from the equirectangular layout exactly when it is
      twice as wide as high; otherwise it is taken as a vertical cross. */
  function IsEquirectangular(w: int, h: int): (r: bool)
    ensures h != 0 ==> (r <==> w as real / h as real == 2.0)
  {
    w == 2 * h
  }

  /** The byte offset at which face `i` of the face bitmap is uploaded: the upload pointer
      advances by one face, `w * h * comp * bytesPerComponent` bytes, per face. That stride
      is a signed `int` product, so its partial products must not overflow. */
  function FaceOffsets(cubemap: Bitmap): (r: seq<int>)
    requires cubemap.width >= 0 && cubemap.height >= 0 && cubemap.comp >= 0
    requires SizeFits(cubemap.width, cubemap.height, 1, cubemap.comp, cubemap.fmt)
    ensures |r| == 6 && r[0] == 0
    ensures forall i :: 0 < i < 6 ==> r[i] == r[i - 1] + FaceSize(cubemap)
    ensures FaceSize(cubemap) < INT_LIMIT
  {
    OneLayer(cubemap.width, cubemap.height, cubemap.comp, cubemap.fmt);
    seq(6, i => i * FaceSize(cubemap))
  }

  function FaceSize(b: Bitmap): nat
    requires b.width >= 0 && b.height >= 0 && b.comp >= 0
  {
    b.width * b.height * b.comp * BytesPerComponent(b.fmt)
  }

  /** In a six-layer bitmap from the 3-D constructor the `int` stride cannot overflow,
      every uploaded face lies inside the buffer, and the faces tile it exactly. */
  lemma FacesInBuffer(w: nat, h: nat, comp: nat, fmt: Format, i: int)
    requires SizeFits(w, h, 6, comp, fmt)
    requires 0 <= i < 6
    ensures var b := NewBitmap3D(w, h, 6, comp, fmt);
            && SizeFits(w, h, 1, comp, fmt)
            && FaceSize(b) < INT_LIMIT
            && FaceOffsets(b)[i] + FaceSize(b) <= |b.data|
            && FaceOffsets(b)[5] + FaceSize(b) == |b.data|
  {
    var b := NewBitmap3D(w, h, 6, comp, fmt);
    SixFaces(w, h, comp, fmt);
    OneLayer(w, h, comp, fmt);
    var f := FaceSize(b);
    assert f == BufferSize(w, h, 1, comp, fmt);
    assert |b.data| == 6 * f;
    assert FaceOffsets(b)[i] == i * f;
    NextFace(i, f);
  }

  /** A six-layer buffer holds six faces, and when its size products fit an `int` so do
      those of the face stride. */
  lemma SixFaces(w: nat, h: nat, comp: nat, fmt: Format)
    ensures BufferSize(w, h, 6, comp, fmt) == 6 * BufferSize(w, h, 1, comp, fmt)
    ensures SizeFits(w, h, 6, comp, fmt) ==> SizeFits(w, h, 1, comp, fmt)
  {
    var bpc := BytesPerComponent(fmt);
    assert w * h * 6 * comp * bpc == 6 * (w * h * 1 * comp * bpc);
    if SizeFits(w, h, 6, comp, fmt) {
      LayerFits(w, h, 6, comp, fmt);
    }
  }

  /** Face `i` ends where face `i + 1` starts, at most at the end of six faces; so when six
      faces fit an `int`, so does the end of every face. */
  lemma NextFace(i: int, f: nat)
    requires 0 <= i < 6
    ensures i * f + f == (i + 1) * f <= 6 * f
    ensures 6 * f < INT_LIMIT ==> (i + 1) * f < INT_LIMIT
  {
    MulLe(i + 1, 6, f);
  }

  lemma MulLe(a: int, b: int, c: nat)
    requires a <= b
    ensures a * c <= b * c
  {
  }

  /** A cube map's mip chain is that of one face. */
  function CubeMapLevels(cubemap: Bitmap): (r: Levels)
    requires 0 <= cubemap.width < INT_LIMIT && 0 <= cubemap.height < INT_LIMIT
    ensures r.maxLevel == r.storage - 1 && r.storage == NumMipLevels(cubemap.width, cubemap.height)
  {
    MipChain(cubemap.width, cubemap.height)
  }

  // ---------------------------------------------------------------------------------------
  // Handle ownership

  /** The three fields a `GLTexture` owns; 0 means none. */
  datatype Texture = Texture(kind: int, handle: int, bindless: int)

  /** The move constructor: the new object takes over all three fields and the source is
      left empty. */
  function Move(source: Texture): (r: (Texture, Texture))
    ensures r.0 == source
    ensures r.1 == Texture(0, 0, 0)
  {
    (Texture(source.kind, source.handle, source.bindless), Texture(0, 0, 0))
  }

  /** What the destructor asks of the driver: the bindless handle made non-resident, if
      there is one, and the texture name deleted (deleting name 0 is a no-op in GL). */
  datatype Release = Release(nonResident: Option<int>, deleted: int)

  function Destroy(t: Texture): (r: Release)
    ensures r.nonResident.Some? <==> t.bindless != 0
    ensures r.nonResident.Some? ==> r.nonResident.value == t.bindless
    ensures r.deleted == t.handle
  {
    Release(if t.bindless != 0 then Some(t.bindless) else None, t.handle)
  }

  /** After a move, destroying both objects releases the bindless handle at most once and
      deletes the texture name once; the emptied source releases nothing. */
  lemma MoveReleasesOnce(t: Texture)
    ensures var (moved, source) := Move(t);
            && Destroy(source) == Release(None, 0)
            && Destroy(moved).deleted == t.handle
            && (Destroy(moved).nonResident.Some? <==> t.bindless != 0)
  {
  }
}
