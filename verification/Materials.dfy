/** `MaterialData`, the packed 112-byte material record shared with the shaders, and the
    material file: a `uint32_t` count, that many records, then the list of texture files. */
module Materials {
  import opened Wrappers
  import opened Bytes
  import opened SceneFile

  /** The `MaterialFlags` bits. */
  const CAST_SHADOW: uint32 := 0x1
  const RECEIVE_SHADOW: uint32 := 0x2
  const TRANSPARENT: uint32 := 0x4

  /** Whether the single-bit flag `bit` is set in `flags`. */
  predicate HasFlag(flags: uint32, bit: uint32)
    requires bit > 0
  {
    (flags / bit) % 2 == 1
  }

  /** The texture index of a map that is not present. */
  const INVALID_TEXTURE: uint64 := 0xFFFF_FFFF

  /** +0.0f as a bit pattern. */
  const ZERO_F: Float32 := 0

  datatype Vec4 = Vec4(x: Float32, y: Float32, z: Float32, w: Float32)

  datatype MaterialData = MaterialData(
    emissiveColor: Vec4,
    albedoColor: Vec4,
    roughness: Vec4,
    transparencyFactor: Float32,
    alphaTest: Float32,
    metallicFactor: Float32,
    flags: uint32,
    ambientOcclusionMap: uint64,
    emissiveMap: uint64,
    albedoMap: uint64,
    metallicRoughnessMap: uint64,
    normalMap: uint64,
    opacityMap: uint64)

  /** A value-initialised `MaterialData`, as `resize` creates it. */
  const DEFAULT_MATERIAL: MaterialData := MaterialData(
    Vec4(ZERO_F, ZERO_F, ZERO_F, ZERO_F),
    Vec4(ONE_F, ONE_F, ONE_F, ONE_F),
    Vec4(ONE_F, ONE_F, ZERO_F, ZERO_F),
    ONE_F, ZERO_F, ZERO_F,
    CAST_SHADOW + RECEIVE_SHADOW,
    INVALID_TEXTURE, INVALID_TEXTURE, INVALID_TEXTURE, INVALID_TEXTURE, INVALID_TEXTURE, INVALID_TEXTURE)

  /** The flags are three distinct single bits, and a default material casts and receives
      shadows but is not transparent, and has none of its six maps. */
  lemma DefaultMaterialFlags()
    ensures CAST_SHADOW != RECEIVE_SHADOW && RECEIVE_SHADOW != TRANSPARENT && CAST_SHADOW != TRANSPARENT
    ensures HasFlag(CAST_SHADOW, CAST_SHADOW) && !HasFlag(CAST_SHADOW, RECEIVE_SHADOW) && !HasFlag(CAST_SHADOW, TRANSPARENT)
    ensures HasFlag(RECEIVE_SHADOW, RECEIVE_SHADOW) && !HasFlag(RECEIVE_SHADOW, CAST_SHADOW) && !HasFlag(RECEIVE_SHADOW, TRANSPARENT)
    ensures HasFlag(TRANSPARENT, TRANSPARENT) && !HasFlag(TRANSPARENT, CAST_SHADOW) && !HasFlag(TRANSPARENT, RECEIVE_SHADOW)
    ensures var f := DEFAULT_MATERIAL.flags;
            HasFlag(f, CAST_SHADOW) && HasFlag(f, RECEIVE_SHADOW) && !HasFlag(f, TRANSPARENT)
    ensures var d := DEFAULT_MATERIAL;
            && d.ambientOcclusionMap == INVALID_TEXTURE && d.emissiveMap == INVALID_TEXTURE
            && d.albedoMap == INVALID_TEXTURE && d.metallicRoughnessMap == INVALID_TEXTURE
            && d.normalMap == INVALID_TEXTURE && d.opacityMap == INVALID_TEXTURE
  {
  }

  /** The size of the packed record: three vec4s, three floats, the flags word and six
      64-bit map indices. */
  const MATERIAL_SIZE: nat := 112

  function Vec4Words(v: Vec4): seq<uint32> { [v.x, v.y, v.z, v.w] }

  /** A 64-bit field as its two little-endian words. */
  function U64Words(x: uint64): seq<uint32> { [x % TWO_32, x / TWO_32] }

  /** The record as the 28 words it occupies, in declaration order. */
  function MaterialWords(m: MaterialData): (ws: seq<uint32>)
    ensures |ws| == 28
  {
    Vec4Words(m.emissiveColor) + Vec4Words(m.albedoColor) + Vec4Words(m.roughness)
    + [m.transparencyFactor, m.alphaTest, m.metallicFactor, m.flags]
    + U64Words(m.ambientOcclusionMap) + U64Words(m.emissiveMap) + U64Words(m.albedoMap)
    + U64Words(m.metallicRoughnessMap) + U64Words(m.normalMap) + U64Words(m.opacityMap)
  }

  function U64Of(lo: uint32, hi: uint32): uint64 {
    lo + TWO_32 * hi
  }

  function DecodeMaterial(ws: seq<uint32>): MaterialData
    requires |ws| == 28
  {
    MaterialData(
      Vec4(ws[0], ws[1], ws[2], ws[3]), Vec4(ws[4], ws[5], ws[6], ws[7]), Vec4(ws[8], ws[9], ws[10], ws[11]),
      ws[12], ws[13], ws[14], ws[15],
      U64Of(ws[16], ws[17]), U64Of(ws[18], ws[19]), U64Of(ws[20], ws[21]),
      U64Of(ws[22], ws[23]), U64Of(ws[24], ws[25]), U64Of(ws[26], ws[27]))
  }

  lemma DecodeMaterialWords(m: MaterialData)
    ensures DecodeMaterial(MaterialWords(m)) == m
  {
  }

  /** The record as stored: 112 bytes, a multiple of 16 as the shaders' layout requires. */
  function EncodeMaterial(m: MaterialData): (out: seq<byte>)
    ensures |out| == MATERIAL_SIZE && |out| % 16 == 0
  {
    EncodeWords(MaterialWords(m))
  }

  function EncodeMaterials(ms: seq<MaterialData>): (out: seq<byte>)
    ensures |out| == MATERIAL_SIZE * |ms|
  {
    if ms == [] then [] else EncodeMaterial(ms[0]) + EncodeMaterials(ms[1..])
  }

  /** `n` whole records read with `fread`. */
  function ReadMaterials(input: seq<byte>, n: nat): (r: Result<(seq<MaterialData>, seq<byte>)>)
    ensures r.Ok? <==> |input| >= MATERIAL_SIZE * n
    ensures r.Ok? ==> |r.value.0| == n && r.value.1 == input[MATERIAL_SIZE * n..]
  {
    if n == 0 then Ok(([], input))
    else
      match ReadWords(input, 28)
      case Err(e) => Err(e)
      case Ok((ws, rest)) =>
        match ReadMaterials(rest, n - 1)
        case Err(e) => Err(e)
        case Ok((ms, rest')) => Ok(([DecodeMaterial(ws)] + ms, rest'))
  }

  lemma {:induction false} ReadMaterialsEncode(ms: seq<MaterialData>, rest: seq<byte>)
    ensures ReadMaterials(EncodeMaterials(ms) + rest, |ms|) == Ok((ms, rest))
  {
    if ms != [] {
      var tail := EncodeMaterials(ms[1..]) + rest;
      ConcatAssoc(EncodeMaterial(ms[0]), EncodeMaterials(ms[1..]), rest);
      ReadWordsEncode(MaterialWords(ms[0]), tail);
      ReadMaterialsEncode(ms[1..], rest);
      ReadMaterialsCons(EncodeMaterials(ms) + rest, |ms|, ms[0], tail, ms[1..], rest);
      assert [ms[0]] + ms[1..] == ms;
    }
  }

  /** One record, then the others. */
  lemma ReadMaterialsCons(input: seq<byte>, n: nat, m: MaterialData, rest1: seq<byte>,
                          ms: seq<MaterialData>, rest2: seq<byte>)
    requires n > 0
    requires ReadWords(input, 28) == Ok((MaterialWords(m), rest1))
    requires ReadMaterials(rest1, n - 1) == Ok((ms, rest2))
    ensures ReadMaterials(input, n) == Ok(([m] + ms, rest2))
  {
    DecodeMaterialWords(m);
  }

  /** `fread(materials.data(), 112, n, f)` into the vector `v` that `materials.resize(n)`
      left: the records the file holds in full overwrite those of `v`. If the file ends on a
      record boundary the remaining records keep what `v` holds and the end-of-file indicator
      is set; a partly read record is indeterminate. */
  function LoadRecords(input: seq<byte>, v: seq<MaterialData>): (r: Result<(seq<MaterialData>, Reader)>)
    ensures r.Ok? <==> |input| >= MATERIAL_SIZE * |v| || |input| % MATERIAL_SIZE == 0
    ensures r.Ok? ==> |r.value.0| == |v|
    ensures r.Ok? && |input| < MATERIAL_SIZE * |v| ==>
              r.value.0[|input| / MATERIAL_SIZE..] == v[|input| / MATERIAL_SIZE..]
  {
    var n := |v|;
    if |input| >= MATERIAL_SIZE * n then
      match ReadMaterials(input, n)
      case Err(e) => Err(e)
      case Ok((ms, rest)) => Ok((ms, Reader(rest, false)))
    else if |input| % MATERIAL_SIZE != 0 then Err(ShortRead)
    else
      var k := |input| / MATERIAL_SIZE;
      match ReadMaterials(input, k)
      case Err(e) => Err(e)
      case Ok((ms, _)) => Ok((ms + v[k..], Reader([], true)))
  }

  /** `saveMaterials`. `file` is `false` when the file cannot be opened for writing: the
      function then returns without writing anything (`None`). The record count is the
      list's size converted to `uint32_t`, and that many records are written. */
  function SaveMaterials(file: bool, materials: seq<MaterialData>, files: seq<string>): (out: Option<seq<byte>>)
    ensures out.None? <==> !file
    ensures out.Some? ==> |out.value| >= 4 + MATERIAL_SIZE * U32(|materials|)
  {
    if !file then None
    else
      var sz := U32(|materials|);
      U32Le(|materials|);
      Some(EncodeU32(sz) + EncodeMaterials(materials[..sz]) + SaveStringList(files))
  }

  /** `loadMaterials` into the vector `prior`: a file that cannot be opened ends the process
      with status 255; the count is read as four one-byte elements into an uninitialised
      `uint32_t`, so fewer than four bytes leave it indeterminate. */
  function LoadMaterials(file: Option<seq<byte>>, prior: seq<MaterialData>)
    : (r: Result<(seq<MaterialData>, seq<string>)>)
    ensures file.None? ==> r == Err(Exit(255))
    ensures file.Some? && |file.value| < 4 ==> r == Err(ShortRead)
  {
    match file
    case None => Err(Exit(255))
    case Some(bytes) =>
      if |bytes| < 4 then Err(ShortRead) else LoadMaterialsBody(DecodeU32(bytes[..4]), bytes[4..], prior)
  }

  /** The records and the texture files after the count `sz`; `materials.resize(sz)` keeps
      the first records of `prior` and adds default ones. */
  function LoadMaterialsBody(sz: nat, body: seq<byte>, prior: seq<MaterialData>)
    : (r: Result<(seq<MaterialData>, seq<string>)>)
    ensures r.Ok? ==> |r.value.0| == sz
  {
    match LoadRecords(body, Resized(prior, sz, DEFAULT_MATERIAL))
    case Err(e) => Err(e)
    case Ok((materials, r1)) =>
      match LoadStringList(r1)
      case Err(e) => Err(e)
      case Ok((files, _)) => Ok((materials, files))
  }

  lemma LoadMaterialsCount(n: uint32, body: seq<byte>, prior: seq<MaterialData>)
    ensures LoadMaterials(Some(EncodeU32(n) + body), prior) == LoadMaterialsBody(n, body, prior)
  {
    var bytes := EncodeU32(n) + body;
    assert bytes[..4] == EncodeU32(n) && bytes[4..] == body;
    DecodeEncodeU32(n);
  }

  /** A list whose size fits the count is written in full. */
  lemma SaveMaterialsBytes(materials: seq<MaterialData>, files: seq<string>)
    requires |materials| < TWO_32
    ensures SaveMaterials(true, materials, files)
            == Some(EncodeU32(|materials|) + EncodeMaterials(materials) + SaveStringList(files))
  {
    U32Small(|materials|);
    assert materials[..|materials|] == materials;
  }

  /** `loadMaterials` inverts `saveMaterials` for lists whose sizes fit their counts and file
      names that the string list stores exactly. */
  lemma LoadSaveMaterials(materials: seq<MaterialData>, files: seq<string>, prior: seq<MaterialData>)
    requires |materials| < TWO_32 && |files| < TWO_32 && PlainLines(files)
    ensures LoadMaterials(SaveMaterials(true, materials, files), prior) == Ok((materials, files))
  {
    SaveMaterialsBytes(materials, files);
    var tail := SaveStringList(files);
    assert tail == tail + [];
    LoadSavePlainStringList(files, [], false);
    LoadMaterialsParts(materials, tail, files, Reader([], false), prior);
  }

  /** Reading the count and the records, then a string list that `tail` holds. */
  lemma LoadMaterialsParts(ms: seq<MaterialData>, tail: seq<byte>, files: seq<string>, r: Reader,
                           prior: seq<MaterialData>)
    requires |ms| < TWO_32
    requires LoadStringList(Reader(tail, false)) == Ok((files, r))
    ensures LoadMaterials(Some(EncodeU32(|ms|) + EncodeMaterials(ms) + tail), prior) == Ok((ms, files))
  {
    ConcatAssoc(EncodeU32(|ms|), EncodeMaterials(ms), tail);
    LoadMaterialsCount(|ms|, EncodeMaterials(ms) + tail, prior);
    LoadSaveRecords(ms, tail, Resized(prior, |ms|, DEFAULT_MATERIAL));
  }

  lemma LoadSaveRecords(ms: seq<MaterialData>, rest: seq<byte>, v: seq<MaterialData>)
    requires |v| == |ms|
    ensures LoadRecords(EncodeMaterials(ms) + rest, v) == Ok((ms, Reader(rest, false)))
  {
    ReadMaterialsEncode(ms, rest);
  }

  /** A file that ends after `k` of its `n` announced records yields those records, then
      what `resize` left in the other `n - k` (the records of `prior`, default ones past its
      end), and no texture files. */
  lemma LoadTruncatedMaterials(n: uint32, stored: seq<MaterialData>, prior: seq<MaterialData>)
    requires |stored| < n
    ensures LoadMaterials(Some(EncodeU32(n) + EncodeMaterials(stored)), prior)
            == Ok((stored + Resized(prior, n, DEFAULT_MATERIAL)[|stored|..], []))
  {
    LoadMaterialsCount(n, EncodeMaterials(stored), prior);
    LoadTruncatedRecords(stored, Resized(prior, n, DEFAULT_MATERIAL));
  }

  lemma LoadTruncatedRecords(stored: seq<MaterialData>, v: seq<MaterialData>)
    requires |stored| < |v|
    ensures LoadRecords(EncodeMaterials(stored), v) == Ok((stored + v[|stored|..], Reader([], true)))
  {
    var body := EncodeMaterials(stored);
    assert body == body + [];
    ReadMaterialsEncode(stored, []);
    assert |body| / MATERIAL_SIZE == |stored|;
  }
}
