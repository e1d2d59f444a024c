/** The mesh file of `VtxData`: a header of five words, `meshCount` fixed-size mesh
    descriptors, then the raw index and vertex data. `saveMeshesToFile` of the mesh
    converter writes it and `loadMeshData` reads it back. */
module Meshes {
  import opened Wrappers
  import opened Bytes
  import opened SceneFile

  /** The capacity of the per-mesh arrays: LOD offsets, stream offsets and element sizes. */
  const MAX_LODS: nat := 8
  const MAX_STREAMS: nat := 8

  /** A mesh descriptor. `lodOffset` holds one more entry than there are LODs: the entry at
      `lodCount` marks where the last LOD ends, so `lodCount` must stay below `MAX_LODS`. */
  datatype Mesh = Mesh(
    lodCount: uint32,
    streamCount: uint32,
    indexOffset: uint32,
    vertexOffset: uint32,
    vertexCount: uint32,
    lodOffset: seq<uint32>,
    streamOffset: seq<uint32>,
    streamElementSize: seq<uint32>)

  /** The three arrays have their declared sizes. */
  predicate WellShaped(m: Mesh) {
    |m.lodOffset| == MAX_LODS && |m.streamOffset| == MAX_STREAMS && |m.streamElementSize| == MAX_STREAMS
  }

  /** The LOD count leaves room for the end marker. */
  predicate MarkerFits(m: Mesh) {
    m.lodCount < MAX_LODS
  }

  /** An array member brace-initialised with `prefix`: the other entries are zero. */
  function Slots(prefix: seq<uint32>, n: nat): (r: seq<uint32>)
    requires |prefix| <= n
    ensures |r| == n && r[..|prefix|] == prefix
    ensures forall i :: |prefix| <= i < n ==> r[i] == 0
  {
    prefix + seq(n - |prefix|, _ => 0)
  }

  /** A descriptor built with designated initialisers: `indexOffset` and `vertexOffset`
      default to zero and every array entry not given is zero. */
  function NewMesh(lodCount: uint32, streamCount: uint32, indexOffset: Option<uint32>,
                   vertexOffset: Option<uint32>, vertexCount: uint32,
                   lodOffset: seq<uint32>, streamOffset: seq<uint32>, streamElementSize: seq<uint32>): (m: Mesh)
    requires |lodOffset| <= MAX_LODS && |streamOffset| <= MAX_STREAMS && |streamElementSize| <= MAX_STREAMS
    ensures WellShaped(m)
    ensures m.indexOffset == (if indexOffset.Some? then indexOffset.value else 0)
    ensures m.vertexOffset == (if vertexOffset.Some? then vertexOffset.value else 0)
    ensures m.lodOffset[..|lodOffset|] == lodOffset
    ensures forall i :: |lodOffset| <= i < MAX_LODS ==> m.lodOffset[i] == 0
    ensures forall i :: |streamOffset| <= i < MAX_STREAMS ==> m.streamOffset[i] == 0
    ensures forall i :: |streamElementSize| <= i < MAX_STREAMS ==> m.streamElementSize[i] == 0
  {
    Mesh(lodCount, streamCount,
         if indexOffset.Some? then indexOffset.value else 0,
         if vertexOffset.Some? then vertexOffset.value else 0,
         vertexCount,
         Slots(lodOffset, MAX_LODS), Slots(streamOffset, MAX_STREAMS), Slots(streamElementSize, MAX_STREAMS))
  }

  /** `getLODIndicesCount`: the distance between consecutive LOD offsets in unsigned 32-bit
      arithmetic. Added to the start offset it gives the end offset, and without wrap-around
      it is the plain difference. */
  function LODIndicesCount(m: Mesh, lod: nat): (r: uint32)
    requires WellShaped(m) && lod + 1 < MAX_LODS
    ensures (m.lodOffset[lod] + r) % TWO_32 == m.lodOffset[lod + 1]
    ensures m.lodOffset[lod] <= m.lodOffset[lod + 1] ==> m.lodOffset[lod] + r == m.lodOffset[lod + 1]
    ensures m.lodOffset[lod] > m.lodOffset[lod + 1] ==> m.lodOffset[lod] + r == m.lodOffset[lod + 1] + TWO_32
  {
    if m.lodOffset[lod] <= m.lodOffset[lod + 1] then m.lodOffset[lod + 1] - m.lodOffset[lod]
    else m.lodOffset[lod + 1] - m.lodOffset[lod] + TWO_32
  }

  datatype MeshFileHeader = MeshFileHeader(
    magicValue: uint32,
    meshCount: uint32,
    dataBlockStartOffset: uint32,
    indexDataSize: uint32,
    vertexDataSize: uint32)

  /** One draw command: the mesh, its material, the LOD, where its indices and vertices
      start, and the node whose transform it uses. */
  datatype DrawData = DrawData(
    meshIndex: uint32,
    materialIndex: uint32,
    lod: uint32,
    indexOffset: uint32,
    vertexOffset: uint32,
    transformIndex: uint32)

  /** The descriptors and the index and vertex data of every mesh of a file; vertex data are
      floats, kept as their bit patterns. */
  datatype MeshData = MeshData(meshes: seq<Mesh>, indexData: seq<uint32>, vertexData: seq<Float32>)

  predicate AllWellShaped(meshes: seq<Mesh>) {
    forall i :: 0 <= i < |meshes| ==> WellShaped(meshes[i])
  }

  const HEADER_SIZE: nat := 20
  const MESH_SIZE: nat := 116
  const MESH_WORDS: nat := 29

  function HeaderWords(h: MeshFileHeader): seq<uint32> {
    [h.magicValue, h.meshCount, h.dataBlockStartOffset, h.indexDataSize, h.vertexDataSize]
  }

  function DecodeHeader(ws: seq<uint32>): MeshFileHeader
    requires |ws| == 5
  {
    MeshFileHeader(ws[0], ws[1], ws[2], ws[3], ws[4])
  }

  /** The descriptor as its 29 words, in declaration order. */
  function MeshWords(m: Mesh): (ws: seq<uint32>)
    requires WellShaped(m)
    ensures |ws| == MESH_WORDS
  {
    [m.lodCount, m.streamCount, m.indexOffset, m.vertexOffset, m.vertexCount]
    + m.lodOffset + m.streamOffset + m.streamElementSize
  }

  function DecodeMesh(ws: seq<uint32>): (m: Mesh)
    requires |ws| == MESH_WORDS
    ensures WellShaped(m)
  {
    Mesh(ws[0], ws[1], ws[2], ws[3], ws[4], ws[5..13], ws[13..21], ws[21..29])
  }

  lemma DecodeMeshWords(m: Mesh)
    requires WellShaped(m)
    ensures DecodeMesh(MeshWords(m)) == m
  {
    var head := [m.lodCount, m.streamCount, m.indexOffset, m.vertexOffset, m.vertexCount];
    var ws := MeshWords(m);
    assert ws == head + m.lodOffset + m.streamOffset + m.streamElementSize;
    assert ws[5..13] == m.lodOffset;
    assert ws[13..21] == m.streamOffset;
    assert ws[21..] == m.streamElementSize;
    assert ws[21..29] == ws[21..];
  }

  function EncodeMesh(m: Mesh): (out: seq<byte>)
    requires WellShaped(m)
    ensures |out| == MESH_SIZE
  {
    EncodeWords(MeshWords(m))
  }

  function EncodeMeshes(ms: seq<Mesh>): (out: seq<byte>)
    requires AllWellShaped(ms)
    ensures |out| == MESH_SIZE * |ms|
  {
    if ms == [] then [] else EncodeMesh(ms[0]) + EncodeMeshes(ms[1..])
  }

  /** `n` whole descriptors read with `fread`. */
  function ReadMeshes(input: seq<byte>, n: nat): (r: Result<(seq<Mesh>, seq<byte>)>)
    ensures r.Ok? <==> |input| >= MESH_SIZE * n
    ensures r.Ok? ==> |r.value.0| == n && AllWellShaped(r.value.0) && r.value.1 == input[MESH_SIZE * n..]
  {
    if n == 0 then Ok(([], input))
    else
      match ReadWords(input, MESH_WORDS)
      case Err(e) => Err(e)
      case Ok((ws, rest)) =>
        match ReadMeshes(rest, n - 1)
        case Err(e) => Err(e)
        case Ok((ms, rest')) => Ok(([DecodeMesh(ws)] + ms, rest'))
  }

  /** One descriptor, then the others. */
  lemma ReadMeshesCons(input: seq<byte>, n: nat, m: Mesh, rest1: seq<byte>, ms: seq<Mesh>, rest2: seq<byte>)
    requires n > 0 && WellShaped(m)
    requires ReadWords(input, MESH_WORDS) == Ok((MeshWords(m), rest1))
    requires ReadMeshes(rest1, n - 1) == Ok((ms, rest2))
    ensures ReadMeshes(input, n) == Ok(([m] + ms, rest2))
  {
    DecodeMeshWords(m);
  }

  lemma {:induction false} ReadMeshesEncode(ms: seq<Mesh>, rest: seq<byte>)
    requires AllWellShaped(ms)
    ensures ReadMeshes(EncodeMeshes(ms) + rest, |ms|) == Ok((ms, rest))
  {
    if ms != [] {
      var tail := EncodeMeshes(ms[1..]) + rest;
      ConcatAssoc(EncodeMesh(ms[0]), EncodeMeshes(ms[1..]), rest);
      ReadWordsEncode(MeshWords(ms[0]), tail);
      ReadMeshesEncode(ms[1..], rest);
      ReadMeshesCons(EncodeMeshes(ms) + rest, |ms|, ms[0], tail, ms[1..], rest);
      assert [ms[0]] + ms[1..] == ms;
    }
  }

  /** `fread` of `size` bytes into a vector of `size / 4` words. When `size` is not a
      multiple of four and the file holds more bytes than the vector, the read runs past
      the vector's end (`Malformed`); otherwise fewer than `size` bytes is the short read
      on which the loader exits with status 255. */
  function ReadPayload(input: seq<byte>, size: nat): (r: Result<(seq<uint32>, seq<byte>)>)
    ensures r.Ok? <==> size % 4 == 0 && |input| >= size
    ensures r.Ok? ==> 4 * |r.value.0| == size && r.value.1 == input[size..]
    ensures r == Err(Malformed) <==> size % 4 != 0 && |input| > 4 * (size / 4)
    ensures r.Err? && r.error != Malformed ==> r.error == Exit(255)
  {
    var got := if |input| < size then |input| else size;
    if got > 4 * (size / 4) then Err(Malformed)
    else if got < size then Err(Exit(255))
    else
      match ReadWords(input, size / 4)
      case Err(e) => Err(e)
      case Ok(res) => Ok(res)
  }

  /** `EXIT_FAILURE`. */
  const EXIT_FAILURE: int := 1

  /** What a successful `loadMeshData` establishes about its output. */
  predicate Loaded(h: MeshFileHeader, data: MeshData) {
    && |data.meshes| == h.meshCount
    && AllWellShaped(data.meshes)
    && 4 * |data.indexData| == h.indexDataSize
    && 4 * |data.vertexData| == h.vertexDataSize
  }

  /** `loadMeshData` on the file's contents (`None` when it cannot be opened). The
      process exits with `EXIT_FAILURE` for a missing file, a short header or fewer than
      `meshCount` whole descriptors, and with 255 for short index or vertex data. The
      reads are consecutive: `dataBlockStartOffset` is not consulted, and neither is the
      magic value. The header read is returned with the data. */
  function LoadMeshData(file: Option<seq<byte>>): (r: Result<(MeshFileHeader, MeshData)>)
    ensures file.None? ==> r == Err(Exit(EXIT_FAILURE))
    ensures file.Some? && |file.value| < HEADER_SIZE ==> r == Err(Exit(EXIT_FAILURE))
    ensures r.Ok? ==> Loaded(r.value.0, r.value.1)
    ensures r.Ok? ==> |file.value| >= HEADER_SIZE + MESH_SIZE * r.value.0.meshCount
                                      + r.value.0.indexDataSize + r.value.0.vertexDataSize
  {
    match file
    case None => Err(Exit(EXIT_FAILURE))
    case Some(bytes) =>
      if |bytes| < HEADER_SIZE then Err(Exit(EXIT_FAILURE))
      else
        match ReadWords(bytes, 5)
        case Err(e) => Err(e)
        case Ok((ws, body)) => LoadMeshBody(DecodeHeader(ws), body)
  }

  /** Everything after the header. */
  function LoadMeshBody(h: MeshFileHeader, body: seq<byte>): (r: Result<(MeshFileHeader, MeshData)>)
    ensures r.Ok? ==> r.value.0 == h && Loaded(h, r.value.1)
    ensures r.Ok? ==> |body| >= MESH_SIZE * h.meshCount + h.indexDataSize + h.vertexDataSize
    ensures |body| < MESH_SIZE * h.meshCount ==> r == Err(Exit(EXIT_FAILURE))
  {
    match ReadMeshes(body, h.meshCount)
    case Err(_) => Err(Exit(EXIT_FAILURE))
    case Ok((meshes, rest)) =>
      match ReadPayload(rest, h.indexDataSize)
      case Err(e) => Err(e)
      case Ok((indices, rest')) =>
        match ReadPayload(rest', h.vertexDataSize)
        case Err(e) => Err(e)
        case Ok((vertices, _)) => Ok((h, MeshData(meshes, indices, vertices)))
  }

  /** The magic value plays no part in loading: replacing it changes only the magic value
      of the returned header. */
  lemma MagicNotChecked(h: MeshFileHeader, magic: uint32, body: seq<byte>)
    ensures var r := LoadMeshBody(h, body);
            var r' := LoadMeshBody(h.(magicValue := magic), body);
            && r.Ok? == r'.Ok?
            && (r.Err? ==> r'.error == r.error)
            && (r.Ok? ==> r'.value == (r.value.0.(magicValue := magic), r.value.1))
  {
  }

  /** The same for whole files: overwriting the first four bytes with any magic value
      changes nothing but the magic value returned. */
  lemma MagicNotCheckedFile(bytes: seq<byte>, magic: uint32)
    requires |bytes| >= HEADER_SIZE
    ensures var r := LoadMeshData(Some(bytes));
            var r' := LoadMeshData(Some(EncodeU32(magic) + bytes[4..]));
            && r.Ok? == r'.Ok?
            && (r.Err? ==> r'.error == r.error)
            && (r.Ok? ==> r'.value == (r.value.0.(magicValue := magic), r.value.1))
  {
    var bytes' := EncodeU32(magic) + bytes[4..];
    assert bytes'[..4] == EncodeU32(magic) && bytes'[4..] == bytes[4..];
    DecodeEncodeU32(magic);
    var ws := ReadWords(bytes, 5).value.0;
    var ws' := ReadWords(bytes', 5).value.0;
    assert ws'[1..] == ws[1..];
    assert DecodeHeader(ws') == DecodeHeader(ws).(magicValue := magic);
    MagicNotChecked(DecodeHeader(ws), magic, bytes[20..]);
  }

  // ---------------------------------------------------------------------------------------
  // Writing (`saveMeshesToFile` of the mesh converter)

  const MAGIC: uint32 := 0x1234_5678

  /** The header `saveMeshesToFile` writes: sizes are computed in `size_t` and cast to
      `uint32_t`. */
  function HeaderOf(data: MeshData): (h: MeshFileHeader)
    ensures h.magicValue == MAGIC
  {
    MeshFileHeader(MAGIC, U32(|data.meshes|), U32(HEADER_SIZE + MESH_SIZE * |data.meshes|),
                   U32(4 * |data.indexData|), U32(4 * |data.vertexData|))
  }

  /** The file holds the header, `meshCount` descriptors, then `indexDataSize` bytes of
      indices and `vertexDataSize` bytes of vertices. */
  function SaveMeshes(data: MeshData): (out: seq<byte>)
    requires AllWellShaped(data.meshes)
    ensures var h := HeaderOf(data);
            |out| == HEADER_SIZE + MESH_SIZE * h.meshCount + h.indexDataSize + h.vertexDataSize
  {
    var h := HeaderOf(data);
    U32Le(|data.meshes|);
    U32Le(4 * |data.indexData|);
    U32Le(4 * |data.vertexData|);
    EncodeWords(HeaderWords(h)) + EncodeMeshes(data.meshes[..h.meshCount])
    + EncodeWords(data.indexData)[..h.indexDataSize] + EncodeWords(data.vertexData)[..h.vertexDataSize]
  }

  /** No size overflows its 32-bit header field. */
  predicate Fits(data: MeshData) {
    && HEADER_SIZE + MESH_SIZE * |data.meshes| < TWO_32
    && 4 * |data.indexData| < TWO_32
    && 4 * |data.vertexData| < TWO_32
  }

  /** When the sizes fit, the header counts exactly what follows it and
      `dataBlockStartOffset` is where the index data begins. */
  lemma HeaderCounts(data: MeshData)
    requires Fits(data)
    ensures var h := HeaderOf(data);
            && h.meshCount == |data.meshes|
            && h.dataBlockStartOffset == HEADER_SIZE + MESH_SIZE * h.meshCount
            && h.indexDataSize == 4 * |data.indexData|
            && h.vertexDataSize == 4 * |data.vertexData|
  {
    U32Small(|data.meshes|);
    U32Small(HEADER_SIZE + MESH_SIZE * |data.meshes|);
    U32Small(4 * |data.indexData|);
    U32Small(4 * |data.vertexData|);
  }

  /** `loadMeshData` inverts `saveMeshesToFile` and returns the header that was written. */
  lemma LoadSaveMeshes(data: MeshData)
    requires AllWellShaped(data.meshes) && Fits(data)
    ensures LoadMeshData(Some(SaveMeshes(data))) == Ok((HeaderOf(data), data))
  {
    var h := HeaderOf(data);
    HeaderCounts(data);
    assert data.meshes[..h.meshCount] == data.meshes;
    var idx := EncodeWords(data.indexData);
    var vtx := EncodeWords(data.vertexData);
    assert idx[..h.indexDataSize] == idx;
    assert vtx[..h.vertexDataSize] == vtx;
    var body := EncodeMeshes(data.meshes) + idx + vtx;
    var file := SaveMeshes(data);
    assert file == EncodeWords(HeaderWords(h)) + body;
    ReadWordsEncode(HeaderWords(h), body);
    LoadSaveBody(data, h);
  }

  lemma LoadSaveBody(data: MeshData, h: MeshFileHeader)
    requires AllWellShaped(data.meshes)
    requires h.meshCount == |data.meshes| && h.indexDataSize == 4 * |data.indexData|
    requires h.vertexDataSize == 4 * |data.vertexData|
    ensures LoadMeshBody(h, EncodeMeshes(data.meshes) + EncodeWords(data.indexData) + EncodeWords(data.vertexData))
            == Ok((h, data))
  {
    var idx := EncodeWords(data.indexData);
    var vtx := EncodeWords(data.vertexData);
    ConcatAssoc(EncodeMeshes(data.meshes), idx, vtx);
    ReadMeshesEncode(data.meshes, idx + vtx);
    ReadPayloadEncode(data.indexData, vtx);
    assert vtx == vtx + [];
    ReadPayloadEncode(data.vertexData, []);
    LoadMeshBodyParts(h, EncodeMeshes(data.meshes) + idx + vtx, data, idx + vtx, vtx, []);
  }

  lemma ReadPayloadEncode(ws: seq<uint32>, rest: seq<byte>)
    ensures ReadPayload(EncodeWords(ws) + rest, 4 * |ws|) == Ok((ws, rest))
  {
    var size := 4 * |ws|;
    assert size / 4 == |ws| && size % 4 == 0;
    ReadWordsEncode(ws, rest);
  }

  /** The three reads after the header, one after the other. */
  lemma LoadMeshBodyParts(h: MeshFileHeader, body: seq<byte>, data: MeshData,
                          rest1: seq<byte>, rest2: seq<byte>, rest3: seq<byte>)
    requires ReadMeshes(body, h.meshCount) == Ok((data.meshes, rest1))
    requires ReadPayload(rest1, h.indexDataSize) == Ok((data.indexData, rest2))
    requires ReadPayload(rest2, h.vertexDataSize) == Ok((data.vertexData, rest3))
    ensures LoadMeshBody(h, body) == Ok((h, data))
  {
  }
}
