# Scene graph and asset pipeline of 3DEngineOpenGL, in Dafny

This project models the data side of a small OpenGL engine and its two offline converters:

- the data-oriented scene graph (`Scene`, `Hierarchy`): parallel arrays of local transforms,
  global transforms and hierarchy records, `addNode`, `markAsChanged`, the level-by-level
  `recalculateGlobalTransforms`, `getNodeName`, and the binary scene file with its maps and
  string lists (`SceneGraph`, `SceneInvariants`, `SceneMarking`, `SceneTransforms`,
  `ScenePropagation`, `SceneGap`, `SceneFile`);
- the scene converter: `traverse`, which turns an imported node tree into the graph
  (`Assimp`, `Traverse`), its string helpers and texture naming (`Text`, `TextureNames`), and the
  LOD bookkeeping of `convertAIMesh` and `processLods` (`Lods`, `SceneMeshes`);
- the mesh converter: `convertAssimpMesh`, `processLods`, the mesh file written by
  `saveMeshesToFile`, its argument check (`MeshTool`, `Lods`), and the mesh file format of
  `VtxData` read back by `loadMeshData` (`Meshes`);
- the material records and material file (`Materials`);
- the renderer's scene data: bindless texture handles, material binding, the draw-record join of
  `GLSceneData` and the first transform update (`SceneData`);
- small utilities: mip-level count, checkerboard image, cube-face offsets and texture handle
  moves (`Textures`), bitmap sizing and pixel access (`Bitmaps`), `clamp` and bounding boxes
  (`Boxes`), the debug-line canvas (`Canvas`) and the shader type chosen from a file name
  (`Shaders`).

Everything is a pure function over immutable datatypes. Files are byte sequences. A
`fread` that comes up short fills the whole elements the file still holds. The rest of the
buffer keeps what `resize` or the previous read left there, and the reader remembers the
end-of-file indicator. A file that ends inside an element leaves that element indeterminate,
and the model stops there with `ShortRead`. Matrices are opaque 16-word values. The matrix product is a parameter `mul`, and
associativity is assumed of it only where a lemma needs it. Floating-point values are
carried as their bit patterns. The iteration order of an `unordered_map` is a parameter: a
sequence that enumerates the map's keys.

## Model

| member | source | states |
|---|---|---|
| Bytes.U32Small | Core/Util/Scene.cpp:94 | a count below 2^32 survives the conversion to `uint32_t` unchanged |
| Bytes.DecodeEncodeU32 | Core/Util/Scene.cpp:95 | the four little-endian bytes written for a `uint32_t` decode to the same value |
| Bytes.EncodeDecodeU32 | Core/Util/Scene.cpp:163-164 | any four bytes are the little-endian encoding of the `uint32_t` they decode to |
| Bytes.BitsInt32RoundTrip | Core/Util/Scene.h:12-24 | an `int` field stored as its 32-bit pattern reads back as the same signed value |
| Bytes.ReadU32 | Core/Util/Scene.cpp:64 | reading one `uint32_t` succeeds exactly when four bytes remain, and consumes those four |
| Bytes.ReadWords | Core/Util/Scene.cpp:167 | reading n words succeeds exactly when 4·n bytes remain; it yields n words and consumes 4·n bytes |
| Bytes.ReadU32Encode | Core/Util/Scene.cpp:64 | a written `uint32_t` reads back with the rest of the file untouched |
| Bytes.ReadWordsEncode | Core/Util/Scene.cpp:126 | n written words read back as the same n words, leaving the rest of the file |
| Bytes.EncodeU32 | Core/Util/Scene.cpp:95 | a `uint32_t` is written as four bytes |
| Bytes.EncodeWords | Core/Util/Scene.cpp:126 | n words are written as 4·n bytes |
| Matrix.Identity | Core/Util/Scene.cpp:15-16 | `glm::mat4(1.0f)` has 1.0f on the diagonal and 0 elsewhere |
| Matrix.ReadMats | Core/Util/Scene.cpp:71-72 | reading n matrices succeeds exactly when 64·n bytes remain and yields n matrices |
| Matrix.ReadMatsEncode | Core/Util/Scene.cpp:98-99 | n written matrices read back as the same matrices, leaving the rest of the file |
| Matrix.EncodeMat | Core/Util/Scene.cpp:98 | a matrix is written as 64 bytes |
| Matrix.EncodeMats | Core/Util/Scene.cpp:98-99 | n matrices are written as 64·n bytes |
| Text.Lowercase | Tools/SceneConversionTool/src/Main.cpp:377-383 | on seven-bit text, where `tolower` is defined, the result is seven-bit and has the input's length, and its i-th character is `tolower` of the input's i-th |
| Text.LowercaseHasNoUpper | Tools/SceneConversionTool/src/Main.cpp:377-383 | no character of a lowercased string is an upper-case letter |
| Text.LowercaseIdempotent | Tools/SceneConversionTool/src/Main.cpp:377-383 | lowercasing twice is lowercasing once |
| Text.LowercaseAppend | Tools/SceneConversionTool/src/Main.cpp:412-413 | lowercasing distributes over concatenation |
| Text.LowercaseKeepsNonLetter | Tools/SceneConversionTool/src/Main.cpp:412-413 | a non-letter occurs in the lowercased string exactly where it occurred before |
| Text.FindFrom | Tools/SceneConversionTool/src/Main.cpp:389 | `find` from i returns the first position at or after i where the pattern occurs, or none when it occurs nowhere from i on |
| Text.Find | Tools/SceneConversionTool/src/Main.cpp:389 | `find` returns the first occurrence of the pattern, or none exactly when there is no occurrence |
| Text.FindIsFirst | Tools/SceneConversionTool/src/Main.cpp:389 | any first occurrence is the one `find` returns |
| Text.FindEmptyPattern | Tools/SceneConversionTool/src/Main.cpp:389 | the empty pattern is found at position 0 of every string, so the loop of `replaceAll` never ends for it |
| Text.Replace | Tools/SceneConversionTool/src/Main.cpp:390 | replacing n characters at p by t changes the length by the length of t minus n |
| Text.CountAppend | Tools/SceneConversionTool/src/Main.cpp:389-390 | occurrences of a character add up over a concatenation |
| Text.CountZero | Tools/SceneConversionTool/src/Main.cpp:389-390 | a character occurs zero times exactly when it is not in the string |
| Text.ReplaceDecreases | Tools/SceneConversionTool/src/Main.cpp:389-390 | when the replacement shares no character with the pattern, each replacement strictly lowers the count of the pattern's first character, so the loop terminates |
| Text.ReplaceAll | Tools/SceneConversionTool/src/Main.cpp:385-393 | on termination the result contains no occurrence of the old substring |
| Text.ReplaceAllAbsent | Tools/SceneConversionTool/src/Main.cpp:385-393 | a character in neither the input nor the replacement is not in the result |
| Text.ReplaceAllAscii | Tools/SceneConversionTool/src/Main.cpp:385-393 | replacing by seven-bit text keeps a seven-bit string seven-bit |
| Text.NoOccurrenceOfChar | Tools/SceneConversionTool/src/Main.cpp:407 | a one-character pattern that occurs nowhere is a character not in the string |
| Text.ReplaceAllSkipsPrefix | Tools/SceneConversionTool/src/Main.cpp:385-393 | a prefix free of the pattern character passes through `replaceAll` unchanged |
| Text.ReplaceAllIsSubstitute | Tools/SceneConversionTool/src/Main.cpp:385-393 | with a one-character pattern, `replaceAll` replaces every occurrence of that character, in one pass from the left |
| Text.LastSeparator | Tools/SceneConversionTool/src/Main.cpp:733 | `find_last_of("/\\")` is a separator position with no separator after it, or none when the name has no separator |
| Text.BasePath | Tools/SceneConversionTool/src/Main.cpp:733-734 | the base path is a prefix of the file name, is empty or ends with a separator, and no separator follows it in the file name |
| Text.BasePathOfJoin | Tools/SceneConversionTool/src/Main.cpp:733-734 | a directory ending in a separator joined with a plain file name has that directory as its base path |
| Text.BasePathIdempotent | Tools/SceneConversionTool/src/Main.cpp:733-734 | the base path of a base path is itself |
| Text.Decimal | Tools/SceneConversionTool/src/Main.cpp:116 | `std::to_string` of a count is a non-empty string of digits that starts with '0' only for 0 |
| Text.DecimalRoundTrip | Tools/SceneConversionTool/src/Main.cpp:116 | the digits of `std::to_string(i)` denote i |
| Text.DecimalInjective | Tools/SceneConversionTool/src/Main.cpp:116 | different indices give different decimal strings, in both directions |
| SceneGraph.NoDirtyNodes | Core/Util/Scene.h:35 | a fresh scene has all 16 dirty lists empty |
| SceneGraph.Siblings | Core/Util/Scene.h:12-24 | a child chain is empty exactly for -1, starts at its first node, stays inside the array, follows `nextSibling` link by link and ends at a node whose `nextSibling` is -1 |
| SceneGraph.WalkToTail | Core/Util/Scene.cpp:40 | the walk along `nextSibling` stops at the last node of the chain |
| SceneGraph.SiblingsFrame | Core/Util/Scene.cpp:22-44 | a chain is unchanged by updates that keep the `nextSibling` of each of its nodes |
| SceneGraph.SiblingsStep | Core/Util/Scene.cpp:40 | a chain is its first node followed by the chain from that node's `nextSibling` |
| SceneGraph.SiblingsUnfold | Core/Util/Scene.cpp:40 | a non-empty chain has an in-range first node and unfolds into it and the rest |
| SceneGraph.SiblingsExtend | Core/Util/Scene.cpp:42 | pointing the old tail's `nextSibling` at a new node with `nextSibling` -1 extends the chain by exactly that node |
| SceneGraph.TailOf | Core/Util/Scene.cpp:36-41 | the tail `addNode` links behind, from the cache or from the walk, is an existing node |
| SceneGraph.LinkChild | Core/Util/Scene.cpp:22-44 | the parent-side updates keep the number of records |
| SceneGraph.AddNode | Core/Util/Scene.cpp:9-51 | `addNode` returns the old node count; it appends one record and one identity matrix to both transform arrays; the new record has the given parent and level, no child and no next sibling; its `lastSibling` is itself exactly when it is its parent's first child, else -1; for a root no existing record changes; maps, names and dirty lists are untouched |
| SceneGraph.GetNodeName | Core/Util/Scene.cpp:3-7 | the name stored for the node's `uint32_t` key when that id is a non-negative `int`, otherwise the empty string |
| SceneInvariants.WellFormedTailReachable | Core/Util/Scene.cpp:24-41 | on a graph with sound chains and caches, `addNode` finds the tail in bounds, and the cached or walked tail is the last child of the parent |
| SceneInvariants.KidParent | Core/Util/Scene.h:12-24 | every listed child names the owner as parent and is one level below it |
| SceneInvariants.AddChildRecords | Core/Util/Scene.cpp:22-44 | under an existing parent, `addNode` changes only the parent's `firstChild` (when it had no children), the old tail's `nextSibling` and the first child's `lastSibling`, which become the new node; parents and levels of existing records never change |
| SceneInvariants.AddChildLists | Core/Util/Scene.cpp:22-44 | the parent's child list becomes the old list followed by the new node, whether the tail came from the cache or the walk; the new node has no children; every other child list is unchanged |
| SceneInvariants.AddRootChildLists | Core/Util/Scene.cpp:22 | `addNode` with parent -1 changes no existing record and no child list |
| SceneInvariants.AddRootChildrenAgree | Core/Util/Scene.cpp:19 | after adding a root every listed child still names its owner as parent one level below |
| SceneInvariants.AddRootPreservesWellFormed | Core/Util/Scene.cpp:9-51 | adding a root at level 0 keeps the graph well formed |
| SceneInvariants.RootAppendedFrame | Core/Util/Scene.cpp:19 | appending a record keeps every existing record |
| SceneInvariants.RootAppendedParentsList | Core/Util/Scene.cpp:19-22 | appending a root that leaves the old child lists alone keeps every non-root on its parent's child list |
| SceneInvariants.RootAppendedCacheSound | Core/Util/Scene.cpp:19-22 | appending a root with an empty child list that leaves the old child lists alone keeps every `lastSibling` cache sound |
| SceneInvariants.AddChildChildrenAgree | Core/Util/Scene.cpp:22-46 | adding a child one level below its parent keeps chains terminated and children agreeing with their owners |
| SceneInvariants.AddChildRoots | Core/Util/Scene.cpp:22-46 | adding a child keeps every root at level 0 and detached from sibling chains |
| SceneInvariants.AddChildParentListed | Core/Util/Scene.cpp:22-46 | after adding a child, the new node is on its parent's child list |
| SceneInvariants.AddChildParentsList | Core/Util/Scene.cpp:22-46 | after adding a child, every non-root is on its parent's child list |
| SceneInvariants.AddChildCacheSound | Core/Util/Scene.cpp:26-43 | after adding a child, every first child's `lastSibling` is -1 or the tail of its list |
| SceneInvariants.AddNodePreservesWellFormed | Core/Util/Scene.cpp:9-51 | `addNode` at level 0 for a root, or at parent level + 1 below 16 for a child, keeps the level discipline and sibling-chain integrity |
| SceneFile.ReadCountWhole | Core/Util/Scene.cpp:63-64 | reading the node count as one whole element: at the end of the file it reads as 0 and sets end-of-file; with four bytes it decodes them; a partial element is an error |
| SceneFile.ReadCountWholeEncode | Core/Util/Scene.cpp:94-95 | a written count reads back, leaving the rest of the file |
| SceneFile.ReadCountBytes | Core/Util/Scene.cpp:163-164 | the byte-wise read of the map size decodes four bytes when they are there; otherwise it sets end-of-file and yields the value whose little-endian bytes are the ones that remain followed by zeros |
| SceneFile.ReadCountBytesEncode | Core/Util/Scene.cpp:124-125 | a written map size reads back, leaving the rest of the file |
| SceneFile.ReadWordsPadded | Core/Util/Scene.cpp:166-167 | reading n words into a zeroed buffer: whole words read as written; past the end of the file the remaining words stay 0 and end-of-file is set; a partial word is an error |
| SceneFile.Pairs | Core/Util/Scene.cpp:117-123 | the flattened map has key i at position 2i and its value at 2i+1, in iteration order |
| SceneFile.SaveMap | Core/Util/Scene.cpp:115-127 | `saveMap` writes the count word and two words per entry |
| SceneFile.InsertPairs | Core/Util/Scene.cpp:168-169 | inserting the pairs never removes a key already in the map |
| SceneFile.LoadMap | Core/Util/Scene.cpp:159-170 | `loadMap` merges into the existing map, which is not cleared |
| SceneFile.InsertPairsOfMap | Core/Util/Scene.cpp:168-169 | inserting the flattened pairs of m for the keys ks into t gives t overridden by m's entries at exactly those keys |
| SceneFile.LoadSaveMap | Core/Util/Scene.cpp:115-170 | loading a saved map into a map t yields t updated with every saved entry, and the rest of the file is left; into an empty map this recovers the saved map |
| SceneFile.StringBytes | Core/Util/Scene.cpp:137 | a string is stored as one byte per character |
| SceneFile.SaveLine | Core/Util/Scene.cpp:135-137 | a line is stored as its length word followed by length + 1 bytes ending in NUL |
| SceneFile.SaveStringList | Core/Util/Scene.cpp:129-139 | `saveStringList` writes the count and then at least one length word per line |
| SceneFile.FirstNul | Core/Util/Scene.cpp:155 | the first NUL of a buffer, or its length when there is none |
| SceneFile.BytesString | Core/Util/Scene.cpp:155 | each byte before the terminator becomes one character |
| SceneFile.LoadLine | Core/Util/Scene.cpp:149-155 | a line read is the part of the returned buffer before its first NUL: each character is the byte at its position and none is NUL, the byte after the line is NUL, and the line is shorter than the buffer of at most 2^32 − 1 bytes |
| SceneFile.LoadStringList | Core/Util/Scene.cpp:141-157 | at the end of the file the list reads as empty; otherwise a list read has as many lines as its count word says |
| SceneFile.Resized | Core/Util/Scene.cpp:66-68 | `resize(n)` gives n elements: those of the vector where it had them, the value-initialised element past its end |
| SceneFile.ReadElement | Core/Util/Scene.cpp:153 | reading a buffer as one element succeeds exactly when the file is at its end or holds the whole element; at the end the buffer is unchanged and end-of-file is set |
| SceneFile.LoadLineParts | Core/Util/Scene.cpp:149-155 | once the length and the bytes are read, the line is the bytes before the first NUL, and a buffer without a NUL overruns |
| SceneFile.LoadLinesAtEnd | Core/Util/Scene.cpp:149-156 | at the end of the file every remaining line reads a length of 0 and no byte, so a buffer that is empty or starts with NUL gives empty lines and sets end-of-file |
| SceneFile.LoadStringListAtEnd | Core/Util/Scene.cpp:141-157 | a count n followed by the end of the file reads as n empty lines |
| SceneFile.LoadStringListStaleLine | Core/Util/Scene.cpp:149-155 | a line cut off after a one-character line sees that character left in the shrunk buffer, with no NUL after it, and overruns |
| SceneFile.StaleLineOverruns | Core/Util/Scene.cpp:151-155 | at the end of the file a line read into the buffer left as `[c, NUL]` shrinks it to `[c]`, which has no NUL, so the read overruns (`Malformed`) |
| SceneFile.LoadLinesLaterErr | Core/Util/Scene.cpp:149-156 | when the first line reads and a later one fails, the loop fails with that later error |
| SceneFile.ReadMatsInto | Core/Util/Scene.cpp:71-72 | reading matrices into a resized vector succeeds exactly when the file holds them all or ends on a matrix boundary; then the whole matrices there are read, the rest keep the vector's values, and end-of-file is set |
| SceneFile.ReadHierarchiesInto | Core/Util/Scene.cpp:73 | the same for 20-byte hierarchy records |
| SceneFile.LoadMapAtEnd | Core/Util/Scene.cpp:159-170 | a map read at the end of the file merges nothing and sets end-of-file |
| SceneFile.LoadSceneWithoutRecords | Core/Util/Scene.cpp:53-87 | a file that ends after both transform arrays gives those transforms, the records `resize` left (the target's, zero past its end), the target's maps and lists |
| SceneFile.LoadArraysWithoutRecords | Core/Util/Scene.cpp:63-73 | a file that ends after both transform arrays reads them, keeps the records `resize` left and sets end-of-file |
| SceneFile.ReadMatsIntoEncode | Core/Util/Scene.cpp:71-72 | written matrices read back into a resized vector of their number, whatever it held, leaving the rest of the file |
| SceneFile.LoadArraysParts | Core/Util/Scene.cpp:63-73 | reading the arrays is reading the count, then the local transforms, the global transforms and the records into the resized vectors |
| SceneFile.ReadHierarchiesIntoAtEnd | Core/Util/Scene.cpp:73 | at the end of the file no record is read, the resized vector keeps what it holds and end-of-file is set |
| SceneFile.ReadHierarchiesIntoEncode | Core/Util/Scene.cpp:73 | written records read back into a resized vector of their number, whatever it held, leaving the rest of the file |
| SceneFile.LoadSceneEmptyFile | Core/Util/Scene.cpp:53-87 | an empty file empties the three arrays and leaves everything else |
| SceneFile.Truncated | Core/Util/Scene.cpp:155 | a line read back is never longer than the line written |
| SceneFile.TruncatedAllPlain | Core/Util/Scene.cpp:155 | lines without NUL are not cut |
| SceneFile.LoadSaveLine | Core/Util/Scene.cpp:135-155 | one saved line reads back cut at its first NUL, whatever the buffer held before, leaving the rest of the file |
| SceneFile.LoadLineEncoded | Core/Util/Scene.cpp:151-155 | a length word followed by that many bytes and a NUL reads back as the bytes before the first NUL |
| SceneFile.LoadSaveLines | Core/Util/Scene.cpp:133-156 | the saved lines read back one by one, each cut at its first NUL |
| SceneFile.LoadSaveStringList | Core/Util/Scene.cpp:129-157 | the string-list round trip gives every line cut at its first NUL and leaves the rest of the file |
| SceneFile.LoadSavePlainStringList | Core/Util/Scene.cpp:129-157 | lines of plain one-byte text without NUL come back exactly |
| SceneFile.PlainTextUntruncated | Core/Util/Scene.cpp:155 | a line of plain text is its own truncation |
| SceneFile.EmbeddedNulTruncates | Core/Util/Scene.cpp:155 | a line with a NUL at i reads back with at most i characters |
| SceneFile.HierarchyWords | Core/Util/Scene.h:12-24 | a `Hierarchy` record is stored as five words, in field order |
| SceneFile.ReadHierarchies | Core/Util/Scene.cpp:73 | reading n records succeeds exactly when 20·n bytes remain and yields n records |
| SceneFile.ReadHierarchiesEncode | Core/Util/Scene.cpp:73-100 | n written records read back as the same records |
| SceneFile.NodeCount | Core/Util/Scene.cpp:94 | the node count written is the hierarchy size converted to `uint32_t`, never more than the size |
| SceneFile.SaveTail | Core/Util/Scene.cpp:106-111 | the name tail is written exactly when there are names and name entries |
| SceneFile.SaveScene | Core/Util/Scene.cpp:89-113 | the file holds at least the count, 84 bytes per node and the two map counts |
| SceneFile.LoadArrays | Core/Util/Scene.cpp:63-73 | the three arrays read back have the length the count word says; an empty file gives three empty arrays and sets end-of-file |
| SceneFile.LoadTail | Core/Util/Scene.cpp:79-84 | reading the tail keeps every key of the existing name map |
| SceneFile.LoadScene | Core/Util/Scene.cpp:53-61 | a file that cannot be opened leaves the scene untouched; an opened file is read from its start |
| SceneFile.LoadSceneFrom | Core/Util/Scene.cpp:63-87 | a loaded scene has parallel arrays, keeps the dirty lists, and keeps every key of the maps it is merged into |
| SceneFile.LoadSaveArrays | Core/Util/Scene.cpp:63-100 | the three arrays read back as their first `(uint32_t)` node-count entries, leaving the rest of the file |
| SceneFile.LoadSaveMaps | Core/Util/Scene.cpp:76-104 | the material map and then the mesh map read back merged into the target's maps |
| SceneFile.LoadSaveTail | Core/Util/Scene.cpp:79-111 | a written tail restores the name map (merged) and both lists; an unwritten one is still read, because the end-of-file indicator is set only by a short read, and yields the old name map and two empty lists |
| SceneFile.LoadSaveTailPresent | Core/Util/Scene.cpp:81-110 | a written tail reads back whole |
| SceneFile.LoadTailAtEnd | Core/Util/Scene.cpp:79-84 | at the end of the file the tail reads as an empty map and two empty lists |
| SceneFile.LoadSaveScene | Core/Util/Scene.cpp:53-113 | loading a saved scene into t gives the saved arrays, the saved maps merged into t's, and the names and material names only when the tail was written |
| SceneFile.LoadSaveSceneExact | Core/Util/Scene.cpp:53-113 | a scene with names and name entries, loaded into an empty scene, comes back exactly, with empty dirty lists |
| SceneFile.MaterialNamesLostWithoutNames | Core/Util/Scene.cpp:106-111 | a scene without names or without name entries loses its material names on the round trip |
| SceneFile.EncodeHierarchies | Core/Util/Scene.cpp:100 | n hierarchy records are written as 20·n bytes |
| SceneFile.SaveLines | Core/Util/Scene.cpp:133-138 | the loop writes at least one length word per line |
| SceneFile.LoadLines | Core/Util/Scene.cpp:149-156 | the loop yields exactly as many lines as the count read |
| SceneFile.LoadLinesCons | Core/Util/Scene.cpp:149-156 | reading n lines is reading one, then n − 1 |
| SceneFile.TruncatedAll | Core/Util/Scene.cpp:155 | cutting every line at its first NUL keeps the number of lines |
| SceneMarking.Push | Core/Util/Scene.cpp:177 | pushing a node on level l appends it to list l and leaves every other list |
| SceneMarking.MarkAsChanged | Core/Util/Scene.cpp:173-185 | `markAsChanged(n)` keeps every list as a prefix and appends n to its own level's list first |
| SceneMarking.MarkChildren | Core/Util/Scene.cpp:181-184 | the loop over the children keeps every list as a prefix |
| SceneMarking.AtLevelMembers | Core/Util/Scene.cpp:176-177 | a node is kept by the per-level selection exactly when it is in the list and sits at that level |
| SceneMarking.AtLevelAppend | Core/Util/Scene.cpp:177 | selecting one level distributes over concatenation |
| SceneMarking.Subtree | Core/Util/Scene.cpp:173-185 | a node's subtree starts with the node and holds only existing nodes at its level or deeper |
| SceneMarking.Forest | Core/Util/Scene.cpp:181-184 | the subtrees of a sibling list hold only existing nodes at the siblings' level or deeper |
| SceneMarking.KidsAtLevel | Core/Util/Scene.h:22-23 | on a layered graph every child sits one level below its parent |
| SceneMarking.ForestMember | Core/Util/Scene.cpp:181-184 | a node is in the subtrees of a sibling list exactly when it is in the subtree of one of the siblings |
| SceneMarking.SubtreeParent | Core/Util/Scene.cpp:181-184 | every subtree node other than the top has its parent in the subtree, one level up |
| SceneMarking.SubtreeChildren | Core/Util/Scene.cpp:181-184 | the subtree is closed under taking children |
| SceneMarking.SubtreeLevelsContiguous | Core/Util/Scene.cpp:173-185 | a subtree reaching level l has a node on every level between its top and l |
| SceneMarking.MarkAsChangedAppends | Core/Util/Scene.cpp:173-185 | `markAsChanged(n)` only appends: list l gains exactly the nodes of n's subtree at level l, in traversal order |
| SceneMarking.MarkAsChangedStep | Core/Util/Scene.cpp:176-184 | marking a node is pushing it on its own level's list and then marking its children in list order |
| SceneMarking.PushAppend | Core/Util/Scene.cpp:177 | pushing n on its level's list is appending n's selection at every level |
| SceneMarking.MarkChildrenAppends | Core/Util/Scene.cpp:181-184 | the loop over siblings appends to list l exactly the nodes at level l of their subtrees |
| SceneMarking.MarkChildrenStep | Core/Util/Scene.cpp:181-184 | marking a sibling list is marking the first sibling's subtree, then the rest |
| SceneTransforms.UpdateList | Core/Util/Scene.cpp:204-209 | the inner loop changes only the listed globals; when no listed node's parent is listed, each gets global[parent] · local |
| SceneTransforms.ReachesAfterStep | Core/Util/Scene.cpp:202 | clearing a processed non-empty level keeps the outer loop's reach unchanged for the following levels |
| SceneTransforms.RootStep | Core/Util/Scene.cpp:192-199 | the level-0 step empties list 0 and, when the list was not empty, sets the global of its first node to that node's local; every other global is left as it was |
| SceneTransforms.RootStepFrame | Core/Util/Scene.cpp:192-199 | the level-0 step changes only the global transforms and clears the level-0 list, leaving every other list |
| SceneTransforms.LowerLevels | Core/Util/Scene.cpp:202-211 | the outer loop from level i changes only globals and dirty lists, clears exactly the lists it reaches before the first empty one, and leaves the others |
| SceneTransforms.Recalculate | Core/Util/Scene.cpp:189-212 | `recalculateGlobalTransforms` clears level 0 and exactly the lower lists before the first empty one, and changes nothing but globals and lists |
| SceneTransforms.AllLevels | Core/Util/Scene.cpp:202-211 | visiting every level from i clears all of them and changes nothing but globals and lists |
| SceneTransforms.RecalculateAllLevels | Core/Util/Scene.cpp:189-212 | the update that visits every level leaves all 16 lists empty and changes nothing but globals and lists |
| ScenePropagation.WellFormedParentsAbove | Core/Util/Scene.h:12-24 | in a well-formed graph every level indexes a dirty list and every node below level 0 has a parent one level up |
| ScenePropagation.ParentLevel | Core/Util/Scene.h:22-23 | a node below level 0 has an existing parent one level up |
| ScenePropagation.MarkedUpdatableAll | Core/Util/Scene.cpp:204-208 | marks at their own level on such a graph are safe for the all-levels update |
| ScenePropagation.MarkedUpdatable | Core/Util/Scene.cpp:192-208 | marks at their own level are safe for both updates: every index and parent index is in bounds |
| ScenePropagation.ListedAtOwnLevel | Core/Util/Scene.cpp:176-177 | a listed node is an existing node at the list's level |
| ScenePropagation.Sweep | Core/Util/Scene.cpp:202-211 | running the inner loop over a sequence of lists keeps the number of globals |
| ScenePropagation.AllLevelsSweep | Core/Util/Scene.cpp:202-211 | visiting levels i and below computes the sweep over those lists |
| ScenePropagation.AtLevelsUpdatable | Core/Util/Scene.cpp:206-208 | lists at levels 1 and below, each holding nodes of its level, have valid parents |
| ScenePropagation.AtLevelsTail | Core/Util/Scene.cpp:202 | dropping the first level of such lists shifts the base level by one |
| ScenePropagation.AboveUnlisted | Core/Util/Scene.cpp:202-211 | a node above the lists' base level is on none of them |
| ScenePropagation.SweepUnlisted | Core/Util/Scene.cpp:202-211 | a node on none of the lists keeps its global transform |
| ScenePropagation.SweepListed | Core/Util/Scene.cpp:204-209 | after the sweep every listed node's global is its parent's final global times its local, because parents are processed a level earlier |
| ScenePropagation.MarksAtLevels | Core/Util/Scene.cpp:202 | marks at their own level put list k at level k |
| ScenePropagation.RecalculateAllSweep | Core/Util/Scene.cpp:189-212 | the all-levels update is the level-0 step followed by the sweep over lists 1 to 15 |
| ScenePropagation.RecalculateAllRoot | Core/Util/Scene.cpp:192-199 | the first level-0 entry gets global := local |
| ScenePropagation.RecalculateAllListed | Core/Util/Scene.cpp:204-209 | every listed node below level 0 ends with global = global[parent] · local |
| ScenePropagation.OwnLevelUnlisted | Core/Util/Scene.cpp:202-211 | a node missing from its own level's list is on no list below level 0 |
| ScenePropagation.RecalculateAllUnlisted | Core/Util/Scene.cpp:189-212 | a node neither listed at its level nor first on level 0 keeps its global transform |
| ScenePropagation.RecalculateAllPropagates | Core/Util/Scene.cpp:189-212 | the all-levels update sets the root's global to its local, gives every listed node global[parent] · local, and leaves every unlisted node's global unchanged |
| ScenePropagation.RecalculateUnmarkedNoop | Core/Util/Scene.cpp:192-202 | with levels 0 and 1 empty the update changes nothing |
| ScenePropagation.RecalculateIdempotent | Core/Util/Scene.cpp:189-212 | a second call with no new marks is a no-op |
| ScenePropagation.AllLevelsUnmarkedNoop | Core/Util/Scene.cpp:202-211 | visiting only empty levels changes nothing |
| ScenePropagation.RecalculateAllIdempotent | Core/Util/Scene.cpp:189-212 | a second all-levels update with no new marks is a no-op |
| ScenePropagation.LowerLevelsAgree | Core/Util/Scene.cpp:202 | when no empty list is followed by a non-empty one, stopping at the first empty list is the same as visiting every level |
| ScenePropagation.RecalculateAgreesWithoutGap | Core/Util/Scene.cpp:189-212 | without such a gap the update as written equals the all-levels update |
| ScenePropagation.MarkFromClean | Core/Util/Scene.cpp:173-185 | marking a node on clean lists puts exactly its subtree's level-l nodes on list l |
| ScenePropagation.MarkRootAtOwnLevel | Core/Util/Scene.cpp:176-177 | marking puts every node on its own level's list |
| ScenePropagation.MarkRootNoGap | Core/Util/Scene.cpp:173-202 | marking a level-0 node on clean lists leaves no empty list above a non-empty one |
| ScenePropagation.MarkRootHead | Core/Util/Scene.cpp:177-195 | after marking a level-0 node on clean lists, that node heads list 0 |
| ScenePropagation.GapFreeRecalculate | Core/Util/Scene.cpp:189-212 | on gap-free marks at their own level headed by the root, the update as written equals the all-levels one, sets the root's global to its local and propagates to every listed node |
| ScenePropagation.MarkRootThenRecalculate | Core/Util/Scene.cpp:173-212 | `markAsChanged(root)` then the update: the update as written equals the all-levels one and the root's global becomes its local |
| ScenePropagation.GapFreeListed | Core/Util/Scene.cpp:204-209 | on gap-free marks, each listed node gets global[parent] · local from the update as written |
| ScenePropagation.MarkRootNodePropagates | Core/Util/Scene.cpp:173-212 | after `markAsChanged(root)` and the update, one subtree node below the root has global = global[parent] · local |
| ScenePropagation.MarkRootThenRecalculatePropagates | Core/Util/Scene.cpp:173-212 | after `markAsChanged(root)` and the update, every node of the root's subtree other than the root has global = global[parent] · local |
| SceneGap.RecalculateStopsAtEmptyLevel | Core/Util/Scene.cpp:202 | with level 1 empty the update as written only applies the level-0 step and leaves every lower list as it was |
| SceneGap.Chain | Core/Util/Scene.h:12-24 | the example graph has three nodes, the last at level 2 under node 1 |
| SceneGap.ChainLists | Core/Util/Scene.h:12-24 | in the example each node has the next as its only child |
| SceneGap.ChainLayered | Core/Util/Scene.h:22-23 | the example graph is layered |
| SceneGap.MarkLeaf | Core/Util/Scene.cpp:173-185 | marking the leaf on clean lists queues it alone, on level 2 |
| SceneGap.LeafQueuedUpdates | Core/Util/Scene.cpp:202-211 | with only the leaf queued, the update as written leaves its global and its mark in place, while the all-levels update gives it global[parent] · local |
| SceneGap.DeepMarkIsLost | Core/Util/Scene.cpp:173-212 | `markAsChanged` of a level-2 node followed by the update as written leaves that node's global transform stale and still queued; the all-levels update computes it |
| Assimp.TriangleCount | Tools/MeshConversionTool/src/Main.cpp:137-147 | the triangles kept are at most the faces |
| Assimp.AllTriangles | Tools/MeshConversionTool/src/Main.cpp:137-147 | every face is kept exactly when every face has three indices |
| Assimp.Triangles | Tools/MeshConversionTool/src/Main.cpp:137-147 | three indices are pushed per kept face |
| Assimp.TrianglesRebased | Tools/MeshConversionTool/src/Main.cpp:143-145 | each pushed index is the face's own index plus the running vertex offset, as a `uint32_t` |
| Traverse.ToMat4 | Tools/SceneConversionTool/src/Main.cpp:532-568 | the returned `mm` is the word-for-word copy: column i, row j of the glm matrix is row i, column j of the assimp matrix, so the matrix returned is the transpose of the source |
| Traverse.AssimpToGlm | Tools/SceneConversionTool/src/Main.cpp:543-562 | the matrix `to`, built only for the assert: entry (row, col) in glm's column-major storage is entry (row, col) of the source in assimp's row-major storage |
| Traverse.ToMat4AssertHolds | Tools/SceneConversionTool/src/Main.cpp:564-566 | the assert `to == mm` holds exactly when the source matrix is symmetric |
| Traverse.TranslationTransposed | Tools/SceneConversionTool/src/Main.cpp:532-568 | for a translation by t != 0 along x, the returned matrix holds t in word 3, a projective entry for glm, and 0 in word 12, where the converted matrix holds t; such a matrix is not symmetric |
| Traverse.AddNodeKeepsCaches | Core/Util/Scene.cpp:26-43 | when every first child caches its list's tail, `addNode` keeps that so and finds the tail in bounds |
| Traverse.NameNode | Tools/SceneConversionTool/src/Main.cpp:102-106 | naming a node appends the name and maps the node to the name's index, `names.size()` before the push |
| Traverse.NodeAndMeshes | Tools/SceneConversionTool/src/Main.cpp:94-138 | the node and its mesh sub-nodes add 1 + number-of-meshes records, keeping the arrays parallel |
| Traverse.TraverseNode | Tools/SceneConversionTool/src/Main.cpp:88-162 | `traverse` adds exactly one record per node of the source subtree plus one per attached mesh |
| Traverse.Placed | Tools/SceneConversionTool/src/Main.cpp:140-145 | setting the node's own transforms, the local one to the word copy `toMat4` returns, leaves the hierarchy as the mesh loop left it |
| Traverse.MeshSubNodes | Tools/SceneConversionTool/src/Main.cpp:110-138 | the mesh loop adds one record per remaining mesh |
| Traverse.TraverseChildren | Tools/SceneConversionTool/src/Main.cpp:158-161 | the children's loop adds the records of every remaining child's subtree |
| Traverse.AddNodeKeepsPlacement | Core/Util/Scene.cpp:9-51 | `addNode` at a valid placement keeps the graph well formed and moves no existing node |
| Traverse.NodeAndMeshesWellFormed | Tools/SceneConversionTool/src/Main.cpp:94-112 | the node gets the given parent and level, its sub-nodes it as parent and level + 1, the graph stays well formed and no existing node moves |
| Traverse.TraverseNodeWellFormed | Tools/SceneConversionTool/src/Main.cpp:88-162 | below the 16-level bound, `traverse` keeps the level discipline and sibling-chain integrity, moves no existing node, and gives the new node the requested parent and level |
| Traverse.SubNodesWellFormed | Tools/SceneConversionTool/src/Main.cpp:110-112 | every mesh sub-node has the node as parent and sits one level below it |
| Traverse.ChildrenWellFormed | Tools/SceneConversionTool/src/Main.cpp:158-161 | children recurse with the new node as parent at the next level, keeping the graph well formed |
| Traverse.NodeAndMeshesOwnList | Tools/SceneConversionTool/src/Main.cpp:110-112 | after the mesh loop the node's child list is exactly its sub-nodes, in order |
| Traverse.NodeAndMeshesLists | Tools/SceneConversionTool/src/Main.cpp:94 | the parent's list gains the new node at its end; no other existing list changes |
| Traverse.TraverseNodeOwnList | Tools/SceneConversionTool/src/Main.cpp:110-161 | the node's child list is its mesh sub-nodes followed by the roots of its children's subtrees, so the sub-nodes head the list |
| Traverse.PlacedChildLists | Tools/SceneConversionTool/src/Main.cpp:158-161 | the children's loop appends the children's roots to the node's list |
| Traverse.PlacedWellFormed | Tools/SceneConversionTool/src/Main.cpp:140-161 | after the mesh loop the scene is well formed and the children's loop can run at the next level |
| Traverse.PlacedOwnList | Tools/SceneConversionTool/src/Main.cpp:110-145 | before the children's loop the node lists exactly its mesh sub-nodes |
| Traverse.TraverseNodeLists | Tools/SceneConversionTool/src/Main.cpp:88-162 | `traverse` appends the new node to its parent's list and changes no other existing list |
| Traverse.SubNodesLists | Tools/SceneConversionTool/src/Main.cpp:110-112 | the mesh sub-nodes are appended to the node's list in order; no other existing list changes |
| Traverse.ChildrenLists | Tools/SceneConversionTool/src/Main.cpp:158-161 | the children's loop appends the children's roots, in order, to the node's list; no other existing list changes |
| Traverse.ChildrenListsStep | Tools/SceneConversionTool/src/Main.cpp:158-161 | the same for a loop with a child left |
| Traverse.ChildStepReady | Tools/SceneConversionTool/src/Main.cpp:158-161 | one step of the children's loop leaves the scene ready for the next child |
| Traverse.SubRecords | Tools/SceneConversionTool/src/Main.cpp:110-138 | one record per remaining mesh |
| Traverse.HeadRecords | Tools/SceneConversionTool/src/Main.cpp:94-145 | a node contributes itself, with the word copy of its transform as local transform, and one record per mesh |
| Traverse.Records | Tools/SceneConversionTool/src/Main.cpp:88-162 | a source subtree contributes one record per created node |
| Traverse.ChildRecords | Tools/SceneConversionTool/src/Main.cpp:158-161 | the remaining children contribute one record per created node |
| Traverse.ProjectionsJoin | Tools/SceneConversionTool/src/Main.cpp:88-162 | names, transforms, meshes and materials of joined record runs are the joined projections |
| Traverse.SequentialJoin | Tools/SceneConversionTool/src/Main.cpp:102-114 | dense name ids of two runs join into one dense run |
| Traverse.KeyedJoin | Tools/SceneConversionTool/src/Main.cpp:118-124 | keying two runs of node ids one after the other is keying the joined run |
| Traverse.AppendedOne | Core/Util/Scene.cpp:9-51 | one added, named and mapped node appends one record |
| Traverse.KeyedOne | Tools/SceneConversionTool/src/Main.cpp:122-124 | keying one id sets it exactly when the record has a value |
| Traverse.AppendedTrans | Tools/SceneConversionTool/src/Main.cpp:88-162 | appending one run of records and then another appends their concatenation |
| Traverse.AppendedRetransform | Tools/SceneConversionTool/src/Main.cpp:140-145 | overwriting the first new node's transforms changes only its record's local transform |
| Traverse.SubRecordsCons | Tools/SceneConversionTool/src/Main.cpp:110 | the remaining meshes' records are the next mesh's record followed by the rest |
| Traverse.SubNodesAppended | Tools/SceneConversionTool/src/Main.cpp:110-138 | each mesh sub-node gets the name `<node>_Mesh_<i>` with the next dense name id, the mesh id, that mesh's material index and identity transforms |
| Traverse.AppendedNothing | Tools/SceneConversionTool/src/Main.cpp:110-158 | an empty loop appends nothing |
| Traverse.NodeAndMeshesAppended | Tools/SceneConversionTool/src/Main.cpp:94-138 | the node itself is named with the next dense id and has no mesh or material; its sub-nodes follow |
| Traverse.PlacedAppended | Tools/SceneConversionTool/src/Main.cpp:140-145 | the node's own local transform is what `toMat4` returns for the source transform, the word copy, and its global the identity |
| Traverse.TraverseNodeAppended | Tools/SceneConversionTool/src/Main.cpp:88-162 | `traverse` appends exactly the records of the source subtree in pre-order: names, the word copies of the transforms, dense name ids and the mesh and material entries of the sub-nodes, nothing else changing |
| Traverse.ChildrenAppended | Tools/SceneConversionTool/src/Main.cpp:158-161 | the children's loop appends the children's subtrees one after the other |
| Traverse.ChildStepFits | Tools/SceneConversionTool/src/Main.cpp:158-161 | one step of the children's loop stays within the size bounds and splits off the child's records |
| Traverse.MeshNodeNamesDistinct | Tools/SceneConversionTool/src/Main.cpp:116 | the sub-nodes of one node get distinct names: two names are equal exactly when the mesh positions are |
| Traverse.ConvertHierarchy | Tools/SceneConversionTool/src/Main.cpp:770-797 | converting the root node from (-1, 0) into a fresh scene creates one node per source node and mesh attachment |
| Traverse.ConvertHierarchyRecords | Tools/SceneConversionTool/src/Main.cpp:770-797 | the converted scene's names and local transforms, the word copies `toMat4` returns, are the pre-order records, globals are identities, node x has name id x, only mesh sub-nodes have mesh and material entries, material names are kept and no node is dirty |
| Traverse.ConvertedNodeName | Core/Util/Scene.cpp:3-7 | `getNodeName` on the converted scene: an `int` id within the graph gives the name of the pre-order record at that position, and any other id gives the empty string |
| Traverse.NameOfRecords | Core/Util/Scene.cpp:3-7 | on a scene whose names are those of the records and whose name id of each node is the node id, `getNodeName` indexes the records, and is empty outside them |
| Traverse.AppendedToEmpty | Tools/SceneConversionTool/src/Main.cpp:770-797 | records appended to an empty scene are its whole content |
| Traverse.KeyedFromEmpty | Tools/SceneConversionTool/src/Main.cpp:118-124 | a keyed run from 0 holds a key exactly where the run has a value |
| Traverse.ConvertHierarchyWellFormed | Tools/SceneConversionTool/src/Main.cpp:797 | started as (-1, 0) on a tree shallower than 16 levels, the result is well formed, node 0 is the root at level 0, and its children are its mesh sub-nodes followed by its children's roots |
| Traverse.PairedRefsJoin | Tools/SceneConversionTool/src/Main.cpp:122-124 | pairing of mesh and material entries survives concatenation |
| Traverse.RecordsPaired | Tools/SceneConversionTool/src/Main.cpp:120-124 | a created node has a mesh entry exactly when it has a material entry, and its mesh is one of the scene's |
| Traverse.ChildRecordsPaired | Tools/SceneConversionTool/src/Main.cpp:158-161 | the same for the children's records |
| TextureNames.SourceTexturePath | Tools/SceneConversionTool/src/Main.cpp:407 | the source path of a texture holds no backslash once `replaceAll` has run |
| TextureNames.TextureFileName | Tools/SceneConversionTool/src/Main.cpp:407-413 | the converted name starts with `data/out_textures/` and ends with `__rescaled.png`, and the part between holds no '/', no '\\' and no upper-case letter |
| TextureNames.TextureStem | Tools/SceneConversionTool/src/Main.cpp:407-413 | the flattened, lower-cased stem holds no separator and no upper-case letter and ends with `__rescaled` |
| TextureNames.FlatStem | Tools/SceneConversionTool/src/Main.cpp:412-413 | flattening and lower-casing a path without backslashes, then adding `__rescaled`, leaves no separator and no upper-case letter |
| TextureNames.InOutputDir | Tools/SceneConversionTool/src/Main.cpp:413 | placing a flat stem in `data/out_textures/` with `.png` gives a name of that directory whose part after it has no separator |
| TextureNames.PlainTextureFileName | Tools/SceneConversionTool/src/Main.cpp:407-413 | a base path and file name without separators, dots or upper-case letters give exactly `data/out_textures/` + base path + file + `__rescaled.png` |
| TextureNames.PlainFlatStem | Tools/SceneConversionTool/src/Main.cpp:412-413 | the stem of a flat, lower-case, dot-free seven-bit path is the path followed by `__rescaled` |
| TextureNames.FlattenedPath | Tools/SceneConversionTool/src/Main.cpp:412 | replacing ".." and then "/" by "__" in a path without backslashes leaves no separator |
| TextureNames.LowercaseSuffix | Tools/SceneConversionTool/src/Main.cpp:412-413 | lowercasing a separator-free path and adding a separator-free lower-case suffix gives a string with no separator and no upper-case letter that ends with the suffix |
| TextureNames.SuffixLowercase | Tools/SceneConversionTool/src/Main.cpp:413 | `__rescaled` is already lower case |
| TextureNames.SuffixHasNoSeparator | Tools/SceneConversionTool/src/Main.cpp:413 | `__rescaled` contains no separator |
| TextureNames.LowercaseUnchanged | Tools/SceneConversionTool/src/Main.cpp:381 | a string without upper-case letters is its own lowercase |
| TextureNames.RescaledSize | Tools/SceneConversionTool/src/Main.cpp:425-479 | the output size is the loaded size capped at 512×512, or 512×512 when the load failed |
| Lods.TooLittleReduction | Tools/SceneConversionTool/src/Main.cpp:610 | the test is true exactly when the simplified count times 1.1, rounded down, exceeds the previous count, that is when the simplifier removed less than about a tenth |
| Lods.LodSteps | Tools/SceneConversionTool/src/Main.cpp:596-637 | the loop adds at most maxLods − lod lists, none longer than the list before it |
| Lods.ProcessLods | Tools/SceneConversionTool/src/Main.cpp:585-638 | `processLods` makes the input LOD 0, produces between 1 and maxLods lists, each no longer than the one before |
| Lods.SmallMeshSingleLod | Tools/SceneConversionTool/src/Main.cpp:596 | a mesh of at most 1024 indices gets only LOD 0 |
| Lods.FirstShortfallSingleLod | Tools/SceneConversionTool/src/Main.cpp:610-625 | when the first simplification falls short of a 10% reduction, the loop stops without trying the sloppy variant |
| Lods.HalvingSteps | Tools/SceneConversionTool/src/Main.cpp:596-637 | with a simplifier that halves, a large enough list yields every LOD up to the limit |
| Lods.EightLods | Tools/SceneConversionTool/src/Main.cpp:596 | with a halving simplifier, a list of at least 65600 indices yields all 8 LODs |
| SceneMeshes.VertexFloats | Tools/SceneConversionTool/src/Main.cpp:675-684 | each vertex is stored as eight floats |
| SceneMeshes.Vertices | Tools/SceneConversionTool/src/Main.cpp:662-685 | the vertex loop stores eight floats per vertex |
| SceneMeshes.Positions | Tools/SceneConversionTool/src/Main.cpp:668-673 | three unscaled position floats per vertex go to the simplifier |
| SceneMeshes.PositionCountAsWritten | Tools/SceneConversionTool/src/Main.cpp:587 | `verticesCountIn` is half the position floats, rounded down |
| SceneMeshes.HalfCountOverruns | Tools/SceneConversionTool/src/Main.cpp:587 | for more than one vertex, half the float count as vertex count exceeds the vertices stored |
| SceneMeshes.PositionCount | Tools/MeshConversionTool/src/Main.cpp:29-30 | a third of the float count is the largest count whose positions fit |
| SceneMeshes.PositionCountExact | Tools/SceneConversionTool/src/Main.cpp:668-673 | a third of the position floats is exactly the number of vertices |
| SceneMeshes.LodOffsets | Tools/SceneConversionTool/src/Main.cpp:702-713 | there is one offset per LOD plus the end marker, starting at 0 |
| SceneMeshes.FlattenAppend | Tools/SceneConversionTool/src/Main.cpp:704-708 | appending the LODs one after the other distributes over concatenation |
| SceneMeshes.FlattenSplit | Tools/SceneConversionTool/src/Main.cpp:704-708 | the stored indices are those before LOD l, LOD l, then those after it |
| SceneMeshes.LodOffsetsPrefix | Tools/SceneConversionTool/src/Main.cpp:709-710 | without wrap-around, `lodOffset[l]` is the total size of the LODs before l |
| SceneMeshes.LodOffsetsDelimit | Tools/SceneConversionTool/src/Main.cpp:704-713 | offsets l and l+1 are ordered, differ by the size of LOD l, and delimit exactly LOD l among the stored indices |
| SceneMeshes.LodOffsetsTotal | Tools/SceneConversionTool/src/Main.cpp:713 | `lodOffset[lodCount]` is the grand total |
| SceneMeshes.Build | Tools/SceneConversionTool/src/Main.cpp:640-720 | the descriptor gets the running offsets, the vertex count, one stream of 32-byte elements and the LOD offsets; the mesh's LODs and vertices are appended to the global data and the totals advance by indices and vertices |
| SceneMeshes.OutLodsAsWritten | Tools/SceneConversionTool/src/Main.cpp:695-698 | the LODs as written: LOD 0 is the triangle indices and there are at most 8 |
| SceneMeshes.ConvertAIMeshAsWritten | Tools/SceneConversionTool/src/Main.cpp:640-720 | the conversion as written fails exactly when there are 8 LODs, because the end marker goes past the array |
| SceneMeshes.EightLodsOverflow | Tools/SceneConversionTool/src/Main.cpp:713 | a mesh of at least 21867 triangles with a halving simplifier reaches 8 LODs, since the loop bound of line 596 admits an eighth, and the end marker then lands past `lodOffset` |
| SceneMeshes.OutLods | Tools/SceneConversionTool/src/Main.cpp:695-698 | with the cap of 7 LODs, LOD 0 is the triangle indices, fewer than `MAX_LODS` lists are made and none is longer than the one before |
| SceneMeshes.ConvertAIMesh | Tools/SceneConversionTool/src/Main.cpp:640-720 | with the LOD cap the end marker fits and `lodCount` is the number of LODs |
| SceneMeshes.ConvertAIMeshLods | Tools/SceneConversionTool/src/Main.cpp:687-717 | only 3-index faces are kept in LOD 0; `getLODIndicesCount(l)` is the size of LOD l; offsets l and l+1 delimit LOD l in the global index data; the totals keep counting the stored indices and vertices; the stream offset is the byte position of the mesh's vertices |
| SceneMeshes.BuildTotals | Tools/SceneConversionTool/src/Main.cpp:687-717 | after the step the index and vertex totals still count the stored indices and vertices, and the stream offset is the byte position of the mesh's vertices |
| SceneMeshes.BuildLodSlice | Tools/SceneConversionTool/src/Main.cpp:687-717 | `getLODIndicesCount(l)` is the size of LOD l, and offsets l and l+1 delimit LOD l in the global index data |
| SceneMeshes.SceneTotals | Tools/SceneConversionTool/src/Main.cpp:716-717 | without overflow the running totals advance exactly by the indices and vertices added |
| SceneMeshes.Appending | Tools/SceneConversionTool/src/Main.cpp:765 | `push_back` adds the descriptor at the end and leaves the index data, vertex data and totals alone |
| SceneMeshes.ConvertAll | Tools/SceneConversionTool/src/Main.cpp:761-766 | the loop as written either stops as undefined (`Malformed`) or appends one well-shaped descriptor per mesh, each with its end marker inside the array, keeping the descriptors already there |
| SceneMeshes.ConvertAllFails | Tools/SceneConversionTool/src/Main.cpp:761-766 | the loop as written is undefined exactly when some mesh reaches eight LODs |
| SceneMeshes.ConvertAllStep | Tools/SceneConversionTool/src/Main.cpp:761-766 | one step of the loop fails when its mesh does, and otherwise fails exactly when the rest of the loop does |
| SceneMeshes.OverflowsSplit | Tools/SceneConversionTool/src/Main.cpp:761-766 | some mesh reaches eight LODs exactly when the first does or one of the rest does |
| SceneMeshes.MeshesAfterStep | Tools/SceneConversionTool/src/Main.cpp:764-765 | after one loop step the earlier descriptors are kept and every new one has its end marker inside the array |
| SceneMeshes.ProcessSceneMeshes | Tools/SceneConversionTool/src/Main.cpp:722-766 | a scene that fails to load or has no meshes exits with `EXIT_FAILURE`; otherwise the run is undefined exactly when some mesh reaches eight LODs, and else there is one well-shaped descriptor per mesh |
| SceneMeshes.ConvertAllWithoutLods | Tools/SceneConversionTool/src/Main.cpp:761-766 | without LOD generation the loop as written succeeds and equals the corrected loop |
| SceneMeshes.ConvertAllCorrected | Tools/SceneConversionTool/src/Main.cpp:761-766 | with the LOD cap the loop always succeeds, keeps the descriptors already there and appends one well-shaped descriptor per mesh with its end marker inside the array |
| SceneMeshes.ProcessSceneMeshesCorrected | Tools/SceneConversionTool/src/Main.cpp:722-766 | with the LOD cap only a scene that fails to load or has no meshes fails, with `EXIT_FAILURE` |
| Meshes.Slots | Core/Util/VtxData.h:59-65 | a brace-initialised array member of n entries keeps the given prefix and is zero elsewhere |
| Meshes.NewMesh | Core/Util/VtxData.h:42-69 | a descriptor built with designated initialisers has arrays of their declared sizes, zero offsets unless given, and zero in every array entry not given |
| Meshes.LODIndicesCount | Core/Util/VtxData.h:68 | `getLODIndicesCount` is the unsigned 32-bit distance between offsets lod and lod+1: added to offset lod it gives offset lod+1 modulo 2^32, exactly when the offsets are ordered and with one wrap otherwise |
| Meshes.MeshWords | Core/Util/VtxData.h:42-69 | a descriptor is 29 words |
| Meshes.DecodeMesh | Core/Util/VtxData.h:42-69 | 29 words read back as a descriptor with arrays of their declared sizes |
| Meshes.DecodeMeshWords | Core/Util/VtxData.h:42-69 | decoding the words of a descriptor gives the descriptor back |
| Meshes.EncodeMesh | Core/Util/VtxData.h:42-69 | a descriptor is 116 bytes in the file |
| Meshes.EncodeMeshes | Tools/MeshConversionTool/src/Main.cpp:225 | n descriptors take 116·n bytes |
| Meshes.ReadMeshes | Core/Util/VtxData.cpp:25-30 | reading n descriptors succeeds exactly when 116·n bytes are there, and then gives n well-shaped descriptors and the bytes after them |
| Meshes.ReadMeshesCons | Core/Util/VtxData.cpp:26 | reading n descriptors is reading one, then n − 1 |
| Meshes.ReadMeshesEncode | Core/Util/VtxData.cpp:26 | reading back written descriptors gives them and the bytes that follow |
| Meshes.ReadPayload | Core/Util/VtxData.cpp:32-40 | a byte-count read into a vector of size / 4 words succeeds exactly when the size is a multiple of 4 and the bytes are there; a size not a multiple of 4 with more bytes available overruns the vector; any other short read exits with 255 |
| Meshes.LoadMeshData | Core/Util/VtxData.cpp:5-45 | a missing file or a short header exits with `EXIT_FAILURE`; on success the counts and sizes of the result match the returned header and the file holds all the bytes they describe |
| Meshes.LoadMeshBody | Core/Util/VtxData.cpp:25-44 | fewer than `meshCount` whole descriptors exits with `EXIT_FAILURE`; on success the header is returned unchanged and the data match its counts and sizes |
| Meshes.MagicNotChecked | Core/Util/VtxData.cpp:19-44 | the magic value does not influence loading: success, errors and data are the same for any magic value |
| Meshes.MagicNotCheckedFile | Core/Util/VtxData.cpp:19-44 | overwriting the first four bytes of a file changes only the magic value returned |
| Meshes.HeaderOf | Tools/MeshConversionTool/src/Main.cpp:216-222 | the written header carries the magic value 0x12345678 |
| Meshes.SaveMeshes | Tools/MeshConversionTool/src/Main.cpp:214-228 | the file is exactly as long as the header's counts and sizes say |
| Meshes.HeaderCounts | Tools/MeshConversionTool/src/Main.cpp:216-222 | when the sizes fit in 32 bits the header counts the descriptors, gives the index and vertex byte sizes, and `dataBlockStartOffset` is the end of the descriptors |
| Meshes.LoadSaveMeshes | Core/Util/VtxData.cpp:5-45 | `loadMeshData` on what `saveMeshesToFile` wrote returns the written header and the same descriptors, indices and vertices |
| Meshes.LoadSaveBody | Core/Util/VtxData.cpp:25-40 | the three reads after the header recover the descriptors, indices and vertices written |
| Meshes.ReadPayloadEncode | Core/Util/VtxData.cpp:35-36 | reading 4·n bytes of written words gives the words back |
| Meshes.LoadMeshBodyParts | Core/Util/VtxData.cpp:25-40 | loading the body is the three reads one after the other |
| MeshTool.FloatsPerVertex | Tools/MeshConversionTool/src/Main.cpp:253-254 | each vertex stores between 3 and 8 floats: 3, plus 2 with texture coordinates, plus 3 with normals |
| MeshTool.VertexFloats | Tools/MeshConversionTool/src/Main.cpp:118-133 | the floats of one vertex are its position, then `t.x` and `1 - t.y` when texture coordinates are exported, then its normal when normals are |
| MeshTool.Vertices | Tools/MeshConversionTool/src/Main.cpp:107-134 | the vertex loop stores `gNumElementsToStore` floats per vertex |
| MeshTool.VerticesBlock | Tools/MeshConversionTool/src/Main.cpp:107-134 | vertex i occupies exactly the i-th block of `gNumElementsToStore` floats |
| MeshTool.ConvertWith | Tools/MeshConversionTool/src/Main.cpp:99-172 | the descriptor has one LOD and one stream, its marker fits, the element size is 4 bytes per float; the vertices and rebased triangle indices are appended, the descriptor list is untouched, and both totals advance in 32-bit arithmetic |
| MeshTool.ConvertAssimpMeshAsWritten | Tools/MeshConversionTool/src/Main.cpp:151-169 | as written, the index total advances by three per face, skipped faces included |
| MeshTool.SkippedFaceDriftsOffset | Tools/MeshConversionTool/src/Main.cpp:141-163 | a mesh whose one face has two indices stores no index, yet the total and the LOD end offset advance by three indices, so the totals disagree with the data |
| MeshTool.ConvertAssimpMesh | Tools/MeshConversionTool/src/Main.cpp:137-169 | with the count of indices actually stored, the index total advances by three per kept face |
| MeshTool.ConvertKeepsTotals | Tools/MeshConversionTool/src/Main.cpp:137-170 | without overflow the corrected conversion keeps the totals equal to the data stored, its LOD offsets are the byte bounds of exactly the indices it appended, and its stream starts at the byte where its vertices do |
| MeshTool.IndexTotals | Tools/MeshConversionTool/src/Main.cpp:160-169 | without overflow the byte offsets of the LOD and the new index total are exact |
| MeshTool.VertexTotals | Tools/MeshConversionTool/src/Main.cpp:164-170 | without overflow the new vertex total and the stream's byte offset are exact |
| MeshTool.MulStep | Tools/MeshConversionTool/src/Main.cpp:107-134 | the block of vertex i ends within the floats of n vertices when i is below n |
| MeshTool.Appended | Tools/MeshConversionTool/src/Main.cpp:208 | `push_back` adds the descriptor at the end and leaves the index data, vertex data and totals alone |
| MeshTool.ConvertAll | Tools/MeshConversionTool/src/Main.cpp:206-209 | the loop as written keeps the descriptors already there and appends one well-shaped descriptor with one LOD per mesh |
| MeshTool.ConvertAllTotals | Tools/MeshConversionTool/src/Main.cpp:206-209 | over a scene whose vertex floats fit, the stored indices grow by the kept triangles' indices and the floats by the vertices', the vertex total keeps step with the floats, and the index total grows modulo 2^32 by three per face, skipped faces included |
| MeshTool.ConvertAllIndexTotals | Tools/MeshConversionTool/src/Main.cpp:206-209 | the index side: the stored indices grow by three per kept face and the index total by three per face, modulo 2^32 |
| MeshTool.ConvertAllVertexTotals | Tools/MeshConversionTool/src/Main.cpp:206-209 | the vertex side: the floats grow by `gNumElementsToStore` per vertex and the vertex total keeps step with them |
| MeshTool.VertexStep | Tools/MeshConversionTool/src/Main.cpp:168 | adding one mesh's vertex count keeps the vertex total in step with the floats stored and leaves room for the rest |
| MeshTool.IndexTotalStep | Tools/MeshConversionTool/src/Main.cpp:167 | adding one mesh's index count and then the rest's wraps modulo 2^32 like the whole sum |
| MeshTool.U32Add | Tools/MeshConversionTool/src/Main.cpp:167 | wrapping a `uint32_t` total before a further addition wraps the same as wrapping after it |
| MeshTool.ConvertAllCorrected | Tools/MeshConversionTool/src/Main.cpp:206-209 | the loop over the corrected conversion keeps the descriptors already there and appends one well-shaped descriptor with one LOD per mesh |
| MeshTool.ConvertAllAgrees | Tools/MeshConversionTool/src/Main.cpp:206-209 | when every face has three indices, the loop as written equals the corrected loop |
| MeshTool.ConvertAllCorrectedKeepsTotals | Tools/MeshConversionTool/src/Main.cpp:206-209 | over a whole scene whose sizes fit, the corrected totals stay equal to the data, which grow by the scene's triangle indices and vertex floats |
| MeshTool.LoadFile | Tools/MeshConversionTool/src/Main.cpp:175-212 | `loadFile` exits with 255 exactly when the scene did not import or has no meshes, and otherwise yields, from the loop as written, one well-shaped descriptor per mesh |
| MeshTool.LoadFileCorrected | Tools/MeshConversionTool/src/Main.cpp:175-212 | the same outcome over the corrected loop |
| MeshTool.LoadFileAgrees | Tools/MeshConversionTool/src/Main.cpp:175-212 | on a triangulated scene `loadFile` as written and over the corrected loop give the same result |
| MeshTool.Options | Tools/MeshConversionTool/src/Main.cpp:243-251 | texture coordinates are exported exactly when `-t` or `--export-texcoords` is given, and normals exactly when `-n` or `--export-normals` is |
| MeshTool.MeshToolMain | Tools/MeshConversionTool/src/Main.cpp:230-265 | fewer than three arguments exit with 255; otherwise the run fails, with 255, exactly when `loadFile` does |
| MeshTool.ConverterOutputLoads | Tools/MeshConversionTool/src/Main.cpp:256-263 | when the sizes fit, the file written loads back through `loadMeshData` as exactly the data the loop as written built, one single-LOD descriptor per mesh |
| Materials.DefaultMaterialFlags | Core/Util/Material.h:6-33 | the three flags are distinct single bits; a default material casts and receives shadows, is not transparent, and has `INVALID_TEXTURE` in all six maps |
| Materials.MaterialWords | Core/Util/Material.h:15-34 | the packed record is 28 words |
| Materials.DecodeMaterialWords | Core/Util/Material.h:15-34 | reading back the words of a record gives the record |
| Materials.EncodeMaterial | Core/Util/Material.h:36 | the record takes 112 bytes, a multiple of 16 |
| Materials.EncodeMaterials | Core/Util/Material.cpp:14 | n records take 112·n bytes |
| Materials.ReadMaterials | Core/Util/Material.cpp:33 | reading n records succeeds exactly when 112·n bytes are there, and then gives n records and the bytes after them |
| Materials.ReadMaterialsEncode | Core/Util/Material.cpp:33 | reading back written records gives them and the bytes that follow |
| Materials.ReadMaterialsCons | Core/Util/Material.cpp:33 | reading n records is reading one, then n − 1 |
| Materials.LoadRecords | Core/Util/Material.cpp:32-33 | after `resize(n)` and `fread` there are always n records; the read is defined exactly when the file holds n records or ends on a record boundary, and then the records past the end of the file are those `resize` left |
| Materials.SaveMaterials | Core/Util/Material.cpp:4-17 | nothing is written exactly when the file cannot be opened; otherwise the count and that many records come first |
| Materials.LoadMaterials | Core/Util/Material.cpp:19-36 | a file that cannot be opened exits with 255; fewer than four bytes leave the count unread |
| Materials.LoadMaterialsBody | Core/Util/Material.cpp:31-34 | on success there are exactly as many records as the count says |
| Materials.LoadMaterialsCount | Core/Util/Material.cpp:30-31 | the count read is the count written |
| Materials.SaveMaterialsBytes | Core/Util/Material.cpp:12-15 | a list whose size fits 32 bits is written in full: the count, every record, then the file list |
| Materials.LoadSaveMaterials | Core/Util/Material.cpp:19-36 | `loadMaterials` inverts `saveMaterials`, whatever the vector held before, for lists whose size fits 32 bits and file names the string list stores exactly |
| Materials.LoadMaterialsParts | Core/Util/Material.cpp:30-34 | the count, the records and then the file list are read one after the other |
| Materials.LoadSaveRecords | Core/Util/Material.cpp:32-33 | records written and read back are the same, with the reader left at the bytes that follow |
| Materials.LoadTruncatedMaterials | Core/Util/Material.cpp:30-34 | a file that ends after k of its n announced records yields those k, then the records `resize` left (those of the vector passed in, default ones past its end), and no texture files |
| Materials.LoadTruncatedRecords | Core/Util/Material.cpp:32-33 | a file that ends after k whole records keeps the k records read, leaves the vector's own entries from k on and sets end of file |
| Textures.ShrZero | Core/OpenGL/GLTexture.cpp:19 | a right shift by k gives 0 exactly when the value is below 2^k |
| Textures.OrPositive | Core/OpenGL/GLTexture.cpp:19 | the bitwise or of a positive value with anything is positive |
| Textures.OrBelow | Core/OpenGL/GLTexture.cpp:19 | `w or h` is below 2^k exactly when both are |
| Textures.LevelsFrom | Core/OpenGL/GLTexture.cpp:18-21 | the loop stops at the first level count whose shift gives 0, and by 31 at the latest |
| Textures.NumMipLevels | Core/OpenGL/GLTexture.cpp:16-22 | `getNumMipMapLevels2D` returns the least count L of at least 1 with `(w or h) >> L` equal to 0, at most 31 |
| Textures.MipLevelsLog | Core/OpenGL/GLTexture.cpp:16-22 | the level count is 1 for an empty image and otherwise 1 + floor(log2 of the larger side) |
| Textures.MipLevelsLeast | Core/OpenGL/GLTexture.cpp:16-22 | no smaller level count of at least 1 shifts the size to 0 |
| Textures.Pow2Exact | Core/OpenGL/GLTexture.cpp:16-22 | a power of two lies in exactly one interval from 2^(n−1) to 2^n |
| Textures.Checkerboard | Core/OpenGL/GLTexture.cpp:25-49 | an image exists exactly when the allocation succeeded; it is 128×128 RGB with every channel of pixel i at 0xFF on odd squares and 0 on even ones; non-null size pointers receive 128 on success and nothing on failure |
| Textures.RowCol | Core/OpenGL/GLTexture.cpp:40-41 | row and column are recovered from the pixel index |
| Textures.CheckerNeighbours | Core/OpenGL/GLTexture.cpp:38-43 | every pixel is black or white, and horizontally and vertically adjacent pixels differ |
| Textures.RenderTargetLevels | Core/OpenGL/GLTexture.cpp:51-59 | the render-target constructor allocates at least one level but leaves `GL_TEXTURE_MAX_LEVEL` at 0 |
| Textures.MipChain | Core/OpenGL/GLTexture.cpp:118-124 | the file and pixel constructors set `GL_TEXTURE_MAX_LEVEL` one below the number of levels allocated |
| Textures.Texture2DFromFile | Core/OpenGL/GLTexture.cpp:104-124 | a failed load whose fallback cannot be allocated exits with `EXIT_FAILURE`, and only that; a loaded image gets its own mip chain |
| Textures.FallbackLevels | Core/OpenGL/GLTexture.cpp:107-124 | the checkerboard fallback gets eight levels, the highest being 7 |
| Textures.IsEquirectangular | Core/OpenGL/GLTexture.cpp:141 | a bitmap with non-zero height is taken as equirectangular exactly when its width is twice its height |
| Textures.FaceOffsets | Core/OpenGL/GLTexture.cpp:166-172 | when the `int` stride w·h·comp·bytes-per-component does not overflow, the six faces are uploaded at offsets starting from 0 and advancing by that stride, which is below 2^31 |
| Textures.FacesInBuffer | Core/OpenGL/GLTexture.cpp:166-172 | in a six-layer bitmap from the 3-D constructor the `int` stride cannot overflow, every uploaded face lies inside the buffer and the six faces fill it exactly |
| Textures.SixFaces | Core/OpenGL/GLTexture.cpp:166-172 | a six-layer buffer holds six face sizes, and when its `int` size products fit, so do those of the face stride |
| Textures.NextFace | Core/OpenGL/GLTexture.cpp:168-172 | face i ends where face i+1 starts, no later than six faces, and within 2^31 when six faces are |
| Textures.CubeMapLevels | Core/OpenGL/GLTexture.cpp:155-161 | a cube map's mip chain is that of one face, with the highest level one below the count |
| Textures.Move | Core/OpenGL/GLTexture.cpp:201-209 | the move constructor takes all three fields and leaves the source zeroed |
| Textures.Destroy | Core/OpenGL/GLTexture.cpp:211-216 | the destructor makes the bindless handle non-resident exactly when it is non-zero, and deletes the texture name |
| Textures.MoveReleasesOnce | Core/OpenGL/GLTexture.cpp:201-216 | after a move, the emptied source releases nothing and the moved object releases what the original owned |
| Bitmaps.BytesPerComponent | Core/Util/Bitmap.cpp:89-94 | one byte per unsigned-byte component, four per float component |
| Bitmaps.NewBitmap | Core/Util/Bitmap.cpp:3-7 | when the `int` product w·h·comp·bytes-per-component and its partial products do not overflow, the 2-D constructor allocates a zeroed buffer of that many bytes, below 2^31, and the bitmap is fit for the pixel accessors |
| Bitmaps.NewBitmap3D | Core/Util/Bitmap.cpp:15-19 | when the `int` product w·h·d·comp·bytes-per-component and its partial products do not overflow, the 3-D constructor allocates a zeroed buffer of that many bytes, below 2^31; with a layer or more the bitmap is fit for the pixel accessors |
| Bitmaps.LayerFits | Core/Util/Bitmap.cpp:15-19 | when the `int` size products of several layers fit, so do those of one layer, and one layer takes no more bytes than the whole buffer |
| Bitmaps.BitmapFrom | Core/Util/Bitmap.cpp:9-13 | under the 2-D constructor's `int` bound, the constructor from a pointer keeps the given shape and copies exactly the buffer's size from the pointer |
| Bitmaps.PixelInBounds | Core/Util/Bitmap.cpp:49-69 | for a pixel inside the image, y·w + x is below w·h and every component index is below w·h·comp, so no intermediate value exceeds those two products |
| Bitmaps.PixelOffset | Core/Util/Bitmap.cpp:49 | a pixel inside the image starts at a non-negative component index whose components end within w·h·comp; in a well-sized bitmap every `int` of `mComp * (y * mWidth + x) + k` is below 2^31 |
| Bitmaps.GetPixelUnsignedByte | Core/Util/Bitmap.cpp:56-65 | component k is the converted byte at the pixel's offset plus k when k is below comp, and 0.0f otherwise |
| Bitmaps.GetPixelFloat | Core/Util/Bitmap.cpp:77-87 | with comp at least 1, x, y, z and w are the floats at the pixel's offset plus 0 to 3, as far as comp reaches; components from comp on are 0.0f |
| Bitmaps.FloatComponentsInData | Core/Util/Bitmap.cpp:79-86 | the floats a pixel inside the image reads lie within the buffer, at float indices below 2^31 |
| Bitmaps.GetPixel | Core/Util/Bitmap.cpp:26-29 | `getPixel` reads through the accessor of the bitmap's format: components from comp on are 0.0f, and x is the float or the converted byte at the pixel's offset |
| Bitmaps.WriteFloat | Core/Util/Bitmap.cpp:70-74 | storing one float keeps the buffer's length |
| Bitmaps.ReadWriteFloat | Core/Util/Bitmap.cpp:70-82 | a float stored at index i reads back at i, other indices read as before, and no byte outside the four written changes |
| Bitmaps.Written | Core/Util/Bitmap.cpp:71-74 | the setter writes the first comp components of the colour, at most four |
| Bitmaps.WriteFloats | Core/Util/Bitmap.cpp:71-74 | consecutive float writes keep the buffer's length |
| Bitmaps.WriteFloatsRead | Core/Util/Bitmap.cpp:71-74 | after consecutive writes every written index holds its value and every other index is unchanged |
| Bitmaps.WriteFloatsFrame | Core/Util/Bitmap.cpp:71-74 | consecutive writes change no byte outside the written indices |
| Bitmaps.SetPixelFloat | Core/Util/Bitmap.cpp:67-75 | `setPixelFloat` changes nothing but the buffer and keeps its length |
| Bitmaps.PixelWithinData | Core/Util/Bitmap.cpp:69-85 | the written components of a pixel lie within the buffer, whatever the component count, at float indices below 2^31 |
| Bitmaps.FloatGetAfterSet | Core/Util/Bitmap.cpp:67-87 | `getPixelFloat` after `setPixelFloat` returns the first comp components of the colour and 0.0f for the rest |
| Bitmaps.ComponentAfterWrite | Core/Util/Bitmap.cpp:71-85 | component k after the writes is the colour's component k when k is below comp, and 0.0f otherwise |
| Bitmaps.FloatSetFrame | Core/Util/Bitmap.cpp:67-75 | `setPixelFloat` changes only the bytes of the pixel's written components |
| Bitmaps.WriteBytes | Core/Util/Bitmap.cpp:50-53 | the byte writes put the converted component at each written index and leave every other byte |
| Bitmaps.SetPixelUnsignedByte | Core/Util/Bitmap.cpp:47-54 | `setPixelUnsignedByte` changes nothing but the buffer and keeps its length |
| Bitmaps.BytePixelWithinData | Core/Util/Bitmap.cpp:49-63 | the written components of a byte pixel lie within the buffer, at indices below 2^31 |
| Bitmaps.ByteGetAfterSet | Core/Util/Bitmap.cpp:47-65 | `getPixelUnsignedByte` after `setPixelUnsignedByte` returns each written component through the byte conversion and back, and 0.0f for the rest |
| Bitmaps.SetPixel | Core/Util/Bitmap.cpp:21-45 | `setPixel` dispatches on the format fixed at construction and keeps size, format and component count |
| Boxes.Clamp | Core/Util/UtilsMath.h:77-83 | below a the result is a, above b (and not below a) it is b, otherwise v; for a at most b it lies in the range |
| Boxes.BoxOfCorners | Core/Util/UtilsMath.h:25-27 | the two-corner constructor gives an ordered box holding both points and inside every box that holds them |
| Boxes.BoxOfPoints | Core/Util/UtilsMath.h:29-41 | the point-set constructor holds every point; for finite points each bound is attained by a point, so it is the least such box; with no points it stays at (max, lowest) |
| Boxes.AttainedStep | Core/Util/UtilsMath.h:34-38 | one step of the loop keeps every bound attained by a point seen |
| Boxes.Size | Core/Util/UtilsMath.h:43 | the extent along each axis, non-negative on every axis exactly when the box is ordered, and added to the minimum gives the maximum |
| Boxes.CombinePoint | Core/Util/UtilsMath.h:70-74 | the box grows to hold the point and keeps everything it held |
| Boxes.CombinePointLeast | Core/Util/UtilsMath.h:70-74 | any box holding an ordered box and the point holds the combined box |
| Boxes.Corners | Core/Util/UtilsMath.h:188-196 | a box has eight corners |
| Boxes.AllCorners | Core/Util/UtilsMath.h:186-197 | corner k of box i is the (8i+k)-th point collected |
| Boxes.CombineBoxes | Core/Util/UtilsMath.h:181-200 | `combineBoxes` holds every corner of every box, and with no boxes stays at (max, lowest) |
| Canvas.Line | Core/OpenGL/GLCanvas.cpp:3-7 | `line` keeps the list and appends the two end points, each with the given colour |
| Canvas.Flush | Core/OpenGL/GLCanvas.cpp:9-21 | `flush` leaves the list empty and draws the whole list, drawing nothing exactly when the list was empty |
| Canvas.FlushTwice | Core/OpenGL/GLCanvas.cpp:9-21 | a second `flush` draws nothing |
| Canvas.Band | Core/OpenGL/GLCanvas.cpp:67-75 | one band of dimmed lines keeps the list and adds numSegments lines, all in the band's colour |
| Canvas.RenderCameraFrustum | Core/OpenGL/GLCanvas.cpp:44-102 | the frustum adds 16 + 4·numSegments lines after the existing ones: first the sixteen edges between the corners in drawing order and in the full colour, then the four bands, every one of their lines in the colour dimmed by 0.7 |
| Shaders.ShaderTypeFromFileName | Core/OpenGL/GLShader.cpp:6-29 | the result is 0 or the enumerant of a stage whose suffix the name carries |
| Shaders.GLEnum | Core/OpenGL/GLShader.cpp:6-27 | every recognised stage maps to a non-zero enumerant |
| Shaders.FirstStage | Core/OpenGL/GLShader.cpp:8-27 | the suffix tests return the first listed stage whose suffix the name carries, and none when it carries none of them |
| Shaders.SuffixesDistinct | Core/OpenGL/GLShader.cpp:8-24 | the six suffixes all have five characters and differ pairwise |
| Shaders.AtMostOneSuffix | Core/OpenGL/GLShader.cpp:8-24 | a name ends in at most one of the six suffixes |
| Shaders.ShaderTypeIsSuffixStage | Core/OpenGL/GLShader.cpp:6-29 | a name carrying the suffix of a stage yields that stage's enumerant, whatever the order of the suffix tests |
| Shaders.ShaderTypeUnknown | Core/OpenGL/GLShader.cpp:26-28 | the result is 0 exactly when the name ends in none of the six suffixes |
| Shaders.EveryStageChecked | Core/OpenGL/GLShader.cpp:8-24 | every stage is among the suffix tests |
| Shaders.FirstStageUnique | Core/OpenGL/GLShader.cpp:8-24 | the first matching check is the one stage whose suffix the name carries |
| Shaders.GLEnumInjective | Core/OpenGL/GLShader.cpp:9-24 | distinct stages have distinct enumerants |
| SceneData.TextureHandle | Core/OpenGL/GLSceneData.cpp:4-9 | `INVALID_TEXTURE` gives handle 0; any other index gives the bindless handle of the texture at that index |
| SceneData.BindMaterial | Core/OpenGL/GLSceneData.cpp:31-38 | binding a material changes only its five sampled maps and leaves the opacity map as it was |
| SceneData.BindMaterialMaps | Core/OpenGL/GLSceneData.cpp:33-37 | each of the five maps becomes 0 where it held no texture and otherwise the bindless handle of the texture its own index names |
| SceneData.BindDefaultMaterial | Core/OpenGL/GLSceneData.cpp:31-38 | a default material gets five zero handles and keeps its opacity map |
| SceneData.BindMaterials | Core/OpenGL/GLSceneData.cpp:31-38 | the loop binds every material in place and keeps the list's length |
| SceneData.Shapes | Core/OpenGL/GLSceneData.cpp:46-60 | every draw command belongs to a visited node that has both a mesh and a material, and is that node's command |
| SceneData.ShapesCover | Core/OpenGL/GLSceneData.cpp:48-58 | a visited node with a material gets a draw command |
| SceneData.ShapesDistinct | Core/OpenGL/GLSceneData.cpp:46-60 | visiting each node once, no node gets two draw commands |
| SceneData.ShapesOnePerNode | Core/OpenGL/GLSceneData.cpp:46-60 | whatever the hash map's order, there is exactly one draw command for each node with both a mesh and a material and none for any other node |
| SceneData.ShapesStartAtMeshes | Core/OpenGL/GLSceneData.cpp:51-58 | every draw command uses LOD 0, names a loaded mesh and starts at that mesh's index and vertex offsets |
| SceneData.DistinctOnce | Core/OpenGL/GLSceneData.cpp:46 | a key list without repetition holds each key once |
| SceneData.DistinctSameElements | Core/OpenGL/GLSceneData.cpp:46 | two repetition-free orders of the same keys are permutations of each other |
| SceneData.ShapesOrderIndependent | Core/OpenGL/GLSceneData.cpp:46-60 | two iteration orders of the hash map give the same draw commands up to their order |
| SceneData.RefreshTransforms | Core/OpenGL/GLSceneData.cpp:62-64 | marking node 0 and recalculating leaves the graph and the local transforms alone, gives node 0 its local transform, and gives every node below it its parent's global transform times its local one |
| SceneData.ConvertedSceneLoads | Core/OpenGL/GLSceneData.cpp:41-64 | a graph built by the converter meets what `loadScene` needs: node 0 is a root, the levels are layered, no node is dirty, every node with a mesh has a material and names a converted mesh |

## Left out

- GPU objects and GL calls: GLBuffer, GLProgram, GLFramebuffer, GLMesh, GLMeshPVP, GLApp and GLImGui, and the driver calls inside GLTexture, GLCanvas and GLShader only manage GPU state. Texture names, bindless handles and loaded images enter the model as parameters.
- The sample applications: their frame loops, input callbacks and ImGui widgets are per-frame GL and window state.
- assimp: the imported scene is a datatype (`Assimp`). The import call and its post-processing flags are not modelled.
- meshoptimizer: `meshopt_simplify`, `meshopt_simplifySloppy` and `meshopt_optimizeVertexCache` are parameters. They promise only what their interfaces promise: no more indices out than in, and a reordering keeps the count.
- stb image loading, resizing and writing: the outcome of a load (a size, or a failure) is a parameter. The pixels of the opacity-map merge and of the resize are not modelled; `TextureNames` covers only the file name and the output size.
- rapidjson and `readConfigFile`: the converter's configuration is taken as already parsed.
- The heuristics of `convertAIMaterialToMaterialData`: they are float and string decisions about assimp material properties.
- The parallel `std::transform` in `convertAndDownscaleAllTextures`: the model has no concurrency.
- Floating-point arithmetic: floats are carried as 32-bit patterns. The few float operations on the modelled paths enter as parameters: `1.0f - t.y`, the scale multiply, and the byte conversions of the unsigned-byte pixel accessors. Bounding boxes and the canvas use reals instead. The source's float rounding is not modelled there, and neither is the overflow to infinity of `max - min` for the empty box; the three lines below name what holds over the reals only.
- Boxes.Size: `min + size == max` holds over the reals only. In floats `max - min` rounds, and for the box still at (max, lowest) it overflows to −infinity.
- Canvas.Band: its contract does not state the band's points. Over the reals they are `p1 + i·s1` and `p2 + i·s2`; the source accumulates `p1 += s1` in floats, rounding at each step.
- Canvas.RenderCameraFrustum: the dimmed colour is `color · 0.7` over the reals. The source multiplies by the float `0.7f`, which is not exactly 0.7, and rounds each product.
- The matrix product and `glm::inverse`: the product is the parameter `mul`, and the frustum corners and step vectors of `renderCameraFrustumGL` are inputs to `Canvas.RenderCameraFrustum`.
- Camera code, frustum planes and corners, the random helpers, and `BoundingBox::transform`, `getTransformed` and `getCenter` of the math utilities: these are float numerics.
- The equirectangular-to-cross and cross-to-faces conversions of the cube-map constructor: only the choice between them (`Textures.IsEquirectangular`) and the face offsets are modelled.
- The KTX branch of the 2-D texture constructor is `assert(false)` with its code commented out, so it is not modelled, and neither is the `default: assert(false)` of the type switch.
- File handles: files are byte sequences, and `None` stands for a file that cannot be opened. `fs::exists` and `findSubstitute` in `fixTextureFile` are not modelled.
- `printf` and `fprintf` output is not modelled.
- Core/Util/Utils.cpp is not part of this model: `endsWith` is taken as the suffix test its name describes, and `readShaderFile` and `addUnique` are not modelled.
- `saveMeshData`, which the scene converter calls, is not part of this model. The mesh file is modelled through the mesh converter's `saveMeshesToFile` and `loadMeshData`.
- The mesh converter's own `processLods` (Tools/MeshConversionTool/src/Main.cpp:27-97) has the same shape as the scene converter's and is modelled once, by `Lods`. Its vertex count of a third of the floats reaches only the simplifier, which is a parameter. The mesh converter never calls it.
- Lods.TooLittleReduction: the 10% test `static_cast<size_t>(numOptIndices * 1.1f)` is computed exactly, as `11n / 10` rounded down; float rounding of the product is not modelled.
- Undefined behaviour on the modelled paths is an error value `Malformed` when the input alone causes it:
  - a string length of 2^32 − 1, whose `sz + 1` wraps;
  - a string with no NUL inside its buffer;
  - a byte count that is not a multiple of 4 overrunning its vector;
  - the eighth LOD's end marker.
  Where the caller is responsible, undefined behaviour is a precondition instead:
  - an `addNode` parent past the end of the arrays;
  - levels outside the 16 dirty lists;
  - a map index out of range;
  - an `assert` of the source that nothing after it handles, such as the line capacity of `flush`;
  - a signed `int` product that overflows: the bitmap constructors' buffer size (`Bitmaps.SizeFits`), the pixel offset of the accessors (`Bitmaps.WellSized`) and the cube map's face stride;
  - a character of 0x80 or more, a negative `char`, handed to `tolower` (`Text.Ascii`).
  Where the code after an `assert` handles the asserted case itself, the release build's path is modelled instead:
  - `Shaders.ShaderTypeFromFileName` returns 0 for a name with no known suffix, past `assert(false)` (Core/OpenGL/GLShader.cpp:26-28);
  - `Textures.Checkerboard` models the failed `malloc` as no image, past `assert(imgData && ...)` (Core/OpenGL/GLTexture.cpp:32-35).
- SceneMarking.MarkAsChanged: it requires the layered level discipline, where every child is one level below its parent. That is stronger than the acyclic links and in-range levels the source needs to stay in bounds. The converter's graphs meet it (`Traverse.ConvertHierarchyWellFormed`).
- SceneData.RefreshTransforms: the propagation equation is stated for the nodes below node 0. That every node of a converted scene lies below node 0 is not proved.
- SceneFile.SaveScene: its own contract states only the file length. The content is stated by the round-trip lemma `SceneFile.LoadSaveScene`.
- SceneFile.SaveStringList: its own contract states only the file length. The content is stated by the round-trip lemma `SceneFile.LoadSaveStringList`.
- SceneFile.LoadStringList: its own contract states the end-of-file case and the number of lines. The lines are stated by `SceneFile.LoadSaveStringList`, `SceneFile.LoadStringListAtEnd` and `SceneFile.LoadStringListStaleLine`.
- SceneFile.LoadLine: a line whose bytes the file cuts off partway is `ShortRead`, because `fread` leaves a partial element indeterminate.
- SceneFile.LoadArrays: a file that ends inside a matrix or a record is `ShortRead`, because `fread` leaves a partial element indeterminate. The value-initialised `glm::mat4` is the parameter `blank`, since the library's configuration decides it.
- Meshes.SaveMeshes: its own contract states the file length. The content is stated by `Meshes.LoadSaveMeshes`.
- Materials.SaveMaterials: its own contract states the file length. The content is stated by `Materials.LoadSaveMaterials`.
- Materials.LoadMaterials: its own contract states the error cases only. Success is covered by `Materials.LoadSaveMaterials` and `Materials.LoadTruncatedMaterials`.
- The converters are modelled as written, with the defects listed under Findings: the scene converter's `toMat4` returns the word copy (`Traverse.ToMat4`), and that copy is what `Traverse.Placed`, the records and `Traverse.ConvertHierarchyRecords` carry; its loop over the meshes uses the as-written `convertAIMesh` (`SceneMeshes.ConvertAll`); the mesh converter's loop uses the as-written `ConvertAssimpMesh` (`MeshTool.ConvertAll`). The corrected versions are separate members: `Traverse.AssimpToGlm`, `SceneMeshes.ConvertAllCorrected`, `MeshTool.ConvertAllCorrected` and `MeshTool.LoadFileCorrected`.
- The casts `(float)from.a1` of `toMat4` are taken as the identity on the stored words: `ai_real` is `float` in the default assimp build.
- `size_t` values are unbounded integers. Wrap-around is written out only where a value is cast to, or stored in, a 32-bit field. C `int` arithmetic is bounded by the preconditions listed above wherever an overflow could occur.
- Text.Lowercase: nothing is stated for characters of 0x80 or more. The C standard leaves `tolower` of a negative `char` undefined, so `lowercaseString` on UTF-8 paths is outside the model.
- Bitmaps.NewBitmap: the sizes are non-negative. A negative width, height or component count gives a negative product, which becomes a huge `size_t` for the vector, and that allocation failure is not modelled.
- Bitmaps.NewBitmap3D: the sizes are non-negative, for the reason given for `Bitmaps.NewBitmap`.

## Findings

| source | as written | input that shows it | evidently intended | confidence | as-written member | corrected member |
|---|---|---|---|---|---|---|
| Core/Util/Scene.cpp:202 | the level loop of `recalculateGlobalTransforms` stops at the first empty dirty list | a three-node chain where only the leaf, at level 2, is marked: level 1 is empty, so the leaf keeps a stale global transform and stays queued | every marked level is processed | not executed | SceneGap.DeepMarkIsLost | ScenePropagation.RecalculateAllPropagates |
| Tools/SceneConversionTool/src/Main.cpp:587 | `verticesCountIn` is half the number of position floats | any mesh with two vertices or more (at least 4 floats): the count times 3 exceeds the floats the simplifier is given | a third of the floats, as the mesh converter computes it | not executed | SceneMeshes.HalfCountOverruns | SceneMeshes.PositionCountExact |
| Tools/SceneConversionTool/src/Main.cpp:713 | `processLods` allows 8 LODs (line 596), and the end marker goes to `lodOffset[8]` | a mesh of at least 21867 triangles that the simplifier halves each time: 8 LODs, and the write lands one past the 8-entry array | at most 7 LODs, so the marker fits | not executed | SceneMeshes.EightLodsOverflow | SceneMeshes.ConvertAIMeshLods |
| Tools/MeshConversionTool/src/Main.cpp:151-169 | `numIndices` is `3 * mNumFaces`, skipped faces included | one mesh whose single face has two indices: no index is stored, yet the index total and the LOD end offset advance by three | count only the indices stored | not executed | MeshTool.SkippedFaceDriftsOffset | MeshTool.ConvertAllCorrectedKeepsTotals |
| Tools/SceneConversionTool/src/Main.cpp:532-569 | `toMat4` copies the sixteen words in place (`mm[i][j] = from[i][j]`, line 539) and returns that copy; as glm indexes column first and assimp row first, the result is the transpose, and the assert at line 566 fails on every matrix that is not symmetric | a translation by t != 0 along x: the copy holds t in word 3, a projective entry for glm, and 0 in word 12, glm's translation | the matrix `to` the function builds for its assert, the same matrix in glm's storage | not executed | Traverse.TranslationTransposed | Traverse.AssimpToGlm |
