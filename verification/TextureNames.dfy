/** The name and size of a texture converted by the scene converter's `convertTexture`. */
module TextureNames {
  import opened Wrappers
  import opened Text

  const TEXTURE_DIR: string := "data/out_textures/"
  const RESCALED_SUFFIX: string := "__rescaled"
  const PNG_EXTENSION: string := ".png"
  const MAX_NEW_WIDTH: int := 512
  const MAX_NEW_HEIGHT: int := 512

  /** The source path with `/` separators, as `convertTexture` loads it. */
  function SourceTexturePath(basePath: string, file: string): (r: string)
    ensures '\\' !in r
    ensures Ascii(basePath + file) ==> Ascii(r)
  {
    assert Disjoint("\\", "/");
    var r := ReplaceAll(basePath + file, "\\", "/");
    NoOccurrenceOfChar(r, '\\');
    if Ascii(basePath + file) then ReplaceAllAscii(basePath + file, "\\", "/"); r else r
  }

  /** No path separator of either kind and no upper-case letter, ending in "__rescaled". */
  predicate FlatRescaledStem(stem: string) {
    && (forall i :: 0 <= i < |stem| ==> !IsSeparator(stem[i]) && !IsUpper(stem[i]))
    && |stem| >= |RESCALED_SUFFIX| && stem[|stem| - |RESCALED_SUFFIX|..] == RESCALED_SUFFIX
  }

  /** Directly in `data/out_textures/`, ending in `__rescaled.png`, and with no path
      separator and no upper-case letter between the directory and the extension. */
  predicate FlatOutputName(r: string) {
    && |r| >= |TEXTURE_DIR| + |RESCALED_SUFFIX| + |PNG_EXTENSION|
    && r[..|TEXTURE_DIR|] == TEXTURE_DIR
    && r[|r| - |RESCALED_SUFFIX| - |PNG_EXTENSION|..] == RESCALED_SUFFIX + PNG_EXTENSION
    && forall i :: |TEXTURE_DIR| <= i < |r| - |PNG_EXTENSION| ==> !IsSeparator(r[i]) && !IsUpper(r[i])
  }

  /** The part of the new file name between the directory and the extension: every `..`
      and `/` of the path becomes `__`, "__rescaled" is appended and the whole is lowercased. */
  function TextureStem(basePath: string, file: string): (stem: string)
    requires Ascii(basePath + file)
    ensures FlatRescaledStem(stem)
  {
    FlatStem(SourceTexturePath(basePath, file))
  }

  /** `TextureStem` from the path with `/` separators. */
  function FlatStem(src: string): (stem: string)
    requires '\\' !in src && Ascii(src)
    ensures FlatRescaledStem(stem)
  {
    assert Disjoint("..", "__") && Disjoint("/", "__");
    var flat := ReplaceAll(ReplaceAll(src, "..", "__"), "/", "__");
    FlattenedPath(src);
    ReplaceAllAscii(src, "..", "__");
    ReplaceAllAscii(ReplaceAll(src, "..", "__"), "/", "__");
    SuffixLowercase();
    SuffixHasNoSeparator();
    LowercaseSuffix(flat, RESCALED_SUFFIX);
    Lowercase(flat + RESCALED_SUFFIX)
  }

  /** The name `convertTexture` returns and writes the rescaled image to. */
  function TextureFileName(basePath: string, file: string): (r: string)
    requires Ascii(basePath + file)
    ensures FlatOutputName(r)
  {
    InOutputDir(TextureStem(basePath, file))
  }

  /** The stem placed in the output directory with the extension: the shape of the name
      follows from the shape of the stem. */
  function InOutputDir(stem: string): (r: string)
    requires FlatRescaledStem(stem)
    ensures FlatOutputName(r)
  {
    var r := TEXTURE_DIR + stem + PNG_EXTENSION;
    assert r[..|TEXTURE_DIR|] == TEXTURE_DIR;
    assert r[|r| - |RESCALED_SUFFIX| - |PNG_EXTENSION|..] == stem[|stem| - |RESCALED_SUFFIX|..] + PNG_EXTENSION;
    assert forall i :: |TEXTURE_DIR| <= i < |r| - |PNG_EXTENSION| ==> r[i] == stem[i - |TEXTURE_DIR|];
    r
  }

  /** A path that is already flat, lower-case and free of dots is kept as it is: the name is
      the directory, the path itself, and `__rescaled.png`. */
  lemma PlainTextureFileName(basePath: string, file: string)
    requires Ascii(basePath + file)
    requires forall i :: 0 <= i < |basePath + file| ==>
               !IsSeparator((basePath + file)[i]) && (basePath + file)[i] != '.' && !IsUpper((basePath + file)[i])
    ensures TextureFileName(basePath, file) == TEXTURE_DIR + basePath + file + RESCALED_SUFFIX + PNG_EXTENSION
  {
    var src := basePath + file;
    assert Disjoint("\\", "/");
    ReplaceAllUnchanged(src, "\\", "/");
    assert SourceTexturePath(basePath, file) == src;
    PlainFlatStem(src);
    assert TEXTURE_DIR + basePath + file + RESCALED_SUFFIX + PNG_EXTENSION == TEXTURE_DIR + (src + RESCALED_SUFFIX) + PNG_EXTENSION;
  }

  /** The stem of a flat, lower-case, dot-free path is the path and the suffix. */
  lemma PlainFlatStem(src: string)
    requires Ascii(src)
    requires forall i :: 0 <= i < |src| ==> !IsSeparator(src[i]) && src[i] != '.' && !IsUpper(src[i])
    ensures '\\' !in src
    ensures FlatStem(src) == src + RESCALED_SUFFIX
  {
    assert Disjoint("..", "__") && Disjoint("/", "__");
    ReplaceAllUnchanged(src, "..", "__");
    ReplaceAllUnchanged(src, "/", "__");
    LowercaseUnchanged(src + RESCALED_SUFFIX);
  }

  /** The two later replacements leave no separator in a path without backslashes. */
  lemma FlattenedPath(src: string)
    requires '\\' !in src
    ensures Disjoint("..", "__") && Disjoint("/", "__")
    ensures var flat := ReplaceAll(ReplaceAll(src, "..", "__"), "/", "__");
            '/' !in flat && '\\' !in flat
  {
    assert Disjoint("..", "__") && Disjoint("/", "__");
    var dotted := ReplaceAll(src, "..", "__");
    ReplaceAllAbsent(src, "..", "__", '\\');
    var flat := ReplaceAll(dotted, "/", "__");
    ReplaceAllAbsent(dotted, "/", "__", '\\');
    NoOccurrenceOfChar(flat, '/');
  }

  lemma LowercaseSuffix(flat: string, suffix: string)
    requires '/' !in flat && '\\' !in flat && Ascii(flat) && Ascii(suffix)
    requires Lowercase(suffix) == suffix && '/' !in suffix && '\\' !in suffix
    ensures var stem := Lowercase(flat + suffix);
            && (forall i :: 0 <= i < |stem| ==> !IsSeparator(stem[i]) && !IsUpper(stem[i]))
            && |stem| >= |suffix|
            && stem[|stem| - |suffix|..] == suffix
  {
    LowercaseHasNoUpper(flat + suffix);
    LowercaseAppend(flat, suffix);
    var stem := Lowercase(flat) + suffix;
    assert stem[|stem| - |suffix|..] == suffix;
    LowercaseKeepsNonLetter(flat, '/');
    LowercaseKeepsNonLetter(flat, '\\');
  }

  lemma SuffixLowercase()
    ensures Lowercase(RESCALED_SUFFIX) == RESCALED_SUFFIX
  {
    LowercaseUnchanged(RESCALED_SUFFIX);
  }

  lemma SuffixHasNoSeparator()
    ensures '/' !in RESCALED_SUFFIX && '\\' !in RESCALED_SUFFIX
  {
  }

  lemma LowercaseUnchanged(s: string)
    requires Ascii(s)
    requires forall i :: 0 <= i < |s| ==> !IsUpper(s[i])
    ensures Lowercase(s) == s
  {
  }

  /** The size the texture is rescaled to: the loaded size, or 512x512 when loading failed,
      capped at 512 in each direction. */
  function RescaledSize(loaded: Option<(int, int)>): (r: (int, int))
    ensures r.0 <= MAX_NEW_WIDTH && r.1 <= MAX_NEW_HEIGHT
    ensures loaded.None? ==> r == (MAX_NEW_WIDTH, MAX_NEW_HEIGHT)
    ensures loaded.Some? ==> r.0 == (if loaded.value.0 < MAX_NEW_WIDTH then loaded.value.0 else MAX_NEW_WIDTH)
    ensures loaded.Some? ==> r.1 == (if loaded.value.1 < MAX_NEW_HEIGHT then loaded.value.1 else MAX_NEW_HEIGHT)
  {
    var (w, h) := if loaded.Some? then loaded.value else (MAX_NEW_WIDTH, MAX_NEW_HEIGHT);
    (Min(w, MAX_NEW_WIDTH), Min(h, MAX_NEW_HEIGHT))
  }

  function Min(a: int, b: int): int { if a < b then a else b }
}
