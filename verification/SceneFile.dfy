/** The binary scene file: node count, local and global transforms, hierarchy records, the
    material and mesh maps, and optionally the name map, the node names and the material
    names. A file is a byte sequence; `fread` is modelled by a `Reader` that remembers whether
    a read has come up short (the stream's end-of-file indicator). A read that comes up short
    fills whole elements while the file lasts and leaves the rest of the buffer as `resize`
    or the previous read left it. */
module SceneFile {
  import opened Wrappers
  import opened Bytes
  import opened Matrix
  import opened SceneGraph

  /** The unread part of an open file and its end-of-file indicator. */
  datatype Reader = Reader(rest: seq<byte>, eof: bool)

  /** `fread(&x, 4, 1, f)` into a zero-initialised `uint32_t`. At the very end of the file
      nothing is read, `x` keeps 0 and the indicator is set; a partial element (1 to 3 bytes)
      leaves `x` indeterminate. */
  function ReadCountWhole(r: Reader): (res: Result<(uint32, Reader)>)
    ensures res.Ok? <==> |r.rest| == 0 || |r.rest| >= 4
    ensures |r.rest| == 0 ==> res == Ok((0, Reader([], true)))
    ensures |r.rest| >= 4 ==> res == Ok((DecodeU32(r.rest[..4]), Reader(r.rest[4..], r.eof)))
  {
    if |r.rest| == 0 then Ok((0, Reader([], true)))
    else if |r.rest| < 4 then Err(ShortRead)
    else Ok((DecodeU32(r.rest[..4]), Reader(r.rest[4..], r.eof)))
  }

  lemma ReadCountWholeEncode(x: uint32, body: seq<byte>, eof: bool)
    ensures ReadCountWhole(Reader(EncodeU32(x) + body, eof)) == Ok((x, Reader(body, eof)))
  {
    ReadU32Encode(x, body);
  }

  /** `fread(&x, 1, 4, f)` into a zero-initialised `uint32_t`: four one-byte elements, so the
      bytes that are there fill the low end of `x` and the rest stay zero. */
  function ReadCountBytes(r: Reader): (res: (uint32, Reader))
    ensures |r.rest| >= 4 ==> res == (DecodeU32(r.rest[..4]), Reader(r.rest[4..], r.eof))
    ensures |r.rest| < 4 ==> res.1 == Reader([], true) && res.0 < Pow256(|r.rest|)
    ensures |r.rest| < 4 ==> EncodeU32(res.0) == r.rest + seq(4 - |r.rest|, _ => 0)
  {
    if |r.rest| >= 4 then (DecodeU32(r.rest[..4]), Reader(r.rest[4..], r.eof))
    else
      var padded := r.rest + seq(4 - |r.rest|, _ => 0);
      PaddedBound(r.rest, padded);
      EncodeDecodeU32(padded);
      (DecodeU32(padded), Reader([], true))
  }

  lemma ReadCountBytesEncode(x: uint32, body: seq<byte>, eof: bool)
    ensures ReadCountBytes(Reader(EncodeU32(x) + body, eof)) == (x, Reader(body, eof))
  {
    ReadU32Encode(x, body);
  }

  function Pow256(k: nat): nat { if k == 0 then 1 else 0x100 * Pow256(k - 1) }

  lemma PaddedBound(b: seq<byte>, padded: seq<byte>)
    requires |b| < 4 && padded == b + seq(4 - |b|, _ => 0)
    ensures DecodeU32(padded) < Pow256(|b|)
  {
    assert |padded| == 4;
    if |b| <= 0 { assert padded[0] == 0; }
    if |b| <= 1 { assert padded[1] == 0; }
    if |b| <= 2 { assert padded[2] == 0; }
    assert padded[3] == 0;
  }

  /** `fread(ms.data(), 4, n, f)` into a freshly zeroed vector of `n` words. A short read
      that ends on a word boundary leaves the missing words zero; one that ends inside a word
      leaves that word indeterminate. */
  function ReadWordsPadded(r: Reader, n: nat): (res: Result<(seq<uint32>, Reader)>)
    ensures res.Ok? <==> |r.rest| >= 4 * n || |r.rest| % 4 == 0
    ensures res.Ok? ==> |res.value.0| == n
    ensures |r.rest| >= 4 * n ==> res == Ok((ReadWords(r.rest, n).value.0, Reader(r.rest[4 * n..], r.eof)))
    ensures |r.rest| < 4 * n && res.Ok? ==>
              && res.value.1 == Reader([], true)
              && forall i :: |r.rest| / 4 <= i < n ==> res.value.0[i] == 0
  {
    if |r.rest| >= 4 * n then
      var (ws, rest) := ReadWords(r.rest, n).value;
      Ok((ws, Reader(rest, r.eof)))
    else if |r.rest| % 4 != 0 then Err(ShortRead)
    else
      var k := |r.rest| / 4;
      var ws := ReadWords(r.rest, k).value.0;
      Ok((ws + seq(n - k, _ => 0), Reader([], true)))
  }

  // ---------------------------------------------------------------------------------------
  // saveMap / loadMap

  /** `keys` lists the keys of `m` in the (unspecified) iteration order of the hash table. */
  predicate Enumerates(keys: seq<uint32>, m: map<uint32, uint32>) {
    && |keys| == |m|
    && (forall k :: k in m ==> k in keys)
    && (forall i :: 0 <= i < |keys| ==> keys[i] in m)
  }

  /** Alternating key, value words for the keys in the given order. */
  function Pairs(keys: seq<uint32>, m: map<uint32, uint32>): (ws: seq<uint32>)
    requires forall i :: 0 <= i < |keys| ==> keys[i] in m
    ensures |ws| == 2 * |keys|
    ensures forall i :: 0 <= i < |keys| ==> ws[2 * i] == keys[i] && ws[2 * i + 1] == m[keys[i]]
  {
    if keys == [] then [] else [keys[0], m[keys[0]]] + Pairs(keys[1..], m)
  }

  /** `saveMap`: the word count `2 * |m|`, then key and value of every entry. */
  function SaveMap(m: map<uint32, uint32>, keys: seq<uint32>): (out: seq<byte>)
    requires Enumerates(keys, m)
    ensures |out| == 4 + 8 * |m|
  {
    EncodeU32(U32(2 * |m|)) + EncodeWords(Pairs(keys, m))
  }

  /** `map[ws[2i]] = ws[2i+1]` for every complete pair, in order: a later key overrides an
      earlier one and an odd trailing word is ignored. */
  function InsertPairs(m: map<uint32, uint32>, ws: seq<uint32>): (r: map<uint32, uint32>)
    ensures m.Keys <= r.Keys
    decreases |ws|
  {
    if |ws| < 2 then m else InsertPairs(m[ws[0] := ws[1]], ws[2..])
  }

  /** `loadMap`: the word count, that many words, then the pairs merged into `m`, which is
      not cleared first. */
  function LoadMap(r: Reader, m: map<uint32, uint32>): (res: Result<(map<uint32, uint32>, Reader)>)
    ensures res.Ok? ==> m.Keys <= res.value.0.Keys
  {
    var (sz, r1) := ReadCountBytes(r);
    var (ws, r2) :- ReadWordsPadded(r1, sz);
    Ok((InsertPairs(m, ws), r2))
  }

  /** The entries of `m` whose keys occur in `ks`. */
  function Restrict(m: map<uint32, uint32>, ks: seq<uint32>): map<uint32, uint32> {
    map k | k in ks && k in m :: m[k]
  }

  lemma {:induction false} InsertPairsOfMap(t: map<uint32, uint32>, m: map<uint32, uint32>, ks: seq<uint32>)
    requires forall i :: 0 <= i < |ks| ==> ks[i] in m
    ensures InsertPairs(t, Pairs(ks, m)) == t + Restrict(m, ks)
    decreases |ks|
  {
    if ks == [] {
      assert Restrict(m, ks) == map[];
    } else {
      var ws := Pairs(ks, m);
      assert ws[2..] == Pairs(ks[1..], m);
      assert InsertPairs(t, ws) == InsertPairs(t[ks[0] := m[ks[0]]], ws[2..]);
      InsertPairsOfMap(t[ks[0] := m[ks[0]]], m, ks[1..]);
      RestrictCons(t, m, ks);
    }
  }

  lemma RestrictCons(t: map<uint32, uint32>, m: map<uint32, uint32>, ks: seq<uint32>)
    requires ks != [] && ks[0] in m
    ensures t[ks[0] := m[ks[0]]] + Restrict(m, ks[1..]) == t + Restrict(m, ks)
  {
    var a := t[ks[0] := m[ks[0]]] + Restrict(m, ks[1..]);
    var b := t + Restrict(m, ks);
    forall k | k in ks ensures k == ks[0] || k in ks[1..] {
      var i :| 0 <= i < |ks| && ks[i] == k;
      if i > 0 { assert ks[1..][i - 1] == k; }
    }
    assert forall k :: k in ks[1..] ==> k in ks;
    assert a.Keys == b.Keys;
    forall k | k in a ensures a[k] == b[k] {
    }
  }

  lemma RestrictAll(m: map<uint32, uint32>, keys: seq<uint32>)
    requires Enumerates(keys, m)
    ensures Restrict(m, keys) == m
  {
  }

  lemma SaveMapSplit(m: map<uint32, uint32>, keys: seq<uint32>, rest: seq<byte>)
    requires Enumerates(keys, m)
    ensures SaveMap(m, keys) + rest == EncodeU32(U32(2 * |m|)) + (EncodeWords(Pairs(keys, m)) + rest)
  {
  }

  /** Loading what `saveMap` wrote merges the saved map into the target, the saved entries
      winning; loaded into an empty map it gives back the saved map. */
  lemma LoadSaveMap(m: map<uint32, uint32>, keys: seq<uint32>, t: map<uint32, uint32>, rest: seq<byte>, eof: bool)
    requires Enumerates(keys, m) && 2 * |m| < TWO_32
    ensures LoadMap(Reader(SaveMap(m, keys) + rest, eof), t) == Ok((t + m, Reader(rest, eof)))
  {
    var ws := Pairs(keys, m);
    var body := EncodeWords(ws) + rest;
    var r := Reader(SaveMap(m, keys) + rest, eof);
    SaveMapSplit(m, keys, rest);
    U32Small(2 * |m|);
    assert r.rest == EncodeU32(2 * |m|) + body;
    ReadCountBytesEncode(2 * |m|, body, eof);
    assert ReadCountBytes(r) == (2 * |m|, Reader(body, eof));
    ReadWordsEncode(ws, rest);
    assert ReadWordsPadded(Reader(body, eof), 2 * |m|) == Ok((ws, Reader(rest, eof)));
    InsertPairsOfMap(t, m, keys);
    RestrictAll(m, keys);
    assert InsertPairs(t, ws) == t + m;
  }

  // ---------------------------------------------------------------------------------------
  // saveStringList / loadStringList

  const NUL: byte := 0

  /** A character as the single byte `std::string` stores for it. */
  function CharByte(c: char): byte { c as int % 0x100 }

  function StringBytes(s: string): (b: seq<byte>)
    ensures |b| == |s|
  {
    seq(|s|, i requires 0 <= i < |s| => CharByte(s[i]))
  }

  /** One line: its length as `uint32_t`, then `length + 1` bytes of the NUL-terminated
      buffer (the count wraps for a length of 2^32 - 1 or more). */
  function SaveLine(s: string): (out: seq<byte>)
    ensures |s| < 0xFFFF_FFFF ==> out == EncodeU32(|s|) + StringBytes(s) + [NUL]
  {
    var sz := U32(|s|);
    var cstr := StringBytes(s) + [NUL];
    U32Le(|s|);
    // `sz + 1` is computed in `uint32_t`
    var count := if sz == 0xFFFF_FFFF then 0 else sz + 1;
    EncodeU32(sz) + cstr[..count]
  }

  function SaveLines(lines: seq<string>): (out: seq<byte>)
    ensures |out| >= 4 * |lines|
  {
    if lines == [] then [] else SaveLine(lines[0]) + SaveLines(lines[1..])
  }

  /** `saveStringList`: the line count as `uint32_t`, then every line. */
  function SaveStringList(lines: seq<string>): (out: seq<byte>)
    ensures |out| >= 4 + 4 * |lines|
  {
    EncodeU32(U32(|lines|)) + SaveLines(lines)
  }

  /** Index of the first NUL in `b`, or `|b|` if there is none. */
  function FirstNul(b: seq<byte>): (i: nat)
    ensures i <= |b|
    ensures i < |b| ==> b[i] == NUL
    ensures forall j :: 0 <= j < i ==> b[j] != NUL
  {
    if b == [] then 0 else if b[0] == NUL then 0 else 1 + FirstNul(b[1..])
  }

  function BytesString(b: seq<byte>): (s: string)
    ensures |s| == |b|
  {
    seq(|b|, i requires 0 <= i < |b| => b[i] as char)
  }

  /** `v.resize(n)`: the first `n` elements of `v` are kept and new ones are `fill`, the
      value-initialised element. */
  function Resized<T>(v: seq<T>, n: nat, fill: T): (r: seq<T>)
    ensures |r| == n
    ensures forall i :: 0 <= i < n ==> r[i] == if i < |v| then v[i] else fill
  {
    if n <= |v| then v[..n] else v + seq(n - |v|, _ => fill)
  }

  /** `fread(b.data(), |b|, 1, f)`: the bytes of `b` as one element. At the very end of the
      file nothing is read and `b` stays as it is; a partial element leaves `b` indeterminate. */
  function ReadElement(r: Reader, b: seq<byte>): (res: Result<(seq<byte>, Reader)>)
    ensures res.Ok? <==> |r.rest| == 0 || |r.rest| >= |b|
    ensures res.Ok? ==> |res.value.0| == |b|
    ensures |r.rest| >= |b| ==> res == Ok((r.rest[..|b|], Reader(r.rest[|b|..], r.eof)))
    ensures 0 == |r.rest| < |b| ==> res == Ok((b, Reader([], true)))
  {
    if |r.rest| >= |b| then Ok((r.rest[..|b|], Reader(r.rest[|b|..], r.eof)))
    else if |r.rest| == 0 then Ok((b, Reader([], true)))
    else Err(ShortRead)
  }

  /** One iteration of `loadStringList`, given the buffer `inBytes` the previous one left:
      the length `sz` (0 at the very end of the file), `inBytes.resize(sz + 1)`, `sz + 1`
      bytes read as one element, then `std::string(inBytes.data())`, which stops at the first
      NUL. A length of 2^32 - 1 makes `sz + 1` wrap to 0, and a buffer without a NUL sends the
      string constructor past its end. The buffer is returned for the next iteration. */
  function LoadLine(r: Reader, inBytes: seq<byte>): (res: Result<(string, seq<byte>, Reader)>)
    ensures res.Ok? ==> |res.value.0| < |res.value.1| <= 0xFFFF_FFFF
    ensures res.Ok? ==> forall i :: 0 <= i < |res.value.0| ==> res.value.0[i] as int == res.value.1[i] != NUL
    ensures res.Ok? ==> res.value.1[|res.value.0|] == NUL
  {
    var (sz, r1) :- ReadCountWhole(r);
    if sz == 0xFFFF_FFFF then Err(Malformed)
    else
      var (buf, r2) :- ReadElement(r1, Resized(inBytes, sz + 1, NUL));
      var n := FirstNul(buf);
      if n == |buf| then Err(Malformed)
      else Ok((BytesString(buf[..n]), buf, r2))
  }

  /** The loop of `loadStringList` over `count` lines; the buffer carries over between lines. */
  function LoadLines(r: Reader, count: nat, inBytes: seq<byte>): (res: Result<(seq<string>, Reader)>)
    ensures res.Ok? ==> |res.value.0| == count
    decreases count
  {
    if count == 0 then Ok(([], r))
    else
      var (s, buf, r1) :- LoadLine(r, inBytes);
      var (ss, r2) :- LoadLines(r1, count - 1, buf);
      Ok(([s] + ss, r2))
  }

  /** `loadStringList`: the count (0 at the very end of the file), then that many lines read
      through one buffer that starts empty. */
  function LoadStringList(r: Reader): (res: Result<(seq<string>, Reader)>)
    ensures |r.rest| == 0 ==> res == Ok(([], Reader([], true)))
    ensures res.Ok? && |r.rest| >= 4 ==> |res.value.0| == DecodeU32(r.rest[..4])
  {
    var (count, r1) :- ReadCountWhole(r);
    LoadLines(r1, count, [])
  }

  /** Characters that survive the trip through one byte and are not the terminator. */
  predicate PlainText(s: string) {
    forall i :: 0 <= i < |s| ==> 0 < s[i] as int < 0x100
  }


  /** What a saved line reads back as: the characters before the first one stored as NUL. */
  function Truncated(s: string): (t: string)
    ensures |t| <= |s|
  {
    s[..FirstNul(StringBytes(s))]
  }

  /** Every line cut at its first NUL. */
  function TruncatedAll(lines: seq<string>): (r: seq<string>)
    ensures |r| == |lines|
  {
    if lines == [] then [] else [Truncated(lines[0])] + TruncatedAll(lines[1..])
  }

  lemma {:induction false} TruncatedAllPlain(lines: seq<string>)
    requires PlainLines(lines)
    ensures LinesFit(lines) && TruncatedAll(lines) == lines
  {
    if lines != [] {
      PlainTextUntruncated(lines[0]);
      assert PlainLines(lines[1..]) by {
        forall j | 0 <= j < |lines| - 1 ensures |lines[1..][j]| < 0xFFFF_FFFF && PlainText(lines[1..][j]) {
          assert lines[1..][j] == lines[j + 1];
        }
      }
      TruncatedAllPlain(lines[1..]);
      assert LinesFit(lines) by {
        forall j | 0 <= j < |lines| ensures LineFits(lines[j]) {
          if j > 0 { assert lines[j] == lines[1..][j - 1]; }
        }
      }
    }
  }

  /** Every character fits in the one byte the file stores for it. */
  predicate ByteChars(s: string) {
    forall i :: 0 <= i < |s| ==> s[i] as int < 0x100
  }

  /** Lines whose length fits the `uint32_t` length word and whose characters fit a byte. */
  predicate LinesFit(lines: seq<string>) {
    forall j :: 0 <= j < |lines| ==> LineFits(lines[j])
  }

  predicate LineFits(s: string) {
    |s| < 0xFFFF_FFFF && ByteChars(s)
  }

  lemma LinesFitTail(lines: seq<string>)
    requires lines != [] && LinesFit(lines)
    ensures LineFits(lines[0]) && LinesFit(lines[1..])
  {
    forall j | 0 <= j < |lines| - 1 ensures LineFits(lines[1..][j]) {
      assert lines[1..][j] == lines[j + 1];
    }
  }

  lemma ConcatAssoc<T>(a: seq<T>, b: seq<T>, c: seq<T>)
    ensures (a + b) + c == a + (b + c)
  {
  }

  lemma {:induction false} BytesStringOfBytes(s: string)
    requires ByteChars(s)
    ensures BytesString(StringBytes(s)) == s
  {
  }

  /** A written line reads back whatever buffer the previous line left, and leaves the
      NUL-terminated bytes behind. */
  lemma LoadSaveLine(s: string, rest: seq<byte>, eof: bool, inBytes: seq<byte>)
    requires |s| < 0xFFFF_FFFF && ByteChars(s)
    ensures LoadLine(Reader(SaveLine(s) + rest, eof), inBytes)
         == Ok((Truncated(s), StringBytes(s) + [NUL], Reader(rest, eof)))
  {
    var buf := StringBytes(s) + [NUL];
    SaveLineSplit(s, rest);
    FirstNulPrefix(StringBytes(s), [NUL]);
    LoadLineEncoded(|s|, buf, rest, eof, inBytes);
    TruncatedBytes(s);
  }

  lemma SaveLineSplit(s: string, rest: seq<byte>)
    requires |s| < 0xFFFF_FFFF
    ensures SaveLine(s) + rest == EncodeU32(|s|) + ((StringBytes(s) + [NUL]) + rest)
  {
  }

  /** A length word followed by that many bytes and one more, with a NUL among them. */
  lemma LoadLineEncoded(sz: uint32, buf: seq<byte>, rest: seq<byte>, eof: bool, inBytes: seq<byte>)
    requires sz < 0xFFFF_FFFF && |buf| == sz + 1 && FirstNul(buf) < |buf|
    ensures LoadLine(Reader(EncodeU32(sz) + (buf + rest), eof), inBytes)
         == Ok((BytesString(buf[..FirstNul(buf)]), buf, Reader(rest, eof)))
  {
    ReadCountWholeEncode(sz, buf + rest, eof);
    assert (buf + rest)[..sz + 1] == buf;
    assert (buf + rest)[sz + 1..] == rest;
    var resized := Resized(inBytes, sz + 1, NUL);
    assert ReadElement(Reader(buf + rest, eof), resized) == Ok((buf, Reader(rest, eof)));
    LoadLineParts(Reader(EncodeU32(sz) + (buf + rest), eof), inBytes, sz, Reader(buf + rest, eof),
                  buf, Reader(rest, eof));
  }

  /** `LoadLine` once the length and the bytes have been read. */
  lemma LoadLineParts(r: Reader, inBytes: seq<byte>, sz: uint32, r1: Reader, buf: seq<byte>, r2: Reader)
    requires ReadCountWhole(r) == Ok((sz, r1)) && sz < 0xFFFF_FFFF
    requires ReadElement(r1, Resized(inBytes, sz + 1, NUL)) == Ok((buf, r2))
    ensures FirstNul(buf) < |buf| ==> LoadLine(r, inBytes) == Ok((BytesString(buf[..FirstNul(buf)]), buf, r2))
    ensures FirstNul(buf) == |buf| ==> LoadLine(r, inBytes) == Err(Malformed)
  {
  }

  lemma TruncatedBytes(s: string)
    requires ByteChars(s)
    ensures var b := StringBytes(s) + [NUL];
            BytesString(b[..FirstNul(StringBytes(s))]) == Truncated(s)
  {
    var n := FirstNul(StringBytes(s));
    var b := StringBytes(s) + [NUL];
    assert b[..n] == StringBytes(s[..n]);
    BytesStringOfBytes(s[..n]);
  }

  lemma {:induction false} FirstNulPrefix(b: seq<byte>, c: seq<byte>)
    requires c != [] && c[0] == NUL
    ensures FirstNul(b + c) == FirstNul(b)
  {
    if b != [] {
      assert (b + c)[0] == b[0];
      if b[0] != NUL {
        assert (b + c)[1..] == b[1..] + c;
        FirstNulPrefix(b[1..], c);
      }
    } else {
      assert b + c == c;
    }
  }

  /** Written lines read back whatever the buffer holds when the loop starts. */
  lemma {:induction false} LoadSaveLines(lines: seq<string>, rest: seq<byte>, eof: bool, inBytes: seq<byte>)
    requires LinesFit(lines)
    ensures LoadLines(Reader(SaveLines(lines) + rest, eof), |lines|, inBytes)
         == Ok((TruncatedAll(lines), Reader(rest, eof)))
    decreases |lines|
  {
    if lines != [] {
      LinesFitTail(lines);
      LoadSaveLines(lines[1..], rest, eof, StringBytes(lines[0]) + [NUL]);
      LoadSaveLinesStep(lines, rest, eof, inBytes);
    } else {
      LoadSaveLinesNil(lines, rest, eof, inBytes);
    }
  }

  lemma LoadSaveLinesNil(lines: seq<string>, rest: seq<byte>, eof: bool, inBytes: seq<byte>)
    requires lines == []
    ensures LoadLines(Reader(SaveLines(lines) + rest, eof), |lines|, inBytes)
         == Ok((TruncatedAll(lines), Reader(rest, eof)))
  {
    assert SaveLines(lines) == [] && TruncatedAll(lines) == [];
    assert SaveLines(lines) + rest == rest;
    assert LoadLines(Reader(rest, eof), 0, inBytes) == Ok(([], Reader(rest, eof)));
  }

  lemma LoadSaveLinesStep(lines: seq<string>, rest: seq<byte>, eof: bool, inBytes: seq<byte>)
    requires lines != [] && LineFits(lines[0])
    requires LoadLines(Reader(SaveLines(lines[1..]) + rest, eof), |lines[1..]|, StringBytes(lines[0]) + [NUL])
          == Ok((TruncatedAll(lines[1..]), Reader(rest, eof)))
    ensures LoadLines(Reader(SaveLines(lines) + rest, eof), |lines|, inBytes)
         == Ok((TruncatedAll(lines), Reader(rest, eof)))
  {
    var s, more := lines[0], lines[1..];
    var tail := SaveLines(more) + rest;
    ConcatAssoc(SaveLine(s), SaveLines(more), rest);
    LoadSaveLine(s, tail, eof, inBytes);
    var r0 := Reader(SaveLines(lines) + rest, eof);
    LoadLinesCons(r0, |lines|, inBytes, Truncated(s), StringBytes(s) + [NUL], Reader(tail, eof),
                  TruncatedAll(more), Reader(rest, eof));
  }

  lemma LoadLinesCons(r0: Reader, n: nat, inBytes: seq<byte>, s: string, buf: seq<byte>, r1: Reader,
                      ss: seq<string>, r2: Reader)
    requires n > 0 && LoadLine(r0, inBytes) == Ok((s, buf, r1)) && LoadLines(r1, n - 1, buf) == Ok((ss, r2))
    ensures LoadLines(r0, n, inBytes) == Ok(([s] + ss, r2))
  {
  }

  /** Lines past the end of the file: each reads a length of 0 and no byte, so a buffer
      that starts empty or with a NUL gives empty strings. */
  lemma {:induction false} LoadLinesAtEnd(n: nat, eof: bool, inBytes: seq<byte>)
    requires inBytes == [] || inBytes[0] == NUL
    ensures LoadLines(Reader([], eof), n, inBytes) == Ok((seq(n, _ => ""), Reader([], n > 0 || eof)))
    decreases n
  {
    if n > 0 {
      var b := Resized(inBytes, 1, NUL);
      assert b == [NUL];
      assert ReadElement(Reader([], true), b) == Ok((b, Reader([], true)));
      LoadLineParts(Reader([], eof), inBytes, 0, Reader([], true), b, Reader([], true));
      assert BytesString(b[..0]) == "";
      LoadLinesAtEnd(n - 1, true, [NUL]);
      LoadLinesCons(Reader([], eof), n, inBytes, "", b, Reader([], true), seq(n - 1, _ => ""), Reader([], true));
      assert [""] + seq(n - 1, _ => "") == seq(n, _ => "");
    } else {
      assert seq(n, _ => "") == [];
    }
  }

  /** A count followed by the end of the file gives that many empty lines. */
  lemma LoadStringListAtEnd(n: uint32, eof: bool)
    ensures LoadStringList(Reader(EncodeU32(n), eof)) == Ok((seq(n, _ => ""), Reader([], n > 0 || eof)))
  {
    assert EncodeU32(n) == EncodeU32(n) + [];
    ReadCountWholeEncode(n, [], eof);
    LoadLinesAtEnd(n, eof, []);
  }

  /** A line cut off by the end of the file after a non-empty one sees the first byte the
      previous line left in the shrunk buffer, which holds no terminator. */
  lemma LoadStringListStaleLine(c: char, eof: bool)
    requires 0 < c as int < 0x100
    ensures LoadStringList(Reader(EncodeU32(2) + SaveLine([c]), eof)) == Err(Malformed)
  {
    var line := SaveLine([c]);
    var buf := [CharByte(c), NUL];
    assert line == EncodeU32(1) + (buf + []);
    ReadCountWholeEncode(2, line, eof);
    LoadLineEncoded(1, buf, [], eof, []);
    StaleLineOverruns(c, eof);
    LoadLinesLaterErr(Reader(line, eof), 2, [], BytesString(buf[..FirstNul(buf)]), buf, Reader([], eof));
  }

  /** At the end of the file a line read into the buffer `[c, NUL]` shrinks it to `[c]`,
      which holds no NUL. */
  lemma StaleLineOverruns(c: char, eof: bool)
    requires 0 < c as int < 0x100
    ensures LoadLines(Reader([], eof), 1, [CharByte(c), NUL]) == Err(Malformed)
  {
    var buf := [CharByte(c), NUL];
    var b := Resized(buf, 1, NUL);
    assert b == [CharByte(c)];
    assert ReadElement(Reader([], true), b) == Ok((b, Reader([], true)));
    LoadLineParts(Reader([], eof), buf, 0, Reader([], true), b, Reader([], true));
  }

  /** A loop whose first line reads and whose rest fails fails the same way. */
  lemma LoadLinesLaterErr(r0: Reader, n: nat, inBytes: seq<byte>, s: string, buf: seq<byte>, r1: Reader)
    requires n > 0 && LoadLine(r0, inBytes) == Ok((s, buf, r1)) && LoadLines(r1, n - 1, buf).Err?
    ensures LoadLines(r0, n, inBytes) == Err(LoadLines(r1, n - 1, buf).error)
  {
  }

  /** The string-list round trip: every line comes back cut at its first NUL. */
  lemma LoadSaveStringList(lines: seq<string>, rest: seq<byte>, eof: bool)
    requires |lines| < TWO_32 && LinesFit(lines)
    ensures LoadStringList(Reader(SaveStringList(lines) + rest, eof)) == Ok((TruncatedAll(lines), Reader(rest, eof)))
  {
    var body := SaveLines(lines) + rest;
    var r := Reader(SaveStringList(lines) + rest, eof);
    SaveStringListSplit(lines, rest);
    U32Small(|lines|);
    assert r.rest == EncodeU32(|lines|) + body;
    ReadCountWholeEncode(|lines|, body, eof);
    assert ReadCountWhole(r) == Ok((|lines|, Reader(body, eof)));
    LoadSaveLines(lines, rest, eof, []);
    assert LoadLines(Reader(body, eof), |lines|, []) == Ok((TruncatedAll(lines), Reader(rest, eof)));
  }

  lemma SaveStringListSplit(lines: seq<string>, rest: seq<byte>)
    ensures SaveStringList(lines) + rest == EncodeU32(U32(|lines|)) + (SaveLines(lines) + rest)
  {
  }

  /** Lines of plain text come back exactly. */
  lemma LoadSavePlainStringList(lines: seq<string>, rest: seq<byte>, eof: bool)
    requires |lines| < TWO_32 && PlainLines(lines)
    ensures LoadStringList(Reader(SaveStringList(lines) + rest, eof)) == Ok((lines, Reader(rest, eof)))
  {
    TruncatedAllPlain(lines);
    LoadSaveStringList(lines, rest, eof);
  }

  /** Lines that the string list stores and reads back unchanged. */
  predicate PlainLines(lines: seq<string>) {
    forall j :: 0 <= j < |lines| ==> |lines[j]| < 0xFFFF_FFFF && PlainText(lines[j])
  }

  lemma PlainTextUntruncated(s: string)
    requires PlainText(s)
    ensures ByteChars(s) && Truncated(s) == s
  {
    var b := StringBytes(s);
    assert forall i :: 0 <= i < |s| ==> b[i] == CharByte(s[i]);
    assert FirstNul(b) == |s|;
  }

  /** A character stored as NUL ends the line on load. */
  lemma EmbeddedNulTruncates(s: string, i: nat)
    requires i < |s| && CharByte(s[i]) == NUL
    ensures |Truncated(s)| <= i
  {
    assert StringBytes(s)[i] == NUL;
  }

  // ---------------------------------------------------------------------------------------
  // Hierarchy records

  /** The 20 bytes of one `Hierarchy` struct: five `int` fields in declaration order. */
  function HierarchyWords(x: Hierarchy): (ws: seq<uint32>)
    ensures |ws| == 5
  {
    [Int32Bits(x.parent), Int32Bits(x.firstChild), Int32Bits(x.nextSibling),
     Int32Bits(x.lastSibling), Int32Bits(x.level)]
  }

  function EncodeHierarchies(hs: seq<Hierarchy>): (out: seq<byte>)
    ensures |out| == 20 * |hs|
  {
    if hs == [] then [] else EncodeWords(HierarchyWords(hs[0])) + EncodeHierarchies(hs[1..])
  }

  function ReadHierarchies(input: seq<byte>, n: nat): (r: Result<(seq<Hierarchy>, seq<byte>)>)
    ensures r.Ok? <==> |input| >= 20 * n
    ensures r.Ok? ==> |r.value.0| == n && r.value.1 == input[20 * n..]
  {
    if n == 0 then Ok(([], input))
    else
      match ReadWords(input, 5)
      case Err(e) => Err(e)
      case Ok((ws, rest)) =>
        var x := Hierarchy(BitsInt32(ws[0]), BitsInt32(ws[1]), BitsInt32(ws[2]), BitsInt32(ws[3]), BitsInt32(ws[4]));
        match ReadHierarchies(rest, n - 1)
        case Err(e) => Err(e)
        case Ok((xs, rest')) => Ok(([x] + xs, rest'))
  }

  lemma {:induction false} ReadHierarchiesEncode(hs: seq<Hierarchy>, rest: seq<byte>)
    ensures ReadHierarchies(EncodeHierarchies(hs) + rest, |hs|) == Ok((hs, rest))
  {
    if hs != [] {
      var tail := EncodeHierarchies(hs[1..]) + rest;
      var input := EncodeHierarchies(hs) + rest;
      var ws := HierarchyWords(hs[0]);
      assert input == EncodeWords(ws) + tail;
      ReadWordsEncode(ws, tail);
      ReadHierarchiesEncode(hs[1..], rest);
      var x := hs[0];
      BitsInt32RoundTrip(x.parent);
      BitsInt32RoundTrip(x.firstChild);
      BitsInt32RoundTrip(x.nextSibling);
      BitsInt32RoundTrip(x.lastSibling);
      BitsInt32RoundTrip(x.level);
      assert Hierarchy(BitsInt32(ws[0]), BitsInt32(ws[1]), BitsInt32(ws[2]), BitsInt32(ws[3]), BitsInt32(ws[4])) == x;
      assert [x] + hs[1..] == hs;
    }
  }

  // ---------------------------------------------------------------------------------------
  // saveScene / loadScene

  /** Iteration orders of the three hash tables of a scene. */
  datatype MapOrders = MapOrders(material: seq<uint32>, mesh: seq<uint32>, name: seq<uint32>)

  predicate OrdersOf(o: MapOrders, sc: Scene) {
    && Enumerates(o.material, sc.nodeIDToMaterialID)
    && Enumerates(o.mesh, sc.nodeIDToMeshID)
    && Enumerates(o.name, sc.nodeIDToNameID)
  }

  /** The node count `saveScene` writes: the hierarchy size converted to `uint32_t`. */
  function NodeCount(sc: Scene): (n: uint32)
    ensures n <= |sc.hierarchy|
  {
    U32(|sc.hierarchy|)
  }

  /** The name map and both string lists are written only when there are names and
      name entries. */
  predicate HasNameTail(sc: Scene) {
    sc.names != [] && sc.nodeIDToNameID != map[]
  }

  function SaveArrays(sc: Scene): (out: seq<byte>)
    requires ParallelArrays(sc)
  {
    var n := NodeCount(sc);
    EncodeU32(n) + EncodeMats(sc.localTransform[..n]) + EncodeMats(sc.globalTransform[..n])
      + EncodeHierarchies(sc.hierarchy[..n])
  }

  function SaveMaps(sc: Scene, o: MapOrders): (out: seq<byte>)
    requires OrdersOf(o, sc)
  {
    SaveMap(sc.nodeIDToMaterialID, o.material) + SaveMap(sc.nodeIDToMeshID, o.mesh)
  }

  function SaveTail(sc: Scene, o: MapOrders): (out: seq<byte>)
    requires OrdersOf(o, sc)
    ensures out == [] <==> !HasNameTail(sc)
  {
    if HasNameTail(sc) then
      SaveMap(sc.nodeIDToNameID, o.name) + SaveStringList(sc.names) + SaveStringList(sc.materialNames)
    else []
  }

  /** `saveScene`. The dirty lists are not saved. */
  function SaveScene(sc: Scene, o: MapOrders): (out: seq<byte>)
    requires ParallelArrays(sc) && OrdersOf(o, sc)
    ensures |out| >= 4 + 84 * NodeCount(sc) + 8
  {
    SaveArrays(sc) + SaveMaps(sc, o) + SaveTail(sc, o)
  }

  /** A value-initialised `Hierarchy`: the struct has no member initialisers, so every
      field is 0. */
  const ZERO_HIERARCHY: Hierarchy := Hierarchy(0, 0, 0, 0, 0)

  /** `fread(v.data(), sizeof(glm::mat4), |v|, f)` into the resized vector `v`: whole
      matrices are read while the file lasts and the others keep what `v` holds. A file that
      ends inside a matrix leaves that matrix indeterminate. */
  function ReadMatsInto(r: Reader, v: seq<Mat4>): (res: Result<(seq<Mat4>, Reader)>)
    ensures res.Ok? <==> |r.rest| >= 64 * |v| || |r.rest| % 64 == 0
    ensures res.Ok? ==> |res.value.0| == |v|
    ensures |r.rest| >= 64 * |v| ==> res == Ok((ReadMats(r.rest, |v|).value.0, Reader(r.rest[64 * |v|..], r.eof)))
    ensures |r.rest| < 64 * |v| && res.Ok? ==>
              && res.value.1 == Reader([], true)
              && res.value.0[..|r.rest| / 64] == ReadMats(r.rest, |r.rest| / 64).value.0
              && res.value.0[|r.rest| / 64..] == v[|r.rest| / 64..]
  {
    if |r.rest| >= 64 * |v| then
      var (ms, rest) := ReadMats(r.rest, |v|).value;
      Ok((ms, Reader(rest, r.eof)))
    else if |r.rest| % 64 != 0 then Err(ShortRead)
    else
      var k := |r.rest| / 64;
      var ms := ReadMats(r.rest, k).value.0;
      assert (ms + v[k..])[..k] == ms;
      Ok((ms + v[k..], Reader([], true)))
  }

  /** `fread(v.data(), sizeof(Hierarchy), |v|, f)` into the resized vector `v`, as for the
      matrices, with 20-byte records. */
  function ReadHierarchiesInto(r: Reader, v: seq<Hierarchy>): (res: Result<(seq<Hierarchy>, Reader)>)
    ensures res.Ok? <==> |r.rest| >= 20 * |v| || |r.rest| % 20 == 0
    ensures res.Ok? ==> |res.value.0| == |v|
    ensures |r.rest| >= 20 * |v| ==> res == Ok((ReadHierarchies(r.rest, |v|).value.0, Reader(r.rest[20 * |v|..], r.eof)))
    ensures |r.rest| < 20 * |v| && res.Ok? ==>
              && res.value.1 == Reader([], true)
              && res.value.0[..|r.rest| / 20] == ReadHierarchies(r.rest, |r.rest| / 20).value.0
              && res.value.0[|r.rest| / 20..] == v[|r.rest| / 20..]
  {
    if |r.rest| >= 20 * |v| then
      var (hs, rest) := ReadHierarchies(r.rest, |v|).value;
      Ok((hs, Reader(rest, r.eof)))
    else if |r.rest| % 20 != 0 then Err(ShortRead)
    else
      var k := |r.rest| / 20;
      var hs := ReadHierarchies(r.rest, k).value.0;
      assert (hs + v[k..])[..k] == hs;
      Ok((hs + v[k..], Reader([], true)))
  }

  /** The node count, `resize` of the three arrays of `t` to it, then the three reads.
      `blank` is the value-initialised `glm::mat4`, which depends on how the library is
      configured (all zero, or the identity). */
  function LoadArrays(r: Reader, t: Scene, blank: Mat4)
    : (res: Result<(seq<Mat4>, seq<Mat4>, seq<Hierarchy>, Reader)>)
    ensures res.Ok? ==> |res.value.0| == |res.value.1| == |res.value.2|
    ensures res.Ok? && |r.rest| >= 4 ==> |res.value.0| == DecodeU32(r.rest[..4])
    ensures |r.rest| == 0 ==> res == Ok(([], [], [], Reader([], true)))
  {
    var (n, r1) :- ReadCountWhole(r);
    var (locals, r2) :- ReadMatsInto(r1, Resized(t.localTransform, n, blank));
    var (globals, r3) :- ReadMatsInto(r2, Resized(t.globalTransform, n, blank));
    var (hs, r4) :- ReadHierarchiesInto(r3, Resized(t.hierarchy, n, ZERO_HIERARCHY));
    Ok((locals, globals, hs, r4))
  }

  /** The name map (merged into `names`), the node names and the material names. */
  function LoadTail(r: Reader, nameMap: map<uint32, uint32>)
    : (res: Result<(map<uint32, uint32>, seq<string>, seq<string>, Reader)>)
    ensures res.Ok? ==> nameMap.Keys <= res.value.0.Keys
  {
    var (nm, r1) :- LoadMap(r, nameMap);
    var (names, r2) :- LoadStringList(r1);
    var (materialNames, r3) :- LoadStringList(r2);
    Ok((nm, names, materialNames, r3))
  }

  /** `loadScene` into the existing scene `t`. A file that cannot be opened (`None`) leaves
      `t` as it is. */
  function LoadScene(file: Option<seq<byte>>, t: Scene, blank: Mat4): (res: Result<Scene>)
    ensures file.None? ==> res == Ok(t)
    ensures file.Some? ==> res == LoadSceneFrom(Reader(file.value, false), t, blank)
  {
    match file
    case None => Ok(t)
    case Some(bytes) => LoadSceneFrom(Reader(bytes, false), t, blank)
  }

  /** The body of `loadScene` for an opened file: the arrays are replaced, the maps are
      merged into `t`'s, and the tail is read only if the end-of-file indicator is still
      clear; the dirty lists are never touched. */
  function LoadSceneFrom(r: Reader, t: Scene, blank: Mat4): (res: Result<Scene>)
    ensures res.Ok? ==> ParallelArrays(res.value) && res.value.changedAtThisFrame == t.changedAtThisFrame
    ensures res.Ok? ==> t.nodeIDToMaterialID.Keys <= res.value.nodeIDToMaterialID.Keys
    ensures res.Ok? ==> t.nodeIDToMeshID.Keys <= res.value.nodeIDToMeshID.Keys
    ensures res.Ok? ==> t.nodeIDToNameID.Keys <= res.value.nodeIDToNameID.Keys
  {
    var (locals, globals, hs, r1) :- LoadArrays(r, t, blank);
    var (mat, r2) :- LoadMap(r1, t.nodeIDToMaterialID);
    var (mesh, r3) :- LoadMap(r2, t.nodeIDToMeshID);
    var t' := t.(localTransform := locals, globalTransform := globals, hierarchy := hs,
                 nodeIDToMaterialID := mat, nodeIDToMeshID := mesh);
    if r3.eof then Ok(t')
    else
      var (nm, names, materialNames, _) :- LoadTail(r3, t.nodeIDToNameID);
      Ok(t'.(nodeIDToNameID := nm, names := names, materialNames := materialNames))
  }

  // Round trip

  lemma LoadSaveArrays(sc: Scene, rest: seq<byte>, t: Scene, blank: Mat4)
    requires ParallelArrays(sc)
    ensures var n := NodeCount(sc);
            LoadArrays(Reader(SaveArrays(sc) + rest, false), t, blank)
            == Ok((sc.localTransform[..n], sc.globalTransform[..n], sc.hierarchy[..n], Reader(rest, false)))
  {
    var n := NodeCount(sc);
    var l, g, h := sc.localTransform[..n], sc.globalTransform[..n], sc.hierarchy[..n];
    var t3 := EncodeHierarchies(h) + rest;
    var t2 := EncodeMats(g) + t3;
    var t1 := EncodeMats(l) + t2;
    assert SaveArrays(sc) + rest == EncodeU32(n) + t1;
    ReadCountWholeEncode(n, t1, false);
    ReadMatsIntoEncode(l, t2, Resized(t.localTransform, n, blank), false);
    ReadMatsIntoEncode(g, t3, Resized(t.globalTransform, n, blank), false);
    ReadHierarchiesIntoEncode(h, rest, Resized(t.hierarchy, n, ZERO_HIERARCHY), false);
    LoadArraysParts(Reader(SaveArrays(sc) + rest, false), t, blank, n, Reader(t1, false), l, Reader(t2, false),
                    g, Reader(t3, false), h, Reader(rest, false));
  }

  lemma LoadSaveMaps(sc: Scene, o: MapOrders, t: Scene, rest: seq<byte>)
    requires OrdersOf(o, sc)
    requires 2 * |sc.nodeIDToMaterialID| < TWO_32 && 2 * |sc.nodeIDToMeshID| < TWO_32
    ensures var r2 := LoadMap(Reader(SaveMaps(sc, o) + rest, false), t.nodeIDToMaterialID);
            && r2 == Ok((t.nodeIDToMaterialID + sc.nodeIDToMaterialID, Reader(SaveMap(sc.nodeIDToMeshID, o.mesh) + rest, false)))
            && LoadMap(r2.value.1, t.nodeIDToMeshID) == Ok((t.nodeIDToMeshID + sc.nodeIDToMeshID, Reader(rest, false)))
  {
    var tail := SaveMap(sc.nodeIDToMeshID, o.mesh) + rest;
    assert SaveMaps(sc, o) + rest == SaveMap(sc.nodeIDToMaterialID, o.material) + tail;
    LoadSaveMap(sc.nodeIDToMaterialID, o.material, t.nodeIDToMaterialID, tail, false);
    LoadSaveMap(sc.nodeIDToMeshID, o.mesh, t.nodeIDToMeshID, rest, false);
  }

  /** Preconditions for the tail to survive the trip: map counts and line lengths that fit in
      `uint32_t`, and plain-text lines. */
  predicate TailFits(sc: Scene) {
    && 2 * |sc.nodeIDToNameID| < TWO_32
    && |sc.names| < TWO_32 && |sc.materialNames| < TWO_32
    && PlainLines(sc.names) && PlainLines(sc.materialNames)
  }

  lemma LoadSaveTail(sc: Scene, o: MapOrders, nameMap: map<uint32, uint32>)
    requires OrdersOf(o, sc) && TailFits(sc)
    ensures HasNameTail(sc) ==>
              LoadTail(Reader(SaveTail(sc, o), false), nameMap)
              == Ok((nameMap + sc.nodeIDToNameID, sc.names, sc.materialNames, Reader([], false)))
    ensures !HasNameTail(sc) ==>
              LoadTail(Reader(SaveTail(sc, o), false), nameMap) == Ok((nameMap, [], [], Reader([], true)))
  {
    if HasNameTail(sc) {
      LoadSaveTailPresent(sc.nodeIDToNameID, o.name, sc.names, sc.materialNames, nameMap);
    } else {
      LoadTailAtEnd(nameMap);
    }
  }

  /** A written tail reads back whole. */
  lemma LoadSaveTailPresent(m: map<uint32, uint32>, keys: seq<uint32>, names: seq<string>,
                            materialNames: seq<string>, nameMap: map<uint32, uint32>)
    requires Enumerates(keys, m) && 2 * |m| < TWO_32
    requires |names| < TWO_32 && |materialNames| < TWO_32 && PlainLines(names) && PlainLines(materialNames)
    ensures LoadTail(Reader(SaveMap(m, keys) + SaveStringList(names) + SaveStringList(materialNames), false), nameMap)
            == Ok((nameMap + m, names, materialNames, Reader([], false)))
  {
    var t2 := SaveStringList(materialNames);
    var t1 := SaveStringList(names) + t2;
    ConcatAssoc(SaveMap(m, keys), SaveStringList(names), t2);
    LoadSaveMap(m, keys, nameMap, t1, false);
    LoadSavePlainStringList(names, t2, false);
    assert t2 == t2 + [];
    LoadSavePlainStringList(materialNames, [], false);
    LoadTailParts(Reader(SaveMap(m, keys) + t1, false), nameMap, nameMap + m, Reader(t1, false),
                  names, Reader(t2, false), materialNames, Reader([], false));
  }

  /** At the end of the file the tail reads as an empty map and two empty lists. */
  lemma LoadTailAtEnd(nameMap: map<uint32, uint32>)
    ensures LoadTail(Reader([], false), nameMap) == Ok((nameMap, [], [], Reader([], true)))
  {
    LoadMapAtEnd(nameMap, false);
  }

  lemma LoadTailParts(r: Reader, nameMap: map<uint32, uint32>, nm: map<uint32, uint32>, r1: Reader,
                      names: seq<string>, r2: Reader, materialNames: seq<string>, r3: Reader)
    requires LoadMap(r, nameMap) == Ok((nm, r1))
    requires LoadStringList(r1) == Ok((names, r2)) && LoadStringList(r2) == Ok((materialNames, r3))
    ensures LoadTail(r, nameMap) == Ok((nm, names, materialNames, r3))
  {
  }

  /** What loading a saved scene into `t` gives: `t` with the first `NodeCount` transforms
      and records, the saved maps merged into `t`'s, and either the saved tail or, when none
      was written, `t`'s name map with both string lists emptied (material names are lost). */
  function Reloaded(sc: Scene, t: Scene): (r: Scene)
    requires ParallelArrays(sc)
  {
    var n := NodeCount(sc);
    t.(localTransform := sc.localTransform[..n], globalTransform := sc.globalTransform[..n],
       hierarchy := sc.hierarchy[..n],
       nodeIDToMaterialID := t.nodeIDToMaterialID + sc.nodeIDToMaterialID,
       nodeIDToMeshID := t.nodeIDToMeshID + sc.nodeIDToMeshID,
       nodeIDToNameID := if HasNameTail(sc) then t.nodeIDToNameID + sc.nodeIDToNameID else t.nodeIDToNameID,
       names := if HasNameTail(sc) then sc.names else [],
       materialNames := if HasNameTail(sc) then sc.materialNames else [])
  }

  /** The scene-file round trip. */
  lemma LoadSaveScene(sc: Scene, o: MapOrders, t: Scene, blank: Mat4)
    requires ParallelArrays(sc) && OrdersOf(o, sc)
    requires 2 * |sc.nodeIDToMaterialID| < TWO_32 && 2 * |sc.nodeIDToMeshID| < TWO_32 && TailFits(sc)
    ensures LoadScene(Some(SaveScene(sc, o)), t, blank) == Ok(Reloaded(sc, t))
  {
    var tail := SaveTail(sc, o);
    var maps := SaveMaps(sc, o) + tail;
    var n := NodeCount(sc);
    ConcatAssoc(SaveArrays(sc), SaveMaps(sc, o), tail);
    LoadSaveArrays(sc, maps, t, blank);
    var r1 := Reader(maps, false);
    LoadSaveMaps(sc, o, t, tail);
    var mat := t.nodeIDToMaterialID + sc.nodeIDToMaterialID;
    var mesh := t.nodeIDToMeshID + sc.nodeIDToMeshID;
    var r2 := Reader(SaveMap(sc.nodeIDToMeshID, o.mesh) + tail, false);
    var r3 := Reader(tail, false);
    var t' := t.(localTransform := sc.localTransform[..n], globalTransform := sc.globalTransform[..n],
                 hierarchy := sc.hierarchy[..n], nodeIDToMaterialID := mat, nodeIDToMeshID := mesh);
    LoadSceneFromPrefix(Reader(SaveScene(sc, o), false), t, blank, sc.localTransform[..n], sc.globalTransform[..n],
                        sc.hierarchy[..n], r1, mat, r2, mesh, r3);
    LoadSaveTail(sc, o, t.nodeIDToNameID);
    if HasNameTail(sc) {
      assert LoadSceneFrom(Reader(SaveScene(sc, o), false), t, blank)
          == Ok(t'.(nodeIDToNameID := t.nodeIDToNameID + sc.nodeIDToNameID, names := sc.names,
                    materialNames := sc.materialNames));
    } else {
      assert SaveScene(sc, o) == SaveArrays(sc) + SaveMaps(sc, o);
      assert LoadSceneFrom(Reader(SaveScene(sc, o), false), t, blank) == Ok(t'.(names := [], materialNames := []));
    }
  }

  /** A map read at the end of the file: a count of 0 and nothing merged. */
  lemma LoadMapAtEnd(m: map<uint32, uint32>, eof: bool)
    ensures LoadMap(Reader([], eof), m) == Ok((m, Reader([], true)))
  {
    assert ReadCountBytes(Reader([], eof)).0 < Pow256(0);
  }

  /** A file that ends right after both transform arrays: the records keep what `resize`
      left (those of `t`, zero records past its end), both maps stay `t`'s, and the tail is
      not read because the end-of-file indicator is set. */
  lemma LoadSceneWithoutRecords(l: seq<Mat4>, g: seq<Mat4>, t: Scene, blank: Mat4)
    requires 0 < |l| == |g| < TWO_32
    ensures LoadScene(Some(EncodeU32(|l|) + EncodeMats(l) + EncodeMats(g)), t, blank)
         == Ok(t.(localTransform := l, globalTransform := g, hierarchy := Resized(t.hierarchy, |l|, ZERO_HIERARCHY)))
  {
    var hs := Resized(t.hierarchy, |l|, ZERO_HIERARCHY);
    var r := Reader(EncodeU32(|l|) + EncodeMats(l) + EncodeMats(g), false);
    LoadArraysWithoutRecords(l, g, t, blank);
    LoadMapAtEnd(t.nodeIDToMaterialID, true);
    LoadMapAtEnd(t.nodeIDToMeshID, true);
    LoadSceneFromPrefix(r, t, blank, l, g, hs, Reader([], true), t.nodeIDToMaterialID, Reader([], true),
                        t.nodeIDToMeshID, Reader([], true));
  }

  /** The arrays of a file that ends right after both transform arrays. */
  lemma LoadArraysWithoutRecords(l: seq<Mat4>, g: seq<Mat4>, t: Scene, blank: Mat4)
    requires 0 < |l| == |g| < TWO_32
    ensures LoadArrays(Reader(EncodeU32(|l|) + EncodeMats(l) + EncodeMats(g), false), t, blank)
         == Ok((l, g, Resized(t.hierarchy, |l|, ZERO_HIERARCHY), Reader([], true)))
  {
    var n := |l|;
    var body := EncodeMats(l) + EncodeMats(g);
    ConcatAssoc(EncodeU32(n), EncodeMats(l), EncodeMats(g));
    ReadCountWholeEncode(n, body, false);
    ReadMatsIntoEncode(l, EncodeMats(g), Resized(t.localTransform, n, blank), false);
    assert EncodeMats(g) == EncodeMats(g) + [];
    ReadMatsIntoEncode(g, [], Resized(t.globalTransform, n, blank), false);
    var hs := Resized(t.hierarchy, n, ZERO_HIERARCHY);
    ReadHierarchiesIntoAtEnd(hs, false);
    LoadArraysParts(Reader(EncodeU32(n) + body, false), t, blank, n, Reader(body, false), l,
                    Reader(EncodeMats(g), false), g, Reader([], false), hs, Reader([], true));
  }

  /** Written records read back into a vector of their number, whatever it held. */
  lemma ReadHierarchiesIntoEncode(hs: seq<Hierarchy>, rest: seq<byte>, v: seq<Hierarchy>, eof: bool)
    requires |v| == |hs|
    ensures ReadHierarchiesInto(Reader(EncodeHierarchies(hs) + rest, eof), v) == Ok((hs, Reader(rest, eof)))
  {
    ReadHierarchiesEncode(hs, rest);
  }

  /** At the end of the file no record is read: the vector keeps what it holds. */
  lemma ReadHierarchiesIntoAtEnd(v: seq<Hierarchy>, eof: bool)
    requires v != []
    ensures ReadHierarchiesInto(Reader([], eof), v) == Ok((v, Reader([], true)))
  {
    assert ReadHierarchies([], 0) == Ok(([], []));
    assert [] + v[0..] == v;
  }

  /** Written matrices read back into a vector of their number, whatever it held. */
  lemma ReadMatsIntoEncode(ms: seq<Mat4>, rest: seq<byte>, v: seq<Mat4>, eof: bool)
    requires |v| == |ms|
    ensures ReadMatsInto(Reader(EncodeMats(ms) + rest, eof), v) == Ok((ms, Reader(rest, eof)))
  {
    ReadMatsEncode(ms, rest);
  }

  /** `LoadArrays` once the count and the three arrays have been read. */
  lemma LoadArraysParts(r: Reader, t: Scene, blank: Mat4, n: uint32, r1: Reader, locals: seq<Mat4>, r2: Reader,
                        globals: seq<Mat4>, r3: Reader, hs: seq<Hierarchy>, r4: Reader)
    requires ReadCountWhole(r) == Ok((n, r1))
    requires ReadMatsInto(r1, Resized(t.localTransform, n, blank)) == Ok((locals, r2))
    requires ReadMatsInto(r2, Resized(t.globalTransform, n, blank)) == Ok((globals, r3))
    requires ReadHierarchiesInto(r3, Resized(t.hierarchy, n, ZERO_HIERARCHY)) == Ok((hs, r4))
    ensures LoadArrays(r, t, blank) == Ok((locals, globals, hs, r4))
  {
  }

  /** An empty file empties the three arrays of `t` and leaves the rest. */
  lemma LoadSceneEmptyFile(t: Scene, blank: Mat4)
    ensures LoadScene(Some([]), t, blank) == Ok(t.(localTransform := [], globalTransform := [], hierarchy := []))
  {
    LoadMapAtEnd(t.nodeIDToMaterialID, true);
    LoadMapAtEnd(t.nodeIDToMeshID, true);
    LoadSceneFromPrefix(Reader([], false), t, blank, [], [], [], Reader([], true), t.nodeIDToMaterialID,
                        Reader([], true), t.nodeIDToMeshID, Reader([], true));
  }

  /** `LoadSceneFrom` once its arrays and both maps have been read. */
  lemma LoadSceneFromPrefix(r: Reader, t: Scene, blank: Mat4, locals: seq<Mat4>, globals: seq<Mat4>, hs: seq<Hierarchy>,
                            r1: Reader, mat: map<uint32, uint32>, r2: Reader, mesh: map<uint32, uint32>, r3: Reader)
    requires LoadArrays(r, t, blank) == Ok((locals, globals, hs, r1))
    requires LoadMap(r1, t.nodeIDToMaterialID) == Ok((mat, r2)) && LoadMap(r2, t.nodeIDToMeshID) == Ok((mesh, r3))
    ensures var t' := t.(localTransform := locals, globalTransform := globals, hierarchy := hs,
                         nodeIDToMaterialID := mat, nodeIDToMeshID := mesh);
            && (r3.eof ==> LoadSceneFrom(r, t, blank) == Ok(t'))
            && (!r3.eof ==> LoadSceneFrom(r, t, blank) == match LoadTail(r3, t.nodeIDToNameID)
                 case Err(e) => Err(e)
                 case Ok((nm, names, materialNames, _)) =>
                   Ok(t'.(nodeIDToNameID := nm, names := names, materialNames := materialNames)))
  {
  }

  /** A scene whose arrays fit a `uint32_t` count, loaded into an empty scene, comes back
      whole when it has a name tail. */
  lemma LoadSaveSceneExact(sc: Scene, o: MapOrders, blank: Mat4)
    requires ParallelArrays(sc) && OrdersOf(o, sc) && |sc.hierarchy| < TWO_32
    requires 2 * |sc.nodeIDToMaterialID| < TWO_32 && 2 * |sc.nodeIDToMeshID| < TWO_32 && TailFits(sc)
    requires HasNameTail(sc)
    ensures LoadScene(Some(SaveScene(sc, o)), EmptyScene(), blank) == Ok(sc.(changedAtThisFrame := NoDirtyNodes()))
  {
    LoadSaveScene(sc, o, EmptyScene(), blank);
    ReloadedEmpty(sc);
  }

  lemma ReloadedEmpty(sc: Scene)
    requires ParallelArrays(sc) && |sc.hierarchy| < TWO_32 && HasNameTail(sc)
    ensures Reloaded(sc, EmptyScene()) == sc.(changedAtThisFrame := NoDirtyNodes())
  {
    var n := NodeCount(sc);
    assert sc.localTransform[..n] == sc.localTransform;
    assert sc.globalTransform[..n] == sc.globalTransform;
    assert sc.hierarchy[..n] == sc.hierarchy;
    assert map[] + sc.nodeIDToMaterialID == sc.nodeIDToMaterialID;
    assert map[] + sc.nodeIDToMeshID == sc.nodeIDToMeshID;
    assert map[] + sc.nodeIDToNameID == sc.nodeIDToNameID;
  }

  /** Without names or without name entries the material names do not survive a save. */
  lemma MaterialNamesLostWithoutNames(sc: Scene, o: MapOrders, t: Scene, blank: Mat4)
    requires ParallelArrays(sc) && OrdersOf(o, sc)
    requires 2 * |sc.nodeIDToMaterialID| < TWO_32 && 2 * |sc.nodeIDToMeshID| < TWO_32 && TailFits(sc)
    requires sc.materialNames != [] && !HasNameTail(sc)
    ensures LoadScene(Some(SaveScene(sc, o)), t, blank).Ok?
    ensures LoadScene(Some(SaveScene(sc, o)), t, blank).value.materialNames != sc.materialNames
  {
    LoadSaveScene(sc, o, t, blank);
  }
}
