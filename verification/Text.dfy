/** The string helpers of the scene converter: `lowercaseString`, `replaceAll`, the name of
    a converted texture and the base path of the input file. */
module Text {
  import opened Wrappers

  // ---------------------------------------------------------------------------------------
  // lowercaseString

  /** C `tolower` in the "C" locale: only 'A'..'Z' change. */
  function ToLowerChar(c: char): char {
    if 'A' <= c <= 'Z' then (c as int + 32) as char else c
  }

  predicate IsUpper(c: char) { 'A' <= c <= 'Z' }

  /** Seven-bit characters only. A character of 0x80 or more is a negative `char`, and
      handing a negative value other than `EOF` to `tolower` is undefined behaviour. */
  predicate Ascii(s: string) {
    forall i :: 0 <= i < |s| ==> s[i] as int < 0x80
  }

  predicate IsLower(c: char) { 'a' <= c <= 'z' }

  /** `lowercaseString`: a string of the same length, character by character `tolower`. */
  function Lowercase(s: string): (r: string)
    requires Ascii(s)
    ensures Ascii(r)
    ensures |r| == |s|
    ensures forall i :: 0 <= i < |s| ==> r[i] == ToLowerChar(s[i])
  {
    if s == [] then [] else [ToLowerChar(s[0])] + Lowercase(s[1..])
  }

  lemma LowercaseHasNoUpper(s: string)
    requires Ascii(s)
    ensures forall i :: 0 <= i < |s| ==> !IsUpper(Lowercase(s)[i])
  {
  }

  lemma LowercaseIdempotent(s: string)
    requires Ascii(s)
    ensures Lowercase(Lowercase(s)) == Lowercase(s)
  {
  }

  lemma LowercaseAppend(a: string, b: string)
    requires Ascii(a) && Ascii(b)
    ensures Lowercase(a + b) == Lowercase(a) + Lowercase(b)
  {
    var l, r := Lowercase(a + b), Lowercase(a) + Lowercase(b);
    assert |l| == |r|;
    forall i | 0 <= i < |l|
      ensures l[i] == r[i]
    {
      if i < |a| { assert (a + b)[i] == a[i]; } else { assert (a + b)[i] == b[i - |a|]; }
    }
  }

  /** A character that is no letter is found in the lowercased string exactly where it was. */
  lemma LowercaseKeepsNonLetter(s: string, c: char)
    requires Ascii(s)
    requires !IsUpper(c) && !IsLower(c)
    ensures forall i :: 0 <= i < |s| ==> (Lowercase(s)[i] == c <==> s[i] == c)
  {
  }

  // ---------------------------------------------------------------------------------------
  // Finding a substring

  predicate OccursAt(s: string, pat: string, p: nat) {
    p + |pat| <= |s| && s[p..p + |pat|] == pat
  }

  /** `std::string::find` starting at `i`. */
  function FindFrom(s: string, pat: string, i: nat): (r: Option<nat>)
    ensures r.Some? ==> i <= r.value && OccursAt(s, pat, r.value)
    ensures r.Some? ==> forall q: nat :: i <= q < r.value ==> !OccursAt(s, pat, q)
    ensures r.None? ==> forall q: nat :: i <= q ==> !OccursAt(s, pat, q)
    decreases |s| - i
  {
    if i + |pat| > |s| then None
    else if s[i..i + |pat|] == pat then Some(i)
    else FindFrom(s, pat, i + 1)
  }

  /** `std::string::find`: the first position at which `pat` occurs, if any. */
  function Find(s: string, pat: string): (r: Option<nat>)
    ensures r.Some? ==> OccursAt(s, pat, r.value) && forall q: nat :: q < r.value ==> !OccursAt(s, pat, q)
    ensures r.None? ==> forall q: nat :: !OccursAt(s, pat, q)
  {
    FindFrom(s, pat, 0)
  }

  lemma FindIsFirst(s: string, pat: string, p: nat)
    requires OccursAt(s, pat, p) && forall q: nat :: q < p ==> !OccursAt(s, pat, q)
    ensures Find(s, pat) == Some(p)
  {
  }

  /** An empty pattern is always found at 0: `replaceAll` with an empty `oldSubStr` never
      leaves its loop. */
  lemma FindEmptyPattern(s: string)
    ensures Find(s, "") == Some(0)
  {
    assert OccursAt(s, "", 0);
    FindIsFirst(s, "", 0);
  }

  // ---------------------------------------------------------------------------------------
  // replaceAll

  /** `std::string::replace(p, n, t)`. */
  function Replace(s: string, p: nat, n: nat, t: string): (r: string)
    requires p + n <= |s|
    ensures |r| == |s| - n + |t|
  {
    s[..p] + t + s[p + n..]
  }

  function Count(s: string, c: char): (n: nat)
    ensures n <= |s|
  {
    if s == [] then 0 else (if s[0] == c then 1 else 0) + Count(s[1..], c)
  }

  lemma {:induction false} CountAppend(a: string, b: string, c: char)
    ensures Count(a + b, c) == Count(a, c) + Count(b, c)
  {
    if a == [] {
      assert a + b == b;
    } else {
      assert (a + b)[1..] == a[1..] + b;
      CountAppend(a[1..], b, c);
    }
  }

  lemma {:induction false} CountZero(s: string, c: char)
    ensures Count(s, c) == 0 <==> c !in s
  {
    if s != [] {
      CountZero(s[1..], c);
      assert s == [s[0]] + s[1..];
    }
  }

  /** No character of `a` occurs in `b`. */
  predicate Disjoint(a: string, b: string) {
    forall i :: 0 <= i < |a| ==> a[i] !in b
  }

  /** Replacing an occurrence of `pat` by a string without `pat[0]` removes at least one
      `pat[0]`: the measure under which `replaceAll` terminates. */
  lemma ReplaceDecreases(s: string, p: nat, pat: string, sub: string)
    requires pat != [] && Disjoint(pat, sub) && OccursAt(s, pat, p)
    ensures Count(Replace(s, p, |pat|, sub), pat[0]) < Count(s, pat[0])
  {
    var c := pat[0];
    var pre, post := s[..p], s[p + |pat|..];
    assert s == pre + pat + post;
    CountAppend(pre + pat, post, c);
    CountAppend(pre, pat, c);
    CountAppend(pre + sub, post, c);
    CountAppend(pre, sub, c);
    CountZero(sub, c);
    assert pat == [c] + pat[1..];
    CountAppend([c], pat[1..], c);
  }

  /** `replaceAll`: replace the first occurrence of `pat` until there is none. The loop ends
      when `sub` has no character of a non-empty `pat`, as in every call in the converter;
      with an empty `pat` it never ends (`FindEmptyPattern`). */
  function ReplaceAll(s: string, pat: string, sub: string): (r: string)
    requires pat != [] && Disjoint(pat, sub)
    ensures forall q: nat :: !OccursAt(r, pat, q)
    decreases Count(s, pat[0])
  {
    match Find(s, pat)
    case None => s
    case Some(p) =>
      ReplaceDecreases(s, p, pat, sub);
      ReplaceAll(Replace(s, p, |pat|, sub), pat, sub)
  }

  /** A pattern whose first character is not in `s` leaves `s` as it is. */
  lemma ReplaceAllUnchanged(s: string, pat: string, sub: string)
    requires pat != [] && Disjoint(pat, sub) && pat[0] !in s
    ensures ReplaceAll(s, pat, sub) == s
  {
  }

  /** A character in neither `s` nor `sub` is not in `ReplaceAll(s, pat, sub)`. */
  lemma {:induction false} ReplaceAllAbsent(s: string, pat: string, sub: string, c: char)
    requires pat != [] && Disjoint(pat, sub)
    requires c !in s && c !in sub
    ensures c !in ReplaceAll(s, pat, sub)
    decreases Count(s, pat[0])
  {
    match Find(s, pat)
    case None =>
    case Some(p) =>
      ReplaceDecreases(s, p, pat, sub);
      var s' := Replace(s, p, |pat|, sub);
      assert c !in s' by {
        assert c !in s[..p] && c !in s[p + |pat|..];
      }
      ReplaceAllAbsent(s', pat, sub, c);
  }

  /** Replacing by seven-bit text keeps a seven-bit string seven-bit. */
  lemma ReplaceAllAscii(s: string, pat: string, sub: string)
    requires pat != [] && Disjoint(pat, sub)
    requires Ascii(s) && Ascii(sub)
    ensures Ascii(ReplaceAll(s, pat, sub))
  {
    var r := ReplaceAll(s, pat, sub);
    forall i | 0 <= i < |r|
      ensures r[i] as int < 0x80
    {
      if r[i] as int >= 0x80 {
        ReplaceAllAbsent(s, pat, sub, r[i]);
        assert false;
      }
    }
  }

  lemma OccursAtChar(s: string, c: char, q: nat)
    ensures OccursAt(s, [c], q) <==> q < |s| && s[q] == c
  {
    if q < |s| { assert s[q..q + 1] == [s[q]]; }
  }

  /** A one-character pattern that occurs nowhere is a character that is not there. */
  lemma NoOccurrenceOfChar(s: string, c: char)
    requires forall q: nat :: !OccursAt(s, [c], q)
    ensures c !in s
  {
    if c in s {
      var q :| 0 <= q < |s| && s[q] == c;
      OccursAtChar(s, c, q);
    }
  }

  /** The reference definition for a one-character pattern: every `a` replaced by `t`. */
  function Substitute(s: string, a: char, t: string): (r: string)
  {
    if s == [] then [] else (if s[0] == a then t else [s[0]]) + Substitute(s[1..], a, t)
  }

  /** A prefix without `a` is left alone by `ReplaceAll` of `[a]`. */
  lemma {:induction false} ReplaceAllSkipsPrefix(x: string, y: string, a: char, t: string)
    requires a !in t && a !in x
    ensures ReplaceAll(x + y, [a], t) == x + ReplaceAll(y, [a], t)
    decreases Count(y, a)
  {
    var pat := [a];
    assert Disjoint(pat, t);
    match Find(y, pat)
    case None =>
      forall q: nat
        ensures !OccursAt(x + y, pat, q)
      {
        OccursAtChar(x + y, a, q);
        if |x| <= q < |x + y| {
          OccursAtChar(y, a, q - |x|);
        }
      }
      assert Find(x + y, pat).None?;
    case Some(p) =>
      var k := |x| + p;
      assert (x + y)[k..k + 1] == y[p..p + 1];
      forall q: nat | q < k
        ensures !OccursAt(x + y, pat, q)
      {
        OccursAtChar(x + y, a, q);
        if |x| <= q {
          OccursAtChar(y, a, q - |x|);
        }
      }
      FindIsFirst(x + y, pat, k);
      var y' := Replace(y, p, 1, t);
      assert Replace(x + y, k, 1, t) == x + y' by {
        assert (x + y)[..k] == x + y[..p];
        assert (x + y)[k + 1..] == y[p + 1..];
      }
      ReplaceDecreases(y, p, pat, t);
      ReplaceAllSkipsPrefix(x, y', a, t);
  }

  /** With a one-character pattern, `ReplaceAll` is `Substitute`. */
  lemma {:induction false} ReplaceAllIsSubstitute(s: string, a: char, t: string)
    requires a !in t
    ensures ReplaceAll(s, [a], t) == Substitute(s, a, t)
  {
    var pat := [a];
    assert Disjoint(pat, t);
    if s == [] {
      assert Find(s, pat).None?;
    } else {
      ReplaceAllIsSubstitute(s[1..], a, t);
      if s[0] == a {
        assert OccursAt(s, pat, 0) by { assert s[0..1] == pat; }
        FindIsFirst(s, pat, 0);
        assert Replace(s, 0, 1, t) == t + s[1..];
        ReplaceAllSkipsPrefix(t, s[1..], a, t);
      } else {
        assert s == [s[0]] + s[1..];
        ReplaceAllSkipsPrefix([s[0]], s[1..], a, t);
      }
    }
  }

  // ---------------------------------------------------------------------------------------
  // Base path

  predicate IsSeparator(c: char) { c == '/' || c == '\\' }

  /** `find_last_of("/\\")`. */
  function LastSeparator(s: string): (r: Option<nat>)
    ensures r.Some? ==> r.value < |s| && IsSeparator(s[r.value])
    ensures r.Some? ==> forall j :: r.value < j < |s| ==> !IsSeparator(s[j])
    ensures r.None? ==> forall j :: 0 <= j < |s| ==> !IsSeparator(s[j])
  {
    if s == [] then None
    else if IsSeparator(s[|s| - 1]) then Some(|s| - 1)
    else LastSeparator(s[..|s| - 1])
  }

  /** The directory part of the input file name: up to and including the last separator,
      or empty when there is none. */
  function BasePath(fileName: string): (r: string)
    ensures r <= fileName
    ensures r == [] || IsSeparator(r[|r| - 1])
    ensures forall j :: |r| <= j < |fileName| ==> !IsSeparator(fileName[j])
  {
    match LastSeparator(fileName)
    case None => []
    case Some(p) => fileName[..p + 1]
  }

  /** A directory (empty or ending in a separator) followed by a plain file name is split
      back into that directory. */
  lemma BasePathOfJoin(dir: string, name: string)
    requires dir == [] || IsSeparator(dir[|dir| - 1])
    requires forall j :: 0 <= j < |name| ==> !IsSeparator(name[j])
    ensures BasePath(dir + name) == dir
  {
    var s := dir + name;
    var r := BasePath(s);
    if dir != [] {
      assert s[|dir| - 1] == dir[|dir| - 1];
    }
    assert forall j :: |dir| <= j < |s| ==> s[j] == name[j - |dir|];
    if r != [] {
      assert s[|r| - 1] == r[|r| - 1];
    }
    assert r == s[..|r|] && dir == s[..|dir|];
  }

  lemma BasePathIdempotent(fileName: string)
    ensures BasePath(BasePath(fileName)) == BasePath(fileName)
  {
    var r := BasePath(fileName);
    assert r + [] == r;
    BasePathOfJoin(r, []);
  }

  // ---------------------------------------------------------------------------------------
  // std::to_string of a count

  predicate IsDigit(c: char) { '0' <= c <= '9' }

  function DigitChar(d: nat): (c: char)
    requires d < 10
    ensures IsDigit(c) && c as int - '0' as int == d
  {
    ('0' as int + d) as char
  }

  /** `std::to_string` of a non-negative integer: its decimal digits, most significant first;
      only zero itself starts with '0'. */
  function Decimal(n: nat): (r: string)
    ensures |r| >= 1 && forall i :: 0 <= i < |r| ==> IsDigit(r[i])
    ensures r[0] == '0' <==> n == 0
  {
    if n < 10 then [DigitChar(n)] else Decimal(n / 10) + [DigitChar(n % 10)]
  }

  /** The number a string of decimal digits denotes. */
  function DecimalValue(s: string): nat
    requires forall i :: 0 <= i < |s| ==> IsDigit(s[i])
  {
    if s == [] then 0
    else
      assert IsDigit(s[|s| - 1]);
      10 * DecimalValue(s[..|s| - 1]) + (s[|s| - 1] as int - '0' as int)
  }

  /** Reading the digits back gives the number. */
  lemma {:induction false} DecimalRoundTrip(n: nat)
    ensures DecimalValue(Decimal(n)) == n
  {
    if n >= 10 {
      DecimalRoundTrip(n / 10);
      var s := Decimal(n);
      assert s[..|s| - 1] == Decimal(n / 10);
    }
  }

  /** Different numbers have different decimal strings. */
  lemma DecimalInjective(m: nat, n: nat)
    ensures Decimal(m) == Decimal(n) <==> m == n
  {
    DecimalRoundTrip(m);
    DecimalRoundTrip(n);
  }
}
