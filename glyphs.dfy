/** Character classes used by the Radix app (app2.py): the Ideographic Description
    Characters, the CJK ranges accepted as components, and Python's `str.strip`. */
module Glyphs {

  /** `IDC_CHARS`: the twelve Ideographic Description Characters U+2FF0..U+2FFB
      (section 18.2 of The Unicode Standard). */
  const IdcChars: set<char> := {
    '\U{2FF0}', '\U{2FF1}', '\U{2FF2}', '\U{2FF3}', '\U{2FF4}', '\U{2FF5}',
    '\U{2FF6}', '\U{2FF7}', '\U{2FF8}', '\U{2FF9}', '\U{2FFA}', '\U{2FFB}'
  }

  /** `is_valid_char`: CJK Unified Ideographs, CJK Radicals Supplement, Extension A and
      Extension B. */
  predicate IsValidChar(c: char)
  {
    ('\U{4E00}' <= c <= '\U{9FFF}') || ('\U{2E80}' <= c <= '\U{2EFF}') ||
    ('\U{3400}' <= c <= '\U{4DBF}') || ('\U{20000}' <= c <= '\U{2A6DF}')
  }

  /** No structural operator is a valid component, so the validity test alone already
      keeps operators out of the index. */
  lemma IdcNeverValid(c: char)
    ensures c in IdcChars ==> !IsValidChar(c)
  {
  }

  /** The set literal of `IDC_CHARS` is exactly the block U+2FF0..U+2FFB, twelve
      distinct characters. */
  lemma IdcCharsAreTheBlock()
    ensures |IdcChars| == 12
    ensures forall c :: c in IdcChars <==> '\U{2FF0}' <= c <= '\U{2FFB}'
  {
  }

  /** The 29 characters for which Python's `str.isspace` holds: U+0009..U+000D,
      U+001C..U+001F, the space, U+0085, U+00A0, U+1680, U+2000..U+200A, U+2028, U+2029,
      U+202F, U+205F and U+3000. */
  const SpaceChars: set<char> := {
    '\t', '\n', '\U{B}', '\U{C}', '\r', '\U{1C}', '\U{1D}', '\U{1E}', '\U{1F}', ' ',
    '\U{85}', '\U{A0}', '\U{1680}',
    '\U{2000}', '\U{2001}', '\U{2002}', '\U{2003}', '\U{2004}', '\U{2005}',
    '\U{2006}', '\U{2007}', '\U{2008}', '\U{2009}', '\U{200A}',
    '\U{2028}', '\U{2029}', '\U{202F}', '\U{205F}', '\U{3000}'
  }

  predicate IsSpace(ch: char)
  {
    ch in SpaceChars
  }

  /** Every character of `s` is whitespace. */
  predicate AllSpace(s: string)
  {
    forall k :: 0 <= k < |s| ==> IsSpace(s[k])
  }

  /** Drops leading whitespace. */
  function TrimStart(s: string): (r: string)
    ensures |r| <= |s| && r == s[|s| - |r|..]
    ensures AllSpace(s[..|s| - |r|])
    ensures r != [] ==> !IsSpace(r[0])
  {
    if s != [] && IsSpace(s[0]) then
      var r := TrimStart(s[1..]);
      assert s[..|s| - |r|] == [s[0]] + s[1..][..|s| - 1 - |r|];
      r
    else
      s
  }

  /** Drops trailing whitespace. */
  function TrimEnd(s: string): (r: string)
    ensures |r| <= |s| && r == s[..|r|]
    ensures AllSpace(s[|r|..])
    ensures r != [] ==> !IsSpace(r[|r| - 1])
  {
    if s != [] && IsSpace(s[|s| - 1]) then
      var r := TrimEnd(s[..|s| - 1]);
      assert s[|r|..] == s[..|s| - 1][|r|..] + [s[|s| - 1]];
      r
    else
      s
  }

  /** `r` is `s` with whitespace cut from both ends, the cut starting at offset `i`. */
  predicate CutAt(s: string, r: string, i: int)
  {
    0 <= i <= |s| - |r| && r == s[i..i + |r|] && AllSpace(s[..i]) && AllSpace(s[i + |r|..])
  }

  /** Dropping a whitespace prefix and then a whitespace suffix cuts `s` after the prefix. */
  lemma CutFromParts(s: string, t: string, r: string)
    requires |t| <= |s| && t == s[|s| - |t|..] && AllSpace(s[..|s| - |t|])
    requires |r| <= |t| && r == t[..|r|] && AllSpace(t[|r|..])
    ensures CutAt(s, r, |s| - |t|)
  {
    var i := |s| - |t|;
    assert r == s[i..i + |r|];
    assert s[i + |r|..] == t[|r|..];
  }

  /** Trimming both ends cuts `s` at the length of its leading whitespace. */
  lemma TrimBothCut(s: string)
    ensures CutAt(s, TrimEnd(TrimStart(s)), |s| - |TrimStart(s)|)
  {
    var t := TrimStart(s);
    CutFromParts(s, t, TrimEnd(t));
  }

  /** `str.strip()`: an infix that neither starts nor ends with whitespace, everything
      cut off being whitespace. */
  function Strip(s: string): (r: string)
    ensures r == [] || (!IsSpace(r[0]) && !IsSpace(r[|r| - 1]))
    ensures exists i :: CutAt(s, r, i)
  {
    TrimBothCut(s);
    TrimEnd(TrimStart(s))
  }

  /** Leading whitespace in front of a string that does not start with whitespace is
      exactly what `TrimStart` drops. */
  lemma {:induction false} TrimStartSpaces(pre: string, rest: string)
    requires AllSpace(pre) && (rest == [] || !IsSpace(rest[0]))
    ensures TrimStart(pre + rest) == rest
    decreases |pre|
  {
    if pre == [] {
      assert pre + rest == rest;
    } else {
      assert (pre + rest)[1..] == pre[1..] + rest;
      assert IsSpace(pre[0]);
      TrimStartSpaces(pre[1..], rest);
    }
  }

  /** Trailing whitespace behind a string that does not end with whitespace is exactly
      what `TrimEnd` drops. */
  lemma {:induction false} TrimEndSpaces(rest: string, post: string)
    requires AllSpace(post) && (rest == [] || !IsSpace(rest[|rest| - 1]))
    ensures TrimEnd(rest + post) == rest
    decreases |post|
  {
    if post == [] {
      assert rest + post == rest;
    } else {
      var init := post[..|post| - 1];
      assert (rest + post)[..|rest + post| - 1] == rest + init;
      assert IsSpace(post[|post| - 1]);
      TrimEndSpaces(rest, init);
    }
  }

  /** A non-space character with any whitespace on either side strips to itself. */
  lemma StripSurrounded(pre: string, c: char, post: string)
    requires AllSpace(pre) && AllSpace(post) && !IsSpace(c)
    ensures Strip(pre + [c] + post) == [c]
  {
    assert pre + [c] + post == pre + ([c] + post);
    TrimStartSpaces(pre, [c] + post);
    TrimEndSpaces([c], post);
  }

  /** Stripping is idempotent. */
  lemma {:induction false} StripIdempotent(s: string)
    ensures Strip(Strip(s)) == Strip(s)
  {
    var r := Strip(s);
    if r != [] {
      assert TrimStart(r) == r;
      assert TrimEnd(r) == r;
    }
  }

  /** `s.startswith(prefix)` */
  predicate StartsWith(s: string, prefix: string)
  {
    prefix <= s
  }
}
