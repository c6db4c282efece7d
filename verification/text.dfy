/** Label text handling: JavaScript's `String.prototype.trim`, which every
    rename and region-label prompt applies before deciding whether the
    input is acceptable (main.js lines 63-64, 141-142, 246-247). */
module Text {

  /** The code points `trim` strips: ECMAScript WhiteSpace and LineTerminator. */
  predicate IsWhitespace(c: char) {
    || c == '\t' || c == '\n' || c == '\U{B}' || c == '\U{C}' || c == '\r' || c == ' '
    || c == '\U{A0}' || c == '\U{1680}' || ('\U{2000}' <= c <= '\U{200A}')
    || c == '\U{2028}' || c == '\U{2029}' || c == '\U{202F}' || c == '\U{205F}'
    || c == '\U{3000}' || c == '\U{FEFF}'
  }

  predicate AllWhitespace(s: string) {
    forall i :: 0 <= i < |s| ==> IsWhitespace(s[i])
  }

  /** Neither starts nor ends with a whitespace code point. */
  predicate IsTrimmed(s: string) {
    s == [] || (!IsWhitespace(s[0]) && !IsWhitespace(s[|s| - 1]))
  }

  /** `s` without its leading whitespace: the longest suffix not starting with whitespace. */
  function TrimStart(s: string): (r: string)
    ensures |r| <= |s| && r == s[|s| - |r|..]
    ensures AllWhitespace(s[..|s| - |r|])
    ensures r == [] || !IsWhitespace(r[0])
  {
    if |s| > 0 && IsWhitespace(s[0]) then
      var r := TrimStart(s[1..]);
      TrimStartStep(s, r);
      r
    else s
  }

  /** `s` without its trailing whitespace: the longest prefix not ending with whitespace. */
  function TrimEnd(s: string): (r: string)
    ensures |r| <= |s| && r == s[..|r|]
    ensures AllWhitespace(s[|r|..])
    ensures r == [] || !IsWhitespace(r[|r| - 1])
  {
    if |s| > 0 && IsWhitespace(s[|s| - 1]) then
      var r := TrimEnd(s[..|s| - 1]);
      TrimEndStep(s, r);
      r
    else s
  }

  /** TrimStart's contract for `s` from its contract for `s[1..]`, when `s[0]` is whitespace. */
  lemma TrimStartStep(s: string, r: string)
    requires |s| > 0 && IsWhitespace(s[0])
    requires |r| <= |s| - 1 && r == s[1..][|s| - 1 - |r|..] && AllWhitespace(s[1..][..|s| - 1 - |r|])
    ensures |r| <= |s| && r == s[|s| - |r|..] && AllWhitespace(s[..|s| - |r|])
  {
    assert s[1..][|s| - 1 - |r|..] == s[|s| - |r|..];
    WhitespaceFront(s, |s| - |r|);
  }

  /** TrimEnd's contract for `s` from its contract for `s[..|s| - 1]`, when the last character is whitespace. */
  lemma TrimEndStep(s: string, r: string)
    requires |s| > 0 && IsWhitespace(s[|s| - 1])
    requires |r| <= |s| - 1 && r == s[..|s| - 1][..|r|] && AllWhitespace(s[..|s| - 1][|r|..])
    ensures |r| <= |s| && r == s[..|r|] && AllWhitespace(s[|r|..])
  {
    assert s[..|s| - 1][..|r|] == s[..|r|];
    WhitespaceBack(s, |r|);
  }

  /** A whitespace first character extends a whitespace prefix of the rest. */
  lemma WhitespaceFront(s: string, n: int)
    requires 0 < n <= |s| && IsWhitespace(s[0]) && AllWhitespace(s[1..][..n - 1])
    ensures AllWhitespace(s[..n])
  {
    forall j | 0 <= j < n
      ensures IsWhitespace(s[..n][j])
    {
      if j > 0 {
        assert s[..n][j] == s[1..][..n - 1][j - 1];
      }
    }
  }

  /** A whitespace last character extends a whitespace suffix of the rest. */
  lemma WhitespaceBack(s: string, n: int)
    requires 0 <= n < |s| && IsWhitespace(s[|s| - 1]) && AllWhitespace(s[..|s| - 1][n..])
    ensures AllWhitespace(s[n..])
  {
    forall j | 0 <= j < |s| - n
      ensures IsWhitespace(s[n..][j])
    {
      if j < |s| - 1 - n {
        assert s[n..][j] == s[..|s| - 1][n..][j];
      }
    }
  }

  /** `trim`: drop whitespace at both ends. */
  function Trim(s: string): (r: string)
    ensures IsTrimmed(r)
    ensures r == [] <==> AllWhitespace(s)
  {
    var t := TrimStart(s);
    var r := TrimEnd(t);
    TrimsToEmptyIffBlank(s, t, r);
    assert r != [] ==> !IsWhitespace(r[0]) by {
      if r != [] {
        assert r[0] == t[0];
      }
    }
    r
  }

  /** Both trims together leave nothing exactly when the input is blank. */
  lemma TrimsToEmptyIffBlank(s: string, t: string, r: string)
    requires t == TrimStart(s) && r == TrimEnd(t)
    ensures r == [] <==> AllWhitespace(s)
  {
    if r == [] {
      assert t[0..] == t;
      assert s[..|s|] == s;
    }
  }

  /** `r` occurs in `s` at offset `i` with only whitespace before and after it. */
  predicate WhitespaceFramed(s: string, r: string, i: int) {
    && 0 <= i <= |s| - |r|
    && s[i..i + |r|] == r
    && AllWhitespace(s[..i])
    && AllWhitespace(s[i + |r|..])
  }

  /** The kept text is a contiguous piece of the input with only whitespace cut away. */
  lemma TrimIsInfix(s: string)
    ensures exists i :: WhitespaceFramed(s, Trim(s), i)
  {
    var i := |s| - |TrimStart(s)|;
    TrimsFrame(s);
    assert WhitespaceFramed(s, Trim(s), i);
  }

  /** The two trims cut whitespace from the front, then from the back. */
  lemma TrimsFrame(s: string)
    ensures WhitespaceFramed(s, TrimEnd(TrimStart(s)), |s| - |TrimStart(s)|)
  {
    var t := TrimStart(s);
    FrameOfSuffix(s, t, TrimEnd(t), |s| - |t|);
  }

  /** Whitespace before the suffix `t` and after its prefix `r` frames `r` in `s`. */
  lemma FrameOfSuffix(s: string, t: string, r: string, i: int)
    requires 0 <= i <= |s| && t == s[i..] && AllWhitespace(s[..i])
    requires |r| <= |t| && r == t[..|r|] && AllWhitespace(t[|r|..])
    ensures WhitespaceFramed(s, r, i)
  {
    SuffixSlices(s, t, i, |r|);
  }


  /** Slicing the suffix `t` of `s` that starts at `i` is slicing `s` shifted by `i`. */
  lemma SuffixSlices(s: string, t: string, i: int, n: int)
    requires 0 <= i <= |s| && t == s[i..] && 0 <= n <= |t|
    ensures s[i..i + n] == t[..n] && s[i + n..] == t[n..]
  {
  }


  /** Trimming twice is trimming once. */
  lemma TrimIdempotent(s: string)
    ensures Trim(Trim(s)) == Trim(s)
  {
    var r := Trim(s);
    TrimmedIsFixed(r);
  }

  /** A string with no whitespace at either end is left unchanged by `trim`. */
  lemma TrimmedIsFixed(s: string)
    requires IsTrimmed(s)
    ensures Trim(s) == s
  {
    assert TrimStart(s) == s;
    assert TrimEnd(s) == s;
  }
}
