/** String.prototype.trim, which the login handler applies to both
    credentials before comparing them. */
module JsString {

  /** The characters `trim` strips: ECMAScript's WhiteSpace (tab, vertical
      tab, form feed, the byte order mark and every space separator of
      category Zs) and its LineTerminator (LF, CR, U+2028, U+2029). */
  predicate IsWhiteSpace(c: char) {
    c == '\t' || c == '\n' || c == '\U{000B}' || c == '\U{000C}' || c == '\r' ||
    c == ' ' || c == '\U{00A0}' || c == '\U{1680}' ||
    ('\U{2000}' <= c <= '\U{200A}') ||
    c == '\U{2028}' || c == '\U{2029}' || c == '\U{202F}' || c == '\U{205F}' ||
    c == '\U{3000}' || c == '\U{FEFF}'
  }

  predicate AllWhiteSpace(s: string) {
    forall k :: 0 <= k < |s| ==> IsWhiteSpace(s[k])
  }

  /** `s` with its leading white space removed: a suffix of `s` that
      starts with a non-white-space character, or is empty. */
  function TrimStart(s: string): (r: string)
    ensures |r| <= |s| && r == s[|s| - |r|..]
    ensures AllWhiteSpace(s[..|s| - |r|])
    ensures r == [] || !IsWhiteSpace(r[0])
  {
    if |s| > 0 && IsWhiteSpace(s[0]) then
      var r := TrimStart(s[1..]);
      assert s[1..][..|s| - 1 - |r|] == s[1..|s| - |r|];
      r
    else s
  }

  /** `s` with its trailing white space removed: a prefix of `s` that
      ends with a non-white-space character, or is empty. */
  function TrimEnd(s: string): (r: string)
    ensures |r| <= |s| && r == s[..|r|]
    ensures AllWhiteSpace(s[|r|..])
    ensures r == [] || !IsWhiteSpace(r[|r| - 1])
  {
    if |s| > 0 && IsWhiteSpace(s[|s| - 1]) then
      var r := TrimEnd(s[..|s| - 1]);
      assert s[..|s| - 1][|r|..] == s[|r|..|s| - 1];
      assert s[|r|..] == s[..|s| - 1][|r|..] + [s[|s| - 1]];
      r
    else s
  }

  /** `trim`: the infix of `s` left once white space is removed from both
      ends; it neither starts nor ends with white space. */
  function Trim(s: string): (r: string)
    ensures exists i, j :: 0 <= i <= j <= |s| && r == s[i..j] &&
                           AllWhiteSpace(s[..i]) && AllWhiteSpace(s[j..])
    ensures r == [] || (!IsWhiteSpace(r[0]) && !IsWhiteSpace(r[|r| - 1]))
  {
    var t := TrimStart(s);
    var r := TrimEnd(t);
    var i := |s| - |t|;
    assert r == s[i..i + |r|];
    assert s[i + |r|..] == t[|r|..];
    r
  }

  /** Leading white space is exactly what `TrimStart` removes. */
  lemma {:induction false} TrimStartPadded(pad: string, t: string)
    requires AllWhiteSpace(pad)
    requires t == [] || !IsWhiteSpace(t[0])
    ensures TrimStart(pad + t) == t
  {
    if |pad| == 0 {
      assert pad + t == t;
    } else {
      assert (pad + t)[0] == pad[0] && (pad + t)[1..] == pad[1..] + t;
      TrimStartPadded(pad[1..], t);
    }
  }

  /** Trailing white space is exactly what `TrimEnd` removes. */
  lemma {:induction false} TrimEndPadded(t: string, pad: string)
    requires AllWhiteSpace(pad)
    requires t == [] || !IsWhiteSpace(t[|t| - 1])
    ensures TrimEnd(t + pad) == t
  {
    if |pad| == 0 {
      assert t + pad == t;
    } else {
      var n := |t + pad|;
      assert (t + pad)[n - 1] == pad[|pad| - 1];
      assert (t + pad)[..n - 1] == t + pad[..|pad| - 1];
      TrimEndPadded(t, pad[..|pad| - 1]);
    }
  }

  /** The contract of `Trim` determines it: a string with no white space
      at either end, padded with white space on both sides, trims back to
      itself. */
  lemma TrimPadded(before: string, m: string, after: string)
    requires AllWhiteSpace(before) && AllWhiteSpace(after)
    requires m == [] || (!IsWhiteSpace(m[0]) && !IsWhiteSpace(m[|m| - 1]))
    ensures Trim(before + m + after) == m
  {
    assert before + m + after == before + (m + after);
    if m == [] {
      assert m + after == after;
      TrimStartPadded(before + after, []);
      assert before + after + [] == before + after;
    } else {
      TrimStartPadded(before, m + after);
      TrimEndPadded(m, after);
    }
  }

  /** Trimming twice is trimming once. */
  lemma TrimIdempotent(s: string)
    ensures Trim(Trim(s)) == Trim(s)
  {
    var r := Trim(s);
    TrimPadded([], r, []);
    assert [] + r + [] == r;
  }
}
