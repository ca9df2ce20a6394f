/** The part of JavaScript's string library the handlers use: `String.prototype.trim`. */
module JsText {

  /** ECMAScript WhiteSpace and LineTerminator code points, the characters `trim` removes. */
  predicate IsWhiteSpace(c: char) {
    || c == ' ' || c == '\t' || c == '\n' || c == '\r'
    || c == '\U{000B}' || c == '\U{000C}' || c == '\U{00A0}' || c == '\U{FEFF}'
    || c == '\U{1680}' || ('\U{2000}' <= c <= '\U{200A}')
    || c == '\U{2028}' || c == '\U{2029}' || c == '\U{202F}' || c == '\U{205F}' || c == '\U{3000}'
  }

  /** Every character of `s` is white space (the empty string included). */
  predicate IsBlank(s: string) {
    forall i :: 0 <= i < |s| ==> IsWhiteSpace(s[i])
  }

  /** `s` without its leading white space: a suffix of `s`, everything cut off is white
      space, and it does not start with white space. */
  function TrimStart(s: string): (r: string)
    ensures |r| <= |s| && r == s[|s| - |r|..]
    ensures forall i :: 0 <= i < |s| - |r| ==> IsWhiteSpace(s[i])
    ensures r == [] || !IsWhiteSpace(r[0])
  {
    if s != [] && IsWhiteSpace(s[0]) then
      var r := TrimStart(s[1..]);
      assert forall i :: 1 <= i < |s| - |r| ==> s[i] == s[1..][i - 1];
      r
    else s
  }

  /** `s` without its trailing white space: a prefix of `s`, everything cut off is white
      space, and it does not end with white space. */
  function TrimEnd(s: string): (r: string)
    ensures |r| <= |s| && r == s[..|r|]
    ensures forall i :: |r| <= i < |s| ==> IsWhiteSpace(s[i])
    ensures r == [] || !IsWhiteSpace(r[|r| - 1])
  {
    if s != [] && IsWhiteSpace(s[|s| - 1]) then
      var r := TrimEnd(s[..|s| - 1]);
      assert forall i :: |r| <= i < |s| - 1 ==> s[i] == s[..|s| - 1][i];
      r
    else s
  }

  /** `r` sits in `s` at index `i`, and every character of `s` around it is white space. */
  ghost predicate Around(s: string, i: int, r: string) {
    && 0 <= i <= |s| - |r|
    && r == s[i..i + |r|]
    && (forall j :: 0 <= j < |s| && !(i <= j < i + |r|) ==> IsWhiteSpace(s[j]))
  }

  /** `s.trim()`: `s` without its leading and trailing white space. It is the infix of `s`
      with only white space around it, neither starts nor ends with white space, and is
      empty exactly when `s` is blank. */
  function Trim(s: string): (r: string)
    ensures exists i :: Around(s, i, r)
    ensures r == [] || (!IsWhiteSpace(r[0]) && !IsWhiteSpace(r[|r| - 1]))
    ensures r == [] <==> IsBlank(s)
  {
    var t := TrimStart(s);
    var r := TrimEnd(t);
    StripAround(s, t, r);
    r
  }

  /** Cutting white space off the front of `s`, giving `t`, and then off the back of `t`,
      giving `r`, leaves `r` with only white space around it in `s` and at neither of its
      ends; it is empty exactly when `s` is blank. */
  lemma StripAround(s: string, t: string, r: string)
    requires |t| <= |s| && t == s[|s| - |t|..] && forall i :: 0 <= i < |s| - |t| ==> IsWhiteSpace(s[i])
    requires |r| <= |t| && r == t[..|r|] && forall i :: |r| <= i < |t| ==> IsWhiteSpace(t[i])
    requires t == [] || !IsWhiteSpace(t[0])
    requires r == [] || !IsWhiteSpace(r[|r| - 1])
    ensures exists i :: Around(s, i, r)
    ensures r == [] || (!IsWhiteSpace(r[0]) && !IsWhiteSpace(r[|r| - 1]))
    ensures r == [] <==> IsBlank(s)
  {
    var k := |s| - |t|;
    assert forall j :: k + |r| <= j < |s| ==> s[j] == t[j - k];
    assert r != [] ==> r[0] == t[0];
    assert Around(s, k, r);
    AroundBlank(s, k, r);
  }

  /** An infix with only white space around it, which does not start with white space,
      is empty exactly when the whole string is blank. */
  lemma AroundBlank(s: string, i: int, r: string)
    requires Around(s, i, r) && (r == [] || !IsWhiteSpace(r[0]))
    ensures r == [] <==> IsBlank(s)
  {
    if r != [] {
      assert s[i] == r[0];
    }
  }
}
