/** The JavaScript string primitives the core relies on: the whitespace class
    shared by `String.prototype.trim` and the regular-expression escape `\s`,
    and `trim` itself. */
module Text {

  /** ECMAScript WhiteSpace and LineTerminator code points: the characters
      `trim` removes and `\s` matches. */
  predicate IsSpace(c: char)
  {
    || c == ' ' || c == '\t' || c == '\n' || c == '\r'
    || c == '\U{000B}' || c == '\U{000C}' || c == '\U{00A0}' || c == '\U{1680}'
    || ('\U{2000}' <= c <= '\U{200A}')
    || c == '\U{2028}' || c == '\U{2029}' || c == '\U{202F}' || c == '\U{205F}'
    || c == '\U{3000}' || c == '\U{FEFF}'
  }

  predicate AllSpace(s: string)
  {
    forall i :: 0 <= i < |s| ==> IsSpace(s[i])
  }

  /** The index of the first non-space character of `s` at or after `i`,
      or `|s|` when there is none. */
  function SkipSpaces(s: string, i: nat): (j: nat)
    requires i <= |s|
    ensures i <= j <= |s|
    ensures forall k :: i <= k < j ==> IsSpace(s[k])
    ensures j == |s| || !IsSpace(s[j])
    decreases |s| - i
  {
    if i < |s| && IsSpace(s[i]) then SkipSpaces(s, i + 1) else i
  }

  /** The index just past the last non-space character of `s` before `j`,
      or `lo` when `s[lo..j]` is all whitespace. */
  function SkipSpacesBack(s: string, lo: nat, j: nat): (e: nat)
    requires lo <= j <= |s|
    ensures lo <= e <= j
    ensures forall k :: e <= k < j ==> IsSpace(s[k])
    ensures e == lo || !IsSpace(s[e - 1])
    decreases j
  {
    if lo < j && IsSpace(s[j - 1]) then SkipSpacesBack(s, lo, j - 1) else j
  }

  /** `s.trim()`: the infix of `s` left after removing the leading and the
      trailing whitespace characters. It starts at `SkipSpaces(s, 0)`. */
  function Trim(s: string): (r: string)
    ensures var b := SkipSpaces(s, 0);
      && b + |r| <= |s| && r == s[b..b + |r|]
      && (forall i :: 0 <= i < b ==> IsSpace(s[i]))
      && (forall i :: b + |r| <= i < |s| ==> IsSpace(s[i]))
    ensures |r| == 0 || (!IsSpace(r[0]) && !IsSpace(r[|r| - 1]))
    ensures r == "" <==> AllSpace(s)
    ensures forall c :: c in r ==> c in s
  {
    var b := SkipSpaces(s, 0);
    var e := SkipSpacesBack(s, b, |s|);
    InfixShape(s, b, e);
    s[b..e]
  }

  /** The facts behind `Trim`, on the two indices alone. */
  lemma InfixShape(s: string, b: nat, e: nat)
    requires b <= e <= |s|
    requires forall k :: 0 <= k < b ==> IsSpace(s[k])
    requires forall k :: e <= k < |s| ==> IsSpace(s[k])
    requires b == |s| || !IsSpace(s[b])
    requires e == b || !IsSpace(s[e - 1])
    ensures e == b || (!IsSpace(s[b..e][0]) && !IsSpace(s[b..e][e - b - 1]))
    ensures e == b <==> AllSpace(s)
    ensures forall c :: c in s[b..e] ==> c in s
  {
    assert forall i :: b <= i < e ==> s[b..e][i - b] == s[i];
  }

  /** A string with no whitespace at either end is its own trim. */
  lemma TrimFixed(s: string)
    requires |s| == 0 || (!IsSpace(s[0]) && !IsSpace(s[|s| - 1]))
    ensures Trim(s) == s
  {
  }
}
