/** The string trimming the client applies to the input buffer before
    creating a todo (`String.prototype.trim`). */
module Text {

  /** The characters `String.prototype.trim` strips: the WhiteSpace and
      LineTerminator productions of ECMA-262 (tab, vertical tab, form feed,
      the byte order mark, the Unicode space separators, line feed,
      carriage return, line separator and paragraph separator). All of them
      lie in the Basic Multilingual Plane, so each is one UTF-16 code unit;
      among ASCII characters they are exactly space, tab, line feed,
      carriage return, vertical tab and form feed. */
  predicate IsWhitespace(c: char)
    ensures IsWhitespace(c) ==> c <= '\U{FEFF}'
    ensures c <= '\U{7F}' ==> (IsWhitespace(c) <==> c in " \t\n\r\U{B}\U{C}")
  {
    || c == '\t' || c == '\n' || c == '\U{B}' || c == '\U{C}' || c == '\r'
    || c == ' ' || c == '\U{A0}' || c == '\U{1680}'
    || ('\U{2000}' <= c <= '\U{200A}')
    || c == '\U{2028}' || c == '\U{2029}' || c == '\U{202F}' || c == '\U{205F}'
    || c == '\U{3000}' || c == '\U{FEFF}'
  }

  /** Every character of `s` in positions `lo` up to `hi` is whitespace. */
  predicate WhitespaceBetween(s: string, lo: int, hi: int)
    requires 0 <= lo <= hi <= |s|
  {
    forall k :: lo <= k < hi ==> IsWhitespace(s[k])
  }

  predicate AllWhitespace(s: string) {
    WhitespaceBetween(s, 0, |s|)
  }

  /** Scanning forward from `from`, the index of the first non-whitespace
      character, or `|s|` when there is none. */
  function TrimStartIndex(s: string, from: nat): (k: nat)
    requires from <= |s|
    ensures from <= k <= |s|
    ensures WhitespaceBetween(s, from, k)
    ensures k < |s| ==> !IsWhitespace(s[k])
    decreases |s| - from
  {
    if from < |s| && IsWhitespace(s[from]) then TrimStartIndex(s, from + 1) else from
  }

  /** Scanning backward from `hi`, but not below `lo`, the index just past
      the last non-whitespace character, or `lo` when there is none. */
  function TrimEndIndex(s: string, lo: nat, hi: nat): (k: nat)
    requires lo <= hi <= |s|
    ensures lo <= k <= hi
    ensures WhitespaceBetween(s, k, hi)
    ensures k > lo ==> !IsWhitespace(s[k - 1])
    decreases hi
  {
    if hi > lo && IsWhitespace(s[hi - 1]) then TrimEndIndex(s, lo, hi - 1) else hi
  }

  /** `String.prototype.trim`: the leading whitespace is cut off, then the
      trailing whitespace of what is left. */
  function Trim(s: string): (r: string)
    ensures |r| <= |s|
    ensures r == [] <==> AllWhitespace(s)
    ensures r != [] ==> !IsWhitespace(r[0]) && !IsWhitespace(r[|r| - 1])
  {
    var i := TrimStartIndex(s, 0);
    var j := TrimEndIndex(s, i, |s|);
    assert i < j ==> s[i..j][0] == s[i] && s[i..j][j - i - 1] == s[j - 1];
    s[i..j]
  }

  /** `s[i..j]` is what is left of `s` once its leading and trailing
      whitespace is cut off: a description of trimming by the cut points
      alone. */
  predicate IsTrimSplit(s: string, i: int, j: int) {
    && 0 <= i <= j <= |s|
    && WhitespaceBetween(s, 0, i)
    && WhitespaceBetween(s, j, |s|)
    && (i < j ==> !IsWhitespace(s[i]) && !IsWhitespace(s[j - 1]))
  }

  /** `Trim` cuts `s` at a whitespace-only prefix and suffix. */
  lemma TrimHasSplit(s: string)
    ensures exists i, j :: IsTrimSplit(s, i, j) && Trim(s) == s[i..j]
  {
    var i := TrimStartIndex(s, 0);
    var j := TrimEndIndex(s, i, |s|);
    assert IsTrimSplit(s, i, j);
  }

  /** Any whitespace-only prefix and suffix whose remainder has
      non-whitespace ends gives exactly `Trim`: the cut points determine the
      result. */
  lemma TrimUnique(s: string, i: int, j: int)
    requires IsTrimSplit(s, i, j)
    ensures Trim(s) == s[i..j]
  {
  }

  /** Trimming twice is trimming once. */
  lemma TrimIdempotent(s: string)
    ensures Trim(Trim(s)) == Trim(s)
  {
  }
}
