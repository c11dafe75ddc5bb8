/** String helpers the chat client relies on: `String.prototype.trim` and the single-occurrence
    `replace(' ', 'T')` applied to timestamps. Strings are sequences of Unicode scalar values. */
module Text {

  /** The code points `trim` strips: ECMAScript's WhiteSpace and LineTerminator productions
      (tab, line feed, vertical tab, form feed, carriage return, the space separators of
      category Zs, line and paragraph separator, and the byte order mark). */
  predicate IsJsWhitespace(c: char) {
    var n := c as int;
    (9 <= n <= 13) || n == 0x20 || n == 0xA0 || n == 0x1680 || (0x2000 <= n <= 0x200A)
    || n == 0x2028 || n == 0x2029 || n == 0x202F || n == 0x205F || n == 0x3000 || n == 0xFEFF
  }

  /** True when every character of `s` is whitespace (so `s.trim()` is the falsy empty string). */
  ghost predicate AllWhitespace(s: string) {
    forall i :: 0 <= i < |s| ==> IsJsWhitespace(s[i])
  }

  /** The length of the whitespace run that starts `s`. */
  function LeadingWhitespace(s: string): (n: nat)
    ensures n <= |s|
    ensures forall i :: 0 <= i < n ==> IsJsWhitespace(s[i])
    ensures n < |s| ==> !IsJsWhitespace(s[n])
  {
    if |s| > 0 && IsJsWhitespace(s[0]) then 1 + LeadingWhitespace(s[1..]) else 0
  }

  /** The length of the whitespace run that ends `s`. */
  function TrailingWhitespace(s: string): (n: nat)
    ensures n <= |s|
    ensures forall i :: |s| - n <= i < |s| ==> IsJsWhitespace(s[i])
    ensures n < |s| ==> !IsJsWhitespace(s[|s| - n - 1])
  {
    if |s| > 0 && IsJsWhitespace(s[|s| - 1]) then 1 + TrailingWhitespace(s[..|s| - 1]) else 0
  }

  /** `s.trim()`: the leading whitespace run is cut, then the trailing run of what is left. */
  function Trim(s: string): (r: string)
    ensures |r| <= |s|
    ensures r == [] || (!IsJsWhitespace(r[0]) && !IsJsWhitespace(r[|r| - 1]))
  {
    var t := s[LeadingWhitespace(s)..];
    t[..|t| - TrailingWhitespace(t)]
  }

  /** What `trim` keeps is the contiguous slice of `s` between a whitespace-only run at the
      front and a whitespace-only run at the back. */
  lemma TrimIsSlice(s: string)
    ensures var k, r := LeadingWhitespace(s), Trim(s);
      && k + |r| <= |s| && r == s[k..k + |r|]
      && (forall i :: 0 <= i < k ==> IsJsWhitespace(s[i]))
      && (forall i :: k + |r| <= i < |s| ==> IsJsWhitespace(s[i]))
  {
    var k := LeadingWhitespace(s);
    var t := s[k..];
    var r := Trim(s);
    SliceOfSlice(s, t, r, k);
    forall i | k + |r| <= i < |s| ensures IsJsWhitespace(s[i]) {
      assert s[i] == t[i - k];
    }
  }

  lemma SliceOfSlice<T>(s: seq<T>, t: seq<T>, r: seq<T>, k: nat)
    requires k <= |s| && t == s[k..] && |r| <= |t| && r == t[..|r|]
    ensures r == s[k..k + |r|]
    ensures forall i :: k <= i < |s| ==> s[i] == t[i - k]
  {
  }

  /** The trimmed text is empty exactly when the input is all whitespace: the composer's emptiness test. */
  lemma TrimEmptyIff(s: string)
    ensures Trim(s) == [] <==> AllWhitespace(s)
  {
    var k := LeadingWhitespace(s);
    var t := s[k..];
    if k < |s| {
      // s[k] is kept: the trailing run of t stops before it
      assert t[0] == s[k];
      assert TrailingWhitespace(t) < |t|;
      assert Trim(s)[0] == s[k];
    }
  }

  /** Trimming twice is the same as trimming once. */
  lemma TrimIdempotent(s: string)
    ensures Trim(Trim(s)) == Trim(s)
  {
    var r := Trim(s);
    if r != [] {
      assert LeadingWhitespace(r) == 0 && TrailingWhitespace(r) == 0;
      assert r[0..] == r && r[..|r|] == r;
    }
  }

  /** Index of the first ' ' (U+0020) in `s`, or `|s|` when there is none. */
  function IndexOfSpace(s: string): (i: nat)
    ensures i <= |s|
    ensures i < |s| ==> s[i] == ' '
    ensures forall j :: 0 <= j < i ==> s[j] != ' '
  {
    if s == [] then 0
    else if s[0] == ' ' then 0
    else 1 + IndexOfSpace(s[1..])
  }

  /** `s.replace(' ', 'T')` with a string pattern: only the first space becomes 'T'; every other
      character, later spaces included, is kept in place. */
  function ReplaceFirstSpace(s: string): (r: string)
    ensures |r| == |s|
    ensures forall j :: 0 <= j < |s| && j != IndexOfSpace(s) ==> r[j] == s[j]
    ensures IndexOfSpace(s) < |s| ==> r[IndexOfSpace(s)] == 'T'
  {
    var i := IndexOfSpace(s);
    if i == |s| then s else s[..i] + "T" + s[i + 1..]
  }

  /** Of the spaces in a string, only the first becomes 'T'; every later one is still a space. */
  lemma ReplaceFirstSpaceKeepsLaterSpaces(s: string, j: nat)
    requires j < |s| && s[j] == ' '
    ensures ReplaceFirstSpace(s)[j] == (if j == IndexOfSpace(s) then 'T' else ' ')
  {
  }
}
