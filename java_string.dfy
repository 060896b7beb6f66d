/**
 * The parts of java.lang.String, java.lang.Character and java.util.regex
 * that the editor and the document pipeline rely on, written out over
 * `seq<char>`.
 */
module JavaString {

  /** `Character.isWhitespace`: the ASCII controls and the Unicode space,
      line and paragraph separators other than the non-breaking ones. */
  predicate IsWhitespace(c: char) {
    || c == ' ' || c == '\t' || c == '\n' || c == '\U{B}' || c == '\U{C}' || c == '\r'
    || ('\U{1C}' <= c <= '\U{1F}')
    || c == '\U{1680}' || ('\U{2000}' <= c <= '\U{2006}') || ('\U{2008}' <= c <= '\U{200A}')
    || c == '\U{2028}' || c == '\U{2029}' || c == '\U{205F}' || c == '\U{3000}'
  }

  /** The regular-expression class `\s`: `[ \t\n\x0B\f\r]`. */
  predicate IsRegexSpace(c: char) {
    c == ' ' || c == '\t' || c == '\n' || c == '\U{B}' || c == '\U{C}' || c == '\r'
  }

  /** The characters that the regular-expression `.` does not match. */
  predicate IsLineTerminator(c: char) {
    c == '\n' || c == '\r' || c == '\U{85}' || c == '\U{2028}' || c == '\U{2029}'
  }

  /** The characters `String.trim` removes: every code unit up to the space. */
  predicate IsTrimmable(c: char) {
    c <= ' '
  }

  /** `String.isBlank`. */
  predicate IsBlank(s: string) {
    forall i :: 0 <= i < |s| ==> IsWhitespace(s[i])
  }

  predicate StartsWith(s: string, prefix: string) {
    |prefix| <= |s| && s[..|prefix|] == prefix
  }

  predicate EndsWith(s: string, suffix: string) {
    |suffix| <= |s| && s[|s| - |suffix|..] == suffix
  }

  /** `needle` occurs in `s` at offset `i`. */
  predicate OccursAt(s: string, needle: string, i: int) {
    0 <= i && i + |needle| <= |s| && s[i..i + |needle|] == needle
  }

  /**
   * `String.indexOf(needle, from)`: the first offset at or after `from` where
   * `needle` occurs, or -1 when there is none.
   */
  function IndexOf(s: string, needle: string, from: nat): (r: int)
    ensures r == -1 || (from <= r && OccursAt(s, needle, r)) || (from > |s| && needle == [] && r == |s|)
    ensures from <= |s| ==> (r == -1 <==> forall j :: from <= j <= |s| ==> !OccursAt(s, needle, j))
    ensures r >= 0 ==> forall j :: from <= j < r ==> !OccursAt(s, needle, j)
    decreases |s| - from
  {
    if from > |s| then (if needle == [] then |s| else -1)
    else if OccursAt(s, needle, from) then from
    else if from == |s| then -1
    else IndexOf(s, needle, from + 1)
  }

  /** The first offset at or after `i` that `String.trim` keeps, or `|s|`. */
  function TrimStart(s: string, i: nat): (n: nat)
    requires i <= |s|
    ensures i <= n <= |s|
    ensures forall k :: i <= k < n ==> IsTrimmable(s[k])
    ensures n < |s| ==> !IsTrimmable(s[n])
    decreases |s| - i
  {
    if i < |s| && IsTrimmable(s[i]) then TrimStart(s, i + 1) else i
  }

  /** One past the last offset before `j` that `String.trim` keeps, or 0. */
  function TrimEnd(s: string, j: nat): (n: nat)
    requires j <= |s|
    ensures n <= j
    ensures forall k :: n <= k < j ==> IsTrimmable(s[k])
    ensures n > 0 ==> !IsTrimmable(s[n - 1])
  {
    if j > 0 && IsTrimmable(s[j - 1]) then TrimEnd(s, j - 1) else j
  }

  /** Number of characters `String.trim` removes from the front of `s`. */
  function LeadingTrimmed(s: string): (n: nat)
    ensures n <= |s|
    ensures forall i :: 0 <= i < n ==> IsTrimmable(s[i])
    ensures n < |s| ==> !IsTrimmable(s[n])
  {
    TrimStart(s, 0)
  }

  /**
   * `String.trim`: `s` without its leading and trailing characters up to the
   * space. What is removed is kept in the two margins.
   */
  function Trim(s: string): (r: string)
    ensures |r| <= |s|
    ensures r == [] <==> forall i :: 0 <= i < |s| ==> IsTrimmable(s[i])
    ensures r != [] ==> !IsTrimmable(r[0]) && !IsTrimmable(r[|r| - 1])
    ensures LeadingTrimmed(s) + |r| <= |s|
    ensures r != [] ==> s[LeadingTrimmed(s)..LeadingTrimmed(s) + |r|] == r
    ensures r != [] ==> forall i :: LeadingTrimmed(s) + |r| <= i < |s| ==> IsTrimmable(s[i])
  {
    var lead := LeadingTrimmed(s);
    if lead == |s| then [] else s[lead..TrimEnd(s, |s|)]
  }

  /** `Trim(s)` is found in `s` exactly where its leading margin ends. */
  lemma {:induction false} IndexOfTrimmed(s: string)
    requires Trim(s) != []
    ensures IndexOf(s, Trim(s), 0) == LeadingTrimmed(s)
  {
    var t, lead := Trim(s), LeadingTrimmed(s);
    assert OccursAt(s, t, lead) by {
      assert s[lead..lead + |t|] == t;
    }
    forall j | 0 <= j < lead
      ensures !OccursAt(s, t, j)
    {
      assert IsTrimmable(s[j]);
    }
    IndexOfFirst(s, t, 0, lead);
  }

  /** `IndexOf` returns the first occurrence at or after `from`. */
  lemma {:induction false} IndexOfFirst(s: string, needle: string, from: nat, k: nat)
    requires from <= k && OccursAt(s, needle, k)
    requires forall j :: from <= j < k ==> !OccursAt(s, needle, j)
    ensures IndexOf(s, needle, from) == k
    decreases k - from
  {
    if from < k {
      IndexOfFirst(s, needle, from + 1, k);
    }
  }

  /** `Utils.ltrim`: `s` without its leading whitespace. */
  function LeftTrim(s: string): (r: string)
    ensures |r| <= |s| && s[|s| - |r|..] == r
    ensures forall i :: 0 <= i < |s| - |r| ==> IsWhitespace(s[i])
    ensures r != [] ==> !IsWhitespace(r[0])
  {
    if |s| > 0 && IsWhitespace(s[0]) then LeftTrim(s[1..]) else s
  }

  /** `Utils.rtrim`: `s` without its trailing whitespace. */
  function RightTrim(s: string): (r: string)
    ensures |r| <= |s| && s[..|r|] == r
    ensures forall i :: |r| <= i < |s| ==> IsWhitespace(s[i])
    ensures r != [] ==> !IsWhitespace(r[|r| - 1])
  {
    if |s| > 0 && IsWhitespace(s[|s| - 1]) then RightTrim(s[..|s| - 1]) else s
  }
}
