/**
 * The two regular expressions of the Markdown editor pane, written as
 * matchers that follow the regex engine's greedy, left-to-right choices:
 *
 *  - the block-start pattern `^>|(((#+)|([*+\-])|([1-9]\.))\s+).+`, matched
 *    against a whole line;
 *  - the auto-indent pattern `(\s*[*+-]\s+|\s*[0-9]+\.\s+|\s+)(.*)`, matched
 *    against a whole line, whose first group is the indentation (and list
 *    marker) to repeat and whose second group is the line's content.
 */
module MarkdownPatterns {
  import opened Wrappers
  import opened JavaString

  predicate IsBullet(c: char) {
    c == '*' || c == '+' || c == '-'
  }

  predicate IsDigit(c: char) {
    '0' <= c <= '9'
  }

  predicate AllSpace(s: string, i: int, j: int)
    requires 0 <= i <= j <= |s|
  {
    forall k :: i <= k < j ==> IsRegexSpace(s[k])
  }

  /** No line terminator from `i` on: what `.*` needs to reach the end. */
  predicate NoTerminatorFrom(s: string, i: nat)
    requires i <= |s|
  {
    forall k :: i <= k < |s| ==> !IsLineTerminator(s[k])
  }

  /** Length of the greedy run of `\s` starting at `i`. */
  function SpaceRun(s: string, i: nat): (n: nat)
    requires i <= |s|
    ensures i + n <= |s| && AllSpace(s, i, i + n)
    ensures i + n < |s| ==> !IsRegexSpace(s[i + n])
    decreases |s| - i
  {
    if i < |s| && IsRegexSpace(s[i]) then 1 + SpaceRun(s, i + 1) else 0
  }

  /** Length of the greedy run of `c` starting at `i`. */
  function RunOf(s: string, i: nat, c: char): (n: nat)
    requires i <= |s|
    ensures i + n <= |s| && forall k :: i <= k < i + n ==> s[k] == c
    ensures i + n < |s| ==> s[i + n] != c
    decreases |s| - i
  {
    if i < |s| && s[i] == c then 1 + RunOf(s, i + 1, c) else 0
  }

  /** Length of the greedy run of digits starting at `i`. */
  function DigitRun(s: string, i: nat): (n: nat)
    requires i <= |s|
    ensures i + n <= |s| && forall k :: i <= k < i + n ==> IsDigit(s[k])
    ensures i + n < |s| ==> !IsDigit(s[i + n])
    decreases |s| - i
  {
    if i < |s| && IsDigit(s[i]) then 1 + DigitRun(s, i + 1) else 0
  }

  /** A run of `j` spaces at `i` is taken whole, and exactly when a
      non-space follows. */
  lemma {:induction false} SpaceRunCovers(s: string, i: nat, j: nat)
    requires i + j <= |s| && AllSpace(s, i, i + j)
    ensures SpaceRun(s, i) >= j
    ensures i + j < |s| && !IsRegexSpace(s[i + j]) ==> SpaceRun(s, i) == j
    decreases j
  {
    if j > 0 {
      SpaceRunCovers(s, i + 1, j - 1);
    }
  }

  lemma {:induction false} RunOfCovers(s: string, i: nat, j: nat, c: char)
    requires i + j <= |s| && forall k :: i <= k < i + j ==> s[k] == c
    ensures RunOf(s, i, c) >= j
    ensures i + j < |s| && s[i + j] != c ==> RunOf(s, i, c) == j
    decreases j
  {
    if j > 0 {
      RunOfCovers(s, i + 1, j - 1, c);
    }
  }

  lemma {:induction false} DigitRunCovers(s: string, i: nat, j: nat)
    requires i + j <= |s| && forall k :: i <= k < i + j ==> IsDigit(s[k])
    ensures DigitRun(s, i) >= j
    ensures i + j < |s| && !IsDigit(s[i + j]) ==> DigitRun(s, i) == j
    decreases j
  {
    if j > 0 {
      DigitRunCovers(s, i + 1, j - 1);
    }
  }

  // ---------------------------------------------------------------------
  // The block-start pattern

  /** `text[..n]` is what the marker group `(#+)|([*+\-])|([1-9]\.)` can
      match. */
  ghost predicate MarkerOf(text: string, n: nat) {
    && n <= |text|
    && (|| (n >= 1 && forall k :: 0 <= k < n ==> text[k] == '#')
        || (n == 1 && IsBullet(text[0]))
        || (n == 2 && '1' <= text[0] <= '9' && text[1] == '.'))
  }

  /** The length of the marker the greedy engine takes at the front, or 0. */
  function MarkerLength(text: string): (n: nat)
    ensures n <= |text|
    ensures n > 0 ==> MarkerOf(text, n)
  {
    if |text| == 0 then 0
    else if text[0] == '#' then RunOf(text, 0, '#')
    else if IsBullet(text[0]) then 1
    else if |text| >= 2 && '1' <= text[0] <= '9' && text[1] == '.' then 2
    else 0
  }

  /** One way the second alternative can match all of `text`: marker
      `text[..n]`, then `j` spaces, then at least one character other than a
      line terminator up to the end. */
  ghost predicate NewLineSplit(text: string, n: nat, j: nat) {
    && MarkerOf(text, n)
    && 1 <= j && n + j < |text|
    && AllSpace(text, n, n + j)
    && NoTerminatorFrom(text, n + j)
  }

  /** What it means for the pattern to match the whole of `text`. */
  ghost predicate NewLineRegex(text: string) {
    text == ">" || exists n: nat, j: nat :: NewLineSplit(text, n, j)
  }

  /**
   * `PATTERN_NEW_LINE.matcher(text).matches()`. After the marker the engine
   * takes all the spaces it can and gives back one when `.+` would otherwise
   * be left with nothing.
   */
  predicate MatchesNewLine(text: string)
    ensures text == ">" ==> MatchesNewLine(text)
    ensures MatchesNewLine(text) && text != ">" ==>
      && MarkerLength(text) > 0
      && |text| >= MarkerLength(text) + 2
      && IsRegexSpace(text[MarkerLength(text)])
  {
    || text == ">"
    || (var n := MarkerLength(text);
        && n > 0
        && var w := SpaceRun(text, n);
           var j := if w < |text| - n - 1 then w else |text| - n - 1;
           j >= 1 && NoTerminatorFrom(text, n + j))
  }

  /** The matcher accepts exactly the lines the pattern matches. */
  lemma {:induction false} MatchesNewLineIsRegex(text: string)
    ensures MatchesNewLine(text) <==> NewLineRegex(text)
  {
    if text != ">" {
      var n := MarkerLength(text);
      if MatchesNewLine(text) {
        var w := SpaceRun(text, n);
        var j := if w < |text| - n - 1 then w else |text| - n - 1;
        assert NewLineSplit(text, n, j);
      }
      if NewLineRegex(text) {
        var n': nat, j': nat :| NewLineSplit(text, n', j');
        MarkerLengthOfSplit(text, n', j');
        SpaceRunCovers(text, n, j');
      }
    }
  }

  /** A marker followed by a space is the one the engine takes. */
  lemma MarkerLengthOfSplit(text: string, n: nat, j: nat)
    requires NewLineSplit(text, n, j)
    ensures MarkerLength(text) == n
  {
    assert IsRegexSpace(text[n]);
    if text[0] == '#' {
      RunOfCovers(text, 0, n, '#');
    }
  }

  // ---------------------------------------------------------------------
  // The auto-indent pattern

  /** `p` is a bullet item's indentation: spaces, a bullet, spaces. */
  ghost predicate BulletPrefixAt(p: string, a: nat) {
    && a + 2 <= |p|
    && AllSpace(p, 0, a) && IsBullet(p[a]) && AllSpace(p, a + 1, |p|)
  }

  /** `p` is a numbered item's indentation: spaces, digits, a period, spaces. */
  ghost predicate NumberPrefixAt(p: string, a: nat, d: nat) {
    && 1 <= d && a + d + 2 <= |p|
    && AllSpace(p, 0, a)
    && (forall k :: a <= k < a + d ==> IsDigit(p[k]))
    && p[a + d] == '.'
    && AllSpace(p, a + d + 1, |p|)
  }

  /** What the first group can match. */
  ghost predicate IndentGroup(p: string) {
    || (|p| >= 1 && AllSpace(p, 0, |p|))
    || (exists a: nat :: BulletPrefixAt(p, a))
    || (exists a: nat, d: nat :: NumberPrefixAt(p, a, d))
  }

  /** The pattern matches `line` with the first group ending at `c`. */
  ghost predicate IndentCut(line: string, c: nat) {
    c <= |line| && IndentGroup(line[..c]) && NoTerminatorFrom(line, c)
  }

  /** `line[..c]` is spaces, a bullet and spaces, and `.*` takes the rest. */
  lemma BulletCut(line: string, w: nat, c: nat)
    requires w + 2 <= c <= |line| && AllSpace(line, 0, w) && IsBullet(line[w])
    requires AllSpace(line, w + 1, c) && NoTerminatorFrom(line, c)
    ensures IndentCut(line, c)
  {
    assert BulletPrefixAt(line[..c], w);
  }

  /** `line[..c]` is spaces, digits, a period and spaces, and `.*` takes the
      rest. */
  lemma NumberCut(line: string, w: nat, d: nat, c: nat)
    requires 1 <= d && w + d + 2 <= c <= |line| && AllSpace(line, 0, w)
    requires (forall k :: w <= k < w + d ==> IsDigit(line[k])) && line[w + d] == '.'
    requires AllSpace(line, w + d + 1, c) && NoTerminatorFrom(line, c)
    ensures IndentCut(line, c)
  {
    assert NumberPrefixAt(line[..c], w, d);
  }

  /** The first alternative at the greedy indentation `w`: where its match
      of the first group ends, if it matches. */
  function BulletEnd(line: string, w: nat): (r: Option<nat>)
    requires w <= |line| && AllSpace(line, 0, w)
    ensures r.Some? ==> IndentCut(line, r.value)
    ensures r.Some? && r.value < |line| ==> !IsRegexSpace(line[r.value])
  {
    if w < |line| && IsBullet(line[w]) && SpaceRun(line, w + 1) >= 1
       && NoTerminatorFrom(line, w + 1 + SpaceRun(line, w + 1)) then
      var c := w + 1 + SpaceRun(line, w + 1);
      BulletCut(line, w, c);
      Some(c)
    else None
  }

  /** The second alternative at the greedy indentation `w`. */
  function NumberEnd(line: string, w: nat): (r: Option<nat>)
    requires w <= |line| && AllSpace(line, 0, w)
    ensures r.Some? ==> IndentCut(line, r.value)
    ensures r.Some? && r.value < |line| ==> !IsRegexSpace(line[r.value])
  {
    var d := DigitRun(line, w);
    if d >= 1 && w + d < |line| && line[w + d] == '.'
       && SpaceRun(line, w + d + 1) >= 1
       && NoTerminatorFrom(line, w + d + 1 + SpaceRun(line, w + d + 1)) then
      var c := w + d + 1 + SpaceRun(line, w + d + 1);
      NumberCut(line, w, d, c);
      Some(c)
    else None
  }

  /**
   * `PATTERN_AUTO_INDENT.matcher(line)`: when it matches, the two groups.
   * The alternatives are tried in order and each takes all the spaces it
   * can, so the content never starts with a space.
   */
  function AutoIndent(line: string): (r: Option<(string, string)>)
    ensures r.Some? ==> r.value.0 + r.value.1 == line
    ensures r.Some? ==> IndentCut(line, |r.value.0|)
    ensures r.Some? && r.value.1 != [] ==> !IsRegexSpace(r.value.1[0])
  {
    match FirstGroupEnd(line)
    case Some(c) => Some(Cut(line, c))
    case None => None
  }

  /** Where the first group ends: the alternatives in order, each at the
      greedy indentation. */
  function FirstGroupEnd(line: string): (r: Option<nat>)
    ensures r.Some? ==> IndentCut(line, r.value)
    ensures r.Some? && r.value < |line| ==> !IsRegexSpace(line[r.value])
  {
    var w := SpaceRun(line, 0);
    match BulletEnd(line, w)
    case Some(c) => Some(c)
    case None =>
      match NumberEnd(line, w)
      case Some(c) => Some(c)
      case None => SpaceEnd(line, w)
  }

  /** The third alternative, `\s+`, at the greedy indentation `w`. */
  function SpaceEnd(line: string, w: nat): (r: Option<nat>)
    requires w <= |line| && AllSpace(line, 0, w)
    requires w < |line| ==> !IsRegexSpace(line[w])
    ensures r.Some? ==> IndentCut(line, r.value)
    ensures r.Some? && r.value < |line| ==> !IsRegexSpace(line[r.value])
  {
    if w >= 1 && NoTerminatorFrom(line, w) then
      assert IndentGroup(line[..w]);
      Some(w)
    else None
  }

  /** `line` as the part before `c` and the part from `c` on. */
  function Cut(line: string, c: nat): (r: (string, string))
    requires c <= |line|
    ensures |r.0| == c && r.0 + r.1 == line
  {
    assert line[..c] + line[c..] == line;
    (line[..c], line[c..])
  }

  /** Whenever the pattern can match `line` at all, the matcher matches. */
  lemma AutoIndentComplete(line: string, c: nat)
    requires IndentCut(line, c)
    ensures AutoIndent(line).Some?
  {
    var p := line[..c];
    if |p| >= 1 && AllSpace(p, 0, |p|) {
      SpacesFound(line, c);
    } else if a: nat :| BulletPrefixAt(p, a) {
      BulletFound(line, c, a);
    } else {
      var a: nat, d: nat :| NumberPrefixAt(p, a, d);
      NumberFound(line, c, a, d);
    }
  }

  lemma {:induction false} SpacesFound(line: string, c: nat)
    requires c <= |line| && 1 <= c && AllSpace(line[..c], 0, c) && NoTerminatorFrom(line, c)
    ensures FirstGroupEnd(line).Some?
  {
    assert AllSpace(line, 0, c);
    SpaceRunCovers(line, 0, c);
  }

  lemma {:induction false} BulletFound(line: string, c: nat, a: nat)
    requires c <= |line| && BulletPrefixAt(line[..c], a) && NoTerminatorFrom(line, c)
    ensures FirstGroupEnd(line).Some?
  {
    assert AllSpace(line, 0, a) && IsBullet(line[a]) && AllSpace(line, a + 1, c);
    SpaceRunCovers(line, 0, a);
    SpaceRunCovers(line, a + 1, c - a - 1);
  }

  lemma {:induction false} NumberFound(line: string, c: nat, a: nat, d: nat)
    requires c <= |line| && NumberPrefixAt(line[..c], a, d) && NoTerminatorFrom(line, c)
    ensures FirstGroupEnd(line).Some?
  {
    assert AllSpace(line, 0, a) && line[a + d] == '.' && AllSpace(line, a + d + 1, c);
    assert forall k :: a <= k < a + d ==> IsDigit(line[k]);
    SpaceRunCovers(line, 0, a);
    NumberEndAt(line, c, a, d);
  }

  lemma {:induction false} NumberEndAt(line: string, c: nat, a: nat, d: nat)
    requires 1 <= d && a + d + 2 <= c <= |line| && AllSpace(line, 0, a)
    requires (forall k :: a <= k < a + d ==> IsDigit(line[k])) && line[a + d] == '.'
    requires AllSpace(line, a + d + 1, c) && NoTerminatorFrom(line, c)
    ensures NumberEnd(line, a).Some?
  {
    DigitRunCovers(line, a, d);
    SpaceRunCovers(line, a + d + 1, c - a - d - 1);
  }

  /** A bullet item's indentation followed by content is split there: the
      marker and its spacing are what a new line repeats. */
  lemma BulletItemIndent(spaces: string, bullet: char, gap: string, content: string)
    requires AllSpace(spaces, 0, |spaces|) && IsBullet(bullet)
    requires |gap| >= 1 && AllSpace(gap, 0, |gap|)
    requires content != [] && !IsRegexSpace(content[0]) && NoTerminatorFrom(content, 0)
    ensures AutoIndent(spaces + [bullet] + gap + content) == Some((spaces + [bullet] + gap, content))
  {
    var line := spaces + [bullet] + gap + content;
    var w := |spaces|;
    assert line[w] == bullet;
    SpaceRunCovers(line, 0, w);
    assert line[w + 1 + |gap|] == content[0];
    SpaceRunCovers(line, w + 1, |gap|);
    assert NoTerminatorFrom(line, w + 1 + |gap|) by {
      forall k | w + 1 + |gap| <= k < |line| ensures !IsLineTerminator(line[k]) {
        assert line[k] == content[k - w - 1 - |gap|];
      }
    }
    assert line[..w + 1 + |gap|] == spaces + [bullet] + gap;
    assert line[w + 1 + |gap|..] == content;
  }
}
