/**
 * The Markdown editor pane: the scan that correlates an editor paragraph with
 * a block of the rendered document, wrapping the selection in markup, and the
 * Enter key's auto-indentation.
 */
module MarkdownEditorPane {
  import opened Wrappers
  import opened JavaString
  import opened MarkdownPatterns
  import opened TextArea

  // ---------------------------------------------------------------------
  // Paragraph id approximation

  /** What the scan has seen so far: the paragraphs counted as block starts,
      the previous paragraph (quotes replaced) and whether it is inside a
      fenced or an indented code block. */
  datatype ScanState = ScanState(
    blocks: seq<string>,
    prevText: string,
    withinFencedBlock: bool,
    withinCodeBlock: bool)

  const Start := ScanState([], "", false, false)

  /** `text.replace('>', ' ')`. */
  function ReplaceQuotes(s: string): (r: string)
    ensures |r| == |s|
    ensures forall i :: 0 <= i < |s| ==> r[i] == (if s[i] == '>' then ' ' else s[i])
  {
    if s == [] then [] else [if s[0] == '>' then ' ' else s[0]] + ReplaceQuotes(s[1..])
  }

  predicate IsFence(text: string) {
    StartsWith(text, "```")
  }

  predicate IsIndented(text: string) {
    StartsWith(text, "    ")
  }

  /** Outside code, a paragraph starts a block when it follows a blank one
      or opens a heading or list item. */
  predicate StartsBlock(prevText: string, text: string) {
    (!IsBlank(text) && IsBlank(prevText)) || MatchesNewLine(text)
  }

  /**
   * One paragraph of the scan: a fence line toggles the fenced state and is
   * counted when it opens; outside a fence, the first of a run of indented
   * lines is counted; outside code, a block start is counted.
   */
  function Step(st: ScanState, paragraph: string): (r: ScanState)
    ensures r.prevText == ReplaceQuotes(paragraph)
    ensures r.blocks == st.blocks || r.blocks == st.blocks + [ReplaceQuotes(paragraph)]
  {
    var text := ReplaceQuotes(paragraph);
    var fenced := if IsFence(text) then !st.withinFencedBlock else st.withinFencedBlock;
    var fenceOpened := IsFence(text) && fenced;
    var code := if fenced then st.withinCodeBlock else IsIndented(text);
    var codeOpened := !fenced && IsIndented(text) && !st.withinCodeBlock;
    var started := !fenced && !code && StartsBlock(st.prevText, text);
    ScanState(
      if fenceOpened || codeOpened || started then st.blocks + [text] else st.blocks,
      text, fenced, code)
  }

  /** The scan over `ps`, from state `st`. */
  function Fold(st: ScanState, ps: seq<string>): ScanState
  {
    if ps == [] then st else Step(Fold(st, ps[..|ps| - 1]), ps[|ps| - 1])
  }

  /** How many paragraphs the scan inspects: those with index `paraIndex` or
      less. */
  function Inspected(count: nat, paraIndex: int): (n: nat)
    ensures n <= count
    ensures paraIndex < 0 ==> n == 0
    ensures paraIndex >= 0 ==> n == count || n == paraIndex + 1
    ensures paraIndex >= 0 ==> n <= paraIndex + 1
  {
    if paraIndex < 0 then 0 else if paraIndex + 1 < count then paraIndex + 1 else count
  }

  /** The id the pane reports: the number of blocks counted, less one, but
      never negative. */
  function ParagraphId(ps: seq<string>, paraIndex: int): nat
  {
    var n := |Fold(Start, ps[..Inspected(|ps|, paraIndex)]).blocks|;
    if n - 1 > 0 then n - 1 else 0
  }

  /** `approximateParagraphId`. */
  method ApproximateParagraphId(paragraphs: seq<string>, paraIndex: int) returns (id: nat)
    ensures id == ParagraphId(paragraphs, paraIndex)
  {
    var lines: seq<string> := [];
    var i := 0;
    var prevText := "";
    var withinFencedBlock := false;
    var withinCodeBlock := false;
    while i < |paragraphs|
      invariant i <= Inspected(|paragraphs|, paraIndex)
      invariant ScanState(lines, prevText, withinFencedBlock, withinCodeBlock)
        == Fold(Start, paragraphs[..i])
    {
      if i > paraIndex {
        break;
      }
      FoldNext(paragraphs, i);
      lines, prevText, withinFencedBlock, withinCodeBlock :=
        ScanParagraph(lines, prevText, withinFencedBlock, withinCodeBlock, paragraphs[i]);
      i := i + 1;
    }
    id := if |lines| - 1 > 0 then |lines| - 1 else 0;
  }

  /** The body of the scan loop for one paragraph. */
  method ScanParagraph(lines: seq<string>, prevText: string, withinFencedBlock: bool, withinCodeBlock: bool,
                       paragraph: string)
    returns (lines': seq<string>, prevText': string, withinFencedBlock': bool, withinCodeBlock': bool)
    ensures ScanState(lines', prevText', withinFencedBlock', withinCodeBlock')
      == Step(ScanState(lines, prevText, withinFencedBlock, withinCodeBlock), paragraph)
  {
    lines', withinFencedBlock', withinCodeBlock' := lines, withinFencedBlock, withinCodeBlock;
    var text := ReplaceQuotes(paragraph);
    if IsFence(text) {
      withinFencedBlock' := !withinFencedBlock';
      if withinFencedBlock' {
        lines' := lines' + [text];
      }
    }
    if !withinFencedBlock' {
      var foundCodeBlock := IsIndented(text);
      if foundCodeBlock && !withinCodeBlock' {
        lines' := lines' + [text];
        withinCodeBlock' := true;
      } else if !foundCodeBlock {
        withinCodeBlock' := false;
      }
    }
    if !withinFencedBlock' && !withinCodeBlock' && StartsBlock(prevText, text) {
      lines' := lines' + [text];
    }
    prevText' := text;
  }

  /** The scan over one more paragraph is one more step. */
  lemma FoldNext(ps: seq<string>, i: nat)
    requires i < |ps|
    ensures Fold(Start, ps[..i + 1]) == Step(Fold(Start, ps[..i]), ps[i])
  {
    assert ps[..i + 1][..i] == ps[..i];
  }

  /** Scanning more paragraphs only appends blocks, at most one each. */
  lemma {:induction false} FoldPrefix(st: ScanState, ps: seq<string>, j: nat)
    requires j <= |ps|
    ensures var a, b := Fold(st, ps[..j]).blocks, Fold(st, ps).blocks;
      |a| <= |b| && b[..|a|] == a && |b| <= |a| + (|ps| - j)
    decreases |ps|
  {
    if j < |ps| {
      var ps' := ps[..|ps| - 1];
      assert ps'[..j] == ps[..j];
      FoldPrefix(st, ps', j);
    } else {
      assert ps[..j] == ps;
    }
  }

  /** Pointing at a later paragraph never gives a smaller id. */
  lemma ParagraphIdMonotone(ps: seq<string>, a: int, b: int)
    requires a <= b
    ensures ParagraphId(ps, a) <= ParagraphId(ps, b)
  {
    var na, nb := Inspected(|ps|, a), Inspected(|ps|, b);
    assert ps[..nb][..na] == ps[..na];
    FoldPrefix(Start, ps[..nb], na);
  }

  /** At most one block per inspected paragraph, so the id never exceeds the
      paragraph index. */
  lemma ParagraphIdBound(ps: seq<string>, paraIndex: int)
    ensures ParagraphId(ps, paraIndex) <= if paraIndex > 0 then paraIndex else 0
  {
    var n := Inspected(|ps|, paraIndex);
    assert ps[..n][..0] == [];
    FoldPrefix(Start, ps[..n], 0);
  }

  /** Folding a concatenation is folding one part after the other. */
  lemma {:induction false} FoldAppend(st: ScanState, a: seq<string>, b: seq<string>)
    ensures Fold(st, a + b) == Fold(Fold(st, a), b)
    decreases |b|
  {
    if b == [] {
      assert a + b == a;
    } else {
      assert (a + b)[..|a + b| - 1] == a + b[..|b| - 1];
      FoldAppend(st, a, b[..|b| - 1]);
    }
  }

  /** Inside a fence nothing is counted and only the previous text moves. */
  lemma {:induction false} InsideFence(st: ScanState, body: seq<string>)
    requires st.withinFencedBlock
    requires forall k :: 0 <= k < |body| ==> !IsFence(ReplaceQuotes(body[k]))
    ensures var r := Fold(st, body);
      && r.blocks == st.blocks && r.withinFencedBlock && r.withinCodeBlock == st.withinCodeBlock
      && r.prevText == if body == [] then st.prevText else ReplaceQuotes(body[|body| - 1])
    decreases |body|
  {
    if body != [] {
      InsideFence(st, body[..|body| - 1]);
    }
  }

  /**
   * A fenced block outside code adds its opening line as a block. Its
   * closing line adds a second block exactly when the line before it is
   * blank (it is then a non-blank line after a blank one).
   */
  lemma FencedBlockCounts(st: ScanState, open: string, body: seq<string>, close: string)
    requires !st.withinFencedBlock
    requires IsFence(ReplaceQuotes(open)) && IsFence(ReplaceQuotes(close))
    requires forall k :: 0 <= k < |body| ==> !IsFence(ReplaceQuotes(body[k]))
    ensures var r := Fold(st, [open] + body + [close]);
      && !r.withinFencedBlock && !r.withinCodeBlock
      && r.blocks == st.blocks + [ReplaceQuotes(open)]
           + if body != [] && IsBlank(ReplaceQuotes(body[|body| - 1])) then [ReplaceQuotes(close)] else []
  {
    var o, c := ReplaceQuotes(open), ReplaceQuotes(close);
    FenceLine(o);
    FenceLine(c);
    var s1 := Step(st, open);
    assert s1.withinFencedBlock && s1.blocks == st.blocks + [o];
    assert Fold(st, [open]) == s1 by {
      assert [open][..0] == [];
    }
    FoldAppend(st, [open], body);
    InsideFence(s1, body);
    var s2 := Fold(s1, body);
    assert s2.prevText == o || s2.prevText == ReplaceQuotes(body[|body| - 1]);
    FoldAppend(st, [open] + body, [close]);
    assert Fold(s2, [close]) == Step(s2, close) by {
      assert [close][..0] == [];
    }
  }

  /** Outside a fence, a paragraph that is neither a fence line nor indented
      ends any code block and is counted exactly when it starts a block. */
  lemma BlockStartCounted(st: ScanState, paragraph: string)
    requires !st.withinFencedBlock
    requires !IsFence(ReplaceQuotes(paragraph)) && !IsIndented(ReplaceQuotes(paragraph))
    ensures var r, text := Step(st, paragraph), ReplaceQuotes(paragraph);
      && !r.withinFencedBlock && !r.withinCodeBlock
      && (StartsBlock(st.prevText, text) ==> r.blocks == st.blocks + [text])
      && (!StartsBlock(st.prevText, text) ==> r.blocks == st.blocks)
  {
  }

  /** A fence line is not blank, not indented and no block-start marker. */
  lemma FenceLine(text: string)
    requires IsFence(text)
    ensures !IsBlank(text) && !IsIndented(text) && !MatchesNewLine(text)
  {
    assert text[0] == '`';
  }

  /** A run of indented lines outside a fence and outside code counts once,
      for its first line. */
  lemma {:induction false} IndentedRunCountsOnce(st: ScanState, run: seq<string>)
    requires !st.withinFencedBlock && run != []
    requires forall k :: 0 <= k < |run| ==> IsIndented(ReplaceQuotes(run[k]))
    ensures var r := Fold(st, run);
      && !r.withinFencedBlock && r.withinCodeBlock
      && r.blocks == st.blocks + if st.withinCodeBlock then [] else [ReplaceQuotes(run[0])]
    decreases |run|
  {
    var last := ReplaceQuotes(run[|run| - 1]);
    assert last[0] == ' ';
    if |run| > 1 {
      assert run[..|run| - 1][0] == run[0];
      IndentedRunCountsOnce(st, run[..|run| - 1]);
    } else {
      assert run[..0] == [];
    }
  }

  /** Quotes are replaced before matching, so the pattern's `^>` alternative
      never applies: a paragraph matches only as a heading or list item. */
  lemma QuoteNeverMatches(paragraph: string)
    ensures ReplaceQuotes(paragraph) != ">"
    ensures MatchesNewLine(ReplaceQuotes(paragraph)) <==>
      exists n: nat, j: nat :: NewLineSplit(ReplaceQuotes(paragraph), n, j)
  {
    var text := ReplaceQuotes(paragraph);
    if |text| == 1 {
      assert text[0] != '>';
    }
    MatchesNewLineIsRegex(text);
  }

  // ---------------------------------------------------------------------
  // Surrounding the selection

  /** Number of newlines `s` starts with. */
  function LeadingNewlines(s: string): (n: nat)
    ensures n <= |s|
    ensures forall i :: 0 <= i < n ==> s[i] == '\n'
    ensures n < |s| ==> s[n] != '\n'
  {
    if s != [] && s[0] == '\n' then 1 + LeadingNewlines(s[1..]) else 0
  }

  /** Number of newlines `s` ends with. */
  function TrailingNewlines(s: string): (n: nat)
    ensures n <= |s|
    ensures forall i :: |s| - n <= i < |s| ==> s[i] == '\n'
    ensures n < |s| ==> s[|s| - n - 1] != '\n'
  {
    if s != [] && s[|s| - 1] == '\n' then 1 + TrailingNewlines(s[..|s| - 1]) else 0
  }

  /** Number of newlines directly before offset `p` of `text`. */
  function NewlinesBefore(text: string, p: nat): (n: nat)
    requires p <= |text|
    ensures n <= p
    ensures forall i :: p - n <= i < p ==> text[i] == '\n'
    ensures n < p ==> text[p - n - 1] != '\n'
  {
    if p > 0 && text[p - 1] == '\n' then 1 + NewlinesBefore(text, p - 1) else 0
  }

  /** Number of newlines directly after offset `p` of `text`. */
  function NewlinesAfter(text: string, p: nat): (n: nat)
    requires p <= |text|
    ensures p + n <= |text|
    ensures forall i :: p <= i < p + n ==> text[i] == '\n'
    ensures p + n < |text| ==> text[p + n] != '\n'
    decreases |text| - p
  {
    if p < |text| && text[p] == '\n' then 1 + NewlinesAfter(text, p + 1) else 0
  }

  function Min(a: int, b: int): int {
    if a <= b then a else b
  }

  function Max(a: int, b: int): int {
    if a >= b then a else b
  }

  lemma {:induction false} LeadingNewlinesIs(s: string, n: nat)
    requires n <= |s| && (forall i :: 0 <= i < n ==> s[i] == '\n') && (n < |s| ==> s[n] != '\n')
    ensures LeadingNewlines(s) == n
    decreases n
  {
    if n > 0 {
      LeadingNewlinesIs(s[1..], n - 1);
    }
  }

  lemma {:induction false} TrailingNewlinesIs(s: string, n: nat)
    requires n <= |s| && (forall i :: |s| - n <= i < |s| ==> s[i] == '\n')
    requires n < |s| ==> s[|s| - n - 1] != '\n'
    ensures TrailingNewlines(s) == n
    decreases n
  {
    if n > 0 {
      TrailingNewlinesIs(s[..|s| - 1], n - 1);
    }
  }

  /**
   * `leading` less one leading newline per newline right before offset `p`:
   * the newlines of the text and of the inserted text merge into one run as
   * long as the longer of the two.
   */
  function MergeBefore(text: string, p: nat, leading: string): (r: string)
    requires p <= |text|
    ensures |r| <= |leading| && r == leading[|leading| - |r|..]
    ensures forall i :: 0 <= i < |leading| - |r| ==> leading[i] == '\n'
    ensures NewlinesBefore(text, p) + LeadingNewlines(r)
      == Max(NewlinesBefore(text, p), LeadingNewlines(leading))
    ensures LeadingNewlines(leading) == 0 || NewlinesBefore(text, p) == 0 ==> r == leading
  {
    var k := Min(LeadingNewlines(leading), NewlinesBefore(text, p));
    LeadingNewlinesIs(leading[k..], LeadingNewlines(leading) - k);
    leading[k..]
  }

  /** `s` less one trailing newline per newline right after offset `p`. */
  function MergeAfter(text: string, p: nat, s: string): (r: string)
    requires p <= |text|
    ensures |r| <= |s| && r == s[..|r|]
    ensures forall i :: |r| <= i < |s| ==> s[i] == '\n'
    ensures TrailingNewlines(r) + NewlinesAfter(text, p)
      == Max(TrailingNewlines(s), NewlinesAfter(text, p))
    ensures TrailingNewlines(s) == 0 || NewlinesAfter(text, p) == 0 ==> r == s
  {
    var k := Min(TrailingNewlines(s), NewlinesAfter(text, p));
    TrailingNewlinesIs(s[..|s| - k], TrailingNewlines(s) - k);
    s[..|s| - k]
  }

  /**
   * The loop that drops leading newlines from `leading`, one for each newline
   * of `text` that stands right before `start`, walking back from `start`.
   */
  method MergeLeading(text: string, start: nat, leading: string) returns (r: string)
    requires start <= |text|
    ensures r == MergeBefore(text, start, leading)
  {
    r := leading;
    if StartsWith(r, "\n") {
      var i := start - 1;
      while i >= 0 && StartsWith(r, "\n")
        invariant -1 <= i < start
        invariant start - 1 - i <= |leading| && r == leading[start - 1 - i..]
        invariant forall k :: 0 <= k < start - 1 - i ==> leading[k] == '\n'
        invariant forall k :: i < k < start ==> text[k] == '\n'
      {
        if text[i] != '\n' {
          break;
        }
        DropFirstNewline(leading, start - 1 - i, r);
        r := r[1..];
        i := i - 1;
      }
      LeadingLoopExit(text, start, leading, i, r);
    } else {
      MergeBeforeIs(text, start, leading, 0);
    }
  }

  /**
   * The loop that drops trailing newlines from `s`, one for each newline of
   * `text` that stands right after `end`, walking forward from `end`.
   */
  method MergeTrailing(text: string, end: nat, s: string) returns (r: string)
    requires end <= |text|
    ensures r == MergeAfter(text, end, s)
  {
    r := s;
    if EndsWith(r, "\n") {
      var length := |text|;
      var i := end;
      while i < length && EndsWith(r, "\n")
        invariant end <= i <= length
        invariant i - end <= |s| && r == s[..|s| - (i - end)]
        invariant forall k :: |s| - (i - end) <= k < |s| ==> s[k] == '\n'
        invariant forall k :: end <= k < i ==> text[k] == '\n'
      {
        if text[i] != '\n' {
          break;
        }
        DropLastNewline(s, i - end, r);
        r := r[..|r| - 1];
        i := i + 1;
      }
      TrailingLoopExit(text, end, s, i, r);
    } else {
      MergeAfterIs(text, end, s, 0);
    }
  }

  /** Where the leading loop stops, `r` is `MergeBefore`: it ran out of
      text, of newlines before `start`, or of newlines in `r`. */
  lemma LeadingLoopExit(text: string, start: nat, leading: string, i: int, r: string)
    requires start <= |text| && -1 <= i < start
    requires start - 1 - i <= |leading| && r == leading[start - 1 - i..]
    requires forall k :: 0 <= k < start - 1 - i ==> leading[k] == '\n'
    requires forall k :: i < k < start ==> text[k] == '\n'
    requires i < 0 || !StartsWith(r, "\n") || text[i] != '\n'
    ensures r == MergeBefore(text, start, leading)
  {
    NoFirstNewline(r);
    MergeBeforeIs(text, start, leading, start - 1 - i);
  }

  /** One step of the leading loop: the newline `r` starts with is
      `leading[d]`, and dropping it leaves `leading[d + 1..]`. */
  lemma DropFirstNewline(leading: string, d: nat, r: string)
    requires d <= |leading| && r == leading[d..] && StartsWith(r, "\n")
    ensures d < |leading| && leading[d] == '\n' && r[1..] == leading[d + 1..]
  {
    FirstNewline(r);
    assert leading[d] == r[0];
  }

  /** A string whose first character is a newline starts with "\n"; so
      where the leading loop stops on its own test, `r` starts with none. */
  lemma NoFirstNewline(r: string)
    ensures r != [] && r[0] == '\n' ==> StartsWith(r, "\n")
  {
    if r != [] && r[0] == '\n' {
      assert r[..1] == "\n";
    }
  }

  /** Where the trailing loop stops, `r` is `MergeAfter`. */
  lemma TrailingLoopExit(text: string, end: nat, s: string, i: nat, r: string)
    requires end <= i <= |text|
    requires i - end <= |s| && r == s[..|s| - (i - end)]
    requires forall k :: |s| - (i - end) <= k < |s| ==> s[k] == '\n'
    requires forall k :: end <= k < i ==> text[k] == '\n'
    requires i == |text| || !EndsWith(r, "\n") || text[i] != '\n'
    ensures r == MergeAfter(text, end, s)
  {
    NoLastNewline(r);
    MergeAfterIs(text, end, s, i - end);
  }

  /** One step of the trailing loop: the newline `r` ends with is
      `s[|s| - d - 1]`, and dropping it leaves `s[..|s| - d - 1]`. */
  lemma DropLastNewline(s: string, d: nat, r: string)
    requires d <= |s| && r == s[..|s| - d] && EndsWith(r, "\n")
    ensures d < |s| && s[|s| - d - 1] == '\n' && r[..|r| - 1] == s[..|s| - d - 1]
  {
    LastNewline(r);
    assert s[|s| - d - 1] == r[|r| - 1];
  }

  /** A string whose last character is a newline ends with "\n"; so where
      the trailing loop stops on its own test, `r` ends with none. */
  lemma NoLastNewline(r: string)
    ensures r != [] && r[|r| - 1] == '\n' ==> EndsWith(r, "\n")
  {
    if r != [] && r[|r| - 1] == '\n' {
      assert r[|r| - 1..] == "\n";
    }
  }

  lemma FirstNewline(r: string)
    requires StartsWith(r, "\n")
    ensures |r| > 0 && r[0] == '\n'
  {
    assert r[..1][0] == r[0];
  }

  lemma LastNewline(r: string)
    requires EndsWith(r, "\n")
    ensures |r| > 0 && r[|r| - 1] == '\n'
  {
    assert r[|r| - 1..][0] == r[|r| - 1];
  }

  /** What the leading loop stops at: `d` newlines dropped, and either the
      text or `leading` has no further newline to match. */
  lemma MergeBeforeIs(text: string, p: nat, leading: string, d: nat)
    requires p <= |text| && d <= |leading| && d <= p
    requires forall i :: 0 <= i < d ==> leading[i] == '\n'
    requires forall i :: p - d <= i < p ==> text[i] == '\n'
    requires d == |leading| || leading[d] != '\n' || d == p || text[p - d - 1] != '\n'
    ensures MergeBefore(text, p, leading) == leading[d..]
  {
  }

  /** What the trailing loop stops at. */
  lemma MergeAfterIs(text: string, p: nat, s: string, d: nat)
    requires p + d <= |text| && d <= |s|
    requires forall i :: |s| - d <= i < |s| ==> s[i] == '\n'
    requires forall i :: p <= i < p + d ==> text[i] == '\n'
    requires d == |s| || s[|s| - d - 1] != '\n' || p + d == |text| || text[p + d] != '\n'
    ensures MergeAfter(text, p, s) == s[..|s| - d]
  {
  }

  /** Where the trimmed content of `sel` starts: after the leading margin, or
      at 0 when there is no content. */
  function ContentStart(sel: string): (k: nat)
    ensures k + |Trim(sel)| <= |sel|
    ensures sel[k..k + |Trim(sel)|] == Trim(sel)
    ensures forall i :: 0 <= i < k ==> IsTrimmable(sel[i])
    ensures forall i :: k + |Trim(sel)| <= i < |sel| ==> IsTrimmable(sel[i])
  {
    if Trim(sel) == [] then 0 else LeadingTrimmed(sel)
  }

  /** The selection `[s0, e0)` shrunk to its trimmed content (see
      `TrimmedRangeContent`). */
  function TrimmedRange(text: string, s0: nat, e0: nat): (r: (nat, nat))
    requires s0 <= e0 <= |text|
    ensures s0 <= r.0 <= r.1 <= e0
  {
    var k := ContentStart(text[s0..e0]);
    (s0 + k, s0 + k + |Trim(text[s0..e0])|)
  }

  /** The trimmed range holds exactly what `String.trim` keeps of the
      selection. */
  lemma TrimmedRangeContent(text: string, s0: nat, e0: nat)
    requires s0 <= e0 <= |text|
    ensures var r := TrimmedRange(text, s0, e0); text[r.0..r.1] == Trim(text[s0..e0])
  {
    var sel := text[s0..e0];
    var k, n := ContentStart(sel), |Trim(sel)|;
    assert TrimmedRange(text, s0, e0) == (s0 + k, s0 + k + n);
    SliceOfSlice(text, s0, e0, k, k + n);
  }

  /** Only trimmable characters lie between the trimmed range and the
      selection's ends. */
  lemma TrimmedRangeMargins(text: string, s0: nat, e0: nat)
    requires s0 <= e0 <= |text|
    ensures var r := TrimmedRange(text, s0, e0);
      && (forall i :: s0 <= i < r.0 ==> IsTrimmable(text[i]))
      && (forall i :: r.1 <= i < e0 ==> IsTrimmable(text[i]))
  {
    var sel := text[s0..e0];
    var k, n := ContentStart(sel), |Trim(sel)|;
    assert forall j :: 0 <= j < k ==> IsTrimmable(sel[j]);
    assert forall j :: k + n <= j < |sel| ==> IsTrimmable(sel[j]);
    assert forall i :: s0 <= i < e0 ==> sel[i - s0] == text[i];
  }

  lemma SliceOfSlice(text: string, s0: nat, e0: nat, a: nat, b: nat)
    requires s0 <= e0 <= |text| && a <= b <= e0 - s0
    ensures text[s0..e0][a..b] == text[s0 + a..s0 + b]
  {
    var x, y := text[s0..e0][a..b], text[s0 + a..s0 + b];
    assert |x| == |y|;
    forall i | 0 <= i < |x|
      ensures x[i] == y[i]
    {
    }
  }

  /** The leading markup as it stands before the trailing newlines are
      merged: without its leading whitespace at the start of the text, and
      merged with the newlines before `start`. */
  function EdgeLeading(text: string, start: nat, leading: string): (r: string)
    requires start <= |text|
    ensures start == 0 && r != [] ==> !IsWhitespace(r[0])
  {
    var l1 := if start == 0 then LeftTrim(leading) else leading;
    assert start == 0 && l1 != [] ==> l1[0] != '\n';
    MergeBefore(text, start, l1)
  }

  /** The trailing markup without its trailing whitespace at the end of the
      text. */
  function EdgeTrailing(text: string, end: nat, trailing: string): (r: string)
    requires end <= |text|
    ensures end == |text| && r != [] ==> !IsWhitespace(r[|r| - 1])
    ensures end == |text| ==> MergeAfter(text, end, r) == r
  {
    if end == |text| then RightTrim(trailing) else trailing
  }

  /** The replacement `surroundSelection` makes: `text[start..end]` becomes
      `leading + body + trailing`. */
  datatype Surround = Surround(start: nat, end: nat, leading: string, body: string, trailing: string)

  /**
   * `surroundSelection(leading, trailing, hint)` on the selection `[s0, e0)`:
   * the range is the trimmed selection; the markup loses its outer whitespace
   * at the ends of the text and the newlines the text already has next to
   * the range (from `leading` at the front; at the back from `trailing`, or
   * from `leading` when `trailing` is empty); the body is the trimmed
   * selection, or the hint when that is empty.
   */
  function Surrounding(text: string, s0: nat, e0: nat, leading: string, trailing: string, hint: Option<string>)
    : (r: Surround)
    requires s0 <= e0 <= |text|
    ensures s0 <= r.start <= r.end <= e0
  {
    var range := TrimmedRange(text, s0, e0);
    var markup := Markup(text, range.0, range.1, leading, trailing);
    var body := if hint.Some? && range.0 == range.1 then hint.value else text[range.0..range.1];
    Surround(range.0, range.1, markup.0, body, markup.1)
  }

  /** The replaced range is the trimmed selection, and the body is what it
      holds, or the hint when the trimmed selection is empty. */
  lemma SurroundingBody(text: string, s0: nat, e0: nat, leading: string, trailing: string, hint: Option<string>)
    requires s0 <= e0 <= |text|
    ensures var r := Surrounding(text, s0, e0, leading, trailing, hint);
      && text[r.start..r.end] == Trim(text[s0..e0])
      && (forall i :: s0 <= i < r.start ==> IsTrimmable(text[i]))
      && (forall i :: r.end <= i < e0 ==> IsTrimmable(text[i]))
      && r.body == if hint.Some? && Trim(text[s0..e0]) == [] then hint.value else Trim(text[s0..e0])
  {
    TrimmedRangeContent(text, s0, e0);
    TrimmedRangeMargins(text, s0, e0);
  }

  /** When the trimmed range starts the text, the leading markup does not
      start with whitespace; when it ends the text, the trailing markup does
      not end with whitespace. */
  lemma SurroundingEdges(text: string, s0: nat, e0: nat, leading: string, trailing: string, hint: Option<string>)
    requires s0 <= e0 <= |text|
    ensures var r := Surrounding(text, s0, e0, leading, trailing, hint);
      && (r.start == 0 && r.leading != [] ==> !IsWhitespace(r.leading[0]))
      && (r.end == |text| && r.trailing != [] ==> !IsWhitespace(r.trailing[|r.trailing| - 1]))
  {
    var range := TrimmedRange(text, s0, e0);
    var markup := Markup(text, range.0, range.1, leading, trailing);
    var r := Surrounding(text, s0, e0, leading, trailing, hint);
    assert r.start == range.0 && r.end == range.1 && r.leading == markup.0 && r.trailing == markup.1;
  }

  /** The leading and trailing markup once the newlines at the back are
      merged, from `trailing` or, when that is empty, from `leading`. */
  function Markup(text: string, start: nat, end: nat, leading: string, trailing: string): (r: (string, string))
    requires start <= end <= |text|
    ensures start == 0 && r.0 != [] ==> !IsWhitespace(r.0[0])
    ensures end == |text| && r.1 != [] ==> !IsWhitespace(r.1[|r.1| - 1])
  {
    var l2 := EdgeLeading(text, start, leading);
    var t1 := EdgeTrailing(text, end, trailing);
    if t1 == [] then
      var l3 := MergeAfter(text, end, l2);
      assert l3 != [] ==> l3[0] == l2[0];
      (l3, t1)
    else (l2, MergeAfter(text, end, t1))
  }

  /** `surroundSelection`. */
  method SurroundSelection(area: TextArea, leading: string, trailing: string, hint: Option<string>)
    requires area.Valid()
    modifies area
    ensures area.Valid()
    ensures var r := Surrounding(old(area.text), old(area.SelStart()), old(area.SelEnd()), leading, trailing, hint);
      && area.text == old(area.text)[..r.start] + (r.leading + r.body + r.trailing) + old(area.text)[r.end..]
      && area.anchor == r.start + |r.leading|
      && area.caret == area.anchor + |r.body|
  {
    var text := area.text;
    ghost var plan := Surrounding(text, area.SelStart(), area.SelEnd(), leading, trailing, hint);
    var start, end, trimmedText := TrimSelection(text, area.SelStart(), area.SelEnd());
    assert start == plan.start && end == plan.end;
    var lead, trail := MarkupAround(text, start, end, leading, trailing);
    assert lead == plan.leading && trail == plan.trailing;
    var selStart := start + |lead|;
    var selEnd := end + |lead|;
    var body := trimmedText;
    if hint.Some? && trimmedText == [] {
      body := hint.value;
      selEnd := selStart + |hint.value|;
    }
    assert body == plan.body;
    area.ReplaceText(start, end, lead + body + trail);
    area.SelectRange(selStart, selEnd);
  }

  /** The first step of `surroundSelection`: the selection `[s0, e0)` shrunk
      by `indexOf` of its trimmed text. */
  method TrimSelection(text: string, s0: nat, e0: nat) returns (start: nat, end: nat, trimmed: string)
    requires s0 <= e0 <= |text|
    ensures start == TrimmedRange(text, s0, e0).0 && end == TrimmedRange(text, s0, e0).1
    ensures trimmed == Trim(text[s0..e0]) && trimmed == text[start..end]
  {
    var selectedText := text[s0..e0];
    trimmed := Trim(selectedText);
    if |trimmed| < |selectedText| {
      var offset := IndexOf(selectedText, trimmed, 0);
      ContentStartFound(selectedText);
      start := s0 + offset;
      end := start + |trimmed|;
    } else {
      TrimmedWhole(text, s0, e0);
      start, end := s0, e0;
    }
    TrimmedRangeContent(text, s0, e0);
  }

  /** The middle step of `surroundSelection`: trimming the markup at the ends
      of the text and merging it with the newlines around `[start, end)`. */
  method MarkupAround(text: string, start: nat, end: nat, leading: string, trailing: string)
    returns (lead: string, trail: string)
    requires start <= end <= |text|
    ensures lead == Markup(text, start, end, leading, trailing).0
    ensures trail == Markup(text, start, end, leading, trailing).1
  {
    lead, trail := leading, trailing;
    if start == 0 {
      lead := LeftTrim(lead);
    }
    if end == |text| {
      trail := RightTrim(trail);
    }
    lead := MergeLeading(text, start, lead);
    var trailingIsEmpty := trail == [];
    var str := if trailingIsEmpty then lead else trail;
    str := MergeTrailing(text, end, str);
    if trailingIsEmpty {
      lead := str;
    } else {
      trail := str;
    }
  }

  /** `indexOf` finds the trimmed text where its content starts. */
  lemma ContentStartFound(sel: string)
    ensures ContentStart(sel) == IndexOf(sel, Trim(sel), 0)
  {
    if Trim(sel) == [] {
      IndexOfFirst(sel, [], 0, 0);
    } else {
      IndexOfTrimmed(sel);
    }
  }

  /** A selection without a margin is its own trimmed range. */
  lemma TrimmedWhole(text: string, s0: nat, e0: nat)
    requires s0 <= e0 <= |text| && |Trim(text[s0..e0])| >= e0 - s0
    ensures TrimmedRange(text, s0, e0).0 == s0 && TrimmedRange(text, s0, e0).1 == e0
  {
    ContentStartWhole(text[s0..e0]);
  }

  /** Content starts at 0 when `trim` removes nothing. */
  lemma ContentStartWhole(sel: string)
    requires |Trim(sel)| >= |sel|
    ensures ContentStart(sel) == 0
  {
  }

  /** A selection with no whitespace at its edges, away from the ends of the
      text, is wrapped as it is when the markup brings no newlines to merge:
      none at the front of `leading`, and none at the back of `trailing`, or
      of `leading` when `trailing` is empty (the code then merges there). */
  lemma SurroundPlain(text: string, s0: nat, e0: nat, leading: string, trailing: string, hint: Option<string>)
    requires 0 < s0 < e0 < |text|
    requires !IsTrimmable(text[s0]) && !IsTrimmable(text[e0 - 1])
    requires LeadingNewlines(leading) == 0
    requires TrailingNewlines(if trailing == [] then leading else trailing) == 0
    ensures Surrounding(text, s0, e0, leading, trailing, hint)
      == Surround(s0, e0, leading, text[s0..e0], trailing)
  {
    PlainRange(text, s0, e0);
    PlainMarkup(text, s0, e0, leading, trailing);
  }

  /** A selection with no whitespace at its edges is its own trimmed range. */
  lemma PlainRange(text: string, s0: nat, e0: nat)
    requires s0 < e0 <= |text|
    requires !IsTrimmable(text[s0]) && !IsTrimmable(text[e0 - 1])
    ensures TrimmedRange(text, s0, e0) == (s0, e0)
  {
    var sel := text[s0..e0];
    assert !IsTrimmable(sel[0]) && !IsTrimmable(sel[|sel| - 1]);
    assert LeadingTrimmed(sel) == 0 && TrimEnd(sel, |sel|) == |sel|;
    assert Trim(sel) == sel[0..|sel|] == sel;
    TrimmedWhole(text, s0, e0);
  }

  /** Away from the text ends, markup without newlines to merge is kept as
      given. */
  lemma PlainMarkup(text: string, start: nat, end: nat, leading: string, trailing: string)
    requires 0 < start <= end < |text|
    requires LeadingNewlines(leading) == 0
    requires TrailingNewlines(if trailing == [] then leading else trailing) == 0
    ensures Markup(text, start, end, leading, trailing) == (leading, trailing)
  {
    assert EdgeLeading(text, start, leading) == leading;
    assert EdgeTrailing(text, end, trailing) == trailing;
  }

  /** An empty selection inside a line receives the hint between the markup,
      and the hint is what ends up selected. */
  lemma SurroundHint(text: string, p: nat, leading: string, trailing: string, hint: string)
    requires 0 < p < |text| && text[p - 1] != '\n' && text[p] != '\n' && trailing != []
    ensures Surrounding(text, p, p, leading, trailing, Some(hint)) == Surround(p, p, leading, hint, trailing)
  {
    assert Trim(text[p..p]) == [];
    assert NewlinesBefore(text, p) == 0 && NewlinesAfter(text, p) == 0;
  }

  // ---------------------------------------------------------------------
  // Enter

  /** A replacement of `text[start..end]` by `insert`. */
  datatype Edit = Edit(start: nat, end: nat, insert: string)

  function ApplyEdit(text: string, e: Edit): string
    requires e.start <= e.end <= |text|
  {
    text[..e.start] + e.insert + text[e.end..]
  }

  /**
   * Pressing Enter: a new line that repeats the current line's indentation and
   * list marker when the line has content after them; a line holding nothing
   * but indentation and a marker is emptied instead; any other line just
   * gets a newline. The line is the one holding the caret.
   */
  function EnterEdit(text: string, anchor: nat, caret: nat): (r: Edit)
    requires anchor <= |text| && caret <= |text|
    ensures r.start <= r.end <= |text|
    ensures r.insert != [] && r.insert[0] == '\n'
    ensures var line := CurrentLine(text, caret);
      && (AutoIndent(line).Some? && AutoIndent(line).value.1 == [] ==>
            r == Edit(LineStart(text, caret), LineEnd(text, caret), "\n"))
      && (AutoIndent(line).Some? && AutoIndent(line).value.1 != [] ==>
            r.insert == "\n" + AutoIndent(line).value.0)
      && (AutoIndent(line).None? ==> r.insert == "\n")
      && (AutoIndent(line).None? || AutoIndent(line).value.1 != [] ==>
            r.start == Min(anchor, caret) && r.end == Max(anchor, caret))
  {
    var line := CurrentLine(text, caret);
    var selection := Edit(Min(anchor, caret), Max(anchor, caret), "\n");
    match AutoIndent(line)
    case Some((indent, content)) =>
      if content != [] then selection.(insert := "\n" + indent)
      else Edit(LineStart(text, caret), LineEnd(text, caret), "\n")
    case None => selection
  }

  /** `enterPressed`, with the marker-only line selected from its start to
      its end. */
  method EnterPressed(area: TextArea)
    requires area.Valid()
    modifies area
    ensures area.Valid()
    ensures var e := EnterEdit(old(area.text), old(area.anchor), old(area.caret));
      && area.text == ApplyEdit(old(area.text), e)
      && area.anchor == e.start + |e.insert| && area.caret == area.anchor
  {
    ghost var e := EnterEdit(area.text, area.anchor, area.caret);
    var currentLine := CurrentLine(area.text, area.caret);
    var newText := "\n";
    var indent := AutoIndent(currentLine);
    if indent.Some? && indent.value.1 != [] {
      newText := newText + indent.value.0;
    } else if indent.Some? {
      area.SelectRange(LineStart(area.text, area.caret), LineEnd(area.text, area.caret));
    }
    assert e == Edit(area.SelStart(), area.SelEnd(), newText);
    area.ReplaceSelection(newText);
  }

  /** After Enter on a line with content, the caret stands on a new line
      that starts with the old line's indentation and marker. */
  lemma EnterIndentsNewLine(text: string, anchor: nat, caret: nat)
    requires anchor <= |text| && caret <= |text|
    requires AutoIndent(CurrentLine(text, caret)).Some? && AutoIndent(CurrentLine(text, caret)).value.1 != []
    ensures var e := EnterEdit(text, anchor, caret);
      var t, c := ApplyEdit(text, e), e.start + |e.insert|;
      && c <= |t|
      && LineStart(t, c) == e.start + 1
      && t[e.start + 1..c] == AutoIndent(CurrentLine(text, caret)).value.0
  {
    var line := CurrentLine(text, caret);
    var indent := AutoIndent(line).value.0;
    assert line == indent + AutoIndent(line).value.1;
    assert forall i :: 0 <= i < |indent| ==> indent[i] == line[i];
    var e := EnterEdit(text, anchor, caret);
    NewLineAfter(text, e.start, e.end, indent);
  }

  /** Replacing `[start, end)` by a newline and a piece without newlines
      leaves the caret after the piece on a line that holds just it. */
  lemma NewLineAfter(text: string, start: nat, end: nat, piece: string)
    requires start <= end <= |text|
    requires forall i :: 0 <= i < |piece| ==> piece[i] != '\n'
    ensures var t, c := ApplyEdit(text, Edit(start, end, "\n" + piece)), start + 1 + |piece|;
      && c <= |t| && LineStart(t, c) == start + 1 && t[start + 1..c] == piece
  {
    var t, c := ApplyEdit(text, Edit(start, end, "\n" + piece)), start + 1 + |piece|;
    assert t[start] == '\n';
    forall i | start + 1 <= i < c
      ensures t[i] != '\n'
    {
      assert t[i] == piece[i - start - 1];
    }
    LineStartAt(t, c, start + 1);
    assert t[start + 1..c] == piece;
  }

  /** Enter on a line holding only indentation and a marker leaves that line
      empty and keeps everything around it. */
  lemma EnterClearsMarkerLine(text: string, anchor: nat, caret: nat)
    requires anchor <= |text| && caret <= |text|
    requires AutoIndent(CurrentLine(text, caret)).Some? && AutoIndent(CurrentLine(text, caret)).value.1 == []
    ensures var e := EnterEdit(text, anchor, caret);
      var t := ApplyEdit(text, e);
      && e.start <= |t|
      && CurrentLine(t, e.start) == []
      && t[..e.start] == text[..e.start]
      && t[e.start + 1..] == text[e.end..]
  {
    var e := EnterEdit(text, anchor, caret);
    var t := ApplyEdit(text, e);
    LineStartAt(t, e.start, e.start);
    LineEndAt(t, e.start, e.start);
  }

  /**
   * `enterPressed` as written selects `[caret - |line|, caret)` before
   * emptying a marker-only line, which is the line only when the caret is
   * at its end; from anywhere else on the line the range reaches back over
   * the line's start.
   */
  function EnterEditAsWritten(text: string, anchor: nat, caret: nat): (r: (int, int, string))
    requires anchor <= |text| && caret <= |text|
    ensures var line := CurrentLine(text, caret);
      AutoIndent(line).Some? && AutoIndent(line).value.1 == [] ==>
        && r.1 == caret && r.2 == "\n" && r.1 - r.0 == |line|
        && r.0 <= LineStart(text, caret)
        && (r.0 == LineStart(text, caret) <==> caret == LineEnd(text, caret))
    ensures var line, e := CurrentLine(text, caret), EnterEdit(text, anchor, caret);
      !(AutoIndent(line).Some? && AutoIndent(line).value.1 == []) ==>
        r.0 == e.start && r.1 == e.end && r.2 == e.insert
  {
    var line := CurrentLine(text, caret);
    var e := EnterEdit(text, anchor, caret);
    if AutoIndent(line).Some? && AutoIndent(line).value.1 == [] then (caret - |line|, caret as int, "\n")
    else (e.start as int, e.end as int, e.insert)
  }

  /** With the caret at the end of its line, the written range is the
      corrected one. */
  lemma EnterAsWrittenAtLineEnd(text: string, anchor: nat, caret: nat)
    requires anchor <= |text| && caret <= |text| && caret == LineEnd(text, caret)
    ensures var w, e := EnterEditAsWritten(text, anchor, caret), EnterEdit(text, anchor, caret);
      w.0 == e.start && w.1 == e.end && w.2 == e.insert
  {
  }

  /** With the caret between the marker and its space, the written range
      reaches back over the previous line's newline: `ab\n- ` becomes
      `ab\n ` instead of `ab\n\n`. */
  lemma EnterAsWrittenMidLine()
    ensures var text := "ab\n- ";
      var w := EnterEditAsWritten(text, 4, 4);
      && w == (2, 4, "\n")
      && text[..2] + "\n" + text[4..] == "ab\n "
      && ApplyEdit(text, EnterEdit(text, 4, 4)) == "ab\n\n"
  {
    var text := "ab\n- ";
    LineStartAt(text, 4, 3);
    LineEndAt(text, 4, 5);
    assert CurrentLine(text, 4) == "- ";
    assert SpaceRun("- ", 2) == 0 && SpaceRun("- ", 1) == 1 && SpaceRun("- ", 0) == 0;
    assert BulletEnd("- ", 0) == Some(2);
    assert "- "[..2] == "- " && "- "[2..] == "";
    assert AutoIndent("- ") == Some(("- ", ""));
  }
}
