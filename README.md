# keenwrite text core in Dafny

This project models the text-handling core of keenwrite, a desktop Markdown
editor with live HTML preview and variable substitution. Each module follows
one source class:

- `AhoCorasickReplacer` (`replacer.dfy`) models variable substitution. The
  text between the matches that the multi-pattern matcher reports is copied
  verbatim, and each matched definition key is replaced by its value. The
  method `Replace` keeps the source's loop over the matches, with a
  `StringBuilder` and an `index` cursor. It is proved against the recursive
  specification `Stitch`.
- `YamlSigilOperator` (`sigils.dfy`) models the delimiters around definition
  keys: `entoken`, `detoken`, `apply`, and the lazy reference pattern
  `began .*? ended`, written as a matcher.
- `MarkdownEditorPane` (`markdown_editor.dfy`, with `markdown_patterns.dfy`
  for its two regular expressions) models three things:
  - the paragraph scan that maps an editor paragraph to a rendered block id;
  - `surroundSelection`, which wraps the selection in markup;
  - the auto-indentation on Enter.
- `HtmlPreviewPane` (`preview.dfy`) models four things:
  - the bounded backward and forward anchor search behind `scrollTo`;
  - the scroll-point clamp;
  - the reused document buffer that `decorate` truncates and refills;
  - the `HTML_PREFIX` it starts from.
- `FileEditorTab` (`file_editor_tab.dfy`) models find-next with wrap-around,
  and the path test.
- `LegacyMarkdownEditorPane` (`legacy_editor.dfy`) models `surroundSelection`
  of the earlier markdownwriterfx editor.

Two support modules model library behaviour:

- `JavaString` (`java_string.dfy`) covers `String.trim`, `indexOf`,
  `isBlank`, the regex classes `\s` and `.`, and the `ltrim` and `rtrim`
  helpers.
- `TextArea` (`text_area.dfy`) covers the RichTextFX text area: its text,
  selection anchor and caret, and `selectRange`, `moveTo`, `replaceText` and
  `replaceSelection`.

Stateful code is imperative Dafny:

- the text area, the file tab and the preview pane are classes;
- `replace`, `approximateParagraphId`, `findPrevBox`, `findNextBox` and the
  newline-merging loops of `surroundSelection` are `while` loops with
  invariants;
- each loop is proved equal to a specification function, and the lemmas state
  the promised properties of those functions.

The sigil operator and the regular expressions are pure functions.

The Enter key's behaviour on a line holding only a list marker differs from
the evident intent when the caret is not at the end of the line. See
"Findings". The model's `EnterPressed` uses the corrected rule.

The sigil round trip `detoken(entoken(k)) == k` is described as holding for
every key, but the code returns a token unchanged when it is no longer than
the two delimiters together. The model follows the code:

- `DetokenEntoken` proves the round trip for non-empty keys;
- `DetokenEntokenEmpty` shows that it fails for the empty key.

## Model

| member | source | states |
|---|---|---|
| AhoCorasickReplacer.Replace | src/main/java/com/keenwrite/processors/text/AhoCorasickReplacer.java:59-71 | The output is the gaps and the values, in order, then the rest of the text (`Stitch`). With no matches the output is the text. The length is the text's plus the sum of value lengths minus the sum of span lengths. |
| AhoCorasickReplacer.ResumeBounds | src/main/java/com/keenwrite/processors/text/AhoCorasickReplacer.java:59-65 | The copy cursor (`end + 1` of the previous match) never decreases, stays within the text and never passes the next match's start, so every gap slice is valid. |
| AhoCorasickReplacer.StitchSplit | src/main/java/com/keenwrite/processors/text/AhoCorasickReplacer.java:62-69 | The output is the output for the first i matches followed by the output from match i on, which resumes copying at one past the previous match's inclusive end. |
| AhoCorasickReplacer.PrefixLength | src/main/java/com/keenwrite/processors/text/AhoCorasickReplacer.java:62-66 | The buffer after i matches is as long as the text consumed so far plus what those matches added. |
| AhoCorasickReplacer.StitchLength | src/main/java/com/keenwrite/processors/text/AhoCorasickReplacer.java:62-69 | Output length = text length − Σ(end − start + 1) + Σ\|value\|. |
| AhoCorasickReplacer.StitchPlaces | src/main/java/com/keenwrite/processors/text/AhoCorasickReplacer.java:63-65 | Each match's value stands in the output at its shifted offset, right after the verbatim gap of text since the previous match's inclusive end. |
| AhoCorasickReplacer.StitchTail | src/main/java/com/keenwrite/processors/text/AhoCorasickReplacer.java:68-69 | The output ends with the text after the last match, verbatim. |
| AhoCorasickReplacer.FromRest | src/main/java/com/keenwrite/processors/text/AhoCorasickReplacer.java:62-65 | After the first match, the remaining matches lie after its inclusive end, and the output is gap, value, rest. |
| AhoCorasickReplacer.SubstitutionExample | src/main/java/com/keenwrite/processors/text/AhoCorasickReplacer.java:62-69 | A concrete substitution: `{{a.b}} end` with `{{a.b}}` ↦ `X` gives `X end`. |
| YamlSigilOperator.Apply | src/main/java/com/keenwrite/sigils/YamlSigilOperator.java:66-68 | `apply` returns the key unchanged. |
| YamlSigilOperator.Entoken | src/main/java/com/keenwrite/sigils/YamlSigilOperator.java:76-79 | The token starts with `began`, ends with `ended`, holds the key between them and is \|began\| + \|key\| + \|ended\| long. |
| YamlSigilOperator.Detoken | src/main/java/com/keenwrite/sigils/YamlSigilOperator.java:89-96 | A token no longer than both delimiters is returned as is. A longer one loses exactly \|began\| characters in front and \|ended\| at the back, whatever they are. |
| YamlSigilOperator.DetokenEntoken | src/main/java/com/keenwrite/sigils/YamlSigilOperator.java:76-96 | `detoken(entoken(k)) == k` for every non-empty key. |
| YamlSigilOperator.DetokenEntokenEmpty | src/main/java/com/keenwrite/sigils/YamlSigilOperator.java:93-95 | With non-empty delimiters, the empty key does not round-trip: `detoken` returns `began + ended`. |
| YamlSigilOperator.EntokenDetoken | src/main/java/com/keenwrite/sigils/YamlSigilOperator.java:82-94 | On a long enough token, `entoken(detoken(t)) == t` exactly when t starts with `began` and ends with `ended`; the delimiters are not checked. |
| YamlSigilOperator.LazyEnd | src/main/java/com/keenwrite/sigils/YamlSigilOperator.java:47-51 | A lazy match `.*?ended` from i ends within the text, at least \|ended\| past i. |
| YamlSigilOperator.LazyEndSome | src/main/java/com/keenwrite/sigils/YamlSigilOperator.java:47-51 | A lazy match ends with `ended`, and before that `ended` it crossed no line terminator and no earlier `ended`. |
| YamlSigilOperator.LazyEndNone | src/main/java/com/keenwrite/sigils/YamlSigilOperator.java:47-51 | When the lazy match fails, every later `ended` lies beyond a line terminator. |
| YamlSigilOperator.FindReference | src/main/java/com/keenwrite/sigils/YamlSigilOperator.java:47-56 | Finding the pattern from p gives the leftmost start at or after p where `began` and a lazy end match; with none, no position matches. |
| YamlSigilOperator.FindEntoken | src/main/java/com/keenwrite/sigils/YamlSigilOperator.java:47-51 | An entokened key within one line, in which `ended` does not begin, is found whole, from offset 0 to its end. |
| YamlSigilOperator.LazyEndFirst | src/main/java/com/keenwrite/sigils/YamlSigilOperator.java:47-51 | The lazy match ends at the first `ended`. |
| YamlSigilOperator.MatchEntoken | src/main/java/com/keenwrite/sigils/YamlSigilOperator.java:47-51 | Under the same conditions the pattern matches at offset 0 of the token and ends at the token's end. |
| MarkdownEditorPane.ApproximateParagraphId | src/main/java/com/keenwrite/editors/markdown/MarkdownEditorPane.java:120-165 | The loop computes `ParagraphId`: the scan `Fold` over paragraphs 0..paraIndex, then max(blocks − 1, 0). |
| MarkdownEditorPane.Step | src/main/java/com/keenwrite/editors/markdown/MarkdownEditorPane.java:134-160 | One paragraph adds at most one block (its quote-replaced text), and becomes the previous text. |
| MarkdownEditorPane.Inspected | src/main/java/com/keenwrite/editors/markdown/MarkdownEditorPane.java:129-132 | The paragraphs scanned are those with index ≤ paraIndex: none for a negative index. |
| MarkdownEditorPane.ReplaceQuotes | src/main/java/com/keenwrite/editors/markdown/MarkdownEditorPane.java:134 | Every `>` becomes a space, and every other character stays. |
| MarkdownEditorPane.ParagraphIdMonotone | src/main/java/com/keenwrite/editors/markdown/MarkdownEditorPane.java:129-164 | A larger paragraph index never gives a smaller id. |
| MarkdownEditorPane.ParagraphIdBound | src/main/java/com/keenwrite/editors/markdown/MarkdownEditorPane.java:129-164 | The id is at most max(paraIndex, 0): at most one block per paragraph, less one. |
| MarkdownEditorPane.FoldPrefix | src/main/java/com/keenwrite/editors/markdown/MarkdownEditorPane.java:129-161 | Scanning more paragraphs only appends blocks, at most one per paragraph. |
| MarkdownEditorPane.FoldAppend | src/main/java/com/keenwrite/editors/markdown/MarkdownEditorPane.java:129-161 | Scanning a concatenation is scanning one part, then the other. |
| MarkdownEditorPane.InsideFence | src/main/java/com/keenwrite/editors/markdown/MarkdownEditorPane.java:135-157 | Inside a fenced block nothing is counted, and the fence and code flags stay. |
| MarkdownEditorPane.FencedBlockCounts | src/main/java/com/keenwrite/editors/markdown/MarkdownEditorPane.java:135-157 | A fenced block outside code adds its opening line as a block. Its closing line adds a second one exactly when the line before it is blank, so a fence is not always one block. |
| MarkdownEditorPane.FenceLine | src/main/java/com/keenwrite/editors/markdown/MarkdownEditorPane.java:135-155 | A fence line is not blank, not indented and not a block-start marker. |
| MarkdownEditorPane.IndentedRunCountsOnce | src/main/java/com/keenwrite/editors/markdown/MarkdownEditorPane.java:141-151 | A run of four-space-indented lines outside a fence counts once, for its first line, and none when already in code. |
| MarkdownEditorPane.ScanParagraph | src/main/java/com/keenwrite/editors/markdown/MarkdownEditorPane.java:134-160 | One pass of the loop body moves the scan state exactly as `Step` does on that paragraph. |
| MarkdownEditorPane.BlockStartCounted | src/main/java/com/keenwrite/editors/markdown/MarkdownEditorPane.java:141-157 | Outside a fence, a line that is neither a fence nor indented ends any code block. It is counted exactly when it is non-blank after a blank line or matches the block-start pattern. |
| MarkdownEditorPane.QuoteNeverMatches | src/main/java/com/keenwrite/editors/markdown/MarkdownEditorPane.java:70-71 | After quotes are replaced, the `^>` alternative never applies; a paragraph matches only as a heading or list item with text. |
| MarkdownPatterns.MatchesNewLine | src/main/java/com/keenwrite/editors/markdown/MarkdownEditorPane.java:70-71 | `PATTERN_NEW_LINE.matcher(text).matches()`: `>` matches; any other matching line starts with a marker, then whitespace, then at least one more character. |
| MarkdownPatterns.MatchesNewLineIsRegex | src/main/java/com/keenwrite/editors/markdown/MarkdownEditorPane.java:70-71 | The greedy matcher accepts exactly the lines `^>\|(((#+)\|([*+\-])\|([1-9]\.))\s+).+` matches whole. |
| MarkdownPatterns.MarkerLength | src/main/java/com/keenwrite/editors/markdown/MarkdownEditorPane.java:71 | The marker the matcher takes is a run of `#`, a bullet, or a digit 1–9 and a period. |
| MarkdownPatterns.MarkerLengthOfSplit | src/main/java/com/keenwrite/editors/markdown/MarkdownEditorPane.java:71 | Any marker followed by a space is the one the matcher takes. |
| MarkdownPatterns.AutoIndent | src/main/java/com/keenwrite/editors/markdown/MarkdownEditorPane.java:63-64 | On a match, the two groups concatenate to the line. The first group is spaces, a bullet and spaces, or spaces, digits, a period and spaces, or only spaces. The second does not start with a space. |
| MarkdownPatterns.FirstGroupEnd | src/main/java/com/keenwrite/editors/markdown/MarkdownEditorPane.java:63-64 | The three alternatives are tried in order, and where the first group ends is a legal cut of the pattern. |
| MarkdownPatterns.BulletEnd | src/main/java/com/keenwrite/editors/markdown/MarkdownEditorPane.java:64 | The bullet alternative's match is a legal cut, and no space follows it. |
| MarkdownPatterns.NumberEnd | src/main/java/com/keenwrite/editors/markdown/MarkdownEditorPane.java:64 | The numbered alternative's match is a legal cut, and no space follows it. |
| MarkdownPatterns.SpaceEnd | src/main/java/com/keenwrite/editors/markdown/MarkdownEditorPane.java:64 | The `\s+` alternative's match is a legal cut, and no space follows it. |
| MarkdownPatterns.AutoIndentComplete | src/main/java/com/keenwrite/editors/markdown/MarkdownEditorPane.java:63-64 | Whenever the pattern can match a line at all, `matches()` succeeds. |
| MarkdownPatterns.BulletItemIndent | src/main/java/com/keenwrite/editors/markdown/MarkdownEditorPane.java:63-64 | A bullet line splits into exactly its indentation, bullet and spacing, and its content. |
| MarkdownPatterns.SpaceRunCovers | src/main/java/com/keenwrite/editors/markdown/MarkdownEditorPane.java:64 | The greedy `\s*` takes a whole run of spaces. |
| MarkdownEditorPane.SurroundSelection | src/main/java/com/keenwrite/editors/markdown/MarkdownEditorPane.java:194-274 | The text becomes text[..start] + leading′ + body + trailing′ + text[end..] for the trimmed range. The new selection starts after leading′ and spans the body. |
| MarkdownEditorPane.TrimSelection | src/main/java/com/keenwrite/editors/markdown/MarkdownEditorPane.java:204-210 | `indexOf` of the trimmed text shrinks the selection to `TrimmedRange`, which holds exactly `trim` of it. |
| MarkdownEditorPane.MarkupAround | src/main/java/com/keenwrite/editors/markdown/MarkdownEditorPane.java:212-257 | The ltrim at offset 0, rtrim at the text end and both newline loops compute `Markup`. |
| MarkdownEditorPane.MergeLeading | src/main/java/com/keenwrite/editors/markdown/MarkdownEditorPane.java:225-233 | The loop drops one leading newline of `leading` per newline right before the start (`MergeBefore`). |
| MarkdownEditorPane.MergeTrailing | src/main/java/com/keenwrite/editors/markdown/MarkdownEditorPane.java:240-250 | The loop drops one trailing newline per newline right after the end (`MergeAfter`). |
| MarkdownEditorPane.MergeBefore | src/main/java/com/keenwrite/editors/markdown/MarkdownEditorPane.java:225-233 | Only leading newlines are dropped. The text's and the markup's newlines merge into one run as long as the longer. It is unchanged when either has none. |
| MarkdownEditorPane.MergeAfter | src/main/java/com/keenwrite/editors/markdown/MarkdownEditorPane.java:237-257 | Only trailing newlines are dropped, merging with the text's newlines after the end into one run as long as the longer. |
| MarkdownEditorPane.TrimmedRangeContent | src/main/java/com/keenwrite/editors/markdown/MarkdownEditorPane.java:206-210 | The trimmed range holds exactly `selectedText.trim()`. |
| MarkdownEditorPane.TrimmedRangeMargins | src/main/java/com/keenwrite/editors/markdown/MarkdownEditorPane.java:206-210 | Only characters ≤ space lie between the trimmed range and the selection ends. |
| MarkdownEditorPane.ContentStartFound | src/main/java/com/keenwrite/editors/markdown/MarkdownEditorPane.java:208 | `indexOf(trimmed)` finds the trimmed text where its content starts, also when it is empty. |
| MarkdownEditorPane.SurroundingBody | src/main/java/com/keenwrite/editors/markdown/MarkdownEditorPane.java:206-266 | The replaced range holds the trimmed selection, and the body is it or, when it is empty and a hint is given, the hint. |
| MarkdownEditorPane.SurroundingEdges | src/main/java/com/keenwrite/editors/markdown/MarkdownEditorPane.java:212-221 | When the trimmed range starts at offset 0, the leading markup does not start with whitespace; when it ends at the text end, the trailing markup does not end with whitespace. |
| MarkdownEditorPane.Markup | src/main/java/com/keenwrite/editors/markdown/MarkdownEditorPane.java:212-257 | At offset 0 the leading markup does not start with whitespace, and at the text end the trailing markup does not end with whitespace. |
| MarkdownEditorPane.SurroundPlain | src/main/java/com/keenwrite/editors/markdown/MarkdownEditorPane.java:194-274 | A selection with no outer whitespace, away from the text ends, is wrapped as it is when `leading` starts with no newline and the markup merged at the back (`trailing`, or `leading` when `trailing` is empty) ends with none. |
| MarkdownEditorPane.SurroundHint | src/main/java/com/keenwrite/editors/markdown/MarkdownEditorPane.java:259-266 | An empty selection inside a line receives the hint between the markups. |
| MarkdownEditorPane.EnterPressed | src/main/java/com/keenwrite/editors/markdown/MarkdownEditorPane.java:276-299 | The text changes by `EnterEdit`, and the caret ends after the inserted text. |
| MarkdownEditorPane.EnterEdit | src/main/java/com/keenwrite/editors/markdown/MarkdownEditorPane.java:280-299 | It inserts "\n" + indentation and marker when the line has content after them. A marker-only line is replaced by "\n". Otherwise a bare "\n" replaces the selection. |
| MarkdownEditorPane.EnterEditAsWritten | src/main/java/com/keenwrite/editors/markdown/MarkdownEditorPane.java:290-295 | The code as written: on a marker-only line the range ends at the caret and is as long as the line, so it starts at or before the line start, and at the line start exactly when the caret is at the line end; every other line gets `EnterEdit`'s range and text. |
| MarkdownEditorPane.EnterIndentsNewLine | src/main/java/com/keenwrite/editors/markdown/MarkdownEditorPane.java:284-289 | After Enter on a list line with content, the caret stands on a new line that starts with exactly the old line's indentation and marker. |
| MarkdownEditorPane.EnterClearsMarkerLine | src/main/java/com/keenwrite/editors/markdown/MarkdownEditorPane.java:290-299 | Enter on a marker-only line leaves that line empty and everything around it unchanged. |
| MarkdownEditorPane.EnterAsWrittenAtLineEnd | src/main/java/com/keenwrite/editors/markdown/MarkdownEditorPane.java:290-299 | The code's range `[caret − \|line\|, caret)` and its replacement agree with the corrected edit when the caret is at the end of its line. |
| MarkdownEditorPane.EnterAsWrittenMidLine | src/main/java/com/keenwrite/editors/markdown/MarkdownEditorPane.java:293-295 | For `ab\n- ` with the caret before the space, the code removes the previous newline and the marker, giving `ab\n `; the corrected edit gives `ab\n\n`. |
| JavaString.IndexOf | src/main/java/com/keenwrite/FileEditorTab.java:177-182 | `indexOf(needle, from)`: the first occurrence at or after from, or −1 exactly when there is none. |
| JavaString.Trim | src/main/java/com/keenwrite/editors/markdown/MarkdownEditorPane.java:206 | `trim` drops the characters ≤ space at both ends: the result is a slice of s after its leading margin, and is empty only for an all-trimmable s. |
| JavaString.IndexOfTrimmed | src/main/java/com/keenwrite/editors/markdown/MarkdownEditorPane.java:206-208 | The trimmed text is first found where the leading margin ends. |
| JavaString.LeftTrim | src/main/java/com/keenwrite/editors/markdown/MarkdownEditorPane.java:213-215 | `ltrim` removes exactly the leading whitespace. |
| JavaString.RightTrim | src/main/java/com/keenwrite/editors/markdown/MarkdownEditorPane.java:219-221 | `rtrim` removes exactly the trailing whitespace. |
| TextArea.TextArea.SelectRange | src/main/java/com/keenwrite/editors/markdown/MarkdownEditorPane.java:273 | The text stays; anchor and caret move to the given offsets. |
| TextArea.TextArea.MoveTo | src/main/java/com/keenwrite/FileEditorTab.java:213-216 | The text stays; the caret moves and the selection empties. |
| TextArea.TextArea.ReplaceText | src/main/java/com/keenwrite/editors/markdown/MarkdownEditorPane.java:272 | text[start..end] becomes s, and the caret ends after s. |
| TextArea.TextArea.ReplaceSelection | src/main/java/com/keenwrite/editors/markdown/MarkdownEditorPane.java:299 | The selected range becomes s, and the caret ends after s. |
| TextArea.CurrentLine | src/main/java/com/keenwrite/editors/markdown/MarkdownEditorPane.java:278-279 | The caret's paragraph, without newlines, between `LineStart` and `LineEnd`. |
| TextArea.LineStart | src/main/java/com/keenwrite/editors/markdown/MarkdownEditorPane.java:278-279 | The paragraph starts right after the last newline before the offset, or at 0. |
| TextArea.LineEnd | src/main/java/com/keenwrite/editors/markdown/MarkdownEditorPane.java:278-279 | The paragraph ends at the next newline at or after the offset, or at the text end. |
| HtmlPreviewPane.BoxById | src/main/java/com/keenwrite/preview/HTMLPreviewPane.java:338-340 | A box is found exactly for the ids that have an anchor. |
| HtmlPreviewPane.PrevAnchor | src/main/java/com/keenwrite/preview/HTMLPreviewPane.java:295-304 | The backward search finds the largest anchored id in [1, id], or reports that none is there. |
| HtmlPreviewPane.FirstIn | src/main/java/com/keenwrite/preview/HTMLPreviewPane.java:306-316 | The smallest anchored id in [lo, hi), or none there. |
| HtmlPreviewPane.FindPrevBox | src/main/java/com/keenwrite/preview/HTMLPreviewPane.java:295-304 | The loop returns `PrevAnchor`, and every id it looks up lies in [1, id]. |
| HtmlPreviewPane.FindNextBox | src/main/java/com/keenwrite/preview/HTMLPreviewPane.java:306-316 | The loop returns the smallest anchored id among id … id+4, and looks up only those. |
| HtmlPreviewPane.Target | src/main/java/com/keenwrite/preview/HTMLPreviewPane.java:278-293 | It scrolls to the top exactly for ids below 2, and an anchor target is present. |
| HtmlPreviewPane.ScrollTo | src/main/java/com/keenwrite/preview/HTMLPreviewPane.java:278-293 | The dispatch (top, backward search, then forward search from id + 1, then bottom) computes `Target`. |
| HtmlPreviewPane.TargetAnchor | src/main/java/com/keenwrite/preview/HTMLPreviewPane.java:283-291 | An anchor target lies in [1, id + 5]. It is the nearest one at or before id, or, when there is none, the first after it. |
| HtmlPreviewPane.TargetBottom | src/main/java/com/keenwrite/preview/HTMLPreviewPane.java:283-288 | From id 2 on, the pane scrolls to the bottom exactly when no id in [1, id + 5] has an anchor. |
| HtmlPreviewPane.Half | src/main/java/com/keenwrite/preview/HTMLPreviewPane.java:394 | Java's `h / 2`, rounding toward zero. |
| HtmlPreviewPane.ClampedY | src/main/java/com/keenwrite/preview/HTMLPreviewPane.java:393-395 | y = max(absY − barHeight / 2, 0), never negative. |
| HtmlPreviewPane.CreatePoint | src/main/java/com/keenwrite/preview/HTMLPreviewPane.java:385-404 | An inline box keeps the clamped position; a block box is moved by its left and top margins. |
| HtmlPreviewPane.HtmlPreviewPane.constructor | src/main/java/com/keenwrite/preview/HTMLPreviewPane.java:194 | The buffer starts out holding `HTML_PREFIX`. |
| HtmlPreviewPane.HtmlPreviewPane.Decorate | src/main/java/com/keenwrite/preview/HTMLPreviewPane.java:342-348 | The result and the buffer are exactly `HTML_PREFIX + html`, whatever an earlier call appended. |
| FileEditorTab.SearchHit | src/main/java/com/keenwrite/FileEditorTab.java:175-184 | The first occurrence at or after the caret, or else the first in the text, or none exactly when the needle does not occur. |
| FileEditorTab.FileEditorTab.SearchNext | src/main/java/com/keenwrite/FileEditorTab.java:175-188 | The text is unchanged. On a hit the selection is [hit, hit + \|needle\|) and holds the needle; with no hit, caret and selection stay. |
| FileEditorTab.FileEditorTab.SetPath | src/main/java/com/keenwrite/FileEditorTab.java:380-385 | The tab names the given path, which cannot be missing. |
| FileEditorTab.FileEditorTab.IsPath | src/main/java/com/keenwrite/FileEditorTab.java:233-237 | True exactly when the argument is present and equals the tab's path; a null argument matches nothing. |
| FileEditorTab.FileEditorTab.constructor | src/main/java/com/keenwrite/FileEditorTab.java:85-86 | The tab holds the given path, which cannot be missing (`setPath` asserts it is not null), and its editor holds the initial text. |
| LegacyMarkdownEditorPane.SurroundSelection | src/main/java/org/markdownwriterfx/editor/MarkdownEditorPane.java:128-147 | The trimmed range is wrapped in leading and trailing as given. The new selection is [start + \|leading\|, end + \|leading\|). |
| LegacyMarkdownEditorPane.WrappedLength | src/main/java/org/markdownwriterfx/editor/MarkdownEditorPane.java:141-145 | The text grows by exactly \|leading\| + \|trailing\|: trimmed whitespace is kept. |
| LegacyMarkdownEditorPane.WrappedParts | src/main/java/org/markdownwriterfx/editor/MarkdownEditorPane.java:145-146 | The new text is the text before the range, leading, the range, trailing, and the text after, each at its place. |
| LegacyMarkdownEditorPane.WrappedSelection | src/main/java/org/markdownwriterfx/editor/MarkdownEditorPane.java:139-146 | The new selection holds exactly the trimmed selected text. |
| LegacyMarkdownEditorPane.BlankSelection | src/main/java/org/markdownwriterfx/editor/MarkdownEditorPane.java:139-146 | An empty or all-whitespace selection gets leading + trailing at its start, with an empty selection between them. |

## Left out

- The Aho-Corasick trie and its overlap resolution are left out, because the library is not part of this model. Its reported matches are the input `emits`. The model assumes, as a precondition, that they are sorted, non-overlapping, within the text, of registered keys and whole-word (`ValidEmits`). Which of two overlapping keys wins is not modelled.
- What a word character is for the whole-word check is also library-defined. It is a parameter.
- `keys(map)` is not part of this model. Every reported keyword is taken to be a key of the map, so no `null` value is appended.
- The `StringBuilder` capacity `text.length() * 1.25` is left out: it is floating point and affects no output.
- The delimiters come from the user preferences, which are not part of this model. They are the fixed parameter `Sigils`.
- JavaString.LeftTrim, JavaString.RightTrim: `Utils.ltrim`/`rtrim` are not part of this model. They are assumed to strip the characters `Character.isWhitespace` accepts.
- `PARAGRAPH_ID_PREFIX` is left out: an anchor is named by its paragraph number.
- `getBoxById` is left out: the rendered document is the set of ids that have an anchor.
- Box geometry is given as parameters: the absolute position, inline style, margins and scroll-bar height.
- HtmlPreviewPane.CreatePoint: the margins are taken as integers. Adding float margins to the `int` coordinates, which truncates, is not modelled.
- Scrolling itself is left out: `scrollToTop`, `scrollToBottom` with the renderer height, `scrollTo(Point)`, `invokeLater` and `requestFollowCaret`.
- The editor paragraphs are a `seq<string>`. `getParagraphs` is not modelled.
- Strings are sequences of Unicode code points, not of UTF-16 code units. Java's `length()`, `indexOf`, `substring`, caret and selection offsets, emit offsets and `detoken`'s length test count UTF-16 units, so they differ from the model's after any character outside the Basic Multilingual Plane. A lone surrogate cannot be represented.
- Java `int` overflow of offsets, ids and lengths is not modelled: all integers are unbounded.
- File reading and saving, encoding detection, permissions, tab UI, listeners, the undo manager (`preventMerge`), threading, Markdown parsing, syntax highlighting and link lookup are left out. They are I/O, UI or foreign library code.
- FileEditorTab.FileEditorTab.constructor: the listeners it registers, and the tab title refresh (`updateTab`) that `setPath` triggers, are left out.
- `getCurrentParagraph` is modelled as the line holding the caret.
- TextArea: RichTextFX's own undo history and styling are left out.
- MarkdownEditorPane.EnterPressed: models the corrected selection of a marker-only line (see Findings). The code as written is `EnterEditAsWritten`, related to it by `EnterAsWrittenAtLineEnd` and `EnterAsWrittenMidLine`.

## Findings

| source | as written | input that shows it | evidently intended | confidence | as-written member | corrected member |
|---|---|---|---|---|---|---|
| src/main/java/com/keenwrite/editors/markdown/MarkdownEditorPane.java:293-295 | On a line holding only indentation and a list marker, Enter selects `[caret − \|line\|, caret)` and replaces it by "\n". That range is the current line only when the caret is at the line's end. | Text `ab\n- `, caret at 4, between `-` and the space. The range is [2, 4): the previous newline and the `-`. The result is `ab\n `. | Empty the current line: select from its start to its end. The result is `ab\n\n`. | not executed | MarkdownEditorPane.EnterAsWrittenMidLine | MarkdownEditorPane.EnterClearsMarkerLine |
