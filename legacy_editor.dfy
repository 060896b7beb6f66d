/**
 * The Markdown editor pane of the earlier editor (markdownwriterfx) that the
 * project grew from: wrapping the selection in markup. Unlike the current
 * pane, the markup is inserted as it is given.
 */
module LegacyMarkdownEditorPane {
  import opened JavaString
  import opened TextArea
  import opened MarkdownEditorPane

  /** The text with `[start, end)` put between `leading` and `trailing`. */
  function Wrapped(text: string, start: nat, end: nat, leading: string, trailing: string): string
    requires start <= end <= |text|
  {
    text[..start] + (leading + text[start..end] + trailing) + text[end..]
  }

  /** `surroundSelection(leading, trailing)`: the trimmed selection is
      wrapped, and the new selection is what it held. */
  method SurroundSelection(area: TextArea, leading: string, trailing: string)
    requires area.Valid()
    modifies area
    ensures area.Valid()
    ensures var r := TrimmedRange(old(area.text), old(area.SelStart()), old(area.SelEnd()));
      && area.text == Wrapped(old(area.text), r.0, r.1, leading, trailing)
      && area.anchor == r.0 + |leading| && area.caret == r.1 + |leading|
  {
    var start, end, trimmedSelectedText := TrimSelection(area.text, area.SelStart(), area.SelEnd());
    area.ReplaceText(start, end, leading + trimmedSelectedText + trailing);
    area.SelectRange(start + |leading|, end + |leading|);
  }

  /** Wrapping adds exactly the markup: nothing of the text is dropped. */
  lemma WrappedLength(text: string, start: nat, end: nat, leading: string, trailing: string)
    requires start <= end <= |text|
    ensures |Wrapped(text, start, end, leading, trailing)| == |text| + |leading| + |trailing|
  {
    assert |text[..start]| + |text[start..end]| + |text[end..]| == |text|;
  }

  /**
   * The wrapped text is the text before the range, `leading`, the range,
   * `trailing` and the text after it, and the range sits between the two
   * markups at offsets shifted by `leading`.
   */
  lemma WrappedParts(text: string, start: nat, end: nat, leading: string, trailing: string)
    requires start <= end <= |text|
    ensures var t, a, c := Wrapped(text, start, end, leading, trailing), start + |leading|, end + |leading|;
      && c + |trailing| <= |t|
      && t[..start] == text[..start]
      && t[start..a] == leading
      && t[a..c] == text[start..end]
      && t[c..c + |trailing|] == trailing
      && t[c + |trailing|..] == text[end..]
  {
    var p, m, s := text[..start], text[start..end], text[end..];
    assert |p| == start && |p| + |m| == end;
    Parts(p, leading, m, trailing, s);
  }

  /** Where the five parts of `p + (l + m + t) + s` lie. */
  lemma Parts(p: string, l: string, m: string, t: string, s: string)
    ensures var w := p + (l + m + t) + s;
      var a, c := |p| + |l|, |p| + |l| + |m|;
      && w[..|p|] == p && w[|p|..a] == l && w[a..c] == m
      && w[c..c + |t|] == t && w[c + |t|..] == s
  {
    var x := l + m + t;
    Three(p, x, s);
    Three(l, m, t);
    var w := p + x + s;
    assert w[|p|..|p| + |x|] == x;
    SliceOfSlice(w, |p|, |p| + |x|, 0, |l|);
    SliceOfSlice(w, |p|, |p| + |x|, |l|, |l| + |m|);
    SliceOfSlice(w, |p|, |p| + |x|, |l| + |m|, |x|);
  }

  /** Where the three parts of `a + b + c` lie. */
  lemma Three(a: string, b: string, c: string)
    ensures var w := a + b + c;
      w[..|a|] == a && w[|a|..|a| + |b|] == b && w[|a| + |b|..] == c
  {
    var w := a + b + c;
    assert w[..|a|] == a;
    assert w[|a|..|a| + |b|] == b;
    assert w[|a| + |b|..] == c;
  }

  /** After wrapping the selection `[s0, e0)` at its trimmed range
      `[start, end)`, the new selection holds exactly what `String.trim`
      keeps of it. */
  lemma WrappedSelection(text: string, s0: nat, e0: nat, start: nat, end: nat, leading: string, trailing: string)
    requires s0 <= e0 <= |text|
    requires start == TrimmedRange(text, s0, e0).0 && end == TrimmedRange(text, s0, e0).1
    ensures end + |leading| <= |Wrapped(text, start, end, leading, trailing)|
    ensures Wrapped(text, start, end, leading, trailing)[start + |leading|..end + |leading|] == Trim(text[s0..e0])
  {
    TrimmedRangeContent(text, s0, e0);
    var middle := text[start..end];
    assert middle == Trim(text[s0..e0]);
    WrappedMiddle(text, start, end, leading, trailing);
  }

  /** The wrapped range sits right after `leading`. */
  lemma WrappedMiddle(text: string, start: nat, end: nat, leading: string, trailing: string)
    requires start <= end <= |text|
    ensures var t := Wrapped(text, start, end, leading, trailing);
      end + |leading| <= |t| && t[start + |leading|..end + |leading|] == text[start..end]
  {
    WrappedParts(text, start, end, leading, trailing);
  }

  /** An empty or blank selection gets both markups at its start, with
      nothing between them, and its whitespace stays after them. */
  lemma BlankSelection(text: string, s0: nat, e0: nat, leading: string, trailing: string)
    requires s0 <= e0 <= |text|
    requires forall i :: s0 <= i < e0 ==> IsTrimmable(text[i])
    ensures TrimmedRange(text, s0, e0).0 == s0 && TrimmedRange(text, s0, e0).1 == s0
    ensures Wrapped(text, s0, s0, leading, trailing) == text[..s0] + (leading + trailing) + text[s0..]
  {
    var sel := text[s0..e0];
    assert forall i :: 0 <= i < |sel| ==> IsTrimmable(sel[i]);
    BlankContentStart(sel);
    assert text[s0..s0] == [];
    assert leading + [] + trailing == leading + trailing;
  }

  lemma BlankContentStart(sel: string)
    requires forall i :: 0 <= i < |sel| ==> IsTrimmable(sel[i])
    ensures Trim(sel) == [] && ContentStart(sel) == 0
  {
  }
}
