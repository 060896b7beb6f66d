/**
 * The editor widget (a RichTextFX `StyleClassedTextArea`) as far as the
 * editor panes use it: the document text, a selection anchor and a caret.
 * The selection is the range between anchor and caret, whichever comes
 * first.
 */
module TextArea {

  class TextArea {
    var text: string
    var anchor: nat
    var caret: nat

    ghost predicate Valid()
      reads this
    {
      anchor <= |text| && caret <= |text|
    }

    function SelStart(): nat
      reads this
    {
      if anchor <= caret then anchor else caret
    }

    function SelEnd(): nat
      reads this
    {
      if anchor <= caret then caret else anchor
    }

    /** `getSelectedText`. */
    function SelectedText(): string
      reads this
      requires Valid()
    {
      text[SelStart()..SelEnd()]
    }

    constructor (initial: string)
      ensures Valid() && text == initial && anchor == 0 && caret == 0
    {
      text, anchor, caret := initial, 0, 0;
    }

    /** `selectRange(anchor, caret)`: the text stays, the selection moves. */
    method SelectRange(a: nat, c: nat)
      requires Valid() && a <= |text| && c <= |text|
      modifies this
      ensures Valid() && text == old(text)
      ensures anchor == a && caret == c
    {
      anchor, caret := a, c;
    }

    /** `moveTo(offset)`: caret at `offset`, selection emptied. */
    method MoveTo(offset: nat)
      requires Valid() && offset <= |text|
      modifies this
      ensures Valid() && text == old(text)
      ensures anchor == offset && caret == offset
    {
      anchor, caret := offset, offset;
    }

    /**
     * `replaceText(start, end, s)`: `text[start..end]` becomes `s`; the caret
     * (and an empty selection) ends up after the inserted text.
     */
    method ReplaceText(start: nat, end: nat, s: string)
      requires Valid() && start <= end <= |text|
      modifies this
      ensures Valid()
      ensures text == old(text)[..start] + s + old(text)[end..]
      ensures anchor == start + |s| && caret == start + |s|
    {
      text := text[..start] + s + text[end..];
      anchor, caret := start + |s|, start + |s|;
    }

    /** `replaceSelection(s)`. */
    method ReplaceSelection(s: string)
      requires Valid()
      modifies this
      ensures Valid()
      ensures text == old(text)[..old(SelStart())] + s + old(text)[old(SelEnd())..]
      ensures anchor == old(SelStart()) + |s| && caret == anchor
    {
      ReplaceText(SelStart(), SelEnd(), s);
    }
  }

  /** Start of the paragraph (line) holding offset `pos`: just after the
      last newline before `pos`. */
  function LineStart(text: string, pos: nat): (r: nat)
    requires pos <= |text|
    ensures r <= pos
    ensures forall i :: r <= i < pos ==> text[i] != '\n'
    ensures r > 0 ==> text[r - 1] == '\n'
  {
    if pos == 0 || text[pos - 1] == '\n' then pos else LineStart(text, pos - 1)
  }

  /** End of the paragraph (line) holding offset `pos`: the next newline at
      or after `pos`, or the end of the text. */
  function LineEnd(text: string, pos: nat): (r: nat)
    requires pos <= |text|
    ensures pos <= r <= |text|
    ensures forall i :: pos <= i < r ==> text[i] != '\n'
    ensures r < |text| ==> text[r] == '\n'
    decreases |text| - pos
  {
    if pos == |text| || text[pos] == '\n' then pos else LineEnd(text, pos + 1)
  }

  /** The text of the paragraph holding the caret (without its newline). */
  function CurrentLine(text: string, pos: nat): (line: string)
    requires pos <= |text|
    ensures forall i :: 0 <= i < |line| ==> line[i] != '\n'
  {
    text[LineStart(text, pos)..LineEnd(text, pos)]
  }

  /** The line start is the one offset that has no newline between it and
      `pos` and follows a newline (or is 0). */
  lemma {:induction false} LineStartAt(text: string, pos: nat, r: nat)
    requires r <= pos <= |text|
    requires forall i :: r <= i < pos ==> text[i] != '\n'
    requires r == 0 || text[r - 1] == '\n'
    ensures LineStart(text, pos) == r
    decreases pos - r
  {
    if r < pos {
      LineStartAt(text, pos - 1, r);
    }
  }

  /** The line end is the one offset that has no newline between `pos` and
      it and is followed by a newline (or is the end). */
  lemma {:induction false} LineEndAt(text: string, pos: nat, r: nat)
    requires pos <= r <= |text|
    requires forall i :: pos <= i < r ==> text[i] != '\n'
    requires r == |text| || text[r] == '\n'
    ensures LineEnd(text, pos) == r
    decreases r - pos
  {
    if pos < r {
      LineEndAt(text, pos + 1, r);
    }
  }
}
