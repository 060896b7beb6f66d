/**
 * The editor tab of one file: which file it shows, and the find-next search
 * over its editor's text.
 */
module FileEditorTab {
  import opened Wrappers
  import opened JavaString
  import opened TextArea

  /** A file-system path, compared as its text. */
  type Path = string

  /**
   * Where `searchNext` selects: the first occurrence of `needle` at or after
   * the caret, or, when there is none, the first occurrence in the text.
   */
  function SearchHit(text: string, needle: string, caret: nat): (r: Option<nat>)
    requires caret <= |text|
    ensures r.Some? ==> OccursAt(text, needle, r.value)
    ensures (exists j :: caret <= j <= |text| && OccursAt(text, needle, j)) ==>
      r.Some? && caret <= r.value && forall j :: caret <= j < r.value ==> !OccursAt(text, needle, j)
    ensures (forall j :: caret <= j <= |text| ==> !OccursAt(text, needle, j)) && r.Some? ==>
      forall j :: 0 <= j < r.value ==> !OccursAt(text, needle, j)
    ensures r.None? <==> forall j :: 0 <= j <= |text| ==> !OccursAt(text, needle, j)
  {
    var found := IndexOf(text, needle, caret);
    var index := if found == -1 then IndexOf(text, needle, 0) else found;
    if index >= 0 then Some(index) else None
  }

  class FileEditorTab {
    /** `mPath`, never null once the tab is built. */
    var path: Path
    /** The editor of the tab's Markdown pane. */
    const editor: TextArea

    ghost predicate Valid()
      reads this, editor
    {
      editor.Valid()
    }

    /** A tab for `p`, its editor holding `initial`; the path goes through
        `setPath`, which demands one. */
    constructor (p: Path, initial: string)
      ensures Valid() && fresh(editor)
      ensures path == p && editor.text == initial
    {
      path := p;
      editor := new TextArea(initial);
    }

    /** `setPath(p)`: the tab now names `p`; the editor is not touched. */
    method SetPath(p: Path)
      modifies this
      ensures path == p
    {
      path := p;
    }

    /** `isPath(check)`: a null argument (`None`) matches no tab, and a
        path matches exactly when it equals the tab's. */
    function IsPath(check: Option<Path>): (r: bool)
      reads this
      ensures check.None? ==> !r
      ensures r <==> check.Some? && check.value == path
    {
      check == Some(path)
    }

    /**
     * `searchNext(needle)`: the occurrence `SearchHit` names becomes the
     * selection, from its start to its end with the caret at the end; with
     * no occurrence nothing changes.
     */
    method SearchNext(needle: string)
      requires Valid()
      modifies editor
      ensures Valid() && editor.text == old(editor.text)
      ensures var hit := SearchHit(old(editor.text), needle, old(editor.caret));
        && (hit.Some? ==> editor.anchor == hit.value && editor.caret == hit.value + |needle|)
        && (hit.None? ==> editor.anchor == old(editor.anchor) && editor.caret == old(editor.caret))
      ensures SearchHit(old(editor.text), needle, old(editor.caret)).Some? ==> editor.SelectedText() == needle
    {
      var haystack := editor.text;
      var index := IndexOf(haystack, needle, editor.caret);
      if index == -1 {
        index := IndexOf(haystack, needle, 0);
      }
      if index >= 0 {
        editor.MoveTo(index);
        editor.SelectRange(index, index + |needle|);
      }
    }
  }
}
