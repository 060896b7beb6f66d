/**
 * The HTML preview pane: finding the rendered block to scroll to for an
 * editor paragraph, the scroll position for a block, and the reused document
 * buffer that every rendering starts from.
 *
 * The rendered document is abstracted as the set of paragraph ids that have
 * an anchor in it (`getBoxById` of the prefixed id is not null exactly for
 * these); a box is named by its id.
 */
module HtmlPreviewPane {
  import opened Wrappers

  /** Where `scrollTo(id)` goes: the top, the bottom, or the box of the
      paragraph anchor `id`. */
  datatype ScrollTarget = Top | Bottom | Anchor(id: int)

  /** `getBoxById(PARAGRAPH_ID_PREFIX + id)`. */
  function BoxById(present: set<int>, id: int): (box: Option<int>)
    ensures box.Some? <==> id in present
    ensures box.Some? ==> box.value == id
  {
    if id in present then Some(id) else None
  }

  /** The anchor the backward search finds: the largest present id in
      `[1, id]`. */
  function PrevAnchor(present: set<int>, id: int): (r: Option<int>)
    ensures r.Some? ==> 1 <= r.value <= id && r.value in present
    ensures r.Some? ==> forall k :: r.value < k <= id ==> k !in present
    ensures r.None? ==> forall k :: 1 <= k <= id ==> k !in present
    decreases id
  {
    if id <= 0 then None
    else if id in present then Some(id)
    else PrevAnchor(present, id - 1)
  }

  /** The smallest present id in `[lo, hi)`. */
  function FirstIn(present: set<int>, lo: int, hi: int): (r: Option<int>)
    ensures r.Some? ==> lo <= r.value < hi && r.value in present
    ensures r.Some? ==> forall k :: lo <= k < r.value ==> k !in present
    ensures r.None? ==> forall k :: lo <= k < hi ==> k !in present
    decreases hi - lo
  {
    if lo >= hi then None
    else if lo in present then Some(lo)
    else FirstIn(present, lo + 1, hi)
  }

  /** How many ids the forward search looks at. */
  const NextWindow := 5

  /** The anchor the forward search from `id` finds: the smallest present id
      among `id` and the four after it. */
  function NextAnchor(present: set<int>, id: int): Option<int> {
    FirstIn(present, id, id + NextWindow)
  }

  /** `findPrevBox(id)`; `queried` holds the ids it looked up. */
  method FindPrevBox(present: set<int>, id: int) returns (box: Option<int>, ghost queried: set<int>)
    ensures box == PrevAnchor(present, id)
    ensures forall q :: q in queried ==> 1 <= q <= id
  {
    var prevId := id;
    box := None;
    queried := {};
    while prevId > 0
      invariant prevId <= id
      invariant PrevAnchor(present, prevId) == PrevAnchor(present, id)
      invariant box.None?
      invariant forall q :: q in queried ==> 1 <= q && prevId < q <= id
    {
      box := BoxById(present, prevId);
      queried := queried + {prevId};
      if box.Some? {
        break;
      }
      prevId := prevId - 1;
    }
  }

  /** `findNextBox(id)`; `queried` holds the ids it looked up. */
  method FindNextBox(present: set<int>, id: int) returns (box: Option<int>, ghost queried: set<int>)
    ensures box == NextAnchor(present, id)
    ensures forall q :: q in queried ==> id <= q < id + NextWindow
  {
    var nextId := id;
    box := None;
    queried := {};
    while nextId - id < NextWindow
      invariant id <= nextId <= id + NextWindow
      invariant FirstIn(present, nextId, id + NextWindow) == NextAnchor(present, id)
      invariant box.None?
      invariant forall q :: q in queried ==> id <= q < nextId
      decreases id + NextWindow - nextId
    {
      box := BoxById(present, nextId);
      queried := queried + {nextId};
      if box.Some? {
        break;
      }
      nextId := nextId + 1;
    }
  }

  /**
   * Where `scrollTo(id)` goes: the top for ids below 2; otherwise the
   * nearest anchor at or before `id`, else the first of the five after it,
   * else the bottom.
   */
  function Target(present: set<int>, id: int): (r: ScrollTarget)
    ensures r == Top <==> id < 2
    ensures r.Anchor? ==> r.id in present
  {
    if id < 2 then Top
    else
      match PrevAnchor(present, id)
      case Some(k) => Anchor(k)
      case None =>
        match NextAnchor(present, id + 1)
        case Some(k) => Anchor(k)
        case None => Bottom
  }

  /** `scrollTo(int)`. */
  method ScrollTo(present: set<int>, id: int) returns (target: ScrollTarget)
    ensures target == Target(present, id)
  {
    if id < 2 {
      target := Top;
    } else {
      var box;
      ghost var queried;
      box, queried := FindPrevBox(present, id);
      if box.None? {
        box, queried := FindNextBox(present, id + 1);
      }
      if box.None? {
        target := Bottom;
      } else {
        target := Anchor(box.value);
      }
    }
  }

  /** An anchor target is present, lies in `[1, id + 5]`, and is the nearest
      one at or before `id`, or, when there is none, the first after it. */
  lemma TargetAnchor(present: set<int>, id: int, k: int)
    requires Target(present, id) == Anchor(k)
    ensures id >= 2 && k in present && 1 <= k <= id + NextWindow
    ensures k <= id ==> forall j :: k < j <= id ==> j !in present
    ensures k > id ==> forall j :: 1 <= j < k ==> j !in present
  {
    if PrevAnchor(present, id).None? {
      assert NextAnchor(present, id + 1) == Some(k);
    }
  }

  /** From id 2 on, the pane goes to the bottom exactly when no id in
      `[1, id + 5]` has an anchor. */
  lemma TargetBottom(present: set<int>, id: int)
    requires id >= 2
    ensures Target(present, id) == Bottom <==> forall j :: 1 <= j <= id + NextWindow ==> j !in present
  {
    var prev, next := PrevAnchor(present, id), NextAnchor(present, id + 1);
    if prev.Some? {
      assert prev.value in present;
    } else if next.Some? {
      assert next.value in present;
    }
  }

  /** Java's `h / 2` on an `int`: rounds toward zero. */
  function Half(h: int): (r: int)
    ensures h >= 0 ==> 0 <= h - 2 * r <= 1
    ensures h < 0 ==> 0 <= 2 * r - h <= 1
  {
    if h >= 0 then h / 2 else -((-h) / 2)
  }

  /** A rendered box: its absolute position, whether it is inline, and its
      left and top margins. */
  datatype Box = Box(absX: int, absY: int, inline: bool, marginLeft: int, marginTop: int)

  /** The scroll offset before margins: half a scroll bar above the box, but
      never above the document. */
  function ClampedY(absY: int, barHeight: int): (y: int)
    ensures y >= 0 && y >= absY - Half(barHeight)
    ensures y == 0 || y == absY - Half(barHeight)
  {
    if absY - Half(barHeight) > 0 then absY - Half(barHeight) else 0
  }

  /** `createPoint(box)`: the clamped position, moved by the margins for a
      block box. */
  function CreatePoint(box: Box, barHeight: int): (p: (int, int))
    ensures box.inline ==> p == (box.absX, ClampedY(box.absY, barHeight))
    ensures !box.inline ==> p == (box.absX + box.marginLeft, ClampedY(box.absY, barHeight) + box.marginTop)
    ensures box.inline ==> p.1 >= 0
  {
    var x, y := box.absX, ClampedY(box.absY, barHeight);
    if box.inline then (x, y) else (x + box.marginLeft, y + box.marginTop)
  }

  /** `HTML_PREFIX`, with the stylesheet's resource URL. */
  function HtmlPrefix(stylesheet: string): string {
    "<!DOCTYPE html><html><head><link rel='stylesheet' href='" + stylesheet + "'/></head><body>"
  }

  class HtmlPreviewPane {
    /** `HTML_PREFIX`. */
    const prefix: string
    /** `mHtmlDocument`, the reused buffer. */
    var document: string

    ghost predicate Valid()
      reads this
    {
      |document| >= |prefix| && document[..|prefix|] == prefix
    }

    /** The buffer starts out holding the prefix. */
    constructor (stylesheet: string)
      ensures Valid() && prefix == HtmlPrefix(stylesheet) && document == prefix
    {
      prefix := HtmlPrefix(stylesheet);
      document := HtmlPrefix(stylesheet);
    }

    /** `decorate(html)`: the buffer cut back to the prefix, then `html`;
        nothing of an earlier rendering is left. */
    method Decorate(html: string) returns (r: string)
      requires Valid()
      modifies this
      ensures Valid()
      ensures r == prefix + html && document == r
    {
      document := document[..|prefix|];
      document := document + html;
      r := document;
      assert r[..|prefix|] == prefix;
    }
  }
}
