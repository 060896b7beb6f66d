/**
 * Variable substitution over the matches of an Aho-Corasick automaton: the
 * text between matches is copied verbatim and every matched definition key
 * is replaced by its value, in one pass.
 *
 * The automaton belongs to a library; what it reports is taken here as the
 * input `emits`, and what the library guarantees about it (sorted,
 * non-overlapping, whole-word matches of registered keys) as a precondition.
 */
module AhoCorasickReplacer {

  /** One match: `text[start..end]`, both ends inclusive, is `keyword`. */
  datatype Emit = Emit(start: nat, end: nat, keyword: string)

  /** Each emit lies inside the text and names a key of the map, and each
      ends before the next one starts. */
  predicate WellFormed(text: string, m: map<string, string>, emits: seq<Emit>) {
    && (forall i :: 0 <= i < |emits| ==> emits[i].start <= emits[i].end < |text| && emits[i].keyword in m)
    && (forall i :: 0 < i < |emits| ==> emits[i - 1].end < emits[i].start)
  }

  /** A whole-word occurrence of `e.keyword` at `e`: no word character right
      before or right after it. What a word character is, the library
      decides. */
  predicate WholeWordAt(text: string, e: Emit, isWordChar: char -> bool)
    requires e.start <= e.end < |text|
  {
    && text[e.start..e.end + 1] == e.keyword
    && (e.start == 0 || !isWordChar(text[e.start - 1]))
    && (e.end + 1 == |text| || !isWordChar(text[e.end + 1]))
  }

  /** What `parseText` of a whole-word, overlap-ignoring trie built from the
      keys of `m` reports. */
  predicate ValidEmits(text: string, m: map<string, string>, emits: seq<Emit>, isWordChar: char -> bool) {
    && WellFormed(text, m, emits)
    && forall i :: 0 <= i < |emits| ==> WholeWordAt(text, emits[i], isWordChar)
  }

  /** Emits that may follow a copy cursor at `index`. */
  predicate From(text: string, m: map<string, string>, emits: seq<Emit>, index: nat) {
    && index <= |text|
    && WellFormed(text, m, emits)
    && (emits != [] ==> index <= emits[0].start)
  }

  /**
   * The output from cursor `index` on: the gap up to the next emit, that
   * emit's value, and so on, and finally the rest of the text.
   */
  function Stitch(text: string, m: map<string, string>, emits: seq<Emit>, index: nat): string
    requires From(text, m, emits, index)
    decreases |emits|
  {
    if emits == [] then text[index..]
    else text[index..emits[0].start] + m[emits[0].keyword] + Stitch(text, m, emits[1..], emits[0].end + 1)
  }

  /** Past the first emit, the rest follow the cursor one past its end. */
  lemma FromRest(text: string, m: map<string, string>, emits: seq<Emit>, index: nat)
    requires From(text, m, emits, index) && emits != []
    ensures index <= emits[0].start <= emits[0].end < |text|
    ensures From(text, m, emits[1..], emits[0].end + 1)
    ensures Stitch(text, m, emits, index)
      == text[index..emits[0].start] + m[emits[0].keyword] + Stitch(text, m, emits[1..], emits[0].end + 1)
  {
    var rest := emits[1..];
    assert forall i :: 0 <= i < |rest| ==> rest[i] == emits[i + 1];
  }

  /** `FromRest` for the emits from `i` on. */
  lemma StitchStep(text: string, m: map<string, string>, emits: seq<Emit>, i: nat, index: nat)
    requires i < |emits| && From(text, m, emits[i..], index)
    ensures index <= emits[i].start <= emits[i].end < |text|
    ensures From(text, m, emits[i + 1..], emits[i].end + 1)
    ensures Stitch(text, m, emits[i..], index)
      == text[index..emits[i].start] + m[emits[i].keyword] + Stitch(text, m, emits[i + 1..], emits[i].end + 1)
  {
    FromRest(text, m, emits[i..], index);
    assert emits[i..][1..] == emits[i + 1..];
  }

  function Value(m: map<string, string>, e: Emit): string
    requires e.keyword in m
  {
    m[e.keyword]
  }

  /** Where copying resumes before emit `i`: the start of the text for the
      first, one past the end of the previous emit for the others. */
  function Resume(emits: seq<Emit>, i: nat): nat
    requires i <= |emits|
  {
    if i == 0 then 0 else emits[i - 1].end + 1
  }

  /** The copy cursor never moves back, stays within the text and never
      passes the start of the next emit, so every gap is a valid range. */
  lemma {:induction false} ResumeBounds(text: string, m: map<string, string>, emits: seq<Emit>, i: nat, j: nat)
    requires WellFormed(text, m, emits) && i <= j <= |emits|
    ensures Resume(emits, i) <= Resume(emits, j) <= |text|
    ensures j < |emits| ==> Resume(emits, j) <= emits[j].start
    decreases j - i
  {
    if i < j {
      ResumeBounds(text, m, emits, i + 1, j);
      assert Resume(emits, i) <= emits[i].start;
    }
  }

  /** The output for the first `i` emits: each one's gap, then its value. */
  function Prefix(text: string, m: map<string, string>, emits: seq<Emit>, i: nat): string
    requires WellFormed(text, m, emits) && i <= |emits|
  {
    if i == 0 then []
    else Prefix(text, m, emits, i - 1) + text[Resume(emits, i - 1)..emits[i - 1].start] + Value(m, emits[i - 1])
  }

  /** How much longer the output is than the text, over the first `k` emits:
      each adds its value and drops its span. */
  function Delta(m: map<string, string>, emits: seq<Emit>, k: nat): int
    requires k <= |emits|
    requires forall i :: 0 <= i < |emits| ==> emits[i].keyword in m
  {
    if k == 0 then 0
    else Delta(m, emits, k - 1) + |Value(m, emits[k - 1])| - (emits[k - 1].end + 1 - emits[k - 1].start)
  }

  /** The output for the first `i` emits is as long as the text they cover,
      shifted by what they add. */
  lemma {:induction false} PrefixLength(text: string, m: map<string, string>, emits: seq<Emit>, i: nat)
    requires WellFormed(text, m, emits) && i <= |emits|
    ensures |Prefix(text, m, emits, i)| == Resume(emits, i) + Delta(m, emits, i)
  {
    if i > 0 {
      PrefixLength(text, m, emits, i - 1);
    }
  }

  /** The output is the output for the first `i` emits followed by the
      output from emit `i` on. */
  lemma {:induction false} StitchSplit(text: string, m: map<string, string>, emits: seq<Emit>, i: nat)
    requires WellFormed(text, m, emits) && i <= |emits|
    ensures From(text, m, emits[i..], Resume(emits, i))
    ensures Stitch(text, m, emits, 0) == Prefix(text, m, emits, i) + Stitch(text, m, emits[i..], Resume(emits, i))
  {
    if i == 0 {
      assert emits[0..] == emits;
      assert Prefix(text, m, emits, 0) + Stitch(text, m, emits, 0) == Stitch(text, m, emits, 0);
    } else {
      StitchSplit(text, m, emits, i - 1);
      PrefixStep(text, m, emits, i);
    }
  }

  /** Moving the split one emit further. */
  lemma PrefixStep(text: string, m: map<string, string>, emits: seq<Emit>, i: nat)
    requires WellFormed(text, m, emits) && 0 < i <= |emits|
    requires From(text, m, emits[i - 1..], Resume(emits, i - 1))
    ensures From(text, m, emits[i..], Resume(emits, i))
    ensures Prefix(text, m, emits, i - 1) + Stitch(text, m, emits[i - 1..], Resume(emits, i - 1))
      == Prefix(text, m, emits, i) + Stitch(text, m, emits[i..], Resume(emits, i))
  {
    var g := Resume(emits, i - 1);
    StitchStep(text, m, emits, i - 1, g);
    var p, gap, v := Prefix(text, m, emits, i - 1), text[g..emits[i - 1].start], Value(m, emits[i - 1]);
    var rest := Stitch(text, m, emits[i..], Resume(emits, i));
    assert Stitch(text, m, emits[i - 1..], g) == gap + v + rest;
    Regroup(p, gap, v, rest);
  }

  /** `AhoCorasickReplacer.replace`. */
  method Replace(text: string, m: map<string, string>, emits: seq<Emit>, ghost isWordChar: char -> bool)
    returns (r: string)
    requires ValidEmits(text, m, emits, isWordChar)
    ensures r == Stitch(text, m, emits, 0)
    ensures emits == [] ==> r == text
    ensures |r| == |text| + Delta(m, emits, |emits|)
  {
    var sb := "";
    var index: nat := 0;
    var i := 0;
    while i < |emits|
      invariant 0 <= i <= |emits|
      invariant index == Resume(emits, i)
      invariant sb == Prefix(text, m, emits, i)
    {
      var emit := emits[i];
      sb := sb + text[index..emit.start];
      sb := sb + m[emit.keyword];
      index := emit.end + 1;
      i := i + 1;
    }
    sb := sb + text[index..];
    r := sb;
    StitchSplit(text, m, emits, |emits|);
    StitchLength(text, m, emits);
  }

  /** The output is the text, minus every replaced span, plus every value. */
  lemma StitchLength(text: string, m: map<string, string>, emits: seq<Emit>)
    requires WellFormed(text, m, emits)
    ensures |Stitch(text, m, emits, 0)| == |text| + Delta(m, emits, |emits|)
  {
    StitchSplit(text, m, emits, |emits|);
    PrefixLength(text, m, emits, |emits|);
  }

  /**
   * Emit `i`'s value stands in the output at the emit's own offset shifted
   * by what the emits before it added, and right before it stands, verbatim,
   * the gap of text since the previous emit.
   */
  lemma StitchPlaces(text: string, m: map<string, string>, emits: seq<Emit>, i: nat)
    requires WellFormed(text, m, emits) && i < |emits|
    ensures var r, o, g := Stitch(text, m, emits, 0), emits[i].start + Delta(m, emits, i), Resume(emits, i);
      && g <= emits[i].start
      && 0 <= o - (emits[i].start - g) && o + |Value(m, emits[i])| <= |r|
      && r[o - (emits[i].start - g)..o] == text[g..emits[i].start]
      && r[o..o + |Value(m, emits[i])|] == Value(m, emits[i])
  {
    var g := Resume(emits, i);
    StitchSplit(text, m, emits, i);
    StitchStep(text, m, emits, i, g);
    PrefixLength(text, m, emits, i);
    Regroup(Prefix(text, m, emits, i), text[g..emits[i].start], Value(m, emits[i]),
      Stitch(text, m, emits[i + 1..], emits[i].end + 1));
  }

  /** `p + (gap + v + rest)`, regrouped, and where its middle parts lie. */
  lemma Regroup(p: string, gap: string, v: string, rest: string)
    ensures p + (gap + v + rest) == p + gap + v + rest
    ensures (p + gap + v + rest)[|p|..|p| + |gap|] == gap
    ensures (p + gap + v + rest)[|p| + |gap|..|p| + |gap| + |v|] == v
  {
    var r := p + gap + v + rest;
    assert r[|p|..|p| + |gap|] == gap;
    assert r[|p| + |gap|..|p| + |gap| + |v|] == v;
  }

  /** The output ends with the text after the last emit, verbatim. */
  lemma StitchTail(text: string, m: map<string, string>, emits: seq<Emit>)
    requires WellFormed(text, m, emits)
    ensures var r, g := Stitch(text, m, emits, 0), Resume(emits, |emits|);
      g <= |text| && |text| - g <= |r| && r[|r| - (|text| - g)..] == text[g..]
  {
    StitchSplit(text, m, emits, |emits|);
    assert emits[|emits|..] == [];
  }

  /** `{{a.b}}` bound to `X` in `{{a.b}} end` gives `X end`. */
  lemma SubstitutionExample()
    ensures Stitch("{{a.b}} end", map["{{a.b}}" := "X"], [Emit(0, 6, "{{a.b}}")], 0) == "X end"
  {
    var text, m, emits := "{{a.b}} end", map["{{a.b}}" := "X"], [Emit(0, 6, "{{a.b}}")];
    assert Stitch(text, m, emits[1..], 7) == " end";
  }
}
