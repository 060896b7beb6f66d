/**
 * The sigil operator for YAML definitions: brackets a definition key with the
 * configured begin/end delimiters, strips them again, and finds delimited
 * references in text (the non-greedy pattern `began .*? ended`).
 */
module YamlSigilOperator {
  import opened Wrappers
  import opened JavaString

  /** The delimiter pair, fixed for a session (read once from the user
      preferences). */
  datatype Sigils = Sigils(began: string, ended: string)

  /** `apply`: YAML keys already carry their delimiters, so the key is used
      verbatim. */
  function Apply(key: string): (r: string)
    ensures r == key
  {
    key
  }

  /** `entoken`: the key bracketed by the delimiters. */
  function Entoken(s: Sigils, key: string): (r: string)
    ensures |r| == |s.began| + |key| + |s.ended|
    ensures StartsWith(r, s.began) && EndsWith(r, s.ended)
    ensures r[|s.began|..|r| - |s.ended|] == key
  {
    s.began + key + s.ended
  }

  /**
   * `detoken`: drops as many characters from the front as `began` has and as
   * many from the back as `ended` has, provided the token is strictly longer
   * than both together; a shorter or equally long token is returned as it
   * is. Whether those characters are the delimiters is not checked.
   */
  function Detoken(s: Sigils, token: string): (r: string)
    ensures |token| <= |s.began| + |s.ended| ==> r == token
    ensures |token| > |s.began| + |s.ended| ==>
      && |r| == |token| - |s.began| - |s.ended|
      && token == token[..|s.began|] + r + token[|token| - |s.ended|..]
  {
    if |token| > |s.began| + |s.ended| then
      var r := token[|s.began|..|token| - |s.ended|];
      assert token == token[..|s.began|] + r + token[|token| - |s.ended|..];
      r
    else token
  }

  /** Stripping undoes bracketing for every non-empty key. */
  lemma DetokenEntoken(s: Sigils, key: string)
    requires key != []
    ensures Detoken(s, Entoken(s, key)) == key
  {
  }

  /** The empty key does not round-trip: its token is exactly as long as the
      two delimiters, so `detoken` leaves it whole. */
  lemma DetokenEntokenEmpty(s: Sigils)
    requires s.began + s.ended != []
    ensures Detoken(s, Entoken(s, [])) == s.began + s.ended
    ensures Detoken(s, Entoken(s, [])) != []
  {
    assert Entoken(s, []) == s.began + s.ended;
  }

  /** On a long enough token, bracketing what `detoken` left gives the token
      back exactly when the token really carried the delimiters. */
  lemma {:induction false} EntokenDetoken(s: Sigils, token: string)
    requires |token| > |s.began| + |s.ended|
    ensures Entoken(s, Detoken(s, token)) == token <==> StartsWith(token, s.began) && EndsWith(token, s.ended)
  {
    var r := Detoken(s, token);
    if StartsWith(token, s.began) && EndsWith(token, s.ended) {
      assert token[..|s.began|] == s.began;
      assert token[|token| - |s.ended|..] == s.ended;
    }
    if Entoken(s, r) == token {
      assert token[..|s.began|] == (s.began + r + s.ended)[..|s.began|];
      assert token[|token| - |s.ended|..] == (s.began + r + s.ended)[|token| - |s.ended|..];
    }
  }

  /**
   * The lazy part of the pattern: starting at `i`, the end of the shortest
   * run of characters other than line terminators that is followed by
   * `ended`, counted past `ended`.
   */
  function LazyEnd(text: string, ended: string, i: nat): (r: Option<nat>)
    requires i <= |text|
    ensures r.Some? ==> i + |ended| <= r.value <= |text|
    decreases |text| - i
  {
    if OccursAt(text, ended, i) then Some(i + |ended|)
    else if i < |text| && !IsLineTerminator(text[i]) then LazyEnd(text, ended, i + 1)
    else None
  }

  /** When the lazy part succeeds, it ends with `ended`, and before that
      `ended` it crossed neither a line terminator nor an earlier `ended`. */
  lemma {:induction false} LazyEndSome(text: string, ended: string, i: nat)
    requires i <= |text| && LazyEnd(text, ended, i).Some?
    ensures var e := LazyEnd(text, ended, i).value;
      && OccursAt(text, ended, e - |ended|)
      && (forall k :: i <= k < e - |ended| ==> !IsLineTerminator(text[k]))
      && (forall k :: i <= k < e - |ended| ==> !OccursAt(text, ended, k))
    decreases |text| - i
  {
    if !OccursAt(text, ended, i) {
      LazyEndSome(text, ended, i + 1);
    }
  }

  /** When the lazy part fails, every later `ended` lies beyond a line
      terminator. */
  lemma {:induction false} LazyEndNone(text: string, ended: string, i: nat)
    requires i <= |text| && LazyEnd(text, ended, i).None?
    ensures forall q :: i <= q <= |text| && OccursAt(text, ended, q) ==>
      exists k :: i <= k < q && IsLineTerminator(text[k])
    decreases |text| - i
  {
    if i < |text| && !IsLineTerminator(text[i]) {
      LazyEndNone(text, ended, i + 1);
    }
  }

  /** The end of the reference that starts at `p`, if one does. */
  function MatchAt(s: Sigils, text: string, p: nat): Option<nat>
    requires p <= |text|
  {
    if OccursAt(text, s.began, p) then LazyEnd(text, s.ended, p + |s.began|) else None
  }

  /**
   * `REGEX_PATTERN.matcher(text).find(p)`: the leftmost reference starting at
   * or after `p`, as the offsets of its first character and one past its
   * last.
   */
  function FindReference(s: Sigils, text: string, p: nat): (r: Option<(nat, nat)>)
    ensures r.Some? ==> p <= r.value.0 <= |text| && MatchAt(s, text, r.value.0) == Some(r.value.1)
    ensures r.Some? ==> forall q :: p <= q < r.value.0 ==> MatchAt(s, text, q).None?
    ensures r.None? ==> forall q :: p <= q <= |text| ==> MatchAt(s, text, q).None?
    decreases |text| + 1 - p
  {
    if p > |text| then None
    else
      match MatchAt(s, text, p)
      case Some(e) => Some((p, e))
      case None => FindReference(s, text, p + 1)
  }

  /**
   * A bracketed key is found whole, from its first to its last character,
   * provided the key spans no line and `ended` does not begin inside the key
   * (the lazy match stops at the first `ended`).
   */
  lemma {:induction false} FindEntoken(s: Sigils, key: string)
    requires forall k :: 0 <= k < |key| ==> !IsLineTerminator(key[k])
    requires forall q :: 0 <= q < |key| ==> !OccursAt(key + s.ended, s.ended, q)
    ensures FindReference(s, Entoken(s, key), 0) == Some((0, |Entoken(s, key)|))
  {
    MatchEntoken(s, key);
  }

  /** The reference pattern matches a bracketed key at its start and ends
      with it. */
  lemma MatchEntoken(s: Sigils, key: string)
    requires forall k :: 0 <= k < |key| ==> !IsLineTerminator(key[k])
    requires forall q :: 0 <= q < |key| ==> !OccursAt(key + s.ended, s.ended, q)
    ensures MatchAt(s, Entoken(s, key), 0) == Some(|Entoken(s, key)|)
  {
    var text := s.began + (key + s.ended);
    assert Entoken(s, key) == text;
    MatchBracketed(s, key, text);
  }

  /** `MatchEntoken` on the bracketed text written out. */
  lemma MatchBracketed(s: Sigils, key: string, text: string)
    requires text == s.began + (key + s.ended)
    requires forall k :: 0 <= k < |key| ==> !IsLineTerminator(key[k])
    requires forall q :: 0 <= q < |key| ==> !OccursAt(key + s.ended, s.ended, q)
    ensures MatchAt(s, text, 0) == Some(|text|)
  {
    var b := |s.began|;
    BracketOccurs(s.began, key, s.ended, text);
    KeyNoTerminator(s.began, key, s.ended, text);
    KeyNoEnded(s.began, key, s.ended, text);
    LazyEndFirst(text, s.ended, b, b + |key|);
    MatchAtStart(s, text, |text|);
  }

  /** A bracketed text starts with `began` and has `ended` right after the
      key. */
  lemma BracketOccurs(began: string, key: string, ended: string, text: string)
    requires text == began + (key + ended)
    ensures OccursAt(text, began, 0)
    ensures OccursAt(text, ended, |began| + |key|)
  {
    assert text[..|began|] == began;
    var rest := key + ended;
    assert OccursAt(rest, ended, |key|) by { assert rest[|key|..] == ended; }
    OccursShifted(began, rest, ended, |key|);
  }

  /** A reference starts at 0 when `began` does and the lazy part ends. */
  lemma MatchAtStart(s: Sigils, text: string, e: nat)
    requires OccursAt(text, s.began, 0) && |s.began| <= |text| && LazyEnd(text, s.ended, |s.began|) == Some(e)
    ensures MatchAt(s, text, 0) == Some(e)
  {
  }

  /** The lazy match crosses no line terminator inside a bracketed key that
      holds none. */
  lemma KeyNoTerminator(began: string, key: string, ended: string, text: string)
    requires text == began + (key + ended)
    requires forall k :: 0 <= k < |key| ==> !IsLineTerminator(key[k])
    ensures forall k :: |began| <= k < |began| + |key| ==> !IsLineTerminator(text[k])
  {
    forall k | |began| <= k < |began| + |key|
      ensures !IsLineTerminator(text[k])
    {
      assert text[k] == key[k - |began|];
    }
  }

  /** Nor does it meet `ended` inside the key when `ended` begins nowhere in
      it. */
  lemma KeyNoEnded(began: string, key: string, ended: string, text: string)
    requires text == began + (key + ended)
    requires forall q :: 0 <= q < |key| ==> !OccursAt(key + ended, ended, q)
    ensures forall k :: |began| <= k < |began| + |key| ==> !OccursAt(text, ended, k)
  {
    forall k | |began| <= k < |began| + |key|
      ensures !OccursAt(text, ended, k)
    {
      OccursShifted(began, key + ended, ended, k - |began|);
    }
  }

  /** An occurrence in `rest` is one in `front + rest`, shifted by `front`. */
  lemma OccursShifted(front: string, rest: string, needle: string, q: nat)
    ensures OccursAt(front + rest, needle, |front| + q) <==> OccursAt(rest, needle, q)
  {
    if q + |needle| <= |rest| {
      assert (front + rest)[|front| + q..|front| + q + |needle|] == rest[q..q + |needle|];
    }
  }

  /** `LazyEnd` stops at the first `ended` it reaches. */
  lemma {:induction false} LazyEndFirst(text: string, ended: string, i: nat, q: nat)
    requires i <= q <= |text| && OccursAt(text, ended, q)
    requires forall k :: i <= k < q ==> !IsLineTerminator(text[k])
    requires forall k :: i <= k < q ==> !OccursAt(text, ended, k)
    ensures LazyEnd(text, ended, i) == Some(q + |ended|)
    decreases q - i
  {
    if i < q {
      LazyEndFirst(text, ended, i + 1, q);
    }
  }
}
