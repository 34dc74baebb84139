/**
 * What the anchor remapping means for an actual edit of the essay text: an edit
 * replaces one contiguous range by new text, and an anchor that the edit does not
 * touch keeps covering its original text once it has been remapped, edit after edit.
 */
module EditTracking {
  import opened JsStrings
  import opened SuggestionPositions

  /** The replacement of `[from, to)` by `inserted`. */
  datatype Edit = Edit(from: int, to: int, inserted: string)

  predicate ValidFor(text: string, e: Edit) {
    0 <= e.from <= e.to <= |text|
  }

  function Apply(text: string, e: Edit): (r: string)
    requires ValidFor(text, e)
    ensures |r| == |text| - (e.to - e.from) + |e.inserted|
    ensures r[..e.from] == text[..e.from]
  {
    text[..e.from] + e.inserted + text[e.to..]
  }

  /** The anchor lies wholly before or wholly after the replaced range. */
  predicate Disjoint(s: Suggestion, e: Edit) {
    s.anchor.end <= e.from || e.to <= s.anchor.start
  }

  /** The remap of one suggestion across `e`, with the true replacement length. */
  function MapThrough(s: Suggestion, e: Edit): Suggestion {
    AdjustOne(s, e.from, e.to, |e.inserted|)
  }

  /** An anchor the edit does not touch still covers its original text after the
      remap, and its status is kept. */
  lemma MapThroughKeepsAnchored(text: string, s: Suggestion, e: Edit)
    requires ValidFor(text, e) && Anchored(text, s) && Disjoint(s, e)
    ensures Anchored(Apply(text, e), MapThrough(s, e))
    ensures MapThrough(s, e).status == s.status && Raw(MapThrough(s, e)) == Raw(s)
  {
    var t := Apply(text, e);
    var r := MapThrough(s, e);
    if s.anchor.end <= e.from {
      assert t[s.anchor.start..s.anchor.end] == t[..e.from][s.anchor.start..s.anchor.end];
      assert text[s.anchor.start..s.anchor.end] == text[..e.from][s.anchor.start..s.anchor.end];
    } else {
      var base := e.from + |e.inserted|;
      var a := s.anchor.start - e.to;
      var b := s.anchor.end - e.to;
      assert 0 <= a <= b <= |text| - e.to;
      assert t[base..] == text[e.to..];
      assert r.anchor.start == base + a && r.anchor.end == base + b;
      assert t[base + a..base + b] == t[base..][a..b];
      assert text[s.anchor.start..s.anchor.end] == text[e.to..][a..b];
    }
  }

  /** Edits that can be applied one after another. */
  predicate ValidEdits(text: string, es: seq<Edit>)
    decreases |es|
  {
    |es| == 0 || (ValidFor(text, es[0]) && ValidEdits(Apply(text, es[0]), es[1..]))
  }

  function ApplyAll(text: string, es: seq<Edit>): string
    requires ValidEdits(text, es)
    decreases |es|
  {
    if |es| == 0 then text else ApplyAll(Apply(text, es[0]), es[1..])
  }

  /** Remaps a suggestion across each edit in turn. */
  function MapAll(s: Suggestion, es: seq<Edit>): Suggestion
    decreases |es|
  {
    if |es| == 0 then s else MapAll(MapThrough(s, es[0]), es[1..])
  }

  /** No edit touches the anchor as it stands when that edit is made. */
  predicate Untouched(s: Suggestion, es: seq<Edit>)
    decreases |es|
  {
    |es| == 0 || (Disjoint(s, es[0]) && Untouched(MapThrough(s, es[0]), es[1..]))
  }

  /** Remapping step by step through edits that leave the anchor alone keeps it
      on its original text in the final text. */
  lemma {:induction false} MapAllKeepsAnchored(text: string, s: Suggestion, es: seq<Edit>)
    requires ValidEdits(text, es) && Anchored(text, s) && Untouched(s, es)
    ensures Anchored(ApplyAll(text, es), MapAll(s, es))
    ensures MapAll(s, es).status == s.status && Raw(MapAll(s, es)) == Raw(s)
    ensures MapAll(s, es).anchor.stickiness == s.anchor.stickiness
    decreases |es|
  {
    if |es| > 0 {
      MapThroughKeepsAnchored(text, s, es[0]);
      MapAllKeepsAnchored(Apply(text, es[0]), MapThrough(s, es[0]), es[1..]);
    }
  }

  /** `pat` occurs at most once in `text`. */
  ghost predicate OccursAtMostOnce(text: string, pat: string) {
    forall j, k :: OccursAt(text, pat, j) && OccursAt(text, pat, k) ==> j == k
  }

  /** Mapper composition: when the edits never touch a resolved suggestion and its
      text is unambiguous in the final text, remapping it edit by edit gives exactly
      what resolving against the final text gives. */
  lemma MapAllAgreesWithResolve(raw: RawSuggestion, text: string, es: seq<Edit>)
    requires ValidEdits(text, es)
    requires exists k :: OccursAt(text, raw.originalText, k)
    requires Untouched(ComputeSuggestionPositions([raw], text)[0], es)
    requires OccursAtMostOnce(ApplyAll(text, es), raw.originalText)
    ensures MapAll(ComputeSuggestionPositions([raw], text)[0], es)
            == ComputeSuggestionPositions([raw], ApplyAll(text, es))[0]
  {
    var s := ComputeSuggestionPositions([raw], text)[0];
    var last := ApplyAll(text, es);
    var m := MapAll(s, es);
    MapAllKeepsAnchored(text, s, es);
    var c := ComputeSuggestionPositions([raw], last)[0];
    assert OccursAt(last, raw.originalText, m.anchor.start);
    assert c.status == Open;
  }

  /** A suggestion that ends before the edit comes through `handleTextChange` as it
      was: the first branch of the remap keeps it and the text before the edit is
      unchanged. */
  lemma HandleTextChangeKeepsEarlier(suggestions: seq<Suggestion>, oldText: string, e: Edit, x: Suggestion)
    requires ValidFor(oldText, e)
    requires x in suggestions && x.status != Stale
    requires Anchored(oldText, x) && x.anchor.end <= e.from
    ensures x in HandleTextChange(suggestions, oldText, Apply(oldText, e), e.from, e.to)
  {
    var newText := Apply(oldText, e);
    var j :| 0 <= j < |suggestions| && suggestions[j] == x;
    assert AdjustSuggestionPositions(suggestions, e.from, e.to, |newText|)[j] == x;
    assert newText[x.anchor.start..x.anchor.end] == newText[..e.from][x.anchor.start..x.anchor.end];
    assert oldText[x.anchor.start..x.anchor.end] == oldText[..e.from][x.anchor.start..x.anchor.end];
    assert MatchesText(newText, x);
    ReconcileKeepsValid(suggestions, newText, e.from, e.to, |newText|, j);
  }

  /** With the replacement length it evidently means, `handleTextChange` keeps every
      suggestion the edit does not touch, remapped and with its status. */
  lemma HandleTextChangeCorrectedKeepsUntouched(suggestions: seq<Suggestion>, oldText: string, e: Edit,
                                                x: Suggestion)
    requires ValidFor(oldText, e)
    requires x in suggestions && x.status != Stale
    requires Anchored(oldText, x) && Disjoint(x, e)
    ensures MapThrough(x, e) in HandleTextChangeCorrected(suggestions, oldText, Apply(oldText, e), e.from, e.to)
  {
    var newText := Apply(oldText, e);
    assert |newText| - |oldText| + (e.to - e.from) == |e.inserted|;
    var j :| 0 <= j < |suggestions| && suggestions[j] == x;
    var y := MapThrough(x, e);
    assert AdjustSuggestionPositions(suggestions, e.from, e.to, |e.inserted|)[j] == y;
    MapThroughKeepsAnchored(oldText, x, e);
    MatchesTextIffAnchored(newText, y);
    ReconcileKeepsValid(suggestions, newText, e.from, e.to, |e.inserted|, j);
  }
}
