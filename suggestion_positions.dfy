/**
 * The suggestion-anchoring utilities of the client-side editor: placing raw
 * suggestions in the essay text, remapping their anchors across one edit,
 * validating anchors against the current text, recovering lost anchors by
 * searching the text again, and the pipeline that runs all three after a
 * text change.
 */
module SuggestionPositions {
  import opened JsStrings

  datatype Option<T> = None | Some(value: T)

  datatype Stickiness = JoinLeft | JoinRight

  datatype Status = Open | Approved | Rejected | Stale

  /** The anchor `{ start, end, stickiness }`; offsets are plain numbers and
      may be -1 for a suggestion that was never found. */
  datatype Anchor = Anchor(start: int, end: int, stickiness: Stickiness)

  /** A suggestion as produced by the reviewer backend. */
  datatype RawSuggestion = RawSuggestion(id: string, originalText: string, editedText: string,
                                         note: Option<string>)

  /** A suggestion with its anchor and status; the raw fields are spread into it. */
  datatype Suggestion = Suggestion(id: string, originalText: string, editedText: string,
                                   note: Option<string>, anchor: Anchor, status: Status)

  /** The raw fields of a positioned suggestion. */
  function Raw(s: Suggestion): RawSuggestion {
    RawSuggestion(s.id, s.originalText, s.editedText, s.note)
  }

  function Raws(xs: seq<Suggestion>): (r: seq<RawSuggestion>)
    ensures |r| == |xs| && forall i :: 0 <= i < |xs| ==> r[i] == Raw(xs[i])
  {
    seq(|xs|, i requires 0 <= i < |xs| => Raw(xs[i]))
  }

  lemma RawsAppend(a: seq<Suggestion>, b: seq<Suggestion>)
    ensures Raws(a + b) == Raws(a) + Raws(b)
  {
  }

  /** The anchor of a suggestion whose text was not found. */
  const NotFound := Anchor(-1, -1, JoinRight)

  /** The anchor lies inside `text` and covers exactly the suggestion's original text. */
  predicate Anchored(text: string, s: Suggestion) {
    0 <= s.anchor.start <= s.anchor.end <= |text|
    && text[s.anchor.start..s.anchor.end] == s.originalText
  }

  /** The test the validation pass applies: the anchor is not before the text,
      does not end past it, and `slice` of it gives the original text. */
  predicate MatchesText(text: string, s: Suggestion) {
    s.anchor.start >= 0 && s.anchor.end <= |text|
    && Slice(text, s.anchor.start, s.anchor.end) == s.originalText
  }

  /** For an anchor that is not reversed, the validation test is exactly anchoring. */
  lemma MatchesTextIffAnchored(text: string, s: Suggestion)
    requires s.anchor.start <= s.anchor.end
    ensures MatchesText(text, s) <==> Anchored(text, s)
  {
  }

  // ---------------------------------------------------------------------
  // computeSuggestionPositions

  function Resolve(raw: RawSuggestion, text: string): Suggestion {
    var start := FirstIndexOf(text, raw.originalText);
    if start == -1 then
      Suggestion(raw.id, raw.originalText, raw.editedText, raw.note, NotFound, Stale)
    else
      Suggestion(raw.id, raw.originalText, raw.editedText, raw.note,
                 Anchor(start, start + |raw.originalText|, JoinRight), Open)
  }

  /** Places every raw suggestion at the first occurrence of its original text. */
  function ComputeSuggestionPositions(raws: seq<RawSuggestion>, text: string): (r: seq<Suggestion>)
    ensures |r| == |raws|
    ensures forall i :: 0 <= i < |r| ==> Raw(r[i]) == raws[i]
    ensures forall i :: 0 <= i < |r| ==>
              (r[i].status == Open <==> exists k :: OccursAt(text, raws[i].originalText, k))
    ensures forall i :: 0 <= i < |r| && r[i].status == Open ==>
              && IsFirstOccurrence(text, raws[i].originalText, r[i].anchor.start)
              && r[i].anchor.end == r[i].anchor.start + |raws[i].originalText|
              && r[i].anchor.stickiness == JoinRight
              && Anchored(text, r[i])
    ensures forall i :: 0 <= i < |r| && r[i].status != Open ==>
              r[i].status == Stale && r[i].anchor == NotFound
  {
    seq(|raws|, i requires 0 <= i < |raws| => Resolve(raws[i], text))
  }

  // ---------------------------------------------------------------------
  // adjustSuggestionPositions

  function AdjustOne(s: Suggestion, changeStart: int, changeEnd: int, newTextLength: int): Suggestion {
    var lengthDifference := newTextLength - (changeEnd - changeStart);
    if s.anchor.end <= changeStart then s
    else if s.anchor.start >= changeEnd then
      s.(anchor := s.anchor.(start := s.anchor.start + lengthDifference,
                             end := s.anchor.end + lengthDifference))
    else if s.anchor.start < changeEnd && s.anchor.end > changeStart then
      s.(status := Stale)
    else
      // the three tests above cover every anchor: the final fallback is dead
      assert false; s
  }

  /** Remaps every anchor across the replacement of `[changeStart, changeEnd)`
      by `newTextLength` characters. */
  function AdjustSuggestionPositions(suggestions: seq<Suggestion>, changeStart: int, changeEnd: int,
                                     newTextLength: int): (r: seq<Suggestion>)
    ensures |r| == |suggestions|
    ensures forall i :: 0 <= i < |r| ==> Raw(r[i]) == Raw(suggestions[i])
    // an anchor that ends before the edit is returned as it is, whatever its status
    ensures forall i :: 0 <= i < |r| && suggestions[i].anchor.end <= changeStart ==>
              r[i] == suggestions[i]
    // an anchor after the edit moves by the length difference, keeping its width,
    // stickiness and status
    ensures forall i :: 0 <= i < |r| && changeStart < suggestions[i].anchor.end
                        && changeEnd <= suggestions[i].anchor.start ==>
              && r[i].anchor.start == suggestions[i].anchor.start + (newTextLength - (changeEnd - changeStart))
              && r[i].anchor.end - r[i].anchor.start == suggestions[i].anchor.end - suggestions[i].anchor.start
              && r[i].anchor.stickiness == suggestions[i].anchor.stickiness
              && r[i].status == suggestions[i].status
    // every other anchor overlaps the edit: it is kept and the suggestion goes stale
    ensures forall i :: 0 <= i < |r| && changeStart < suggestions[i].anchor.end
                        && suggestions[i].anchor.start < changeEnd ==>
              r[i].anchor == suggestions[i].anchor && r[i].status == Stale
    ensures forall i :: 0 <= i < |r| ==>
              r[i].status == suggestions[i].status || r[i].status == Stale
  {
    seq(|suggestions|, i requires 0 <= i < |suggestions| =>
          AdjustOne(suggestions[i], changeStart, changeEnd, newTextLength))
  }

  /** Stickiness is never consulted: changing it before or after the remap is the same. */
  lemma AdjustIgnoresStickiness(s: Suggestion, k: Stickiness, changeStart: int,
                                   changeEnd: int, newTextLength: int)
    ensures var t := AdjustOne(s.(anchor := s.anchor.(stickiness := k)), changeStart, changeEnd, newTextLength);
            var u := AdjustOne(s, changeStart, changeEnd, newTextLength);
            t == u.(anchor := u.anchor.(stickiness := k))
  {
  }

  /** A zero-width insertion exactly at the start of a non-empty anchor shifts the
      whole anchor, even under `join_right`. */
  lemma InsertionAtStartShifts(s: Suggestion, inserted: nat)
    requires s.anchor.start < s.anchor.end
    ensures var r := AdjustOne(s, s.anchor.start, s.anchor.start, inserted);
            r.anchor == Anchor(s.anchor.start + inserted, s.anchor.end + inserted, s.anchor.stickiness)
            && r.status == s.status
  {
  }

  /** A zero-width insertion exactly at the end of an anchor leaves it as it is,
      even under `join_right`. */
  lemma InsertionAtEndKeeps(s: Suggestion, inserted: nat)
    ensures AdjustOne(s, s.anchor.end, s.anchor.end, inserted) == s
  {
  }

  // ---------------------------------------------------------------------
  // validateSuggestionPositions

  function ValidateOne(s: Suggestion, text: string): Suggestion {
    if s.anchor.start < 0 || s.anchor.end > |text| then s.(status := Stale)
    else if Slice(text, s.anchor.start, s.anchor.end) != s.originalText then s.(status := Stale)
    else s
  }

  /** Marks stale every suggestion whose anchor no longer covers its original text. */
  function ValidateSuggestionPositions(suggestions: seq<Suggestion>, text: string): (r: seq<Suggestion>)
    ensures |r| == |suggestions|
    ensures forall i :: 0 <= i < |r| ==>
              r[i].anchor == suggestions[i].anchor && Raw(r[i]) == Raw(suggestions[i])
    ensures forall i :: 0 <= i < |r| && MatchesText(text, suggestions[i]) ==> r[i] == suggestions[i]
    ensures forall i :: 0 <= i < |r| ==>
              (r[i].status == Stale <==> suggestions[i].status == Stale || !MatchesText(text, suggestions[i]))
    ensures forall i :: 0 <= i < |r| && r[i].status != Stale ==> MatchesText(text, r[i])
  {
    seq(|suggestions|, i requires 0 <= i < |suggestions| => ValidateOne(suggestions[i], text))
  }

  /** Validating twice against the same text is validating once. */
  lemma ValidateIdempotent(suggestions: seq<Suggestion>, text: string)
    ensures ValidateSuggestionPositions(ValidateSuggestionPositions(suggestions, text), text)
            == ValidateSuggestionPositions(suggestions, text)
  {
    var once := ValidateSuggestionPositions(suggestions, text);
    var twice := ValidateSuggestionPositions(once, text);
    forall i | 0 <= i < |suggestions|
      ensures twice[i] == once[i]
    {
      assert MatchesText(text, once[i]) == MatchesText(text, suggestions[i]);
    }
  }

  // ---------------------------------------------------------------------
  // findSuggestionsByText

  function Recover(s: Suggestion, text: string): Suggestion {
    var newStart := FirstIndexOf(text, s.originalText);
    if newStart == -1 then s.(status := Stale)
    else s.(anchor := s.anchor.(start := newStart, end := newStart + |s.originalText|))
  }

  /** Re-searches the text for each suggestion's original text: a found suggestion
      moves to the first occurrence and keeps its status; a lost one goes stale. */
  function FindSuggestionsByText(suggestions: seq<Suggestion>, text: string): (r: seq<Suggestion>)
    ensures |r| == |suggestions|
    ensures forall i :: 0 <= i < |r| ==> Raw(r[i]) == Raw(suggestions[i])
    ensures forall i :: 0 <= i < |r| && (exists k :: OccursAt(text, suggestions[i].originalText, k)) ==>
              && IsFirstOccurrence(text, suggestions[i].originalText, r[i].anchor.start)
              && r[i].anchor.end == r[i].anchor.start + |suggestions[i].originalText|
              && r[i].anchor.stickiness == suggestions[i].anchor.stickiness
              && r[i].status == suggestions[i].status
              && Anchored(text, r[i])
    ensures forall i :: 0 <= i < |r| && (forall k :: !OccursAt(text, suggestions[i].originalText, k)) ==>
              r[i].anchor == suggestions[i].anchor && r[i].status == Stale
    ensures forall i :: 0 <= i < |r| && suggestions[i].status == Stale ==> r[i].status == Stale
  {
    seq(|suggestions|, i requires 0 <= i < |suggestions| => Recover(suggestions[i], text))
  }

  /** Freshly resolved suggestions already pass validation. */
  lemma ResolvedAreValid(raws: seq<RawSuggestion>, text: string)
    ensures var c := ComputeSuggestionPositions(raws, text);
            ValidateSuggestionPositions(c, text) == c
  {
    var c := ComputeSuggestionPositions(raws, text);
    var v := ValidateSuggestionPositions(c, text);
    forall i | 0 <= i < |c|
      ensures v[i] == c[i]
    {
      if c[i].status == Open {
        assert MatchesText(text, c[i]);
      } else {
        assert c[i].status == Stale;
      }
    }
  }

  /** Recovering freshly resolved suggestions changes nothing. */
  lemma RecoverResolvedIsIdentity(raws: seq<RawSuggestion>, text: string)
    ensures var c := ComputeSuggestionPositions(raws, text);
            FindSuggestionsByText(c, text) == c
  {
    var c := ComputeSuggestionPositions(raws, text);
    var f := FindSuggestionsByText(c, text);
    forall i | 0 <= i < |c|
      ensures f[i] == c[i]
    {
      if c[i].status == Open {
        var k :| OccursAt(text, raws[i].originalText, k);
        assert OccursAt(text, c[i].originalText, k);
        FirstOccurrenceUnique(text, c[i].originalText, f[i].anchor.start, c[i].anchor.start);
      }
    }
  }

  // ---------------------------------------------------------------------
  // handleTextChange

  /** The suggestions that are not stale, in their order. */
  function Kept(xs: seq<Suggestion>): (r: seq<Suggestion>)
    ensures forall i :: 0 <= i < |r| ==> r[i].status != Stale && r[i] in xs
  {
    if |xs| == 0 then []
    else (if xs[0].status != Stale then [xs[0]] else []) + Kept(xs[1..])
  }

  /** The stale suggestions, in their order. */
  function StaleOnes(xs: seq<Suggestion>): (r: seq<Suggestion>)
    ensures forall i :: 0 <= i < |r| ==> r[i].status == Stale
  {
    if |xs| == 0 then []
    else (if xs[0].status == Stale then [xs[0]] else []) + StaleOnes(xs[1..])
  }

  /** Splitting by staleness loses and duplicates nothing. */
  lemma {:induction false} PartitionPreservesRaws(xs: seq<Suggestion>)
    ensures |Kept(xs)| + |StaleOnes(xs)| == |xs|
    ensures multiset(Raws(Kept(xs))) + multiset(Raws(StaleOnes(xs))) == multiset(Raws(xs))
  {
    if |xs| > 0 {
      PartitionPreservesRaws(xs[1..]);
      var head := if xs[0].status != Stale then [xs[0]] else [];
      var other := if xs[0].status == Stale then [xs[0]] else [];
      RawsAppend(head, Kept(xs[1..]));
      RawsAppend(other, StaleOnes(xs[1..]));
      RawsAppend([xs[0]], xs[1..]);
      assert xs == [xs[0]] + xs[1..];
    }
  }

  /** With nothing stale, keeping the non-stale suggestions keeps them all. */
  lemma {:induction false} KeptAll(xs: seq<Suggestion>)
    requires |StaleOnes(xs)| == 0
    ensures Kept(xs) == xs
  {
    if |xs| > 0 {
      KeptAll(xs[1..]);
      assert xs == [xs[0]] + xs[1..];
    }
  }

  /** A non-stale suggestion survives the split. */
  lemma {:induction false} KeptContains(xs: seq<Suggestion>, x: Suggestion)
    requires x in xs && x.status != Stale
    ensures x in Kept(xs)
  {
    if xs[0] != x {
      KeptContains(xs[1..], x);
    }
  }

  /** Putting the re-searched stale suggestions after the others loses and duplicates
      no raw suggestion. */
  lemma RecombineRaws(updated: seq<Suggestion>, newText: string)
    ensures |Kept(updated) + FindSuggestionsByText(StaleOnes(updated), newText)| == |updated|
    ensures multiset(Raws(Kept(updated) + FindSuggestionsByText(StaleOnes(updated), newText)))
            == multiset(Raws(updated))
  {
    var stale := StaleOnes(updated);
    var recovered := FindSuggestionsByText(stale, newText);
    PartitionPreservesRaws(updated);
    RawsAppend(Kept(updated), recovered);
    assert Raws(recovered) == Raws(stale);
  }

  /** The adjust, validate and recover pipeline for one edit whose replacement
      has `insertedLength` characters. */
  function Reconcile(suggestions: seq<Suggestion>, newText: string, changeStart: int, changeEnd: int,
                     insertedLength: int): (r: seq<Suggestion>)
    ensures |r| == |suggestions|
    ensures multiset(Raws(r)) == multiset(Raws(suggestions))
    ensures var v := ValidateSuggestionPositions(
                       AdjustSuggestionPositions(suggestions, changeStart, changeEnd, insertedLength), newText);
            && |Kept(v)| <= |r|
            && r[..|Kept(v)|] == Kept(v)
            && r[|Kept(v)|..] == FindSuggestionsByText(StaleOnes(v), newText)
            && forall i :: 0 <= i < |r| ==> (r[i].status == Stale <==> |Kept(v)| <= i)
    ensures forall i :: 0 <= i < |r| && r[i].status != Stale ==> MatchesText(newText, r[i])
  {
    var adjusted := AdjustSuggestionPositions(suggestions, changeStart, changeEnd, insertedLength);
    var updated := ValidateSuggestionPositions(adjusted, newText);
    var stale := StaleOnes(updated);
    var kept := Kept(updated);
    assert Raws(updated) == Raws(adjusted) == Raws(suggestions);
    if |stale| > 0 then
      var recovered := FindSuggestionsByText(stale, newText);
      RecombineRaws(updated, newText);
      assert (kept + recovered)[..|kept|] == kept;
      assert (kept + recovered)[|kept|..] == recovered;
      kept + recovered
    else
      KeptAll(updated);
      assert updated[..|kept|] == kept;
      assert updated[|kept|..] == [];
      updated
  }

  /** A suggestion that is not stale after the remap and passes
      validation against the new text is among the results of the pipeline. */
  lemma ReconcileKeepsValid(suggestions: seq<Suggestion>, newText: string, changeStart: int, changeEnd: int,
                            insertedLength: int, j: int)
    requires 0 <= j < |suggestions|
    requires var y := AdjustSuggestionPositions(suggestions, changeStart, changeEnd, insertedLength)[j];
             y.status != Stale && MatchesText(newText, y)
    ensures AdjustSuggestionPositions(suggestions, changeStart, changeEnd, insertedLength)[j]
            in Reconcile(suggestions, newText, changeStart, changeEnd, insertedLength)
  {
    var adjusted := AdjustSuggestionPositions(suggestions, changeStart, changeEnd, insertedLength);
    var v := ValidateSuggestionPositions(adjusted, newText);
    assert v[j] == adjusted[j];
    KeptContains(v, adjusted[j]);
  }

  /** `handleTextChange`: remaps across the edit `[changeStart, changeEnd)`, passing the
      length of the WHOLE new text as the replacement length, validates against the new
      text, and re-searches the stale ones, which go to the end of the list.
      `oldText` is not used. */
  function HandleTextChange(suggestions: seq<Suggestion>, oldText: string, newText: string,
                            changeStart: int, changeEnd: int): (r: seq<Suggestion>)
    ensures |r| == |suggestions|
    ensures multiset(Raws(r)) == multiset(Raws(suggestions))
    ensures var v := ValidateSuggestionPositions(
                       AdjustSuggestionPositions(suggestions, changeStart, changeEnd, |newText|), newText);
            && |Kept(v)| <= |r|
            && r[..|Kept(v)|] == Kept(v)
            && forall i :: 0 <= i < |r| ==> (r[i].status == Stale <==> |Kept(v)| <= i)
    ensures forall i :: 0 <= i < |r| && r[i].status != Stale ==> MatchesText(newText, r[i])
  {
    Reconcile(suggestions, newText, changeStart, changeEnd, |newText|)
  }

  /** The old text plays no part in the result. */
  lemma HandleTextChangeIgnoresOldText(suggestions: seq<Suggestion>, oldText1: string, oldText2: string,
                                       newText: string, changeStart: int, changeEnd: int)
    ensures HandleTextChange(suggestions, oldText1, newText, changeStart, changeEnd)
            == HandleTextChange(suggestions, oldText2, newText, changeStart, changeEnd)
  {
  }

  /** `handleTextChange` with the replacement length it evidently means: the growth of
      the text plus the length of the replaced range. */
  function HandleTextChangeCorrected(suggestions: seq<Suggestion>, oldText: string, newText: string,
                                     changeStart: int, changeEnd: int): (r: seq<Suggestion>)
    ensures |r| == |suggestions|
    ensures multiset(Raws(r)) == multiset(Raws(suggestions))
    ensures forall i :: 0 <= i < |r| && r[i].status != Stale ==> MatchesText(newText, r[i])
  {
    Reconcile(suggestions, newText, changeStart, changeEnd, |newText| - |oldText| + (changeEnd - changeStart))
  }
}
