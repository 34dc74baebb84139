/**
 * Concrete cases: the spelling suggestion of the mock essay, an overlapping edit,
 * and the two inputs that show where the source departs from what it evidently means.
 */
module Scenarios {
  import opened JsStrings
  import opened SuggestionPositions
  import opened LinePositions

  const Sentence: string := "I really like writting essays."
  const Writting := RawSuggestion("s1", "writting", "writing", Some("Spelling correction"))

  /** The misspelt word is found at offsets 14 to 22 and the suggestion is open. */
  lemma WrittingIsResolved()
    ensures ComputeSuggestionPositions([Writting], Sentence)
            == [Suggestion("s1", "writting", "writing", Some("Spelling correction"),
                           Anchor(14, 22, JoinRight), Open)]
  {
    assert OccursAt(Sentence, "writting", 14);
    assert forall j :: 0 <= j < 14 ==> !OccursAt(Sentence, "writting", j) by {
      forall j | 0 <= j < 14
        ensures !OccursAt(Sentence, "writting", j)
      {
        assert Sentence[j + 1] != 'r' || Sentence[j] != 'w';
      }
    }
  }

  /** An anchor at `[10, 18)` goes stale under an edit of `[5, 15)`, anchor kept. */
  lemma OverlapGoesStale(s: Suggestion, inserted: nat)
    requires s.anchor.start == 10 && s.anchor.end == 18
    ensures AdjustSuggestionPositions([s], 5, 15, inserted) == [s.(status := Stale)]
  {
  }

  /** The column formula as written puts the `c` of `"a\nb\nc"` at column -1 of line 2,
      where the corrected column is 0. */
  lemma ThirdLineColumn()
    ensures Split("a\nb\nc", '\n') == ["a", "b", "c"]
    ensures StartFits(["a", "b", "c"], 2, 4)
    ensures AsWrittenColumn(["a", "b", "c"], 2, 4) == -1
    ensures Column(["a", "b", "c"], 2, 4) == 0
  {
    var lines := ["a", "b", "c"];
    assert "a\nb\nc" == "a" + ['\n'] + ("b" + ['\n'] + "c");
    SplitNoSeparator("c", '\n');
    SplitAtSeparator("b", "c", '\n');
    SplitAtSeparator("a", "b" + ['\n'] + "c", '\n');
    assert lines[..2] == ["a", "b"];
    assert Join(["a", "b"], '\n') == "a\nb";
  }

  const B := Suggestion("b", "b", "x", None, Anchor(1, 2, JoinRight), Open)

  /** Replacing the `a` of `"ab"` by `x` leaves the suggestion on `b` where it was, yet
      `handleTextChange` shifts it by the whole new length, finds it stale, and the
      recovery puts the anchor back without reopening it. */
  lemma EditBeforeAnchorMakesItStale()
    ensures HandleTextChange([B], "ab", "xb", 0, 1) == [B.(status := Stale)]
  {
    var shifted := AdjustSuggestionPositions([B], 0, 1, 2);
    assert shifted == [B.(anchor := Anchor(2, 3, JoinRight))];
    var v := ValidateSuggestionPositions(shifted, "xb");
    assert v == [B.(anchor := Anchor(2, 3, JoinRight), status := Stale)];
    assert Kept(v) == [] && StaleOnes(v) == v;
    assert "xb"[1..2] == "b" && "xb"[0..1][0] == 'x';
    assert FirstIndexOf("xb", "b") == 1 by {
      assert OccursAt("xb", "b", 1) && !OccursAt("xb", "b", 0);
    }
    assert FindSuggestionsByText(v, "xb") == [B.(status := Stale)];
  }

  /** The editor's text area reports every change as the replacement of the whole old
      text; for such a change the whole new text is the inserted text, so the length
      `handleTextChange` passes is the right one. */
  lemma WholeDocumentReplacementAgrees(suggestions: seq<Suggestion>, oldText: string, newText: string)
    ensures HandleTextChange(suggestions, oldText, newText, 0, |oldText|)
            == HandleTextChangeCorrected(suggestions, oldText, newText, 0, |oldText|)
  {
  }

  /** A whole-document replacement overlaps every anchor on a non-empty text, and the
      recovery never reopens a suggestion: everything comes out stale. */
  lemma WholeDocumentReplacementStalesAll(suggestions: seq<Suggestion>, oldText: string, newText: string)
    requires forall i :: 0 <= i < |suggestions| ==>
               Anchored(oldText, suggestions[i]) && |suggestions[i].originalText| > 0
    ensures forall i :: 0 <= i < |suggestions| ==>
              HandleTextChange(suggestions, oldText, newText, 0, |oldText|)[i].status == Stale
  {
  }

  /** With the corrected replacement length the same edit keeps the suggestion open
      where it is. */
  lemma CorrectedKeepsItOpen()
    ensures HandleTextChangeCorrected([B], "ab", "xb", 0, 1) == [B]
  {
    var same := AdjustSuggestionPositions([B], 0, 1, 1);
    assert same == [B];
    assert "xb"[1..2] == "b";
    assert MatchesText("xb", B);
    assert ValidateSuggestionPositions(same, "xb") == [B];
    assert B.status == Open && [B][1..] == [];
    assert StaleOnes([B]) == StaleOnes([B][1..]);
    assert Kept([B]) == [B] && StaleOnes([B]) == [];
  }
}
