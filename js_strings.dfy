/**
 * The JavaScript string primitives the suggestion-position utilities rely on:
 * `String.prototype.indexOf`, `String.prototype.slice`, `String.prototype.split`
 * with a one-character separator, and `Array.prototype.join`.
 * A JavaScript string is a sequence of UTF-16 code units; each `char` stands for one
 * code unit under an injective encoding, which is sound because only equality of
 * characters and the newline character are used.
 */
module JsStrings {

  /** `pat` occurs in `text` starting at offset `k`. */
  predicate OccursAt(text: string, pat: string, k: int) {
    0 <= k && k + |pat| <= |text| && text[k..k + |pat|] == pat
  }

  /** `k` is the leftmost offset at which `pat` occurs in `text`. */
  predicate IsFirstOccurrence(text: string, pat: string, k: int) {
    OccursAt(text, pat, k) && forall j :: 0 <= j < k ==> !OccursAt(text, pat, j)
  }

  /** Leftmost occurrence of `pat` in `text` at or after `from`, or -1. */
  function IndexOfFrom(text: string, pat: string, from: nat): (r: int)
    ensures r == -1 ==> forall k :: from <= k ==> !OccursAt(text, pat, k)
    ensures r != -1 ==> from <= r && OccursAt(text, pat, r)
                        && forall j :: from <= j < r ==> !OccursAt(text, pat, j)
    decreases |text| + 1 - from
  {
    if from + |pat| > |text| then -1
    else if text[from..from + |pat|] == pat then from
    else IndexOfFrom(text, pat, from + 1)
  }

  /** `text.indexOf(pat)`: the first occurrence, or -1 when there is none.
      An empty `pat` is found at offset 0. */
  function FirstIndexOf(text: string, pat: string): (r: int)
    ensures r == -1 <==> forall k :: !OccursAt(text, pat, k)
    ensures r != -1 ==> IsFirstOccurrence(text, pat, r)
  {
    IndexOfFrom(text, pat, 0)
  }

  /** A found occurrence is the only one that can be first. */
  lemma FirstOccurrenceUnique(text: string, pat: string, k1: int, k2: int)
    requires IsFirstOccurrence(text, pat, k1) && IsFirstOccurrence(text, pat, k2)
    ensures k1 == k2
  {
  }

  /** How `slice` normalises one index against the length: negative indices
      count from the end, and every index is clamped into `[0, len]`. */
  function ClampIndex(i: int, len: nat): (r: nat)
    ensures r <= len
    ensures 0 <= i <= len ==> r == i
    ensures i > len ==> r == len
    ensures i < 0 ==> r == if len + i < 0 then 0 else len + i
  {
    if i < 0 then (if len + i < 0 then 0 else len + i)
    else if i > len then len
    else i
  }

  /** `text.slice(s, e)`: an empty string whenever the normalised start is not
      before the normalised end. */
  function Slice(text: string, s: int, e: int): (r: string)
    ensures 0 <= s <= e <= |text| ==> r == text[s..e]
    ensures 0 <= e <= s ==> r == []
    ensures |r| <= |text|
  {
    var a := ClampIndex(s, |text|);
    var b := ClampIndex(e, |text|);
    if a < b then text[a..b] else []
  }

  /** `text.split(sep)` for a one-character separator. */
  function Split(text: string, sep: char): (lines: seq<string>)
    ensures |lines| >= 1
    ensures forall i :: 0 <= i < |lines| ==> sep !in lines[i]
    decreases |text|
  {
    if |text| == 0 then [""]
    else
      var rest := Split(text[1..], sep);
      if text[0] == sep then [""] + rest
      else [[text[0]] + rest[0]] + rest[1..]
  }

  /** `lines.join(sep)` for a one-character separator. */
  function Join(lines: seq<string>, sep: char): (r: string)
  {
    if |lines| == 0 then ""
    else if |lines| == 1 then lines[0]
    else lines[0] + [sep] + Join(lines[1..], sep)
  }

  /** Splitting and joining again gives back the text. */
  lemma {:induction false} JoinSplit(text: string, sep: char)
    ensures Join(Split(text, sep), sep) == text
    decreases |text|
  {
    if |text| > 0 {
      var rest := Split(text[1..], sep);
      JoinSplit(text[1..], sep);
      if text[0] == sep {
        assert Split(text, sep) == [""] + rest;
        assert ([""] + rest)[1..] == rest;
      } else {
        var lines := [[text[0]] + rest[0]] + rest[1..];
        assert Split(text, sep) == lines;
        if |rest| == 1 {
          assert Join(rest, sep) == rest[0];
        } else {
          assert lines[1..] == rest[1..];
          assert Join(rest, sep) == rest[0] + [sep] + Join(rest[1..], sep);
        }
        assert text == [text[0]] + text[1..];
      }
    }
  }

  /** A piece without the separator splits into itself. */
  lemma {:induction false} SplitNoSeparator(x: string, sep: char)
    requires sep !in x
    ensures Split(x, sep) == [x]
    decreases |x|
  {
    if |x| > 0 {
      SplitNoSeparator(x[1..], sep);
      assert x == [x[0]] + x[1..];
    }
  }

  /** The separator ends the first piece. */
  lemma {:induction false} SplitAtSeparator(x: string, y: string, sep: char)
    requires sep !in x
    ensures Split(x + [sep] + y, sep) == [x] + Split(y, sep)
    decreases |x|
  {
    var t := x + [sep] + y;
    if |x| == 0 {
      assert t[1..] == y;
    } else {
      assert t[1..] == x[1..] + [sep] + y;
      SplitAtSeparator(x[1..], y, sep);
      assert x == [x[0]] + x[1..];
    }
  }

  /** Joining pieces that hold no separator and splitting again gives back the pieces. */
  lemma {:induction false} SplitJoin(lines: seq<string>, sep: char)
    requires |lines| >= 1
    requires forall i :: 0 <= i < |lines| ==> sep !in lines[i]
    ensures Split(Join(lines, sep), sep) == lines
  {
    if |lines| == 1 {
      SplitNoSeparator(lines[0], sep);
    } else {
      SplitJoin(lines[1..], sep);
      SplitAtSeparator(lines[0], Join(lines[1..], sep), sep);
      assert lines == [lines[0]] + lines[1..];
    }
  }

  /** Joining one more piece appends the separator and the piece. */
  lemma {:induction false} JoinSnoc(xs: seq<string>, y: string, sep: char)
    requires |xs| >= 1
    ensures Join(xs + [y], sep) == Join(xs, sep) + [sep] + y
  {
    if |xs| == 1 {
      assert (xs + [y])[1..] == [y];
    } else {
      JoinSnoc(xs[1..], y, sep);
      assert (xs + [y])[1..] == xs[1..] + [y];
    }
  }
}
