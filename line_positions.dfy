/**
 * The line-based alternative to character offsets: for each suggestion, the loop
 * over the lines of the text that finds the line holding the anchor's start and the
 * line holding its end, and the column formula applied to each.
 */
module LinePositions {
  import opened JsStrings
  import opened SuggestionPositions

  /** The fields the conversion adds to an anchor. */
  datatype LinePosition = LinePosition(startLine: int, endLine: int, startChar: int, endChar: int)

  /** A suggestion with its anchor extended by a line position. */
  datatype LineSuggestion = LineSuggestion(suggestion: Suggestion, position: LinePosition)

  /** Offset at which line `i` starts when every line is counted with one
      character for its newline. */
  function Offset(lines: seq<string>, i: nat): nat
    requires i <= |lines|
  {
    if i == 0 then 0 else Offset(lines, i - 1) + |lines[i - 1]| + 1
  }

  /** The start test of the loop: `pos` lies in line `i` or on its newline. */
  predicate StartFits(lines: seq<string>, i: int, pos: int)
    requires 0 <= i < |lines|
  {
    Offset(lines, i) <= pos < Offset(lines, i) + |lines[i]| + 1
  }

  /** The end test of the loop: like the start test but closed at the top. */
  predicate EndFits(lines: seq<string>, i: int, pos: int)
    requires 0 <= i < |lines|
  {
    Offset(lines, i) <= pos <= Offset(lines, i) + |lines[i]| + 1
  }

  /** `sl` is the line among the first `n` whose start test holds, or 0 if none does. */
  ghost predicate StartScan(lines: seq<string>, pos: int, n: int, sl: int)
    requires 0 <= n <= |lines|
  {
    if exists j :: 0 <= j < n && StartFits(lines, j, pos)
    then 0 <= sl < n && StartFits(lines, sl, pos)
    else sl == 0
  }

  /** What the loop computes: `el` is the first line whose end test holds (0 when none
      does), and `sl` is the line whose start test holds among the lines visited up to
      and including `el` (0 when none does). */
  ghost predicate IsLineSpan(lines: seq<string>, start: int, end: int, sl: int, el: int) {
    if exists i :: 0 <= i < |lines| && EndFits(lines, i, end)
    then && 0 <= el < |lines| && EndFits(lines, el, end)
         && (forall j :: 0 <= j < el ==> !EndFits(lines, j, end))
         && StartScan(lines, start, el + 1, sl)
    else el == 0 && StartScan(lines, start, |lines|, sl)
  }

  /** Lines follow each other: a later line starts after an earlier one ends. */
  lemma {:induction false} OffsetIncreasing(lines: seq<string>, i: nat, j: nat)
    requires i < j <= |lines|
    ensures Offset(lines, i) + |lines[i]| + 1 <= Offset(lines, j)
  {
    if j > i + 1 {
      OffsetIncreasing(lines, i, j - 1);
    }
  }

  /** At most one line passes the start test. */
  lemma StartFitsUnique(lines: seq<string>, pos: int, i: int, j: int)
    requires 0 <= i < |lines| && 0 <= j < |lines|
    requires StartFits(lines, i, pos) && StartFits(lines, j, pos)
    ensures i == j
  {
    if i < j {
      OffsetIncreasing(lines, i, j);
    } else if j < i {
      OffsetIncreasing(lines, j, i);
    }
  }

  /** The line span is determined by the lines and the anchor. */
  lemma LineSpanUnique(lines: seq<string>, start: int, end: int, sl1: int, el1: int, sl2: int, el2: int)
    requires IsLineSpan(lines, start, end, sl1, el1) && IsLineSpan(lines, start, end, sl2, el2)
    ensures sl1 == sl2 && el1 == el2
  {
    if exists j :: 0 <= j < |lines| && EndFits(lines, j, end) {
      assert EndFits(lines, el1, end) && EndFits(lines, el2, end);
    }
    var n := if exists j :: 0 <= j < |lines| && EndFits(lines, j, end) then el1 + 1 else |lines|;
    assert StartScan(lines, start, n, sl1) && StartScan(lines, start, n, sl2);
    if exists j :: 0 <= j < n && StartFits(lines, j, start) {
      StartFitsUnique(lines, start, sl1, sl2);
    }
  }

  /** Lines found by the loop lie among the lines of the text. */
  lemma LineSpanInRange(lines: seq<string>, start: int, end: int, sl: int, el: int)
    requires |lines| > 0 && IsLineSpan(lines, start, end, sl, el)
    ensures 0 <= sl < |lines| && 0 <= el < |lines|
  {
  }

  /** The loop of `convertToLineBasedPositions` for one anchor, stopping at the first
      line that passes the end test. */
  method LocateLines(lines: seq<string>, start: int, end: int) returns (startLine: int, endLine: int)
    ensures IsLineSpan(lines, start, end, startLine, endLine)
    ensures |lines| > 0 ==> 0 <= startLine < |lines| && 0 <= endLine < |lines|
  {
    var currentPos := 0;
    startLine, endLine := 0, 0;
    var i := 0;
    while i < |lines|
      invariant 0 <= i <= |lines|
      invariant currentPos == Offset(lines, i)
      invariant endLine == 0
      invariant forall j :: 0 <= j < i ==> !EndFits(lines, j, end)
      invariant StartScan(lines, start, i, startLine)
    {
      var lineLength := |lines[i]| + 1;
      if currentPos <= start && start < currentPos + lineLength {
        startLine := i;
        assert StartFits(lines, i, start);
      } else {
        assert !StartFits(lines, i, start);
      }
      assert StartScan(lines, start, i + 1, startLine);
      if currentPos <= end && end <= currentPos + lineLength {
        endLine := i;
        assert EndFits(lines, i, end);
        break;
      }
      currentPos := currentPos + lineLength;
      i := i + 1;
    }
  }

  /** The column formula as the source writes it: the offset minus the length of the
      earlier lines joined by newlines, minus the line number. */
  function AsWrittenColumn(lines: seq<string>, k: int, pos: int): int
    requires 0 <= k <= |lines|
  {
    pos - (|Join(lines[..k], '\n')| + k)
  }

  /** The column within line `k`: the offset minus where the line starts. */
  function Column(lines: seq<string>, k: int, pos: int): int
    requires 0 <= k <= |lines|
  {
    pos - Offset(lines, k)
  }

  /** The earlier lines joined by newlines are one character shorter than the offset
      of line `k` (the last of them has no newline). */
  lemma {:induction false} JoinPrefixLength(lines: seq<string>, k: nat)
    requires 1 <= k <= |lines|
    ensures |Join(lines[..k], '\n')| == Offset(lines, k) - 1
  {
    if k > 1 {
      JoinPrefixLength(lines, k - 1);
      assert lines[..k] == lines[..k - 1] + [lines[k - 1]];
      JoinSnoc(lines[..k - 1], lines[k - 1], '\n');
    }
  }

  /** The column formula as written is right on the first two lines and too small by
      `k - 1` on line `k` from the third line on. */
  lemma AsWrittenColumnShortBy(lines: seq<string>, k: int, pos: int)
    requires 0 <= k <= |lines|
    ensures k == 0 ==> AsWrittenColumn(lines, k, pos) == Column(lines, k, pos)
    ensures k >= 1 ==> AsWrittenColumn(lines, k, pos) == Column(lines, k, pos) - (k - 1)
  {
    if k >= 1 {
      JoinPrefixLength(lines, k);
    }
  }

  /** Line `k` starts `Offset(lines, k)` characters into the joined lines. */
  lemma {:induction false} OffsetCons(lines: seq<string>, k: nat)
    requires 1 <= k <= |lines|
    ensures Offset(lines, k) == |lines[0]| + 1 + Offset(lines[1..], k - 1)
  {
    if k > 1 {
      OffsetCons(lines, k - 1);
    }
  }

  /** Character `c` of line `k` is character `Offset(lines, k) + c` of the joined lines. */
  lemma {:induction false} JoinAt(lines: seq<string>, k: nat, c: nat)
    requires k < |lines| && c < |lines[k]|
    ensures Offset(lines, k) + c < |Join(lines, '\n')|
    ensures Join(lines, '\n')[Offset(lines, k) + c] == lines[k][c]
  {
    if k == 0 {
      if |lines| > 1 {
        assert Join(lines, '\n') == lines[0] + ['\n'] + Join(lines[1..], '\n');
      }
    } else {
      OffsetCons(lines, k);
      JoinAt(lines[1..], k - 1, c);
      assert Join(lines, '\n') == lines[0] + ['\n'] + Join(lines[1..], '\n');
    }
  }

  /** The corrected column of a position the start test places on line `k` lies within
      that line (or on its newline), and names the character found at that position. */
  lemma ColumnCorrect(text: string, k: int, pos: int)
    requires 0 <= k < |Split(text, '\n')| && StartFits(Split(text, '\n'), k, pos)
    ensures var lines := Split(text, '\n');
            var col := Column(lines, k, pos);
            && 0 <= col <= |lines[k]|
            && (col < |lines[k]| ==> pos < |text| && text[pos] == lines[k][col])
  {
    var lines := Split(text, '\n');
    var col := Column(lines, k, pos);
    if col < |lines[k]| {
      JoinSplit(text, '\n');
      JoinAt(lines, k, col);
    }
  }

  /** `convertToLineBasedPositions`: keeps every suggestion as it is and adds the line
      of its start and of its end, and a column for each computed by the formula as
      written. */
  method ConvertToLineBasedPositions(suggestions: seq<Suggestion>, text: string)
    returns (r: seq<LineSuggestion>)
    ensures |r| == |suggestions|
    ensures forall i :: 0 <= i < |r| ==> r[i].suggestion == suggestions[i]
    ensures forall i :: 0 <= i < |r| ==>
              var lines := Split(text, '\n');
              var a := suggestions[i].anchor;
              var p := r[i].position;
              && IsLineSpan(lines, a.start, a.end, p.startLine, p.endLine)
              && 0 <= p.startLine < |lines| && 0 <= p.endLine < |lines|
              && p.startChar == AsWrittenColumn(lines, p.startLine, a.start)
              && p.endChar == AsWrittenColumn(lines, p.endLine, a.end)
  {
    var lines := Split(text, '\n');
    r := [];
    var i := 0;
    while i < |suggestions|
      invariant 0 <= i <= |suggestions| && |r| == i
      invariant forall j :: 0 <= j < i ==> r[j].suggestion == suggestions[j]
      invariant forall j :: 0 <= j < i ==>
                  var a := suggestions[j].anchor;
                  var p := r[j].position;
                  && IsLineSpan(lines, a.start, a.end, p.startLine, p.endLine)
                  && 0 <= p.startLine < |lines| && 0 <= p.endLine < |lines|
                  && p.startChar == AsWrittenColumn(lines, p.startLine, a.start)
                  && p.endChar == AsWrittenColumn(lines, p.endLine, a.end)
    {
      var s := suggestions[i];
      var startLine, endLine := LocateLines(lines, s.anchor.start, s.anchor.end);
      var startChar := AsWrittenColumn(lines, startLine, s.anchor.start);
      var endChar := AsWrittenColumn(lines, endLine, s.anchor.end);
      r := r + [LineSuggestion(s, LinePosition(startLine, endLine, startChar, endChar))];
      i := i + 1;
    }
  }
}
