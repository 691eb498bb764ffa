/**
 The line-oriented operations of the document: creating, selecting, moving,
 duplicating and joining lines, and case conversion of a span. Each works on
 the whole text and returns the new text, whether a document event fired, and
 the offsets the caller uses to place the caret. Every location error the
 original catches and prints becomes "text unchanged, fallback result".
 */
module TextLines {
  import opened JavaText
  import opened TextDocument

  /** No line feed in `s[a..b)` (both ends clamped to the text). */
  predicate NoNewline(s: string, a: int, b: int)
  {
    forall k :: a <= k < b && 0 <= k < |s| ==> s[k] != '\n'
  }

  predicate IsBlank(c: char) { c == ' ' || c == '\t' }

  // ---------------------------------------------------------------------------
  // Line creation

  /** `createLineAbove(index)`: one '\n' goes in front of the last '\n' before
      `index`; when there is none, in front of the first '\n' of the text; when
      the text has none, at its end. The caret lands just after the new '\n'. */
  function CreateLineAbove(text: string, index: int): (r: (Edit, int))
    ensures var q := r.1 - 1;
            0 <= q <= |text| && r.0 == Edit(InsertAt(text, q, "\n"), true)
    ensures var q := r.1 - 1;
            !NoNewline(text, 0, index) ==>
              q < index && q < |text| && text[q] == '\n' && NoNewline(text, q + 1, index)
    ensures var q := r.1 - 1;
            NoNewline(text, 0, index) && '\n' in text ==>
              q < |text| && text[q] == '\n' && NoNewline(text, 0, q)
    ensures '\n' !in text ==> r.1 == |text| + 1
  {
    var before := LastIndexOfChar(text, '\n', index - 1);
    var q := if before != -1 then before
             else
               var first := IndexOfChar(text, '\n', 0);
               if first == -1 then |text| else first;
    (Edit(InsertAt(text, q, "\n"), true), q + 1)
  }

  /** `createLineBelow(index)`: one '\n' goes in front of the first '\n' at or
      after `index`, or at the end of the text. The caret lands after it. */
  function CreateLineBelow(text: string, index: int): (r: (Edit, int))
    ensures var q := r.1 - 1;
            0 <= q <= |text| && r.0 == Edit(InsertAt(text, q, "\n"), true)
    ensures var q := r.1 - 1;
            (index <= |text| ==> Max(index, 0) <= q) && NoNewline(text, Max(index, 0), q) && (q == |text| || text[q] == '\n')
  {
    var next := IndexOfChar(text, '\n', index);
    var q := if next == -1 then |text| else next;
    (Edit(InsertAt(text, q, "\n"), true), q + 1)
  }

  // ---------------------------------------------------------------------------
  // Line selection

  /** `selectLine(index)`: the line holding `index`, without its terminator. */
  function SelectLine(text: string, index: int): (r: Span)
    ensures 0 <= r.start <= r.end <= |text|
    ensures NoNewline(text, r.start, r.end)
    ensures r.start == 0 || text[r.start - 1] == '\n'
    ensures r.end == |text| || text[r.end] == '\n'
    ensures 0 <= index <= |text| ==> r.start <= index <= r.end
  {
    var start := LastIndexOfChar(text, '\n', index - 1) + 1;
    var end := IndexOfChar(text, '\n', index);
    Span(start, if end == -1 then |text| else end)
  }

  /** The first offset in `[i, j)` that is not a space or tab, or -1. */
  function FirstNonBlank(s: string, i: int, j: int): (r: int)
    requires 0 <= i <= j <= |s|
    ensures r == -1 || (i <= r < j && !IsBlank(s[r]))
    ensures forall k :: i <= k < j && (r == -1 || k < r) ==> IsBlank(s[k])
    decreases j - i
  {
    if i == j then -1
    else if !IsBlank(s[i]) then i
    else FirstNonBlank(s, i + 1, j)
  }

  /** The last offset in `[i, j)` that is not a space or tab, or -1. */
  function LastNonBlank(s: string, i: int, j: int): (r: int)
    requires 0 <= i <= j <= |s|
    ensures r == -1 || (i <= r < j && !IsBlank(s[r]))
    ensures forall k :: i <= k < j && r < k ==> IsBlank(s[k])
    decreases j - i
  {
    if i == j then -1
    else if !IsBlank(s[j - 1]) then j - 1
    else LastNonBlank(s, i, j - 1)
  }

  /** The two scans agree: both find a character that is not blank, the
      first no later than the last, exactly when the range holds one. */
  lemma NonBlankScans(s: string, i: int, j: int)
    requires 0 <= i <= j <= |s|
    ensures var first, last := FirstNonBlank(s, i, j), LastNonBlank(s, i, j);
            && ((exists k :: i <= k < j && !IsBlank(s[k])) <==> first != -1)
            && (first == -1 <==> last == -1)
            && (first != -1 ==> first <= last)
  {
  }

  /** `selectLineText(index)`: the line holding `index` with leading and
      trailing spaces and tabs (only those) trimmed off. On a line of blanks
      only, both scans keep their start value `index`, so the span is
      `[lineStart + index, lineStart + index + 1)`. */
  function SelectLineText(text: string, index: int): Span
  {
    Trim(text, SelectLine(text, index), index)
  }

  /** The trimming step of `selectLineText` on the span `line`. */
  function Trim(text: string, line: Span, index: int): Span
    requires 0 <= line.start <= line.end <= |text|
  {
    var first := FirstNonBlank(text, line.start, line.end);
    var last := LastNonBlank(text, line.start, line.end);
    // offsets within the line, with `index` as the scans' initial value
    var start := if first == -1 then index else first - line.start;
    var end := if last == -1 then index else last - line.start;
    Span(line.start + start, line.start + end + 1)
  }

  /** `[s, e)` is the range `line` cut down to its first through its last
      character that is not blank, with only blanks cut off. */
  predicate TrimmedTo(text: string, line: Span, s: int, e: int)
    requires 0 <= line.start <= line.end <= |text|
  {
    && line.start <= s < e <= line.end
    && !IsBlank(text[s]) && !IsBlank(text[e - 1])
    && (forall k :: line.start <= k < s ==> IsBlank(text[k]))
    && (forall k :: e <= k < line.end ==> IsBlank(text[k]))
  }

  /** `line` holds a character that is not blank. */
  predicate HasNonBlank(text: string, line: Span)
    requires 0 <= line.start <= line.end <= |text|
  {
    exists k :: line.start <= k < line.end && !IsBlank(text[k])
  }

  /** A range holding a character that is not blank is trimmed to the span
      from its first to its last such character, with only blanks cut off. */
  lemma TrimTrims(text: string, line: Span, index: int)
    requires 0 <= line.start <= line.end <= |text|
    ensures var r := Trim(text, line, index);
            HasNonBlank(text, line) ==> TrimmedTo(text, line, r.start, r.end)
  {
    if HasNonBlank(text, line) {
      NonBlankScans(text, line.start, line.end);
    }
  }

  /** A line holding a character that is not blank is trimmed to the span from
      its first to its last such character. */
  lemma SelectLineTextTrims(text: string, index: int)
    ensures var line, r := SelectLine(text, index), SelectLineText(text, index);
            HasNonBlank(text, line) ==> TrimmedTo(text, line, r.start, r.end)
  {
    TrimTrims(text, SelectLine(text, index), index);
  }

  /** A line of blanks only gives the one-character span at `index` past the
      line start, wherever that falls. */
  lemma SelectLineTextBlankLine(text: string, index: int)
    ensures var line := SelectLine(text, index);
            (forall k :: line.start <= k < line.end ==> IsBlank(text[k])) ==>
              SelectLineText(text, index) == Span(line.start + index, line.start + index + 1)
  {
    var line := SelectLine(text, index);
    NonBlankScans(text, line.start, line.end);
  }

  // ---------------------------------------------------------------------------
  // Duplicating and joining lines

  /** The end of the segment `duplicateLines` and `joinLines` act on. The test
      compares the character at `end` with the letter 'n' (not a line feed):
      when `end` is the text's end or holds an 'n' the segment ends at `end`;
      otherwise at the next '\n', or at the last character. */
  function SegmentEnd(text: string, end: int): (s: int)
    requires 0 <= end <= |text|
    ensures end <= s <= |text|
    ensures end == |text| || text[end] == 'n' ==> s == end
    ensures end < |text| && text[end] != 'n' ==>
              s < |text| && NoNewline(text, end, s) &&
              (text[s] == '\n' || (s == |text| - 1 && text[s] != '\n'))
  {
    if end != |text| && text[end] != 'n' then
      var next := IndexOfChar(text, '\n', end);
      if next == -1 then |text| - 1 else next
    else end
  }

  /** The '\n' before the segment's first line (at or before `start`), or -1. */
  function SegmentStart(text: string, start: int): (f: int)
    ensures -1 <= f < |text|
    ensures f >= 0 ==> text[f] == '\n' && f <= start && NoNewline(text, f + 1, start + 1)
    ensures f == -1 ==> NoNewline(text, 0, start + 1)
  {
    LastIndexOfChar(text, '\n', start)
  }

  /** `duplicateLines(start, end)`: with `f = SegmentStart` and `s = SegmentEnd`,
      the characters `text[f+1..s]` (both ends included) are copied in right
      after `s`. The copy is read with the document's phantom trailing '\n'
      visible, and inserting at `s + 1` past the end is refused, so the call
      does nothing when `end` is the end of the text. */
  function DuplicateLines(text: string, start: int, end: int): (r: Edit)
    requires 0 <= end <= |text|
    ensures var f := SegmentStart(text, start);
            var s := SegmentEnd(text, end);
            f < s < |text| ==>
              r.fired && r.text == InsertAt(text, s + 1, text[f + 1..s + 1])
    ensures var f := SegmentStart(text, start);
            var s := SegmentEnd(text, end);
            !(f < s < |text|) ==> r == Edit(text, false)
  {
    var f := SegmentStart(text, start);
    var s := SegmentEnd(text, end);
    if s - f < 0 then Edit(text, false)      // getText with a negative length
    else
      var dub := (text + "\n")[f + 1..s + 1];
      if dub == [] then Edit(text, false)     // inserting nothing
      else if s + 1 > |text| then Edit(text, false)  // insertion past the end
      else
        PhantomSlice(text, f + 1, s + 1);
        Edit(InsertAt(text, s + 1, text[f + 1..s + 1]), true)
  }

  /** Reading within the text is unaffected by the phantom trailing '\n'. */
  lemma PhantomSlice(text: string, i: int, j: int)
    requires 0 <= i <= j <= |text|
    ensures (text + "\n")[i..j] == text[i..j]
  {
  }

  /** With the caret at the very end nothing is duplicated: the copy would go
      past the end of the text. */
  lemma DuplicateAtEndDoesNothing(text: string, start: int)
    ensures DuplicateLines(text, start, |text|) == Edit(text, false)
  {
    assert SegmentEnd(text, |text|) == |text|;
  }

  /** On a single line (no '\n') with a caret not on an 'n', the line is
      duplicated exactly once. */
  lemma DuplicateSingleLine(text: string, caret: int)
    requires '\n' !in text
    requires 0 <= caret < |text| && text[caret] != 'n'
    ensures DuplicateLines(text, caret, caret) == Edit(text + text, true)
  {
    var s := SegmentEnd(text, caret);
    assert s == |text| - 1;
    assert SegmentStart(text, caret) == -1;
    assert text[0..|text|] == text;
  }

  /** The segment around offset 2 of "banana": from the start of the text
      up to the letter 'n'. */
  lemma BananaSegment()
    ensures SegmentEnd("banana", 2) == 2 && SegmentStart("banana", 2) == -1
  {
    assert "banana"[2] == 'n';
  }

  /** The 'n' comparison: with the caret on the letter 'n' of "banana" the
      segment stops there, and only "ban" is copied. */
  lemma DuplicateStopsAtLetterN()
    ensures DuplicateLines("banana", 2, 2) == Edit("banbanana", true)
  {
    BananaSegment();
    var t := "banana";
    assert t[0..3] == "ban" && t[..3] == "ban" && t[3..] == "ana";
    assert InsertAt(t, 3, "ban") == "banbanana";
  }

  /** `joinLines(start, end, pattern)`: every '\n' in `text[f+1..s)` becomes
      `pattern`; nothing happens when that range holds no '\n'. */
  function JoinLines(text: string, start: int, end: int, pattern: string): (r: Edit)
    requires 0 <= end <= |text|
    ensures var f := SegmentStart(text, start);
            var s := SegmentEnd(text, end);
            f + 1 <= s && '\n' in text[f + 1..s] ==>
              r.fired && r.text == text[..f + 1] + ReplaceChar(text[f + 1..s], '\n', pattern) + text[s..]
    ensures var f := SegmentStart(text, start);
            var s := SegmentEnd(text, end);
            !(f + 1 <= s && '\n' in text[f + 1..s]) ==> r == Edit(text, false)
  {
    var f := SegmentStart(text, start);
    var s := SegmentEnd(text, end);
    var length := s - f - 1;
    if length < 0 then Edit(text, false)     // getText with a negative length
    else
      var toJoin := text[f + 1..s];             // getText(f + 1, length)
      var joined := ReplaceChar(toJoin, '\n', pattern);
      if '\n' in toJoin then
        ReplaceSpan(text, f + 1, s, joined);
        Edit(InsertAt(RemoveAt(text, f + 1, length), f + 1, joined), true)
      else Edit(text, false)
  }

  /** A line feed after `start`, at `k`, and before `end` lies inside the
      segment `joinLines` works on. */
  lemma SegmentHoldsLineFeed(text: string, start: int, end: int, k: int)
    requires 0 <= start < k < end <= |text| && text[k] == '\n'
    ensures var f, s := SegmentStart(text, start), SegmentEnd(text, end);
            0 <= f + 1 <= k < s <= |text| && text[f + 1..s][k - f - 1] == '\n'
  {
    var f := SegmentStart(text, start);
    var s := SegmentEnd(text, end);
    assert f <= start;
    assert end <= s <= |text|;
  }

  /** Replacing `text[i..j)`, which holds a line feed, by a part without
      any lowers the count of line feeds. */
  lemma FewerLineFeeds(text: string, i: int, j: int, x: string)
    requires 0 <= i <= j <= |text| && '\n' in text[i..j] && '\n' !in x
    ensures multiset(text[..i] + x + text[j..])['\n'] < multiset(text)['\n']
  {
    var a, m, b := text[..i], text[i..j], text[j..];
    assert text == a + m + b;
    assert multiset(a + x + b) == multiset(a) + multiset(x) + multiset(b);
    assert multiset(a + m + b) == multiset(a) + multiset(m) + multiset(b);
  }

  /** Joining around a line feed at `k`, strictly after `start` and before
      `end`, with a pattern free of line feeds, fires and lowers the count of
      line feeds. */
  lemma JoinLinesFewerLineFeeds(text: string, start: int, end: int, pattern: string, k: int)
    requires 0 <= start < k < end <= |text| && text[k] == '\n' && '\n' !in pattern
    ensures JoinLines(text, start, end, pattern).fired
    ensures multiset(JoinLines(text, start, end, pattern).text)['\n'] < multiset(text)['\n']
  {
    var f, s := SegmentStart(text, start), SegmentEnd(text, end);
    SegmentHoldsLineFeed(text, start, end, k);
    assert '\n' in text[f + 1..s];
    var x := ReplaceChar(text[f + 1..s], '\n', pattern);
    var r := JoinLines(text, start, end, pattern).text;
    assert r == text[..f + 1] + x + text[s..];
    FewerLineFeeds(text, f + 1, s, x);
  }

  /** A line feed at the selection start is not joined: the segment begins
      after the last '\n' at or before `start`, here the selected one. */
  lemma JoinSkipsLineFeedAtStart()
    ensures JoinLines("a\nb", 1, 2, " ") == Edit("a\nb", false)
  {
    assert SegmentStart("a\nb", 1) == 1;
    assert SegmentEnd("a\nb", 2) == 2 by {
      assert IndexOfChar("a\nb", '\n', 2) == -1;
    }
  }

  /** Removing `text[i..j)` and inserting `x` in its place. */
  lemma ReplaceSpan(text: string, i: int, j: int, x: string)
    requires 0 <= i <= j <= |text|
    ensures InsertAt(RemoveAt(text, i, j - i), i, x) == text[..i] + x + text[j..]
  {
    var a, m, b := text[..i], text[i..j], text[j..];
    assert text == a + m + b;
    RemoveFromConcat(a, m, b);
    InsertIntoConcat(a, b, x);
  }

  /** Joining with a pattern free of line feeds leaves the joined range free of
      them, and the text around it untouched. */
  lemma JoinLinesRemovesNewlines(text: string, start: int, end: int, pattern: string)
    requires 0 <= end <= |text|
    requires '\n' !in pattern
    requires JoinLines(text, start, end, pattern).fired
    ensures var f := SegmentStart(text, start);
            var s := SegmentEnd(text, end);
            var r := JoinLines(text, start, end, pattern).text;
            var n := |r| - |text| + (s - f - 1);
            && 0 <= f + 1 <= f + 1 + n <= |r|
            && r[..f + 1] == text[..f + 1]
            && '\n' !in r[f + 1..f + 1 + n]
            && r[f + 1 + n..] == text[s..]
  {
    var f := SegmentStart(text, start);
    var s := SegmentEnd(text, end);
    var joined := ReplaceChar(text[f + 1..s], '\n', pattern);
    var r := JoinLines(text, start, end, pattern).text;
    assert r == text[..f + 1] + joined + text[s..];
    assert r[f + 1..f + 1 + |joined|] == joined;
  }

  // ---------------------------------------------------------------------------
  // Moving lines

  /** The intended effect of swapping the line `text[a..b)` with the line after
      it, `text[b+1..c)`. */
  function SwapLines(text: string, a: int, b: int, c: int): string
    requires 0 <= a <= b < c <= |text|
  {
    text[..a] + text[b + 1..c] + "\n" + text[a..b] + text[c..]
  }

  /** The common tail of both movers: the range `text[lf..third)` (a '\n' and
      the line after it) is cut out and pasted at `first`; when `first` is 0 the
      leading '\n' is then moved behind the pasted line. */
  function CutAndPaste(text: string, first: int, lf: int, third: int): string
    requires 0 <= first <= lf < third <= |text|
  {
    var moved := text[lf..third];
    var pasted := InsertAt(RemoveAt(text, lf, |moved|), first, moved);
    if first == 0 then InsertAt(RemoveAt(pasted, 0, 1), |moved| - 1, "\n")
    else pasted
  }

  /** Cutting a range out and pasting it back elsewhere keeps every character. */
  lemma MovePermutes(text: string, first: int, lf: int, third: int)
    requires 0 <= first <= lf < third <= |text|
    ensures var moved := text[lf..third];
            multiset(InsertAt(RemoveAt(text, lf, |moved|), first, moved)) == multiset(text)
  {
    var moved := text[lf..third];
    var before, after := text[..lf], text[third..];
    assert text == before + moved + after;
    RemoveFromConcat(before, moved, after);
    MultisetInsertAt(before + after, first, moved);
  }

  /** Cutting and pasting keeps every character: only line feeds move about. */
  lemma CutAndPastePermutes(text: string, first: int, lf: int, third: int)
    requires 0 <= first <= lf < third <= |text|
    requires text[lf] == '\n'
    ensures var r := CutAndPaste(text, first, lf, third);
            |r| == |text| && multiset(r) == multiset(text)
  {
    var moved := text[lf..third];
    var pasted := InsertAt(RemoveAt(text, lf, |moved|), first, moved);
    MovePermutes(text, first, lf, third);
    if first == 0 {
      assert pasted[0] == '\n';
      var dropped := RemoveAt(pasted, 0, 1);
      MultisetRemoveAt(pasted, 0, 1);
      assert pasted[0..1] == "\n";
      MultisetInsertAt(dropped, |moved| - 1, "\n");
      calc {
        multiset(InsertAt(dropped, |moved| - 1, "\n"));
        multiset(dropped) + multiset("\n");
        { assert multiset(pasted[0..1]) == multiset("\n"); }
        multiset(pasted);
      }
      assert CutAndPaste(text, first, lf, third) == InsertAt(dropped, |moved| - 1, "\n");
    } else {
      assert CutAndPaste(text, first, lf, third) == pasted;
    }
  }

  /** Where both movers start the cut: the '\n' before the line ending at the
      '\n' at `q`, or offset 0 when there is none. Offset 0 is also what comes
      back when that '\n' is itself at offset 0. */
  function LineFeedBefore(text: string, q: int): (f: int)
    requires 0 <= q < |text|
    ensures 0 <= f <= q && NoNewline(text, f + 1, q)
    ensures f > 0 ==> text[f] == '\n'
    ensures f == 0 ==> text[0] == '\n' || NoNewline(text, 0, q)
  {
    var before := LastIndexOfChar(text, '\n', q - 1);
    if before == -1 then 0 else before
  }

  /** The end of the line that holds offset `from`: the next '\n' or the end. */
  function LineEndFrom(text: string, from: int): (e: int)
    requires 0 <= from
    ensures Min(from, |text|) <= e <= |text|
    ensures NoNewline(text, from, e) && (e == |text| || text[e] == '\n')
  {
    var after := IndexOfChar(text, '\n', from);
    if after == -1 then |text| else after
  }

  /** The edit and caret range of `moveLineDown` once the three line feeds are
      known: the lower line `text[second..third)` moves up to `first`, and the
      caret line's new range follows it. */
  function MovedDown(text: string, first: int, second: int, third: int): (Edit, Span)
    requires 0 <= first <= second < third <= |text|
  {
    var adjustment := if first == 0 then 1 else 0;
    var firstLf := first + 1;
    var firstLineLength := second - firstLf;
    var end := firstLf + (third - second);
    (Edit(CutAndPaste(text, first, second, third), true),
     Span(end - adjustment, end + firstLineLength))
  }

  /** The edit and caret range of `moveLineUp` once the three line feeds are
      known: the caret line `text[second..third)` moves up to `first`. */
  function MovedUp(text: string, first: int, second: int, third: int): (Edit, Span)
    requires 0 <= first <= second < third <= |text|
  {
    var lineLength := third - second;
    if first == 0 then
      (Edit(CutAndPaste(text, first, second, third), true), Span(0, lineLength - 1))
    else
      (Edit(CutAndPaste(text, first, second, third), true), Span(first + 1, first + lineLength))
  }

  /** `moveLineDown(index)`: swaps the caret's line with the next one and
      returns the caret line's new range. With no line below, the text is left
      alone and `{index, index}` comes back. */
  function MoveLineDown(text: string, index: int): (r: (Edit, Span))
    ensures NoNewline(text, Max(index, 0), |text|) <==> r == (Edit(text, false), Span(index, index))
  {
    var second := IndexOfChar(text, '\n', index);
    if second == -1 then (Edit(text, false), Span(index, index))
    else MovedDown(text, LineFeedBefore(text, second), second, LineEndFrom(text, second + 1))
  }

  /** `moveLineUp(index)`: swaps the caret's line with the previous one and
      returns the caret line's new range. With no line above, the text is left
      alone and `{index, index}` comes back. */
  function MoveLineUp(text: string, index: int): (r: (Edit, Span))
    ensures NoNewline(text, 0, index) <==> r == (Edit(text, false), Span(index, index))
  {
    var second := LastIndexOfChar(text, '\n', index - 1);
    if second == -1 then (Edit(text, false), Span(index, index))
    else MovedUp(text, LineFeedBefore(text, second), second, LineEndFrom(text, index))
  }

  /** Both movers keep every character; only line feeds change places. */
  lemma MoveLineDownPermutes(text: string, index: int)
    ensures var r := MoveLineDown(text, index).0.text;
            |r| == |text| && multiset(r) == multiset(text)
  {
    var second := IndexOfChar(text, '\n', index);
    if second != -1 {
      CutAndPastePermutes(text, LineFeedBefore(text, second), second, LineEndFrom(text, second + 1));
    }
  }

  lemma MoveLineUpPermutes(text: string, index: int)
    ensures var r := MoveLineUp(text, index).0.text;
            |r| == |text| && multiset(r) == multiset(text)
  {
    var second := LastIndexOfChar(text, '\n', index - 1);
    if second != -1 {
      CutAndPastePermutes(text, LineFeedBefore(text, second), second, LineEndFrom(text, index));
    }
  }

  /** The boundaries of two adjacent lines: `text[a..b)` and `text[b+1..c)`. */
  predicate AdjacentLines(text: string, a: int, b: int, c: int)
  {
    && 0 <= a <= b < c <= |text|
    && (a == 0 || text[a - 1] == '\n')
    && NoNewline(text, a, b) && text[b] == '\n'
    && NoNewline(text, b + 1, c) && (c == |text| || text[c] == '\n')
  }

  /** Cutting the '\n' and the lower line `y` that follow a front part. */
  lemma CutLowerLine(front: string, y: string, z: string)
    ensures var text := front + ("\n" + y) + z;
            && text[|front|..|front| + 1 + |y|] == "\n" + y
            && RemoveAt(text, |front|, 1 + |y|) == front + z
  {
    SliceOfConcat(front, "\n" + y, z);
    RemoveFromConcat(front, "\n" + y, z);
  }

  /** Pasting "\n" + `y` at offset 0 and then moving the leading '\n' to just
      behind `y`. */
  lemma PasteAtFrontThenFix(y: string, rest: string)
    ensures InsertAt(RemoveAt(InsertAt(rest, 0, "\n" + y), 0, 1), |y|, "\n") == y + "\n" + rest
  {
    var moved := "\n" + y;
    var pasted := InsertAt(rest, 0, moved);
    assert pasted == moved + rest;
    var dropped := RemoveAt(pasted, 0, 1);
    assert dropped == pasted[1..];
    assert pasted[1..] == y + rest;
    InsertIntoConcat(y, rest, "\n");
  }

  /** The corner case: the '\n' before the upper line `x` sits at offset 0 and
      is taken for "no line feed", so the swapped lines end up with both line
      feeds between them and none in front. */
  lemma CutAndPasteAfterLeadingNewline(x: string, y: string, z: string)
    ensures CutAndPaste(("\n" + x) + ("\n" + y) + z, 0, 1 + |x|, 2 + |x| + |y|) == y + "\n" + (("\n" + x) + z)
  {
    var front := "\n" + x;
    var text := front + ("\n" + y) + z;
    CutLowerLine(front, y, z);
    PasteAtFrontThenFix(y, front + z);
    assert CutAndPaste(text, 0, |front|, |front| + 1 + |y|)
        == InsertAt(RemoveAt(InsertAt(front + z, 0, "\n" + y), 0, 1), |y|, "\n");
  }

  /** Cutting the '\n' at `b` and the line after it and pasting them at the
      front puts that line first, followed by a '\n' and the rest. */
  lemma CutAndPasteAtFront(text: string, b: int, c: int)
    requires 0 <= b < c <= |text| && text[b] == '\n'
    ensures CutAndPaste(text, 0, b, c) == text[b + 1..c] + "\n" + (text[..b] + text[c..])
  {
    var y, rest := text[b + 1..c], text[..b] + text[c..];
    var moved := text[b..c];
    assert moved == "\n" + y;
    var cut := RemoveAt(text, b, |moved|);
    assert cut == rest;
    assert CutAndPaste(text, 0, b, c) == InsertAt(RemoveAt(InsertAt(cut, 0, moved), 0, 1), |y|, "\n");
    PasteAtFrontThenFix(y, rest);
  }

  /** Cutting the lower line and pasting it at the front of a text that starts
      with the upper line is the swap. */
  lemma CutAndPasteSwapsAtFront(text: string, b: int, c: int)
    requires 0 <= b < c <= |text| && text[b] == '\n'
    ensures CutAndPaste(text, 0, b, c) == SwapLines(text, 0, b, c)
  {
    CutAndPasteAtFront(text, b, c);
    assert text[..0] + text[b + 1..c] == text[b + 1..c];
    assert text[0..b] == text[..b];
  }

  /** The text with `text[b..c)` cut out, split at an offset `i` before `b`. */
  lemma CutSplit(text: string, i: int, b: int, c: int)
    requires 0 <= i <= b <= c <= |text|
    ensures var cut := RemoveAt(text, b, c - b);
            cut[..i] == text[..i] && cut[i..] == text[i..b] + text[c..]
  {
    var cut := RemoveAt(text, b, c - b);
    assert cut == text[..b] + text[c..];
    assert text[..b] == text[..i] + text[i..b];
  }

  /** Pasting into a text known by its two halves around the offset. */
  lemma PasteBetween(cut: string, i: int, moved: string, before: string, after: string)
    requires 0 <= i <= |cut| && cut[..i] == before && cut[i..] == after
    ensures InsertAt(cut, i, moved) == before + moved + after
  {
  }

  /** The two ways of writing the swapped text agree. */
  lemma SwapRegroup(p: string, u: string, y: string, z: string)
    ensures p + ("\n" + y) + ("\n" + u + z) == (p + "\n") + y + "\n" + u + z
  {
  }

  /** Cutting the lower line and pasting it at the line feed before the upper
      line is the swap, when that line feed is not at offset 0. */
  lemma CutAndPasteSwapsInside(text: string, a: int, b: int, c: int)
    requires 2 <= a <= b < c <= |text| && text[a - 1] == '\n' && text[b] == '\n'
    ensures CutAndPaste(text, a - 1, b, c) == SwapLines(text, a, b, c)
  {
    var p, u, y, z := text[..a - 1], text[a..b], text[b + 1..c], text[c..];
    var moved := text[b..c];
    assert moved == "\n" + y;
    var cut := RemoveAt(text, b, |moved|);
    assert CutAndPaste(text, a - 1, b, c) == InsertAt(cut, a - 1, moved);
    CutSplit(text, a - 1, b, c);
    assert text[a - 1..b] == "\n" + u;
    PasteBetween(cut, a - 1, moved, p, "\n" + u + z);
    assert text[..a] == p + "\n";
    SwapRegroup(p, u, y, z);
  }

  /** Cutting the lower line and pasting it at the upper line's start is the
      swap, except when the '\n' before the upper line is at offset 0. */
  lemma CutAndPasteSwaps(text: string, a: int, b: int, c: int)
    requires 0 <= a <= b < c <= |text| && text[b] == '\n'
    requires a == 0 || (a >= 2 && text[a - 1] == '\n')
    ensures CutAndPaste(text, if a == 0 then 0 else a - 1, b, c) == SwapLines(text, a, b, c)
  {
    if a == 0 {
      CutAndPasteSwapsAtFront(text, b, c);
    } else {
      CutAndPasteSwapsInside(text, a, b, c);
    }
  }

  /** The searches the movers make, evaluated where the line feeds are known. */
  lemma NextNewlineAt(text: string, from: int, q: int)
    requires 0 <= from <= q < |text| && text[q] == '\n' && NoNewline(text, from, q)
    ensures IndexOfChar(text, '\n', from) == q
  {
  }

  lemma PreviousNewlineAt(text: string, from: int, q: int)
    requires 0 <= q <= from < |text| && text[q] == '\n' && NoNewline(text, q + 1, from + 1)
    ensures LastIndexOfChar(text, '\n', from) == q
  {
  }

  lemma NoPreviousNewline(text: string, from: int)
    requires -1 <= from < |text| && NoNewline(text, 0, from + 1)
    ensures LastIndexOfChar(text, '\n', from) == -1
  {
  }

  /** `moveLineUp` once the '\n' before the caret is known to be at `b`. */
  lemma MoveLineUpAt(text: string, index: int, b: int)
    requires 0 <= b < |text| && LastIndexOfChar(text, '\n', index - 1) == b
    ensures MoveLineUp(text, index) == MovedUp(text, LineFeedBefore(text, b), b, LineEndFrom(text, index))
  {
  }

  /** Where the movers' searches land around two adjacent lines. */
  lemma LinesAround(text: string, a: int, b: int, c: int) returns (first: int)
    requires AdjacentLines(text, a, b, c)
    ensures first == (if a == 0 then 0 else a - 1)
    ensures a != 1 ==> LineFeedBefore(text, b) == first
    ensures forall from :: b < from <= c ==> LineEndFrom(text, from) == c
  {
    first := if a == 0 then 0 else a - 1;
    if a == 0 {
      NoPreviousNewline(text, b - 1);
    } else {
      PreviousNewlineAt(text, b - 1, a - 1);
    }
  }

  /** Away from the offset-0 corner case, `moveLineDown` on a caret inside
      `text[a..b]` swaps that line with the next and returns its new range. */
  lemma MoveLineDownSwaps(text: string, index: int, a: int, b: int, c: int)
    requires AdjacentLines(text, a, b, c) && a != 1
    requires a <= index <= b
    ensures var r := MoveLineDown(text, index);
            && r.0 == Edit(SwapLines(text, a, b, c), true)
            && r.1 == Span(a + (c - b), a + (c - b) + (b - a))
  {
    NextNewlineAt(text, index, b);
    var first := LinesAround(text, a, b, c);
    CutAndPasteSwaps(text, a, b, c);
    assert MoveLineDown(text, index) == MovedDown(text, first, b, c);
  }

  /** Away from the offset-0 corner case, `moveLineUp` on a caret inside
      `text[b+1..c]` swaps that line with the previous one, `text[a..b)`, and
      returns its new range. */
  lemma MoveLineUpSwaps(text: string, index: int, a: int, b: int, c: int)
    requires AdjacentLines(text, a, b, c) && a != 1
    requires b + 1 <= index <= c
    ensures var r := MoveLineUp(text, index);
            && r.0 == Edit(SwapLines(text, a, b, c), true)
            && r.1 == Span(a, a + (c - b - 1))
  {
    PreviousNewlineAt(text, index - 1, b);
    var first := LinesAround(text, a, b, c);
    assert LineEndFrom(text, index) == c;
    CutAndPasteSwaps(text, a, b, c);
    MoveLineUpAt(text, index, b);
  }

  /** Where the searches of `moveLineDown` land when the caret line starts
      right after a '\n' at offset 0: that '\n' is taken for "no line feed". */
  lemma MoveLineDownAtLeadingNewline(text: string, b: int, c: int)
    requires AdjacentLines(text, 1, b, c)
    ensures MoveLineDown(text, 1) == MovedDown(text, 0, b, c)
  {
    NextNewlineAt(text, 1, b);
    PreviousNewlineAt(text, b - 1, 0);
    var first := LinesAround(text, 1, b, c);
  }

  /** A '\n', the line `x`, a '\n' and the line `y` are two adjacent lines
      starting at offset 1. */
  lemma LeadingNewlineLines(x: string, y: string, z: string)
    requires '\n' !in x && '\n' !in y && (z == [] || z[0] == '\n')
    ensures AdjacentLines(("\n" + x) + ("\n" + y) + z, 1, 1 + |x|, 2 + |x| + |y|)
    ensures SwapLines(("\n" + x) + ("\n" + y) + z, 1, 1 + |x|, 2 + |x| + |y|) == "\n" + y + "\n" + x + z
  {
    var text := ("\n" + x) + ("\n" + y) + z;
    var b, c := 1 + |x|, 2 + |x| + |y|;
    assert text[..1] == "\n" && text[1..b] == x && text[b + 1..c] == y && text[c..] == z;
    assert NoNewline(text, 1, b) by {
      forall k | 1 <= k < b ensures text[k] != '\n' {
        assert text[k] == text[1..b][k - 1];
      }
    }
    assert NoNewline(text, b + 1, c) by {
      forall k | b + 1 <= k < c ensures text[k] != '\n' {
        assert text[k] == text[b + 1..c][k - b - 1];
      }
    }
    assert c == |text| || text[c] == '\n' by {
      if c < |text| {
        assert text[c] == text[c..][0];
      }
    }
  }

  /** The corner case seen from the caller: when the '\n' before the upper line
      `x` sits at offset 0 it is taken for "no line feed", so the lower line `y`
      lands at the very front, with both line feeds after it, instead of after
      the leading '\n'. With `y` non-empty this is not the swap. */
  lemma MoveLineDownAfterLeadingNewline(x: string, y: string, z: string)
    requires '\n' !in x && '\n' !in y && (z == [] || z[0] == '\n')
    ensures var text := ("\n" + x) + ("\n" + y) + z;
            MoveLineDown(text, 1).0.text == y + "\n" + (("\n" + x) + z)
    ensures var text := ("\n" + x) + ("\n" + y) + z;
            SwapLines(text, 1, 1 + |x|, 2 + |x| + |y|) == "\n" + y + "\n" + x + z
    ensures var text := ("\n" + x) + ("\n" + y) + z;
            y != [] ==> MoveLineDown(text, 1).0.text != SwapLines(text, 1, 1 + |x|, 2 + |x| + |y|)
  {
    var text := ("\n" + x) + ("\n" + y) + z;
    var b, c := 1 + |x|, 2 + |x| + |y|;
    var moved := MoveLineDown(text, 1).0.text;
    var swapped := SwapLines(text, 1, b, c);
    assert moved == y + "\n" + (("\n" + x) + z) by {
      LeadingNewlineLines(x, y, z);
      MoveLineDownAtLeadingNewline(text, b, c);
      CutAndPasteAfterLeadingNewline(x, y, z);
    }
    assert swapped == "\n" + y + "\n" + x + z by {
      LeadingNewlineLines(x, y, z);
    }
    if y != [] {
      assert moved[0] == y[0] != '\n';
      assert swapped[0] == '\n';
    }
  }

  // ---------------------------------------------------------------------------
  // Case conversion

  predicate ValidSpan(text: string, start: int, end: int)
  {
    0 <= start < end <= |text|
  }

  /** `toUpperCase(start, end)`: only `text[start..end)` is rewritten, in upper
      case; an empty or invalid span leaves the text unchanged. */
  function ToUpperCase(text: string, start: int, end: int): (r: Edit)
    ensures ValidSpan(text, start, end) ==>
              && r.fired && |r.text| == |text|
              && r.text[..start] == text[..start] && r.text[end..] == text[end..]
              && r.text[start..end] == ToUpper(text[start..end])
    ensures !ValidSpan(text, start, end) ==> r == Edit(text, false)
  {
    if ValidSpan(text, start, end) then
      var upper := ToUpper(text[start..end]);
      Edit(InsertAt(RemoveAt(text, start, end - start), start, upper), true)
    else Edit(text, false)
  }

  /** `toLowerCase(start, end)`, the lower-case twin of `ToUpperCase`. */
  function ToLowerCase(text: string, start: int, end: int): (r: Edit)
    ensures ValidSpan(text, start, end) ==>
              && r.fired && |r.text| == |text|
              && r.text[..start] == text[..start] && r.text[end..] == text[end..]
              && r.text[start..end] == ToLower(text[start..end])
    ensures !ValidSpan(text, start, end) ==> r == Edit(text, false)
  {
    if ValidSpan(text, start, end) then
      var lower := ToLower(text[start..end]);
      Edit(InsertAt(RemoveAt(text, start, end - start), start, lower), true)
    else Edit(text, false)
  }

  lemma ToUpperCaseIdempotent(text: string, start: int, end: int)
    ensures var once := ToUpperCase(text, start, end).text;
            ToUpperCase(once, start, end).text == once
  {
    var once := ToUpperCase(text, start, end).text;
    if ValidSpan(text, start, end) {
      var twice := ToUpperCase(once, start, end).text;
      ToUpperIdempotent(text[start..end]);
      assert twice[start..end] == once[start..end];
      assert once == once[..start] + once[start..end] + once[end..];
      assert twice == twice[..start] + twice[start..end] + twice[end..];
    }
  }

  lemma ToLowerCaseIdempotent(text: string, start: int, end: int)
    ensures var once := ToLowerCase(text, start, end).text;
            ToLowerCase(once, start, end).text == once
  {
    var once := ToLowerCase(text, start, end).text;
    if ValidSpan(text, start, end) {
      var twice := ToLowerCase(once, start, end).text;
      ToLowerIdempotent(text[start..end]);
      assert twice[start..end] == once[start..end];
      assert once == once[..start] + once[start..end] + once[end..];
      assert twice == twice[..start] + twice[start..end] + twice[end..];
    }
  }
}
