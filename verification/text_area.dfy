/**
 The editing commands of the text component: each reads the caret or the
 selection, calls one document operation, and then places the caret or the
 selection itself. The component's view of the text follows the document; the
 toolkit's own caret tracking during an edit is not modelled, so a command
 that does not place the selection afterwards reports `Keep`.
 */
module TextArea {
  import opened JavaText
  import opened TextDocument
  import opened TextLines
  import opened View

  /** What a command does to the selection after its document call. */
  datatype SelectionUpdate = Keep | Caret(pos: int) | Selection(start: int, end: int)

  /** The document after a command, and the selection update the command
      makes. */
  datatype Result = Result(doc: Document, update: SelectionUpdate)

  /** The component over a document: its text is the document's. */
  predicate Shows(d: Document, v: View)
  {
    v.text == d.text && ValidView(v)
  }

  /** The component's state after a command: the new text, with the update
      applied as the toolkit applies it (`setCaretPosition`, or
      `setSelectionStart` then `setSelectionEnd`). */
  function Place(v: View, r: Result): (w: View)
    requires r.update.Caret? ==> 0 <= r.update.pos <= |r.doc.text|
    requires r.update.Keep? ==> 0 <= v.mark <= |r.doc.text| && 0 <= v.dot <= |r.doc.text|
    ensures w.text == r.doc.text && ValidView(w)
  {
    var u := View(r.doc.text, v.mark, v.dot);
    match r.update
    case Keep => u
    case Caret(p) => SetCaret(u, p)
    case Selection(s, e) => SetSelectionEnd(SetSelectionStart(u, s), e)
  }

  /** `createLineAbove()`: the new line's caret position becomes the caret. */
  function CreateLineAboveCmd(d: Document, v: View): (r: Result)
    requires Shows(d, v)
    ensures r.update.Caret? && 1 <= r.update.pos <= |r.doc.text|
  {
    var (e, caret) := CreateLineAbove(d.text, v.dot);
    Result(Apply(d, e), Caret(caret))
  }

  /** `createLineBelow()`, the same for the line below. */
  function CreateLineBelowCmd(d: Document, v: View): (r: Result)
    requires Shows(d, v)
    ensures r.update.Caret? && 1 <= r.update.pos <= |r.doc.text|
  {
    var (e, caret) := CreateLineBelow(d.text, v.dot);
    Result(Apply(d, e), Caret(caret))
  }

  /** `duplicateLines()`: duplicate the selected lines, then select the same
      offsets again. */
  function DuplicateLinesCmd(d: Document, v: View): (r: Result)
    requires Shows(d, v)
    ensures r.update == Selection(SelectionStart(v), SelectionEnd(v))
    ensures r.doc.name == d.name && r.doc.path == d.path
    ensures |r.doc.text| >= |d.text| && (r.doc.saved ==> r.doc.text == d.text)
  {
    var start, end := SelectionStart(v), SelectionEnd(v);
    Result(Apply(d, DuplicateLines(d.text, start, end)), Selection(start, end))
  }

  /** `joinLines(pattern)`: the selection bounds go to the document; the
      command places nothing itself. */
  function JoinLinesCmd(d: Document, v: View, pattern: string): (r: Result)
    requires Shows(d, v)
    ensures r.update == Keep
    ensures r.doc.name == d.name && r.doc.path == d.path
    ensures r.doc.saved ==> r.doc.text == d.text
  {
    Result(Apply(d, JoinLines(d.text, SelectionStart(v), SelectionEnd(v), pattern)), Keep)
  }

  /** The span a mover returns selects the moved line, unless it is empty
      (the mover did nothing), in which case the selection is left alone. */
  function SelectMoved(d: Document, moved: (Edit, Span)): (r: Result)
    ensures r.doc.text == moved.0.text && r.doc.name == d.name && r.doc.path == d.path
    ensures r.update.Selection? <==> moved.1.start != moved.1.end
    ensures r.update.Selection? ==> r.update == Selection(moved.1.start, moved.1.end)
    ensures !r.update.Selection? ==> r.update == Keep
  {
    var (e, span) := moved;
    if span.start != span.end then Result(Apply(d, e), Selection(span.start, span.end))
    else Result(Apply(d, e), Keep)
  }

  /** `moveLineDown()`. */
  function MoveLineDownCmd(d: Document, v: View): (r: Result)
    requires Shows(d, v)
    ensures |r.doc.text| == |d.text| && multiset(r.doc.text) == multiset(d.text)
  {
    MoveLineDownPermutes(d.text, v.dot);
    SelectMoved(d, MoveLineDown(d.text, v.dot))
  }

  /** `moveLineUp()`. */
  function MoveLineUpCmd(d: Document, v: View): (r: Result)
    requires Shows(d, v)
    ensures |r.doc.text| == |d.text| && multiset(r.doc.text) == multiset(d.text)
  {
    MoveLineUpPermutes(d.text, v.dot);
    SelectMoved(d, MoveLineUp(d.text, v.dot))
  }

  /** `selectLine()`: select the caret's line, terminator excluded. */
  function SelectLineCmd(d: Document, v: View): (r: Result)
    requires Shows(d, v)
    ensures r.doc == d && r.update.Selection?
    ensures 0 <= r.update.start <= v.dot <= r.update.end <= |d.text|
  {
    var span := SelectLine(d.text, v.dot);
    Result(d, Selection(span.start, span.end))
  }

  /** `selectLineText()`: select the caret's line without surrounding blanks. */
  function SelectLineTextCmd(d: Document, v: View): (r: Result)
    requires Shows(d, v)
    ensures r.doc == d && r.update.Selection?
  {
    var span := SelectLineText(d.text, v.dot);
    Result(d, Selection(span.start, span.end))
  }

  /** `toUpperCase()`: convert the selection, then select the same offsets. */
  function ToUpperCaseCmd(d: Document, v: View): (r: Result)
    requires Shows(d, v)
    ensures r.update == Selection(SelectionStart(v), SelectionEnd(v))
    ensures r.doc.name == d.name && r.doc.path == d.path && |r.doc.text| == |d.text|
  {
    var start, end := SelectionStart(v), SelectionEnd(v);
    Result(Apply(d, ToUpperCase(d.text, start, end)), Selection(start, end))
  }

  /** `toLowerCase()`, the lower-case twin. */
  function ToLowerCaseCmd(d: Document, v: View): (r: Result)
    requires Shows(d, v)
    ensures r.update == Selection(SelectionStart(v), SelectionEnd(v))
    ensures r.doc.name == d.name && r.doc.path == d.path && |r.doc.text| == |d.text|
  {
    var start, end := SelectionStart(v), SelectionEnd(v);
    Result(Apply(d, ToLowerCase(d.text, start, end)), Selection(start, end))
  }

  // ---------------------------------------------------------------------------
  // Properties

  /** A command that inserted one line feed at `q` and put the caret after
      it. */
  lemma CaretAfterLineFeed(d: Document, v: View, r: Result, q: int)
    requires 0 <= q <= |d.text| && r.update == Caret(q + 1) && r.doc.text == InsertAt(d.text, q, "\n")
    ensures var w := Place(v, r);
            && |w.text| == |d.text| + 1
            && w.mark == w.dot == q + 1
            && w.text[q] == '\n'
            && w.text[..q] == d.text[..q] && w.text[q + 1..] == d.text[q..]
            && SelectedText(w) == Null
  {
    assert Place(v, r) == View(r.doc.text, q + 1, q + 1);
  }

  /** Creating a line above leaves the caret just after the one line feed
      inserted, with nothing selected. */
  lemma CreateLineAbovePlacesCaret(d: Document, v: View)
    requires Shows(d, v)
    ensures var r := CreateLineAboveCmd(d, v);
            var w, q := Place(v, r), r.update.pos - 1;
            && |w.text| == |d.text| + 1
            && w.mark == w.dot == q + 1
            && w.text[q] == '\n'
            && w.text[..q] == d.text[..q] && w.text[q + 1..] == d.text[q..]
            && SelectedText(w) == Null
            && !r.doc.saved
  {
    var r := CreateLineAboveCmd(d, v);
    CaretAfterLineFeed(d, v, r, r.update.pos - 1);
  }

  /** Creating a line below does the same. */
  lemma CreateLineBelowPlacesCaret(d: Document, v: View)
    requires Shows(d, v)
    ensures var r := CreateLineBelowCmd(d, v);
            var w, q := Place(v, r), r.update.pos - 1;
            && |w.text| == |d.text| + 1
            && w.mark == w.dot == q + 1
            && w.text[q] == '\n'
            && w.text[..q] == d.text[..q] && w.text[q + 1..] == d.text[q..]
            && SelectedText(w) == Null
            && !r.doc.saved
  {
    var r := CreateLineBelowCmd(d, v);
    CaretAfterLineFeed(d, v, r, r.update.pos - 1);
  }

  /** Duplicating and case conversion select exactly the offsets selected
      before the call, with the caret at the selection end; the text
      length does not shrink, so the offsets still fit. */
  lemma SelectionRestored(d: Document, v: View, which: int)
    requires Shows(d, v) && 0 <= which < 3
    ensures var r := if which == 0 then DuplicateLinesCmd(d, v)
                     else if which == 1 then ToUpperCaseCmd(d, v)
                     else ToLowerCaseCmd(d, v);
            var w := Place(v, r);
            w.mark == SelectionStart(v) && w.dot == SelectionEnd(v)
  {
    var start, end := SelectionStart(v), SelectionEnd(v);
    var e := if which == 0 then DuplicateLines(d.text, start, end)
             else if which == 1 then ToUpperCase(d.text, start, end)
             else ToLowerCase(d.text, start, end);
    assert |e.text| >= |d.text|;
    PlaceSelection(v, Result(Apply(d, e), Selection(start, end)));
  }

  /** A mover that finds no neighbouring line changes neither the text nor
      the selection. */
  lemma MoverWithoutNeighbour(d: Document, v: View, down: bool)
    requires Shows(d, v)
    ensures var moved := if down then MoveLineDown(d.text, v.dot) else MoveLineUp(d.text, v.dot);
            var r := if down then MoveLineDownCmd(d, v) else MoveLineUpCmd(d, v);
            !moved.0.fired ==> r.doc == d && Place(v, r) == v
  {
  }

  /** Placing a selection that fits in the new text selects exactly it,
      with the caret at its end. */
  lemma PlaceSelection(v: View, r: Result)
    requires r.update.Selection? && 0 <= r.update.start <= r.update.end <= |r.doc.text|
    ensures Place(v, r) == View(r.doc.text, r.update.start, r.update.end)
  {
  }

  /** A mover that does move a non-empty line selects it in the new text. */
  lemma MoverSelectsMovedLine(d: Document, v: View, down: bool)
    requires Shows(d, v)
    ensures var moved := if down then MoveLineDown(d.text, v.dot) else MoveLineUp(d.text, v.dot);
            var r := if down then MoveLineDownCmd(d, v) else MoveLineUpCmd(d, v);
            0 <= moved.1.start < moved.1.end <= |d.text| ==>
              Place(v, r) == View(moved.0.text, moved.1.start, moved.1.end)
  {
    var moved := if down then MoveLineDown(d.text, v.dot) else MoveLineUp(d.text, v.dot);
    var r := if down then MoveLineDownCmd(d, v) else MoveLineUpCmd(d, v);
    if down {
      MoveLineDownPermutes(d.text, v.dot);
    } else {
      MoveLineUpPermutes(d.text, v.dot);
    }
    if 0 <= moved.1.start < moved.1.end <= |d.text| {
      assert r == SelectMoved(d, moved);
      assert r.update == Selection(moved.1.start, moved.1.end);
      assert r.doc.text == moved.0.text;
      PlaceSelection(v, r);
    }
  }

  /** With the caret on an empty first line, moving it down does change the
      text, but the span that comes back is empty, so the command leaves the
      selection where it was. */
  lemma MoveDownFromLeadingEmptyLine(d: Document)
    requires d.text == "\nab"
    ensures MoveLineDownCmd(d, View(d.text, 0, 0)) == Result(Apply(d, Edit("ab\n", true)), Keep)
  {
    var text := d.text;
    assert IndexOfChar(text, '\n', 0) == 0;
    assert LineFeedBefore(text, 0) == 0;
    assert LineEndFrom(text, 1) == 3 by {
      assert IndexOfChar(text, '\n', 1) == -1;
    }
    var pasted := InsertAt(RemoveAt(text, 0, 3), 0, text[0..3]);
    assert pasted == text;
    assert RemoveAt(pasted, 0, 1) == "ab";
    assert InsertAt("ab", 2, "\n") == "ab\n";
    assert MoveLineDown(text, 0) == (Edit("ab\n", true), Span(3, 3));
  }

  /** Joining a selection that holds a line feed after its first offset,
      with a pattern free of them, leaves the document with fewer line feeds
      and unsaved; the command places no selection itself. */
  lemma JoinSelectionJoins(d: Document, v: View, pattern: string)
    requires Shows(d, v) && '\n' !in pattern
    requires SelectionStart(v) < SelectionEnd(v) && '\n' in d.text[SelectionStart(v) + 1..SelectionEnd(v)]
    ensures var r := JoinLinesCmd(d, v, pattern);
            && r.update == Keep
            && !r.doc.saved
            && multiset(r.doc.text)['\n'] < multiset(d.text)['\n']
  {
    var text, start, end := d.text, SelectionStart(v), SelectionEnd(v);
    var k :| start < k < end && text[k] == '\n';
    JoinLinesFewerLineFeeds(text, start, end, pattern, k);
  }

  /** Selecting the caret's line selects the whole line around the caret. */
  lemma SelectLineSelectsLine(d: Document, v: View)
    requires Shows(d, v)
    ensures var w := Place(v, SelectLineCmd(d, v));
            && w.mark <= v.dot <= w.dot
            && NoNewline(d.text, w.mark, w.dot)
            && (w.mark == 0 || d.text[w.mark - 1] == '\n')
            && (w.dot == |d.text| || d.text[w.dot] == '\n')
  {
  }

  /** `selectLineText()` selects the caret's line trimmed of the blanks at
      both ends, whenever the line holds something other than blanks. */
  lemma SelectLineTextSelectsTrimmedLine(d: Document, v: View)
    requires Shows(d, v)
    ensures var line := SelectLine(d.text, v.dot);
            var w := Place(v, SelectLineTextCmd(d, v));
            HasNonBlank(d.text, line) ==> TrimmedTo(d.text, line, w.mark, w.dot)
  {
    var line := SelectLine(d.text, v.dot);
    if HasNonBlank(d.text, line) {
      SelectLineTextTrims(d.text, v.dot);
      var span := SelectLineText(d.text, v.dot);
      var r := SelectLineTextCmd(d, v);
      assert r == Result(d, Selection(span.start, span.end));
      PlaceSelection(v, r);
    }
  }
}
