/**
 The find dialog: a query box, three option boxes and two buttons, over a
 fresh search engine per dialog. The query and the option flags are
 remembered across dialogs in class-wide fields; only the query is ever
 written back, so the option boxes always open unchecked.
 */
module FindDialog {
  import opened JavaText
  import opened View
  import Finder

  /** The class-wide memory shared by all dialogs. */
  datatype Memory = Memory(
    lastSearch: Nullable<string>,
    lastWholeWord: bool,
    lastMatchCase: bool,
    lastRegularExpression: bool)

  /** The memory when the program starts: nothing searched, all flags off. */
  function StartMemory(): Memory
  {
    Memory(Null, false, false, false)
  }

  /** An open dialog: the query box, the three option boxes and its engine. */
  datatype Dialog = Dialog(
    query: string,
    wholeWord: bool,
    matchCase: bool,
    regularExpression: bool,
    finder: Finder.Finder)

  /** Opening a dialog over the component: selected text becomes the
      remembered query; the query box shows the remembered query, if any; the
      option boxes show the remembered flags. */
  function Open(m: Memory, v: View): (r: (Memory, Dialog))
    requires ValidView(v)
    ensures SelectedText(v).Ref? ==> r.0.lastSearch == SelectedText(v) && r.1.query == SelectedText(v).value
    ensures SelectedText(v) == Null ==> r.0 == m && r.1.query == (if m.lastSearch.Ref? then m.lastSearch.value else "")
    ensures r.0.lastWholeWord == m.lastWholeWord && r.0.lastMatchCase == m.lastMatchCase
    ensures r.1.wholeWord == m.lastWholeWord && r.1.matchCase == m.lastMatchCase
    ensures r.1.finder == Finder.Initial()
  {
    var selected := SelectedText(v);
    var m' := if selected.Ref? then m.(lastSearch := selected) else m;
    var query := if m'.lastSearch.Ref? then m'.lastSearch.value else "";
    (m', Dialog(query, m'.lastWholeWord, m'.lastMatchCase, m'.lastRegularExpression, Finder.Initial()))
  }

  /** Closing a dialog writes nothing back. */
  function Close(m: Memory, d: Dialog): Memory
  {
    m
  }

  /** `defineModifiers()`: the whole-word and match-case bits; the
      regular-expression box has no bit of its own. */
  function Modifiers(wholeWord: bool, matchCase: bool): (r: int)
    ensures r in {0, 2, 4, 6}
  {
    (if wholeWord then Finder.WholeWordBit else 0) + (if matchCase then Finder.MatchCaseBit else 0)
  }

  /** The two buttons, and the direction byte each sends. */
  datatype Button = PreviousButton | NextButton

  function Direction(b: Button): (r: int)
    ensures r == Finder.FindPrevious <==> b == PreviousButton
  {
    match b
    case PreviousButton => Finder.FindPrevious
    case NextButton => Finder.FindNext
  }

  /** What a button press comes to: nothing, for an empty query; a finished
      search, its "no matches" exception caught; the scan's runtime error,
      which is not caught; or the `StackOverflowError` of an endless backward
      wrap, which is not caught either and leaves the engine in a state the
      model does not follow. */
  datatype Press =
    | Ignored
    | Handled(dialog: Dialog, view: View)
    | Escaped(dialog: Dialog)
    | StackOverflow

  /** `find(direction)`, pressed through one of the buttons. */
  function PressButton(d: Dialog, v: View, b: Button, fuel: nat): (r: Press)
    requires Finder.Consistent(d.finder, v)
    ensures d.query == [] <==> r == Ignored
    ensures r.Handled? || r.Escaped? ==>
              r.dialog == d.(finder := r.dialog.finder)
  {
    if d.query == [] then Ignored
    else
      var modifiers := Modifiers(d.wholeWord, d.matchCase);
      match Finder.Find(d.finder, v, d.query, Direction(b), modifiers, fuel)
      case Selected(f, w) => Handled(d.(finder := f), w)
      case NoMatches(f) => Handled(d.(finder := f), v)
      case ScanFailed(f) => Escaped(d.(finder := f))
      case StackOverflow => StackOverflow
  }

  // ---------------------------------------------------------------------------
  // Properties

  /** The modifiers value decodes back to the two boxes it was made from. */
  lemma ModifiersDecode(wholeWord: bool, matchCase: bool)
    ensures Finder.WholeWord(Modifiers(wholeWord, matchCase)) == wholeWord
    ensures Finder.MatchCase(Modifiers(wholeWord, matchCase)) == matchCase
  {
  }

  /** Distinct box settings give distinct modifiers. */
  lemma ModifiersInjective(w1: bool, c1: bool, w2: bool, c2: bool)
    requires Modifiers(w1, c1) == Modifiers(w2, c2)
    ensures w1 == w2 && c1 == c2
  {
    ModifiersDecode(w1, c1);
    ModifiersDecode(w2, c2);
  }

  /** "No matches" is caught: the press finishes, the selection is untouched,
      and the engine will scan again next time. */
  lemma NoMatchesIsCaught(d: Dialog, v: View, b: Button, fuel: nat)
    requires Finder.Consistent(d.finder, v) && d.query != []
    requires Finder.Find(d.finder, v, d.query, Direction(b), Modifiers(d.wholeWord, d.matchCase), fuel).NoMatches?
    ensures PressButton(d, v, b, fuel).Handled?
    ensures PressButton(d, v, b, fuel).view == v
    ensures Finder.NeedsRescan(PressButton(d, v, b, fuel).dialog.finder, d.query, Modifiers(d.wholeWord, d.matchCase))
  {
  }

  /** The memory after a series of dialogs, one opened (and closed) per view. */
  function AfterDialogs(m: Memory, views: seq<View>): (r: Memory)
    requires forall k :: 0 <= k < |views| ==> ValidView(views[k])
    ensures r.lastWholeWord == m.lastWholeWord && r.lastMatchCase == m.lastMatchCase
    decreases |views|
  {
    if views == [] then m
    else
      var (m', d) := Open(m, views[0]);
      AfterDialogs(Close(m', d), views[1..])
  }

  /** However many dialogs came before, a new dialog opens with both option
      boxes unchecked. */
  lemma OptionsStartUnchecked(views: seq<View>, v: View)
    requires forall k :: 0 <= k < |views| ==> ValidView(views[k])
    requires ValidView(v)
    ensures var d := Open(AfterDialogs(StartMemory(), views), v).1;
            !d.wholeWord && !d.matchCase
  {
  }

  /** A query once selected is offered again by the next dialog opened
      without a selection. */
  lemma SelectionRemembered(m: Memory, v: View, w: View)
    requires ValidView(v) && ValidView(w)
    requires SelectedText(v).Ref? && SelectedText(w) == Null
    ensures var (m', d) := Open(m, v);
            Open(Close(m', d), w).1.query == SelectedText(v).value
  {
  }
}
