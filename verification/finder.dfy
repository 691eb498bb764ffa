/**
 The search engine behind the find dialog: a small state machine that caches
 the offsets of the last search and steps forwards or backwards through them,
 wrapping around at either end. A step moves the selection of the text
 component onto the next match. The engine's state is an immutable record
 threaded through the calls; the component's text and selection are a `View`.

 A wrap is a recursive retry. Forward, for a non-empty search, one retry
 always suffices; backward, the retry can call itself without end. On the
 Java virtual machine that recursion ends in a `StackOverflowError` thrown
 out of `find`, after which the engine's fields are in whatever state the
 deepest call left them. The model bounds the depth instead: every step
 carries `fuel`, one unit per retry, and comes back `Exhausted` when the
 fuel runs out.
 */
module Finder {
  import opened JavaText
  import opened View
  import TextFind

  /** The direction byte that steps backwards; any other byte steps forwards. */
  const FindPrevious: int := 2
  const FindNext: int := 1

  const WholeWordBit: int := 2
  const MatchCaseBit: int := 4

  /** The three fields that walk through the results: the current index and
      the two wrap flags. `wrapEnd` makes the next forward step start from
      offset 0; `wrapBegin` makes the next backward step start from the end
      of the text. */
  datatype Cursor = Cursor(index: int, wrapEnd: bool, wrapBegin: bool)

  /** The engine's fields. `results` is `null` before the first successful
      scan; it is modelled as `[]`, which nothing reads before `updated` is
      first set. `lastException` records whether the last scan found nothing. */
  datatype Finder = Finder(
    search: Nullable<string>,
    modifiers: int,
    results: seq<int>,
    cursor: Cursor,
    updated: bool,
    lastException: bool)

  /** A fresh engine. */
  function Initial(): (f: Finder)
    ensures f.search == Null && !f.updated && f.cursor == Cursor(0, false, false)
  {
    Finder(Null, 0, [], Cursor(0, false, false), false, false)
  }

  /** `modifiers & bit != 0` for a single-bit `bit`, on Java's two's
      complement integers (floor division is an arithmetic shift). */
  predicate HasBit(modifiers: int, bit: int)
    requires bit == 2 || bit == 4
  {
    (modifiers / bit) % 2 == 1
  }

  predicate WholeWord(modifiers: int) { HasBit(modifiers, WholeWordBit) }

  predicate MatchCase(modifiers: int) { HasBit(modifiers, MatchCaseBit) }

  /** Every cached offset is a caret position of the text. */
  predicate InText(rs: seq<int>, v: View)
  {
    forall k :: k in rs ==> 0 <= k <= |v.text|
  }

  /** What a step needs of the results, the cursor and the component: the
      current index points into the results and every result is a caret
      position. */
  predicate Navigable(rs: seq<int>, c: Cursor, v: View)
  {
    && ValidView(v)
    && 0 <= c.index
    && (rs != [] ==> c.index < |rs|)
    && InText(rs, v)
  }

  /** The invariant between calls. Results are only trusted while `updated`
      holds (an edit clears it), and a scan that was not a failure left some
      results behind. */
  predicate Consistent(f: Finder, v: View)
  {
    && ValidView(v)
    && 0 <= f.cursor.index
    && (f.results != [] ==> f.cursor.index < |f.results|)
    && (f.updated ==> InText(f.results, v))
    && (f.updated && !f.lastException ==> f.results != [])
  }

  /** The outcome of one step through the results: the new cursor and the
      component with the new selection, or the end of the fuel. */
  datatype Step = Step(cursor: Cursor, view: View) | Exhausted

  /** The outcome of `find`: a selected match; no match at all (the engine
      throws `NoMatchesFoundException`); the scan's own runtime error; or the
      stack overflow of endless wrap retries, which leaves no state worth
      modelling. */
  datatype Outcome =
    | Selected(finder: Finder, view: View)
    | NoMatches(finder: Finder)
    | ScanFailed(finder: Finder)
    | StackOverflow

  // ---------------------------------------------------------------------------
  // The two scans over the results

  /** The first index `i >= from` with `rs[i] >= p`, or -1. */
  function FirstAtLeast(rs: seq<int>, p: int, from: nat): (i: int)
    requires from <= |rs|
    ensures i == -1 || (from <= i < |rs| && rs[i] >= p)
    ensures forall j :: from <= j < |rs| && (i == -1 || j < i) ==> rs[j] < p
    decreases |rs| - from
  {
    if from == |rs| then -1
    else if rs[from] >= p then from
    else FirstAtLeast(rs, p, from + 1)
  }

  /** The last index `i < upTo` with `rs[i] < p`, or -1. */
  function LastBelow(rs: seq<int>, p: int, upTo: nat): (i: int)
    requires upTo <= |rs|
    ensures i == -1 || (0 <= i < upTo && rs[i] < p)
    ensures forall j :: 0 <= j < upTo && i < j ==> rs[j] >= p
    decreases upTo
  {
    if upTo == 0 then -1
    else if rs[upTo - 1] < p then upTo - 1
    else LastBelow(rs, p, upTo - 1)
  }

  /** `select(rs[i], rs[i] + |search|)`: the selection of the match at
      result `i`, made by setting the caret there and then the selection
      start and end. */
  function SelectResult(v: View, rs: seq<int>, i: int, search: string): (w: View)
    requires 0 <= i < |rs|
    ensures w.text == v.text && ValidView(w)
  {
    Select(v, rs[i], rs[i] + |search|)
  }

  // ---------------------------------------------------------------------------
  // findNext

  /** `findNext()`: from the caret (or from 0 after a forward wrap), select the
      first result at or after `caret - |search| + 1`, which skips the match
      the caret sits at the end of. With none left, wrap to the start and
      retry. With no results at all, the selection is rebuilt at the caret. */
  function Next(rs: seq<int>, c: Cursor, v: View, search: string, fuel: nat): (r: Step)
    requires Navigable(rs, c, v)
    ensures r.Step? ==> Navigable(rs, r.cursor, r.view) && r.view.text == v.text
    decreases fuel
  {
    var caret := if c.wrapEnd then 0 else v.dot;
    var begin := c.wrapEnd || c.wrapBegin;
    var n := |rs|;
    if n == 0 then Step(Cursor(c.index, false, begin), Select(v, v.dot, v.dot + |search|))
    else
      var i := FirstAtLeast(rs, caret - |search| + 1, 0);
      if i == -1 then
        if fuel == 0 then Exhausted
        else Next(rs, Cursor(if c.index == n - 1 then 0 else c.index, true, false), v, search, fuel - 1)
      else
        Step(Cursor(i, false, if i != 0 then false else begin), SelectResult(v, rs, i, search))
  }

  // ---------------------------------------------------------------------------
  // findPrevious

  /** Whether `findPrevious` first pulls the caret back over the current match:
      only when the selected text is exactly the search string and the caret
      sits at the end of the current result. */
  predicate PullsBack(rs: seq<int>, v: View, search: string, caret: int, current: int)
    requires ValidView(v) && 0 <= current < |rs|
  {
    SelectedText(v) == Ref(search) && caret == rs[current] + |search|
  }

  /** The offset `findPrevious` looks below: the caret, pulled back over the
      current match when `PullsBack` holds. */
  function PrevBound(rs: seq<int>, v: View, search: string, caret: int, current: int): int
    requires ValidView(v) && 0 <= current < |rs|
  {
    if PullsBack(rs, v, search, caret, current) then caret - |search| else caret
  }

  /** `findPrevious()`: from the caret (or from the end of the text after a
      backward wrap), select the last result strictly before it, after pulling
      the caret back over a selected current match. With none left, wrap to
      the end and retry. */
  function Prev(rs: seq<int>, c: Cursor, v: View, search: string, fuel: nat): (r: Step)
    requires Navigable(rs, c, v)
    ensures r.Step? ==> Navigable(rs, r.cursor, r.view) && r.view.text == v.text
    decreases fuel
  {
    var caret := if c.wrapBegin then |v.text| else v.dot;
    var end := c.wrapBegin || c.wrapEnd;
    var n := |rs|;
    if n == 0 then Step(Cursor(c.index, end, false), Select(v, v.dot, v.dot + |search|))
    else
      var current := if c.index == 0 then n - 1 else c.index;
      var i := LastBelow(rs, PrevBound(rs, v, search, caret, current), n);
      if i == -1 then
        if fuel == 0 then Exhausted
        else Prev(rs, Cursor(current, false, true), v, search, fuel - 1)
      else
        Step(Cursor(i, if i != n - 1 then false else end, false), SelectResult(v, rs, i, search))
  }

  // ---------------------------------------------------------------------------
  // find

  /** The cache test of `find`: scan again on the first call, for another
      search string or other modifiers, after an edit, or after a scan that
      found nothing. */
  predicate NeedsRescan(f: Finder, search: string, modifiers: int)
  {
    f.search != Ref(search) || f.modifiers != modifiers || !f.updated || f.lastException
  }

  /** Step in the given direction; only the cursor changes. */
  function Navigate(f: Finder, v: View, search: string, direction: int, fuel: nat): (r: Outcome)
    requires Navigable(f.results, f.cursor, v)
    ensures r.Selected? || r == StackOverflow
    ensures r.Selected? ==> r.finder == f.(cursor := r.finder.cursor) && r.view.text == v.text
    ensures r.Selected? ==> Navigable(f.results, r.finder.cursor, r.view)
  {
    var step := if direction == FindPrevious then Prev(f.results, f.cursor, v, search, fuel)
                else Next(f.results, f.cursor, v, search, fuel);
    if step.Step? then Selected(f.(cursor := step.cursor), step.view) else StackOverflow
  }

  /** `find(search, direction, modifiers)`. A scan stores the search string and
      modifiers before scanning, so a scan that fails leaves them stored next
      to the old results. */
  function Find(f: Finder, v: View, search: string, direction: int, modifiers: int, fuel: nat): (r: Outcome)
    requires Consistent(f, v)
    ensures !NeedsRescan(f, search, modifiers) ==> r.Selected? || r == StackOverflow
    ensures !NeedsRescan(f, search, modifiers) && r.Selected? ==> r.finder.results == f.results
    ensures r.NoMatches? ==> r.finder.results == [] && r.finder.lastException && r.finder.updated
    ensures r.NoMatches? || r.ScanFailed? ==>
              r.finder.search == Ref(search) && r.finder.modifiers == modifiers
    ensures r.ScanFailed? ==> r.finder.results == f.results && r.finder.updated == f.updated
    ensures r.NoMatches? ==> r.finder.cursor == f.cursor.(index := 0)
    ensures r.Selected? ==>
              && r.finder.search == Ref(search) && r.finder.modifiers == modifiers
              && r.finder.updated && !r.finder.lastException
              && r.view.text == v.text
  {
    if NeedsRescan(f, search, modifiers) then
      var f1 := f.(search := Ref(search), modifiers := modifiers);
      match TextFind.Find(v.text, search, WholeWord(modifiers), MatchCase(modifiers))
      case IndexOutOfBounds => ScanFailed(f1)
      case Found(rs) =>
        TextFind.FindInBounds(v.text, search, WholeWord(modifiers), MatchCase(modifiers));
        var f2 := f1.(results := rs, updated := true, cursor := f.cursor.(index := 0));
        if rs == [] then NoMatches(f2.(lastException := true))
        else Navigate(f2.(lastException := false), v, search, direction, fuel)
    else
      Navigate(f, v, search, direction, fuel)
  }

  /** The document listener: any edit invalidates the cached results. */
  function Edited(f: Finder): (r: Finder)
    ensures !r.updated
    ensures r.results == f.results && r.search == f.search && r.cursor == f.cursor
  {
    f.(updated := false)
  }

  // ---------------------------------------------------------------------------
  // Properties

  /** Every outcome leaves the engine consistent with the component. */
  lemma FindKeepsConsistent(f: Finder, v: View, search: string, direction: int, modifiers: int, fuel: nat)
    requires Consistent(f, v)
    ensures var r := Find(f, v, search, direction, modifiers, fuel);
            && (r.Selected? ==> Consistent(r.finder, r.view))
            && (r.NoMatches? || r.ScanFailed? ==> Consistent(r.finder, v))
  {
    if NeedsRescan(f, search, modifiers) {
      TextFind.FindInBounds(v.text, search, WholeWord(modifiers), MatchCase(modifiers));
    }
  }

  /** Which outcome a call has is decided by the cache test and the scan: the
      scan's runtime error and its empty result are the only ways not to
      reach a step, and a step after a scan walks the scan's results. */
  lemma FindFollowsScan(f: Finder, v: View, search: string, direction: int, modifiers: int, fuel: nat)
    requires Consistent(f, v)
    ensures var r := Find(f, v, search, direction, modifiers, fuel);
            var scan := TextFind.Find(v.text, search, WholeWord(modifiers), MatchCase(modifiers));
            && (r.ScanFailed? <==> NeedsRescan(f, search, modifiers) && scan == TextFind.IndexOutOfBounds)
            && (r.NoMatches? <==> NeedsRescan(f, search, modifiers) && scan == TextFind.Found([]))
            && (NeedsRescan(f, search, modifiers) && r.Selected? ==> scan == TextFind.Found(r.finder.results))
  {
  }

  /** An edit invalidates the cache: the engine stays consistent with the
      edited text `w`, whatever it holds, and the next call scans again. */
  lemma EditForcesRescan(f: Finder, v: View, w: View, search: string, modifiers: int)
    requires Consistent(f, v) && ValidView(w)
    ensures Consistent(Edited(f), w)
    ensures NeedsRescan(Edited(f), search, modifiers)
  {
  }

  /** A scan that found nothing is recorded, so the next call scans again,
      whatever it asks for. */
  lemma NoMatchesForcesRescan(f: Finder, v: View, search: string, direction: int, modifiers: int, fuel: nat,
                              search': string, modifiers': int)
    requires Consistent(f, v)
    requires Find(f, v, search, direction, modifiers, fuel).NoMatches?
    ensures NeedsRescan(Find(f, v, search, direction, modifiers, fuel).finder, search', modifiers')
  {
  }

  /** After a successful call, asking for the same search with the same
      modifiers in either direction reuses the cached results. */
  lemma DirectionOnlyReusesResults(f: Finder, v: View, search: string, direction: int, modifiers: int,
                                   fuel: nat, direction': int, fuel': nat)
    requires Consistent(f, v)
    requires Find(f, v, search, direction, modifiers, fuel).Selected?
    ensures var r := Find(f, v, search, direction, modifiers, fuel);
            && Consistent(r.finder, r.view)
            && !NeedsRescan(r.finder, search, modifiers)
            && var r' := Find(r.finder, r.view, search, direction', modifiers, fuel');
               r'.Selected? ==> r'.finder.results == r.finder.results
  {
    FindKeepsConsistent(f, v, search, direction, modifiers, fuel);
  }

  /** A forward step through a non-empty list of results selects the match of
      the index it makes current. */
  lemma {:induction false} NextSelectsCurrent(rs: seq<int>, c: Cursor, v: View, search: string, fuel: nat)
    requires Navigable(rs, c, v)
    ensures var r := Next(rs, c, v, search, fuel);
            r.Step? && rs != [] ==> r.view == SelectResult(v, rs, r.cursor.index, search)
    decreases fuel
  {
    var n := |rs|;
    if n > 0 && fuel > 0 {
      NextSelectsCurrent(rs, Cursor(if c.index == n - 1 then 0 else c.index, true, false), v, search, fuel - 1);
    }
  }

  /** The same for a backward step. */
  lemma {:induction false} PrevSelectsCurrent(rs: seq<int>, c: Cursor, v: View, search: string, fuel: nat)
    requires Navigable(rs, c, v)
    ensures var r := Prev(rs, c, v, search, fuel);
            r.Step? && rs != [] ==> r.view == SelectResult(v, rs, r.cursor.index, search)
    decreases fuel
  {
    var n := |rs|;
    if n > 0 && fuel > 0 {
      PrevSelectsCurrent(rs, Cursor(if c.index == 0 then n - 1 else c.index, false, true), v, search, fuel - 1);
    }
  }

  /** `findNext` selects the first result at or after
      `caret - |search| + 1`, the caret being 0 right after a backward wrap. */
  lemma NextSelectsFirstAhead(rs: seq<int>, c: Cursor, v: View, search: string, fuel: nat)
    requires Navigable(rs, c, v)
    requires var p := (if c.wrapEnd then 0 else v.dot) - |search| + 1;
             exists j :: 0 <= j < |rs| && rs[j] >= p
    ensures var p := (if c.wrapEnd then 0 else v.dot) - |search| + 1;
            var r := Next(rs, c, v, search, fuel);
            var i := r.cursor.index;
            && r.Step? && 0 <= i < |rs| && !r.cursor.wrapEnd
            && rs[i] >= p && (forall j :: 0 <= j < i ==> rs[j] < p)
            && r.view == SelectResult(v, rs, i, search)
  {
  }

  /** With every result behind the caret, `findNext` wraps: it selects the
      first result, and leaves `wrapBegin` set so that a following
      `findPrevious` starts from the end of the text. */
  lemma NextWrapsToFirst(rs: seq<int>, c: Cursor, v: View, search: string, fuel: nat)
    requires Navigable(rs, c, v) && rs != [] && |search| >= 1 && fuel >= 1
    requires var p := (if c.wrapEnd then 0 else v.dot) - |search| + 1;
             forall j :: 0 <= j < |rs| ==> rs[j] < p
    ensures Next(rs, c, v, search, fuel) == Step(Cursor(0, false, true), SelectResult(v, rs, 0, search))
  {
    var n := |rs|;
    var back := Cursor(if c.index == n - 1 then 0 else c.index, true, false);
    assert rs[0] in rs;
    assert FirstAtLeast(rs, 0 - |search| + 1, 0) == 0;
    assert Next(rs, c, v, search, fuel) == Next(rs, back, v, search, fuel - 1);
  }

  /** For a non-empty search `findNext` never wraps twice: one unit of fuel is
      all it ever uses, and it always selects something. */
  lemma NextNeedsOneRetry(rs: seq<int>, c: Cursor, v: View, search: string, fuel: nat)
    requires Navigable(rs, c, v) && |search| >= 1 && fuel >= 1
    ensures Next(rs, c, v, search, fuel).Step?
    ensures Next(rs, c, v, search, fuel) == Next(rs, c, v, search, 1)
  {
    if rs != [] {
      var p := (if c.wrapEnd then 0 else v.dot) - |search| + 1;
      if exists j :: 0 <= j < |rs| && rs[j] >= p {
        NextSelectsFirstAhead(rs, c, v, search, fuel);
        NextSelectsFirstAhead(rs, c, v, search, 1);
      } else {
        NextWrapsToFirst(rs, c, v, search, fuel);
        NextWrapsToFirst(rs, c, v, search, 1);
      }
    }
  }

  /** Right after a forward wrap, `findPrevious` starts from the end of the
      text: with every result ending before the end, it selects the last
      result and keeps `wrapEnd` set, so a following `findNext` starts from 0. */
  lemma PrevAfterForwardWrap(rs: seq<int>, c: Cursor, v: View, search: string, fuel: nat)
    requires Navigable(rs, c, v) && rs != [] && c.wrapBegin
    requires forall k :: k in rs ==> k + |search| < |v.text|
    ensures var n := |rs|;
            Prev(rs, c, v, search, fuel) == Step(Cursor(n - 1, true, false), SelectResult(v, rs, n - 1, search))
  {
    var n := |rs|;
    var current := if c.index == 0 then n - 1 else c.index;
    assert rs[current] in rs && rs[n - 1] in rs;
    assert !PullsBack(rs, v, search, |v.text|, current);
  }

  /** `findPrevious` selects the last result strictly below the caret (the end
      of the text right after a backward wrap), pulled back over a selected
      current match. `wrapEnd` stays set only when that is the last result,
      and `wrapBegin` is cleared. */
  lemma PrevSelectsLastBelow(rs: seq<int>, c: Cursor, v: View, search: string, fuel: nat)
    requires Navigable(rs, c, v)
    requires var caret := if c.wrapBegin then |v.text| else v.dot;
             var current := if c.index == 0 then |rs| - 1 else c.index;
             0 <= current < |rs| && exists j :: 0 <= j < |rs| && rs[j] < PrevBound(rs, v, search, caret, current)
    ensures var caret := if c.wrapBegin then |v.text| else v.dot;
            var current := if c.index == 0 then |rs| - 1 else c.index;
            var p := PrevBound(rs, v, search, caret, current);
            var r := Prev(rs, c, v, search, fuel);
            var i := r.cursor.index;
            && r.Step? && 0 <= i < |rs| && rs[i] < p
            && (forall j :: i < j < |rs| ==> rs[j] >= p)
            && r.cursor == Cursor(i, i == |rs| - 1 && (c.wrapBegin || c.wrapEnd), false)
            && r.view == SelectResult(v, rs, i, search)
  {
    var caret := if c.wrapBegin then |v.text| else v.dot;
    var current := if c.index == 0 then |rs| - 1 else c.index;
    var p := PrevBound(rs, v, search, caret, current);
    var j :| 0 <= j < |rs| && rs[j] < p;
    assert LastBelow(rs, p, |rs|) != -1;
  }

  /** With no result below the caret, `findPrevious` wraps: it retries from
      the end of the text with the current index kept and `wrapBegin` set, or
      runs out of fuel. */
  lemma PrevWrapsToEnd(rs: seq<int>, c: Cursor, v: View, search: string, fuel: nat)
    requires Navigable(rs, c, v) && rs != []
    requires var caret := if c.wrapBegin then |v.text| else v.dot;
             var current := if c.index == 0 then |rs| - 1 else c.index;
             forall j :: 0 <= j < |rs| ==> rs[j] >= PrevBound(rs, v, search, caret, current)
    ensures var current := if c.index == 0 then |rs| - 1 else c.index;
            && (fuel == 0 ==> Prev(rs, c, v, search, fuel) == Exhausted)
            && (fuel > 0 ==> Prev(rs, c, v, search, fuel) == Prev(rs, Cursor(current, false, true), v, search, fuel - 1))
  {
    var caret := if c.wrapBegin then |v.text| else v.dot;
    var current := if c.index == 0 then |rs| - 1 else c.index;
    assert LastBelow(rs, PrevBound(rs, v, search, caret, current), |rs|) == -1;
  }

  /** `findPrevious` comes back after at most one wrap when some result ends
      before the end of the text. */
  lemma PrevStopsAfterOneWrap(rs: seq<int>, c: Cursor, v: View, search: string, fuel: nat, k: int)
    requires Navigable(rs, c, v) && fuel >= 1
    requires k in rs && k + |search| < |v.text|
    ensures Prev(rs, c, v, search, fuel).Step?
  {
    var n := |rs|;
    var caret := if c.wrapBegin then |v.text| else v.dot;
    var current := if c.index == 0 then n - 1 else c.index;
    if LastBelow(rs, PrevBound(rs, v, search, caret, current), n) == -1 {
      var current' := if current == 0 then n - 1 else current;
      var j :| 0 <= j < n && rs[j] == k;
      assert LastBelow(rs, PrevBound(rs, v, search, |v.text|, current'), n) != -1;
    }
  }

  /** The endless backward wrap: a single result, selected, whose match ends at
      the end of the text. Each attempt pulls the caret back onto the match,
      finds nothing before it, wraps to the end of the text and is back where
      it started, however much fuel it is given. */
  lemma {:induction false} PrevLoopsForever(rs: seq<int>, c: Cursor, v: View, search: string, fuel: nat)
    requires ValidView(v) && |search| >= 1
    requires |rs| == 1 && c.index == 0
    requires var m := rs[0];
             v.mark == m && v.dot == m + |search| == |v.text| && OccursAt(v.text, search, m)
    ensures Prev(rs, c, v, search, fuel) == Exhausted
    decreases fuel
  {
    var m := rs[0];
    assert v.text[m..m + |search|] == search;
    assert SelectedText(v) == Ref(search);
    assert PullsBack(rs, v, search, |v.text|, 0);
    if fuel > 0 {
      PrevLoopsForever(rs, Cursor(0, false, true), v, search, fuel - 1);
    }
  }

  /** The loop reached from a fresh engine: in "ab", finding "ab" (match case)
      forwards selects it, and finding it backwards then recurses until the
      stack overflows. */
  lemma FreshSearchThenBackwardsLoops(fuel: nat, fuel': nat)
    ensures var r := Find(Initial(), View("ab", 0, 0), "ab", FindNext, MatchCaseBit, fuel);
            && r == Selected(r.finder, View("ab", 0, 2))
            && Consistent(r.finder, r.view)
            && Find(r.finder, r.view, "ab", FindPrevious, MatchCaseBit, fuel') == StackOverflow
  {
    assert TextFind.Find("ab", "ab", false, true) == TextFind.Found([0]) by {
      var rs := TextFind.Find("ab", "ab", false, true).results;
      assert OccursAt("ab", "ab", 0);
      TextFind.AscendingUnique(rs, [0]);
    }
    var r := Find(Initial(), View("ab", 0, 0), "ab", FindNext, MatchCaseBit, fuel);
    FindKeepsConsistent(Initial(), View("ab", 0, 0), "ab", FindNext, MatchCaseBit, fuel);
    assert r.finder.results == [0] && r.finder.cursor.index == 0;
    PrevLoopsForever(r.finder.results, r.finder.cursor, r.view, "ab", fuel');
  }

  /** A cached case-insensitive search for "ab" in "x ab Ab", with the second
      match selected: the selection "Ab" differs from "ab", so `findPrevious`
      does not pull the caret back and selects the same match again. */
  lemma PrevReselectsOtherCase()
    ensures var f := Finder(Ref("ab"), 0, [2, 5], Cursor(1, false, false), true, false);
            Find(f, View("x ab Ab", 5, 7), "ab", FindPrevious, 0, 0) ==
              Selected(f, View("x ab Ab", 5, 7))
  {
    var v := View("x ab Ab", 5, 7);
    assert v.text[5..7] == "Ab";
    assert SelectedText(v) == Ref("Ab");
  }

  /** The same situation with the match spelled as searched: the caret is
      pulled back and the previous match is selected. */
  lemma PrevMovesBackSameCase()
    ensures var f := Finder(Ref("ab"), 0, [2, 5], Cursor(1, false, false), true, false);
            Find(f, View("x ab ab", 5, 7), "ab", FindPrevious, 0, 0) ==
              Selected(f.(cursor := Cursor(0, false, false)), View("x ab ab", 2, 4))
  {
    var v := View("x ab ab", 5, 7);
    assert v.text[5..7] == "ab";
    assert SelectedText(v) == Ref("ab");
  }

  /** A scan leaves the wrap flags alone: after a backward wrap, a new search
      forwards starts from offset 0 rather than from the caret, selects the
      first result and leaves `wrapBegin` set. */
  lemma RescanKeepsWrapFlags(f: Finder, v: View, search: string, modifiers: int, fuel: nat)
    requires Consistent(f, v) && f.cursor.wrapEnd && |search| >= 1
    requires NeedsRescan(f, search, modifiers)
    requires TextFind.Find(v.text, search, WholeWord(modifiers), MatchCase(modifiers)).Found?
    requires TextFind.Find(v.text, search, WholeWord(modifiers), MatchCase(modifiers)).results != []
    ensures var rs := TextFind.Find(v.text, search, WholeWord(modifiers), MatchCase(modifiers)).results;
            var r := Find(f, v, search, FindNext, modifiers, fuel);
            r.Selected? && r.finder.cursor == Cursor(0, false, true) && r.view == SelectResult(v, rs, 0, search)
  {
    var rs := TextFind.Find(v.text, search, WholeWord(modifiers), MatchCase(modifiers)).results;
    TextFind.FindInBounds(v.text, search, WholeWord(modifiers), MatchCase(modifiers));
    var c := f.cursor.(index := 0);
    assert rs[0] in rs && Navigable(rs, c, v);
    NextSelectsFirstAhead(rs, c, v, search, fuel);
  }
}
