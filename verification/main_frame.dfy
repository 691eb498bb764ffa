/**
 The main window's bookkeeping: the open documents with their tabs, the list
 of recently used paths, the line-separator menu, the window title, and what
 closing, opening and exiting do to them. Dialogs become parameters: the
 user's answer to "save changes?", the outcome of reading a file, and the
 platform's file separator. Menus, the disk and the save itself are left out.
 */
module MainFrame {
  import opened JavaText
  import opened TextDocument
  import TabbedPane
  import Session
  import FileManager

  /** The documents in tab order, the tab strip, and the recent paths. */
  datatype Frame = Frame(docs: seq<Document>, pane: TabbedPane.Pane, recents: seq<string>)

  /** One tab per document, and there is always at least one. */
  predicate ValidFrame(f: Frame)
  {
    && f.docs != []
    && |f.docs| == |f.pane.titles|
    && TabbedPane.ValidPane(f.pane)
  }

  function Selected(f: Frame): int { f.pane.selected }

  // ---------------------------------------------------------------------------
  // Recent documents

  /** The first position holding `p`, or -1: where the deque's `remove(p)` cuts. */
  function FirstIndex(l: seq<string>, p: string): (i: int)
    ensures -1 <= i < |l|
    ensures i == -1 <==> p !in l
    ensures i >= 0 ==> l[i] == p && p !in l[..i]
  {
    if l == [] then -1
    else if l[0] == p then 0
    else
      var k := FirstIndex(l[1..], p);
      if k == -1 then -1
      else
        assert l[..k + 1] == [l[0]] + l[1..][..k];
        k + 1
  }

  /** `ArrayDeque.remove(p)`: the first occurrence of `p` removed, if any. */
  function RemoveFirst(l: seq<string>, p: string): (r: seq<string>)
    ensures p !in l ==> r == l
    ensures p in l ==> |r| == |l| - 1
  {
    var i := FirstIndex(l, p);
    if i == -1 then l else l[..i] + l[i + 1..]
  }

  /** `addRecentDocumentsPath(p)`: `p` moves (or is added) to the front. */
  function AddRecentPath(l: seq<string>, p: string): (r: seq<string>)
    ensures r != [] && r[0] == p
    ensures |r| == if p in l then |l| else |l| + 1
  {
    [p] + RemoveFirst(l, p)
  }

  predicate Distinct(l: seq<string>)
  {
    forall i, j :: 0 <= i < j < |l| ==> l[i] != l[j]
  }

  /** Behind the moved path, the other paths in their old order: the list
      with the first occurrence `i` of `p` taken out. */
  lemma AddRecentPathOrder(l: seq<string>, p: string) returns (i: int)
    ensures p !in l ==> AddRecentPath(l, p) == [p] + l
    ensures p in l ==> && 0 <= i < |l| && l[i] == p && p !in l[..i]
                       && AddRecentPath(l, p) == [p] + l[..i] + l[i + 1..]
  {
    i := FirstIndex(l, p);
    if p in l {
      assert RemoveFirst(l, p) == l[..i] + l[i + 1..];
      assert [p] + (l[..i] + l[i + 1..]) == [p] + l[..i] + l[i + 1..];
    }
  }

  /** The move to the front loses and duplicates nothing: the same paths,
      one more copy of `p` only when it was absent. */
  lemma AddRecentPathMultiset(l: seq<string>, p: string)
    ensures multiset(AddRecentPath(l, p)) == if p in l then multiset(l) else multiset(l) + multiset{p}
  {
    if p in l {
      var i := FirstIndex(l, p);
      assert l == l[..i] + [p] + l[i + 1..];
      assert AddRecentPath(l, p) == [p] + (l[..i] + l[i + 1..]);
    }
  }

  /** Without duplicates to begin with, the list stays without duplicates. */
  lemma AddRecentPathDistinct(l: seq<string>, p: string)
    requires Distinct(l)
    ensures Distinct(AddRecentPath(l, p))
  {
    var rest := RemoveFirst(l, p);
    if p in l {
      var i := FirstIndex(l, p);
      assert rest == l[..i] + l[i + 1..];
      forall k | 0 <= k < |rest| ensures rest[k] == l[if k < i then k else k + 1] && rest[k] != p {
      }
      forall a, b | 0 <= a < b < |rest| ensures rest[a] != rest[b] {
        assert rest[a] == l[if a < i then a else a + 1];
        assert rest[b] == l[if b < i then b else b + 1];
      }
    }
    var r := AddRecentPath(l, p);
    assert r[1..] == rest;
  }

  /** Moving the same path to the front twice is moving it once. */
  lemma AddRecentPathIdempotent(l: seq<string>, p: string)
    ensures AddRecentPath(AddRecentPath(l, p), p) == AddRecentPath(l, p)
  {
    var r := AddRecentPath(l, p);
    assert FirstIndex(r, p) == 0;
    assert r[..0] + r[1..] == RemoveFirst(l, p);
  }

  // ---------------------------------------------------------------------------
  // Line separator menu

  /** The three radio items of the line-separator menu. */
  datatype SeparatorItem = CaretReturnLineFeed | CaretReturn | LineFeed

  /** The item selected at start-up for the preferred separator. */
  function ItemFor(pref: string): (i: SeparatorItem)
    ensures pref == "\r\n" <==> i == CaretReturnLineFeed
    ensures pref == "\r" <==> i == CaretReturn
  {
    if pref == "\r\n" then CaretReturnLineFeed
    else if pref == "\r" then CaretReturn
    else LineFeed
  }

  /** `getSelectedLineSeparator()`. */
  function SelectedSeparator(i: SeparatorItem): (sep: string)
    ensures FileManager.Separator(sep)
  {
    match i
    case CaretReturn => "\r"
    case CaretReturnLineFeed => "\r\n"
    case LineFeed => "\n"
  }

  /** The three separators survive the trip through the menu; any other
      preference comes back as "\n". */
  lemma SeparatorRoundTrip(pref: string)
    ensures SelectedSeparator(ItemFor(pref)) == if FileManager.Separator(pref) then pref else "\n"
  {
  }

  /** Each item is the one its separator selects. */
  lemma ItemRoundTrip(i: SeparatorItem)
    ensures ItemFor(SelectedSeparator(i)) == i
  {
  }

  // ---------------------------------------------------------------------------
  // Window title

  /** The directory part of a path: up to and including the last separator,
      or nothing when there is none. */
  function Directory(path: string, sep: char): (d: string)
    ensures StartsWith(path, d)
    ensures d == [] <==> sep !in path
    ensures d != [] ==> d[|d| - 1] == sep
    ensures sep !in path[|d|..]
  {
    var i := LastIndexOfChar(path, sep, |path| - 1);
    var rest := path[i + 1..];
    assert forall j :: 0 <= j < |rest| ==> rest[j] == path[i + 1 + j];
    path[..i + 1]
  }

  /** `updateTitle()`: "name - Zephyr" for a document without a path, and
      "name - directory - Zephyr" otherwise. */
  function Title(name: string, path: Nullable<string>, sep: char): (t: string)
    ensures path == Null ==> t == name + " - Zephyr"
    ensures path.Ref? ==> t == name + " - " + Directory(path.value, sep) + " - Zephyr"
  {
    match path
    case Null => name + " - Zephyr"
    case Ref(p) => name + " - " + p[..LastIndexOfChar(p, sep, |p| - 1) + 1] + " - Zephyr"
  }

  /** The separator found last is the one after which none follows. */
  lemma LastSeparatorAt(p: string, sep: char, i: int)
    requires 0 <= i < |p| && p[i] == sep
    requires forall k :: i < k < |p| ==> p[k] != sep
    ensures LastIndexOfChar(p, sep, |p| - 1) == i
  {
  }

  /** In a path made of a directory, a separator and a file name free of
      separators, that separator is the last one. */
  lemma LastSeparatorOfPath(dir: string, file: string, sep: char)
    requires sep !in file
    ensures LastIndexOfChar(dir + [sep] + file, sep, |dir| + |file|) == |dir|
  {
    var p := dir + [sep] + file;
    forall k | |dir| < k < |p| ensures p[k] != sep {
      assert p[k] == file[k - |dir| - 1];
    }
    LastSeparatorAt(p, sep, |dir|);
  }

  /** A path in a directory shows that directory in the title. */
  lemma TitleShowsDirectory(name: string, dir: string, file: string, sep: char)
    requires sep !in file
    ensures Title(name, Ref(dir + [sep] + file), sep) == name + " - " + dir + [sep] + " - Zephyr"
  {
    var p := dir + [sep] + file;
    LastSeparatorOfPath(dir, file, sep);
    assert p[..|dir| + 1] == dir + [sep];
  }

  // ---------------------------------------------------------------------------
  // Tabs

  /** `isOpen(path)`: the first tab whose document has that path, or -1. */
  function IsOpen(docs: seq<Document>, path: string): (r: int)
    ensures -1 <= r < |docs|
    ensures r == -1 <==> forall k :: 0 <= k < |docs| ==> docs[k].path != Ref(path)
    ensures r >= 0 ==> docs[r].path == Ref(path) && forall k :: 0 <= k < r ==> docs[k].path != Ref(path)
  {
    IsOpenFrom(docs, path, 0)
  }

  function IsOpenFrom(docs: seq<Document>, path: string, i: nat): (r: int)
    requires i <= |docs|
    ensures r == -1 || i <= r < |docs|
    ensures r == -1 <==> forall k :: i <= k < |docs| ==> docs[k].path != Ref(path)
    ensures r >= 0 ==> docs[r].path == Ref(path) && forall k :: i <= k < r ==> docs[k].path != Ref(path)
    decreases |docs| - i
  {
    if i == |docs| then -1
    else if docs[i].path == Ref(path) then i
    else IsOpenFrom(docs, path, i + 1)
  }

  /** The title `tabChanged()` leaves on a tab: the document's name, marked
      when the document has unsaved changes. */
  function TabTitle(d: Document): string
  {
    if d.saved then d.name else TabbedPane.Star(d.name)
  }

  /** Every tab shows its own document's title. */
  predicate TitlesShow(f: Frame)
  {
    && |f.docs| == |f.pane.titles|
    && forall k :: 0 <= k < |f.docs| ==> f.pane.titles[k] == TabTitle(f.docs[k])
  }

  /** `tabChanged()`, which the tab strip runs whenever its selection changes:
      `updateTitle` writes the selected document's name into its tab, and a
      document with unsaved changes then gets its marker back. */
  function TabChanged(f: Frame): (r: Frame)
    requires ValidFrame(f)
    ensures ValidFrame(r) && r.docs == f.docs && r.recents == f.recents && Selected(r) == Selected(f)
    ensures r.pane.titles == f.pane.titles[Selected(f) := TabTitle(f.docs[Selected(f)])]
  {
    var s := Selected(f);
    var d := f.docs[s];
    var p := f.pane.(titles := f.pane.titles[s := d.name]);
    if d.saved then f.(pane := p)
    else f.(pane := TabbedPane.SetTitleStarAt(p, s, true).pane)
  }

  /** `setSelectedIndex(i)`: selecting another tab fires the change event, so
      that tab is retitled; selecting the selected tab again does nothing. */
  function SelectTab(f: Frame, i: int): (r: Frame)
    requires ValidFrame(f) && 0 <= i < |f.docs|
    ensures ValidFrame(r) && Selected(r) == i && r.docs == f.docs && r.recents == f.recents
    ensures i == Selected(f) ==> r == f
    ensures i != Selected(f) ==> r.pane.titles == f.pane.titles[i := TabTitle(f.docs[i])]
    ensures TitlesShow(f) ==> TitlesShow(r)
  {
    if i == Selected(f) then f else TabChanged(f.(pane := f.pane.(selected := i)))
  }

  /** A tab added at the end for a document, under the given title. Appending
      to a strip that has tabs leaves the selection, so no event fires. */
  function AddTab(f: Frame, d: Document, title: string): (r: Frame)
    requires ValidFrame(f)
    ensures ValidFrame(r)
    ensures r.docs == f.docs + [d] && r.pane.titles == f.pane.titles + [title]
    ensures Selected(r) == Selected(f) && r.recents == f.recents
    ensures TitlesShow(f) && title == TabTitle(d) ==> TitlesShow(r)
  {
    Frame(f.docs + [d], TabbedPane.AddTab(f.pane, title), f.recents)
  }

  /** `newDocument()`: a blank tab at the end, selected. The strip titles it
      "Untitled", and selecting it retitles it with the blank document's name. */
  function NewDocument(f: Frame, untitled: string): (r: Frame)
    requires ValidFrame(f)
    ensures ValidFrame(r)
    ensures r.docs == f.docs + [Blank(untitled)] && r.pane.titles == f.pane.titles + [untitled]
    ensures Selected(r) == |f.docs| && r.recents == f.recents
    ensures TitlesShow(f) ==> TitlesShow(r)
  {
    var g := AddTab(f, Blank(untitled), TabbedPane.Untitled);
    var r := SelectTab(g, |g.docs| - 1);
    assert (f.pane.titles + [TabbedPane.Untitled])[|f.docs| := untitled] == f.pane.titles + [untitled];
    r
  }

  /** `tabs.remove(i)`, for a frame with more than one tab. When the removed
      tab was the selected one, its right neighbour is selected, or its left
      one when it was the last; otherwise the selected document stays
      selected. Removing a tab at or before the selected one fires the change
      event, which retitles the tab then selected. */
  function RemoveTabAt(f: Frame, i: int): (r: Frame)
    requires ValidFrame(f) && |f.docs| > 1 && 0 <= i < |f.docs|
    ensures ValidFrame(r) && r.recents == f.recents
    ensures r.docs == f.docs[..i] + f.docs[i + 1..]
    ensures i != Selected(f) ==> r.docs[Selected(r)] == f.docs[Selected(f)]
    ensures i == Selected(f) ==> r.docs[Selected(r)] == f.docs[if i == |f.docs| - 1 then i - 1 else i + 1]
    ensures i > Selected(f) ==> r.pane.titles == f.pane.titles[..i] + f.pane.titles[i + 1..]
    ensures i <= Selected(f) ==>
              r.pane.titles == (f.pane.titles[..i] + f.pane.titles[i + 1..])[Selected(r) := TabTitle(r.docs[Selected(r)])]
    ensures TitlesShow(f) ==> TitlesShow(r)
  {
    var g := Frame(f.docs[..i] + f.docs[i + 1..], TabbedPane.RemoveTab(f.pane, i), f.recents);
    if i <= Selected(f) then TabChanged(g) else g
  }

  /** The user's answer to "save changes?". */
  datatype Answer = Yes | No | Cancel

  /** The selected document is closed unless it has unsaved changes and the
      user cancels. */
  predicate Closes(d: Document, a: Answer)
  {
    d.saved || a != Cancel
  }

  /** `close()`: the selected tab goes; closing the only tab first adds a
      blank one, so there is always a tab. A "yes" saves before closing;
      the save is not modelled, and the tab goes whatever it does. */
  function Close(f: Frame, untitled: string, a: Answer): (r: (Frame, bool))
    requires ValidFrame(f)
    ensures ValidFrame(r.0) && r.0.recents == f.recents
    ensures r.1 <==> Closes(f.docs[Selected(f)], a)
    ensures !r.1 ==> r.0 == f
    ensures r.1 && |f.docs| == 1 ==> r.0.docs == [Blank(untitled)] && r.0.pane == TabbedPane.Pane([untitled], 0)
    ensures r.1 && |f.docs| > 1 ==> r.0.docs == f.docs[..Selected(f)] + f.docs[Selected(f) + 1..]
    ensures TitlesShow(f) ==> TitlesShow(r.0)
  {
    if !Closes(f.docs[Selected(f)], a) then (f, false)
    else if |f.docs| == 1 then
      var g := NewDocument(f, untitled);
      var h := RemoveTabAt(g, 0);
      assert g.docs[1..] == [Blank(untitled)];
      assert h.pane.titles == [untitled];
      (h, true)
    else (RemoveTabAt(f, Selected(f)), true)
  }

  /** Every tab from `i` down to 0 can be closed with the given answers. */
  predicate AllClose(docs: seq<Document>, answers: seq<Answer>, i: int)
    requires i < |docs| && |docs| <= |answers|
  {
    forall k :: 0 <= k <= i ==> Closes(docs[k], answers[k])
  }

  /** The loop of `closeAll()` from tab `i` down: select the tab, close it,
      stop at the first cancel. `answers[k]` is the answer for tab `k`. */
  function CloseAllFrom(f: Frame, untitled: string, answers: seq<Answer>, i: int): (r: (Frame, bool))
    requires ValidFrame(f) && -1 <= i && |f.docs| <= |answers|
    requires i >= 0 ==> |f.docs| == i + 1
    ensures ValidFrame(r.0) && r.0.recents == f.recents
    ensures r.1 <==> AllClose(f.docs, answers, i)
    ensures r.1 ==> (i == -1 && r.0 == f) || (i >= 0 && r.0.docs == [Blank(untitled)])
    ensures !r.1 ==> Kept(f.docs, answers, r.0.docs)
    ensures TitlesShow(f) ==> TitlesShow(r.0)
    decreases i + 1
  {
    if i < 0 then (f, true)
    else
      var c := Close(SelectTab(f, i), untitled, answers[i]);
      CloseLastTab(f, untitled, answers, i);
      if !c.1 || i == 0 then c
      else
        var r := CloseAllFrom(c.0, untitled, answers, i - 1);
        KeptInPrefix(f.docs, answers, i, r);
        r
  }

  /** After a cancel, what is left is the tabs up to the cancelled one, as
      they were: a non-empty prefix whose last tab did not close. */
  predicate Kept(docs: seq<Document>, answers: seq<Answer>, left: seq<Document>)
    requires |docs| <= |answers|
  {
    && 1 <= |left| <= |docs|
    && left == docs[..|left|]
    && !Closes(left[|left| - 1], answers[|left| - 1])
  }

  /** What is kept of the tabs before tab `i` is kept of all of them. */
  lemma KeptInPrefix(docs: seq<Document>, answers: seq<Answer>, i: int, r: (Frame, bool))
    requires 0 < i < |docs| <= |answers|
    requires !r.1 ==> Kept(docs[..i], answers, r.0.docs)
    ensures !r.1 ==> Kept(docs, answers, r.0.docs)
  {
    if !r.1 {
      var n := |r.0.docs|;
      assert docs[..i][..n] == docs[..n];
    }
  }

  /** Closing the last tab, selected: it goes exactly when it closes, leaving
      the tabs before it, which all close exactly when all tabs up to it do. */
  lemma CloseLastTab(f: Frame, untitled: string, answers: seq<Answer>, i: int)
    requires ValidFrame(f) && 0 <= i && |f.docs| <= |answers| && |f.docs| == i + 1
    ensures var c := Close(SelectTab(f, i), untitled, answers[i]);
            && (c.1 <==> Closes(f.docs[i], answers[i]))
            && (!c.1 ==> !AllClose(f.docs, answers, i))
            && (i == 0 ==> (c.1 <==> AllClose(f.docs, answers, i)))
            && (c.1 && i > 0 ==>
                  && c.0.docs == f.docs[..i]
                  && (AllClose(f.docs, answers, i) <==> AllClose(c.0.docs, answers, i - 1)))
  {
    var c := Close(SelectTab(f, i), untitled, answers[i]);
    if c.1 && i > 0 {
      assert c.0.docs == f.docs[..i];
      AllCloseStep(f.docs, answers, i);
    }
  }

  /** Every tab down from `i` closes when tab `i` does and every tab before
      it does. */
  lemma AllCloseStep(docs: seq<Document>, answers: seq<Answer>, i: int)
    requires 0 < i < |docs| <= |answers|
    ensures AllClose(docs, answers, i) <==> Closes(docs[i], answers[i]) && AllClose(docs[..i], answers, i - 1)
  {
    if Closes(docs[i], answers[i]) && AllClose(docs[..i], answers, i - 1) {
      forall k | 0 <= k <= i
        ensures Closes(docs[k], answers[k])
      {
        if k < i {
          assert docs[..i][k] == docs[k];
        }
      }
    }
  }

  /** A cancel on the last tab stops the loop with the tabs as they were. */
  lemma CloseAllFromStops(f: Frame, untitled: string, answers: seq<Answer>, i: int)
    requires ValidFrame(f) && 0 <= i && |f.docs| <= |answers| && |f.docs| == i + 1
    requires !Closes(f.docs[i], answers[i])
    ensures !CloseAllFrom(f, untitled, answers, i).1 && CloseAllFrom(f, untitled, answers, i).0.docs == f.docs
  {
    CloseLastTab(f, untitled, answers, i);
    var c := Close(SelectTab(f, i), untitled, answers[i]);
    assert CloseAllFrom(f, untitled, answers, i) == c;
  }

  /** A last tab that closes, with tabs before it, leaves those tabs, `g`,
      for the rest of the loop. */
  lemma CloseAllFromPasses(f: Frame, untitled: string, answers: seq<Answer>, i: int) returns (g: Frame)
    requires ValidFrame(f) && 0 < i && |f.docs| <= |answers| && |f.docs| == i + 1
    requires Closes(f.docs[i], answers[i])
    ensures ValidFrame(g) && g.docs == f.docs[..i]
    ensures CloseAllFrom(f, untitled, answers, i) == CloseAllFrom(g, untitled, answers, i - 1)
  {
    CloseLastTab(f, untitled, answers, i);
    g := Close(SelectTab(f, i), untitled, answers[i]).0;
  }

  /** One turn of the loop: a cancel stops the loop with the tabs as they
      were; a tab that closes is the last one to go or leaves the tabs before
      it, `g`, for the rest of the loop. */
  lemma CloseAllFromStep(f: Frame, untitled: string, answers: seq<Answer>, i: int) returns (g: Frame)
    requires ValidFrame(f) && 0 <= i && |f.docs| <= |answers| && |f.docs| == i + 1
    ensures !Closes(f.docs[i], answers[i]) ==>
              !CloseAllFrom(f, untitled, answers, i).1 && CloseAllFrom(f, untitled, answers, i).0.docs == f.docs
    ensures Closes(f.docs[i], answers[i]) && i == 0 ==> CloseAllFrom(f, untitled, answers, i).1
    ensures Closes(f.docs[i], answers[i]) && i > 0 ==>
              && ValidFrame(g) && g.docs == f.docs[..i]
              && CloseAllFrom(f, untitled, answers, i) == CloseAllFrom(g, untitled, answers, i - 1)
  {
    g := f;
    if !Closes(f.docs[i], answers[i]) {
      CloseAllFromStops(f, untitled, answers, i);
    } else if i > 0 {
      g := CloseAllFromPasses(f, untitled, answers, i);
    } else {
      assert AllClose(f.docs, answers, i);
    }
  }

  /** `closeAll()`: from the last tab to the first. When everything closes,
      one blank tab is left. */
  function CloseAll(f: Frame, untitled: string, answers: seq<Answer>): (r: (Frame, bool))
    requires ValidFrame(f) && |f.docs| == |answers|
    ensures ValidFrame(r.0) && r.0.recents == f.recents
    ensures r.1 <==> forall k :: 0 <= k < |f.docs| ==> Closes(f.docs[k], answers[k])
    ensures r.1 ==> r.0.docs == [Blank(untitled)]
    ensures !r.1 ==> Kept(f.docs, answers, r.0.docs)
    ensures TitlesShow(f) ==> TitlesShow(r.0)
  {
    CloseAllFrom(f, untitled, answers, |f.docs| - 1)
  }

  /** The outcome of reading a file to open it. */
  datatype ReadOutcome = ReadOk(name: string, path: string, content: string) | NotFound | ReadFailed

  /** `open(path, popup)`: an open path just selects its tab; otherwise the
      file read becomes a new tab at the end, which replaces a selected blank
      tab nobody has touched, and its path moves to the front of the recent
      list. A failed read changes nothing. */
  function Open(f: Frame, path: string, read: ReadOutcome): (r: Frame)
    requires ValidFrame(f)
    ensures ValidFrame(r)
    ensures IsOpen(f.docs, path) >= 0 ==> r == SelectTab(f, IsOpen(f.docs, path))
    ensures IsOpen(f.docs, path) == -1 && !read.ReadOk? ==> r == f
    ensures IsOpen(f.docs, path) == -1 && read.ReadOk? ==>
              && Selected(r) == |r.docs| - 1
              && r.docs[|r.docs| - 1] == Opened(read.name, Ref(read.path), read.content)
              && r.pane.titles[|r.docs| - 1] == read.name
              && r.recents == AddRecentPath(f.recents, read.path)
    ensures TitlesShow(f) ==> TitlesShow(r)
  {
    var index := IsOpen(f.docs, path);
    if index != -1 then SelectTab(f, index)
    else
      match read
      case ReadOk(name, p, content) =>
        AddOpened(f, name, p, content).(recents := AddRecentPath(f.recents, p))
      case _ => f
  }

  /** The tab of a file just read: appended under the file's name,
      replacing a selected blank tab nobody has touched, then selected, and
      named once more by `updateTitle`. */
  function AddOpened(f: Frame, name: string, path: string, content: string): (r: Frame)
    requires ValidFrame(f)
    ensures ValidFrame(r) && r.recents == f.recents
    ensures Selected(r) == |r.docs| - 1 && r.docs[|r.docs| - 1] == Opened(name, Ref(path), content)
    ensures r.pane.titles[|r.docs| - 1] == name
    ensures TitlesShow(f) ==> TitlesShow(r)
  {
    var d := Opened(name, Ref(path), content);
    assert TabTitle(d) == name;
    var g := AddTab(f, d, name);
    var h := if g.docs[Selected(g)].newDocument then RemoveTabAt(g, Selected(g)) else g;
    assert h.docs[|h.docs| - 1] == d;
    assert h.pane.titles[|h.docs| - 1] == name;
    var k := SelectTab(h, |h.docs| - 1);
    var titled := k.pane.(titles := k.pane.titles[|k.docs| - 1 := name]);
    assert titled == k.pane;
    k.(pane := titled)
  }

  /** A selected blank tab nobody has touched is replaced by the file opened. */
  lemma OpenReplacesPristineTab(f: Frame, path: string, name: string, p: string, content: string)
    requires ValidFrame(f) && IsOpen(f.docs, path) == -1
    ensures var s := Selected(f);
            var r := Open(f, path, ReadOk(name, p, content));
            r.docs == (if f.docs[s].newDocument then f.docs[..s] + f.docs[s + 1..] else f.docs)
                      + [Opened(name, Ref(p), content)]
  {
    var s := Selected(f);
    var d := Opened(name, Ref(p), content);
    var g := AddTab(f, d, name);
    assert g.docs[..s] == f.docs[..s];
    assert g.docs[s + 1..] == f.docs[s + 1..] + [d];
  }

  // ---------------------------------------------------------------------------
  // Exit

  /** The paths of the documents, in tab order. */
  function PathsOf(docs: seq<Document>): (ps: seq<Nullable<string>>)
    ensures |ps| == |docs| && forall k :: 0 <= k < |docs| ==> ps[k] == docs[k].path
  {
    seq(|docs|, k requires 0 <= k < |docs| => docs[k].path)
  }

  /** The list `exit()` collects: the non-null paths from the last tab to
      the first. */
  function Backward(docs: seq<Document>): (ps: seq<string>)
    decreases |docs|
  {
    if docs == [] then []
    else
      var last := docs[|docs| - 1].path;
      (if last.Ref? then [last.value] else []) + Backward(docs[..|docs| - 1])
  }

  function Reverse(s: seq<string>): (r: seq<string>)
    ensures |r| == |s| && forall k :: 0 <= k < |s| ==> r[k] == s[|s| - 1 - k]
  {
    if s == [] then [] else Reverse(s[1..]) + [s[0]]
  }

  lemma ReverseAppend(a: seq<string>, b: seq<string>)
    ensures Reverse(a + b) == Reverse(b) + Reverse(a)
  {
    var r, l := Reverse(a + b), Reverse(b) + Reverse(a);
    assert |r| == |l|;
    forall k | 0 <= k < |r| ensures r[k] == l[k] {
      if k < |b| {
        assert r[k] == (a + b)[|a| + |b| - 1 - k];
      }
    }
  }

  /** The paths of all tabs are those of all but the last, then the last's. */
  lemma PathsOfSnoc(docs: seq<Document>)
    requires docs != []
    ensures PathsOf(docs) == PathsOf(docs[..|docs| - 1]) + [docs[|docs| - 1].path]
  {
  }

  /** One path read forwards. */
  lemma PresentOne(p: Nullable<string>)
    ensures Session.Present([p]) == if p.Ref? then [p.value] else []
  {
    assert [p][1..] == [];
  }

  /** Collecting backwards and then reversing is the forward list of the
      non-null paths. */
  lemma {:induction false} BackwardReversed(docs: seq<Document>)
    ensures Reverse(Backward(docs)) == Session.Present(PathsOf(docs))
    decreases |docs|
  {
    if docs != [] {
      var init := docs[..|docs| - 1];
      var last := docs[|docs| - 1].path;
      var x: seq<string> := if last.Ref? then [last.value] else [];
      assert Backward(docs) == x + Backward(init);
      BackwardReversed(init);
      ReverseAppend(x, Backward(init));
      assert Reverse(x) == x;
      PathsOfSnoc(docs);
      Session.PresentAppend(PathsOf(init), [last]);
      PresentOne(last);
    }
  }

  /** The loop of `exit()` that collects the paths: it selects every tab from
      `i` down to the first, and each selection retitles its tab. */
  function SelectEach(f: Frame, i: int): (r: Frame)
    requires ValidFrame(f) && -1 <= i < |f.docs|
    ensures ValidFrame(r) && r.docs == f.docs && r.recents == f.recents
    ensures i >= 0 ==> Selected(r) == 0
    ensures TitlesShow(f) ==> TitlesShow(r)
    decreases i + 1
  {
    if i < 0 then f else SelectEach(SelectTab(f, i), i - 1)
  }

  /** What `exit()` comes to: the program shuts down, leaving the session
      and the separator preference to be stored, or a cancel keeps it
      running. */
  datatype ExitOutcome =
    | ShutDown(session: Session.Session, separator: string)
    | KeptRunning(frame: Frame, session: Session.Session)

  /** `exit()`. When the current session is remembered, the open paths are
      stored first, before any tab is closed. */
  function Exit(f: Frame, s: Session.Session, remember: bool, item: SeparatorItem,
                untitled: string, answers: seq<Answer>): (r: ExitOutcome)
    requires ValidFrame(f) && |f.docs| == |answers|
    ensures r.ShutDown? <==> forall k :: 0 <= k < |f.docs| ==> Closes(f.docs[k], answers[k])
    ensures remember ==> r.session.open == Session.Present(PathsOf(f.docs))
    ensures !remember ==> r.session.open == s.open
    ensures r.ShutDown? ==> r.session.recents == f.recents && r.separator == SelectedSeparator(item)
    ensures r.KeptRunning? ==> r.session.recents == s.recents
    ensures r.KeptRunning? && TitlesShow(f) ==> TitlesShow(r.frame)
  {
    var paths := Reverse(Backward(f.docs));
    BackwardReversed(f.docs);
    var s1 := if remember then Session.AddOpens(Session.ClearOpen(s), Session.Refs(paths)) else s;
    var g := if remember then SelectEach(f, |f.docs| - 1) else f;
    Session.ClearThenAdd(s, paths, false);
    var (h, ok) := CloseAll(g, untitled, answers);
    if ok then
      Session.ClearThenAdd(s1, f.recents, true);
      ShutDown(Session.AddRecents(Session.ClearRecents(s1), Session.Refs(f.recents)), SelectedSeparator(item))
    else KeptRunning(h, s1)
  }

  /** A cancelled exit has already replaced the stored open paths. */
  lemma CancelledExitStoresOpenPaths(f: Frame, s: Session.Session, item: SeparatorItem,
                                     untitled: string, answers: seq<Answer>)
    requires ValidFrame(f) && |f.docs| == |answers|
    requires !f.docs[0].saved && answers[0] == Cancel
    ensures var r := Exit(f, s, true, item, untitled, answers);
            r.KeptRunning? && r.session.open == Session.Present(PathsOf(f.docs))
  {
  }
}
