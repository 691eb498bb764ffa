/**
 The tab strip's titles and the '*' marker that flags a tab whose document has
 changed since it was last saved. The marker is always put on (or taken off)
 the selected tab, whatever index the caller passes.
 */
module TabbedPane {
  import opened JavaText

  /** The tab titles, left to right, and the selected index (-1 when there
      are no tabs, as the toolkit reports it). */
  datatype Pane = Pane(titles: seq<string>, selected: int)

  predicate ValidPane(p: Pane)
  {
    if p.titles == [] then p.selected == -1 else 0 <= p.selected < |p.titles|
  }

  /** The title a blank tab gets. */
  const Untitled: string := "Untitled"

  /** The title with the marker in front, unless it already has one. */
  function Star(t: string): (r: string)
    ensures StartsWith(r, "*")
    ensures StartsWith(t, "*") ==> r == t
    ensures !StartsWith(t, "*") ==> |r| == |t| + 1 && r[1..] == t
  {
    if StartsWith(t, "*") then t else "*" + t
  }

  /** The title with one leading marker removed, if it has one. The source
      reads the first character unguarded, so the title must not be empty. */
  function Unstar(t: string): (r: string)
    requires t != []
    ensures t[0] == '*' ==> "*" + r == t
    ensures t[0] != '*' ==> r == t
  {
    if t[0] == '*' then t[1..] else t
  }

  /** What `setTitleStarAt` comes to: the pane with its new titles, or the
      runtime error of reading a title that is not there (no tab selected) or
      the first character of an empty title. */
  datatype Retitle = Retitled(pane: Pane) | IndexError

  /** `setTitleStarAt(index, b)`: `index` is not used. */
  function SetTitleStarAt(p: Pane, index: int, b: bool): (r: Retitle)
    requires ValidPane(p)
    ensures r == IndexError <==> p.titles == [] || (!b && p.titles[p.selected] == [])
    ensures r.Retitled? ==>
              && r.pane.selected == p.selected
              && |r.pane.titles| == |p.titles|
              && (forall k :: 0 <= k < |p.titles| && k != p.selected ==> r.pane.titles[k] == p.titles[k])
              && r.pane.titles[p.selected] == (if b then Star(p.titles[p.selected]) else Unstar(p.titles[p.selected]))
  {
    if p.titles == [] then IndexError
    else
      var t := p.titles[p.selected];
      if b then Retitled(p.(titles := p.titles[p.selected := Star(t)]))
      else if t == [] then IndexError
      else Retitled(p.(titles := p.titles[p.selected := Unstar(t)]))
  }

  /** The document listener's answer to any insert, remove or change event,
      whichever tab's document fired it. */
  function Edited(p: Pane): (r: Retitle)
    requires ValidPane(p)
  {
    SetTitleStarAt(p, p.selected, true)
  }

  /** `addTab(title, ...)`: the title is appended; the first tab added to an
      empty pane becomes the selected one. */
  function AddTab(p: Pane, title: string): (r: Pane)
    requires ValidPane(p)
    ensures ValidPane(r)
    ensures r.titles == p.titles + [title]
    ensures p.titles != [] ==> r.selected == p.selected
  {
    Pane(p.titles + [title], if p.titles == [] then 0 else p.selected)
  }

  /** `removeTabAt(index)`: the toolkit moves the selection one to the left
      when the removed tab lay before it or when the last tab was selected. */
  function RemoveTab(p: Pane, index: int): (r: Pane)
    requires ValidPane(p) && 0 <= index < |p.titles|
    ensures ValidPane(r)
    ensures |r.titles| == |p.titles| - 1
    ensures r.titles == p.titles[..index] + p.titles[index + 1..]
  {
    var s := if p.selected > index || p.selected == |p.titles| - 1 then p.selected - 1 else p.selected;
    Pane(p.titles[..index] + p.titles[index + 1..], s)
  }

  // ---------------------------------------------------------------------------
  // Properties

  /** Starring twice is starring once. */
  lemma StarIdempotent(t: string)
    ensures Star(Star(t)) == Star(t)
  {
  }

  /** Unstarring undoes starring for every title that had no marker. */
  lemma UnstarUndoesStar(t: string)
    requires !StartsWith(t, "*")
    ensures Unstar(Star(t)) == t
  {
  }

  /** Starring undoes unstarring for every title with exactly one leading
      marker; a title with two keeps one of them. */
  lemma StarUndoesUnstar(t: string)
    requires t != [] && t[0] == '*'
    ensures Star(Unstar(t)) == t <==> |t| == 1 || t[1] != '*'
  {
    assert StartsWith(t, "*");
    if |t| > 1 && t[1] == '*' {
      assert StartsWith(Unstar(t), "*");
    }
  }

  /** Which index is passed makes no difference. */
  lemma IndexIgnored(p: Pane, i: int, j: int, b: bool)
    requires ValidPane(p)
    ensures SetTitleStarAt(p, i, b) == SetTitleStarAt(p, j, b)
  {
  }

  /** An edit marks the selected tab, and only it; further edits change
      nothing. */
  lemma EditStarsSelected(p: Pane)
    requires ValidPane(p) && p.titles != []
    ensures Edited(p).Retitled?
    ensures var q := Edited(p).pane;
            && ValidPane(q)
            && StartsWith(q.titles[q.selected], "*")
            && (forall k :: 0 <= k < |p.titles| && k != p.selected ==> q.titles[k] == p.titles[k])
            && Edited(q) == Retitled(q)
  {
    var q := Edited(p).pane;
    StarIdempotent(p.titles[p.selected]);
    assert q.titles[p.selected := Star(q.titles[p.selected])] == q.titles;
  }

  /** Unstarring the empty title of the selected tab is the index error of
      reading its first character. */
  lemma UnstarEmptyTitleFails(p: Pane, index: int)
    requires ValidPane(p) && p.titles != [] && p.titles[p.selected] == []
    ensures SetTitleStarAt(p, index, false) == IndexError
  {
  }

  /** Removing a tab that was just added after the selected one restores the
      pane. */
  lemma RemoveUndoesAdd(p: Pane, title: string)
    requires ValidPane(p) && p.titles != []
    ensures RemoveTab(AddTab(p, title), |p.titles|) == p
  {
    assert (p.titles + [title])[..|p.titles|] == p.titles;
  }
}
