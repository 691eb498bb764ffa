/**
 The part of a text component's state the editor reads and writes around its
 document calls: the text, the selection anchor (`mark`) and the caret
 (`dot`). These are the toolkit's rules for selecting, which the editor relies
 on without restating them: `select(s, e)` clamps `s` into the text and `e`
 between `s` and the end, anchors the selection at `s` and leaves the caret at
 `e`.
 */
module View {
  import opened JavaText

  datatype View = View(text: string, mark: int, dot: int)

  predicate ValidView(v: View)
  {
    0 <= v.mark <= |v.text| && 0 <= v.dot <= |v.text|
  }

  function SelectionStart(v: View): int { Min(v.mark, v.dot) }

  function SelectionEnd(v: View): int { Max(v.mark, v.dot) }

  /** `getSelectedText()`: `null` when nothing is selected. */
  function SelectedText(v: View): (r: Nullable<string>)
    requires ValidView(v)
    ensures r == Null <==> v.mark == v.dot
    ensures r.Ref? ==> |r.value| == SelectionEnd(v) - SelectionStart(v) > 0
  {
    if SelectionStart(v) == SelectionEnd(v) then Null
    else Ref(v.text[SelectionStart(v)..SelectionEnd(v)])
  }

  /** `select(s, e)`: the bounds are clamped into the text, the end no lower
      than the start; the anchor goes to the start and the caret to the end. */
  function Select(v: View, s: int, e: int): (r: View)
    ensures r.text == v.text && ValidView(r)
    ensures r.mark <= r.dot
    ensures 0 <= s <= |v.text| ==> r.mark == s
    ensures s <= e <= |v.text| ==> r.dot == Max(e, r.mark)
    ensures r.dot == r.mark || r.dot == e || r.dot == |v.text|
  {
    var start := if s < 0 then 0 else if s > |v.text| then |v.text| else s;
    var end := if e > |v.text| then |v.text| else e;
    View(v.text, start, if end < start then start else end)
  }

  /** `setSelectionStart(s)`: selects from `s` to the current selection end. */
  function SetSelectionStart(v: View, s: int): View
  {
    Select(v, s, SelectionEnd(v))
  }

  /** `setSelectionEnd(e)`: selects from the current selection start to `e`. */
  function SetSelectionEnd(v: View, e: int): View
  {
    Select(v, SelectionStart(v), e)
  }

  /** `setCaretPosition(p)`: collapses the selection at `p`; the toolkit
      refuses offsets outside the text. */
  function SetCaret(v: View, p: int): (r: View)
    requires 0 <= p <= |v.text|
    ensures ValidView(r) && r.text == v.text
    ensures r.mark == p && r.dot == p
  {
    View(v.text, p, p)
  }

  /** Setting the selection start and then its end is a single `select`,
      whatever was selected before. The editor always sets a selection this
      way. */
  lemma StartThenEnd(v: View, s: int, e: int)
    ensures SetSelectionEnd(SetSelectionStart(v, s), e) == Select(v, s, e)
  {
  }

  /** Selecting a span inside the text selects exactly that span, with the
      caret at its end. */
  lemma SelectInside(v: View, s: int, e: int)
    requires 0 <= s <= e <= |v.text|
    ensures Select(v, s, e) == View(v.text, s, e)
    ensures s < e ==> SelectedText(Select(v, s, e)) == Ref(v.text[s..e])
    ensures s == e ==> SelectedText(Select(v, s, e)) == Null
  {
  }

  /** Re-selecting the current selection of a valid view in forward
      direction changes nothing. */
  lemma SelectCurrent(v: View)
    requires ValidView(v) && v.mark <= v.dot
    ensures Select(v, SelectionStart(v), SelectionEnd(v)) == v
  {
  }

  /** After a caret move nothing is selected. */
  lemma CaretClearsSelection(v: View, p: int)
    requires 0 <= p <= |v.text|
    ensures SelectedText(SetCaret(v, p)) == Null
  {
  }
}
