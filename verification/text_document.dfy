/**
 The document record behind one editor tab: its name, optional path, text and
 the three bookkeeping flags, together with the two primitive edits every
 structural operation is built from. A primitive edit that changes the text
 fires a document event, and the document's own listener answers every event
 by marking the document unsaved.
 */
module TextDocument {
  import opened JavaText

  datatype Document = Document(
    name: string,
    path: Nullable<string>,
    text: string,
    saved: bool,        // no edit since the last save
    savedOnDisk: bool,  // the document has a file on disk
    newDocument: bool)  // a blank document nobody has touched yet

  /** The outcome of a structural operation on the text: the text afterwards and
      whether any primitive edit (hence a document event) took place. */
  datatype Edit = Edit(text: string, fired: bool)

  /** A half-open range of offsets, as the `int[] {start, end}` pairs the
      document returns. */
  datatype Span = Span(start: int, end: int)

  /** `insertString(off, t)` on the raw text. */
  function InsertAt(s: string, off: int, t: string): (r: string)
    requires 0 <= off <= |s|
    ensures |r| == |s| + |t|
    ensures r[..off] == s[..off] && r[off..off + |t|] == t && r[off + |t|..] == s[off..]
  {
    s[..off] + t + s[off..]
  }

  /** `remove(off, n)` on the raw text. */
  function RemoveAt(s: string, off: int, n: int): (r: string)
    requires 0 <= off && 0 <= n && off + n <= |s|
    ensures |r| == |s| - n
    ensures r[..off] == s[..off] && r[off..] == s[off + n..]
  {
    s[..off] + s[off + n..]
  }

  lemma MultisetInsertAt(s: string, off: int, t: string)
    requires 0 <= off <= |s|
    ensures multiset(InsertAt(s, off, t)) == multiset(s) + multiset(t)
  {
    assert s == s[..off] + s[off..];
  }

  lemma MultisetRemoveAt(s: string, off: int, n: int)
    requires 0 <= off && 0 <= n && off + n <= |s|
    ensures multiset(RemoveAt(s, off, n)) + multiset(s[off..off + n]) == multiset(s)
  {
    assert s == s[..off] + s[off..off + n] + s[off + n..];
  }

  /** The middle part of a three-part text, read back by offsets. */
  lemma SliceOfConcat(a: string, m: string, b: string)
    ensures (a + m + b)[|a|..|a| + |m|] == m
  {
  }

  /** Removing the middle part of a three-part text. */
  lemma RemoveFromConcat(a: string, m: string, b: string)
    ensures RemoveAt(a + m + b, |a|, |m|) == a + b
  {
    var s := a + m + b;
    assert s[..|a|] == a;
    assert s[|a| + |m|..] == b;
  }

  /** Inserting at the seam of a two-part text. */
  lemma InsertIntoConcat(a: string, b: string, t: string)
    ensures InsertAt(a + b, |a|, t) == a + t + b
  {
    var s := a + b;
    assert s[..|a|] == a;
    assert s[|a|..] == b;
  }

  /** Removing what was just inserted restores the text. */
  lemma RemoveUndoesInsert(s: string, off: int, t: string)
    requires 0 <= off <= |s|
    ensures RemoveAt(InsertAt(s, off, t), off, |t|) == s
  {
    var r := InsertAt(s, off, t);
    assert r[..off] == s[..off];
    assert r[off + |t|..] == s[off..];
    assert s == s[..off] + s[off..];
  }

  /** The blank document of a new tab: no text, no path, never on disk. Its
      `saved` flag is true because the constructor chain sets it before the
      blank constructor marks the document as new. */
  function Blank(untitled: string): (d: Document)
    ensures d.text == [] && d.path == Null && d.name == untitled
    ensures d.newDocument && !d.savedOnDisk && d.saved
  {
    Document(untitled, Null, [], true, false, true)
  }

  /** A document built from a file that was read: saved and on disk. */
  function Opened(name: string, path: Nullable<string>, content: string): (d: Document)
    ensures d.text == content && d.name == name && d.path == path
    ensures d.saved && d.savedOnDisk && !d.newDocument
  {
    Document(name, path, content, true, true, false)
  }

  /** `setSaved(b)`, which also clears the new-document mark. */
  function SetSaved(d: Document, b: bool): (r: Document)
    ensures r.saved == b && !r.newDocument
    ensures r.text == d.text && r.name == d.name && r.path == d.path && r.savedOnDisk == d.savedOnDisk
  {
    d.(saved := b, newDocument := false)
  }

  /** Installs the outcome of a structural operation: a fired event marks the
      document unsaved (and no longer new); otherwise only the text is carried
      over, and it is unchanged. */
  function Apply(d: Document, e: Edit): (r: Document)
    ensures r.text == e.text && r.name == d.name && r.path == d.path
    ensures r.savedOnDisk == d.savedOnDisk
    ensures e.fired ==> !r.saved && !r.newDocument
    ensures !e.fired ==> r.saved == d.saved && r.newDocument == d.newDocument
  {
    if e.fired then SetSaved(d, false).(text := e.text) else d.(text := e.text)
  }

  /** The outcome of a public edit call that may be refused. */
  datatype Attempt = Done(doc: Document) | BadLocation

  /** `insertString(off, t)`: inserting nothing is accepted anywhere and fires no
      event; an offset outside `[0, length]` is refused. */
  function Insert(d: Document, off: int, t: string): (r: Attempt)
    ensures t != [] && !(0 <= off <= |d.text|) <==> r == BadLocation
    ensures r.Done? && t != [] ==> r.doc.text == InsertAt(d.text, off, t) && !r.doc.saved && !r.doc.newDocument
    ensures t == [] ==> r == Done(d)
  {
    if t == [] then Done(d)
    else if off < 0 || off > |d.text| then BadLocation
    else Done(Apply(d, Edit(InsertAt(d.text, off, t), true)))
  }

  /** `remove(off, n)`: a non-positive length is a no-op; a range outside the
      text is refused. */
  function Remove(d: Document, off: int, n: int): (r: Attempt)
    ensures n > 0 && !(0 <= off && off + n <= |d.text|) <==> r == BadLocation
    ensures r.Done? && n > 0 ==> r.doc.text == RemoveAt(d.text, off, n) && !r.doc.saved && !r.doc.newDocument
    ensures n <= 0 ==> r == Done(d)
  {
    if n <= 0 then Done(d)
    else if off < 0 || off + n > |d.text| then BadLocation
    else Done(Apply(d, Edit(RemoveAt(d.text, off, n), true)))
  }

  /** Inserting a text and then removing the same span restores the content;
      the document stays marked unsaved. */
  lemma InsertThenRemove(d: Document, off: int, t: string)
    requires 0 <= off <= |d.text| && t != []
    ensures Insert(d, off, t).Done?
    ensures var d1 := Insert(d, off, t).doc;
            Remove(d1, off, |t|).Done? &&
            Remove(d1, off, |t|).doc.text == d.text &&
            !Remove(d1, off, |t|).doc.saved
  {
    RemoveUndoesInsert(d.text, off, t);
  }
}
