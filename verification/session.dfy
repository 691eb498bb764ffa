/**
 The session record kept between runs: the recently used paths and the paths
 open at exit, each an append-only list that skips null entries. Its storage
 in the "session" file is left out.
 */
module Session {
  import opened JavaText

  datatype Session = Session(recents: seq<string>, open: seq<string>)

  /** The session a fresh run starts with. */
  function Empty(): Session
  {
    Session([], [])
  }

  /** The non-null entries of an array, in order. */
  function Present(ps: seq<Nullable<string>>): (r: seq<string>)
    ensures |r| <= |ps|
    ensures forall x :: x in r <==> Ref(x) in ps
  {
    if ps == [] then []
    else
      var rest := Present(ps[1..]);
      assert forall x :: Ref(x) in ps <==> Ref(x) == ps[0] || Ref(x) in ps[1..];
      if ps[0].Ref? then [ps[0].value] + rest else rest
  }

  /** Adding one path to a list: a null is ignored, anything else goes at
      the end. */
  function Added(list: seq<string>, p: Nullable<string>): (r: seq<string>)
    ensures p == Null ==> r == list
    ensures p.Ref? ==> r == list + [p.value]
  {
    if p.Ref? then list + [p.value] else list
  }

  /** Adding the entries of an array one by one, first to last. */
  function AddedAll(list: seq<string>, ps: seq<Nullable<string>>): (r: seq<string>)
    ensures r == list + Present(ps)
    decreases |ps|
  {
    if ps == [] then list
    else AddedAll(Added(list, ps[0]), ps[1..])
  }

  /** `addRecent(path)`. */
  function AddRecent(s: Session, p: Nullable<string>): (r: Session)
    ensures r.open == s.open
    ensures r.recents == Added(s.recents, p)
  {
    s.(recents := Added(s.recents, p))
  }

  /** `addRecent(paths)`. */
  function AddRecents(s: Session, ps: seq<Nullable<string>>): (r: Session)
    ensures r.open == s.open
    ensures r.recents == s.recents + Present(ps)
  {
    s.(recents := AddedAll(s.recents, ps))
  }

  /** `addOpen(path)`. */
  function AddOpen(s: Session, p: Nullable<string>): (r: Session)
    ensures r.recents == s.recents
    ensures r.open == Added(s.open, p)
  {
    s.(open := Added(s.open, p))
  }

  /** `addOpen(paths)`. */
  function AddOpens(s: Session, ps: seq<Nullable<string>>): (r: Session)
    ensures r.recents == s.recents
    ensures r.open == s.open + Present(ps)
  {
    s.(open := AddedAll(s.open, ps))
  }

  /** `clearOpen()`. */
  function ClearOpen(s: Session): (r: Session)
    ensures r.open == [] && r.recents == s.recents
  {
    s.(open := [])
  }

  /** `clearRecents()`. */
  function ClearRecents(s: Session): (r: Session)
    ensures r.recents == [] && r.open == s.open
  {
    s.(recents := [])
  }

  /** A list handed over as an array of (non-null) strings. */
  function Refs(xs: seq<string>): (r: seq<Nullable<string>>)
    ensures |r| == |xs| && forall k :: 0 <= k < |xs| ==> r[k] == Ref(xs[k])
  {
    seq(|xs|, k requires 0 <= k < |xs| => Ref(xs[k]))
  }

  // ---------------------------------------------------------------------------
  // Properties

  /** Nothing but nulls are dropped: a list of references comes back whole. */
  lemma {:induction false} PresentOfRefs(xs: seq<string>)
    ensures Present(Refs(xs)) == xs
  {
    if xs != [] {
      assert Refs(xs)[1..] == Refs(xs[1..]);
      PresentOfRefs(xs[1..]);
    }
  }

  /** Adding an array in two parts is adding it at once. */
  lemma {:induction false} PresentAppend(a: seq<Nullable<string>>, b: seq<Nullable<string>>)
    ensures Present(a + b) == Present(a) + Present(b)
  {
    if a != [] {
      assert (a + b)[0] == a[0] && (a + b)[1..] == a[1..] + b;
      PresentAppend(a[1..], b);
      if a[0].Ref? {
        assert [a[0].value] + (Present(a[1..]) + Present(b)) == ([a[0].value] + Present(a[1..])) + Present(b);
      }
    } else {
      assert a + b == b;
    }
  }

  lemma AddRecentsInParts(s: Session, a: seq<Nullable<string>>, b: seq<Nullable<string>>)
    ensures AddRecents(AddRecents(s, a), b) == AddRecents(s, a + b)
  {
    PresentAppend(a, b);
    var r := s.recents;
    assert (r + Present(a)) + Present(b) == r + (Present(a) + Present(b));
  }

  /** Clearing a list and adding a list of strings leaves exactly that list,
      duplicates included, and the other list untouched. */
  lemma ClearThenAdd(s: Session, xs: seq<string>, recent: bool)
    ensures recent ==> AddRecents(ClearRecents(s), Refs(xs)) == Session(xs, s.open)
    ensures !recent ==> AddOpens(ClearOpen(s), Refs(xs)) == Session(s.recents, xs)
  {
    PresentOfRefs(xs);
  }

  /** An added path is at the end of its list; the earlier entries stay as
      they were, so a path added twice appears twice. */
  lemma AddKeepsDuplicates(s: Session, p: string)
    ensures AddRecent(AddRecent(s, Ref(p)), Ref(p)).recents == s.recents + [p, p]
    ensures AddOpen(AddOpen(s, Ref(p)), Ref(p)).open == s.open + [p, p]
  {
  }
}
