/**
 The document's `find(search, wholeWord, matchCase)`: every offset where the
 search string starts, found by repeated `indexOf` calls up to the last
 occurrence (so overlapping matches are all kept), optionally narrowed by the
 whole-word filter. The filter's right-hand test reads one character past a
 match and so fails on a match that ends the content.
 */
module TextFind {
  import opened JavaText

  /** The characters the whole-word filter accepts around a match. */
  predicate Neutral(c: char)
  {
    c == ' ' || c == '\t' || c == '\r' || c == '\n'
  }

  predicate Ascending(r: seq<int>)
  {
    forall j, k :: 0 <= j < k < |r| ==> r[j] < r[k]
  }

  /** `a` is `b` with some elements left out, in the same order. */
  predicate Subsequence(a: seq<int>, b: seq<int>)
    decreases |b|
  {
    a == [] || (b != [] && ((a[0] == b[0] && Subsequence(a[1..], b[1..])) || Subsequence(a, b[1..])))
  }

  /** The outcome of `find`: the result list, or the runtime error the
      whole-word filter raises when it reads past the content. */
  datatype FindOutcome = Found(results: seq<int>) | IndexOutOfBounds

  /** The scan loop: with `i` the last offset found (-1 before the first), each
      round asks `indexOf(search, i + 1)` and stops after reaching `last`. */
  function ScanFrom(content: string, search: string, i: int, last: int): (r: seq<int>)
    requires -1 <= i <= last && OccursAt(content, search, last)
    ensures forall k :: k in r <==> i < k <= last && OccursAt(content, search, k)
    ensures Ascending(r)
    decreases last - i
  {
    if i == last then []
    else
      var next := IndexOf(content, search, i + 1);
      [next] + ScanFrom(content, search, next, last)
  }

  /** The matches before the whole-word filter: scan from the start up to
      `lastIndexOf(search)`, or nothing when there is no occurrence. */
  function PlainMatches(content: string, search: string): (r: seq<int>)
    ensures forall k :: k in r <==> OccursAt(content, search, k)
    ensures Ascending(r)
  {
    var last := LastIndexOf(content, search);
    if last == -1 then [] else ScanFrom(content, search, -1, last)
  }

  /** The whole-word test for a match at `r` that does not end the content:
      at the start or after a neutral character, and either ending one short
      of the end (whatever follows) or followed by a neutral character. The
      range test up front only excludes offsets the filter never sees. */
  predicate WholeWordAt(content: string, search: string, r: int)
  {
    && 0 <= r && r + |search| < |content|
    && (r == 0 || Neutral(content[r - 1]))
    && (r + |search| == |content| - 1 || Neutral(content[r + |search|]))
  }

  /** Removing the rejected matches from the list. */
  function KeepWholeWords(content: string, search: string, rs: seq<int>): (r: seq<int>)
    ensures forall k :: k in r <==> k in rs && WholeWordAt(content, search, k)
    ensures Subsequence(r, rs)
    decreases |rs|
  {
    if rs == [] then []
    else
      assert forall k :: k in rs[1..] ==> k in rs;
      var rest := KeepWholeWords(content, search, rs[1..]);
      if WholeWordAt(content, search, rs[0]) then [rs[0]] + rest else rest
  }

  /** The whole-word filter over the plain matches: it fails as soon as one
      match ends exactly at the end of the content. */
  function WholeWordFilter(content: string, search: string, rs: seq<int>): (r: FindOutcome)
    requires forall k :: k in rs ==> OccursAt(content, search, k)
    ensures r == IndexOutOfBounds <==> exists k :: k in rs && k + |search| == |content|
    ensures r.Found? ==> Subsequence(r.results, rs)
    ensures r.Found? ==> forall k :: k in r.results <==> k in rs && WholeWordAt(content, search, k)
  {
    if exists k :: k in rs && k + |search| == |content| then IndexOutOfBounds
    else Found(KeepWholeWords(content, search, rs))
  }

  /** The content and search string the scan works on. */
  function Folded(s: string, matchCase: bool): (r: string)
    ensures |r| == |s|
  {
    if matchCase then s else ToLower(s)
  }

  /** `find(search, wholeWord, matchCase)` on the document text `content`. */
  function Find(content: string, search: string, wholeWord: bool, matchCase: bool): (r: FindOutcome)
    ensures content == [] ==> r == Found([])
    ensures var c, s := Folded(content, matchCase), Folded(search, matchCase);
            content != [] && !wholeWord ==>
              && r.Found? && Ascending(r.results)
              && forall k :: k in r.results <==> OccursAt(c, s, k)
    ensures var c, s := Folded(content, matchCase), Folded(search, matchCase);
            content != [] && wholeWord ==>
              && (r == IndexOutOfBounds <==> EndsWith(c, s))
              && (r.Found? ==> Subsequence(r.results, PlainMatches(c, s)))
              && (r.Found? ==> forall k :: k in r.results <==> OccursAt(c, s, k) && WholeWordAt(c, s, k))
  {
    if content == [] then Found([])
    else
      var c, s := Folded(content, matchCase), Folded(search, matchCase);
      var plain := PlainMatches(c, s);
      if !wholeWord then Found(plain)
      else
        assert EndsWith(c, s) <==> OccursAt(c, s, |c| - |s|);
        WholeWordFilter(c, s, plain)
  }

  /** A subsequence of an ascending list is ascending. */
  lemma {:induction false} SubsequenceAscending(a: seq<int>, b: seq<int>)
    requires Subsequence(a, b) && Ascending(b)
    ensures Ascending(a)
    ensures forall k :: k in a ==> k in b
    decreases |b|
  {
    if a != [] {
      if a[0] == b[0] && Subsequence(a[1..], b[1..]) {
        SubsequenceAscending(a[1..], b[1..]);
        forall j | 0 < j < |a| ensures a[0] < a[j] {
          assert a[j] == a[1..][j - 1];
          assert a[j] in b[1..];
          var m :| 0 <= m < |b[1..]| && b[1..][m] == a[j];
          assert b[m + 1] == a[j];
        }
        forall k | k in a ensures k in b {
          if k != a[0] {
            var j :| 0 <= j < |a| && a[j] == k;
            assert k == a[1..][j - 1];
            assert k in b[1..];
          }
        }
      } else {
        SubsequenceAscending(a, b[1..]);
        forall k | k in a ensures k in b {
          assert k in b[1..];
        }
        forall j, l | 0 <= j < l < |b[1..]| ensures b[1..][j] < b[1..][l] {
          assert b[1..][j] == b[j + 1] && b[1..][l] == b[l + 1];
        }
      }
    }
  }

  /** The whole-word results are in ascending order too. */
  lemma FindAscending(content: string, search: string, wholeWord: bool, matchCase: bool)
    ensures Find(content, search, wholeWord, matchCase).Found? ==>
              Ascending(Find(content, search, wholeWord, matchCase).results)
  {
    if content != [] && wholeWord && Find(content, search, wholeWord, matchCase).Found? {
      var c, s := Folded(content, matchCase), Folded(search, matchCase);
      SubsequenceAscending(Find(content, search, wholeWord, matchCase).results, PlainMatches(c, s));
    }
  }

  /** Every offset found is the start of a match that fits in the content. */
  lemma FindInBounds(content: string, search: string, wholeWord: bool, matchCase: bool)
    ensures var r := Find(content, search, wholeWord, matchCase);
            r.Found? ==> forall k :: k in r.results ==> 0 <= k && k + |search| <= |content|
  {
  }

  /** The head of an ascending list is its least element. */
  lemma HeadIsLeast(s: seq<int>, k: int)
    requires Ascending(s) && k in s
    ensures s[0] <= k
  {
  }

  /** An ascending list is fixed by the set of its elements. */
  lemma {:induction false} AscendingUnique(a: seq<int>, b: seq<int>)
    requires Ascending(a) && Ascending(b)
    requires forall k :: k in a <==> k in b
    ensures a == b
    decreases |a| + |b|
  {
    assert a != [] ==> a[0] in a;
    assert b != [] ==> b[0] in b;
    if a != [] && b != [] {
      HeadIsLeast(a, b[0]);
      HeadIsLeast(b, a[0]);
      assert a == [a[0]] + a[1..] && b == [b[0]] + b[1..];
      forall k ensures k in a[1..] <==> k in b[1..] {
        if k in a[1..] {
          var j :| 0 <= j < |a[1..]| && a[1..][j] == k;
          assert a[0] < a[j + 1];
          assert k in b && k != b[0];
        }
        if k in b[1..] {
          var j :| 0 <= j < |b[1..]| && b[1..][j] == k;
          assert b[0] < b[j + 1];
          assert k in a && k != a[0];
        }
      }
      AscendingUnique(a[1..], b[1..]);
    }
  }

  /** Overlapping occurrences are all reported. */
  lemma FindKeepsOverlaps()
    ensures Find("aaa", "aa", false, true) == Found([0, 1])
  {
    var r := Find("aaa", "aa", false, true).results;
    assert OccursAt("aaa", "aa", 0) && OccursAt("aaa", "aa", 1);
    assert forall k :: OccursAt("aaa", "aa", k) ==> k == 0 || k == 1;
    AscendingUnique(r, [0, 1]);
  }

  /** "ab" occurs in "ab ab" at offsets 0 and 3 only. */
  lemma OccurrencesOfAb()
    ensures forall k :: OccursAt("ab ab", "ab", k) <==> k == 0 || k == 3
  {
    var c, s := "ab ab", "ab";
    assert OccursAt(c, s, 0) && OccursAt(c, s, 3);
    forall k | OccursAt(c, s, k) ensures k == 0 || k == 3 {
      assert c[k..k + 2] == s;
      assert c[k] == 'a' && c[k + 1] == 'b';
    }
  }

  /** The plain matches of "ab" in "ab ab". */
  lemma TwoPlainMatches()
    ensures PlainMatches("ab ab", "ab") == [0, 3]
  {
    OccurrencesOfAb();
    AscendingUnique(PlainMatches("ab ab", "ab"), [0, 3]);
  }

  /** In "double string double int double char" a 'd' stands only at the
      starts of the three words "double". */
  lemma LetterDOfDoubles(k: int)
    requires 0 <= k < 36 && "double string double int double char"[k] == 'd'
    ensures k == 0 || k == 14 || k == 25
  {
  }

  /** "double" occurs in "double string double int double char" at offsets
      0, 14 and 25 only. */
  lemma OccurrencesOfDouble()
    ensures forall k :: OccursAt("double string double int double char", "double", k) <==> k == 0 || k == 14 || k == 25
  {
    var c, s := "double string double int double char", "double";
    OccursByChars(c, s, 0);
    OccursByChars(c, s, 14);
    OccursByChars(c, s, 25);
    forall k | OccursAt(c, s, k) ensures k == 0 || k == 14 || k == 25 {
      DoubleStartsWithD(k);
    }
  }

  /** An occurrence of "double" in the example text starts at a 'd'. */
  lemma DoubleStartsWithD(k: int)
    requires OccursAt("double string double int double char", "double", k)
    ensures k == 0 || k == 14 || k == 25
  {
    var c := "double string double int double char";
    assert c[k] == c[k..k + 6][0] == 'd';
    LetterDOfDoubles(k);
  }

  /** The example text has no upper-case letter, so folding keeps it. */
  lemma DoublesFolded(matchCase: bool)
    ensures Folded("double string double int double char", matchCase) == "double string double int double char"
    ensures Folded("double", matchCase) == "double"
  {
    if !matchCase {
      ToLowerKeepsLower("double string double int double char");
      ToLowerKeepsLower("double");
    }
  }

  /** No match ends the example text, and each has a blank or the start of
      the text on its left and a blank on its right. */
  lemma DoublesAreWholeWords()
    ensures var c, s := "double string double int double char", "double";
            !EndsWith(c, s) && WholeWordAt(c, s, 0) && WholeWordAt(c, s, 14) && WholeWordAt(c, s, 25)
  {
    var c := "double string double int double char";
    assert c[30..][0] == 'e';
    assert c[6] == ' ' && c[13] == ' ' && c[20] == ' ' && c[24] == ' ' && c[31] == ' ';
  }

  /** `find` on a text that folding keeps, given all its occurrences in
      order and, for the whole-word filter, that each is a whole word and
      none ends the text. */
  lemma FindGives(content: string, search: string, wholeWord: bool, matchCase: bool, l: seq<int>)
    requires content != [] && Folded(content, matchCase) == content && Folded(search, matchCase) == search
    requires Ascending(l) && forall k :: OccursAt(content, search, k) <==> k in l
    requires wholeWord ==> !EndsWith(content, search) && forall k :: k in l ==> WholeWordAt(content, search, k)
    ensures Find(content, search, wholeWord, matchCase) == Found(l)
  {
    AscendingUnique(PlainMatches(content, search), l);
    if wholeWord {
      var r := Find(content, search, wholeWord, matchCase).results;
      SubsequenceAscending(r, PlainMatches(content, search));
      AscendingUnique(r, l);
    }
  }

  /** The example of the document's own description of `find`: "double" is
      found at [0, 14, 25], with or without match-case and with or without
      the whole-word filter. */
  lemma FindDoubleExample(wholeWord: bool, matchCase: bool)
    ensures Find("double string double int double char", "double", wholeWord, matchCase) == Found([0, 14, 25])
  {
    DoublesFolded(matchCase);
    OccurrencesOfDouble();
    DoublesAreWholeWords();
    FindGives("double string double int double char", "double", wholeWord, matchCase, [0, 14, 25]);
  }

  /** Without match-case, "AB" finds both spellings. */
  lemma FindIgnoresCase()
    ensures Find("Ab ab", "AB", false, false) == Found([0, 3])
  {
    assert Folded("Ab ab", false) == "ab ab";
    assert Folded("AB", false) == "ab";
    TwoPlainMatches();
  }

  /** A whole-word search whose match ends the content fails. */
  lemma WholeWordAtEndFails()
    ensures Find("a b", "b", true, true) == IndexOutOfBounds
  {
    assert EndsWith("a b", "b");
  }

  /** The off-by-one right-hand test: a match followed by exactly one more
      character is accepted whatever that character is. */
  lemma WholeWordAcceptsSecondToLast()
    ensures Find("ab!", "ab", true, true) == Found([0])
  {
    var r := Find("ab!", "ab", true, true).results;
    assert !EndsWith("ab!", "ab");
    assert OccursAt("ab!", "ab", 0) && WholeWordAt("ab!", "ab", 0);
    assert forall k :: OccursAt("ab!", "ab", k) ==> k == 0;
    AscendingUnique(r, [0]);
  }
}
