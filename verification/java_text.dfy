/**
 The few `java.lang.String` operations the editor relies on, with Java's exact
 conventions for out-of-range start indexes, and Java's nullable references.
 Case folding is the single-character ASCII folding (see README).
 */
module JavaText {

  /** A Java reference that may be `null`. */
  datatype Nullable<+T> = Null | Ref(value: T)

  function Max(a: int, b: int): int { if a < b then b else a }

  function Min(a: int, b: int): int { if a < b then a else b }

  /** `t` occurs in `s` starting at offset `k`. */
  predicate OccursAt(s: string, t: string, k: int)
  {
    0 <= k && k + |t| <= |s| && s[k..k + |t|] == t
  }

  /** An occurrence follows from its characters. */
  lemma OccursByChars(s: string, t: string, k: int)
    requires 0 <= k && k + |t| <= |s|
    requires forall j :: 0 <= j < |t| ==> s[k + j] == t[j]
    ensures OccursAt(s, t, k)
  {
    var w := s[k..k + |t|];
    assert forall j :: 0 <= j < |t| ==> w[j] == t[j];
  }

  /** `s.indexOf(c, from)`: the first offset at or after `from` holding `c`;
      a negative `from` searches from 0; -1 when there is none. */
  function IndexOfChar(s: string, c: char, from: int): (r: int)
    ensures -1 <= r < |s|
    ensures r >= 0 ==> Max(from, 0) <= r && s[r] == c
    ensures r >= 0 ==> forall k :: Max(from, 0) <= k < r ==> s[k] != c
    ensures r == -1 ==> forall k :: Max(from, 0) <= k < |s| ==> s[k] != c
    decreases |s| - from
  {
    if from < 0 then IndexOfChar(s, c, 0)
    else if from >= |s| then -1
    else if s[from] == c then from
    else IndexOfChar(s, c, from + 1)
  }

  /** `s.lastIndexOf(c, from)`: the last offset at or before `from` holding `c`;
      a `from` past the end searches from the last character; -1 when there is none
      (in particular whenever `from` is negative). */
  function LastIndexOfChar(s: string, c: char, from: int): (r: int)
    ensures -1 <= r < |s| && (r >= 0 ==> r <= from)
    ensures r >= 0 ==> s[r] == c && forall k :: r < k <= from && k < |s| ==> s[k] != c
    ensures r == -1 ==> forall k :: 0 <= k <= from && k < |s| ==> s[k] != c
    decreases Max(from + 1, 0)
  {
    if from >= |s| then LastIndexOfChar(s, c, |s| - 1)
    else if from < 0 then -1
    else if s[from] == c then from
    else LastIndexOfChar(s, c, from - 1)
  }

  /** `s.indexOf(t, from)`: the first occurrence of `t` at or after `from`
      (a negative `from` counts as 0); an empty `t` is found at `from`, or at
      the end when `from` is past it; -1 when there is none. */
  function IndexOf(s: string, t: string, from: int): (r: int)
    ensures r == -1 || OccursAt(s, t, r)
    ensures from <= |s| && r != -1 ==> from <= r
    ensures r != -1 ==> forall k :: Max(from, 0) <= k < r ==> !OccursAt(s, t, k)
    ensures r == -1 ==> forall k :: Max(from, 0) <= k ==> !OccursAt(s, t, k)
    decreases |s| - from
  {
    if from >= |s| then (if |t| == 0 then |s| else -1)
    else if from < 0 then IndexOf(s, t, 0)
    else if OccursAt(s, t, from) then from
    else IndexOf(s, t, from + 1)
  }

  /** The last occurrence of `t` starting at or before `k`, or -1. */
  function LastOccurrenceUpTo(s: string, t: string, k: int): (r: int)
    ensures r == -1 || (OccursAt(s, t, r) && r <= k)
    ensures forall j :: r < j <= k ==> !OccursAt(s, t, j)
    decreases Max(k + 1, 0)
  {
    if k < 0 then -1
    else if OccursAt(s, t, k) then k
    else LastOccurrenceUpTo(s, t, k - 1)
  }

  /** `s.lastIndexOf(t)`: the last occurrence of `t` in `s`, or -1. */
  function LastIndexOf(s: string, t: string): (r: int)
    ensures r == -1 || OccursAt(s, t, r)
    ensures forall k :: r < k ==> !OccursAt(s, t, k)
  {
    LastOccurrenceUpTo(s, t, |s| - |t|)
  }

  predicate StartsWith(s: string, t: string) { t <= s }

  predicate EndsWith(s: string, t: string)
  {
    |t| <= |s| && s[|s| - |t|..] == t
  }

  /** `s.replace(c, rep)` for a one-character target: every `c`, left to right,
      becomes `rep`. */
  function ReplaceChar(s: string, c: char, rep: string): (r: string)
    ensures c !in rep ==> c !in r
    ensures |rep| == 1 ==> |r| == |s|
    ensures forall x :: x in r ==> x in s || x in rep
  {
    if s == [] then []
    else (if s[0] == c then rep else [s[0]]) + ReplaceChar(s[1..], c, rep)
  }

  lemma {:induction false} ReplaceCharNoTarget(s: string, c: char, rep: string)
    requires c !in s
    ensures ReplaceChar(s, c, rep) == s
  {
    if s != [] {
      ReplaceCharNoTarget(s[1..], c, rep);
    }
  }

  lemma {:induction false} ReplaceCharAppend(a: string, b: string, c: char, rep: string)
    ensures ReplaceChar(a + b, c, rep) == ReplaceChar(a, c, rep) + ReplaceChar(b, c, rep)
  {
    if a == [] {
      assert a + b == b;
    } else {
      assert (a + b)[0] == a[0];
      assert (a + b)[1..] == a[1..] + b;
      ReplaceCharAppend(a[1..], b, c, rep);
    }
  }

  /** Replacing a character by itself changes nothing. */
  lemma {:induction false} ReplaceCharByItself(s: string, c: char)
    ensures ReplaceChar(s, c, [c]) == s
  {
    if s != [] {
      ReplaceCharByItself(s[1..], c);
      assert s == [s[0]] + s[1..];
    }
  }

  function ToLowerChar(c: char): (r: char)
    ensures 'A' <= c <= 'Z' ==> r as int == c as int + 32
    ensures !('A' <= c <= 'Z') ==> r == c
  {
    if 'A' <= c <= 'Z' then (c as int + 32) as char else c
  }

  function ToUpperChar(c: char): (r: char)
    ensures 'a' <= c <= 'z' ==> r as int == c as int - 32
    ensures !('a' <= c <= 'z') ==> r == c
  {
    if 'a' <= c <= 'z' then (c as int - 32) as char else c
  }

  /** `s.toLowerCase()` under single-character folding. */
  function ToLower(s: string): (r: string)
    ensures |r| == |s|
    ensures forall k :: 0 <= k < |s| ==> r[k] == ToLowerChar(s[k])
  {
    seq(|s|, k requires 0 <= k < |s| => ToLowerChar(s[k]))
  }

  /** `s.toUpperCase()` under single-character folding. */
  function ToUpper(s: string): (r: string)
    ensures |r| == |s|
    ensures forall k :: 0 <= k < |s| ==> r[k] == ToUpperChar(s[k])
  {
    seq(|s|, k requires 0 <= k < |s| => ToUpperChar(s[k]))
  }

  /** A string without upper-case letters is its own lower-case form. */
  lemma ToLowerKeepsLower(s: string)
    requires forall k :: 0 <= k < |s| ==> !('A' <= s[k] <= 'Z')
    ensures ToLower(s) == s
  {
  }

  /** Folding is idempotent in both directions. */
  lemma ToLowerIdempotent(s: string)
    ensures ToLower(ToLower(s)) == ToLower(s)
  {
  }

  lemma ToUpperIdempotent(s: string)
    ensures ToUpper(ToUpper(s)) == ToUpper(s)
  {
  }

  /** Folding works character by character, so it distributes over
      concatenation. */
  lemma ToLowerAppend(a: string, b: string)
    ensures ToLower(a + b) == ToLower(a) + ToLower(b)
  {
  }
}
