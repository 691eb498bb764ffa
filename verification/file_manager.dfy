/**
 The two string transforms of the file manager. Reading splits the input into
 lines the way `BufferedReader.readLine` does (a line ends at '\n', at '\r' or
 at "\r\n"; a last line without a terminator counts only if it is not empty)
 and joins them with '\n'. Writing replaces every '\n' with the preferred line
 separator. Streams and files themselves are left out.
 */
module FileManager {
  import opened JavaText

  predicate IsTerminator(c: char) { c == '\n' || c == '\r' }

  /** The first line terminator at or after `from`, or -1. */
  function NextTerminator(s: string, from: nat): (i: int)
    requires from <= |s|
    ensures i == -1 || (from <= i < |s| && IsTerminator(s[i]))
    ensures forall k :: from <= k < |s| && (i == -1 || k < i) ==> !IsTerminator(s[k])
    decreases |s| - from
  {
    if from == |s| then -1
    else if IsTerminator(s[from]) then from
    else NextTerminator(s, from + 1)
  }

  /** The lines `readLine` returns, in order, terminators removed. */
  function ReadLines(s: string): (lines: seq<string>)
    ensures forall k :: 0 <= k < |lines| ==> forall j :: 0 <= j < |lines[k]| ==> !IsTerminator(lines[k][j])
    decreases |s|
  {
    if s == [] then []
    else
      var i := NextTerminator(s, 0);
      if i == -1 then [s]
      else
        var next := if s[i] == '\r' && i + 1 < |s| && s[i + 1] == '\n' then i + 2 else i + 1;
        [s[..i]] + ReadLines(s[next..])
  }

  /** The builder after the loop: each line followed by '\n'. */
  function Build(lines: seq<string>): (r: string)
    ensures lines != [] ==> r != [] && r[|r| - 1] == '\n'
  {
    if lines == [] then [] else lines[0] + "\n" + Build(lines[1..])
  }

  /** `read(reader)`: the built text without its final '\n'. */
  function Read(input: string): (r: string)
    ensures input == [] ==> r == []
  {
    var built := Build(ReadLines(input));
    if |built| != 0 then built[..|built| - 1] else built
  }

  /** Lines joined with a separator, none after the last. */
  function Join(lines: seq<string>, sep: string): string
  {
    if lines == [] then []
    else if |lines| == 1 then lines[0]
    else lines[0] + sep + Join(lines[1..], sep)
  }

  /** `write(content, writer)` with the preferred separator `sep`: verbatim
      for "\n", every '\n' replaced otherwise. */
  function Write(content: string, sep: string): (r: string)
    ensures sep == "\n" ==> r == content
    ensures '\n' !in sep && sep != [] ==> '\n' !in r
  {
    if sep == "\n" then content else ReplaceChar(content, '\n', sep)
  }

  // ---------------------------------------------------------------------------
  // Properties

  lemma {:induction false} BuildIsJoin(lines: seq<string>)
    requires lines != []
    ensures Build(lines) == Join(lines, "\n") + "\n"
  {
    if |lines| > 1 {
      BuildIsJoin(lines[1..]);
    }
  }

  /** Reading gives the lines joined by '\n', with nothing after the last. */
  lemma ReadIsJoin(input: string)
    ensures Read(input) == Join(ReadLines(input), "\n")
  {
    var lines := ReadLines(input);
    if lines != [] {
      BuildIsJoin(lines);
      var built := Build(lines);
      assert built[..|built| - 1] == Join(lines, "\n");
    }
  }

  /** The "\n" shortcut in `write` changes nothing: every separator amounts to
      replacing each '\n' with it. */
  lemma WriteReplacesEveryLineFeed(content: string, sep: string)
    ensures Write(content, sep) == ReplaceChar(content, '\n', sep)
  {
    if sep == "\n" {
      ReplaceCharByItself(content, '\n');
    }
  }

  /** The three separators the preferences offer. */
  predicate Separator(sep: string)
  {
    sep == "\n" || sep == "\r" || sep == "\r\n"
  }

  /** A line without terminators followed by a separator reads as that line;
      reading continues after the separator. */
  lemma ReadLinesCons(a: string, sep: string, b: string)
    requires Separator(sep)
    requires forall j :: 0 <= j < |a| ==> !IsTerminator(a[j])
    requires sep == "\r" ==> b == [] || b[0] != '\n'
    ensures ReadLines(a + sep + b) == [a] + ReadLines(b)
  {
    var s := a + sep + b;
    assert NextTerminator(s, 0) == |a| by {
      assert IsTerminator(s[|a|]);
      assert forall k :: 0 <= k < |a| ==> s[k] == a[k];
    }
    assert s[..|a|] == a;
    assert s[|a| + |sep|..] == b;
  }

  /** Building lines one at a time. */
  lemma BuildCons(a: string, lines: seq<string>)
    ensures Build([a] + lines) == a + "\n" + Build(lines)
  {
    assert ([a] + lines)[1..] == lines;
  }

  /** Writing a text splits at its first '\n'. */
  lemma WriteAtFirstLineFeed(c: string, i: int, sep: string)
    requires 0 <= i < |c| && c[i] == '\n' && '\n' !in c[..i]
    ensures ReplaceChar(c, '\n', sep) == c[..i] + sep + ReplaceChar(c[i + 1..], '\n', sep)
  {
    var a, rest := c[..i], c[i + 1..];
    assert c == a + ("\n" + rest);
    ReplaceCharAppend(a, "\n" + rest, '\n', sep);
    ReplaceCharAppend("\n", rest, '\n', sep);
    ReplaceCharNoTarget(a, '\n', sep);
    assert ReplaceChar("\n", '\n', sep) == sep;
  }

  /** A text free of terminators is read as one line. */
  lemma ReadLinesSingle(c: string)
    requires c != [] && forall j :: 0 <= j < |c| ==> !IsTerminator(c[j])
    ensures ReadLines(c) == [c]
  {
    assert NextTerminator(c, 0) == -1;
  }

  /** One step of the round trip: the first line, then the rest as the
      induction hypothesis has it. */
  lemma BuildAfterWriteStep(c: string, sep: string, i: int)
    requires Separator(sep) && 0 <= i < |c| - 1 && c[i] == '\n' && '\n' !in c[..i] && '\r' !in c
    requires Build(ReadLines(ReplaceChar(c[i + 1..], '\n', sep))) == c[i + 1..] + "\n"
    ensures Build(ReadLines(ReplaceChar(c, '\n', sep))) == c + "\n"
  {
    var a, rest := c[..i], c[i + 1..];
    WriteAtFirstLineFeed(c, i, sep);
    var w := ReplaceChar(rest, '\n', sep);
    assert sep == "\r" ==> w == [] || w[0] != '\n' by {
      if sep == "\r" && w != [] {
        assert '\n' !in w;
      }
    }
    assert forall j :: 0 <= j < |a| ==> !IsTerminator(a[j]) by {
      forall j | 0 <= j < |a| ensures !IsTerminator(a[j]) {
        assert a[j] in a && c[j] in c;
      }
    }
    ReadLinesCons(a, sep, w);
    BuildCons(a, ReadLines(w));
    SplitAt(c, i);
  }

  lemma SplitAt(c: string, i: int)
    requires 0 <= i < |c|
    ensures c == c[..i] + [c[i]] + c[i + 1..]
  {
  }

  /** What remains after the first '\n' still has no '\r' and keeps the last
      character. */
  lemma AfterFirstLineFeed(c: string, i: int)
    requires 0 <= i < |c| && c[i] == '\n' && '\r' !in c && c[|c| - 1] != '\n'
    ensures i < |c| - 1 && '\r' !in c[i + 1..] && c[i + 1..][|c| - i - 2] == c[|c| - 1]
  {
    var rest := c[i + 1..];
    forall x | x in rest ensures x != '\r' {
      assert x in c;
    }
  }

  /** A text without '\r' that does not end in '\n', written with any of the
      three separators, is built back as itself plus one '\n'. */
  lemma {:induction false} BuildAfterWrite(c: string, sep: string)
    requires Separator(sep) && c != []
    requires '\r' !in c && c[|c| - 1] != '\n'
    ensures Build(ReadLines(ReplaceChar(c, '\n', sep))) == c + "\n"
    decreases |c|
  {
    var i := IndexOfChar(c, '\n', 0);
    if i == -1 {
      ReplaceCharNoTarget(c, '\n', sep);
      ReadLinesSingle(c);
      BuildCons(c, []);
    } else {
      AfterFirstLineFeed(c, i);
      BuildAfterWrite(c[i + 1..], sep);
      assert '\n' !in c[..i];
      BuildAfterWriteStep(c, sep, i);
    }
  }

  /** The round trip: writing with any of the three separators and reading
      back restores a text that has no '\r' and does not end in '\n'. */
  lemma WriteThenRead(c: string, sep: string)
    requires Separator(sep)
    requires '\r' !in c && (c == [] || c[|c| - 1] != '\n')
    ensures Read(Write(c, sep)) == c
  {
    WriteReplacesEveryLineFeed(c, sep);
    if c == [] {
      assert ReplaceChar(c, '\n', sep) == [];
    } else {
      BuildAfterWrite(c, sep);
      var built := c + "\n";
      assert built[..|built| - 1] == c;
    }
  }

  /** The first step of reading a text that has a terminator before its
      last character: the same whether or not a terminator follows. */
  lemma ReadLinesStep(c: string, t: string, i: int) returns (next: int)
    requires Separator(t) && i == NextTerminator(c, 0) && 0 <= i && !IsTerminator(c[|c| - 1])
    ensures i < next < |c|
    ensures ReadLines(c) == [c[..i]] + ReadLines(c[next..])
    ensures ReadLines(c + t) == [c[..i]] + ReadLines(c[next..] + t)
  {
    var s := c + t;
    assert NextTerminator(s, 0) == i by {
      assert s[i] == c[i];
      assert forall k :: 0 <= k < i ==> s[k] == c[k];
    }
    assert s[i + 1] == c[i + 1];
    next := if c[i] == '\r' && i + 1 < |c| && c[i + 1] == '\n' then i + 2 else i + 1;
    assert s[..i] == c[..i];
    assert s[next..] == c[next..] + t;
  }

  /** A text free of terminators followed by one terminator reads as the
      text alone. */
  lemma ReadLinesLastTerminator(c: string, t: string)
    requires Separator(t) && c != [] && NextTerminator(c, 0) == -1
    ensures ReadLines(c + t) == [c]
  {
    var s := c + t;
    assert NextTerminator(s, 0) == |c| by {
      assert IsTerminator(s[|c|]);
      assert forall k :: 0 <= k < |c| ==> s[k] == c[k];
    }
    assert s[..|c|] == c;
    assert s[|c| + |t|..] == [];
  }

  /** One line terminator at the end of the input is dropped: reading
      "text" and "text" plus a terminator gives the same lines. */
  lemma {:induction false} ReadLinesIgnoreFinalTerminator(c: string, t: string)
    requires Separator(t) && c != [] && !IsTerminator(c[|c| - 1])
    ensures ReadLines(c + t) == ReadLines(c)
    decreases |c|
  {
    var i := NextTerminator(c, 0);
    if i == -1 {
      ReadLinesLastTerminator(c, t);
    } else {
      var next := ReadLinesStep(c, t, i);
      ReadLinesIgnoreFinalTerminator(c[next..], t);
    }
  }

  lemma ReadIgnoresFinalTerminator(c: string, t: string)
    requires Separator(t) && c != [] && !IsTerminator(c[|c| - 1])
    ensures Read(c + t) == Read(c)
  {
    ReadLinesIgnoreFinalTerminator(c, t);
  }
}
