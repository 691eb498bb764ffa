/**
 The save dialog's extension rule: under an extension filter, a chosen file
 name that does not already end (ignoring case) in one of the filter's
 extensions gets the filter's first extension appended. Under the accept-all
 filter the name is kept. The dialog itself and the existence check on
 opening are left out.
 */
module FileChooser {
  import opened JavaText

  /** A file filter: the accept-all filter or an extension filter, which the
      toolkit only builds with at least one extension. */
  datatype Filter = AcceptAll | Extensions(description: string, exts: seq<string>)

  predicate ValidFilter(f: Filter)
  {
    f.Extensions? ==> f.exts != []
  }

  /** The fourteen filters the dialog offers besides accept-all, in order. */
  function Filters(): (fs: seq<Filter>)
    ensures |fs| == 14
  {
    [ Extensions("C/C++ source files", ["c", "cpp", "h"]),
      Extensions("CSS files", ["css"]),
      Extensions("HTML files", ["html", "htm", "xhtml"]),
      Extensions("Java files", ["java"]),
      Extensions("JSON files", ["json"]),
      Extensions("PHP files", ["php"]),
      Extensions("Perl files", ["pl"]),
      Extensions("Properties files", ["properties", "plist"]),
      Extensions("Python files", ["py"]),
      Extensions("Ruby files", ["rb"]),
      Extensions("SQL files", ["sql"]),
      Extensions("Text files", ["txt"]),
      Extensions("XML files", ["xml"]),
      Extensions("YAML files", ["yml", "yaml"]) ]
  }

  /** The test in `save`: the name holds a '.', does not end in one, and in
      lower case ends with '.' and one of the extensions. */
  predicate HasExtension(name: string, exts: seq<string>)
  {
    && '.' in name
    && name[|name| - 1] != '.'
    && exists k :: 0 <= k < |exts| && EndsWith(ToLower(name), "." + exts[k])
  }

  /** The name of the file `save` leaves selected. */
  function SavedName(name: string, f: Filter): (r: string)
    requires ValidFilter(f)
    ensures f == AcceptAll ==> r == name
    ensures f.Extensions? && HasExtension(name, f.exts) ==> r == name
    ensures f.Extensions? && !HasExtension(name, f.exts) ==> r == name + "." + f.exts[0]
  {
    match f
    case AcceptAll => name
    case Extensions(_, exts) =>
      if HasExtension(name, exts) then name else name + "." + exts[0]
  }

  /** An extension the rule can recognise again once it has appended it: not
      empty, in lower case, and not ending in '.'. */
  predicate PlainExtension(e: string)
  {
    e != [] && ToLower(e) == e && e[|e| - 1] != '.'
  }

  /** Every offered filter is valid and its first extension is plain. */
  lemma FiltersArePlain()
    ensures forall k :: 0 <= k < |Filters()| ==>
              ValidFilter(Filters()[k]) && Filters()[k].Extensions? && PlainExtension(Filters()[k].exts[0])
  {
    var fs := Filters();
    forall k | 0 <= k < |fs|
      ensures ValidFilter(fs[k]) && fs[k].Extensions? && PlainExtension(fs[k].exts[0])
    {
      var e := fs[k].exts[0];
      assert e[|e| - 1] != '.';
      assert forall j :: 0 <= j < |e| ==> 'a' <= e[j] <= 'z';
      assert ToLower(e) == e;
    }
  }

  /** The appended extension is recognised: a name that got an extension
      appended has one. */
  lemma AppendedExtensionRecognised(name: string, e: string, exts: seq<string>)
    requires PlainExtension(e) && |exts| > 0 && exts[0] == e
    ensures HasExtension(name + "." + e, exts)
  {
    var n := name + "." + e;
    assert n[|name|] == '.';
    assert n[|n| - 1] == e[|e| - 1];
    ToLowerAppend(name, "." + e);
    assert ToLower("." + e) == "." + ToLower(e);
    assert ToLower(n) == ToLower(name) + ("." + e) by {
      assert n == name + ("." + e);
    }
    assert EndsWith(ToLower(n), "." + exts[0]);
  }

  /** The rule is idempotent when the filter's first extension is plain, as
      it is for every offered filter. */
  lemma SavedNameIdempotent(name: string, f: Filter)
    requires ValidFilter(f)
    requires f.Extensions? ==> PlainExtension(f.exts[0])
    ensures SavedName(SavedName(name, f), f) == SavedName(name, f)
  {
    if f.Extensions? && !HasExtension(name, f.exts) {
      AppendedExtensionRecognised(name, f.exts[0], f.exts);
    }
  }

  /** The extension test ignores case: "Main.JAVA" is kept under the Java
      filter. */
  lemma UpperCaseExtensionKept()
    ensures SavedName("Main.JAVA", Filters()[3]) == "Main.JAVA"
  {
    assert ToLower("Main.JAVA") == "main.java";
    assert EndsWith("main.java", ".java");
  }

  /** A name ending in '.' gets a second one: "notes." becomes "notes..txt". */
  lemma TrailingDotGetsExtension()
    ensures SavedName("notes.", Filters()[11]) == "notes..txt"
  {
  }

  /** Another filter's extension is not enough: "a.txt" under the Java filter
      becomes "a.txt.java". */
  lemma OtherExtensionNotRecognised()
    ensures SavedName("a.txt", Filters()[3]) == "a.txt.java"
  {
    assert Filters()[3].exts == ["java"];
    assert !HasExtension("a.txt", ["java"]) by {
      var low := ToLower("a.txt");
      assert |low| == 5 && low[0] == 'a';
      assert !EndsWith(low, ".java");
    }
  }
}
