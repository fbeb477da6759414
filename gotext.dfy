/** The Go string and path helpers that the file handlers depend on: strings.TrimRight,
    path.Ext, strings.Index and strings.Replace with a count of one, written over
    Dafny strings, and the two uses file.go makes of them: the index-name test and
    the rewrite of a file URL into its properties URL. */
module GoText {

  /** strings.TrimRight(s, cutset): s without its longest suffix made only of
      characters that belong to cutset (a character SET, not a suffix). */
  function TrimRight(s: string, cutset: string): (r: string)
    ensures |r| <= |s| && r == s[..|r|]
    ensures forall i :: |r| <= i < |s| ==> s[i] in cutset
    ensures r == "" || r[|r| - 1] !in cutset
  {
    if s != "" && s[|s| - 1] in cutset then TrimRight(s[..|s| - 1], cutset) else s
  }

  /** path.Ext(s): the suffix of s that starts at the last '.' of its final
      slash-separated element, or "" when that element has no '.'. */
  function Ext(s: string): (r: string)
    ensures |r| <= |s| && r == s[|s| - |r|..]
    ensures r != "" ==> r[0] == '.' && forall i :: 1 <= i < |r| ==> r[i] != '.' && r[i] != '/'
    ensures r == "" ==> forall i :: 0 <= i < |s| && s[i] == '.' ==> '/' in s[i + 1..]
  {
    if s == "" || s[|s| - 1] == '/' then ""
    else if s[|s| - 1] == '.' then "."
    else
      var e := Ext(s[..|s| - 1]);
      if e == "" then
        assert forall i :: 0 <= i < |s| - 1 && s[i] == '.' ==> '/' in s[..|s| - 1][i + 1..];
        ""
      else e + [s[|s| - 1]]
  }

  /** The index test of serveResource: the name, with the characters of its
      extension trimmed from its right end, is exactly "index". */
  predicate IsIndexName(name: string): (b: bool)
    ensures b ==> |name| >= 5 && name[..5] == "index"
  {
    TrimRight(name, Ext(name)) == "index"
  }

  /** TrimRight stops exactly at the last character that is not in the cutset. */
  lemma TrimRightAt(s: string, cutset: string, j: nat)
    requires j <= |s|
    requires forall i :: j <= i < |s| ==> s[i] in cutset
    requires j == 0 || s[j - 1] !in cutset
    ensures TrimRight(s, cutset) == s[..j]
  {
    var r := TrimRight(s, cutset);
    assert r == "" || s[|r| - 1] == r[|r| - 1];
  }

  /** The test only accepts "index", or "index" followed by characters of its extension. */
  lemma IndexNameOnlyIf(name: string)
    ensures IsIndexName(name) ==>
      name == "index" ||
      (|name| > 5 && name[..5] == "index" && 'x' !in Ext(name) &&
       forall i :: 5 <= i < |name| ==> name[i] in Ext(name))
  {
    var r := TrimRight(name, Ext(name));
    assert r == "index" ==> r[4] == 'x';
  }

  /** "index" followed by characters of its extension passes, when 'x' is not one
      of them. */
  lemma IndexNameIfExtended(name: string, e: string)
    requires e == Ext(name) && |name| > 5 && name[..5] == "index" && 'x' !in e
    requires forall i :: 5 <= i < |name| ==> name[i] in e
    ensures IsIndexName(name)
  {
    assert name[4] == name[..5][4];
    TrimRightAt(name, e, 5);
  }

  /** A name with no '.' has no extension. */
  lemma ExtWithoutDot(s: string)
    requires forall i :: 0 <= i < |s| ==> s[i] != '.'
    ensures Ext(s) == ""
  {
  }

  /** A name without a '.' passes exactly when it is "index". */
  lemma IndexNameWithoutDot(name: string)
    requires forall i :: 0 <= i < |name| ==> name[i] != '.'
    ensures IsIndexName(name) <==> name == "index"
  {
    ExtWithoutDot(name);
    TrimRightAt(name, "", |name|);
  }

  /** Every such name passes the test. */
  lemma IndexNameIf(name: string)
    ensures name == "index" ==> IsIndexName(name)
    ensures (|name| > 5 && name[..5] == "index" && 'x' !in Ext(name) &&
             forall i :: 5 <= i < |name| ==> name[i] in Ext(name)) ==> IsIndexName(name)
  {
    if name == "index" {
      assert forall i :: 0 <= i < |name| ==> name[i] != '.';
      IndexNameWithoutDot(name);
    }
    var e := Ext(name);
    if |name| > 5 && name[..5] == "index" && 'x' !in e && forall i :: 5 <= i < |name| ==> name[i] in e {
      IndexNameIfExtended(name, e);
    }
  }

  /** What the test accepts, stated without TrimRight: "index" itself, or "index"
      followed by characters that all occur in the extension, provided 'x' does not
      (otherwise the trimming would eat into "index"). */
  lemma IndexNameExactly(name: string)
    ensures IsIndexName(name) <==>
      name == "index" ||
      (|name| > 5 && name[..5] == "index" && 'x' !in Ext(name) &&
       forall i :: 5 <= i < |name| ==> name[i] in Ext(name))
  {
    IndexNameOnlyIf(name);
    IndexNameIf(name);
  }

  /** The extension of "stem.ext" is ".ext" when ext holds neither '.' nor '/'. */
  lemma {:induction false} ExtOfDotted(stem: string, ext: string)
    requires forall i :: 0 <= i < |ext| ==> ext[i] != '.' && ext[i] != '/'
    ensures Ext(stem + "." + ext) == "." + ext
  {
    var s := stem + "." + ext;
    if ext == "" {
      assert s[|s| - 1] == '.';
    } else {
      var init := ext[..|ext| - 1];
      var last := ext[|ext| - 1];
      ExtOfDotted(stem, init);
      assert s == (stem + "." + init) + [last];
      assert s[..|s| - 1] == stem + "." + init;
      assert s[|s| - 1] == last && last != '.' && last != '/';
      assert "." + ext == ("." + init) + [last];
    }
  }

  /** A file named "index." followed by an extension is taken for an index exactly
      when the extension has no 'x' in it: "index.md" and "index.html" are index
      files, "index.txt" and "index.xml" are not. */
  lemma {:induction false} IndexWithExtension(ext: string)
    requires forall i :: 0 <= i < |ext| ==> ext[i] != '.' && ext[i] != '/'
    ensures IsIndexName("index." + ext) <==> 'x' !in ext
  {
    var name := "index." + ext;
    var e := "." + ext;
    ExtOfDotted("index", ext);
    assert "index" + "." + ext == name;
    assert 'x' in e <==> 'x' in ext;
    if 'x' !in ext {
      assert name[..5] == "index";
      assert forall i :: 5 <= i < |name| ==> name[i] == e[i - 5];
      IndexNameIfExtended(name, e);
    } else {
      IndexNameOnlyIf(name);
    }
  }

  /** The test only looks at names that begin with "index". */
  lemma IndexNameNeedsPrefix(name: string)
    requires |name| < 5 || name[..5] != "index"
    ensures !IsIndexName(name)
  {
    IndexNameOnlyIf(name);
  }

  /** A name without an extension is an index file only when it is "index". */
  lemma BareIndexName()
    ensures IsIndexName("index")
  {
    IndexNameIf("index");
  }

  /** "index.md" is served as the index of its directory. */
  lemma MarkdownIndexName()
    ensures IsIndexName("index.md")
  {
    IndexWithExtension("md");
    assert "index." + "md" == "index.md";
  }

  /** "index.txt" is not: trimming the set {'.', 't', 'x'} leaves "inde". */
  lemma TextIndexNameRejected()
    ensures !IsIndexName("index.txt")
  {
    IndexWithExtension("txt");
    assert "index." + "txt" == "index.txt";
  }

  /** A name that does not start with "index" never passes. */
  lemma OtherNameRejected()
    ensures !IsIndexName("notes.md")
  {
    assert "notes.md"[..5][0] == 'n';
    IndexNameNeedsPrefix("notes.md");
  }

  /** sub occurs in s at position i. */
  predicate OccursAt(s: string, sub: string, i: int)
  {
    0 <= i && i + |sub| <= |s| && s[i..i + |sub|] == sub
  }

  /** strings.Index(s, sub): the least position at which sub occurs in s, or -1. */
  function Index(s: string, sub: string): (r: int)
    ensures r == -1 || OccursAt(s, sub, r)
    ensures forall j :: 0 <= j && (r == -1 || j < r) ==> !OccursAt(s, sub, j)
  {
    IndexFrom(s, sub, 0)
  }

  /** The search of Index, started at position k. */
  function IndexFrom(s: string, sub: string, k: nat): (r: int)
    decreases |s| - k
    ensures r == -1 || (k <= r && OccursAt(s, sub, r))
    ensures forall j :: k <= j && (r == -1 || j < r) ==> !OccursAt(s, sub, j)
  {
    if k + |sub| > |s| then -1
    else if s[k..k + |sub|] == sub then k
    else IndexFrom(s, sub, k + 1)
  }

  /** strings.Replace(s, pat, rep, 1): the first occurrence of pat, if any, is
      replaced by rep; everything before and after it is kept. */
  function ReplaceFirst(s: string, pat: string, rep: string): (r: string)
    ensures (forall j :: !OccursAt(s, pat, j)) ==> r == s
    ensures forall i :: OccursAt(s, pat, i) && (forall j :: 0 <= j < i ==> !OccursAt(s, pat, j)) ==>
      r == s[..i] + rep + s[i + |pat|..]
  {
    var i := Index(s, pat);
    if i < 0 then s else s[..i] + rep + s[i + |pat|..]
  }

  const FILE_ROUTE := "/v1/file/"
  const PROPERTIES_ROUTE := "/v1/properties/file/"

  /** The redirect target of a directory without an index file: the request path
      with its first "/v1/file/" turned into "/v1/properties/file/". The target
      differs from the request path exactly when the path holds the route, and is
      then longer by the eleven characters "properties/". */
  function PropertiesUrl(url: string): (r: string)
    ensures r == url <==> forall j :: !OccursAt(url, FILE_ROUTE, j)
    ensures r != url ==> |r| == |url| + 11
  {
    ReplaceFirst(url, FILE_ROUTE, PROPERTIES_ROUTE)
  }

  /** A string that starts with the pattern has that occurrence replaced. */
  lemma ReplaceAtHead(pat: string, rep: string, rest: string)
    ensures ReplaceFirst(pat + rest, pat, rep) == rep + rest
  {
    var s := pat + rest;
    assert s[0..|pat|] == pat;
    assert OccursAt(s, pat, 0);
    assert Index(s, pat) == 0;
    assert s[..0] + rep + s[|pat|..] == rep + rest;
  }

  /** A file URL is rewritten at its head only; a later "/v1/file/" in the rest
      stays as it is. */
  lemma PropertiesUrlOfFileUrl(rest: string)
    ensures PropertiesUrl(FILE_ROUTE + rest) == PROPERTIES_ROUTE + rest
  {
    ReplaceAtHead(FILE_ROUTE, PROPERTIES_ROUTE, rest);
  }

  /** A path in which "/v1/file/" does not occur is returned unchanged. */
  lemma PropertiesUrlElsewhere(url: string)
    requires forall j :: !OccursAt(url, FILE_ROUTE, j)
    ensures PropertiesUrl(url) == url
  {
  }

  /** Only the first "/v1/file/" is rewritten, wherever it stands: what comes
      before it and everything after it, a later "/v1/file/" included, is kept. */
  lemma PropertiesUrlOnlyFirst(a: string, b: string)
    requires forall j :: 0 <= j < |a| ==> !OccursAt(a + FILE_ROUTE + b, FILE_ROUTE, j)
    ensures PropertiesUrl(a + FILE_ROUTE + b) == a + PROPERTIES_ROUTE + b
  {
    var s := a + FILE_ROUTE + b;
    assert s[|a|..|a| + |FILE_ROUTE|] == FILE_ROUTE;
    assert OccursAt(s, FILE_ROUTE, |a|);
    assert s[..|a|] == a && s[|a| + |FILE_ROUTE|..] == b;
  }
}
