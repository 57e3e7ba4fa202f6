/** How the mirror names what it saves: `build_new_name` folds a query string into the file
    name and turns a feed into `feed.xml`, `build_save_name` gives directory-like paths an
    `index.html`, and the fingerprint pass splices a content hash in front of the extension
    of immutable assets. */
module Names {
  import opened PyStr

  /** The query part of a name with `&` and `=` both turned into `_`. */
  function FoldedQuery(q: string): string
  {
    Replace(Replace(q, "&", "_"), "=", "_")
  }

  /** The `?` branch of `build_new_name` (1_fetch.py:44-48): the folded query goes between
      the name's stem and its last extension; a name without `?` is kept. */
  function FoldQuery(name: string): string
  {
    var p := Find(name, "?");
    if p == -1 then name
    else
      var elems := Split(name[..p], ".");
      Join(elems[..|elems| - 1], ".") + "." + FoldedQuery(name[p + 1..]) + "." + elems[|elems| - 1]
  }

  /** The `/feed/` branch of `build_new_name` (1_fetch.py:49-50). */
  function FeedToXml(name: string): string
  {
    if EndsWith(name, "/feed/") then name[..|name| - 1] + ".xml" else name
  }

  /** `build_new_name(name)` */
  function BuildNewName(name: string): string
  {
    FeedToXml(FoldQuery(name))
  }

  /** `build_save_name(name)`: the result never ends in `/` and always starts with `name`. */
  function BuildSaveName(name: string): (r: string)
    ensures |r| >= |name| && r[..|name|] == name
    ensures !EndsWith(r, "/")
  {
    if EndsWith(name, "/") then
      var r := name + "index.html";
      assert r[|r| - 1] == 'l';
      NotEndsWith(r, "/");
      r
    else name
  }

  /** The directory `os.makedirs` creates for a save path: `'/'.join(save_name.split('/')[:-1])`. */
  function ParentDir(path: string): string
  {
    var parts := Split(path, "/");
    Join(parts[..|parts| - 1], "/")
  }

  /** `save_name[:save_name.rfind('.')] + "." + sha + save_name[save_name.rfind('.'):]` */
  function SpliceHash(name: string, sha: string): string
  {
    var d := RFind(name, ".");
    Prefix(name, d) + "." + sha + Suffix(name, d)
  }

  const ImmutableExtensions: seq<string> := [".js", ".css", ".png", ".jpg"]

  /** How many of the given extensions `name` ends with. */
  function CountEndings(name: string, exts: seq<string>): nat
  {
    if exts == [] then 0
    else (if EndsWith(name, exts[0]) then 1 else 0) + CountEndings(name, exts[1..])
  }

  /** `len([1 for x in immutable_extensions if save_name.endswith(x)]) == 1` */
  predicate IsImmutable(name: string)
  {
    CountEndings(name, ImmutableExtensions) == 1
  }

  // ---------------------------------------------------------------------------------------
  // build_new_name

  /** The folded name, described by the last `.` of the path before the `?` instead of by
      splitting and joining: stem, `.`, folded query, `.`, extension. Without a `.` the stem
      is empty and the whole path plays the extension. */
  lemma FoldQuerySpec(name: string)
    requires Find(name, "?") != -1
    ensures var p := Find(name, "?");
            var base := name[..p];
            var d := RFind(base, ".");
            FoldQuery(name) == (if d == -1 then "" else base[..d]) + "." + FoldedQuery(name[p + 1..]) + "."
                               + (if d == -1 then base else base[d + 1..])
  {
    var p := Find(name, "?");
    var base := name[..p];
    var elems := Split(base, ".");
    var d := RFind(base, ".");
    SplitInit(base, '.');
    SplitLast(base, '.');
    assert Join(elems[..|elems| - 1], ".") == (if d == -1 then "" else base[..d]);
    assert elems[|elems| - 1] == (if d == -1 then base else base[d + 1..]);
    assert FoldQuery(name) == Join(elems[..|elems| - 1], ".") + "." + FoldedQuery(name[p + 1..]) + "." + elems[|elems| - 1];
  }

  /** Folding a name whose path has an extension: the query goes before the extension. */
  lemma FoldWithDot(stem: string, ext: string, q: string)
    requires '?' !in stem && '?' !in ext && '.' !in ext
    ensures FoldQuery(stem + "." + ext + "?" + q) == stem + "." + FoldedQuery(q) + "." + ext
  {
    var base := stem + "." + ext;
    var name := base + "?" + q;
    FindAfter(base, "?", q, 0);
    assert name[..|base|] == base && name[|base| + 1..] == q;
    assert base == stem + ['.'] + ext;
    RFindLast(stem, '.', ext);
    assert base[..|stem|] == stem && base[|stem| + 1..] == ext;
    FoldQuerySpec(name);
  }

  /** Folding a name whose path has no `.`: the path is put last. */
  lemma FoldNoDot(base: string, q: string)
    requires '?' !in base && '.' !in base
    ensures FoldQuery(base + "?" + q) == "." + FoldedQuery(q) + "." + base
  {
    var name := base + "?" + q;
    FindAfter(base, "?", q, 0);
    assert name[..|base|] == base && name[|base| + 1..] == q;
    RFindChar(base, '.');
    FoldQuerySpec(name);
  }

  /** A query without `&` or `=` is kept as it is. */
  lemma FoldedQueryPlain(q: string)
    requires '&' !in q && '=' !in q
    ensures FoldedQuery(q) == q
  {
    NotContainsByChar(q, "&", 0);
    NotContainsByChar(q, "=", 0);
    ReplaceAbsent(q, "&", "_");
    ReplaceAbsent(q, "=", "_");
  }

  /** A name with no `?` that is not a feed comes back unchanged. */
  lemma NewNamePlain(name: string)
    requires '?' !in name && !EndsWith(name, "/feed/")
    ensures BuildNewName(name) == name
  {
    FindChar(name, '?');
  }

  /** The result of `build_new_name` never ends in `/feed/`. */
  lemma NewNameNotFeed(name: string)
    ensures !EndsWith(BuildNewName(name), "/feed/")
  {
    var f := FoldQuery(name);
    if EndsWith(f, "/feed/") {
      var r := f[..|f| - 1] + ".xml";
      assert r[|r| - 1] == 'l';
    }
  }

  /** Folding the query removes the `?` when it was the only one. */
  lemma FoldQueryNoQuestion(name: string)
    requires forall i, j :: 0 <= i < j < |name| && name[i] == '?' ==> name[j] != '?'
    ensures '?' !in FoldQuery(name)
  {
    var p := Find(name, "?");
    FindChar(name, '?');
    if p != -1 {
      var base := name[..p];
      var q := name[p + 1..];
      assert '?' !in q by {
        forall k | 0 <= k < |q| ensures q[k] != '?' { assert q[k] == name[p + 1 + k]; }
      }
      ReplaceKeepsAbsent(q, "&", "_", '?');
      ReplaceKeepsAbsent(Replace(q, "&", "_"), "=", "_", '?');
      FoldQuerySpec(name);
      var d := RFind(base, ".");
      var stem := if d == -1 then "" else base[..d];
      var ext := if d == -1 then base else base[d + 1..];
      assert '?' !in stem && '?' !in ext;
      AbsentInFold(stem, FoldedQuery(q), ext, '?');
    }
  }

  lemma AbsentInFold(stem: string, q: string, ext: string, c: char)
    requires c != '.' && c !in stem && c !in q && c !in ext
    ensures c !in stem + "." + q + "." + ext
  {
  }

  lemma FeedToXmlNoQuestion(name: string)
    requires '?' !in name
    ensures '?' !in FeedToXml(name)
  {
    if EndsWith(name, "/feed/") {
      assert '?' !in name[..|name| - 1];
    }
  }

  /** `build_new_name` is idempotent on names with at most one `?`. */
  lemma NewNameIdempotent(name: string)
    requires forall i, j :: 0 <= i < j < |name| && name[i] == '?' ==> name[j] != '?'
    ensures BuildNewName(BuildNewName(name)) == BuildNewName(name)
  {
    FoldQueryNoQuestion(name);
    FeedToXmlNoQuestion(FoldQuery(name));
    NewNameNotFeed(name);
    NewNamePlain(BuildNewName(name));
  }

  /** Without a `?` only the feed rule applies. */
  lemma NewNameNoQuery(name: string)
    requires '?' !in name
    ensures BuildNewName(name) == FeedToXml(name)
  {
    FindChar(name, '?');
  }

  /** A feed path loses its trailing `/` and gains `.xml`: `FeedToXml` unfolded on a path
      that ends in `/feed/`. */
  lemma FeedSpec(stem: string)
    ensures FeedToXml(stem + "/feed/") == stem + "/feed.xml"
  {
    var name := stem + "/feed/";
    assert name[|name| - 6..] == "/feed/";
    assert name[..|name| - 1] + ".xml" == stem + "/feed.xml";
  }

  /** With two `?` the fold is not idempotent: `a?b?c` becomes `.b?c.a`, which becomes
      `.c.a.b`. */
  lemma NewNameTwoQueries()
    ensures BuildNewName("a" + "?" + "b?c") == "." + "b?c" + "." + "a"
    ensures BuildNewName(BuildNewName("a" + "?" + "b?c")) == "" + "." + "c.a" + "." + "b"
    ensures BuildNewName(BuildNewName("a" + "?" + "b?c")) != BuildNewName("a" + "?" + "b?c")
  {
    TwoQueriesFirst();
    TwoQueriesSecond();
    TwoQueriesLiterals();
  }

  lemma TwoQueriesLiterals()
    ensures "." + "b?c" + "." + "a" == "" + "." + "b" + "?" + "c.a"
    ensures "" + "." + "c.a" + "." + "b" != "." + "b?c" + "." + "a"
  {
    assert ("" + "." + "c.a" + "." + "b")[1] == 'c';
  }

  lemma TwoQueriesFirst()
    ensures BuildNewName("a" + "?" + "b?c") == "." + "b?c" + "." + "a"
  {
    FoldedQueryPlain("b?c");
    FoldNoDot("a", "b?c");
    NotEndsWith("." + "b?c" + "." + "a", "/feed/");
  }

  lemma TwoQueriesSecond()
    ensures BuildNewName("" + "." + "b" + "?" + "c.a") == "" + "." + "c.a" + "." + "b"
  {
    FoldedQueryPlain("c.a");
    FoldWithDot("", "b", "c.a");
    NotEndsWith("" + "." + "c.a" + "." + "b", "/feed/");
  }

  /** Doctest: a plain asset path is kept. */
  lemma NewNameExamplePlain()
    ensures var name := "wp-content/uploads/" + "2018/01/cropped-Logo-2.png";
            BuildNewName(name) == name
  {
    var name := "wp-content/uploads/" + "2018/01/cropped-Logo-2.png";
    assert '?' !in "wp-content/uploads/" && '?' !in "2018/01/cropped-Logo-2.png";
    assert name[|name| - 1] == 'g';
    NotEndsWith(name, "/feed/");
    NewNamePlain(name);
  }

  /** Doctest: the version query moves in front of the extension. */
  lemma NewNameExampleQuery()
    ensures BuildNewName("wp-includes/js/wp-embed.min" + ".js" + "?ver=4.9.7") == "wp-includes/js/wp-embed.min" + ".ver_4.9.7.js"
  {
    var stem := "wp-includes/js/wp-embed.min";
    FoldedQueryOneValue("ver", "4.9.7");
    FoldWithDot(stem, "js", "ver" + "=" + "4.9.7");
    ExampleQueryLiterals(stem);
    var r := stem + ".ver_4.9.7.js";
    assert r[|r| - 1] == 's';
    NotEndsWith(r, "/feed/");
  }

  /** A single `key=value` query becomes `key_value`. */
  lemma FoldedQueryOneValue(key: string, value: string)
    requires '&' !in key && '&' !in value && '=' !in key && '=' !in value
    ensures FoldedQuery(key + "=" + value) == key + "_" + value
  {
    var q := key + "=" + value;
    assert '&' !in q;
    NotContainsByChar(q, "&", 0);
    ReplaceAbsent(q, "&", "_");
    NotContainsByChar(value, "=", 0);
    ReplaceOnce(key, "=", value, "_");
  }

  lemma ExampleQueryLiterals(stem: string)
    ensures stem + ".js" + "?ver=4.9.7" == stem + "." + "js" + "?" + ("ver" + "=" + "4.9.7")
    ensures stem + "." + ("ver" + "_" + "4.9.7") + "." + "js" == stem + ".ver_4.9.7.js"
  {
  }

  /** Doctest: the feed becomes an XML file. */
  lemma NewNameExampleFeed()
    ensures BuildNewName("/feed/") == "/feed.xml"
  {
    var n := "/feed/";
    assert '?' !in n;
    NewNameNoQuery(n);
    FeedSpec("");
    EmptyConcat("/feed/");
    EmptyConcat("/feed.xml");
  }

  lemma EmptyConcat(s: string)
    ensures "" + s == s
  {
  }

  // ---------------------------------------------------------------------------------------
  // build_save_name

  /** `index.html` is appended exactly when the name ends in `/` (the first two clauses
      unfold the definition), and doing it twice is doing it once. */
  lemma SaveNameSpec(name: string)
    ensures EndsWith(name, "/") ==> BuildSaveName(name) == name + "index.html"
    ensures !EndsWith(name, "/") ==> BuildSaveName(name) == name
    ensures BuildSaveName(BuildSaveName(name)) == BuildSaveName(name)
  {
  }

  lemma SaveNameExamples()
    ensures BuildSaveName("/something.html") == "/something.html"
    ensures BuildSaveName("/hello/") == "/hello/index.html"
  {
  }

  // ---------------------------------------------------------------------------------------
  // Parent directory

  /** The directory of a save path is everything before its last `/`, or empty. */
  lemma ParentDirSpec(path: string)
    ensures var d := RFind(path, "/");
            ParentDir(path) == (if d == -1 then "" else path[..d])
  {
    SplitInit(path, '/');
  }

  // ---------------------------------------------------------------------------------------
  // Fingerprint splice

  /** With a `.` in the name, the hash goes right before the last `.`: the text after it (the
      extension) is kept, the last `.` of the result still starts that extension when the
      hash has no `.`, and cutting `"." + sha` out gives the name back. */
  lemma SpliceSpec(name: string, sha: string) returns (d: nat)
    requires '.' in name && '.' !in sha
    ensures d < |name| && name[d] == '.' && '.' !in name[d + 1..]
    ensures SpliceHash(name, sha) == name[..d] + "." + sha + name[d..]
    ensures RFind(SpliceHash(name, sha), ".") == d + 1 + |sha|
    ensures SpliceHash(name, sha)[d + 1 + |sha|..] == name[d..]
    ensures SpliceHash(name, sha)[..d] + SpliceHash(name, sha)[d + 1 + |sha|..] == name
  {
    d := LastDot(name);
    var a, t := name[..d], name[d + 1..];
    DotParts(name, d);
    var u := a + "." + sha;
    assert SpliceHash(name, sha) == u + name[d..];
    SpliceRFind(u, t);
    DropAppend(u, "." + t);
    TakeSplice(a, sha, "." + t);
  }

  /** The last `.` of a name that has one. */
  lemma LastDot(name: string) returns (d: nat)
    requires '.' in name
    ensures d == RFind(name, ".") && d < |name| && name[d] == '.' && '.' !in name[d + 1..]
  {
    RFindChar(name, '.');
    d := RFind(name, ".");
    var t := name[d + 1..];
    assert forall k :: 0 <= k < |t| ==> t[k] == name[d + 1 + k];
  }

  lemma DotParts(name: string, d: nat)
    requires d < |name| && name[d] == '.'
    ensures name[d..] == "." + name[d + 1..] && name[..d] + name[d..] == name
  {
  }

  lemma SpliceRFind(u: string, t: string)
    requires '.' !in t
    ensures RFind(u + ("." + t), ".") == |u|
  {
    DotJoin(u, t);
    RFindLast(u, '.', t);
  }

  lemma DotJoin(u: string, t: string)
    ensures u + ("." + t) == u + ['.'] + t
  {
  }

  lemma TakeSplice(a: string, sha: string, x: string)
    ensures (a + "." + sha + x)[..|a|] == a
  {
  }

  /** Without a `.` the slice bounds are both -1: the hash lands before the last character. */
  lemma SpliceNoDot(name: string, sha: string)
    requires '.' !in name && |name| > 0
    ensures SpliceHash(name, sha) == name[..|name| - 1] + "." + sha + [name[|name| - 1]]
  {
    RFindChar(name, '.');
  }

  /** Each extension of the immutable list is matched alone, so a name is immutable exactly
      when it ends in one of them; such a name has a `.`. */
  lemma ImmutableSpec(name: string)
    ensures IsImmutable(name) <==> (EndsWith(name, ".js") || EndsWith(name, ".css") || EndsWith(name, ".png") || EndsWith(name, ".jpg"))
    ensures IsImmutable(name) ==> '.' in name
  {
    var e := ImmutableExtensions;
    var b0 := if EndsWith(name, ".js") then 1 else 0;
    var b1 := if EndsWith(name, ".css") then 1 else 0;
    var b2 := if EndsWith(name, ".png") then 1 else 0;
    var b3 := if EndsWith(name, ".jpg") then 1 else 0;
    assert e[1..] == [".css", ".png", ".jpg"] && e[1..][1..] == [".png", ".jpg"] && e[1..][1..][1..] == [".jpg"];
    assert CountEndings(name, e[1..][1..][1..]) == b3;
    assert CountEndings(name, e[1..][1..]) == b2 + b3;
    assert CountEndings(name, e[1..]) == b1 + b2 + b3;
    assert CountEndings(name, e) == b0 + b1 + b2 + b3;
    if EndsWith(name, ".js") { EndsWithChar(name, ".js", 0); EndsWithChar(name, ".js", 2); }
    if EndsWith(name, ".css") { EndsWithChar(name, ".css", 0); EndsWithChar(name, ".css", 1); EndsWithChar(name, ".css", 3); }
    if EndsWith(name, ".png") { EndsWithChar(name, ".png", 0); EndsWithChar(name, ".png", 1); EndsWithChar(name, ".png", 3); }
    if EndsWith(name, ".jpg") { EndsWithChar(name, ".jpg", 0); EndsWithChar(name, ".jpg", 1); EndsWithChar(name, ".jpg", 3); }
  }
}
