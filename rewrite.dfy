/** The last pass: every `.html` file under the output directory is read as UTF-8, the old
    base URL is replaced by the new one, then each key of the ledger, in insertion order, is
    replaced by its new name, and the file is written back. The order in which `os.walk`
    lists the files is a parameter. */
module Rewrite {
  import opened Utf8
  import opened PyStr
  import opened Ledger
  import opened Crawl
  import opened Fingerprinting

  /** `for f in known_links_d: html = html.replace(f, known_links_d[f]['newName'])` */
  function ReplaceNames(html: string, order: seq<string>, records: map<string, Record>): string
    requires AllDownloadedIn(order, records)
    decreases |order|
  {
    if order == [] then html
    else ReplaceNames(Replace(html, order[0], records[order[0]].newName), order[1..], records)
  }

  /** One page: the base URL first, then the ledger's keys. */
  function RewriteHtml(cfg: Config, html: string, order: seq<string>, records: map<string, Record>): string
    requires AllDownloadedIn(order, records)
  {
    ReplaceNames(Replace(html, cfg.currentBaseUrl, cfg.newBaseUrl), order, records)
  }

  /** The files after the pass, and the path of the page whose bytes were not UTF-8
      (`UnicodeDecodeError`), if the pass stopped on one. */
  datatype Site = Site(files: Files, undecodable: Option<string>)

  /** The pass over the files listed in `paths`, in that order. */
  function RewriteSite(cfg: Config, files: Files, paths: seq<string>, order: seq<string>, records: map<string, Record>): Site
    requires AllDownloadedIn(order, records)
    requires forall i :: 0 <= i < |paths| ==> paths[i] in files
    decreases |paths|
  {
    if paths == [] then Site(files, None)
    else
      var p := paths[0];
      if !EndsWith(p, ".html") then RewriteSite(cfg, files, paths[1..], order, records)
      else match DecodeStrict(files[p])
        case None => Site(files, Some(p))
        case Some(html) => RewriteSite(cfg, files[p := Encode(RewriteHtml(cfg, html, order, records))], paths[1..], order, records)
  }

  // ---------------------------------------------------------------------------------------
  // Properties

  /** Replacing a text by itself changes nothing. */
  lemma {:induction false} ReplaceSame(s: string, p: string)
    requires |p| > 0
    ensures Replace(s, p, p) == s
    decreases |s|
  {
    if |s| > 0 {
      if StartsWith(s, p) {
        ReplaceSame(s[|p|..], p);
        assert s == p + s[|p|..];
      } else {
        ReplaceSame(s[1..], p);
        assert s == [s[0]] + s[1..];
      }
    }
  }

  /** Keys that are their own new name (no query, no feed, no fingerprint) or that the page
      does not mention leave the page as it is. */
  lemma {:induction false} ReplaceNamesInert(html: string, order: seq<string>, records: map<string, Record>)
    requires AllDownloadedIn(order, records)
    requires forall i :: 0 <= i < |order| ==>
               |order[i]| > 0 && (records[order[i]].newName == order[i] || !Contains(html, order[i]))
    ensures ReplaceNames(html, order, records) == html
    decreases |order|
  {
    if order != [] {
      if records[order[0]].newName == order[0] {
        ReplaceSame(html, order[0]);
      } else {
        ReplaceAbsent(html, order[0], records[order[0]].newName);
      }
      ReplaceNamesInert(html, order[1..], records);
    }
  }

  /** A page that mentions one key of the ledger once, where every other key is inert both
      before and after that key is replaced, ends up with that key's new name in its
      place and nothing else changed. */
  lemma {:induction false} ReplaceNamesOnce(a: string, b: string, order: seq<string>, records: map<string, Record>, i: nat)
    requires AllDownloadedIn(order, records) && i < |order|
    requires |order[i]| > 0 && order[i][0] !in a && !Contains(b, order[i])
    requires forall j :: 0 <= j < |order| && j != i ==>
               |order[j]| > 0
               && (records[order[j]].newName == order[j]
                   || (!Contains(a + order[i] + b, order[j]) && !Contains(a + records[order[i]].newName + b, order[j])))
    ensures ReplaceNames(a + order[i] + b, order, records) == a + records[order[i]].newName + b
    decreases |order|
  {
    var html := a + order[i] + b;
    var n := records[order[i]].newName;
    if i == 0 {
      ReplaceOnce(a, order[0], b, n);
      forall j | 0 <= j < |order[1..]|
        ensures |order[1..][j]| > 0
                && (records[order[1..][j]].newName == order[1..][j] || !Contains(a + n + b, order[1..][j]))
      {
        assert order[1..][j] == order[j + 1];
      }
      ReplaceNamesInert(a + n + b, order[1..], records);
    } else {
      if records[order[0]].newName == order[0] {
        ReplaceSame(html, order[0]);
      } else {
        ReplaceAbsent(html, order[0], records[order[0]].newName);
      }
      assert order[1..][i - 1] == order[i];
      forall j | 0 <= j < |order[1..]| && j != i - 1
        ensures |order[1..][j]| > 0
                && (records[order[1..][j]].newName == order[1..][j]
                    || (!Contains(html, order[1..][j]) && !Contains(a + n + b, order[1..][j])))
      {
        assert order[1..][j] == order[j + 1];
      }
      ReplaceNamesOnce(a, b, order[1..], records, i - 1);
    }
  }

  /** The same for a whole page: when the old base URL does not occur, a page with one
      mention of a key gets that key's new name and is otherwise left alone. */
  lemma RewriteOneLink(cfg: Config, a: string, b: string, order: seq<string>, records: map<string, Record>, i: nat)
    requires AllDownloadedIn(order, records) && i < |order|
    requires |cfg.currentBaseUrl| > 0 && !Contains(a + order[i] + b, cfg.currentBaseUrl)
    requires |order[i]| > 0 && order[i][0] !in a && !Contains(b, order[i])
    requires forall j :: 0 <= j < |order| && j != i ==>
               |order[j]| > 0
               && (records[order[j]].newName == order[j]
                   || (!Contains(a + order[i] + b, order[j]) && !Contains(a + records[order[i]].newName + b, order[j])))
    ensures RewriteHtml(cfg, a + order[i] + b, order, records) == a + records[order[i]].newName + b
  {
    ReplaceAbsent(a + order[i] + b, cfg.currentBaseUrl, cfg.newBaseUrl);
    ReplaceNamesOnce(a, b, order, records, i);
  }

  /** Keys are replaced in the order they were found, one after the other, so a key that
      begins another key, and comes before it, takes that key's mentions: a page linking
      to `k + q` ends up linking to the new name of `k` followed by `q`, and the new name
      of `k + q` never appears. */
  lemma ShadowedKey(a: string, k: string, q: string, b: string, records: map<string, Record>)
    requires k in records && records[k].Downloaded? && k + q in records && records[k + q].Downloaded?
    requires |k| > 0 && k[0] !in a && !Contains(q + b, k)
    requires !Contains(a + records[k].newName + q + b, k + q)
    ensures ReplaceNames(a + k + q + b, [k, k + q], records) == a + records[k].newName + q + b
  {
    var n := records[k].newName;
    var m := records[k + q].newName;
    var page := a + k + q + b;
    ReplaceNamesPair(page, k, k + q, records);
    assert page == a + k + (q + b);
    ReplaceOnce(a, k, q + b, n);
    assert a + n + (q + b) == a + n + q + b;
    ReplaceAbsent(a + n + q + b, k + q, m);
  }

  /** So, unless the new name of `k + q` happens to be the new name of `k` followed by `q`,
      the page does not end up linking to the new name of `k + q`. */
  lemma ShadowedKeyLost(a: string, k: string, q: string, b: string, records: map<string, Record>)
    requires k in records && records[k].Downloaded? && k + q in records && records[k + q].Downloaded?
    requires |k| > 0 && k[0] !in a && !Contains(q + b, k)
    requires !Contains(a + records[k].newName + q + b, k + q)
    requires records[k + q].newName != records[k].newName + q
    ensures ReplaceNames(a + k + q + b, [k, k + q], records) != a + records[k + q].newName + b
  {
    ShadowedKey(a, k, q, b, records);
    Framed(a, records[k].newName, q, records[k + q].newName, b);
  }

  /** A ledger of two keys replaces the first, then the second. */
  lemma ReplaceNamesPair(html: string, k: string, l: string, records: map<string, Record>)
    requires k in records && records[k].Downloaded? && l in records && records[l].Downloaded?
    ensures AllDownloadedIn([k, l], records)
    ensures ReplaceNames(html, [k, l], records) == Replace(Replace(html, k, records[k].newName), l, records[l].newName)
  {
    var once := Replace(html, k, records[k].newName);
    assert [k, l][0] == k && [k, l][1..] == [l] && [l][0] == l && [l][1..] == [];
    assert ReplaceNames(html, [k, l], records) == ReplaceNames(once, [l], records);
    assert ReplaceNames(once, [l], records) == ReplaceNames(Replace(once, l, records[l].newName), [], records);
  }

  /** Two texts that differ stay different between the same two pieces. */
  lemma Framed(a: string, n: string, q: string, m: string, b: string)
    requires m != n + q
    ensures a + n + q + b != a + m + b
  {
    var x := n + q;
    if |x| == |m| {
      var i :| 0 <= i < |x| && x[i] != m[i];
      assert (a + n + q + b)[|a| + i] == x[i];
      assert (a + m + b)[|a| + i] == m[i];
    } else {
      assert |a + n + q + b| != |a + m + b|;
    }
  }

  /** The pass adds and removes no file. */
  lemma {:induction false} RewriteSiteKeys(cfg: Config, files: Files, paths: seq<string>, order: seq<string>, records: map<string, Record>)
    requires AllDownloadedIn(order, records)
    requires forall i :: 0 <= i < |paths| ==> paths[i] in files
    ensures RewriteSite(cfg, files, paths, order, records).files.Keys == files.Keys
    decreases |paths|
  {
    if paths != [] {
      var p := paths[0];
      if EndsWith(p, ".html") && DecodeStrict(files[p]).Some? {
        var files' := files[p := Encode(RewriteHtml(cfg, DecodeStrict(files[p]).value, order, records))];
        RewriteSiteKeys(cfg, files', paths[1..], order, records);
      } else if !EndsWith(p, ".html") {
        RewriteSiteKeys(cfg, files, paths[1..], order, records);
      }
    }
  }

  /** The pass adds and removes no file; a file it does not list, or that is not a page,
      keeps its bytes. */
  lemma {:induction false} RewriteSiteKeeps(cfg: Config, files: Files, paths: seq<string>, order: seq<string>, records: map<string, Record>, q: string)
    requires AllDownloadedIn(order, records)
    requires forall i :: 0 <= i < |paths| ==> paths[i] in files
    requires q in files && (q !in paths || !EndsWith(q, ".html"))
    ensures var site := RewriteSite(cfg, files, paths, order, records);
            site.files.Keys == files.Keys && q in site.files && site.files[q] == files[q]
    decreases |paths|
  {
    if paths != [] {
      var p := paths[0];
      assert q !in paths[1..] || !EndsWith(q, ".html");
      if EndsWith(p, ".html") && DecodeStrict(files[p]).Some? {
        var files' := files[p := Encode(RewriteHtml(cfg, DecodeStrict(files[p]).value, order, records))];
        assert files'.Keys == files.Keys;
        RewriteSiteKeeps(cfg, files', paths[1..], order, records, q);
      } else if !EndsWith(p, ".html") {
        RewriteSiteKeeps(cfg, files, paths[1..], order, records, q);
      }
    }
  }

  /** A pass that stops, stops on a listed page whose bytes are not valid UTF-8, and leaves
      that file as it found it. */
  lemma {:induction false} RewriteSiteStops(cfg: Config, files: Files, paths: seq<string>, order: seq<string>, records: map<string, Record>)
    requires AllDownloadedIn(order, records) && Distinct(paths)
    requires forall i :: 0 <= i < |paths| ==> paths[i] in files
    ensures var site := RewriteSite(cfg, files, paths, order, records);
            site.undecodable.Some? ==>
              var p := site.undecodable.value;
              p in paths && EndsWith(p, ".html") && p in files && !Valid(files[p])
    decreases |paths|
  {
    if paths != [] {
      var p := paths[0];
      assert Distinct(paths[1..]);
      if EndsWith(p, ".html") && DecodeStrict(files[p]).Some? {
        var files' := files[p := Encode(RewriteHtml(cfg, DecodeStrict(files[p]).value, order, records))];
        RewriteSiteStops(cfg, files', paths[1..], order, records);
        var site := RewriteSite(cfg, files', paths[1..], order, records);
        if site.undecodable.Some? {
          assert site.undecodable.value != p;
        }
      } else if !EndsWith(p, ".html") {
        RewriteSiteStops(cfg, files, paths[1..], order, records);
      }
    }
  }

  /** A pass that reads every page it lists rewrites each of them: its bytes were valid
      UTF-8, and its new bytes are the UTF-8 encoding of the rewritten text, which reads
      back as that text. */
  lemma {:induction false} RewriteSitePages(cfg: Config, files: Files, paths: seq<string>, order: seq<string>, records: map<string, Record>, q: string)
    requires AllDownloadedIn(order, records) && Distinct(paths)
    requires forall i :: 0 <= i < |paths| ==> paths[i] in files
    requires RewriteSite(cfg, files, paths, order, records).undecodable.None?
    requires q in paths && EndsWith(q, ".html")
    ensures var out := RewriteSite(cfg, files, paths, order, records).files;
            Valid(files[q]) && q in out
            && out[q] == Encode(RewriteHtml(cfg, Decode(files[q]), order, records))
            && DecodeStrict(out[q]) == Some(RewriteHtml(cfg, Decode(files[q]), order, records))
    decreases |paths|
  {
    var p := paths[0];
    assert Distinct(paths[1..]);
    if p == q {
      assert q !in paths[1..];
      var html := RewriteHtml(cfg, Decode(files[q]), order, records);
      var files' := files[q := Encode(html)];
      RewriteSiteKeeps(cfg, files', paths[1..], order, records, q);
      DecodeEncode(html);
    } else {
      assert q in paths[1..];
      if EndsWith(p, ".html") {
        var files' := files[p := Encode(RewriteHtml(cfg, DecodeStrict(files[p]).value, order, records))];
        RewriteSitePages(cfg, files', paths[1..], order, records, q);
      } else {
        RewriteSitePages(cfg, files, paths[1..], order, records, q);
      }
    }
  }

  // ---------------------------------------------------------------------------------------
  // The pass as the script runs it

  /** The page loop: the base URL, then one `replace` per key of the dict. */
  method RewritePage(cfg: Config, known: KnownLinks, html: string) returns (out: string)
    requires AllDownloadedIn(known.order, known.records)
    ensures out == RewriteHtml(cfg, html, known.order, known.records)
  {
    out := Replace(html, cfg.currentBaseUrl, cfg.newBaseUrl);
    var i := 0;
    while i < |known.order|
      invariant 0 <= i <= |known.order|
      invariant RewriteHtml(cfg, html, known.order, known.records) == ReplaceNames(out, known.order[i..], known.records)
    {
      assert known.order[i..][0] == known.order[i] && known.order[i..][1..] == known.order[i + 1..];
      var f := known.order[i];
      out := Replace(out, f, known.records[f].newName);
      i := i + 1;
    }
  }

  /** The walk over the output directory: each page is read, rewritten and written back. */
  method RewriteFiles(cfg: Config, known: KnownLinks, files: Files, paths: seq<string>)
    returns (newFiles: Files, undecodable: Option<string>)
    requires AllDownloadedIn(known.order, known.records)
    requires forall i :: 0 <= i < |paths| ==> paths[i] in files
    ensures Site(newFiles, undecodable) == RewriteSite(cfg, files, paths, known.order, known.records)
  {
    newFiles := files;
    var i := 0;
    while i < |paths|
      invariant 0 <= i <= |paths|
      invariant forall j :: i <= j < |paths| ==> paths[j] in newFiles
      invariant RewriteSite(cfg, files, paths, known.order, known.records)
                == RewriteSite(cfg, newFiles, paths[i..], known.order, known.records)
    {
      assert paths[i..][0] == paths[i] && paths[i..][1..] == paths[i + 1..];
      var file := paths[i];
      if EndsWith(file, ".html") {
        var html := DecodeStrict(newFiles[file]);
        if html.None? {
          return newFiles, Some(file);
        }
        var rewritten := RewritePage(cfg, known, html.value);
        newFiles := newFiles[file := Encode(rewritten)];
      }
      i := i + 1;
    }
    undecodable := None;
  }
}
