/** The script from start to end: crawl the site into the output directory, fingerprint the
    assets, rewrite the pages. Any of the three can stop the script: the crawl on a failed
    assertion or undecodable page, the fingerprint pass on a missing file, the rewrite on
    a page that is not UTF-8. The transport, the hash and the directory walk are
    parameters. */
module Mirror {
  import opened Utf8
  import opened PyStr
  import opened Names
  import opened Ledger
  import opened Crawl
  import opened Fingerprinting
  import opened Rewrite

  datatype Exit =
    | Finished
    | CrawlStopped(outcome: Outcome)   // the crawl failed, or ran out of fuel
    | HashMissing(saveName: string)    // `sha256sum` found no file
    | Undecodable(path: string)        // a page under the output directory is not UTF-8

  /** How the script ends, with the dict and the files it leaves. */
  datatype Result = Result(exit: Exit, known: Dict, files: Files)

  /** `os.walk` lists every file under the directory once, in an order of its own. */
  ghost predicate ListsFiles(walk: Files -> seq<string>)
  {
    forall f: Files :: Distinct(walk(f)) && forall n :: n in f <==> n in walk(f)
  }

  /** What the walk lists exists. */
  lemma WalkListed(walk: Files -> seq<string>, f: Files)
    requires ListsFiles(walk)
    ensures Distinct(walk(f)) && forall i :: 0 <= i < |walk(f)| ==> walk(f)[i] in f
  {
    forall i | 0 <= i < |walk(f)| ensures walk(f)[i] in f {
      assert walk(f)[i] in walk(f);
    }
  }

  /** A dict the crawl finished: well formed, every record downloaded. */
  lemma FinishedDict(d: Dict)
    requires WellFormed(d) && AllDownloaded(d)
    ensures AllDownloadedIn(d.order, d.records)
  {
  }

  /** The fingerprint pass over the dict and the files a finished crawl leaves. */
  function Hashed(cfg: Config, fetch: string -> Response, fuel: nat, sha: seq<byte> -> Digest): Pass
    requires Run(Look(cfg, fetch), Start, fuel).outcome == Done
  {
    StartConsistent(Look(cfg, fetch));
    RunSpec(Look(cfg, fetch), Start, fuel);
    var e := Run(Look(cfg, fetch), Start, fuel);
    FinishedDict(e.state.known);
    Fingerprint(e.state.known.order, e.state.known.records, e.state.files, sha)
  }

  function Script(cfg: Config, fetch: string -> Response, fuel: nat, sha: seq<byte> -> Digest, walk: Files -> seq<string>): Result
    requires ListsFiles(walk)
  {
    var look := Look(cfg, fetch);
    StartConsistent(look);
    RunSpec(look, Start, fuel);
    var e := Run(look, Start, fuel);
    if e.outcome != Done then Result(CrawlStopped(e.outcome), e.state.known, e.state.files)
    else
      var d := e.state.known;
      FinishedDict(d);
      var p := Hashed(cfg, fetch, fuel, sha);
      FingerprintKeys(d.order, d.records, e.state.files, sha);
      if p.missing.Some? then Result(HashMissing(p.missing.value), Dict(d.order, p.records), p.files)
      else
        WalkListed(walk, p.files);
        var site := RewriteSite(cfg, p.files, walk(p.files), d.order, p.records);
        Result(if site.undecodable.Some? then Undecodable(site.undecodable.value) else Finished,
               Dict(d.order, p.records), site.files)
  }

  // ---------------------------------------------------------------------------------------
  // Properties

  /** On a site whose links stay inside a finite set of `n` paths, `/` among them, `n`
      requests are enough; a script that finishes leaves every record as the crawl named
      it, except that each asset carries one digest in both of its names. */
  lemma ScriptRecords(cfg: Config, fetch: string -> Response, fuel: nat, sha: seq<byte> -> Digest, walk: Files -> seq<string>, universe: set<string>)
    requires ListsFiles(walk)
    requires Closed(Look(cfg, fetch), universe) && "/" in universe && fuel >= |universe|
    ensures var r := Script(cfg, fetch, fuel, sha, walk);
            r.exit != CrawlStopped(OutOfFuel)
            && (r.exit == Finished ==>
                  forall k :: k in r.known.records ==>
                    var v := VisitedRecord(cfg, k);
                    (!IsImmutable(v.saveName) ==> r.known.records[k] == v)
                    && (IsImmutable(v.saveName) ==> exists h: Digest :: r.known.records[k] == Stamp(v, h)))
  {
    var look := Look(cfg, fetch);
    CrawlFinishes(cfg, fetch, fuel, universe);
    StartConsistent(look);
    RunSpec(look, Start, fuel);
    var e := Run(look, Start, fuel);
    var r := Script(cfg, fetch, fuel, sha, walk);
    if r.exit == Finished {
      var d := e.state.known;
      FinishedDict(d);
      FingerprintKeys(d.order, d.records, e.state.files, sha);
      forall k | k in r.known.records
        ensures var v := VisitedRecord(cfg, k);
                (!IsImmutable(v.saveName) ==> r.known.records[k] == v)
                && (IsImmutable(v.saveName) ==> exists h: Digest :: r.known.records[k] == Stamp(v, h))
      {
        assert k in d.order;
        FingerprintEach(d.order, d.records, e.state.files, sha, k);
      }
    }
  }

  /** A script that finishes has rewritten every page under the output directory: each
      `.html` file held valid UTF-8 after the fingerprint pass and now holds the encoding of
      its rewritten text; every other file keeps the bytes that pass left, and no file is
      added or removed. */
  lemma ScriptPages(cfg: Config, fetch: string -> Response, fuel: nat, sha: seq<byte> -> Digest, walk: Files -> seq<string>)
    requires ListsFiles(walk) && Script(cfg, fetch, fuel, sha, walk).exit == Finished
    ensures Run(Look(cfg, fetch), Start, fuel).outcome == Done
    ensures var p := Hashed(cfg, fetch, fuel, sha);
            var r := Script(cfg, fetch, fuel, sha, walk);
            r.files.Keys == p.files.Keys
            && AllDownloadedIn(r.known.order, r.known.records)
            && (forall q :: q in p.files && EndsWith(q, ".html") ==>
                  Valid(p.files[q]) && r.files[q] == Encode(RewriteHtml(cfg, Decode(p.files[q]), r.known.order, r.known.records)))
            && (forall q :: q in p.files && !EndsWith(q, ".html") ==> r.files[q] == p.files[q])
  {
    var look := Look(cfg, fetch);
    StartConsistent(look);
    RunSpec(look, Start, fuel);
    var e := Run(look, Start, fuel);
    var d := e.state.known;
    FinishedDict(d);
    FingerprintKeys(d.order, d.records, e.state.files, sha);
    var p := Hashed(cfg, fetch, fuel, sha);
    var r := Script(cfg, fetch, fuel, sha, walk);
    WalkListed(walk, p.files);
    var paths := walk(p.files);
    assert AllDownloadedIn(d.order, p.records);
    RewriteSiteKeys(cfg, p.files, paths, d.order, p.records);
    forall q | q in p.files && EndsWith(q, ".html")
      ensures Valid(p.files[q]) && r.files[q] == Encode(RewriteHtml(cfg, Decode(p.files[q]), d.order, p.records))
    {
      RewriteSitePages(cfg, p.files, paths, d.order, p.records, q);
    }
    forall q | q in p.files && !EndsWith(q, ".html")
      ensures r.files[q] == p.files[q]
    {
      RewriteSiteKeeps(cfg, p.files, paths, d.order, p.records, q);
    }
  }

  // ---------------------------------------------------------------------------------------
  // The script as it runs

  method Mirror(cfg: Config, fetch: string -> Response, fuel: nat, sha: seq<byte> -> Digest, walk: Files -> seq<string>)
    returns (exit: Exit, known: KnownLinks, files: Files)
    requires ListsFiles(walk)
    ensures Result(exit, known.Contents(), files) == Script(cfg, fetch, fuel, sha, walk)
  {
    ghost var look := Look(cfg, fetch);
    StartConsistent(look);
    RunSpec(look, Start, fuel);
    var outcome, fetched;
    outcome, known, files, fetched := CrawlSite(cfg, fetch, fuel);
    if outcome != Done {
      return CrawlStopped(outcome), known, files;
    }
    FinishedDict(known.Contents());
    ghost var crawled := known.Contents();
    FingerprintKeys(crawled.order, crawled.records, files, sha);
    var missing;
    files, missing := AddFingerprints(known, files, sha);
    if missing.Some? {
      return HashMissing(missing.value), known, files;
    }
    var undecodable;
    WalkListed(walk, files);
    files, undecodable := RewriteFiles(cfg, known, files, walk(files));
    exit := if undecodable.Some? then Undecodable(undecodable.value) else Finished;
  }
}
