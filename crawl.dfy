/** The crawl loop of the mirroring script: starting from a ledger that holds only `/`, it
    repeatedly takes the first path, in insertion order, that is not downloaded yet, asks the
    site for it, records the path's new name and save name, stores the response and, for a
    UTF-8 page, sanitises it, stores it and adds the links it holds to the ledger. The
    transport is a function from URL to response; the script's `while True` becomes a loop
    with a bound on the number of requests (`fuel`), so that the model always terminates.

    A turn of the loop is split in two: what the response tells the loop (`Analyse`, a
    `Turn`), and what the loop then does to its state (`Step`). The loop's own properties
    are proved for any function from path to turn, and hold for the script's one. */
module Crawl {
  import opened PyStr
  import opened Utf8
  import opened Names
  import opened Sanitizer
  import opened Links
  import opened Ledger

  /** The script's settings: the output directory, the site's address, the address the
      mirror is served from, and the address requests go to. */
  datatype Config = Config(getDir: string, currentBaseUrl: string, newBaseUrl: string, localAddress: string)

  /** What the transport answers: the status code, `response.encoding` and the body. */
  datatype Response = Response(status: int, encoding: string, content: seq<byte>)

  /** The files under the output directory, by path. */
  type Files = map<string, seq<byte>>

  /** What ends a run early. */
  datatype Failure =
    | BadStatus(url: string, status: int)       // the status-code assertion fails
    | NotUtf8(url: string)                      // `str(response.content, "utf-8")` raises
    | BadLinks(url: string, error: LinkError)   // `get_links` fails on the page

  datatype Outcome = Done | Failed(failure: Failure) | OutOfFuel

  /** The ledger, the files written so far, and the paths requested so far, in order. */
  datatype State = State(known: Dict, files: Files, fetched: seq<string>)

  const Start: State := State(Seed, map[], [])

  /** The page as it is saved and scanned: the four sanitisers over the site's address, then
      the escaped line breaks and tabs turned into real ones. */
  function CleanPage(base: string, text: string): string
  {
    var dropped := DropShortlink(base, DropAdminLink(DropWpJson(base, DropXmlrpc(base, text))));
    Replace(Replace(dropped, "\\r\\n", "\n"), "\\t", "\t")
  }

  /** `save_name = GET_DIR + build_save_name(build_new_name(path))` */
  function SaveName(cfg: Config, path: string): string
  {
    cfg.getDir + BuildSaveName(BuildNewName(path))
  }

  /** The record a visited path gets. */
  function VisitedRecord(cfg: Config, path: string): Record
  {
    Downloaded(BuildNewName(path), SaveName(cfg, path))
  }

  /** What one request tells the loop: a status other than 200 refuses the path; otherwise
      the path gets its names, a file may be stored, links may be found, and the turn may
      still fail. */
  datatype Turn =
    | Refused(refusal: Failure)
    | Answered(newName: string, saveName: string, stored: Option<seq<byte>>, links: seq<string>, failure: Option<Failure>)

  /** The body of the loop for one path, as far as the response decides it: the status
      assertion, the names, `str(response.content, "utf-8")` for a page declared UTF-8, the
      sanitised text written encoded as UTF-8 (or the body written as it came), and
      `get_links` on the sanitised text. */
  function Analyse(cfg: Config, path: string, resp: Response): Turn
  {
    var url := cfg.localAddress + path;
    if resp.status != 200 then Refused(BadStatus(url, resp.status))
    else
      var newName := BuildNewName(path);
      var saveName := SaveName(cfg, path);
      if resp.encoding != "UTF-8" then Answered(newName, saveName, Some(resp.content), [], None)
      else match DecodeStrict(resp.content)
        case None => Answered(newName, saveName, None, [], Some(NotUtf8(url)))
        case Some(text) =>
          var cleaned := CleanPage(cfg.currentBaseUrl, text);
          match GetLinks(cfg.currentBaseUrl, cleaned)
          case Err(e) => Answered(newName, saveName, Some(Encode(cleaned)), [], Some(BadLinks(url, e)))
          case Ok(links) => Answered(newName, saveName, Some(Encode(cleaned)), links, None)
  }

  /** The script's turns: each path is requested at `LOCAL_ADDRESS + path`. */
  function Look(cfg: Config, fetch: string -> Response): string -> Turn
  {
    p => Analyse(cfg, p, fetch(cfg.localAddress + p))
  }

  /** What a turn does to the state: the path is logged as requested; unless it was refused,
      it is marked downloaded with its names, the file is stored and the links are pushed. */
  function Step(s: State, path: string, t: Turn): State
  {
    match t
    case Refused(_) => State(s.known, s.files, s.fetched + [path])
    case Answered(newName, saveName, stored, links, _) =>
      State(Push(Set(s.known, path, Downloaded(newName, saveName)), links),
            if stored.Some? then s.files[saveName := stored.value] else s.files,
            s.fetched + [path])
  }

  datatype Ending = Ending(outcome: Outcome, state: State)

  /** The loop run for at most `fuel` more requests. */
  function Run(look: string -> Turn, s: State, fuel: nat): Ending
    decreases fuel
  {
    match FirstPending(s.known)
    case None => Ending(Done, s)
    case Some(path) =>
      if fuel == 0 then Ending(OutOfFuel, s)
      else
        var t := look(path);
        var next := Step(s, path, t);
        match t
        case Refused(f) => Ending(Failed(f), next)
        case Answered(_, _, _, _, failure) =>
          if failure.Some? then Ending(Failed(failure.value), next)
          else Run(look, next, fuel - 1)
  }

  /** What holds between turns: the ledger is well formed, no path was requested twice, the
      paths requested are exactly the downloaded keys, and each downloaded key carries the
      names its turn gave it. */
  ghost predicate Consistent(look: string -> Turn, s: State)
  {
    WellFormed(s.known) && Distinct(s.fetched)
    && (forall p :: p in s.fetched <==> p in DownloadedKeys(s.known))
    && (forall k :: k in s.known.records && s.known.records[k].Downloaded? ==>
          look(k).Answered? && s.known.records[k] == Downloaded(look(k).newName, look(k).saveName))
  }

  /** Every path of `universe` links only into `universe`. */
  ghost predicate Closed(look: string -> Turn, universe: set<string>)
  {
    forall p, l :: p in universe && look(p).Answered? && l in look(p).links ==> l in universe
  }

  // ---------------------------------------------------------------------------------------
  // What a response tells the loop

  /** The status assertion refuses exactly the responses other than 200; an answered path
      gets `build_new_name(path)` and a save name under the output directory. */
  lemma AnalyseNames(cfg: Config, path: string, resp: Response)
    ensures var t := Analyse(cfg, path, resp);
            (t.Refused? <==> resp.status != 200)
            && (t.Refused? ==> t.refusal == BadStatus(cfg.localAddress + path, resp.status))
            && (t.Answered? ==> Downloaded(t.newName, t.saveName) == VisitedRecord(cfg, path)
                                && |t.saveName| >= |cfg.getDir| && t.saveName[..|cfg.getDir|] == cfg.getDir)
  {
  }

  /** A page declared UTF-8: it is stored exactly when it decodes, and the stored bytes decode
      back to the sanitised text; the turn goes on exactly when, in addition, the links of
      the sanitised text can be extracted, and then its links are those `get_links` returns,
      one per occurrence of the site's address. A page that does not decode fails the turn
      as such, and one whose links cannot be extracted reports the error `get_links` gave. */
  lemma AnalysePage(cfg: Config, path: string, resp: Response)
    requires resp.status == 200 && resp.encoding == "UTF-8"
    ensures var t := Analyse(cfg, path, resp);
            t.Answered?
            && (t.stored.Some? <==> Valid(resp.content))
            && (t.stored.Some? ==> DecodeStrict(t.stored.value) == Some(CleanPage(cfg.currentBaseUrl, Decode(resp.content))))
            && (t.failure.None? <==> Valid(resp.content) && GetLinks(cfg.currentBaseUrl, CleanPage(cfg.currentBaseUrl, Decode(resp.content))).Ok?)
            && (t.failure.None? ==> t.links == GetLinks(cfg.currentBaseUrl, CleanPage(cfg.currentBaseUrl, Decode(resp.content))).value)
            && (t.failure.None? && |cfg.currentBaseUrl| > 0 ==>
                  |t.links| == Count(CleanPage(cfg.currentBaseUrl, Decode(resp.content)), cfg.currentBaseUrl))
            && (!Valid(resp.content) ==> t.failure == Some(NotUtf8(cfg.localAddress + path)))
            && (Valid(resp.content) && GetLinks(cfg.currentBaseUrl, CleanPage(cfg.currentBaseUrl, Decode(resp.content))).Err? ==>
                  t.failure == Some(BadLinks(cfg.localAddress + path, GetLinks(cfg.currentBaseUrl, CleanPage(cfg.currentBaseUrl, Decode(resp.content))).error)))
  {
    if Valid(resp.content) {
      var cleaned := CleanPage(cfg.currentBaseUrl, Decode(resp.content));
      DecodeEncode(cleaned);
      if GetLinks(cfg.currentBaseUrl, cleaned).Ok? && |cfg.currentBaseUrl| > 0 {
        LinkCount(cfg.currentBaseUrl, cleaned);
      }
    }
  }

  /** Anything not declared UTF-8 is stored as it came, adds no link and does not fail. */
  lemma AnalyseBinary(cfg: Config, path: string, resp: Response)
    requires resp.status == 200 && resp.encoding != "UTF-8"
    ensures var t := Analyse(cfg, path, resp);
            t.Answered? && t.stored == Some(resp.content) && t.links == [] && t.failure.None?
  {
  }

  // ---------------------------------------------------------------------------------------
  // One turn

  /** Whatever the turn, the ledger stays well formed, no key is removed, no record but the
      path's own changes, keys are added only as not downloaded, and the path is logged. */
  lemma StepKeeps(s: State, path: string, t: Turn)
    requires WellFormed(s.known) && path in s.known.records
    ensures var d, e := s.known, Step(s, path, t).known;
            WellFormed(e)
            && (forall k :: k in d.records ==> k in e.records)
            && (forall k :: k in d.records && k != path ==> e.records[k] == d.records[k])
            && (forall k :: k in e.records && k !in d.records ==> e.records[k] == Pending)
            && Step(s, path, t).fetched == s.fetched + [path]
  {
    if t.Answered? {
      var r := Downloaded(t.newName, t.saveName);
      SetSpec(s.known, path, r);
      PushSpec(Set(s.known, path, r), t.links);
    }
  }

  /** An answered turn on a pending path flips exactly that path to downloaded, with the
      turn's names, and makes every link it found a key. */
  lemma StepFlips(s: State, path: string, t: Turn)
    requires WellFormed(s.known) && path in s.known.records && s.known.records[path] == Pending && t.Answered?
    ensures var e := Step(s, path, t).known;
            DownloadedKeys(e) == DownloadedKeys(s.known) + {path}
            && e.records[path] == Downloaded(t.newName, t.saveName)
            && (forall l :: l in t.links ==> l in e.records)
  {
    var r := Downloaded(t.newName, t.saveName);
    var known := Set(s.known, path, r);
    SetSpec(s.known, path, r);
    SetDownloaded(s.known, path, r);
    PushDownloaded(known, t.links);
    PushKeeps(known, t.links);
    PushCovers(known, t.links);
  }

  /** The path a turn picks was not requested before. */
  lemma StepFresh(look: string -> Turn, s: State, path: string)
    requires Consistent(look, s) && FirstPending(s.known) == Some(path)
    ensures path in s.known.records && s.known.records[path] == Pending
    ensures path !in s.fetched && Distinct(s.fetched + [path])
  {
    FirstPendingSpec(s.known);
    DistinctAppend(s.fetched, path);
  }

  /** A turn on the first pending path that is answered keeps the invariant. */
  lemma StepConsistent(look: string -> Turn, s: State, path: string)
    requires Consistent(look, s) && FirstPending(s.known) == Some(path) && look(path).Answered?
    ensures Consistent(look, Step(s, path, look(path)))
  {
    StepFresh(look, s, path);
    StepKeeps(s, path, look(path));
    StepFlips(s, path, look(path));
  }

  lemma DistinctAppend(s: seq<string>, x: string)
    requires Distinct(s) && x !in s
    ensures Distinct(s + [x])
  {
  }

  // ---------------------------------------------------------------------------------------
  // The whole loop

  /** What the loop promises: it stops with `Done` only when every key is downloaded; no
      path is requested twice, even by the turn that fails; keys are never removed and a
      downloaded record never changes; at most `fuel` requests are made; and a run that did
      not fail keeps the invariant. */
  lemma RunSpec(look: string -> Turn, s: State, fuel: nat)
    requires Consistent(look, s)
    ensures var e := Run(look, s, fuel);
            (e.outcome == Done ==> AllDownloaded(e.state.known))
            && (!e.outcome.Failed? ==> Consistent(look, e.state))
            && Distinct(e.state.fetched)
            && |s.fetched| <= |e.state.fetched| <= |s.fetched| + fuel
            && e.state.fetched[..|s.fetched|] == s.fetched
            && (forall k :: k in s.known.records ==> k in e.state.known.records)
            && (forall k :: k in s.known.records && s.known.records[k].Downloaded? ==> e.state.known.records[k] == s.known.records[k])
  {
    RunEnds(look, s, fuel);
    RunFetched(look, s, fuel);
    RunKeeps(look, s, fuel);
  }

  /** A run that does not fail keeps the invariant, and one that is done has downloaded
      every key. */
  lemma {:induction false} RunEnds(look: string -> Turn, s: State, fuel: nat)
    requires Consistent(look, s)
    ensures var e := Run(look, s, fuel);
            (e.outcome == Done ==> AllDownloaded(e.state.known))
            && (!e.outcome.Failed? ==> Consistent(look, e.state))
    decreases fuel
  {
    FirstPendingSpec(s.known);
    match FirstPending(s.known)
    case None =>
    case Some(path) =>
      if fuel > 0 && look(path).Answered? && look(path).failure.None? {
        StepConsistent(look, s, path);
        RunEnds(look, Step(s, path, look(path)), fuel - 1);
      }
  }

  /** No path is requested twice, even by the turn that fails, and each turn makes one
      request. */
  lemma {:induction false} RunFetched(look: string -> Turn, s: State, fuel: nat)
    requires Consistent(look, s)
    ensures var e := Run(look, s, fuel);
            Distinct(e.state.fetched)
            && |s.fetched| <= |e.state.fetched| <= |s.fetched| + fuel
            && e.state.fetched[..|s.fetched|] == s.fetched
    decreases fuel
  {
    match FirstPending(s.known)
    case None =>
    case Some(path) =>
      if fuel > 0 {
        StepFresh(look, s, path);
        var next := Step(s, path, look(path));
        assert next.fetched == s.fetched + [path];
        if look(path).Answered? && look(path).failure.None? {
          StepConsistent(look, s, path);
          RunFetched(look, next, fuel - 1);
          PrefixOfAppend(s.fetched, path, Run(look, next, fuel - 1).state.fetched);
        } else {
          assert next.fetched[..|s.fetched|] == s.fetched;
        }
      }
  }

  /** Keys are never removed and a downloaded record never changes. */
  lemma {:induction false} RunKeeps(look: string -> Turn, s: State, fuel: nat)
    requires Consistent(look, s)
    ensures var e := Run(look, s, fuel);
            (forall k :: k in s.known.records ==> k in e.state.known.records)
            && (forall k :: k in s.known.records && s.known.records[k].Downloaded? ==> e.state.known.records[k] == s.known.records[k])
    decreases fuel
  {
    match FirstPending(s.known)
    case None =>
    case Some(path) =>
      if fuel > 0 {
        StepFresh(look, s, path);
        StepKeeps(s, path, look(path));
        if look(path).Answered? && look(path).failure.None? {
          StepConsistent(look, s, path);
          RunKeeps(look, Step(s, path, look(path)), fuel - 1);
        }
      }
  }

  /** An answered turn that does not fail leaves the rest of the run to the next state. */
  lemma RunStep(look: string -> Turn, s: State, fuel: nat, path: string)
    requires FirstPending(s.known) == Some(path) && fuel > 0
    requires look(path).Answered? && look(path).failure.None?
    ensures Run(look, s, fuel) == Run(look, Step(s, path, look(path)), fuel - 1)
  {
  }

  lemma PrefixOfAppend(a: seq<string>, x: string, c: seq<string>)
    requires |a| + 1 <= |c| && c[..|a| + 1] == a + [x]
    ensures c[..|a|] == a
  {
    assert c[..|a|] == c[..|a| + 1][..|a|];
    assert (a + [x])[..|a|] == a;
  }

  /** The starting state satisfies the invariant, whatever the turns. */
  lemma StartConsistent(look: string -> Turn)
    ensures Consistent(look, Start)
  {
    SeedSpec();
  }

  /** A part of a set missing one of its members is smaller. */
  lemma SmallerSubset(a: set<string>, u: set<string>, x: string)
    requires a <= u && x in u && x !in a
    ensures |a| < |u|
  {
    var b := a + {x};
    var c := u - b;
    assert u == b + c;
    assert b * c == {};
    assert |b| == |a| + 1;
  }

  /** When every page in a finite set of paths links only into that set, a run from a
      ledger inside the set, given one request per path not yet downloaded, never runs out
      of fuel: the loop ends with `Done` or with a failure. */
  lemma {:induction false} RunFinishes(look: string -> Turn, s: State, fuel: nat, universe: set<string>)
    requires Consistent(look, s) && Closed(look, universe)
    requires forall k :: k in s.known.records ==> k in universe
    requires fuel + |DownloadedKeys(s.known)| >= |universe|
    ensures Run(look, s, fuel).outcome != OutOfFuel
    decreases fuel
  {
    match FirstPending(s.known)
    case None =>
    case Some(path) =>
      FinishStep(look, s, fuel, universe, path);
      if look(path).Answered? && look(path).failure.None? {
        RunStep(look, s, fuel, path);
        RunFinishes(look, Step(s, path, look(path)), fuel - 1, universe);
      }
  }

  /** One turn of a run inside a closed set: there is fuel for it, and an answered turn
      that goes on keeps the run inside the set with one more path downloaded. */
  lemma FinishStep(look: string -> Turn, s: State, fuel: nat, universe: set<string>, path: string)
    requires Consistent(look, s) && Closed(look, universe) && FirstPending(s.known) == Some(path)
    requires forall k :: k in s.known.records ==> k in universe
    requires fuel + |DownloadedKeys(s.known)| >= |universe|
    ensures fuel > 0
    ensures look(path).Answered? && look(path).failure.None? ==>
              var next := Step(s, path, look(path));
              Consistent(look, next) && (forall k :: k in next.known.records ==> k in universe)
              && fuel - 1 + |DownloadedKeys(next.known)| >= |universe|
  {
    StepFresh(look, s, path);
    var done := DownloadedKeys(s.known);
    assert path !in done;
    SmallerSubset(done, universe, path);
    if look(path).Answered? && look(path).failure.None? {
      var next := Step(s, path, look(path));
      StepConsistent(look, s, path);
      StepFlips(s, path, look(path));
      assert |DownloadedKeys(next.known)| == |done| + 1;
      StepStaysInside(look, s, path, universe);
    }
  }

  /** A turn on a path of a closed set adds only keys of that set. */
  lemma StepStaysInside(look: string -> Turn, s: State, path: string, universe: set<string>)
    requires WellFormed(s.known) && Closed(look, universe) && path in universe && path in s.known.records
    requires forall k :: k in s.known.records ==> k in universe
    ensures forall k :: k in Step(s, path, look(path)).known.records ==> k in universe
  {
    var t := look(path);
    if t.Answered? {
      var r := Downloaded(t.newName, t.saveName);
      SetSpec(s.known, path, r);
      PushSpec(Set(s.known, path, r), t.links);
    }
  }

  /** The script's crawl, from `{'/': not downloaded}`: with a closed set of `n` paths that
      holds `/`, `n` requests are enough to finish, and a finished crawl has requested every
      key exactly once and recorded for each the names computed from it. */
  lemma CrawlFinishes(cfg: Config, fetch: string -> Response, fuel: nat, universe: set<string>)
    requires Closed(Look(cfg, fetch), universe) && "/" in universe && fuel >= |universe|
    ensures var e := Run(Look(cfg, fetch), Start, fuel);
            e.outcome != OutOfFuel
            && (e.outcome == Done ==>
                  AllDownloaded(e.state.known) && Distinct(e.state.fetched)
                  && (forall p :: p in e.state.fetched <==> p in e.state.known.records)
                  && (forall k :: k in e.state.known.records ==> e.state.known.records[k] == VisitedRecord(cfg, k)))
  {
    var look := Look(cfg, fetch);
    StartConsistent(look);
    RunFinishes(look, Start, fuel, universe);
    RunSpec(look, Start, fuel);
    var e := Run(look, Start, fuel);
    if e.outcome == Done {
      forall k | k in e.state.known.records ensures e.state.known.records[k] == VisitedRecord(cfg, k) {
        AnalyseNames(cfg, k, fetch(cfg.localAddress + k));
      }
    }
  }

  // ---------------------------------------------------------------------------------------
  // The loop as the script runs it

  /** What ends the run after a turn, if anything. */
  function Stop(t: Turn): Option<Failure>
  {
    match t
    case Refused(f) => Some(f)
    case Answered(_, _, _, _, failure) => failure
  }

  /** One turn that does not end the run leaves the rest of the run to the next state; one
      that ends it ends with the next state. */
  lemma RunTurn(look: string -> Turn, s: State, fuel: nat, path: string)
    requires FirstPending(s.known) == Some(path) && fuel > 0
    ensures var next := Step(s, path, look(path));
            Run(look, s, fuel) == if Stop(look(path)).Some? then Ending(Failed(Stop(look(path)).value), next)
                                  else Run(look, next, fuel - 1)
  {
  }

  /** The body of the loop for one path, on the dict in place: the request, the status
      assertion, the record, and the file and links of the response. */
  method Visit(cfg: Config, fetch: string -> Response, known: KnownLinks, files: Files, fetched: seq<string>, path: string)
    returns (failure: Option<Failure>, newFiles: Files, newFetched: seq<string>)
    modifies known
    ensures var t := Analyse(cfg, path, fetch(cfg.localAddress + path));
            State(known.Contents(), newFiles, newFetched) == Step(State(old(known.Contents()), files, fetched), path, t)
            && failure == Stop(t)
  {
    var url := cfg.localAddress + path;
    var resp := fetch(url);
    newFetched := fetched + [path];
    newFiles := files;
    if resp.status != 200 {
      return Some(BadStatus(url, resp.status)), newFiles, newFetched;
    }
    var newName := BuildNewName(path);
    var saveName := cfg.getDir + BuildSaveName(newName);
    known.Assign(path, Downloaded(newName, saveName));
    if resp.encoding == "UTF-8" {
      var text := DecodeStrict(resp.content);
      if text.None? {
        return Some(NotUtf8(url)), newFiles, newFetched;
      }
      var cleaned := CleanPage(cfg.currentBaseUrl, text.value);
      newFiles := files[saveName := Encode(cleaned)];
      var links := CollectLinks(cfg.currentBaseUrl, cleaned);
      if links.Err? {
        return Some(BadLinks(url, links.error)), newFiles, newFetched;
      }
      known.PushLinks(links.value);
    } else {
      newFiles := files[saveName := resp.content];
    }
    failure := None;
  }

  /** The crawl loop: the ledger is one dict updated in place, the files a map updated as
      they are written. */
  method CrawlSite(cfg: Config, fetch: string -> Response, fuel: nat)
    returns (outcome: Outcome, known: KnownLinks, files: Files, fetched: seq<string>)
    ensures fresh(known)
    ensures Ending(outcome, State(known.Contents(), files, fetched)) == Run(Look(cfg, fetch), Start, fuel)
    ensures outcome == Done ==> AllDownloaded(known.Contents())
    ensures Distinct(fetched) && |fetched| <= fuel
  {
    ghost var look := Look(cfg, fetch);
    known := new KnownLinks();
    files := map[];
    fetched := [];
    StartConsistent(look);
    RunSpec(look, Start, fuel);
    var steps: nat := 0;
    while true
      invariant steps <= fuel
      invariant fresh(known)
      invariant WellFormed(known.Contents())
      invariant Run(look, Start, fuel) == Run(look, State(known.Contents(), files, fetched), fuel - steps)
      decreases fuel - steps
    {
      ghost var s := State(known.Contents(), files, fetched);
      var next := known.NextToGet();
      if next.None? {
        outcome := Done;
        return;
      }
      if steps == fuel {
        outcome := OutOfFuel;
        return;
      }
      var path := next.value;
      RunTurn(look, s, fuel - steps, path);
      StepKeeps(s, path, look(path));
      var failure;
      failure, files, fetched := Visit(cfg, fetch, known, files, fetched, path);
      if failure.Some? {
        outcome := Failed(failure.value);
        return;
      }
      steps := steps + 1;
    }
  }
}
