/** The crawl ledger `known_links_d`: a Python dict from path to record. A dict iterates in
    insertion order and an assignment to a key it already holds keeps that key's place, so
    the ledger is the order in which keys arrived together with the map of records. */
module Ledger {
  import opened Utf8

  /** `{'downloaded': False}`, or `{'downloaded': True, 'newName': ..., 'saveName': ...}`. */
  datatype Record = Pending | Downloaded(newName: string, saveName: string)

  datatype Dict = Dict(order: seq<string>, records: map<string, Record>)

  predicate Distinct(s: seq<string>)
  {
    forall i, j :: 0 <= i < j < |s| ==> s[i] != s[j]
  }

  /** The order lists every key exactly once. */
  ghost predicate WellFormed(d: Dict)
  {
    (forall k :: k in d.records <==> k in d.order) && Distinct(d.order)
  }

  /** `{'/': {'downloaded': False}}` */
  const Seed: Dict := Dict(["/"], map["/" := Pending])

  /** `d[k] = r` */
  function Set(d: Dict, k: string, r: Record): Dict
  {
    if k in d.records then Dict(d.order, d.records[k := r]) else Dict(d.order + [k], d.records[k := r])
  }

  /** `push_links(d, links)`: each link not yet a key is added as not downloaded; a link
      already known, visited or not, is left alone. */
  function Push(d: Dict, links: seq<string>): Dict
    decreases |links|
  {
    if links == [] then d
    else Push(PushOne(d, links[0]), links[1..])
  }

  /** The first key, in insertion order, whose record is not downloaded. */
  function FirstPendingIn(order: seq<string>, records: map<string, Record>): Option<string>
  {
    if order == [] then None
    else if order[0] in records && records[order[0]].Pending? then Some(order[0])
    else FirstPendingIn(order[1..], records)
  }

  /** `[l for l in d if d[l]['downloaded'] == False]`, first element, if any. */
  function FirstPending(d: Dict): Option<string>
  {
    FirstPendingIn(d.order, d.records)
  }

  predicate AllDownloaded(d: Dict)
  {
    forall k :: k in d.records ==> d.records[k].Downloaded?
  }

  /** The keys already visited. */
  function DownloadedKeys(d: Dict): set<string>
  {
    set k | k in d.records && d.records[k].Downloaded?
  }

  // ---------------------------------------------------------------------------------------
  // Properties

  /** An assignment keeps the ledger well formed. The two equations only unfold `Set`: a new
      key goes last, a known key keeps its place, and nothing but `k` changes. */
  lemma SetSpec(d: Dict, k: string, r: Record)
    requires WellFormed(d)
    ensures WellFormed(Set(d, k, r))
    ensures Set(d, k, r).records == d.records[k := r]
    ensures Set(d, k, r).order == if k in d.records then d.order else d.order + [k]
  {
    var e := Set(d, k, r);
    if k !in d.records {
      assert forall x :: x in e.order <==> x in d.order || x == k;
    }
  }

  /** What `push_links` promises: every link becomes a key; keys that were there keep their
      records; the keys it adds are links, are not downloaded, and come after the old keys
      in the order of their first appearance among the links; no key is removed. */
  lemma PushSpec(d: Dict, links: seq<string>)
    requires WellFormed(d)
    ensures var e := Push(d, links);
            WellFormed(e)
            && (forall l :: l in links ==> l in e.records)
            && (forall k :: k in d.records ==> k in e.records && e.records[k] == d.records[k])
            && (forall k :: k in e.records && k !in d.records ==> k in links && e.records[k] == Pending)
            && |d.order| <= |e.order| && e.order[..|d.order|] == d.order
            && e.order == d.order + Fresh(d.records.Keys, links)
  {
    PushAppends(d, links);
    PushWellFormed(d, links);
    PushKeeps(d, links);
    PushCovers(d, links);
    PushAdds(d, links);
    PushOrder(d, links);
  }

  /** The links that are not in `known`, each once, in the order of their first
      appearance. */
  function Fresh(known: set<string>, links: seq<string>): (r: seq<string>)
    ensures Distinct(r)
    ensures forall x :: x in r <==> x in links && x !in known
    decreases |links|
  {
    if links == [] then []
    else if links[0] in known then Fresh(known, links[1..])
    else
      var rest := Fresh(known + {links[0]}, links[1..]);
      assert links[0] !in rest;
      [links[0]] + rest
  }

  /** The keys `push_links` adds are appended in the order `Fresh` lists them. */
  lemma {:induction false} PushAppends(d: Dict, links: seq<string>)
    ensures Push(d, links).order == d.order + Fresh(d.records.Keys, links)
    decreases |links|
  {
    if links != [] {
      var l := links[0];
      PushUnfold(d, links);
      PushAppends(PushOne(d, l), links[1..]);
      if l !in d.records {
        assert PushOne(d, l).records.Keys == d.records.Keys + {l};
        assert d.order + [l] + Fresh(d.records.Keys + {l}, links[1..])
               == d.order + ([l] + Fresh(d.records.Keys + {l}, links[1..]));
      }
    }
  }

  /** One turn of the loop: `l` is added unless it is already a key. */
  function PushOne(d: Dict, l: string): Dict
  {
    if l in d.records then d else Set(d, l, Pending)
  }

  lemma PushUnfold(d: Dict, links: seq<string>)
    requires links != []
    ensures Push(d, links) == Push(PushOne(d, links[0]), links[1..])
  {
  }

  lemma {:induction false} PushWellFormed(d: Dict, links: seq<string>)
    requires WellFormed(d)
    ensures WellFormed(Push(d, links))
    decreases |links|
  {
    if links != [] {
      SetSpec(d, links[0], Pending);
      PushUnfold(d, links);
      PushWellFormed(PushOne(d, links[0]), links[1..]);
    }
  }

  lemma {:induction false} PushKeeps(d: Dict, links: seq<string>)
    ensures forall k :: k in d.records ==> k in Push(d, links).records && Push(d, links).records[k] == d.records[k]
    decreases |links|
  {
    if links != [] {
      PushUnfold(d, links);
      PushKeeps(PushOne(d, links[0]), links[1..]);
    }
  }

  lemma {:induction false} PushCovers(d: Dict, links: seq<string>)
    ensures forall l :: l in links ==> l in Push(d, links).records
    decreases |links|
  {
    if links != [] {
      var d1 := PushOne(d, links[0]);
      PushUnfold(d, links);
      PushCovers(d1, links[1..]);
      PushKeeps(d1, links[1..]);
      assert forall l :: l in links ==> l == links[0] || l in links[1..];
    }
  }

  lemma {:induction false} PushAdds(d: Dict, links: seq<string>)
    ensures var e := Push(d, links);
            forall k :: k in e.records && k !in d.records ==> k in links && e.records[k] == Pending
    decreases |links|
  {
    if links != [] {
      var d1 := PushOne(d, links[0]);
      PushUnfold(d, links);
      PushAdds(d1, links[1..]);
      PushKeeps(d1, links[1..]);
    }
  }

  lemma {:induction false} PushOrder(d: Dict, links: seq<string>)
    ensures |d.order| <= |Push(d, links).order| && Push(d, links).order[..|d.order|] == d.order
    decreases |links|
  {
    if links != [] {
      var d1 := PushOne(d, links[0]);
      PushUnfold(d, links);
      PushOrder(d1, links[1..]);
      var o := Push(d, links).order;
      assert o[..|d.order|] == o[..|d1.order|][..|d.order|];
    }
  }

  /** Pushing the links of a page changes no downloaded record and marks none downloaded. */
  lemma PushDownloaded(d: Dict, links: seq<string>)
    requires WellFormed(d)
    ensures DownloadedKeys(Push(d, links)) == DownloadedKeys(d)
  {
    PushSpec(d, links);
  }

  /** Marking a pending key downloaded adds exactly that key to the downloaded ones. */
  lemma SetDownloaded(d: Dict, k: string, r: Record)
    requires k in d.records && d.records[k] == Pending && r.Downloaded?
    ensures DownloadedKeys(Set(d, k, r)) == DownloadedKeys(d) + {k}
  {
    var e := Set(d, k, r);
    assert e.records == d.records[k := r];
    forall x ensures x in DownloadedKeys(e) <==> x in DownloadedKeys(d) || x == k {
    }
  }

  /** The first pending key: none exactly when every record is downloaded; otherwise a
      pending key with every key before it in the order downloaded. */
  lemma {:induction false} FirstPendingInSpec(order: seq<string>, records: map<string, Record>)
    requires forall k :: k in order ==> k in records
    ensures FirstPendingIn(order, records).None? <==> forall i :: 0 <= i < |order| ==> records[order[i]].Downloaded?
    ensures FirstPendingIn(order, records).Some? ==>
              exists i :: 0 <= i < |order| && order[i] == FirstPendingIn(order, records).value
                          && records[order[i]].Pending?
                          && forall j :: 0 <= j < i ==> records[order[j]].Downloaded?
    decreases |order|
  {
    if order != [] && !records[order[0]].Pending? {
      var rest := order[1..];
      FirstPendingInSpec(rest, records);
      assert forall i :: 1 <= i < |order| ==> order[i] == rest[i - 1];
      if FirstPendingIn(rest, records).Some? {
        var i :| 0 <= i < |rest| && rest[i] == FirstPendingIn(rest, records).value
                 && records[rest[i]].Pending? && forall j :: 0 <= j < i ==> records[rest[j]].Downloaded?;
        assert order[i + 1] == rest[i];
      }
    } else if order != [] {
      assert order[0] == FirstPendingIn(order, records).value;
    }
  }

  /** The loop's choice: with no pending key the crawl is over; otherwise the key chosen is
      pending and is the first such key in insertion order. */
  lemma FirstPendingSpec(d: Dict)
    requires WellFormed(d)
    ensures FirstPending(d).None? <==> AllDownloaded(d)
    ensures FirstPending(d).Some? ==>
              FirstPending(d).value in d.records && d.records[FirstPending(d).value] == Pending
              && exists i :: 0 <= i < |d.order| && d.order[i] == FirstPending(d).value
                             && forall j :: 0 <= j < i ==> d.records[d.order[j]].Downloaded?
  {
    FirstPendingInSpec(d.order, d.records);
    if FirstPending(d).None? {
      forall k | k in d.records ensures d.records[k].Downloaded? {
        var i :| 0 <= i < |d.order| && d.order[i] == k;
      }
    }
  }

  /** The ledger the crawl starts from. */
  lemma SeedSpec()
    ensures WellFormed(Seed)
    ensures FirstPending(Seed) == Some("/")
    ensures DownloadedKeys(Seed) == {}
  {
  }

  // ---------------------------------------------------------------------------------------
  // The ledger as the script holds it: one dict, updated in place

  class KnownLinks {
    var order: seq<string>
    var records: map<string, Record>

    function Contents(): Dict
      reads this
    {
      Dict(order, records)
    }

    /** `known_links_d = {'/': {'downloaded': False}}` */
    constructor ()
      ensures Contents() == Seed
    {
      order := ["/"];
      records := map["/" := Pending];
    }

    /** `known_links_d[k] = r` */
    method Assign(k: string, r: Record)
      modifies this
      ensures Contents() == Set(old(Contents()), k, r)
    {
      if k !in records {
        order := order + [k];
      }
      records := records[k := r];
    }

    /** `push_links(known_links_d, links)`, updating the dict in place. */
    method PushLinks(links: seq<string>)
      modifies this
      ensures Contents() == Push(old(Contents()), links)
    {
      var i := 0;
      while i < |links|
        invariant 0 <= i <= |links|
        invariant Push(old(Contents()), links) == Push(Contents(), links[i..])
      {
        assert links[i..][0] == links[i] && links[i..][1..] == links[i + 1..];
        if links[i] !in records {
          Assign(links[i], Pending);
        }
        i := i + 1;
      }
    }

    /** `links_to_get[0]` when `links_to_get` is not empty: a scan of the keys in insertion
        order for the first record not downloaded. */
    method NextToGet() returns (r: Option<string>)
      requires WellFormed(Contents())
      ensures r == FirstPending(Contents())
      ensures r.None? <==> AllDownloaded(Contents())
      ensures r.Some? ==> r.value in records && records[r.value] == Pending
    {
      FirstPendingSpec(Contents());
      var i := 0;
      while i < |order|
        invariant 0 <= i <= |order|
        invariant FirstPendingIn(order, records) == FirstPendingIn(order[i..], records)
      {
        assert order[i..][1..] == order[i + 1..];
        if records[order[i]].Pending? {
          return Some(order[i]);
        }
        i := i + 1;
      }
      return None;
    }
  }
}
