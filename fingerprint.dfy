/** The fingerprint pass that follows the crawl: every downloaded asset whose save name ends
    in one of the immutable extensions gets the SHA-256 of its content spliced in front of
    its extension, in its save name and in its new name, and its file is renamed to match.
    The hash function is a parameter; what the model keeps of it is that it yields 64
    lower-case hexadecimal digits, as `hexdigest()` does. */
module Fingerprinting {
  import opened Utf8
  import opened PyStr
  import opened Names
  import opened Ledger
  import opened Crawl

  predicate IsHexDigit(c: char)
  {
    '0' <= c <= '9' || 'a' <= c <= 'f'
  }

  /** What `hashlib.sha256(...).hexdigest()` returns. */
  type Digest = h: string | |h| == 64 && forall c :: c in h ==> IsHexDigit(c)
    witness Zeros(64)

  function Zeros(n: nat): (r: string)
    ensures |r| == n && forall c :: c in r ==> c == '0'
  {
    if n == 0 then "" else "0" + Zeros(n - 1)
  }

  /** A record with a hash spliced into both of its names. */
  function Stamp(r: Record, h: string): Record
    requires r.Downloaded?
  {
    Downloaded(SpliceHash(r.newName, h), SpliceHash(r.saveName, h))
  }

  /** `os.rename(src, dst)`: the content moves to `dst`, replacing what was there. */
  function Rename(files: Files, src: string, dst: string): (r: Files)
    requires src in files
    ensures dst in r && r[dst] == files[src]
    ensures src != dst ==> src !in r
    ensures forall n :: n in files && n != src && n != dst ==> n in r && r[n] == files[n]
    ensures forall n :: n in r ==> n in files || n == dst
  {
    (files - {src})[dst := files[src]]
  }

  /** Every key of `order` holds a downloaded record. */
  ghost predicate AllDownloadedIn(order: seq<string>, records: map<string, Record>)
  {
    forall i :: 0 <= i < |order| ==> order[i] in records && records[order[i]].Downloaded?
  }

  /** Where the pass stops: the records and files it leaves, and the save name whose file
      was missing (`FileNotFoundError` from `sha256sum`), if any. */
  datatype Pass = Pass(records: map<string, Record>, files: Files, missing: Option<string>)

  /** The pass over the keys in `order`, in that order. */
  function Fingerprint(order: seq<string>, records: map<string, Record>, files: Files, sha: seq<byte> -> Digest): Pass
    requires AllDownloadedIn(order, records)
    decreases |order|
  {
    if order == [] then Pass(records, files, None)
    else
      var k := order[0];
      var r := records[k];
      if !IsImmutable(r.saveName) then Fingerprint(order[1..], records, files, sha)
      else if r.saveName !in files then Pass(records, files, Some(r.saveName))
      else
        var h := sha(files[r.saveName]);
        var records' := records[k := Stamp(r, h)];
        assert AllDownloadedIn(order[1..], records');
        Fingerprint(order[1..], records', Rename(files, r.saveName, SpliceHash(r.saveName, h)), sha)
  }

  // ---------------------------------------------------------------------------------------
  // Properties

  /** The pass changes no key, and a downloaded record stays downloaded. */
  lemma {:induction false} FingerprintKeys(order: seq<string>, records: map<string, Record>, files: Files, sha: seq<byte> -> Digest)
    requires AllDownloadedIn(order, records)
    ensures var p := Fingerprint(order, records, files, sha);
            p.records.Keys == records.Keys
            && forall k :: k in records && records[k].Downloaded? ==> p.records[k].Downloaded?
    decreases |order|
  {
    if order != [] {
      var r := records[order[0]];
      if IsImmutable(r.saveName) && r.saveName in files {
        var h := sha(files[r.saveName]);
        FingerprintKeys(order[1..], records[order[0] := Stamp(r, h)], Rename(files, r.saveName, SpliceHash(r.saveName, h)), sha);
      } else {
        FingerprintKeys(order[1..], records, files, sha);
      }
    }
  }

  /** A key the pass does not visit keeps its record. */
  lemma {:induction false} FingerprintOthers(order: seq<string>, records: map<string, Record>, files: Files, sha: seq<byte> -> Digest, k: string)
    requires AllDownloadedIn(order, records) && k in records && k !in order
    ensures var p := Fingerprint(order, records, files, sha);
            k in p.records && p.records[k] == records[k]
    decreases |order|
  {
    if order != [] {
      var r := records[order[0]];
      assert k != order[0] && k !in order[1..];
      if IsImmutable(r.saveName) && r.saveName in files {
        var h := sha(files[r.saveName]);
        FingerprintOthers(order[1..], records[order[0] := Stamp(r, h)], Rename(files, r.saveName, SpliceHash(r.saveName, h)), sha, k);
      } else {
        FingerprintOthers(order[1..], records, files, sha, k);
      }
    }
  }

  /** A pass that finds every file it needs leaves each record that is not an asset as it
      was, and gives each asset's two names one same digest. */
  lemma {:induction false} FingerprintEach(order: seq<string>, records: map<string, Record>, files: Files, sha: seq<byte> -> Digest, k: string)
    requires AllDownloadedIn(order, records) && Distinct(order) && k in order
    requires Fingerprint(order, records, files, sha).missing.None?
    ensures var p := Fingerprint(order, records, files, sha);
            k in p.records
            && (!IsImmutable(records[k].saveName) ==> p.records[k] == records[k])
            && (IsImmutable(records[k].saveName) ==> exists h: Digest :: p.records[k] == Stamp(records[k], h))
    decreases |order|
  {
    var r := records[order[0]];
    assert Distinct(order[1..]);
    if k == order[0] {
      assert k !in order[1..];
      if IsImmutable(r.saveName) {
        var h := sha(files[r.saveName]);
        FingerprintOthers(order[1..], records[k := Stamp(r, h)], Rename(files, r.saveName, SpliceHash(r.saveName, h)), sha, k);
      } else {
        FingerprintOthers(order[1..], records, files, sha, k);
      }
    } else {
      assert k in order[1..];
      if IsImmutable(r.saveName) {
        var h := sha(files[r.saveName]);
        FingerprintEach(order[1..], records[order[0] := Stamp(r, h)], Rename(files, r.saveName, SpliceHash(r.saveName, h)), sha, k);
      } else {
        FingerprintEach(order[1..], records, files, sha, k);
      }
    }
  }

  /** No rename of the pass can touch a file it reads later: each key's save name differs
      from the save names of the keys before it and from every name one of them could be
      renamed to. */
  ghost predicate Apart(order: seq<string>, records: map<string, Record>)
    requires AllDownloadedIn(order, records)
  {
    (forall i, j :: 0 <= i < j < |order| ==> records[order[j]].saveName != records[order[i]].saveName)
    && forall i, j, h: Digest :: 0 <= i < j < |order| ==>
         records[order[j]].saveName != SpliceHash(records[order[i]].saveName, h)
  }

  /** The keys after the first stay apart when the first key's record changes. */
  lemma ApartTail(order: seq<string>, records: map<string, Record>, records': map<string, Record>)
    requires AllDownloadedIn(order, records) && Distinct(order) && Apart(order, records) && |order| > 0
    requires order[0] in records' && records' == records[order[0] := records'[order[0]]]
    ensures AllDownloadedIn(order[1..], records') && Apart(order[1..], records')
  {
    forall i | 0 <= i < |order[1..]|
      ensures order[1..][i] in records' && records'[order[1..][i]] == records[order[i + 1]]
    {
      assert order[i + 1] != order[0];
    }
    forall i, j | 0 <= i < j < |order[1..]|
      ensures records'[order[1..][j]].saveName != records'[order[1..][i]].saveName
    {
      assert records[order[j + 1]].saveName != records[order[i + 1]].saveName;
    }
    forall i, j, h: Digest | 0 <= i < j < |order[1..]|
      ensures records'[order[1..][j]].saveName != SpliceHash(records'[order[1..][i]].saveName, h)
    {
      assert records[order[j + 1]].saveName != SpliceHash(records[order[i + 1]].saveName, h);
    }
  }

  /** When no rename gets in the way, the digest an asset carries is the hash of the bytes
      its file held when the crawl ended. */
  lemma {:induction false} FingerprintHashes(order: seq<string>, records: map<string, Record>, files: Files, sha: seq<byte> -> Digest, k: string)
    requires AllDownloadedIn(order, records) && Distinct(order) && Apart(order, records)
    requires k in order && IsImmutable(records[k].saveName)
    requires Fingerprint(order, records, files, sha).missing.None?
    ensures var p := Fingerprint(order, records, files, sha);
            records[k].saveName in files && k in p.records
            && p.records[k] == Stamp(records[k], sha(files[records[k].saveName]))
    decreases |order|
  {
    var r := records[order[0]];
    assert Distinct(order[1..]);
    if k == order[0] {
      assert k !in order[1..];
      var h := sha(files[r.saveName]);
      FingerprintOthers(order[1..], records[k := Stamp(r, h)], Rename(files, r.saveName, SpliceHash(r.saveName, h)), sha, k);
    } else {
      assert k in order[1..];
      if IsImmutable(r.saveName) {
        var h := sha(files[r.saveName]);
        var records' := records[order[0] := Stamp(r, h)];
        var files' := Rename(files, r.saveName, SpliceHash(r.saveName, h));
        ApartTail(order, records, records');
        var j :| 0 < j < |order| && order[j] == k;
        assert records[k].saveName != r.saveName && records[k].saveName != SpliceHash(r.saveName, h) by {
          assert records[order[j]].saveName != records[order[0]].saveName;
          assert records[order[j]].saveName != SpliceHash(records[order[0]].saveName, h);
        }
        assert records'[k] == records[k];
        FingerprintHashes(order[1..], records', files', sha, k);
      } else {
        ApartTail(order, records, records);
        FingerprintHashes(order[1..], records, files, sha, k);
      }
    }
  }

  /** The pass stops only on an asset whose file is not there. */
  lemma {:induction false} FingerprintMissing(order: seq<string>, records: map<string, Record>, files: Files, sha: seq<byte> -> Digest)
    requires AllDownloadedIn(order, records)
    ensures var p := Fingerprint(order, records, files, sha);
            p.missing.Some? ==> IsImmutable(p.missing.value) && p.missing.value !in p.files
    decreases |order|
  {
    if order != [] {
      var r := records[order[0]];
      if IsImmutable(r.saveName) && r.saveName in files {
        var h := sha(files[r.saveName]);
        FingerprintMissing(order[1..], records[order[0] := Stamp(r, h)], Rename(files, r.saveName, SpliceHash(r.saveName, h)), sha);
      } else if !IsImmutable(r.saveName) {
        FingerprintMissing(order[1..], records, files, sha);
      }
    }
  }

  /** What a stamped save name looks like: the digest and a `.` go in front of the last `.`,
      so the extension, and with it being an asset, is kept, and cutting the digest out
      gives the old name back. */
  lemma StampSpec(r: Record, h: Digest)
    requires r.Downloaded? && IsImmutable(r.saveName)
    ensures var s := Stamp(r, h).saveName;
            exists d :: 0 <= d < |r.saveName| && r.saveName[d] == '.' && '.' !in r.saveName[d + 1..]
                        && s == r.saveName[..d] + "." + h + r.saveName[d..]
                        && s[..d] + s[d + 1 + |h|..] == r.saveName
    ensures IsImmutable(Stamp(r, h).saveName)
  {
    ImmutableSpec(r.saveName);
    assert !IsHexDigit('.');
    var d := SpliceSpec(r.saveName, h);
    var s := Stamp(r, h).saveName;
    assert s[d + 1 + |h|..] == r.saveName[d..];
    ImmutableSuffix(r.saveName, s, d);
  }

  /** A name that ends in an asset extension at its last `.` is an asset, whatever comes
      before that `.`. */
  lemma ImmutableSuffix(a: string, b: string, d: nat)
    requires d < |a| && a[d] == '.' && '.' !in a[d + 1..] && IsImmutable(a)
    requires |a| - d <= |b| && b[|b| - (|a| - d)..] == a[d..]
    ensures IsImmutable(b)
  {
    ImmutableSpec(a);
    ImmutableSpec(b);
    if EndsWith(a, ".js") {
      SharedExtension(a, b, d, ".js");
    } else if EndsWith(a, ".css") {
      SharedExtension(a, b, d, ".css");
    } else if EndsWith(a, ".png") {
      SharedExtension(a, b, d, ".png");
    } else {
      SharedExtension(a, b, d, ".jpg");
    }
  }

  /** An extension with a single `.`, at its start, that `a` ends with begins at the last
      `.` of `a`; so `b`, which ends as `a` does from there, ends with it too. */
  lemma SharedExtension(a: string, b: string, d: nat, e: string)
    requires |e| > 0 && e[0] == '.' && '.' !in e[1..] && EndsWith(a, e)
    requires d < |a| && a[d] == '.' && '.' !in a[d + 1..]
    requires |a| - d <= |b| && b[|b| - (|a| - d)..] == a[d..]
    ensures EndsWith(b, e)
  {
    var j := |a| - |e|;
    EndsWithChar(a, e, 0);
    assert j == d;
  }

  // ---------------------------------------------------------------------------------------
  // The pass as the script runs it

  /** The loop over the dict, updating each asset's record in place and renaming its file. */
  method AddFingerprints(known: KnownLinks, files: Files, sha: seq<byte> -> Digest)
    returns (newFiles: Files, missing: Option<string>)
    requires AllDownloadedIn(known.order, known.records)
    modifies known
    ensures known.order == old(known.order)
    ensures Pass(known.records, newFiles, missing) == Fingerprint(old(known.order), old(known.records), files, sha)
  {
    newFiles := files;
    var i := 0;
    while i < |known.order|
      invariant 0 <= i <= |known.order| && known.order == old(known.order)
      invariant AllDownloadedIn(known.order[i..], known.records)
      invariant Fingerprint(old(known.order), old(known.records), files, sha)
                == Fingerprint(known.order[i..], known.records, newFiles, sha)
    {
      var k := known.order[i];
      assert known.order[i..][0] == k && known.order[i..][1..] == known.order[i + 1..];
      var r := known.records[k];
      if IsImmutable(r.saveName) {
        if r.saveName !in newFiles {
          return newFiles, Some(r.saveName);
        }
        ghost var before := known.records;
        var h := sha(newFiles[r.saveName]);
        var newSaveName := SpliceHash(r.saveName, h);
        known.Assign(k, Downloaded(SpliceHash(r.newName, h), r.saveName));
        newFiles := Rename(newFiles, r.saveName, newSaveName);
        known.Assign(k, Downloaded(SpliceHash(r.newName, h), newSaveName));
        assert known.records == before[k := Stamp(r, h)];
        assert AllDownloadedIn(known.order[i + 1..], known.records);
      }
      i := i + 1;
    }
    missing := None;
  }
}
