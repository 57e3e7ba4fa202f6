# wordpress-to-static in Dafny

A model of `1_fetch.py`, the script that mirrors a WordPress site into static files. The
script:

- crawls the site from `/`, in the insertion order of a ledger dict (`known_links_d`) that
  maps each path found to its record: not downloaded, or downloaded with a new name and a
  save name;
- renames each path with `build_new_name`, which folds a query string in front of the
  extension and turns `/feed/` into `/feed.xml`;
- places each file with `build_save_name`, which appends `index.html` to directory-like
  names;
- sanitises every UTF-8 page by cutting out the tags that carry admin, XML-RPC, REST and
  shortlink URLs (`drop_link` and its four wrappers);
- extracts the site's links from each page with `get_links` (split on the base URL, percent
  decoding, a cut at the first delimiter, re-encoding) and pushes them into the ledger;
- once the crawl is done, splices the SHA-256 of every `.js`, `.css`, `.png` and `.jpg` file
  in front of its extension, in its save name and its new name, and renames the file;
- rewrites every `.html` file, replacing the old base URL by the new one and then every
  path by its new name.

One module per concern:

| module | file | what it holds |
|---|---|---|
| `PyStr` | pystr.dfy | the Python `str` methods the script calls: `find`, `rfind`, slicing with negative bounds, `replace`, `split`, `join`, `count`, `strip`, `endswith` |
| `Utf8` | utf8.dfy | UTF-8 encoding, decoding with `'replace'`, and strict decoding |
| `Percent` | percent.dfy | `urllib.parse.quote` and `unquote` |
| `Names` | names.dfy | `build_new_name`, `build_save_name`, the hash splice, the immutable-extension test |
| `Links` | links.dfy | `get_links`, as a function and as the loop that builds the list |
| `Sanitizer`, `SanitizerExamples` | sanitizer.dfy, sanitizer_examples.dfy | `drop_link`, its wrappers, and the doctests |
| `Ledger` | ledger.dfy | the insertion-ordered dict, `push_links`, the choice of the next path; a `KnownLinks` class that updates it in place |
| `Crawl` | crawl.dfy | the crawl loop: one turn as a function of the response, the run, and the loop as the script runs it |
| `Fingerprinting` | fingerprint.dfy | the fingerprint pass over the ledger and the files |
| `Rewrite` | rewrite.dfy | the rewrite of the pages |
| `Mirror` | mirror.dfy | the three passes in sequence |

Each loop the script runs is a method: `KnownLinks.PushLinks`, `KnownLinks.NextToGet`,
`Links.CollectLinks`, `Crawl.CrawlSite`, `Fingerprinting.AddFingerprints`,
`Rewrite.RewritePage` and `Rewrite.RewriteFiles`. Each is proved equal to a function, and
the properties are lemmas about those functions. The files under the output directory are
a map from path to bytes. The transport, the hash and the order of the directory walk are
parameters.

Where the documented behaviour and the code differ, the model follows the code:

- `drop_link` can make the content longer. When no `<` precedes the needle, the slice is
  `content[:-1]`; when no `>` follows it as well, the tail is the whole content.
  `Sanitizer.DropGrows` and `Sanitizer.DropGrowsPair` show it. It shrinks the content
  strictly only when both a `<` and a `>` are found (`Sanitizer.DropSpliced`).
- `get_links` strips backslashes at both ends of a link, as `str.strip('\\')` does, not only
  trailing ones.
- `build_new_name` is idempotent only on names with at most one `?`
  (`Names.NewNameIdempotent`). `Names.NewNameTwoQueries` gives a name with two `?` on which
  it is not.
- The fifth doctest of `get_links` holds a mis-encoded `è` in the file (1_fetch.py:64). The
  model states it with the intended `è`, whose UTF-8 escapes are the `%C3%A8` of the
  expected output.

The rewrite replaces the keys one `str.replace` after another, in insertion order. A key
that begins a later key takes that key's mentions: once `/x.js` is stamped, a link to
`/x.js?ver=1` becomes the stamped name of `/x.js` followed by `?ver=1`
(`Rewrite.ShadowedKey`, `Rewrite.ShadowedKeyLost`).

## Model

| member | source | states |
|---|---|---|
| PyStr.FindSpec | 1_fetch.py:44 | `find` gives -1 exactly when the needle does not occur, and otherwise the index of its first occurrence |
| PyStr.RFindSpec | 1_fetch.py:111 | `rfind` gives -1 exactly when the needle does not occur, and otherwise the index of its last occurrence |
| PyStr.StripSpec | 1_fetch.py:78 | `strip(c)` keeps a middle slice: everything dropped at either end is `c`, and what is kept neither starts nor ends with `c` |
| PyStr.SplitCount | 1_fetch.py:67 | `split` on a non-empty separator gives one more piece than there are non-overlapping occurrences |
| PyStr.ReplaceAbsent | 1_fetch.py:249-251 | `replace` of a needle that does not occur returns the text unchanged |
| Utf8.DecodeStrict | 1_fetch.py:211 | strict decoding succeeds exactly on well-formed UTF-8, and then agrees with the decoder |
| Utf8.DecodeEncode | 1_fetch.py:217-218 | what the encoder writes is well-formed UTF-8 and decodes back to the text |
| Utf8.EncodeDecode | 1_fetch.py:211 | well-formed bytes survive a decode and a re-encode unchanged |
| Percent.QuoteBytesAlphabet | 1_fetch.py:80 | `quote` writes only kept bytes, `%` and upper-case hex digits |
| Percent.EscapeInjective | 1_fetch.py:80 | two different bytes have different `%XX` escapes |
| Percent.QuoteKeepingQuery | 1_fetch.py:80 | `quote` followed by turning `%3F` and `%3D` back is `quote` with `/`, `?` and `=` all safe |
| Percent.PercentDecodeQuote | 1_fetch.py:71-80 | percent-decoding undoes `quote_from_bytes` byte for byte |
| Percent.UnquoteQuote | 1_fetch.py:71-80 | `unquote(quote(s)) == s` for every text |
| Percent.UnquoteNoPercent | 1_fetch.py:71 | `unquote` leaves a text without `%` unchanged |
| Names.FoldQuerySpec | 1_fetch.py:44-48 | with a `?`, the new name is the stem before the last `.` of the path, `.`, the query with `&` and `=` made `_`, `.`, and the extension; with no `.` the whole path plays the extension |
| Names.FoldWithDot | 1_fetch.py:44-48 | a path with an extension gets the folded query right before that extension |
| Names.FoldedQueryOneValue | 1_fetch.py:46 | a single `key=value` query becomes `key_value` |
| Names.NewNamePlain | 1_fetch.py:44-51 | a name with no `?` that is not a feed is returned unchanged |
| Names.NewNameNoQuery | 1_fetch.py:44-51 | without a `?` only the feed rule applies |
| Names.FeedSpec | 1_fetch.py:49-50 | a path ending in `/feed/` loses the last `/` and gains `.xml` |
| Names.NewNameNotFeed | 1_fetch.py:49-50 | no new name ends in `/feed/` |
| Names.NewNameIdempotent | 1_fetch.py:35-51 | applying `build_new_name` twice equals applying it once, for names with at most one `?` |
| Names.NewNameTwoQueries | 1_fetch.py:44-48 | `a?b?c` gives `.b?c.a`, which gives `.c.a.b`: not idempotent with two `?` |
| Names.NewNameExamplePlain | 1_fetch.py:37-38 | doctest: `cropped-Logo-2.png` is kept |
| Names.NewNameExampleQuery | 1_fetch.py:39-40 | doctest: `wp-embed.min.js?ver=4.9.7` becomes `wp-embed.min.ver_4.9.7.js` |
| Names.NewNameExampleFeed | 1_fetch.py:41-42 | doctest: `/feed/` becomes `/feed.xml` |
| Names.BuildSaveName | 1_fetch.py:85-95 | the save name starts with the name and never ends in `/` |
| Names.SaveNameSpec | 1_fetch.py:92-95 | `index.html` is appended exactly when the name ends in `/`; the function is idempotent |
| Names.SaveNameExamples | 1_fetch.py:87-90 | doctests: `/something.html` is kept, `/hello/` becomes `/hello/index.html` |
| Names.ParentDirSpec | 1_fetch.py:197 | the directory made for a save path is what precedes its last `/`, or empty |
| Names.SpliceSpec | 1_fetch.py:234-236 | the hash and a `.` go right before the last `.`; the extension is kept, stays after the last `.`, and cutting `.` and the hash out gives the name back |
| Names.SpliceNoDot | 1_fetch.py:234 | with no `.` both slice bounds are -1 and the hash lands before the last character |
| Names.ImmutableSpec | 1_fetch.py:230-231 | a name counts as immutable exactly when it ends in `.js`, `.css`, `.png` or `.jpg`, and then it has a `.` |
| Links.FirstDelimiterSpec | 1_fetch.py:72-75 | the link is cut at the first of `"`, `'`, space, `<`, `#`; no cut exists exactly when none occurs |
| Links.ExtractFails | 1_fetch.py:72-74 | the assertion fails on a piece exactly when its decoded text holds no delimiter |
| Links.FeedLink | 1_fetch.py:76-77 | a cut url holding `feed/?` keeps only what precedes its first `?`, and the link has no `?` |
| Links.QuoteLinkSpec | 1_fetch.py:80 | re-encoding is `quote` with `/`, `?` and `=` safe, and writes only such characters |
| Links.QuoteLinkPlain | 1_fetch.py:80 | a path of letters, digits, `_.-~/?=` is re-encoded as itself |
| Links.QuoteLinkAccent | 1_fetch.py:64-65 | a non-ASCII `è` is written as `%C3%A8` |
| Links.CollectLinks | 1_fetch.py:67-82 | the loop that appends links returns what `get_links` returns |
| Links.GetLinksFirstFailure | 1_fetch.py:69-74 | a failing call stops at the first piece without a delimiter and reports its decoded text |
| Links.GetLinksFails | 1_fetch.py:67-74 | with a non-empty base, the call fails exactly when some piece holds no delimiter once decoded |
| Links.LinkCount | 1_fetch.py:67-81 | with a non-empty base, a successful call returns one link per non-overlapping occurrence of the base |
| Links.GetLinksSucceeds | 1_fetch.py:67-81 | the link at each place is the one cut from the piece after the occurrence at that place, in text order |
| Links.GetLinksShape | 1_fetch.py:75-81 | every link starts with `/` and holds no delimiter |
| Links.GetLinksPlain | 1_fetch.py:56-61 | doctests 1 to 3: a plain path closed by a quote or a space comes back as `/` and the path, query included |
| Links.GetLinksFeed | 1_fetch.py:62-63 | doctest 4: `feed/?someparam` gives `/feed/` |
| Links.GetLinksAccent | 1_fetch.py:64-65 | doctest 5: `truite_chèvre.jpg` gives `truite_ch%C3%A8vre.jpg` |
| Sanitizer.DropAbsent | 1_fetch.py:108-113 | a needle that does not occur leaves the content unchanged |
| Sanitizer.DropAbsentByChar | 1_fetch.py:108-113 | a needle with a character the content lacks leaves it unchanged |
| Sanitizer.DropSpliced | 1_fetch.py:108-111 | with a `<` before the needle and a `>` after it, exactly the span from that last `<` to that first `>` goes, and the content gets shorter |
| Sanitizer.DropGrows | 1_fetch.py:111 | with no `<` before and no `>` after the needle, the result is `content[:-1]` followed by the whole content, longer than the content |
| Sanitizer.DropGrowsPair | 1_fetch.py:111 | dropping `y` from `xy` gives `xxy` |
| Sanitizer.DropTag | 1_fetch.py:108-111 | a needle inside a single tag removes that tag and nothing else |
| SanitizerExamples.AdminLinkExample | 1_fetch.py:116-121 | doctest: the inline admin-ajax script is removed |
| SanitizerExamples.XmlrpcExample | 1_fetch.py:124-133 | doctest: the pingback link is removed |
| SanitizerExamples.XmlrpcRsd | 1_fetch.py:131-132 | the RSD needles leave a page without them unchanged |
| SanitizerExamples.WpJsonExample | 1_fetch.py:136-144 | doctest: the REST API link is removed |
| SanitizerExamples.WpJsonOembed | 1_fetch.py:142-143 | the oEmbed needles leave a page without them unchanged |
| SanitizerExamples.ShortlinkExample | 1_fetch.py:147-158 | doctest: the relative shortlink is removed |
| SanitizerExamples.ShortlinkAbsolute | 1_fetch.py:152-153 | the absolute shortlink needles leave a page without them unchanged |
| SanitizerExamples.ShortlinkEscaped | 1_fetch.py:155-157 | the escaped shortlink needles leave a page without them unchanged |
| Ledger.SeedSpec | 1_fetch.py:175-177 | the start ledger is well formed, holds only `/` not downloaded, and `/` is chosen first |
| Ledger.SetSpec | 1_fetch.py:191-195 | an assignment keeps each key once in the order (its other clauses unfold the assignment: a new key last, a known key in its place, only that key changed) |
| Ledger.SetDownloaded | 1_fetch.py:191-195 | marking a pending key downloaded adds exactly that key to the downloaded ones |
| Ledger.PushSpec | 1_fetch.py:98-105 | every link becomes a key, existing keys keep their records, new keys are links and not downloaded and come after the old keys in the order of their first appearance among the links, and no key is removed |
| Ledger.Fresh | 1_fetch.py:101-104 | the keys a push adds are listed once each, and are exactly the links not yet known |
| Ledger.PushAppends | 1_fetch.py:98-105 | the push appends to the order exactly the new links, once each, in the order they first appear |
| Ledger.PushDownloaded | 1_fetch.py:98-105 | pushing links marks nothing downloaded and changes no downloaded record |
| Ledger.FirstPendingInSpec | 1_fetch.py:180-184 | the scan finds nothing exactly when every key is downloaded; otherwise it finds a pending key with every earlier key downloaded |
| Ledger.FirstPendingSpec | 1_fetch.py:180-184 | the next path is none exactly when every record is downloaded, otherwise the first pending key in insertion order |
| Ledger.KnownLinks.constructor | 1_fetch.py:175-177 | the dict starts as `{'/': not downloaded}` |
| Ledger.KnownLinks.Assign | 1_fetch.py:191-195 | assigning a key updates the dict in place as a dict assignment does |
| Ledger.KnownLinks.PushLinks | 1_fetch.py:98-105 | the in-place loop leaves the dict as `push_links` does |
| Ledger.KnownLinks.NextToGet | 1_fetch.py:180-184 | the scan returns the first pending key, none exactly when all are downloaded |
| Crawl.AnalyseNames | 1_fetch.py:187-195 | a status other than 200 refuses the path; an answered path gets `build_new_name(path)` and `GET_DIR + build_save_name(newName)` |
| Crawl.AnalysePage | 1_fetch.py:203-220 | a page declared UTF-8 is stored exactly when its bytes are valid, as bytes that decode to the sanitised text; the turn goes on exactly when the bytes are valid and `get_links` succeeds, and then its links are the ones `get_links` returns on the sanitised text, one per occurrence of a non-empty base URL; invalid bytes fail the turn as not UTF-8 at `LOCAL_ADDRESS + path`, and a `get_links` error is reported with that address |
| Crawl.AnalyseBinary | 1_fetch.py:221-224 | a response not declared UTF-8 is stored as it came and adds no link |
| Crawl.StepKeeps | 1_fetch.py:189-220 | a turn keeps the ledger well formed, removes no key, changes no record but its path's, adds only pending keys, and logs the path |
| Crawl.StepFlips | 1_fetch.py:191-195 | an answered turn adds exactly its path to the downloaded keys, with the names it computed, and makes every link a key |
| Crawl.StepFresh | 1_fetch.py:180-184 | the path a turn takes is pending and has not been requested before |
| Crawl.StepConsistent | 1_fetch.py:179-224 | an answered turn that does not fail keeps the loop invariant |
| Crawl.RunSpec | 1_fetch.py:179-224 | a run ends `Done` only with every key downloaded, requests no path twice, at most one per unit of fuel, never removes a key or changes a downloaded record |
| Crawl.RunEnds | 1_fetch.py:180-182 | a run that is done has downloaded every key; one that did not fail keeps the invariant |
| Crawl.RunFetched | 1_fetch.py:179-188 | no path is requested twice, even by the turn that fails |
| Crawl.RunKeeps | 1_fetch.py:179-224 | keys are never removed and a downloaded record never changes |
| Crawl.RunTurn | 1_fetch.py:179-224 | one unit of fuel runs one turn, which stops the run exactly when it failed |
| Crawl.RunFinishes | 1_fetch.py:179-224 | when the ledger and every page's links stay inside a finite set, one request per path of the set not yet downloaded is enough: the run never runs out of fuel |
| Crawl.CrawlFinishes | 1_fetch.py:174-224 | on a site whose links stay inside a finite set holding `/`, a crawl never runs out; a finished one requested each key exactly once and recorded the names computed from it |
| Crawl.Visit | 1_fetch.py:184-224 | one iteration of the loop body updates the dict, files and request log as `Step` says and reports the failure that stops the script |
| Crawl.CrawlSite | 1_fetch.py:174-224 | the loop ends as the run does; `Done` only with every key downloaded; no path requested twice |
| Fingerprinting.Rename | 1_fetch.py:238 | `os.rename` moves the content to the new name, removes the old one and leaves the other files alone |
| Fingerprinting.FingerprintKeys | 1_fetch.py:228-240 | the pass adds or removes no key, and a downloaded record stays downloaded |
| Fingerprinting.FingerprintOthers | 1_fetch.py:228-240 | a key the pass does not visit keeps its record |
| Fingerprinting.FingerprintEach | 1_fetch.py:228-240 | after a pass that found every file, a record whose save name is not an asset is unchanged, and an asset's two names both carry one same digest |
| Fingerprinting.FingerprintHashes | 1_fetch.py:228-240 | when every asset's save name differs from those of the keys before it and from anything their renames produce, each asset's digest is the hash of the bytes its file held when the crawl ended |
| Fingerprinting.FingerprintMissing | 1_fetch.py:229-233 | the pass stops only on an asset whose file is not there |
| Fingerprinting.StampSpec | 1_fetch.py:234-239 | the stamped save name is the old one with `.` and the digest before its last `.`; cutting them out gives the old name back, and it is still an asset |
| Fingerprinting.ImmutableSuffix | 1_fetch.py:230-231 | two names that end alike from the last `.` of an asset name are assets alike |
| Fingerprinting.AddFingerprints | 1_fetch.py:228-240 | the in-place loop leaves the dict and the files as the pass says, and keeps the key order |
| Rewrite.ReplaceSame | 1_fetch.py:251 | replacing a text by itself changes nothing |
| Rewrite.ReplaceNamesInert | 1_fetch.py:250-251 | keys that are their own new name or that the page does not mention leave the page unchanged |
| Rewrite.ReplaceNamesOnce | 1_fetch.py:250-251 | a page `a + k + b` that mentions the key `k` once, where every other key is inert before and after, becomes `a + newName(k) + b` |
| Rewrite.RewriteOneLink | 1_fetch.py:249-251 | the same for a whole page without the old base URL: the one link is replaced by its new name and nothing else changes |
| Rewrite.ShadowedKey | 1_fetch.py:250-251 | with `k` before `k + q` in the ledger, a mention of `k + q` becomes the new name of `k` followed by `q` |
| Rewrite.ShadowedKeyLost | 1_fetch.py:250-251 | so, unless the two new names happen to line up, the page does not link to the new name of `k + q` |
| Rewrite.RewriteSiteKeys | 1_fetch.py:242-253 | the pass adds and removes no file |
| Rewrite.RewriteSiteKeeps | 1_fetch.py:242-253 | the pass adds and removes no file, and a file that is not a listed page keeps its bytes |
| Rewrite.RewriteSiteStops | 1_fetch.py:247-248 | the pass stops only on a listed page whose bytes are not valid UTF-8, left as it was |
| Rewrite.RewriteSitePages | 1_fetch.py:245-253 | after a pass that read every page, each page holds the UTF-8 encoding of its rewritten text and reads back as that text |
| Rewrite.RewritePage | 1_fetch.py:249-251 | the page loop replaces the base URL and then each key by its new name, in insertion order |
| Rewrite.RewriteFiles | 1_fetch.py:242-253 | the walk reads, rewrites and writes back each page as the pass says |
| Mirror.ScriptRecords | 1_fetch.py:174-240 | on a site whose links stay inside a finite set, the script never runs out of fuel; when it finishes, each record holds the crawl's names, with one digest spliced into both names of each asset |
| Mirror.ScriptPages | 1_fetch.py:242-253 | a script that finishes leaves the files of the fingerprint pass, no more and no fewer, with every `.html` file holding the encoding of its rewritten text and every other file its bytes |
| Mirror.Mirror | 1_fetch.py:161-253 | the script runs the crawl, the fingerprint pass and the rewrite, stopping at the first that fails |

## Left out

- The HTTP transport (1_fetch.py:187) is a function from URL to response. The `Host` and
  `X-Forwarded-Host` headers are not modelled; `response.encoding` is a field of the
  response.
- Directories are not modelled: the files are a map from path to bytes. The removal and
  re-creation of the output directory (1_fetch.py:162-166) and `os.makedirs` for each save
  path (1_fetch.py:197-200) are left out; `Names.ParentDir` only computes the directory's
  name.
- `sha256sum` (1_fetch.py:27-32) is a parameter that returns 64 lower-case hexadecimal
  digits. SHA-256 itself and the chunked reading of the file are not modelled.
- The order in which `os.walk` lists the files (1_fetch.py:242-244) is a parameter; the
  model requires only that it lists every file once.
- `print` and `pprint` output is left out.
- The configuration constants (1_fetch.py:18-24) are the fields of `Crawl.Config`.
- Exceptions other than the ones the model names are left out: errors writing or renaming
  files, and an interrupted transport.
- Crawl.CrawlSite: the `while True` loop has a bound on the number of requests, and
  `OutOfFuel` stands for a crawl that has not ended yet. `Crawl.CrawlFinishes` shows that
  enough fuel always exists when the site's links stay inside a finite set.
- Fingerprinting.Fingerprint: requires every record of the ledger to be downloaded. The
  script would raise `KeyError` on a record without a save name, but it reaches this loop
  only after a finished crawl, and a finished crawl has downloaded every key.
- Mirror.ScriptRecords: gives each asset some digest, not the hash of its bytes. Two paths
  can share a save name, so a rename can replace another asset's file before it is hashed.
  `Fingerprinting.FingerprintHashes` names the digest when the save names stay apart.
