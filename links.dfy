/** Link extraction, `get_links(domain, text)`: the text is split on the site address, and
    every piece after an occurrence is percent-decoded, cut at its first delimiter (`"`, `'`,
    space, `<`, `#`), stripped of the query of a `feed/?` link and of backslashes at both
    ends, percent-encoded again with `/`, `?` and `=` kept literally, and prefixed with `/`.
    A piece without a delimiter makes the function's assertion fail; Python's `split` raises
    on an empty separator. */
module Links {
  import opened PyStr
  import opened Utf8
  import opened Percent

  datatype LinkError = EmptyDomain | NoDelimiter(piece: string)

  datatype Result<T> = Ok(value: T) | Err(error: LinkError)

  predicate IsDelimiter(c: char)
  {
    c == '"' || c == '\'' || c == ' ' || c == '<' || c == '#'
  }

  /** The smaller of two `find` results, ignoring -1: `min` over the positions found. */
  function MinFound(p: int, q: int): (r: int)
    ensures r == p || r == q
  {
    if p == -1 then q else if q == -1 || p < q then p else q
  }

  /** The position where the link ends: `min` of `x.find(c)` over the delimiters that occur,
      or -1 when none does. */
  function FirstDelimiter(x: string): (m: int)
    ensures m == -1 || 0 <= m < |x|
  {
    MinFound(Find(x, "\""), MinFound(Find(x, "'"), MinFound(Find(x, " "), MinFound(Find(x, "<"), Find(x, "#")))))
  }

  /** `url.split('?')[0]` when the url holds `feed/?`: feeds take no query. */
  function DropFeedQuery(url: string): string
  {
    if Find(url, "feed/?") != -1 then Split(url, "?")[0] else url
  }

  /** The bytes the links keep literally besides the unreserved ones: `/`, `?` and `=`. */
  const LinkSafe: set<byte> := {'/' as int, '?' as int, '=' as int}

  /** `quote(url).replace("%3F", "?").replace("%3D", "=")` */
  function QuoteLink(url: string): string
  {
    Replace(Replace(Quote(url), "%3F", "?"), "%3D", "=")
  }

  /** One turn of `get_links`' loop: the link found in the piece after an occurrence of the
      site address. */
  function ExtractLink(piece: string): Result<string>
  {
    var x := Unquote(piece);
    var m := FirstDelimiter(x);
    if m == -1 then Err(NoDelimiter(x))
    else Ok("/" + QuoteLink(Strip(DropFeedQuery(x[..m]), '\\')))
  }

  /** The outcome of each piece, in order. */
  function Outcomes(pieces: seq<string>): (rs: seq<Result<string>>)
    ensures |rs| == |pieces|
  {
    seq(|pieces|, i requires 0 <= i < |pieces| => ExtractLink(pieces[i]))
  }

  /** The links of the outcomes in order; the first failure stops the list. */
  function Collect(rs: seq<Result<string>>): Result<seq<string>>
  {
    if rs == [] then Ok([])
    else
      match Collect(rs[..|rs| - 1])
      case Err(e) => Err(e)
      case Ok(links) =>
        match rs[|rs| - 1]
        case Err(e) => Err(e)
        case Ok(l) => Ok(links + [l])
  }

  /** `get_links(domain, text)` */
  function GetLinks(domain: string, text: string): Result<seq<string>>
  {
    if |domain| == 0 then Err(EmptyDomain) else Collect(Outcomes(Split(text, domain)[1..]))
  }

  /** `get_links` as the source runs it: one pass over the pieces, appending each link. */
  method CollectLinks(domain: string, text: string) returns (r: Result<seq<string>>)
    ensures r == GetLinks(domain, text)
  {
    if |domain| == 0 {
      return Err(EmptyDomain);
    }
    var pieces := Split(text, domain)[1..];
    ghost var rs := Outcomes(pieces);
    var links: seq<string> := [];
    var i := 0;
    while i < |pieces|
      invariant 0 <= i <= |pieces|
      invariant Collect(rs[..i]) == Ok(links)
    {
      var o := ExtractLink(pieces[i]);
      assert o == rs[i];
      CollectStep(rs, i);
      if o.Err? {
        ErrorStops(rs, i + 1);
        return Err(o.error);
      }
      links := links + [o.value];
      i := i + 1;
    }
    assert rs[..i] == rs;
    r := Ok(links);
  }

  /** Adding one outcome to a successful prefix. */
  lemma CollectStep(rs: seq<Result<string>>, i: nat)
    requires i < |rs| && Collect(rs[..i]).Ok?
    ensures Collect(rs[..i + 1]) == if rs[i].Err? then Err(rs[i].error) else Ok(Collect(rs[..i]).value + [rs[i].value])
  {
    assert rs[..i + 1][..i] == rs[..i];
  }

  /** Once a prefix of the outcomes fails, the whole list fails with the same error. */
  lemma {:induction false} ErrorStops(rs: seq<Result<string>>, i: nat)
    requires i <= |rs| && Collect(rs[..i]).Err?
    ensures Collect(rs) == Collect(rs[..i])
    decreases |rs| - i
  {
    if i < |rs| {
      assert rs[..i + 1][..i] == rs[..i];
      ErrorStops(rs, i + 1);
    } else {
      assert rs[..i] == rs;
    }
  }

  // ---------------------------------------------------------------------------------------
  // Where a link ends

  /** The link ends at the first delimiter of the piece, and there is none exactly when
      every `find` gave -1. */
  lemma FirstDelimiterSpec(x: string)
    ensures FirstDelimiter(x) == -1 <==> NoDelimiterIn(x)
    ensures FirstDelimiter(x) != -1 ==> IsDelimiter(x[FirstDelimiter(x)])
    ensures forall j :: 0 <= j < FirstDelimiter(x) ==> !IsDelimiter(x[j])
  {
    var f1, f2, f3, f4, f5 := Find(x, "\""), Find(x, "'"), Find(x, " "), Find(x, "<"), Find(x, "#");
    var m := MinFive(f1, f2, f3, f4, f5);
    FirstDelimiterBefore(x, m);
    if m == -1 {
      FirstDelimiterNone(x);
    } else if m == f1 {
      FindCharAt(x, '"');
    } else if m == f2 {
      FindCharAt(x, '\'');
    } else if m == f3 {
      FindCharAt(x, ' ');
    } else if m == f4 {
      FindCharAt(x, '<');
    } else {
      FindCharAt(x, '#');
    }
  }

  lemma FirstDelimiterBefore(x: string, m: int)
    requires m == FirstDelimiter(x)
    ensures forall j :: 0 <= j < m ==> !IsDelimiter(x[j])
  {
    var f1, f2, f3, f4, f5 := Find(x, "\""), Find(x, "'"), Find(x, " "), Find(x, "<"), Find(x, "#");
    var m' := MinFive(f1, f2, f3, f4, f5);
    FirstOf(x, '"', m);
    FirstOf(x, '\'', m);
    FirstOf(x, ' ', m);
    FirstOf(x, '<', m);
    FirstOf(x, '#', m);
  }

  lemma FirstDelimiterNone(x: string)
    requires FirstDelimiter(x) == -1
    ensures NoDelimiterIn(x)
  {
    var f1, f2, f3, f4, f5 := Find(x, "\""), Find(x, "'"), Find(x, " "), Find(x, "<"), Find(x, "#");
    var m := MinFive(f1, f2, f3, f4, f5);
    FindChar(x, '"');
    FindChar(x, '\'');
    FindChar(x, ' ');
    FindChar(x, '<');
    FindChar(x, '#');
  }

  /** What `MinFound` gives on the five positions of the delimiters. */
  lemma MinFive(a: int, b: int, c: int, d: int, e: int) returns (m: int)
    requires a >= -1 && b >= -1 && c >= -1 && d >= -1 && e >= -1
    ensures m == MinFound(a, MinFound(b, MinFound(c, MinFound(d, e))))
    ensures m == -1 <==> a == -1 && b == -1 && c == -1 && d == -1 && e == -1
    ensures m == -1 || m == a || m == b || m == c || m == d || m == e
    ensures m != -1 ==> (a == -1 || m <= a) && (b == -1 || m <= b) && (c == -1 || m <= c)
                        && (d == -1 || m <= d) && (e == -1 || m <= e)
  {
    m := MinFound(a, MinFound(b, MinFound(c, MinFound(d, e))));
  }

  /** Before a position no later than the first `c`, there is no `c`; with no `c` found, the
      text has none. */
  lemma FirstOf(x: string, c: char, m: int)
    requires Find(x, [c]) == -1 || (m != -1 && m <= Find(x, [c]))
    ensures forall j :: 0 <= j < m && j < |x| ==> x[j] != c
    ensures Find(x, [c]) == -1 ==> c !in x
  {
    FindChar(x, c);
  }

  predicate NoDelimiterIn(x: string)
  {
    forall i :: 0 <= i < |x| ==> !IsDelimiter(x[i])
  }

  /** The assertion of `get_links` fails on a piece exactly when the decoded piece holds no
      delimiter. */
  lemma ExtractFails(piece: string)
    ensures ExtractLink(piece).Err? <==> NoDelimiterIn(Unquote(piece))
  {
    var x := Unquote(piece);
    FirstDelimiterSpec(x);
    assert ExtractLink(piece).Err? <==> FirstDelimiter(x) == -1;
  }

  // ---------------------------------------------------------------------------------------
  // The list of links

  /** The list succeeds exactly when every outcome does, and then holds one link per
      outcome, in order. */
  lemma {:induction false} CollectOk(rs: seq<Result<string>>)
    ensures Collect(rs).Ok? <==> forall i :: 0 <= i < |rs| ==> rs[i].Ok?
    ensures Collect(rs).Ok? ==> |Collect(rs).value| == |rs|
    ensures Collect(rs).Ok? ==> forall i :: 0 <= i < |rs| ==> rs[i] == Ok(Collect(rs).value[i])
    decreases |rs|
  {
    if rs != [] {
      var n := |rs| - 1;
      var init := rs[..n];
      CollectOk(init);
      assert forall i :: 0 <= i < n ==> init[i] == rs[i];
    }
  }

  /** A failing list fails with the error of its first failing outcome. */
  lemma {:induction false} CollectErr(rs: seq<Result<string>>) returns (i: nat)
    requires Collect(rs).Err?
    ensures i < |rs| && rs[i] == Err(Collect(rs).error)
    ensures forall j :: 0 <= j < i ==> rs[j].Ok?
    decreases |rs|
  {
    var n := |rs| - 1;
    var init := rs[..n];
    if Collect(init).Err? {
      i := CollectErr(init);
      assert init[i] == rs[i];
      assert forall j :: 0 <= j < i ==> init[j] == rs[j];
    } else {
      i := n;
      CollectOk(init);
      assert forall j :: 0 <= j < n ==> init[j] == rs[j];
    }
  }

  /** `get_links` stops at the first piece whose decoded text holds no delimiter, and
      reports that text. */
  lemma GetLinksFirstFailure(domain: string, text: string) returns (i: nat)
    requires |domain| > 0 && GetLinks(domain, text).Err?
    ensures i < |Split(text, domain)[1..]|
    ensures GetLinks(domain, text) == Err(NoDelimiter(Unquote(Split(text, domain)[1..][i])))
    ensures NoDelimiterIn(Unquote(Split(text, domain)[1..][i]))
    ensures forall j :: 0 <= j < i ==> !NoDelimiterIn(Unquote(Split(text, domain)[1..][j]))
  {
    var pieces := Split(text, domain)[1..];
    i := CollectErr(Outcomes(pieces));
    ExtractFails(pieces[i]);
    forall j | 0 <= j < i ensures !NoDelimiterIn(Unquote(pieces[j])) {
      assert Outcomes(pieces)[j] == ExtractLink(pieces[j]);
      ExtractFails(pieces[j]);
    }
  }

  /** With a non-empty address, one link per non-overlapping occurrence of the address. */
  lemma LinkCount(domain: string, text: string)
    requires |domain| > 0 && GetLinks(domain, text).Ok?
    ensures |GetLinks(domain, text).value| == Count(text, domain)
  {
    SplitCount(text, domain);
    CollectOk(Outcomes(Split(text, domain)[1..]));
  }

  /** When `get_links` succeeds, the link at each place of the list is the one found in the
      piece after the occurrence of the address at that place. */
  lemma GetLinksSucceeds(domain: string, text: string)
    requires |domain| > 0 && GetLinks(domain, text).Ok?
    ensures |GetLinks(domain, text).value| == |Split(text, domain)[1..]|
    ensures forall i :: 0 <= i < |Split(text, domain)[1..]| ==> ExtractLink(Split(text, domain)[1..][i]) == Ok(GetLinks(domain, text).value[i])
  {
    CollectOk(Outcomes(Split(text, domain)[1..]));
  }

  /** With a non-empty address, `get_links` fails exactly when some piece after an
      occurrence of the address, once decoded, holds no delimiter. */
  lemma GetLinksFails(domain: string, text: string)
    requires |domain| > 0
    ensures GetLinks(domain, text).Err? <==> exists i :: 0 <= i < |Split(text, domain)[1..]| && NoDelimiterIn(Unquote(Split(text, domain)[1..][i]))
  {
    var pieces := Split(text, domain)[1..];
    if GetLinks(domain, text).Err? {
      var i := GetLinksFirstFailure(domain, text);
    } else {
      GetLinksSucceeds(domain, text);
      forall i | 0 <= i < |pieces| ensures !NoDelimiterIn(Unquote(pieces[i])) {
        ExtractFails(pieces[i]);
      }
    }
  }

  // ---------------------------------------------------------------------------------------
  // What a link looks like

  /** Re-encoding keeps `/`, `?` and `=` literally: it is `quote` with those three safe. */
  lemma QuoteLinkSpec(u: string)
    ensures QuoteLink(u) == QuoteBytes(Encode(u), LinkSafe)
    ensures forall i :: 0 <= i < |QuoteLink(u)| ==> QuotedChar(QuoteLink(u)[i], LinkSafe)
  {
    QuoteKeepingQuery(u);
    QuoteBytesAlphabet(Encode(u), LinkSafe);
  }

  /** The re-encoded url holds no delimiter and no backslash. */
  lemma QuoteLinkClean(u: string)
    ensures forall i :: 0 <= i < |QuoteLink(u)| ==> !IsDelimiter(QuoteLink(u)[i]) && QuoteLink(u)[i] != '\\'
  {
    var q := QuoteLink(u);
    QuoteLinkSpec(u);
    forall i | 0 <= i < |q| ensures !IsDelimiter(q[i]) && q[i] != '\\' {
      QuotedNotDelimiter(q[i]);
    }
  }

  lemma QuotedNotDelimiter(c: char)
    requires QuotedChar(c, LinkSafe)
    ensures !IsDelimiter(c) && c != '\\'
  {
  }

  /** Every link starts with `/` and holds no delimiter and no backslash. */
  lemma LinkShape(piece: string)
    requires ExtractLink(piece).Ok?
    ensures var l := ExtractLink(piece).value;
            |l| > 0 && l[0] == '/' && forall i :: 0 <= i < |l| ==> !IsDelimiter(l[i]) && l[i] != '\\'
  {
    var x := Unquote(piece);
    var u := Strip(DropFeedQuery(x[..FirstDelimiter(x)]), '\\');
    QuoteLinkClean(u);
    SlashPrefixClean(QuoteLink(u));
  }

  lemma SlashPrefixClean(q: string)
    requires forall i :: 0 <= i < |q| ==> !IsDelimiter(q[i]) && q[i] != '\\'
    ensures var l := "/" + q;
            |l| > 0 && l[0] == '/' && forall i :: 0 <= i < |l| ==> !IsDelimiter(l[i]) && l[i] != '\\'
  {
    var l := "/" + q;
    assert forall i :: 1 <= i < |l| ==> l[i] == q[i - 1];
  }

  /** Every link `get_links` returns starts with `/` and holds no delimiter. */
  lemma GetLinksShape(domain: string, text: string)
    requires |domain| > 0 && GetLinks(domain, text).Ok?
    ensures forall l :: l in GetLinks(domain, text).value ==>
              |l| > 0 && l[0] == '/' && forall i :: 0 <= i < |l| ==> !IsDelimiter(l[i]) && l[i] != '\\'
  {
    var pieces := Split(text, domain)[1..];
    var links := GetLinks(domain, text).value;
    GetLinksSucceeds(domain, text);
    forall l | l in links ensures |l| > 0 && l[0] == '/' && forall i :: 0 <= i < |l| ==> !IsDelimiter(l[i]) && l[i] != '\\' {
      var k :| 0 <= k < |links| && links[k] == l;
      LinkShape(pieces[k]);
    }
  }

  // ---------------------------------------------------------------------------------------
  // Feeds

  /** A cut url holding `feed/?` loses everything from its first `?` on. */
  lemma FeedQueryDropped(cut: string) returns (p: nat)
    requires Find(cut, "feed/?") != -1
    ensures p == Find(cut, "?") && p < |cut|
    ensures DropFeedQuery(cut) == cut[..p] && '?' !in cut[..p]
  {
    FindSpec(cut, "feed/?");
    var f := Find(cut, "feed/?");
    assert cut[f + 5] == cut[f..f + 6][5] == '?';
    FindChar(cut, '?');
    p := Find(cut, "?");
    SplitUnfold(cut, "?", p, p + 1);
  }

  /** Stripping keeps a character out. */
  lemma StripKeepsAbsent(s: string, c: char, d: char)
    requires c !in s
    ensures c !in Strip(s, d)
  {
    var i, j := StripSpec(s, d);
  }

  /** `quote` only writes `?` for a `?` byte, and UTF-8 only has one for a `?` character. */
  lemma QuoteLinkNoQuestion(u: string)
    requires '?' !in u
    ensures '?' !in QuoteLink(u)
  {
    QuoteLinkSpec(u);
    EncodeAbsent(u, '?');
    QuoteBytesAbsent(Encode(u), LinkSafe, '?');
  }

  /** An ASCII character absent from a text is absent, as a byte, from its encoding. */
  lemma {:induction false} EncodeAbsent(s: string, c: char)
    requires c as int < 0x80 && c !in s
    ensures c as int !in Encode(s)
    decreases |s|
  {
    if s != [] {
      EncodeAbsent(s[1..], c);
      assert s[0] != c;
    }
  }

  /** A character other than `%` and the hex digits is written only for its own byte. */
  lemma {:induction false} QuoteBytesAbsent(bs: seq<byte>, safe: set<byte>, c: char)
    requires c as int < 0x80 && c as int !in bs && c != '%' && !('0' <= c <= '9') && !('A' <= c <= 'F')
    ensures c !in QuoteBytes(bs, safe)
    decreases |bs|
  {
    if bs != [] {
      QuoteBytesAbsent(bs[1..], safe, c);
      QuoteByteAbsent(bs[0], safe, c);
      AbsentAppend(QuoteByte(bs[0], safe), QuoteBytes(bs[1..], safe), c);
    }
  }

  lemma QuoteByteAbsent(b: byte, safe: set<byte>, c: char)
    requires c as int < 0x80 && c as int != b && c != '%' && !('0' <= c <= '9') && !('A' <= c <= 'F')
    ensures c !in QuoteByte(b, safe)
  {
    if !Kept(b, safe) {
      HexDigitUpper(b / 16);
      HexDigitUpper(b % 16);
    }
  }

  lemma HexDigitUpper(n: int)
    requires 0 <= n < 16
    ensures ('0' <= HexDigit(n) <= '9') || ('A' <= HexDigit(n) <= 'F')
  {
  }

  lemma AbsentAppend(s: string, t: string, c: char)
    requires c !in s && c !in t
    ensures c !in s + t
  {
  }

  /** A feed link takes no query: when the cut url holds `feed/?`, the link is the re-encoded
      text before its first `?`, and has no `?` at all. */
  lemma FeedLink(piece: string) returns (cut: string, p: nat)
    requires FirstDelimiter(Unquote(piece)) != -1
    requires Find(Unquote(piece)[..FirstDelimiter(Unquote(piece))], "feed/?") != -1
    ensures cut == Unquote(piece)[..FirstDelimiter(Unquote(piece))]
    ensures p == Find(cut, "?") && p < |cut|
    ensures ExtractLink(piece) == Ok("/" + QuoteLink(Strip(cut[..p], '\\')))
    ensures '?' !in ExtractLink(piece).value
  {
    cut := Unquote(piece)[..FirstDelimiter(Unquote(piece))];
    p := FeedQueryDropped(cut);
    var u := Strip(cut[..p], '\\');
    StripKeepsAbsent(cut[..p], '?', '\\');
    QuoteLinkNoQuestion(u);
  }

  // ---------------------------------------------------------------------------------------
  // The doctests, generalised

  /** A character the link keeps as it is: an ASCII letter or digit, `_.-~`, `/`, `?`, `=`. */
  predicate PlainChar(c: char)
  {
    c as int < 0x80 && Kept(c as int, LinkSafe)
  }

  predicate Plain(s: string)
  {
    forall i :: 0 <= i < |s| ==> PlainChar(s[i])
  }

  /** A url made of plain characters is re-encoded as itself. */
  lemma {:induction false} QuotePlain(s: string)
    requires Plain(s)
    ensures QuoteBytes(Encode(s), LinkSafe) == s
    decreases |s|
  {
    if s != [] {
      QuotePlain(s[1..]);
      var b := s[0] as int;
      assert EncodeChar(s[0]) == [b];
      ConsAppend([b], Encode(s[1..]));
      ConsSplit(s);
    }
  }

  /** The re-encoded url of a plain path is the path. */
  lemma QuoteLinkPlain(s: string)
    requires Plain(s)
    ensures QuoteLink(s) == s
  {
    QuoteLinkSpec(s);
    QuotePlain(s);
  }

  /** A non-ASCII character comes out as the percent-escapes of its UTF-8 bytes: `è` is
      `%C3%A8`. */
  lemma QuoteLinkAccent(a: string, b: string)
    requires Plain(a) && Plain(b)
    ensures QuoteLink(a + "\U{E8}" + b) == a + "%C3%A8" + b
  {
    var e := "\U{E8}";
    QuoteLinkSpec(a + e + b);
    EncodeAppend(a + e, b);
    EncodeAppend(a, e);
    QuoteBytesAppend(Encode(a) + Encode(e), Encode(b), LinkSafe);
    QuoteBytesAppend(Encode(a), Encode(e), LinkSafe);
    QuotePlain(a);
    QuotePlain(b);
    QuoteAccent();
  }

  lemma QuoteAccent()
    ensures QuoteBytes(Encode("\U{E8}"), LinkSafe) == "%C3%A8"
  {
    var e := "\U{E8}";
    assert Encode(e) == EncodeChar(e[0]) == [0xC3, 0xA8];
    var bs: seq<byte> := [0xC3, 0xA8];
    assert QuoteBytes(bs[1..], LinkSafe) == Escape(0xA8) == "%A8";
    assert QuoteBytes(bs, LinkSafe) == Escape(0xC3) + "%A8";
  }

  /** A piece that is a path without `%`, `\\` or a delimiter, then a delimiter, then text
      without `%`: decoding changes nothing and the link ends right before the delimiter. */
  lemma CutAt(s: string, path: string, d: char, rest: string)
    requires s == path + [d] + rest
    requires NoDelimiterIn(path) && IsDelimiter(d) && '%' !in path && '%' !in rest
    ensures Unquote(s) == s && FirstDelimiter(s) == |path| && s[..|path|] == path
  {
    assert '%' !in s;
    UnquoteNoPercent(s);
    CutDelimiter(s, path, d, rest);
  }

  lemma CutDelimiter(s: string, path: string, d: char, rest: string)
    requires s == path + [d] + rest && NoDelimiterIn(path) && IsDelimiter(d)
    ensures FirstDelimiter(s) == |path|
  {
    FirstDelimiterSpec(s);
    var m := FirstDelimiter(s);
    assert s[|path|] == d;
  }

  /** The link of such a piece is `/` and the re-encoded path, when the path is no feed with
      a query. */
  lemma CutLink(path: string, d: char, rest: string)
    requires NoDelimiterIn(path) && IsDelimiter(d) && '%' !in path && '%' !in rest && '\\' !in path
    requires Find(path, "feed/?") == -1
    ensures ExtractLink(path + [d] + rest) == Ok("/" + QuoteLink(path))
  {
    var s := path + [d] + rest;
    CutAt(s, path, d, rest);
    StripAbsent(path, '\\');
  }

  /** Text holding one occurrence of the site address, placed after `pre`, has one piece:
      what follows the address. `k` names a character of the address that occurs neither
      earlier in it, nor in `pre`, nor in the piece. */
  lemma OnePiece(domain: string, pre: string, piece: string, k: nat)
    requires k < |domain| && domain[k] !in pre + domain[..k] && domain[k] !in piece
    ensures Split(pre + domain + piece, domain)[1..] == [piece]
  {
    var text := pre + domain + piece;
    FindAfter(pre, domain, piece, k);
    NotContainsByChar(piece, domain, k);
    FindSpec(piece, domain);
    SplitUnfold(text, domain, |pre|, |pre| + |domain|);
    DropAppend(pre + domain, piece);
    SplitNone(piece, domain);
  }

  /** `get_links` on text with one occurrence of the address gives that piece's link. */
  lemma GetLinksOne(domain: string, pre: string, piece: string, k: nat, link: string)
    requires k < |domain| && domain[k] !in pre + domain[..k] && domain[k] !in piece
    requires ExtractLink(piece) == Ok(link)
    ensures GetLinks(domain, pre + domain + piece) == Ok([link])
  {
    OnePiece(domain, pre, piece, k);
    var rs := Outcomes([piece]);
    assert rs == [Ok(link)];
    assert rs[..0] == [];
    assert Collect(rs) == Ok([] + [link]);
    assert [] + [link] == [link];
  }

  /** Text with one occurrence of the address, followed by a clean path and a delimiter,
      gives the one link `/` and the re-encoded path. */
  lemma GetLinksCut(domain: string, pre: string, path: string, d: char, rest: string, k: nat)
    requires k < |domain| && domain[k] !in pre + domain[..k] && domain[k] !in path + [d] + rest
    requires NoDelimiterIn(path) && IsDelimiter(d) && '%' !in path && '%' !in rest && '\\' !in path
    requires Find(path, "feed/?") == -1
    ensures GetLinks(domain, pre + domain + (path + [d] + rest)) == Ok(["/" + QuoteLink(path)])
  {
    CutLink(path, d, rest);
    GetLinksOne(domain, pre, path + [d] + rest, k, "/" + QuoteLink(path));
  }

  /** Doctests 1 to 3 (1_fetch.py:56-61): a plain path (`wp-includes/js/wp-embed.min.js
      ?ver=4.9.7`, `wp-content/uploads/2018/01/cropped-Logo-2.png`) closed by a quote or a
      space comes back as `/` and the path, query included. */
  lemma GetLinksPlain(domain: string, pre: string, path: string, d: char, rest: string, k: nat)
    requires k < |domain| && domain[k] !in pre + domain[..k] && domain[k] !in path + [d] + rest
    requires Plain(path) && IsDelimiter(d) && '%' !in rest && Find(path, "feed/?") == -1
    ensures GetLinks(domain, pre + domain + (path + [d] + rest)) == Ok(["/" + path])
  {
    PlainClean(path);
    GetLinksCut(domain, pre, path, d, rest, k);
    QuoteLinkPlain(path);
  }

  /** Doctest 4 (1_fetch.py:62-63): the query of a feed is dropped, `feed/?someparam` gives
      `/feed/`. */
  lemma GetLinksFeed(domain: string, pre: string, stem: string, q: string, d: char, rest: string, k: nat)
    requires k < |domain| && domain[k] !in pre + domain[..k] && domain[k] !in stem + "?" + q + [d] + rest
    requires Plain(stem) && Plain(q) && '?' !in stem && EndsWith(stem, "feed/")
    requires IsDelimiter(d) && '%' !in rest
    ensures GetLinks(domain, pre + domain + (stem + "?" + q + [d] + rest)) == Ok(["/" + stem])
  {
    var path := stem + "?" + q;
    PlainAppend(stem, "?", q);
    PlainClean(path);
    CutAt(path + [d] + rest, path, d, rest);
    FeedIn(stem, q);
    FindAfter(stem, "?", q, 0);
    var cut, p := FeedLink(path + [d] + rest);
    assert path[..|stem|] == stem;
    PlainClean(stem);
    StripAbsent(stem, '\\');
    QuoteLinkPlain(stem);
    GetLinksOne(domain, pre, path + [d] + rest, k, "/" + stem);
  }

  /** Doctest 5 (1_fetch.py:64-65): a non-ASCII character is percent-encoded as UTF-8,
      `truite_ch` + `è` + `vre.jpg` gives `truite_ch%C3%A8vre.jpg`. */
  lemma GetLinksAccent(domain: string, pre: string, a: string, b: string, d: char, rest: string, k: nat)
    requires k < |domain| && domain[k] !in pre + domain[..k] && domain[k] !in a + "\U{E8}" + b + [d] + rest
    requires Plain(a) && Plain(b) && Find(a + "\U{E8}" + b, "feed/?") == -1
    requires IsDelimiter(d) && '%' !in rest
    ensures GetLinks(domain, pre + domain + (a + "\U{E8}" + b + [d] + rest)) == Ok(["/" + a + "%C3%A8" + b])
  {
    var path := a + "\U{E8}" + b;
    AccentClean(a, b);
    GetLinksCut(domain, pre, path, d, rest, k);
    QuoteLinkAccent(a, b);
    SlashJoin(a, "%C3%A8", b);
  }

  lemma SlashJoin(a: string, e: string, b: string)
    ensures "/" + (a + e + b) == "/" + a + e + b
  {
  }

  lemma PlainClean(s: string)
    requires Plain(s)
    ensures NoDelimiterIn(s) && '%' !in s && '\\' !in s
  {
    forall i | 0 <= i < |s| ensures !IsDelimiter(s[i]) && s[i] != '%' && s[i] != '\\' {
      assert PlainChar(s[i]);
    }
  }

  lemma PlainAppend(a: string, b: string, c: string)
    requires Plain(a) && Plain(b) && Plain(c)
    ensures Plain(a + b + c)
  {
  }

  lemma AccentClean(a: string, b: string)
    requires Plain(a) && Plain(b)
    ensures NoDelimiterIn(a + "\U{E8}" + b) && '%' !in a + "\U{E8}" + b && '\\' !in a + "\U{E8}" + b
  {
    PlainClean(a);
    PlainClean(b);
  }

  /** A stem ending in `feed/` followed by a query holds `feed/?`. */
  lemma FeedIn(stem: string, q: string)
    requires EndsWith(stem, "feed/")
    ensures Find(stem + "?" + q, "feed/?") != -1
  {
    var s := stem + "?" + q;
    var f := |stem| - 5;
    assert s[f..f + 6] == stem[f..] + "?";
    assert OccursAt(s, "feed/?", f);
    FindSpec(s, "feed/?");
  }
}
