/** Percent-encoding as Python's `urllib.parse` implements it (RFC 3986, section 2.1):
    `quote(s, safe='/')` encodes `s` as UTF-8 and writes every byte outside the unreserved
    set and `safe` as `%XX` with upper-case hex digits; `unquote(s)` turns each ASCII run of
    `s` into bytes (a `%` followed by two hex digits, of either case, is one byte; anything
    else stands for itself) and decodes those bytes as UTF-8 with 'replace'. */
module Percent {
  import opened PyStr
  import opened Utf8

  /** The bytes `quote` never escapes: ASCII letters, digits and `_.-~`. */
  predicate AlwaysSafe(b: byte)
  {
    ('A' as int <= b <= 'Z' as int) || ('a' as int <= b <= 'z' as int)
    || ('0' as int <= b <= '9' as int) || b == '_' as int || b == '.' as int
    || b == '-' as int || b == '~' as int
  }

  function HexDigit(n: int): (c: char)
    requires 0 <= n < 16
  {
    "0123456789ABCDEF"[n]
  }

  predicate IsHexChar(c: char)
  {
    ('0' <= c <= '9') || ('a' <= c <= 'f') || ('A' <= c <= 'F')
  }

  function HexValue(c: char): (n: int)
    requires IsHexChar(c)
    ensures 0 <= n < 16
  {
    if '0' <= c <= '9' then c as int - '0' as int
    else if 'a' <= c <= 'f' then c as int - 'a' as int + 10
    else c as int - 'A' as int + 10
  }

  /** `safe` is kept literally only for its ASCII members, as `quote_from_bytes` does. */
  predicate Kept(b: byte, safe: set<byte>)
  {
    AlwaysSafe(b) || (b < 0x80 && b in safe)
  }

  /** `%XX` for one byte */
  function Escape(b: byte): string
  {
    ['%', HexDigit(b / 16), HexDigit(b % 16)]
  }

  function QuoteByte(b: byte, safe: set<byte>): string
  {
    if Kept(b, safe) then [b as char] else Escape(b)
  }

  /** `quote_from_bytes(bs, safe)` */
  function QuoteBytes(bs: seq<byte>, safe: set<byte>): string
  {
    if bs == [] then [] else QuoteByte(bs[0], safe) + QuoteBytes(bs[1..], safe)
  }

  /** `quote(s)`, whose default `safe` is `/` */
  function Quote(s: string): string
  {
    QuoteBytes(Encode(s), {'/' as int})
  }

  /** `unquote_to_bytes` on a run of ASCII characters. */
  function PercentDecode(s: string): seq<byte>
    requires forall i :: 0 <= i < |s| ==> s[i] as int < 0x80
  {
    if s == [] then []
    else if s[0] == '%' && |s| >= 3 && IsHexChar(s[1]) && IsHexChar(s[2]) then
      [HexValue(s[1]) * 16 + HexValue(s[2])] + PercentDecode(s[3..])
    else [s[0] as int] + PercentDecode(s[1..])
  }

  /** The number of leading ASCII characters. */
  function AsciiRun(s: string): (n: nat)
    ensures n <= |s|
    ensures forall i :: 0 <= i < n ==> s[i] as int < 0x80
    ensures n < |s| ==> s[n] as int >= 0x80
  {
    if s == [] || s[0] as int >= 0x80 then 0 else 1 + AsciiRun(s[1..])
  }

  /** `unquote(s)`: non-ASCII characters are copied, every maximal ASCII run is
      percent-decoded to bytes and those bytes are decoded as UTF-8 with 'replace'. */
  function Unquote(s: string): string
    decreases |s|
  {
    if s == [] then []
    else if s[0] as int >= 0x80 then [s[0]] + Unquote(s[1..])
    else
      var n := AsciiRun(s);
      Decode(PercentDecode(s[..n])) + Unquote(s[n..])
  }

  // ---------------------------------------------------------------------------------------
  // Properties

  predicate IsAscii(s: string)
  {
    forall i :: 0 <= i < |s| ==> s[i] as int < 0x80
  }

  lemma {:induction false} QuoteBytesAppend(a: seq<byte>, b: seq<byte>, safe: set<byte>)
    ensures QuoteBytes(a + b, safe) == QuoteBytes(a, safe) + QuoteBytes(b, safe)
    decreases |a|
  {
    if a == [] {
      assert a + b == b;
    } else {
      ConsAppend(a, b);
      QuoteBytesAppend(a[1..], b, safe);
    }
  }

  /** A character `quote_from_bytes` may write: a kept byte, `%` or an upper-case hex digit. */
  predicate QuotedChar(c: char, safe: set<byte>)
  {
    c as int < 0x80 && (Kept(c as int, safe) || c == '%' || ('0' <= c <= '9') || ('A' <= c <= 'F'))
  }

  predicate AllQuoted(s: string, safe: set<byte>)
  {
    forall i :: 0 <= i < |s| ==> QuotedChar(s[i], safe)
  }

  lemma QuoteByteAlphabet(x: byte, safe: set<byte>)
    ensures AllQuoted(QuoteByte(x, safe), safe)
  {
    if !Kept(x, safe) {
      var e := Escape(x);
      assert QuotedChar(e[0], safe) && QuotedChar(e[1], safe) && QuotedChar(e[2], safe);
    }
  }

  lemma AllQuotedAppend(s: string, t: string, safe: set<byte>)
    requires AllQuoted(s, safe) && AllQuoted(t, safe)
    ensures AllQuoted(s + t, safe)
  {
    forall i | |s| <= i < |s + t| ensures QuotedChar((s + t)[i], safe) {
      assert (s + t)[i] == t[i - |s|];
    }
  }

  /** Every character `quote_from_bytes` writes is a kept byte, `%` or an upper-case hex
      digit; in particular the output is ASCII. */
  lemma {:induction false} QuoteBytesAlphabet(bs: seq<byte>, safe: set<byte>)
    ensures forall i :: 0 <= i < |QuoteBytes(bs, safe)| ==> QuotedChar(QuoteBytes(bs, safe)[i], safe)
    decreases |bs|
  {
    if bs != [] {
      QuoteBytesAlphabet(bs[1..], safe);
      QuoteByteAlphabet(bs[0], safe);
      AllQuotedAppend(QuoteByte(bs[0], safe), QuoteBytes(bs[1..], safe), safe);
    }
  }

  lemma QuoteBytesAscii(bs: seq<byte>, safe: set<byte>)
    ensures IsAscii(QuoteBytes(bs, safe))
  {
    QuoteBytesAlphabet(bs, safe);
  }

  /** Different bytes have different escapes. */
  lemma EscapeInjective(a: byte, b: byte)
    ensures Escape(a) == Escape(b) ==> a == b
  {
    HexRoundTrip(a / 16);
    HexRoundTrip(a % 16);
    HexRoundTrip(b / 16);
    HexRoundTrip(b % 16);
    if Escape(a) == Escape(b) {
      assert Escape(a)[1] == Escape(b)[1] && Escape(a)[2] == Escape(b)[2];
      assert a == a / 16 * 16 + a % 16 && b == b / 16 * 16 + b % 16;
    }
  }

  lemma HexRoundTrip(n: int)
    requires 0 <= n < 16
    ensures IsHexChar(HexDigit(n)) && HexValue(HexDigit(n)) == n
  {
  }

  /** The byte `x`, quoted, is replaced by `b` exactly when `x` is `b`. */
  lemma UnescapeToken(x: byte, rest: string, safe: set<byte>, b: byte)
    requires b < 0x80 && b != '%' as int && !AlwaysSafe(b)
    requires forall y :: y in safe && y < 0x80 ==> y != '%' as int
    ensures Replace(QuoteByte(x, safe) + rest, Escape(b), [b as char])
         == QuoteByte(x, safe + {b}) + Replace(rest, Escape(b), [b as char])
  {
    var p := Escape(b);
    if Kept(x, safe) {
      assert QuoteByte(x, safe) == QuoteByte(x, safe + {b}) == [x as char];
      ReplaceSkip([x as char], rest, p, [b as char]);
    } else if x == b {
      assert QuoteByte(x, safe) == p && QuoteByte(x, safe + {b}) == [b as char];
      ReplaceFront(p, rest, [b as char]);
    } else {
      assert QuoteByte(x, safe) == QuoteByte(x, safe + {b}) == Escape(x);
      UnescapeOther(x, rest, b);
    }
  }

  lemma UnescapeOther(x: byte, rest: string, b: byte)
    requires x != b
    ensures Replace(Escape(x) + rest, Escape(b), [b as char]) == Escape(x) + Replace(rest, Escape(b), [b as char])
  {
    var p := Escape(b);
    var e := Escape(x);
    EscapeNotStart(x, b, rest);
    ReplaceStep(e + rest, p, [b as char]);
    ConsAppend(e, rest);
    EscapeTail(x);
    ReplaceSkip(e[1..], rest, p, [b as char]);
    ConsAssoc(e, Replace(rest, p, [b as char]));
  }

  lemma EscapeNotStart(x: byte, b: byte, rest: string)
    requires x != b
    ensures |Escape(x) + rest| > 0 && !StartsWith(Escape(x) + rest, Escape(b))
  {
    EscapeInjective(x, b);
    var s := Escape(x) + rest;
    assert s[..3] == Escape(x);
  }

  lemma EscapeTail(x: byte)
    ensures '%' !in Escape(x)[1..]
  {
    assert Escape(x)[1..] == [HexDigit(x / 16), HexDigit(x % 16)];
  }

  /** Turning the escape of an ASCII byte `b` back into `b` is the same as quoting with `b`
      added to the safe bytes. */
  lemma {:induction false} UnescapeOne(bs: seq<byte>, safe: set<byte>, b: byte)
    requires b < 0x80 && b != '%' as int && !AlwaysSafe(b)
    requires forall x :: x in safe && x < 0x80 ==> x != '%' as int
    ensures Replace(QuoteBytes(bs, safe), Escape(b), [b as char]) == QuoteBytes(bs, safe + {b})
    decreases |bs|
  {
    if bs != [] {
      UnescapeOne(bs[1..], safe, b);
      UnescapeToken(bs[0], QuoteBytes(bs[1..], safe), safe, b);
    }
  }

  /** `quote(u).replace("%3F", "?").replace("%3D", "=")` is `quote` with `/`, `?` and `=`
      all kept literally. */
  lemma QuoteKeepingQuery(u: string)
    ensures Replace(Replace(Quote(u), "%3F", "?"), "%3D", "=") == QuoteBytes(Encode(u), {'/' as int, '?' as int, '=' as int})
  {
    var bs := Encode(u);
    assert Escape('?' as int) == "%3F";
    assert Escape('=' as int) == "%3D";
    UnescapeOne(bs, {'/' as int}, '?' as int);
    UnescapeOne(bs, {'/' as int, '?' as int}, '=' as int);
    assert {'/' as int} + {'?' as int} == {'/' as int, '?' as int};
    assert {'/' as int, '?' as int} + {'=' as int} == {'/' as int, '?' as int, '=' as int};
  }

  /** Percent-decoding undoes `quote_from_bytes` when `%` itself is never kept. */
  lemma {:induction false} PercentDecodeQuote(bs: seq<byte>, safe: set<byte>)
    requires forall x :: x in safe && x < 0x80 ==> x != '%' as int
    ensures IsAscii(QuoteBytes(bs, safe))
    ensures PercentDecode(QuoteBytes(bs, safe)) == bs
    decreases |bs|
  {
    QuoteBytesAscii(bs, safe);
    if bs != [] {
      PercentDecodeQuote(bs[1..], safe);
      PercentDecodeToken(bs[0], QuoteBytes(bs[1..], safe), safe);
      ConsSplit(bs);
    }
  }

  /** One quoted byte, percent-decoded, gives that byte back. */
  lemma PercentDecodeToken(x: byte, rest: string, safe: set<byte>)
    requires forall y :: y in safe && y < 0x80 ==> y != '%' as int
    requires IsAscii(QuoteByte(x, safe) + rest) && IsAscii(rest)
    ensures PercentDecode(QuoteByte(x, safe) + rest) == [x] + PercentDecode(rest)
  {
    if Kept(x, safe) {
      ConsAppend([x as char], rest);
    } else {
      PercentDecodeEscape(x, rest);
    }
  }

  lemma PercentDecodeEscape(x: byte, rest: string)
    requires IsAscii(Escape(x) + rest) && IsAscii(rest)
    ensures PercentDecode(Escape(x) + rest) == [x] + PercentDecode(rest)
  {
    var s := Escape(x) + rest;
    HexRoundTrip(x / 16);
    HexRoundTrip(x % 16);
    assert s[0] == '%' && s[1] == HexDigit(x / 16) && s[2] == HexDigit(x % 16);
    DropAppend(Escape(x), rest);
  }

  lemma {:induction false} AsciiRunAll(s: string)
    requires IsAscii(s)
    ensures AsciiRun(s) == |s|
    decreases |s|
  {
    if s != [] {
      AsciiRunAll(s[1..]);
    }
  }

  lemma UnquoteAscii(s: string)
    requires IsAscii(s)
    ensures Unquote(s) == Decode(PercentDecode(s))
  {
    if s != [] {
      AsciiRunAll(s);
      assert s[..|s|] == s;
    }
  }

  /** `unquote` inverts `quote`: the text is recovered exactly. */
  lemma UnquoteQuote(s: string)
    ensures Unquote(Quote(s)) == s
  {
    var safe: set<byte> := {'/' as int};
    PercentDecodeQuote(Encode(s), safe);
    UnquoteAscii(Quote(s));
    DecodeEncode(s);
  }

  /** Percent-decoding is the identity on ASCII text without `%`. */
  lemma {:induction false} PercentDecodeNoPercent(s: string)
    requires IsAscii(s) && '%' !in s
    ensures PercentDecode(s) == Encode(s)
    decreases |s|
  {
    if s != [] {
      PercentDecodeNoPercent(s[1..]);
    }
  }

  /** Decoding ASCII bytes gives the characters with those codes. */
  lemma {:induction false} DecodeAscii(s: string)
    requires IsAscii(s)
    ensures Decode(Encode(s)) == s
  {
    DecodeEncode(s);
  }

  lemma UnquoteRunNoPercent(run: string)
    requires IsAscii(run) && '%' !in run
    ensures Decode(PercentDecode(run)) == run
  {
    PercentDecodeNoPercent(run);
    DecodeEncode(run);
  }

  /** `unquote` leaves a string without `%` unchanged (CPython returns it without
      looking further). */
  lemma {:induction false} UnquoteNoPercent(s: string)
    requires '%' !in s
    ensures Unquote(s) == s
    decreases |s|
  {
    if s != [] {
      if s[0] as int < 0x80 {
        var n := AsciiRun(s);
        RunSlices(s, n);
        UnquoteRunNoPercent(s[..n]);
        UnquoteNoPercent(s[n..]);
        Rejoin(s, n);
      } else {
        UnquoteNoPercent(s[1..]);
        ConsSplit(s);
      }
    }
  }

  /** The ASCII run at the front of a text without `%`, and what follows it. */
  lemma RunSlices(s: string, n: nat)
    requires '%' !in s && n == AsciiRun(s)
    ensures IsAscii(s[..n]) && '%' !in s[..n] && '%' !in s[n..]
  {
    assert forall i :: 0 <= i < n ==> s[..n][i] == s[i];
  }
}
