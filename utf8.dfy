/** UTF-8 as Python's codec implements it: `str.encode('utf-8')`, and `bytes.decode('utf-8',
    errors)` both in the strict form (invalid input raises) and in the 'replace' form, where
    every maximal ill-formed subpart becomes U+FFFD. Characters are Unicode scalar values. */
module Utf8 {

  type byte = b: int | 0 <= b < 256

  const Replacement: char := '\U{FFFD}'

  /** The UTF-8 encoding of one scalar value. */
  function EncodeChar(c: char): (bs: seq<byte>)
    ensures 1 <= |bs| <= 4
  {
    var n := c as int;
    if n < 0x80 then [n]
    else if n < 0x800 then [0xC0 + n / 64, 0x80 + n % 64]
    else if n < 0x10000 then [0xE0 + n / 4096, 0x80 + n / 64 % 64, 0x80 + n % 64]
    else [0xF0 + n / 262144, 0x80 + n / 4096 % 64, 0x80 + n / 64 % 64, 0x80 + n % 64]
  }

  /** `s.encode('utf-8')` */
  function Encode(s: string): seq<byte>
  {
    if s == [] then [] else EncodeChar(s[0]) + Encode(s[1..])
  }

  predicate IsCont(b: byte)
  {
    0x80 <= b <= 0xBF
  }

  /** One step of the decoder: the character produced, the number of bytes consumed and
      whether those bytes were a well-formed sequence. */
  datatype Step = Step(c: char, len: nat, ok: bool)

  function DecodeStep(bs: seq<byte>): (st: Step)
    requires |bs| > 0
    ensures 1 <= st.len <= |bs| && st.len <= 4
    ensures !st.ok ==> st.c == Replacement
  {
    var b0: int := bs[0];
    if b0 < 0x80 then Step(b0 as char, 1, true)
    else if 0xC2 <= b0 <= 0xDF then
      if |bs| >= 2 && IsCont(bs[1]) then Step(((b0 - 0xC0) * 64 + (bs[1] as int - 0x80)) as char, 2, true)
      else Step(Replacement, 1, false)
    else if 0xE0 <= b0 <= 0xEF then
      var lo := if b0 == 0xE0 then 0xA0 else 0x80;
      var hi := if b0 == 0xED then 0x9F else 0xBF;
      if |bs| < 2 || !(lo <= bs[1] <= hi) then Step(Replacement, 1, false)
      else if |bs| < 3 || !IsCont(bs[2]) then Step(Replacement, 2, false)
      else Step(((b0 - 0xE0) * 4096 + (bs[1] as int - 0x80) * 64 + (bs[2] as int - 0x80)) as char, 3, true)
    else if 0xF0 <= b0 <= 0xF4 then
      var lo := if b0 == 0xF0 then 0x90 else 0x80;
      var hi := if b0 == 0xF4 then 0x8F else 0xBF;
      if |bs| < 2 || !(lo <= bs[1] <= hi) then Step(Replacement, 1, false)
      else if |bs| < 3 || !IsCont(bs[2]) then Step(Replacement, 2, false)
      else if |bs| < 4 || !IsCont(bs[3]) then Step(Replacement, 3, false)
      else Step(((b0 - 0xF0) * 262144 + (bs[1] as int - 0x80) * 4096 + (bs[2] as int - 0x80) * 64 + (bs[3] as int - 0x80)) as char, 4, true)
    else Step(Replacement, 1, false)
  }

  /** `bs.decode('utf-8', 'replace')` */
  function Decode(bs: seq<byte>): string
    decreases |bs|
  {
    if bs == [] then [] else
      var st := DecodeStep(bs);
      [st.c] + Decode(bs[st.len..])
  }

  /** The bytes are well-formed UTF-8: strict decoding does not raise. */
  predicate Valid(bs: seq<byte>)
    decreases |bs|
  {
    bs == [] || (DecodeStep(bs).ok && Valid(bs[DecodeStep(bs).len..]))
  }

  datatype Option<T> = None | Some(value: T)

  /** `bs.decode('utf-8')` (strict): None stands for UnicodeDecodeError. */
  function DecodeStrict(bs: seq<byte>): (r: Option<string>)
    ensures r.Some? <==> Valid(bs)
    ensures r.Some? ==> r.value == Decode(bs)
  {
    if Valid(bs) then Some(Decode(bs)) else None
  }

  // ---------------------------------------------------------------------------------------
  // Properties

  lemma DecodeTwo(n: int, rest: seq<byte>)
    requires 0x80 <= n < 0x800
    ensures var bs: seq<byte> := [0xC0 + n / 64, 0x80 + n % 64] + rest;
            DecodeStep(bs) == Step(n as char, 2, true)
  {
  }

  /** The three bytes of a character in U+0800..U+FFFF (surrogates excluded). */
  lemma SplitThree(n: int) returns (b0: int, b1: int, b2: int)
    requires 0x800 <= n < 0xD800 || 0xE000 <= n < 0x10000
    ensures b0 == 0xE0 + n / 4096 && b1 == 0x80 + n / 64 % 64 && b2 == 0x80 + n % 64
    ensures 0xE0 <= b0 <= 0xEF && 0x80 <= b1 <= 0xBF && 0x80 <= b2 <= 0xBF
    ensures b0 == 0xE0 ==> 0xA0 <= b1
    ensures b0 == 0xED ==> b1 <= 0x9F
    ensures n == (b0 - 0xE0) * 4096 + (b1 - 0x80) * 64 + (b2 - 0x80)
  {
    var q, r := n / 4096, n % 4096;
    var r1, r2 := r / 64, r % 64;
    assert n == q * 4096 + r1 * 64 + r2;
    assert n / 64 == q * 64 + r1;
    assert n / 64 % 64 == r1;
    assert n % 64 == r2;
    b0, b1, b2 := 0xE0 + q, 0x80 + r1, 0x80 + r2;
  }

  lemma DecodeStepThree(b0: byte, b1: byte, b2: byte, rest: seq<byte>)
    requires 0xE0 <= b0 <= 0xEF && 0x80 <= b1 <= 0xBF && 0x80 <= b2 <= 0xBF
    requires b0 == 0xE0 ==> 0xA0 <= b1
    requires b0 == 0xED ==> b1 <= 0x9F
    ensures DecodeStep([b0, b1, b2] + rest) ==
            Step(((b0 - 0xE0) * 4096 + (b1 - 0x80) * 64 + (b2 - 0x80)) as char, 3, true)
  {
    var bs := [b0, b1, b2] + rest;
    assert bs[0] == b0 && bs[1] == b1 && bs[2] == b2;
  }

  lemma DecodeThree(n: int, rest: seq<byte>)
    requires 0x800 <= n < 0xD800 || 0xE000 <= n < 0x10000
    ensures var bs: seq<byte> := [0xE0 + n / 4096, 0x80 + n / 64 % 64, 0x80 + n % 64] + rest;
            DecodeStep(bs) == Step(n as char, 3, true)
  {
    var b0, b1, b2 := SplitThree(n);
    DecodeStepThree(b0, b1, b2, rest);
  }

  /** The four bytes of a character in U+10000..U+10FFFF. */
  lemma SplitFour(n: int) returns (b0: int, b1: int, b2: int, b3: int)
    requires 0x10000 <= n < 0x110000
    ensures b0 == 0xF0 + n / 262144 && b1 == 0x80 + n / 4096 % 64
    ensures b2 == 0x80 + n / 64 % 64 && b3 == 0x80 + n % 64
    ensures 0xF0 <= b0 <= 0xF4 && 0x80 <= b1 <= 0xBF && 0x80 <= b2 <= 0xBF && 0x80 <= b3 <= 0xBF
    ensures b0 == 0xF0 ==> 0x90 <= b1
    ensures b0 == 0xF4 ==> b1 <= 0x8F
    ensures n == (b0 - 0xF0) * 262144 + (b1 - 0x80) * 4096 + (b2 - 0x80) * 64 + (b3 - 0x80)
  {
    var q, r := n / 262144, n % 262144;
    var r1, s := r / 4096, r % 4096;
    var r2, r3 := s / 64, s % 64;
    assert n == q * 262144 + r1 * 4096 + r2 * 64 + r3;
    DivSplit(n, q, r1, r2, r3);
    b0, b1, b2, b3 := 0xF0 + q, 0x80 + r1, 0x80 + r2, 0x80 + r3;
  }

  lemma DivSplit(n: int, q: int, r1: int, r2: int, r3: int)
    requires 0 <= r1 < 64 && 0 <= r2 < 64 && 0 <= r3 < 64 && q >= 0
    requires n == q * 262144 + r1 * 4096 + r2 * 64 + r3
    ensures n / 4096 % 64 == r1 && n / 64 % 64 == r2 && n % 64 == r3
  {
    assert n == (q * 4096 + r1 * 64 + r2) * 64 + r3;
    assert n / 64 == q * 4096 + r1 * 64 + r2;
    assert n / 64 == (q * 64 + r1) * 64 + r2;
    assert n / 4096 == q * 64 + r1 by {
      assert n == (q * 64 + r1) * 4096 + (r2 * 64 + r3);
    }
  }

  lemma DecodeStepFour(b0: byte, b1: byte, b2: byte, b3: byte, rest: seq<byte>)
    requires 0xF0 <= b0 <= 0xF4 && 0x80 <= b1 <= 0xBF && 0x80 <= b2 <= 0xBF && 0x80 <= b3 <= 0xBF
    requires b0 == 0xF0 ==> 0x90 <= b1
    requires b0 == 0xF4 ==> b1 <= 0x8F
    ensures DecodeStep([b0, b1, b2, b3] + rest) ==
            Step(((b0 - 0xF0) * 262144 + (b1 - 0x80) * 4096 + (b2 - 0x80) * 64 + (b3 - 0x80)) as char, 4, true)
  {
    var bs := [b0, b1, b2, b3] + rest;
    assert bs[0] == b0 && bs[1] == b1 && bs[2] == b2 && bs[3] == b3;
  }

  lemma DecodeFour(n: int, rest: seq<byte>)
    requires 0x10000 <= n < 0x110000
    ensures var bs: seq<byte> := [0xF0 + n / 262144, 0x80 + n / 4096 % 64, 0x80 + n / 64 % 64, 0x80 + n % 64] + rest;
            DecodeStep(bs) == Step(n as char, 4, true)
  {
    var b0, b1, b2, b3 := SplitFour(n);
    DecodeStepFour(b0, b1, b2, b3, rest);
  }

  /** Decoding the encoding of a character, whatever follows it, gives that character back
      and consumes exactly its encoding. */
  lemma DecodeStepEncodeChar(c: char, rest: seq<byte>)
    ensures DecodeStep(EncodeChar(c) + rest) == Step(c, |EncodeChar(c)|, true)
  {
    var n := c as int;
    if n < 0x80 {
    } else if n < 0x800 {
      DecodeTwo(n, rest);
    } else if n < 0x10000 {
      DecodeThree(n, rest);
    } else {
      DecodeFour(n, rest);
    }
  }

  lemma {:induction false} EncodeAppend(s: string, t: string)
    ensures Encode(s + t) == Encode(s) + Encode(t)
    decreases |s|
  {
    if s == [] {
      assert s + t == t;
    } else {
      assert (s + t)[0] == s[0];
      assert (s + t)[1..] == s[1..] + t;
      EncodeAppend(s[1..], t);
      calc {
        Encode(s + t);
        EncodeChar(s[0]) + Encode(s[1..] + t);
        EncodeChar(s[0]) + (Encode(s[1..]) + Encode(t));
        (EncodeChar(s[0]) + Encode(s[1..])) + Encode(t);
      }
    }
  }

  /** Encoding then decoding gives the text back, and what the encoder writes is always
      well-formed. */
  lemma {:induction false} DecodeEncode(s: string)
    ensures Valid(Encode(s))
    ensures Decode(Encode(s)) == s
    decreases |s|
  {
    if s != [] {
      var e := EncodeChar(s[0]);
      var rest := Encode(s[1..]);
      DecodeStepEncodeChar(s[0], rest);
      DecodeEncode(s[1..]);
      assert (e + rest)[|e|..] == rest;
      assert [s[0]] + s[1..] == s;
    }
  }

  lemma EncodeTwo(b0: int, b1: int)
    requires 0xC2 <= b0 <= 0xDF && 0x80 <= b1 <= 0xBF
    ensures var n := (b0 - 0xC0) * 64 + (b1 - 0x80);
            n / 64 == b0 - 0xC0 && n % 64 == b1 - 0x80
  {
  }

  lemma EncodeThree(b0: int, b1: int, b2: int)
    requires 0xE0 <= b0 <= 0xEF && 0x80 <= b1 <= 0xBF && 0x80 <= b2 <= 0xBF
    ensures var n := (b0 - 0xE0) * 4096 + (b1 - 0x80) * 64 + (b2 - 0x80);
            n / 4096 == b0 - 0xE0 && n / 64 % 64 == b1 - 0x80 && n % 64 == b2 - 0x80
  {
    var n := (b0 - 0xE0) * 4096 + (b1 - 0x80) * 64 + (b2 - 0x80);
    var m := (b0 - 0xE0) * 64 + (b1 - 0x80);
    assert n == m * 64 + (b2 - 0x80);
    assert n / 64 == m;
  }

  lemma EncodeFour(b0: int, b1: int, b2: int, b3: int)
    requires 0xF0 <= b0 <= 0xF4 && 0x80 <= b1 <= 0xBF && 0x80 <= b2 <= 0xBF && 0x80 <= b3 <= 0xBF
    ensures var n := (b0 - 0xF0) * 262144 + (b1 - 0x80) * 4096 + (b2 - 0x80) * 64 + (b3 - 0x80);
            n / 262144 == b0 - 0xF0 && n / 4096 % 64 == b1 - 0x80 && n / 64 % 64 == b2 - 0x80 && n % 64 == b3 - 0x80
  {
    var n := (b0 - 0xF0) * 262144 + (b1 - 0x80) * 4096 + (b2 - 0x80) * 64 + (b3 - 0x80);
    var m1 := (b0 - 0xF0) * 64 + (b1 - 0x80);
    var m2 := m1 * 64 + (b2 - 0x80);
    assert n == m2 * 64 + (b3 - 0x80);
    assert n / 64 == m2;
    assert m2 / 64 == m1;
    assert n / 4096 == m1;
  }

  lemma ReencodeTwo(bs: seq<byte>)
    requires |bs| >= 2 && 0xC2 <= bs[0] <= 0xDF && IsCont(bs[1])
    ensures EncodeChar(((bs[0] as int - 0xC0) * 64 + (bs[1] as int - 0x80)) as char) == bs[..2]
  {
    EncodeTwo(bs[0], bs[1]);
  }

  lemma ReencodeThree(bs: seq<byte>)
    requires |bs| >= 3 && 0xE0 <= bs[0] <= 0xEF && IsCont(bs[1]) && IsCont(bs[2])
    requires bs[0] == 0xE0 ==> 0xA0 <= bs[1]
    requires bs[0] == 0xED ==> bs[1] <= 0x9F
    ensures EncodeChar(((bs[0] as int - 0xE0) * 4096 + (bs[1] as int - 0x80) * 64 + (bs[2] as int - 0x80)) as char) == bs[..3]
  {
    EncodeThree(bs[0], bs[1], bs[2]);
  }

  lemma ReencodeFour(bs: seq<byte>)
    requires |bs| >= 4 && 0xF0 <= bs[0] <= 0xF4 && IsCont(bs[1]) && IsCont(bs[2]) && IsCont(bs[3])
    requires bs[0] == 0xF0 ==> 0x90 <= bs[1]
    requires bs[0] == 0xF4 ==> bs[1] <= 0x8F
    ensures EncodeChar(((bs[0] as int - 0xF0) * 262144 + (bs[1] as int - 0x80) * 4096 + (bs[2] as int - 0x80) * 64 + (bs[3] as int - 0x80)) as char) == bs[..4]
  {
    EncodeFour(bs[0], bs[1], bs[2], bs[3]);
  }

  /** A well-formed step re-encodes to the bytes it consumed. */
  lemma EncodeDecodeStep(bs: seq<byte>)
    requires |bs| > 0 && DecodeStep(bs).ok
    ensures EncodeChar(DecodeStep(bs).c) == bs[..DecodeStep(bs).len]
  {
    var b0: int := bs[0];
    if b0 < 0x80 {
    } else if b0 <= 0xDF {
      ReencodeTwo(bs);
    } else if b0 <= 0xEF {
      ReencodeThree(bs);
    } else {
      ReencodeFour(bs);
    }
  }

  lemma EncodeCons(c: char, t: string)
    ensures Encode([c] + t) == EncodeChar(c) + Encode(t)
  {
    assert ([c] + t)[0] == c && ([c] + t)[1..] == t;
  }

  /** Well-formed bytes survive a decode and re-encode unchanged. */
  lemma {:induction false} EncodeDecode(bs: seq<byte>)
    requires Valid(bs)
    ensures Encode(Decode(bs)) == bs
    decreases |bs|
  {
    if bs != [] {
      var st := DecodeStep(bs);
      EncodeDecodeStep(bs);
      EncodeDecode(bs[st.len..]);
      EncodeCons(st.c, Decode(bs[st.len..]));
      TakeDrop(bs, st.len);
    }
  }

  lemma TakeDrop(bs: seq<byte>, k: nat)
    requires k <= |bs|
    ensures bs[..k] + bs[k..] == bs
  {
  }

  /** ASCII characters encode to their own code, one byte each. */
  lemma EncodeAscii(s: string)
    requires forall i :: 0 <= i < |s| ==> s[i] as int < 0x80
    ensures |Encode(s)| == |s|
    ensures forall i :: 0 <= i < |s| ==> Encode(s)[i] == s[i] as int
  {
    if s != [] {
      EncodeAscii(s[1..]);
    }
  }
}
