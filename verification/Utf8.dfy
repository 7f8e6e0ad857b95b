/** UTF-8 as sections 3 and 4 of RFC 3629 define it: what TextEncoder writes, what a fatal
    TextDecoder accepts, and what a Rust `str` holds. A `char` is a Unicode scalar value. */
module Utf8 {
  import opened Bits
  import opened Options

  function EncodeChar(c: char): (bs: seq<Byte>)
    ensures 1 <= |bs| <= 4
  {
    var n: int := c as int;
    if n < 0x80 then One(n)
    else if n < 0x800 then Two(n / 0x40, n % 0x40)
    else if n < 0x1_0000 then Three(n / 0x40 / 0x40, n / 0x40 % 0x40, n % 0x40)
    else Four(n / 0x40 / 0x40 / 0x40, n / 0x40 / 0x40 % 0x40, n / 0x40 % 0x40, n % 0x40)
  }

  // The rows of the table in section 3, by the payload of each octet.
  function One(a: nat): seq<Byte>
    requires a < 0x80
  {
    [a]
  }

  function Two(a: nat, b: nat): seq<Byte>
    requires a < 0x20 && b < 0x40
  {
    [0xC0 + a, 0x80 + b]
  }

  function Three(a: nat, b: nat, c: nat): seq<Byte>
    requires a < 0x10 && b < 0x40 && c < 0x40
  {
    [0xE0 + a, 0x80 + b, 0x80 + c]
  }

  function Four(a: nat, b: nat, c: nat, d: nat): seq<Byte>
    requires a < 0x08 && b < 0x40 && c < 0x40 && d < 0x40
  {
    [0xF0 + a, 0x80 + b, 0x80 + c, 0x80 + d]
  }

  function Encode(s: string): (bs: seq<Byte>)
    ensures |s| <= |bs|
  {
    if s == [] then [] else EncodeChar(s[0]) + Encode(s[1..])
  }

  /** The number of bytes a text takes. */
  function Size(s: string): nat {
    |Encode(s)|
  }

  predicate IsTail(b: Byte) {
    0x80 <= b <= 0xBF
  }

  function Payload(b: Byte, marker: nat): int {
    b - marker
  }

  function Join2(a: int, b: int): int { 0x40 * a + b }
  function Join3(a: int, b: int, c: int): int { 0x40 * Join2(a, b) + c }
  function Join4(a: int, b: int, c: int, d: int): int { 0x40 * Join3(a, b, c) + d }

  /** One scalar value off the front, by the grammar of section 4; the branch for each lead byte
      says how far the second byte may range. */
  function DecodeChar(bs: seq<Byte>): (r: Option<(char, nat)>)
    ensures r.Some? ==> 1 <= r.value.1 <= 4 && r.value.1 <= |bs|
  {
    if |bs| == 0 then None
    else if bs[0] < 0x80 then Some((bs[0] as char, 1))
    else if 0xC2 <= bs[0] <= 0xDF then
      if |bs| >= 2 && IsTail(bs[1])
      then Some((Join2(Payload(bs[0], 0xC0), Payload(bs[1], 0x80)) as char, 2))
      else None
    else if 0xE0 <= bs[0] <= 0xEF then
      if |bs| >= 3 && SecondOfThree(bs[0], bs[1]) && IsTail(bs[2])
      then Some((Join3(Payload(bs[0], 0xE0), Payload(bs[1], 0x80), Payload(bs[2], 0x80)) as char, 3))
      else None
    else if 0xF0 <= bs[0] <= 0xF4 then
      if |bs| >= 4 && SecondOfFour(bs[0], bs[1]) && IsTail(bs[2]) && IsTail(bs[3])
      then Some((Join4(Payload(bs[0], 0xF0), Payload(bs[1], 0x80), Payload(bs[2], 0x80), Payload(bs[3], 0x80)) as char, 4))
      else None
    else None
  }

  predicate SecondOfThree(lead: Byte, b: Byte) {
    IsTail(b) && (lead == 0xE0 ==> b >= 0xA0) && (lead == 0xED ==> b <= 0x9F)
  }

  predicate SecondOfFour(lead: Byte, b: Byte) {
    IsTail(b) && (lead == 0xF0 ==> b >= 0x90) && (lead == 0xF4 ==> b <= 0x8F)
  }

  /** The strict decoder: None on the first malformed sequence. */
  function Decode(bs: seq<Byte>): (r: Option<string>) {
    if bs == [] then Some([])
    else match DecodeChar(bs) {
      case None => None
      case Some((c, k)) =>
        match Decode(bs[k..]) {
          case None => None
          case Some(s) => Some([c] + s)
        }
    }
  }

  // ── One character ───────────────────────────────────────────────────────────

  lemma Split2(n: nat)
    ensures n == Join2(n / 0x40, n % 0x40) && n % 0x40 < 0x40
  {
  }

  lemma Split3(n: nat)
    ensures n == Join3(n / 0x40 / 0x40, n / 0x40 % 0x40, n % 0x40) && n % 0x40 < 0x40 && n / 0x40 % 0x40 < 0x40
  {
    Split2(n);
    Split2(n / 0x40);
  }

  lemma Split4(n: nat)
    ensures n == Join4(n / 0x40 / 0x40 / 0x40, n / 0x40 / 0x40 % 0x40, n / 0x40 % 0x40, n % 0x40)
  {
    Split2(n);
    Split3(n / 0x40);
  }

  lemma JoinSplit2(a: nat, b: nat)
    requires b < 0x40
    ensures Join2(a, b) / 0x40 == a && Join2(a, b) % 0x40 == b
  {
  }

  lemma DecodeTwo(a: nat, b: nat, rest: seq<Byte>)
    requires a < 0x20 && b < 0x40 && Join2(a, b) >= 0x80
    ensures DecodeChar(Two(a, b) + rest) == Some((Join2(a, b) as char, 2))
  {
  }

  lemma DecodeThree(a: nat, b: nat, c: nat, rest: seq<Byte>)
    requires a < 0x10 && b < 0x40 && c < 0x40 && Join3(a, b, c) >= 0x800
    requires !(0xD800 <= Join3(a, b, c) < 0xE000)
    ensures DecodeChar(Three(a, b, c) + rest) == Some((Join3(a, b, c) as char, 3))
  {
  }

  lemma DecodeFour(a: nat, b: nat, c: nat, d: nat, rest: seq<Byte>)
    requires a < 0x08 && b < 0x40 && c < 0x40 && d < 0x40 && 0x1_0000 <= Join4(a, b, c, d) < 0x11_0000
    ensures DecodeChar(Four(a, b, c, d) + rest) == Some((Join4(a, b, c, d) as char, 4))
  {
  }

  lemma DecodeEncodedChar(c: char, rest: seq<Byte>)
    ensures DecodeChar(EncodeChar(c) + rest) == Some((c, |EncodeChar(c)|))
  {
    var n: int := c as int;
    if n < 0x80 {
    } else if n < 0x800 {
      Split2(n);
      DecodeTwo(n / 0x40, n % 0x40, rest);
    } else if n < 0x1_0000 {
      Split3(n);
      DecodeThree(n / 0x40 / 0x40, n / 0x40 % 0x40, n % 0x40, rest);
    } else {
      Split4(n);
      DecodeFour(n / 0x40 / 0x40 / 0x40, n / 0x40 / 0x40 % 0x40, n / 0x40 % 0x40, n % 0x40, rest);
    }
  }

  lemma EncodeTwo(a: nat, b: nat)
    requires a < 0x20 && b < 0x40 && 0x80 <= Join2(a, b)
    ensures EncodeChar(Join2(a, b) as char) == Two(a, b)
  {
    JoinSplit2(a, b);
  }

  lemma EncodeThree(a: nat, b: nat, c: nat)
    requires a < 0x10 && b < 0x40 && c < 0x40 && 0x800 <= Join3(a, b, c)
    requires !(0xD800 <= Join3(a, b, c) < 0xE000)
    ensures EncodeChar(Join3(a, b, c) as char) == Three(a, b, c)
  {
    JoinSplit2(Join2(a, b), c);
    JoinSplit2(a, b);
  }

  lemma EncodeFour(a: nat, b: nat, c: nat, d: nat)
    requires a < 0x08 && b < 0x40 && c < 0x40 && d < 0x40 && 0x1_0000 <= Join4(a, b, c, d) < 0x11_0000
    ensures EncodeChar(Join4(a, b, c, d) as char) == Four(a, b, c, d)
  {
    JoinSplit2(Join3(a, b, c), d);
    JoinSplit2(Join2(a, b), c);
    JoinSplit2(a, b);
  }

  lemma EncodeDecodedChar(bs: seq<Byte>, c: char, k: nat)
    requires DecodeChar(bs) == Some((c, k))
    ensures bs[..k] == EncodeChar(c)
  {
    if k == 2 {
      EncodeTwo(Payload(bs[0], 0xC0), Payload(bs[1], 0x80));
    } else if k == 3 {
      EncodeThree(Payload(bs[0], 0xE0), Payload(bs[1], 0x80), Payload(bs[2], 0x80));
    } else if k == 4 {
      EncodeFour(Payload(bs[0], 0xF0), Payload(bs[1], 0x80), Payload(bs[2], 0x80), Payload(bs[3], 0x80));
    }
  }

  // ── Whole strings ───────────────────────────────────────────────────────────

  /** Decoding undoes encoding, */
  lemma {:induction false} DecodeEncode(s: string)
    ensures Decode(Encode(s)) == Some(s)
  {
    if s == [] {
    } else {
      DecodeEncodedChar(s[0], Encode(s[1..]));
      DecodeEncode(s[1..]);
      assert Encode(s)[|EncodeChar(s[0])|..] == Encode(s[1..]);
      assert [s[0]] + s[1..] == s;
    }
  }

  lemma EncodeCons(c: char, t: string)
    ensures Encode([c] + t) == EncodeChar(c) + Encode(t)
  {
    assert ([c] + t)[1..] == t;
  }

  lemma DecodeStep(bs: seq<Byte>, s: string) returns (c: char, k: nat, t: string)
    requires bs != [] && Decode(bs) == Some(s)
    ensures DecodeChar(bs) == Some((c, k)) && 1 <= k <= |bs|
    ensures Decode(bs[k..]) == Some(t) && s == [c] + t
  {
    c, k := DecodeChar(bs).value.0, DecodeChar(bs).value.1;
    t := Decode(bs[k..]).value;
  }

  /** and accepts nothing else. */
  lemma {:induction false} EncodeDecode(bs: seq<Byte>, s: string)
    requires Decode(bs) == Some(s)
    ensures Encode(s) == bs
  {
    if bs == [] {
    } else {
      var c, k, t := DecodeStep(bs, s);
      calc {
        Encode(s);
        { EncodeCons(c, t); }
        EncodeChar(c) + Encode(t);
        { EncodeDecodedChar(bs, c, k); EncodeDecode(bs[k..], t); }
        bs[..k] + bs[k..];
        bs;
      }
    }
  }

  lemma DecodesExactly(bs: seq<Byte>, s: string)
    ensures Decode(bs) == Some(s) <==> Encode(s) == bs
  {
    DecodeEncode(s);
    if Decode(bs) == Some(s) { EncodeDecode(bs, s); }
  }

  lemma EncodeInjective(s: string, t: string)
    requires Encode(s) == Encode(t)
    ensures s == t
  {
    DecodeEncode(s);
    DecodeEncode(t);
  }

  lemma {:induction false} EncodeConcat(s: string, t: string)
    ensures Encode(s + t) == Encode(s) + Encode(t)
  {
    if s == [] {
      assert s + t == t;
    } else {
      assert (s + t)[1..] == s[1..] + t;
      EncodeConcat(s[1..], t);
    }
  }

  /** Encodings nest like the strings they encode. */
  lemma {:induction false} PrefixOfEncoding(p: string, rest: seq<Byte>, s: string)
    requires Encode(p) + rest == Encode(s)
    ensures p <= s
  {
    if p == [] {
    } else {
      var a, b := EncodeChar(p[0]), Encode(p[1..]);
      assert s != [] by { assert |Encode(p) + rest| > 0; }
      assert a + b + rest == a + (b + rest);
      DecodeEncodedChar(p[0], b + rest);
      DecodeEncodedChar(s[0], Encode(s[1..]));
      assert b + rest == Encode(s[1..]) by {
        assert (a + (b + rest))[|a|..] == b + rest;
        assert (EncodeChar(s[0]) + Encode(s[1..]))[|a|..] == Encode(s[1..]);
      }
      PrefixOfEncoding(p[1..], rest, s[1..]);
    }
  }

  lemma {:induction false} AsciiTakesOneByte(s: string)
    requires forall c | c in s :: c < 0x80 as char
    ensures |Encode(s)| == |s|
  {
    if s == [] {
    } else {
      assert s[0] in s;
      assert forall c | c in s[1..] :: c in s;
      AsciiTakesOneByte(s[1..]);
    }
  }

  // ── The lossy decoder ───────────────────────────────────────────────────────

  const REPLACEMENT := '\U{FFFD}'

  /** How many bytes one replacement character stands for. */
  function MaximalSubpart(bs: seq<Byte>): (k: nat)
    requires bs != []
    ensures 1 <= k <= |bs|
  {
    if 0xE0 <= bs[0] <= 0xEF && |bs| >= 2 && SecondOfThree(bs[0], bs[1]) then 2
    else if 0xF0 <= bs[0] <= 0xF4 && |bs| >= 2 && SecondOfFour(bs[0], bs[1]) then
      if |bs| >= 3 && IsTail(bs[2]) then 3 else 2
    else 1
  }

  /** Never fails: what is malformed becomes replacement characters. */
  function DecodeLossy(bs: seq<Byte>): string {
    if bs == [] then ""
    else match DecodeChar(bs) {
      case Some((c, k)) => [c] + DecodeLossy(bs[k..])
      case None => [REPLACEMENT] + DecodeLossy(bs[MaximalSubpart(bs)..])
    }
  }

  lemma {:induction false} LossyOfEncode(s: string)
    ensures DecodeLossy(Encode(s)) == s
  {
    if s == [] {
    } else {
      DecodeEncodedChar(s[0], Encode(s[1..]));
      LossyOfEncode(s[1..]);
      assert Encode(s)[|EncodeChar(s[0])|..] == Encode(s[1..]);
      assert [s[0]] + s[1..] == s;
    }
  }

  predicate Completes(begun: seq<Byte>, more: seq<Byte>) {
    DecodeChar(begun + more).Some?
  }

  ghost predicate NothingCompletes(begun: seq<Byte>) {
    forall more :: !Completes(begun, more)
  }

  /** A malformed beginning is replaced as far as it could still have become a character: longer than one
      byte only if something behind it would complete it, and no further than that. */
  lemma SubpartIsMaximal(bs: seq<Byte>)
    requires bs != [] && DecodeChar(bs).None?
    ensures var k := MaximalSubpart(bs);
            && (k > 1 ==> exists more :: Completes(bs[..k], more) && DecodeChar(bs[..k] + more).value.1 > k)
            && (k < |bs| ==> NothingCompletes(bs[..k + 1]))
  {
    var k := MaximalSubpart(bs);
    if k > 1 {
      var more := if bs[0] < 0xF0 then [0x80] else if k == 3 then [0x80] else [0x80, 0x80];
      assert Completes(bs[..k], more) && DecodeChar(bs[..k] + more).value.1 > k;
    }
    if k < |bs| {
      var begun := bs[..k + 1];
      forall more ensures !Completes(begun, more) {
        var t := begun + more;
        assert t[0] == bs[0] && t[1] == bs[1] && (k >= 2 ==> t[2] == bs[2]) && (k >= 3 ==> t[3] == bs[3]);
      }
    }
  }

  lemma LossyFirst(c: char, rest: seq<Byte>)
    ensures DecodeLossy(EncodeChar(c) + rest) == [c] + DecodeLossy(rest)
  {
    DecodeEncodedChar(c, rest);
    assert (EncodeChar(c) + rest)[|EncodeChar(c)|..] == rest;
  }

  /** What is well-formed survives, before and behind what is not. */
  lemma {:induction false} LossyKeeps(s: string, bs: seq<Byte>)
    ensures DecodeLossy(Encode(s) + bs) == s + DecodeLossy(bs)
  {
    if s == [] {
      assert Encode(s) + bs == bs;
    } else {
      assert Encode(s) + bs == EncodeChar(s[0]) + (Encode(s[1..]) + bs);
      LossyFirst(s[0], Encode(s[1..]) + bs);
      LossyKeeps(s[1..], bs);
      assert s + DecodeLossy(bs) == [s[0]] + (s[1..] + DecodeLossy(bs));
    }
  }

  lemma StrayByte(s: string, b: Byte, t: string)
    requires 0x80 <= b <= 0xC1 || b >= 0xF5
    ensures DecodeLossy(Encode(s) + [b] + Encode(t)) == s + ['\U{FFFD}'] + t
  {
    var bs := [b] + Encode(t);
    assert Encode(s) + [b] + Encode(t) == Encode(s) + bs;
    LossyKeeps(s, bs);
    assert bs[1..] == Encode(t);
    LossyOfEncode(t);
    assert DecodeLossy(bs) == [REPLACEMENT] + t;
  }
}
