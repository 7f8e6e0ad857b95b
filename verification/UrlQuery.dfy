/** Queries of URLs: percent-encoding (section 2.1 of RFC 3986) and the parsing of
    application/x-www-form-urlencoded that URLSearchParams does. */
module UrlQuery {
  import opened Bits
  import opened Hex
  import opened Options
  import Utf8

  // ── Percent-encoding ────────────────────────────────────────────────────────

  predicate IsAlphanumeric(b: Byte) {
    0x30 <= b <= 0x39 || 0x41 <= b <= 0x5A || 0x61 <= b <= 0x7A
  }

  /** One byte with everything but letters and digits escaped. */
  function EncodeByte(b: Byte): string {
    if IsAlphanumeric(b) then [b as char] else ['%', UpperHex(b / 16), UpperHex(b % 16)]
  }

  function PercentEncode(bs: seq<Byte>): string {
    if bs == [] then "" else EncodeByte(bs[0]) + PercentEncode(bs[1..])
  }

  predicate IsEscape(s: string) {
    |s| >= 3 && s[0] == '%' && HexValue(s[1]).Some? && HexValue(s[2]).Some?
  }

  /** Plus signs are spaces, escapes are bytes, the rest is itself in UTF-8. */
  function PercentDecode(s: string): seq<Byte> {
    if s == "" then []
    else if IsEscape(s) then [16 * HexValue(s[1]).value + HexValue(s[2]).value] + PercentDecode(s[3..])
    else if s[0] == '+' then [0x20] + PercentDecode(s[1..])
    else Utf8.EncodeChar(s[0]) + PercentDecode(s[1..])
  }

  lemma DecodeEncodedByte(b: Byte, rest: string)
    ensures PercentDecode(EncodeByte(b) + rest) == [b] + PercentDecode(rest)
  {
    var s := EncodeByte(b) + rest;
    var n: int := b;
    if IsAlphanumeric(b) {
      assert s[0] == n as char && s[1..] == rest;
    } else {
      assert HexValue(UpperHex(n / 16)) == Some(n / 16) && HexValue(UpperHex(n % 16)) == Some(n % 16);
      assert s[1] == UpperHex(n / 16) && s[2] == UpperHex(n % 16) && s[3..] == rest;
      assert 16 * (n / 16) + n % 16 == n;
    }
  }

  lemma {:induction false} DecodeEncode(bs: seq<Byte>)
    ensures PercentDecode(PercentEncode(bs)) == bs
  {
    if bs == [] {
    } else {
      DecodeEncodedByte(bs[0], PercentEncode(bs[1..]));
      DecodeEncode(bs[1..]);
      assert [bs[0]] + bs[1..] == bs;
    }
  }

  /** Letters and digits as they are, and only them; every other byte as a percent sign and two digits in
      upper case. */
  predicate IsEncoded(s: string) {
    || s == ""
    || (('0' <= s[0] <= '9' || 'A' <= s[0] <= 'Z' || 'a' <= s[0] <= 'z') && IsEncoded(s[1..]))
    || (&& |s| >= 3 && s[0] == '%' && IsUpper(s[1]) && IsUpper(s[2])
        && !IsAlphanumeric(16 * HexValue(s[1]).value + HexValue(s[2]).value) && IsEncoded(s[3..]))
  }

  lemma {:induction false} PercentEncodeIsEncoded(bs: seq<Byte>)
    ensures IsEncoded(PercentEncode(bs))
  {
    if bs == [] {
    } else {
      var n: int, rest := bs[0], PercentEncode(bs[1..]);
      PercentEncodeIsEncoded(bs[1..]);
      var s := EncodeByte(bs[0]) + rest;
      if IsAlphanumeric(bs[0]) {
        assert s[1..] == rest;
      } else {
        OneDigitEach(n / 16, UpperHex(n / 16));
        OneDigitEach(n % 16, UpperHex(n % 16));
        assert s[1] == UpperHex(n / 16) && s[2] == UpperHex(n % 16) && s[3..] == rest;
        assert 16 * (n / 16) + n % 16 == n;
      }
    }
  }

  lemma EscapeOf(hi: nat, lo: nat)
    requires hi < 16 && lo < 16 && !IsAlphanumeric(16 * hi + lo)
    ensures EncodeByte(16 * hi + lo) == ['%', UpperHex(hi), UpperHex(lo)]
  {
    assert (16 * hi + lo) / 16 == hi && (16 * hi + lo) % 16 == lo;
  }

  lemma DecodeEscape(hi: nat, lo: nat, c: char, d: char, rest: string)
    requires HexValue(c) == Some(hi) && HexValue(d) == Some(lo)
    ensures PercentDecode(['%', c, d] + rest) == [16 * hi + lo] + PercentDecode(rest)
  {
    assert (['%', c, d] + rest)[3..] == rest;
  }

  lemma EscapeFirst(hi: nat, lo: nat, c: char, d: char, rest: string)
    requires IsUpper(c) && IsUpper(d) && HexValue(c) == Some(hi) && HexValue(d) == Some(lo)
    requires !IsAlphanumeric(16 * hi + lo)
    ensures PercentEncode(PercentDecode(['%', c, d] + rest)) == ['%', c, d] + PercentEncode(PercentDecode(rest))
  {
    DecodeEscape(hi, lo, c, d, rest);
    OneByteFirst(16 * hi + lo, PercentDecode(rest));
    EscapeOf(hi, lo);
    OneDigitEach(hi, c);
    OneDigitEach(lo, d);
  }

  lemma OneByteFirst(b: Byte, rest: seq<Byte>)
    ensures PercentEncode([b] + rest) == EncodeByte(b) + PercentEncode(rest)
  {
    assert ([b] + rest)[1..] == rest;
  }

  lemma LetterFirst(c: char, rest: string)
    requires c < 0x80 as char && IsAlphanumeric(c as int)
    ensures PercentEncode(PercentDecode([c] + rest)) == [c] + PercentEncode(PercentDecode(rest))
  {
    assert ([c] + rest)[1..] == rest;
    assert Utf8.EncodeChar(c) == [c as int];
    OneByteFirst(c as int, PercentDecode(rest));
  }

  /** There is one such text for any bytes: what encoding gives. */
  lemma {:induction false} EncodedIsUnique(s: string)
    requires IsEncoded(s)
    ensures s == PercentEncode(PercentDecode(s))
    decreases |s|
  {
    if s == "" {
    } else if s[0] == '%' {
      EncodedIsUnique(s[3..]);
      EscapeFirst(HexValue(s[1]).value, HexValue(s[2]).value, s[1], s[2], s[3..]);
      assert s == ['%', s[1], s[2]] + s[3..];
    } else {
      EncodedIsUnique(s[1..]);
      LetterFirst(s[0], s[1..]);
      assert s == [s[0]] + s[1..];
    }
  }

  /** The characters an encoded text consists of. */
  lemma {:induction false} EncodedIsSafe(bs: seq<Byte>)
    ensures forall c | c in PercentEncode(bs) :: c == '%' || (c < 0x80 as char && IsAlphanumeric(c as int))
  {
    if bs == [] {
    } else {
      EncodedIsSafe(bs[1..]);
    }
  }

  predicate IsPlain(s: string) {
    forall c | c in s :: c != '%' && c != '+'
  }

  lemma {:induction false} PlainDecodes(s: string)
    requires IsPlain(s)
    ensures PercentDecode(s) == Utf8.Encode(s)
  {
    if s == "" {
    } else {
      assert s[0] in s && forall c | c in s[1..] :: c in s;
      PlainDecodes(s[1..]);
    }
  }

  /** A plus sign is a space, and a character that is neither that nor the beginning of an escape is itself. */
  lemma DecodeFirst(c: char, rest: string)
    ensures PercentDecode("+" + rest) == [0x20] + PercentDecode(rest)
    ensures c != '%' && c != '+' ==> PercentDecode([c] + rest) == Utf8.EncodeChar(c) + PercentDecode(rest)
    ensures (|rest| < 2 || HexValue(rest[0]).None? || HexValue(rest[1]).None?) ==>
              PercentDecode("%" + rest) == [0x25] + PercentDecode(rest)
  {
    assert ("+" + rest)[1..] == rest && ([c] + rest)[1..] == rest && ("%" + rest)[1..] == rest;
    assert Utf8.EncodeChar('%') == [0x25];
  }

  // ── Splitting ───────────────────────────────────────────────────────────────

  function Split(s: string, sep: char): (parts: seq<string>)
    ensures |parts| > 0
  {
    if s == "" then [""]
    else if s[0] == sep then [""] + Split(s[1..], sep)
    else
      var rest := Split(s[1..], sep);
      [[s[0]] + rest[0]] + rest[1..]
  }

  function Join(parts: seq<string>, sep: char): string
    requires |parts| > 0
  {
    if |parts| == 1 then parts[0] else parts[0] + [sep] + Join(parts[1..], sep)
  }

  lemma {:induction false} SplitLone(p: string, sep: char)
    requires sep !in p
    ensures Split(p, sep) == [p]
  {
    if p == "" {
    } else {
      assert p[0] in p && forall c | c in p[1..] :: c in p;
      SplitLone(p[1..], sep);
      assert [p[0]] + p[1..] == p;
    }
  }

  lemma {:induction false} SplitFirst(p: string, sep: char, rest: string)
    requires sep !in p
    ensures Split(p + [sep] + rest, sep) == [p] + Split(rest, sep)
  {
    var s := p + [sep] + rest;
    if p == "" {
      assert s[0] == sep && s[1..] == rest;
    } else {
      assert p[0] in p && forall c | c in p[1..] :: c in p;
      assert s[0] == p[0] && s[1..] == p[1..] + [sep] + rest;
      SplitFirst(p[1..], sep, rest);
      assert [p[0]] + p[1..] == p;
      assert ([p[1..]] + Split(rest, sep))[1..] == Split(rest, sep);
    }
  }

  lemma {:induction false} SplitJoin(parts: seq<string>, sep: char)
    requires |parts| > 0 && forall p | p in parts :: sep !in p
    ensures Split(Join(parts, sep), sep) == parts
  {
    assert parts[0] in parts;
    if |parts| == 1 {
      SplitLone(parts[0], sep);
    } else {
      assert forall p | p in parts[1..] :: p in parts;
      SplitJoin(parts[1..], sep);
      SplitFirst(parts[0], sep, Join(parts[1..], sep));
    }
  }

  // ── Queries ─────────────────────────────────────────────────────────────────

  datatype Param = Param(name: string, value: string)

  function Text(p: Param): string {
    p.name + "=" + p.value
  }

  function Texts(ps: seq<Param>): (ts: seq<string>)
    ensures |ts| == |ps|
  {
    if ps == [] then [] else [Text(ps[0])] + Texts(ps[1..])
  }

  function Query(ps: seq<Param>): string
    requires |ps| > 0
  {
    Join(Texts(ps), '&')
  }

  function FormText(s: string): string {
    Utf8.DecodeLossy(PercentDecode(s))
  }

  /** Name and value around the first equals sign. */
  function ParseParam(s: string): Param {
    var parts := Split(s, '=');
    Param(FormText(parts[0]), if |parts| == 1 then "" else FormText(Join(parts[1..], '=')))
  }

  function ParseParts(parts: seq<string>): seq<Param> {
    if parts == [] then []
    else (if parts[0] == "" then [] else [ParseParam(parts[0])]) + ParseParts(parts[1..])
  }

  function ParseQuery(q: string): seq<Param> {
    ParseParts(Split(q, '&'))
  }

  /** `searchParams.get`: the first of that name. */
  function Get(ps: seq<Param>, name: string): Option<string> {
    if ps == [] then None else if ps[0].name == name then Some(ps[0].value) else Get(ps[1..], name)
  }

  /** Nothing in it ends a parameter or a name early. */
  predicate IsSafe(p: Param) {
    '&' !in p.name && '=' !in p.name && '&' !in p.value && IsPlain(p.name)
  }

  function Decoded(ps: seq<Param>): (ds: seq<Param>)
    ensures |ds| == |ps|
    ensures forall i | 0 <= i < |ps| :: ds[i] == Param(ps[i].name, FormText(ps[i].value))
  {
    if ps == [] then [] else [Param(ps[0].name, FormText(ps[0].value))] + Decoded(ps[1..])
  }

  lemma {:induction false} JoinSplit(s: string, sep: char)
    ensures Join(Split(s, sep), sep) == s
  {
    if s == "" {
    } else {
      JoinSplit(s[1..], sep);
      var rest := Split(s[1..], sep);
      if s[0] == sep {
        assert ([""] + rest)[1..] == rest;
      } else {
        var parts := [[s[0]] + rest[0]] + rest[1..];
        if |rest| > 1 { assert parts[1..] == rest[1..]; }
      }
    }
  }

  lemma ParamRoundTrip(p: Param)
    requires IsSafe(p)
    ensures ParseParam(Text(p)) == Param(p.name, FormText(p.value))
  {
    SplitFirst(p.name, '=', p.value);
    assert Text(p) == p.name + ['='] + p.value;
    var tail := Split(p.value, '=');
    assert ([p.name] + tail)[1..] == tail;
    JoinSplit(p.value, '=');
    PlainDecodes(p.name);
    Utf8.LossyOfEncode(p.name);
  }

  /** A parameter without an equals sign has no value, and empty ones are none. */
  lemma {:induction false} LooseParts(s: string, a: seq<string>, b: seq<string>)
    ensures '=' !in s ==> ParseParam(s) == Param(FormText(s), "")
    ensures ParseParts(a + [""] + b) == ParseParts(a) + ParseParts(b)
    decreases |a|
  {
    if '=' !in s { SplitLone(s, '='); }
    if a == [] {
      assert a + [""] + b == [""] + b && ([""] + b)[1..] == b;
    } else {
      assert (a + [""] + b)[1..] == a[1..] + [""] + b;
      LooseParts(s, a[1..], b);
    }
  }

  lemma {:induction false} PartsRoundTrip(ps: seq<Param>)
    requires forall p | p in ps :: IsSafe(p)
    ensures ParseParts(Texts(ps)) == Decoded(ps)
    ensures forall t | t in Texts(ps) :: '&' !in t
  {
    if ps == [] {
    } else {
      assert ps[0] in ps;
      ParamRoundTrip(ps[0]);
      PartsRoundTrip(ps[1..]);
      assert Texts(ps)[1..] == Texts(ps[1..]) && Text(ps[0]) != "";
    }
  }

  /** What was written as a query is read as the same parameters with their values decoded. */
  lemma QueryRoundTrip(ps: seq<Param>)
    requires |ps| > 0 && forall p | p in ps :: IsSafe(p)
    ensures ParseQuery(Query(ps)) == Decoded(ps)
  {
    PartsRoundTrip(ps);
    SplitJoin(Texts(ps), '&');
  }
}
