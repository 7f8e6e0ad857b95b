/** The other canonical form, of the web companion's audit uploads: every field behind its length in
    bytes as a decimal of ten digits (web-companion/lib/auth.ts). */
module AuditFraming {
  import opened Bits
  import opened Options
  import opened Decimal
  import Utf8

  const WIDTH := 10

  function ZeroText(n: nat): (s: string)
    ensures |s| == n
  {
    seq(n, i => '0')
  }

  /** `s.padStart(width, "0")`: longer texts are left alone. */
  function PadStart(s: string, width: nat): string {
    if |s| >= width then s else ZeroText(width - |s|) + s
  }

  function LenPrefix(n: nat): seq<Byte> {
    Utf8.Encode(PadStart(Print(n), WIDTH))
  }

  /** `String(ts)` of an integer. */
  function PrintInt(n: int): string {
    if n < 0 then "-" + Print(-n) else Print(n)
  }

  lemma SignShows(n: int)
    ensures PrintInt(n) != "" && (PrintInt(n)[0] == '-' <==> n < 0)
  {
    if n >= 0 {
      ParsePrint(n);
      assert PrintInt(n)[0] in PrintInt(n);
    }
  }

  /** Digits, behind a minus sign for negative numbers, without a needless zero in front. */
  lemma PrintIntIs(n: int)
    ensures var s := PrintInt(n);
            && s != "" && (n < 0 <==> s[0] == '-')
            && var digits := if n < 0 then s[1..] else s;
               && digits != "" && AllDigits(digits) && Parse(digits) == (if n < 0 then -n else n)
               && (digits[0] == '0' ==> digits == "0")
  {
    var m := if n < 0 then -n else n;
    SignShows(n);
    ParsePrint(m);
    NoLeadingZero(m);
    if n < 0 { assert PrintInt(n)[1..] == Print(m); }
  }

  lemma {:induction false} NoLeadingZero(n: nat)
    ensures Print(n) != "" && (Print(n)[0] == '0' ==> n == 0 && Print(n) == "0")
  {
    if n < 10 {
      assert Print(n) == [Digit(n)];
    } else {
      NoLeadingZero(n / 10);
      assert Print(n)[0] == Print(n / 10)[0];
    }
  }

  lemma PrintIntInjective(m: int, n: int)
    requires PrintInt(m) == PrintInt(n)
    ensures m == n
  {
    SignShows(m);
    SignShows(n);
    if m < 0 {
      assert PrintInt(m)[1..] == Print(-m) && PrintInt(n)[1..] == Print(-n);
      PrintInjective(-m, -n);
    } else {
      PrintInjective(m, n);
    }
  }

  function Prefixed(bs: seq<Byte>): seq<Byte> {
    LenPrefix(|bs|) + bs
  }

  function Canonical(installId: string, time: string, body: string): seq<Byte> {
    Utf8.Encode("WebAudit") + Prefixed(Utf8.Encode(installId)) + Prefixed(Utf8.Encode(time)) + Prefixed(Utf8.Encode(body))
  }

  predicate Fits(s: string) {
    |Utf8.Encode(s)| < Pow10(WIDTH)
  }

  // ── Reading it back ─────────────────────────────────────────────────────────

  function TakeText(bs: seq<Byte>): Option<(string, seq<Byte>)> {
    if |bs| < WIDTH then None
    else match Utf8.Decode(bs[..WIDTH])
      case None => None
      case Some(digits) =>
        if !(|digits| == WIDTH && AllDigits(digits)) then None
        else
          var n := Parse(digits);
          if |bs| - WIDTH < n then None
          else match Utf8.Decode(bs[WIDTH..WIDTH + n])
            case None => None
            case Some(s) => Some((s, bs[WIDTH + n..]))
  }

  function ParseUpload(bs: seq<Byte>): Option<(string, string, string)> {
    if |bs| < 8 || bs[..8] != Utf8.Encode("WebAudit") then None
    else match TakeText(bs[8..])
      case None => None
      case Some((installId, afterId)) =>
      match TakeText(afterId)
      case None => None
      case Some((time, afterTime)) =>
      match TakeText(afterTime)
      case None => None
      case Some((body, end)) => if end == [] then Some((installId, time, body)) else None
  }

  // ── Ten digits and a number ─────────────────────────────────────────────────

  lemma {:induction false} LeadingZeros(k: nat, s: string)
    requires AllDigits(s) && s != ""
    ensures AllDigits(ZeroText(k) + s) && Parse(ZeroText(k) + s) == Parse(s)
    decreases |s|
  {
    var t := ZeroText(k) + s;
    assert t[..|t| - 1] == ZeroText(k) + s[..|s| - 1];
    if |s| > 1 {
      LeadingZeros(k, s[..|s| - 1]);
    } else {
      assert s[..|s| - 1] == "" && t[..|t| - 1] == ZeroText(k);
      ZeroTextIsZero(k);
    }
  }

  lemma {:induction false} ZeroTextIsZero(k: nat)
    ensures AllDigits(ZeroText(k)) && Parse(ZeroText(k)) == 0
  {
    if k == 0 {
    } else {
      assert ZeroText(k)[..k - 1] == ZeroText(k - 1);
      ZeroTextIsZero(k - 1);
    }
  }

  lemma {:induction false} ZeroIsZeroText(s: string)
    requires AllDigits(s) && Parse(s) == 0
    ensures s == ZeroText(|s|)
  {
    if s == "" {
    } else {
      var t := s[..|s| - 1];
      assert s == t + [s[|s| - 1]];
      ZeroIsZeroText(t);
      assert DigitValue(s[|s| - 1]) == 0;
    }
  }

  /** Printing undoes parsing when the width is kept. */
  lemma {:induction false} PrintParse(s: string)
    requires AllDigits(s) && s != ""
    ensures |Print(Parse(s))| <= |s| && PadStart(Print(Parse(s)), |s|) == s
  {
    var t, d := s[..|s| - 1], s[|s| - 1];
    assert s == t + [d];
    var n := Parse(s);
    assert n == 10 * Parse(t) + DigitValue(d) && Digit(n % 10) == d;
    if n < 10 {
      ZeroIsZeroText(t);
      assert PadStart(Print(n), |s|) == ZeroText(|t|) + [d];
    } else {
      PrintParse(t);
      assert Print(n) == Print(Parse(t)) + [d];
      assert PadStart(Print(Parse(t)), |t|) == ZeroText(|t| - |Print(Parse(t))|) + Print(Parse(t));
      assert PadStart(Print(n), |s|) == ZeroText(|t| - |Print(Parse(t))|) + Print(Parse(t)) + [d];
    }
  }

  lemma PaddedDigits(n: nat, width: nat) returns (digits: string)
    requires width > 0 && n < Pow10(width)
    ensures digits == PadStart(Print(n), width)
    ensures |digits| == width && AllDigits(digits) && Parse(digits) == n
  {
    digits := PadStart(Print(n), width);
    PrintLength(n, width);
    ParsePrint(n);
    LeadingZeros(width - |Print(n)|, Print(n));
    assert ZeroText(0) + Print(n) == Print(n);
  }

  lemma PrefixDigits(n: nat) returns (digits: string)
    requires n < Pow10(WIDTH)
    ensures LenPrefix(n) == Utf8.Encode(digits) && |LenPrefix(n)| == WIDTH
    ensures |digits| == WIDTH && AllDigits(digits) && Parse(digits) == n
  {
    digits := PaddedDigits(n, WIDTH);
    Utf8.AsciiTakesOneByte(digits);
  }

  /** The prefix of a length below 10^10 is ten bytes, the digits of the length behind zeros. */
  lemma TenDigits(n: nat) returns (digits: string)
    requires n < 1_00000_00000
    ensures LenPrefix(n) == Utf8.Encode(digits) && |digits| == 10 && AllDigits(digits) && Parse(digits) == n
  {
    assert Pow10(10) == 1_00000_00000;
    digits := PrefixDigits(n);
  }

  lemma {:induction false} ParseBound(s: string)
    requires AllDigits(s)
    ensures Parse(s) < Pow10(|s|)
  {
    if s == "" {
    } else {
      ParseBound(s[..|s| - 1]);
      assert s[|s| - 1] in s;
    }
  }

  // ── One field ───────────────────────────────────────────────────────────────

  lemma TextThere(s: string, rest: seq<Byte>)
    requires Fits(s)
    ensures TakeText(Prefixed(Utf8.Encode(s)) + rest) == Some((s, rest))
  {
    var field := Utf8.Encode(s);
    var n := |field|;
    var digits := PrefixDigits(n);
    var bs := Prefixed(field) + rest;
    Utf8.DecodeEncode(digits);
    Utf8.DecodeEncode(s);
    assert bs[..WIDTH] == LenPrefix(n);
    assert bs[WIDTH..WIDTH + n] == field;
    assert bs[WIDTH + n..] == rest;
  }

  lemma TextBack(bs: seq<Byte>, s: string, rest: seq<Byte>)
    requires TakeText(bs) == Some((s, rest))
    ensures bs == Prefixed(Utf8.Encode(s)) + rest && Fits(s)
  {
    var digits := Utf8.Decode(bs[..WIDTH]).value;
    var n := Parse(digits);
    Utf8.EncodeDecode(bs[..WIDTH], digits);
    Utf8.EncodeDecode(bs[WIDTH..WIDTH + n], s);
    PrintParse(digits);
    ParseBound(digits);
    ThreePieces(bs, WIDTH, n);
  }

  lemma ThreePieces(bs: seq<Byte>, w: nat, n: nat)
    requires w + n <= |bs|
    ensures bs == bs[..w] + bs[w..w + n] + bs[w + n..]
  {
  }

  // ── The upload ──────────────────────────────────────────────────────────────

  lemma TagBytes()
    ensures |Utf8.Encode("WebAudit")| == 8
  {
    Utf8.AsciiTakesOneByte("WebAudit");
  }

  lemma Regroup(a: seq<Byte>, b: seq<Byte>, c: seq<Byte>, d: seq<Byte>)
    ensures a + b + c + d == a + (b + (c + (d + [])))
  {
  }

  lemma ParseCanonical(installId: string, time: string, body: string)
    requires Fits(installId) && Fits(time) && Fits(body)
    ensures ParseUpload(Canonical(installId, time, body)) == Some((installId, time, body))
  {
    TagBytes();
    var tag := Utf8.Encode("WebAudit");
    var i, t, b := Prefixed(Utf8.Encode(installId)), Prefixed(Utf8.Encode(time)), Prefixed(Utf8.Encode(body));
    Regroup(tag, i, t, b);
    var bs := Canonical(installId, time, body);
    assert bs[..8] == tag && bs[8..] == i + (t + (b + []));
    TextThere(installId, t + (b + []));
    TextThere(time, b + []);
    TextThere(body, []);
  }

  lemma CanonicalParse(bs: seq<Byte>, installId: string, time: string, body: string)
    requires ParseUpload(bs) == Some((installId, time, body))
    ensures Fits(installId) && Fits(time) && Fits(body) && Canonical(installId, time, body) == bs
  {
    var p1 := TakeText(bs[8..]).value;
    TextBack(bs[8..], p1.0, p1.1);
    var p2 := TakeText(p1.1).value;
    TextBack(p1.1, p2.0, p2.1);
    var p3 := TakeText(p2.1).value;
    TextBack(p2.1, p3.0, p3.1);
    Regroup(bs[..8], Prefixed(Utf8.Encode(installId)), Prefixed(Utf8.Encode(time)), Prefixed(Utf8.Encode(body)));
    assert bs == bs[..8] + bs[8..];
  }

  /** Parsing inverts the encoding exactly. */
  lemma ParsesExactly(bs: seq<Byte>, installId: string, time: string, body: string)
    ensures ParseUpload(bs) == Some((installId, time, body))
       <==> Fits(installId) && Fits(time) && Fits(body) && Canonical(installId, time, body) == bs
  {
    if ParseUpload(bs) == Some((installId, time, body)) { CanonicalParse(bs, installId, time, body); }
    if Fits(installId) && Fits(time) && Fits(body) { ParseCanonical(installId, time, body); }
  }

  /** Different uploads are never signed as the same bytes. */
  lemma CanonicalInjective(id: string, ts: int, body: string, id': string, ts': int, body': string)
    requires Fits(id) && Fits(PrintInt(ts)) && Fits(body) && Fits(id') && Fits(PrintInt(ts')) && Fits(body')
    requires Canonical(id, PrintInt(ts), body) == Canonical(id', PrintInt(ts'), body')
    ensures id == id' && ts == ts' && body == body'
  {
    ParseCanonical(id, PrintInt(ts), body);
    ParseCanonical(id', PrintInt(ts'), body');
    PrintIntInjective(ts, ts');
  }

  // ── How the companion builds it ─────────────────────────────────────────────

  /** `push`: set at the offset and move it. */
  method Push(buf: array<Byte>, off: nat, bs: seq<Byte>) returns (next: nat)
    requires off + |bs| <= buf.Length
    modifies buf
    ensures next == off + |bs| && buf[..next] == old(buf[..off]) + bs
  {
    forall i | 0 <= i < |bs| { buf[off + i] := bs[i]; }
    next := off + |bs|;
  }

  method Fill(buf: array<Byte>, tag: seq<Byte>, idLen: seq<Byte>, id: seq<Byte>,
              tsLen: seq<Byte>, ts: seq<Byte>, bdLen: seq<Byte>, body: seq<Byte>)
    requires buf.Length == |tag| + |idLen| + |id| + |tsLen| + |ts| + |bdLen| + |body|
    modifies buf
    ensures buf[..] == tag + (idLen + id) + (tsLen + ts) + (bdLen + body)
  {
    var off := Push(buf, 0, tag);
    off := Push(buf, off, idLen); off := Push(buf, off, id);
    off := Push(buf, off, tsLen); off := Push(buf, off, ts);
    off := Push(buf, off, bdLen); off := Push(buf, off, body);
    assert buf[..] == buf[..off];
  }

  method CanonicalBytes(installId: string, ts: int, body: string) returns (buf: array<Byte>)
    ensures fresh(buf) && buf[..] == Canonical(installId, PrintInt(ts), body)
  {
    var tag := Utf8.Encode("WebAudit");
    var idBytes, tsBytes, bodyBytes := Utf8.Encode(installId), Utf8.Encode(PrintInt(ts)), Utf8.Encode(body);
    var idLen, tsLen, bdLen := LenPrefix(|idBytes|), LenPrefix(|tsBytes|), LenPrefix(|bodyBytes|);
    var total := |tag| + |idLen| + |idBytes| + |tsLen| + |tsBytes| + |bdLen| + |bodyBytes|;
    buf := new Byte[total](i => 0);
    Fill(buf, tag, idLen, idBytes, tsLen, tsBytes, bdLen, bodyBytes);
  }
}
