/** Signed frames of the mobile bridge: what the phone signs and the desktop checks, and the other
    way round (furx-sign.js, mobile_bridge.rs). */
module Frames {
  import opened Bits
  import opened Options
  import opened JsNumber
  import opened Hex
  import Framing
  import Sha256
  import Spec = Sha256Spec
  import Utf8

  // ── Hexadecimal ─────────────────────────────────────────────────────────────

  function ToHex(bs: seq<Byte>): (s: string)
    ensures |s| == 2 * |bs|
  {
    if bs == [] then "" else [LowerHex(bs[0] / 16), LowerHex(bs[0] % 16)] + ToHex(bs[1..])
  }

  function HexDecode(s: string): Option<seq<Byte>> {
    if s == "" then Some([])
    else if |s| < 2 then None
    else
      match (HexValue(s[0]), HexValue(s[1]), HexDecode(s[2..]))
      case (Some(hi), Some(lo), Some(rest)) => Some([16 * hi + lo] + rest)
      case _ => None
  }

  lemma HexStep(hi: nat, lo: nat, rest: string, bs: seq<Byte>)
    requires hi < 16 && lo < 16 && HexDecode(rest) == Some(bs)
    ensures HexDecode([LowerHex(hi), LowerHex(lo)] + rest) == Some([16 * hi + lo] + bs)
  {
    assert ([LowerHex(hi), LowerHex(lo)] + rest)[2..] == rest;
  }

  lemma {:induction false} HexRoundTrip(bs: seq<Byte>)
    ensures HexDecode(ToHex(bs)) == Some(bs)
  {
    if bs == [] {
    } else {
      HexRoundTrip(bs[1..]);
      var b: int := bs[0];
      HexStep(b / 16, b % 16, ToHex(bs[1..]), bs[1..]);
      assert 16 * (b / 16) + b % 16 == b;
      assert [bs[0]] + bs[1..] == bs;
    }
  }

  predicate IsLowerText(s: string) {
    forall c | c in s :: IsLower(c)
  }

  lemma {:induction false} HexIsLower(bs: seq<Byte>)
    ensures IsLowerText(ToHex(bs))
  {
    if bs == [] {
    } else {
      HexIsLower(bs[1..]);
      HexValueIsLower(bs[0] / 16);
      HexValueIsLower(bs[0] % 16);
    }
  }

  lemma HexValueIsLower(n: nat)
    requires n < 16
    ensures IsLower(LowerHex(n))
  {
    OneDigitEach(n, LowerHex(n));
  }

  /** There is one lower-case text for any bytes. */
  lemma {:induction false} LowerTextIsUnique(s: string, t: string)
    requires IsLowerText(s) && IsLowerText(t) && HexDecode(s).Some? && HexDecode(s) == HexDecode(t)
    ensures s == t
    decreases |s|
  {
    if s == "" {
      HexLength(s);
      HexLength(t);
    } else {
      HexLength(s);
      HexLength(t);
      assert s[0] in s && s[1] in s && t[0] in t && t[1] in t;
      HexPairs(s, t);
      assert HexDecode(s[2..]) == HexDecode(t[2..]);
      LowerTextIsUnique(s[2..], t[2..]);
      assert s == [s[0], s[1]] + s[2..] && t == [t[0], t[1]] + t[2..];
    }
  }

  lemma {:induction false} HexLength(s: string)
    requires HexDecode(s).Some?
    ensures |s| == 2 * |HexDecode(s).value|
    decreases |s|
  {
    if s == "" {
    } else {
      HexLength(s[2..]);
    }
  }

  lemma HexPairs(s: string, t: string)
    requires |s| >= 2 && |t| >= 2 && IsLower(s[0]) && IsLower(s[1]) && IsLower(t[0]) && IsLower(t[1])
    requires HexDecode(s).Some? && HexDecode(s) == HexDecode(t)
    ensures s[0] == t[0] && s[1] == t[1] && HexDecode(s[2..]).Some? && HexDecode(s[2..]) == HexDecode(t[2..])
  {
    var a, b := HexDecode(s).value, HexDecode(t).value;
    assert a[0] == b[0] && a[1..] == b[1..];
    assert a[1..] == HexDecode(s[2..]).value && b[1..] == HexDecode(t[2..]).value;
    OneDigitEach(HexValue(s[0]).value, t[0]);
    OneDigitEach(HexValue(s[0]).value, s[0]);
    OneDigitEach(HexValue(s[1]).value, t[1]);
    OneDigitEach(HexValue(s[1]).value, s[1]);
  }

  /** A signature in its one written form: sixty-four lower-case digits that decode to the code. */
  predicate IsWritten(sig: string, mac: seq<Byte>) {
    |sig| == 64 && (forall c | c in sig :: '0' <= c <= '9' || 'a' <= c <= 'f') && HexDecode(sig) == Some(mac)
  }

  lemma MacIsWritten(mac: seq<Byte>)
    requires |mac| == 32
    ensures IsWritten(ToHex(mac), mac)
  {
    HexRoundTrip(mac);
    HexIsLower(mac);
  }

  // ── The signature ───────────────────────────────────────────────────────────

  function Mac(secret: string, c: Framing.Content): (mac: seq<Byte>)
    ensures |mac| == 32
  {
    Spec.Hmac(Utf8.Encode(secret), Framing.Canonical(c))
  }

  /** Sizes for which every length in the hash is an exact double. */
  predicate Hashable(secret: string, c: Framing.Content) {
    8 * |Utf8.Encode(secret)| <= MAX_EXACT && 8 * (Spec.BLOCK + |Framing.Canonical(c)|) <= MAX_EXACT
  }

  /** hmacHex over canonicalBytes, as the phone computes it. */
  method HmacHex(secret: string, c: Framing.Content) returns (sig: string)
    requires Hashable(secret, c)
    ensures sig == ToHex(Mac(secret, c)) && IsWritten(sig, Mac(secret, c))
  {
    var canonical := Framing.JsCanonicalBytes(c);
    var mac := Sha256.HmacSha256(Utf8.Encode(secret), canonical[..]);
    sig := ToHex(mac[..]);
    MacIsWritten(mac[..]);
  }

  /** sign_outbound on the desktop: its own layout code, and an HMAC taken to be RFC 2104's. */
  method SignOutbound(secret: string, c: Framing.Content) returns (sig: string)
    ensures sig == ToHex(Mac(secret, c)) && IsWritten(sig, Mac(secret, c))
  {
    var canonical := Framing.RustCanonicalBytes(c);
    var mac := Spec.Hmac(Utf8.Encode(secret), canonical);
    sig := ToHex(mac);
    MacIsWritten(mac);
  }

  /** verify_hmac on the desktop. */
  method VerifyHmac(secret: string, c: Framing.Content, sigHex: string) returns (ok: bool)
    ensures ok <==> |sigHex| <= 256 && HexDecode(sigHex) == Some(Mac(secret, c))
  {
    if sigHex == "" || |sigHex| > 256 { return false; }
    var canonical := Framing.RustCanonicalBytes(c);
    var expected := Spec.Hmac(Utf8.Encode(secret), canonical);
    var provided := HexDecode(sigHex);
    if provided.None? { return false; }
    if |provided.value| != |expected| { return false; }
    ok := provided.value == expected;
  }

  // ── The frames ──────────────────────────────────────────────────────────────

  datatype Frame =
    | Hello(clientId: string)
    | Subscribe(paneId: string)
    | PtyWrite(paneId: string, source: string, text: string)
    | ApproveToolCall(correlationId: string, decision: string)
    | ExecuteCommand(commandId: string)
    | NavSpec(spec: string)
    | CommandCatalog(commands: string)
    | AppEvent(signedBody: string)

  function Tag(f: Frame): string {
    match f
    case Hello(_) => "HelloMsg"
    case Subscribe(_) => "Subscrib"
    case PtyWrite(_, _, _) => "PtyWrite"
    case ApproveToolCall(_, _) => "ApprovTC"
    case ExecuteCommand(_) => "ExecCmd_"
    case NavSpec(_) => "NavSpec_"
    case CommandCatalog(_) => "CmdCatlg"
    case AppEvent(_) => "AppEvnt_"
  }

  function Scope(f: Frame): string {
    match f
    case Hello(id) => id
    case Subscribe(id) => id
    case PtyWrite(id, _, _) => id
    case ApproveToolCall(id, _) => id
    case ExecuteCommand(id) => id
    case NavSpec(s) => s
    case CommandCatalog(s) => s
    case AppEvent(s) => s
  }

  function Source(f: Frame): string {
    if f.PtyWrite? then f.source else ""
  }

  function Body(f: Frame): string {
    match f
    case PtyWrite(_, _, text) => text
    case ApproveToolCall(_, decision) => decision
    case _ => ""
  }

  function ContentOf(f: Frame, nonce: string, ts: int): Framing.Content {
    Framing.Content(Utf8.Encode(Tag(f)), nonce, ts, Scope(f), Source(f), Body(f))
  }

  /** The same frame as the desktop lays it out, from its own table. */
  function DesktopContent(f: Frame, nonce: string, ts: int): Framing.Content {
    match f
    case Hello(id) => Framing.Content(Utf8.Encode("HelloMsg"), nonce, ts, id, "", "")
    case Subscribe(id) => Framing.Content(Utf8.Encode("Subscrib"), nonce, ts, id, "", "")
    case PtyWrite(id, source, text) => Framing.Content(Utf8.Encode("PtyWrite"), nonce, ts, id, source, text)
    case ApproveToolCall(id, decision) => Framing.Content(Utf8.Encode("ApprovTC"), nonce, ts, id, "", decision)
    case ExecuteCommand(id) => Framing.Content(Utf8.Encode("ExecCmd_"), nonce, ts, id, "", "")
    case NavSpec(spec) => Framing.Content(Utf8.Encode("NavSpec_"), nonce, ts, spec, "", "")
    case CommandCatalog(commands) => Framing.Content(Utf8.Encode("CmdCatlg"), nonce, ts, commands, "", "")
    case AppEvent(body) => Framing.Content(Utf8.Encode("AppEvnt_"), nonce, ts, body, "", "")
  }

  /** The two sides agree on every frame. */
  lemma SidesAgree(f: Frame, nonce: string, ts: int)
    ensures DesktopContent(f, nonce, ts) == ContentOf(f, nonce, ts)
  {
  }

  predicate FromPhone(f: Frame) {
    f.Hello? || f.Subscribe? || f.PtyWrite? || f.ApproveToolCall? || f.ExecuteCommand?
  }

  /** A frame on the desktop: those of its own direction never pass. */
  method VerifyFrame(secret: string, f: Frame, nonce: string, ts: int, sigHex: string) returns (ok: bool)
    ensures ok <==> && (f.Hello? || f.Subscribe? || f.PtyWrite? || f.ApproveToolCall? || f.ExecuteCommand?)
                    && |sigHex| <= 256 && HexDecode(sigHex) == Some(Mac(secret, ContentOf(f, nonce, ts)))
  {
    if !FromPhone(f) { return false; }
    ok := VerifyHmac(secret, DesktopContent(f, nonce, ts), sigHex);
    SidesAgree(f, nonce, ts);
  }

  /** What the phone signs, the desktop accepts. */
  method PhoneToDesktop(secret: string, f: Frame, nonce: string, ts: int) returns (ok: bool)
    requires FromPhone(f) && Hashable(secret, ContentOf(f, nonce, ts))
    ensures ok
  {
    var sig := HmacHex(secret, ContentOf(f, nonce, ts));
    HexRoundTrip(Mac(secret, ContentOf(f, nonce, ts)));
    ok := VerifyFrame(secret, f, nonce, ts, sig);
  }

  lemma TagsTakeEightBytes(f: Frame)
    ensures |Utf8.Encode(Tag(f))| == 8
  {
    Utf8.AsciiTakesOneByte(Tag(f));
  }

  lemma SameTagSameKind(f: Frame, g: Frame)
    requires Tag(f) == Tag(g) && Scope(f) == Scope(g) && Source(f) == Source(g) && Body(f) == Body(g)
    ensures f == g
  {
    assert Tag(f)[0] == Tag(g)[0] && Tag(f)[1] == Tag(g)[1] && Tag(f)[5] == Tag(g)[5];
  }

  /** No two different frames, of the same kind or of different kinds, are signed as the same bytes,
      so no signature of one is a signature of another by the layout alone. */
  lemma FramesAreSignedApart(f: Frame, nonce: string, ts: int, g: Frame, nonce': string, ts': int)
    requires Framing.Carriable(ContentOf(f, nonce, ts)) && Framing.Carriable(ContentOf(g, nonce', ts'))
    requires Framing.Canonical(ContentOf(f, nonce, ts)) == Framing.Canonical(ContentOf(g, nonce', ts'))
    ensures f == g && nonce == nonce' && ts == ts'
  {
    Framing.CanonicalInjective(ContentOf(f, nonce, ts), ContentOf(g, nonce', ts'));
    Utf8.EncodeInjective(Tag(f), Tag(g));
    SameTagSameKind(f, g);
  }

  /** The tags never stand in the way: a frame can be carried whenever its time and sizes can. */
  lemma CarriableExactly(f: Frame, nonce: string, ts: int)
    ensures Framing.Carriable(ContentOf(f, nonce, ts))
       <==> && Framing.IsI64(ts) && |Utf8.Encode(nonce)| < Framing.TWO64 && |Utf8.Encode(Scope(f))| < Framing.TWO64
            && |Utf8.Encode(Source(f))| < Framing.TWO64 && |Utf8.Encode(Body(f))| < Framing.TWO64
  {
    TagsTakeEightBytes(f);
  }
}
