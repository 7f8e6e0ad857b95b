/** The pairing QR: the desktop prints a URI cut down to 175 characters (mobile_pairing_qr_generate in
    commands.rs), the phone parses it (pairing.js). */
module Pairing {
  import opened Bits
  import opened Decimal
  import opened Hex
  import opened Options
  import opened UrlQuery
  import Utf8

  const LAN_PORT := 43118
  const TS_PORT := 43119
  const MAX_URI := 175
  const GRACE_SECS := 45

  // ── The desktop's side ──────────────────────────────────────────────────────

  datatype Session = Session(tokenHex: string, expEpoch: nat)

  function Take(s: string, n: nat): string {
    if |s| <= n then s else s[..n]
  }

  /** At most fifteen characters of the host's name, escaped. */
  function NameParam(hostname: string): string {
    PercentEncode(Utf8.Encode(Take(hostname, 15)))
  }

  function Params(s: Session, hosts: string, name: string, ts: string): (ps: seq<Param>)
    ensures |ps| >= 6
  {
    [Param("v", "1"), Param("t", s.tokenHex), Param("h", hosts), Param("p", Print(LAN_PORT)),
     Param("exp", Print(s.expEpoch)), Param("n", name)]
    + (if ts == "" then [] else [Param("ts", ts)])
  }

  const PREFIX := "furx://pair?"

  function Build(s: Session, hosts: string, name: string, ts: string): string {
    PREFIX + Query(Params(s, hosts, name, ts))
  }

  datatype Candidate = Candidate(hosts: seq<string>, name: string)

  function HostsText(hosts: seq<string>): string {
    if hosts == [] then "" else Join(hosts, ',')
  }

  /** Two addresses and the name, one address and the name, one address, nothing. */
  function Candidates(lanIps: seq<string>, name: string): seq<Candidate> {
    var oneIp := if lanIps == [] then [] else lanIps[..1];
    [Candidate(lanIps, name), Candidate(oneIp, name), Candidate(oneIp, ""), Candidate([], "")]
  }

  function FirstFitting(s: Session, cs: seq<Candidate>, ts: string): (r: Option<Candidate>)
    ensures r.Some? ==> |Build(s, HostsText(r.value.hosts), r.value.name, ts)| <= MAX_URI
  {
    if cs == [] then None
    else if |Build(s, HostsText(cs[0].hosts), cs[0].name, ts)| <= MAX_URI then Some(cs[0])
    else FirstFitting(s, cs[1..], ts)
  }

  datatype Generated = Uri(uri: string, chosen: Candidate) | NoReachableHost | SessionRefused | TooLong

  function Generate(s: Session, lanIps: seq<string>, ts: string, hostname: string): Generated {
    if ts == "" && lanIps == [] then NoReachableHost
    else
      match FirstFitting(s, Candidates(lanIps, NameParam(hostname)), ts)
      case None => TooLong
      case Some(c) => Uri(Build(s, HostsText(c.hosts), c.name, ts), c)
  }

  // ── The phone's side ────────────────────────────────────────────────────────

  /** `Number` of one part of an address, for parts of decimal digits. */
  function PartNumber(part: string): Option<nat> {
    if AllDigits(part) then Some(Parse(part)) else None
  }

  predicate IsPrivate(a: nat, b: nat) {
    || (a == 100 && 64 <= b <= 127)
    || a == 10
    || (a == 172 && 16 <= b <= 31)
    || (a == 192 && b == 168)
  }

  predicate IsValidPairingHost(ip: string) {
    var parts := Split(ip, '.');
    && |parts| == 4
    && (forall p | p in parts :: PartNumber(p).Some? && PartNumber(p).value <= 255)
    && IsPrivate(PartNumber(parts[0]).value, PartNumber(parts[1]).value)
  }

  function ValidHosts(parts: seq<string>): seq<string> {
    if parts == [] then []
    else (if parts[0] != "" && IsValidPairingHost(parts[0]) then [parts[0]] else []) + ValidHosts(parts[1..])
  }

  datatype Payload = Payload(token: string, hosts: seq<string>, tsIp: Option<string>, port: nat, exp: nat, name: string)
  datatype Parsed = Ok(payload: Payload) | Error(reason: string)

  predicate IsHexText(s: string) {
    forall c | c in s :: HexValue(c).Some?
  }

  function Digits(s: string): Option<nat> {
    if s != "" && AllDigits(s) then Some(Parse(s)) else None
  }

  function OrElse(o: Option<string>, d: string): string {
    if o.None? || o.value == "" then d else o.value
  }

  function ParseFields(ps: seq<Param>, now: int): Parsed {
    var t := OrElse(Get(ps, "t"), "");
    var exp := Digits(OrElse(Get(ps, "exp"), ""));
    var port := if Get(ps, "p").None? then Some(LAN_PORT) else Digits(Get(ps, "p").value);
    var tsRaw := OrElse(Get(ps, "ts"), "");
    if Get(ps, "v") != Some("1") then
      Error("unsupported_version:" + (if Get(ps, "v").Some? then Get(ps, "v").value else "null"))
    else if |t| != 64 || !IsHexText(t) then Error("token_invalid")
    else if exp.None? || exp.value <= 0 || now > exp.value + GRACE_SECS then Error("token_expired")
    else if port != Some(LAN_PORT) then Error("port_invalid")
    else
      Ok(Payload(t, ValidHosts(Split(OrElse(Get(ps, "h"), ""), ',')),
                 if tsRaw != "" && IsValidPairingHost(tsRaw) then Some(tsRaw) else None,
                 LAN_PORT, exp.value, OrElse(Get(ps, "n"), "Desktop")))
  }

  function ParsePairingUri(uri: string, now: int): Parsed {
    if PREFIX <= uri then ParseFields(ParseQuery(uri[|PREFIX|..]), now) else Error("uri_invalid")
  }

  function SocketUrl(ip: string, port: nat): string {
    "ws://" + ip + ":" + Print(port) + "/ws"
  }

  function SocketUrls(ips: seq<string>, port: nat): (urls: seq<string>)
    ensures |urls| == |ips|
  {
    if ips == [] then [] else [SocketUrl(ips[0], port)] + SocketUrls(ips[1..], port)
  }

  function BuildCandidateUrls(p: Payload): seq<string> {
    SocketUrls(p.hosts, p.port) + (if p.tsIp.Some? then [SocketUrl(p.tsIp.value, TS_PORT)] else [])
  }

  // ── Addresses ───────────────────────────────────────────────────────────────

  datatype Ip = Ip(a: nat, b: nat, c: nat, d: nat)

  predicate IsIp(ip: Ip) {
    ip.a <= 255 && ip.b <= 255 && ip.c <= 255 && ip.d <= 255
  }

  function Dotted(ip: Ip): string {
    Join([Print(ip.a), Print(ip.b), Print(ip.c), Print(ip.d)], '.')
  }

  function DottedAll(ips: seq<Ip>): (ts: seq<string>)
    ensures |ts| == |ips| && forall i | 0 <= i < |ips| :: ts[i] == Dotted(ips[i])
  {
    if ips == [] then [] else [Dotted(ips[0])] + DottedAll(ips[1..])
  }

  predicate IsAddressText(s: string) {
    forall c | c in s :: IsDigit(c) || c == '.'
  }

  lemma DottedParts(ip: Ip)
    ensures Split(Dotted(ip), '.') == [Print(ip.a), Print(ip.b), Print(ip.c), Print(ip.d)]
  {
    ParsePrint(ip.a); ParsePrint(ip.b); ParsePrint(ip.c); ParsePrint(ip.d);
    var parts := [Print(ip.a), Print(ip.b), Print(ip.c), Print(ip.d)];
    SplitJoin(parts, '.');
  }

  lemma ShortNumber(n: nat)
    requires n <= 255
    ensures |Print(n)| <= 3 && PartNumber(Print(n)) == Some(n)
  {
    ParsePrint(n);
    assert Pow10(3) == 1000;
    PrintLength(n, 3);
  }

  predicate IsOctet(part: string) {
    AllDigits(part) && Parse(part) <= 255
  }

  lemma PartIsOctet(part: string)
    ensures PartNumber(part).Some? && PartNumber(part).value <= 255 <==> IsOctet(part)
    ensures PartNumber(part).Some? ==> PartNumber(part).value == Parse(part)
  {
  }

  /** An address is valid exactly if it is four numbers up to 255 with dots between them, the first two in
      a private range or Tailscale's. */
  lemma ValidHostExactly(host: string, parts: seq<string>)
    requires |parts| > 0 && (forall p | p in parts :: '.' !in p) && host == Join(parts, '.')
    ensures IsValidPairingHost(host)
       <==> && |parts| == 4 && (forall p | p in parts :: IsOctet(p)) && IsOctet(parts[0]) && IsOctet(parts[1])
            && var a, b := Parse(parts[0]), Parse(parts[1]);
               a == 10 || (a == 100 && 64 <= b <= 127) || (a == 172 && 16 <= b <= 31) || (a == 192 && b == 168)
  {
    SplitJoin(parts, '.');
    forall p | p in parts
      ensures PartNumber(p).Some? && PartNumber(p).value <= 255 <==> IsOctet(p)
      ensures PartNumber(p).Some? ==> PartNumber(p).value == Parse(p)
    {
      PartIsOctet(p);
    }
    if |parts| == 4 { assert parts[0] in parts && parts[1] in parts; }
  }

  /** The check on the phone is a check of the address's first two numbers. */
  lemma ValidExactly(ip: Ip)
    requires IsIp(ip)
    ensures IsValidPairingHost(Dotted(ip)) <==> IsPrivate(ip.a, ip.b)
  {
    DottedParts(ip);
    ShortNumber(ip.a); ShortNumber(ip.b); ShortNumber(ip.c); ShortNumber(ip.d);
  }

  lemma DottedText(ip: Ip)
    requires IsIp(ip)
    ensures IsAddressText(Dotted(ip)) && 0 < |Dotted(ip)| <= 15
  {
    ShortNumber(ip.a); ShortNumber(ip.b); ShortNumber(ip.c); ShortNumber(ip.d);
    ParsePrint(ip.a); ParsePrint(ip.b); ParsePrint(ip.c); ParsePrint(ip.d);
    JoinFour(Print(ip.a), Print(ip.b), Print(ip.c), Print(ip.d), '.');
  }

  lemma JoinFour(a: string, b: string, c: string, d: string, sep: char)
    ensures Join([a, b, c, d], sep) == a + [sep] + (b + [sep] + (c + [sep] + d))
  {
    assert [a, b, c, d][1..] == [b, c, d] && [b, c, d][1..] == [c, d] && [c, d][1..] == [d];
    assert Join([c, d], sep) == c + [sep] + d;
    assert Join([b, c, d], sep) == b + [sep] + Join([c, d], sep);
  }

  // ── What each parameter becomes on the other side ───────────────────────────

  lemma PlainValue(s: string)
    requires IsPlain(s)
    ensures FormText(s) == s
  {
    PlainDecodes(s);
    Utf8.LossyOfEncode(s);
  }

  lemma NumberValue(n: nat)
    ensures FormText(Print(n)) == Print(n) && Digits(Print(n)) == Some(n) && '&' !in Print(n)
  {
    ParsePrint(n);
    PlainValue(Print(n));
  }

  lemma NameValue(name: string)
    ensures FormText(PercentEncode(Utf8.Encode(name))) == name
    ensures '&' !in PercentEncode(Utf8.Encode(name))
  {
    DecodeEncode(Utf8.Encode(name));
    Utf8.LossyOfEncode(name);
    EncodedIsSafe(Utf8.Encode(name));
  }

  lemma AddressValue(s: string)
    requires IsAddressText(s)
    ensures FormText(s) == s && '&' !in s && ',' !in s
  {
    PlainValue(s);
  }

  // ── Reading the fields ──────────────────────────────────────────────────────

  lemma {:induction false} GetAt(ps: seq<Param>, name: string, i: nat)
    requires i < |ps| && ps[i].name == name && forall j | 0 <= j < i :: ps[j].name != name
    ensures Get(ps, name) == Some(ps[i].value)
  {
    if i == 0 {
    } else {
      assert ps[0].name != name;
      assert forall j | 0 <= j < i - 1 :: ps[1..][j] == ps[j + 1];
      GetAt(ps[1..], name, i - 1);
    }
  }

  lemma {:induction false} GetNothing(ps: seq<Param>, name: string)
    requires forall p | p in ps :: p.name != name
    ensures Get(ps, name) == None
  {
    if ps == [] {
    } else {
      assert ps[0] in ps;
      GetNothing(ps[1..], name);
    }
  }

  /** The parameters one by one. */
  ghost predicate Are(ps: seq<Param>, s: Session, hosts: string, name: string, ts: string, port: nat) {
    && |ps| == (if ts == "" then 6 else 7)
    && ps[0] == Param("v", "1") && ps[1] == Param("t", s.tokenHex) && ps[2] == Param("h", hosts)
    && ps[3] == Param("p", Print(port)) && ps[4] == Param("exp", Print(s.expEpoch)) && ps[5] == Param("n", name)
    && (ts != "" ==> ps[6] == Param("ts", ts))
  }

  lemma ParamsAre(s: Session, hosts: string, name: string, ts: string, port: nat)
    requires port == LAN_PORT
    ensures Are(Params(s, hosts, name, ts), s, hosts, name, ts, port)
  {
  }

  // Two names that differ in length or in their first letter.
  predicate Differ(m: string, n: string) {
    |m| != |n| || (m != "" && n != "" && m[0] != n[0])
  }

  lemma GetDecoded(ps: seq<Param>, name: string, i: nat)
    requires i < |ps| && ps[i].name == name && forall j | 0 <= j < i :: Differ(ps[j].name, name)
    ensures Get(Decoded(ps), name) == Some(FormText(ps[i].value))
  {
    GetAt(Decoded(ps), name, i);
  }

  lemma ReadHead(ps: seq<Param>, s: Session, hosts: string, name: string, ts: string, port: nat)
    requires Are(ps, s, hosts, name, ts, port)
    ensures Get(Decoded(ps), "v") == Some(FormText("1")) && Get(Decoded(ps), "t") == Some(FormText(s.tokenHex))
    ensures Get(Decoded(ps), "h") == Some(FormText(hosts))
  {
    GetDecoded(ps, "v", 0);
    GetDecoded(ps, "t", 1);
    GetDecoded(ps, "h", 2);
  }

  lemma ReadPort(ps: seq<Param>, s: Session, hosts: string, name: string, ts: string, port: nat)
    requires Are(ps, s, hosts, name, ts, port)
    ensures Get(Decoded(ps), "p") == Some(FormText(Print(port)))
  {
    GetDecoded(ps, "p", 3);
  }

  lemma ReadExp(ps: seq<Param>, s: Session, hosts: string, name: string, ts: string, port: nat)
    requires Are(ps, s, hosts, name, ts, port)
    ensures Get(Decoded(ps), "exp") == Some(FormText(Print(s.expEpoch)))
  {
    GetDecoded(ps, "exp", 4);
  }

  lemma ReadName(ps: seq<Param>, s: Session, hosts: string, name: string, ts: string, port: nat)
    requires Are(ps, s, hosts, name, ts, port)
    ensures Get(Decoded(ps), "n") == Some(FormText(name))
  {
    GetDecoded(ps, "n", 5);
  }

  lemma ReadTs(ps: seq<Param>, s: Session, hosts: string, name: string, ts: string, port: nat)
    requires Are(ps, s, hosts, name, ts, port) && ts != ""
    ensures Get(Decoded(ps), "ts") == Some(FormText(ts))
  {
    GetDecoded(ps, "ts", 6);
  }

  lemma ReadNoTs(ps: seq<Param>, s: Session, hosts: string, name: string, port: nat)
    requires Are(ps, s, hosts, name, "", port)
    ensures Get(Decoded(ps), "ts") == None
  {
    GetNothingDecoded(ps, "ts");
  }

  lemma GetNothingDecoded(ps: seq<Param>, name: string)
    requires |ps| == 6 && Differ(ps[0].name, name) && Differ(ps[1].name, name) && Differ(ps[2].name, name)
    requires Differ(ps[3].name, name) && Differ(ps[4].name, name) && Differ(ps[5].name, name)
    ensures Get(Decoded(ps), name) == None
  {
    forall p | p in Decoded(ps) ensures p.name != name {
      var i :| 0 <= i < |ps| && Decoded(ps)[i] == p;
      assert i == 0 || i == 1 || i == 2 || i == 3 || i == 4 || i == 5;
      assert Differ(ps[i].name, name);
    }
    GetNothing(Decoded(ps), name);
  }

  predicate IsSafeName(n: string) {
    '&' !in n && '=' !in n && IsPlain(n)
  }

  lemma SafeNames()
    ensures IsSafeName("v") && IsSafeName("t") && IsSafeName("h") && IsSafeName("p")
    ensures IsSafeName("exp") && IsSafeName("n") && IsSafeName("ts")
  {
  }

  lemma ParamsAreSafe(ps: seq<Param>, s: Session, hosts: string, name: string, ts: string, port: nat)
    requires Are(ps, s, hosts, name, ts, port)
    requires '&' !in s.tokenHex && '&' !in hosts && '&' !in name && '&' !in ts
    ensures forall p | p in ps :: IsSafe(p)
  {
    SafeNames();
    NumberValue(port);
    NumberValue(s.expEpoch);
    assert '&' !in "1";
    forall p | p in ps ensures IsSafe(p) {
      var i :| 0 <= i < |ps| && ps[i] == p;
      assert i == 0 || i == 1 || i == 2 || i == 3 || i == 4 || i == 5 || i == 6;
    }
  }

  // ── Lists of addresses ──────────────────────────────────────────────────────

  predicate AreIps(ips: seq<Ip>) {
    forall ip | ip in ips :: IsIp(ip)
  }

  predicate IsListText(s: string) {
    forall c | c in s :: IsDigit(c) || c == '.' || c == ','
  }

  lemma {:induction false} HostsTextIs(ips: seq<Ip>)
    requires AreIps(ips)
    ensures IsListText(HostsText(DottedAll(ips)))
    ensures ips != [] ==> HostsText(DottedAll(ips)) != "" && Split(HostsText(DottedAll(ips)), ',') == DottedAll(ips)
    decreases |ips|
  {
    if ips == [] {
    } else {
      var ts := DottedAll(ips);
      forall t | t in ts ensures ',' !in t {
        var i :| 0 <= i < |ts| && ts[i] == t;
        assert ips[i] in ips;
        DottedText(ips[i]);
        AddressValue(t);
      }
      SplitJoin(ts, ',');
      assert ips[0] in ips;
      DottedText(ips[0]);
      HostsTextIs(ips[1..]);
      assert ts[1..] == DottedAll(ips[1..]);
    }
  }

  /** The addresses a phone can be expected to reach. */
  function Private(ips: seq<Ip>): seq<Ip> {
    if ips == [] then [] else (if IsPrivate(ips[0].a, ips[0].b) then [ips[0]] else []) + Private(ips[1..])
  }

  lemma {:induction false} DottedAllConcat(a: seq<Ip>, b: seq<Ip>)
    ensures DottedAll(a + b) == DottedAll(a) + DottedAll(b)
  {
    if a == [] {
      assert a + b == b;
    } else {
      assert (a + b)[1..] == a[1..] + b;
      DottedAllConcat(a[1..], b);
    }
  }

  lemma {:induction false} ValidHostsAre(ips: seq<Ip>)
    requires AreIps(ips)
    ensures ValidHosts(DottedAll(ips)) == DottedAll(Private(ips))
  {
    if ips == [] {
    } else {
      var ip := ips[0];
      assert ip in ips;
      ValidExactly(ip);
      DottedText(ip);
      ValidHostsAre(ips[1..]);
      assert DottedAll(ips)[1..] == DottedAll(ips[1..]);
      DottedAllConcat(if IsPrivate(ip.a, ip.b) then [ip] else [], Private(ips[1..]));
      assert [ip][1..] == [];
      assert DottedAll([ip]) == [Dotted(ip)];
    }
  }

  lemma HostsRead(ips: seq<Ip>)
    requires AreIps(ips)
    ensures var h := HostsText(DottedAll(ips));
            FormText(h) == h && '&' !in h && ValidHosts(Split(OrElse(Some(h), ""), ',')) == DottedAll(Private(ips))
  {
    HostsTextIs(ips);
    PlainValue(HostsText(DottedAll(ips)));
    if ips == [] {
      assert ValidHosts([""]) == [] by { assert [""][1..] == []; }
    } else {
      ValidHostsAre(ips);
    }
  }

  function TsText(ts: Option<Ip>): string {
    if ts.None? then "" else Dotted(ts.value)
  }

  function TsOut(ts: Option<Ip>): Option<string> {
    if ts.Some? && IsPrivate(ts.value.a, ts.value.b) then Some(Dotted(ts.value)) else None
  }

  // ── The round trip of any candidate ─────────────────────────────────────────

  predicate IsSession(s: Session) {
    |s.tokenHex| == 64 && IsHexText(s.tokenHex) && 0 < s.expEpoch < 0x20_0000_0000_0000
  }

  lemma TokenValue(s: Session)
    requires IsSession(s)
    ensures FormText(s.tokenHex) == s.tokenHex && '&' !in s.tokenHex
  {
    PlainValue(s.tokenHex);
  }

  lemma TsRead(ts: Option<Ip>)
    requires ts.Some? ==> IsIp(ts.value)
    ensures '&' !in TsText(ts) && FormText(TsText(ts)) == TsText(ts) && (TsText(ts) == "" <==> ts.None?)
    ensures TsOut(ts) == if TsText(ts) != "" && IsValidPairingHost(TsText(ts)) then Some(TsText(ts)) else None
  {
    if ts.Some? {
      DottedText(ts.value);
      AddressValue(TsText(ts));
      ValidExactly(ts.value);
    } else {
      PlainValue("");
    }
  }

  lemma FieldsAreParsed(ds: seq<Param>, s: Session, h: string, name: string, ts: string, port: nat, now: int)
    requires IsSession(s) && port == LAN_PORT
    requires Get(ds, "v") == Some("1") && Get(ds, "t") == Some(s.tokenHex) && Get(ds, "h") == Some(h)
    requires Get(ds, "p") == Some(Print(port)) && Get(ds, "exp") == Some(Print(s.expEpoch))
    requires Get(ds, "n") == Some(name) && Get(ds, "ts") == if ts == "" then None else Some(ts)
    ensures ParseFields(ds, now)
         == if now > s.expEpoch + 45 then Error("token_expired")
            else Ok(Payload(s.tokenHex, ValidHosts(Split(OrElse(Some(h), ""), ',')),
                            if ts != "" && IsValidPairingHost(ts) then Some(ts) else None,
                            LAN_PORT, s.expEpoch, OrElse(Some(name), "Desktop")))
  {
    NumberValue(port);
    NumberValue(s.expEpoch);
    ParsePrint(s.expEpoch);
  }

  lemma UriIsQuery(s: Session, h: string, name: string, ts: string, now: int, ps: seq<Param>)
    requires ps == Params(s, h, name, ts) && forall p | p in ps :: IsSafe(p)
    ensures ParsePairingUri(Build(s, h, name, ts), now) == ParseFields(Decoded(ps), now)
  {
    QueryRoundTrip(ps);
    assert Build(s, h, name, ts)[|PREFIX|..] == Query(ps);
  }

  /** Any URI that was built is read back to its parts until forty-five seconds after it expires, and
      refused as expired from then on. */
  lemma BuiltIsParsed(s: Session, ips: seq<Ip>, name: string, ts: Option<Ip>, now: int)
    requires IsSession(s) && AreIps(ips) && '&' !in name
    requires ts.Some? ==> IsIp(ts.value)
    ensures ParsePairingUri(Build(s, HostsText(DottedAll(ips)), name, TsText(ts)), now)
         == if now > s.expEpoch + 45 then Error("token_expired")
            else Ok(Payload(s.tokenHex, DottedAll(Private(ips)), TsOut(ts), 43118, s.expEpoch,
                            if FormText(name) == "" then "Desktop" else FormText(name)))
  {
    HostsRead(ips);
    TsRead(ts);
    BuiltFrom(s, HostsText(DottedAll(ips)), name, TsText(ts), now);
  }

  lemma BuiltFrom(s: Session, h: string, name: string, ts: string, now: int)
    requires IsSession(s)
    requires '&' !in name && '&' !in h && FormText(h) == h && '&' !in ts && FormText(ts) == ts
    ensures ParsePairingUri(Build(s, h, name, ts), now)
         == if now > s.expEpoch + 45 then Error("token_expired")
            else Ok(Payload(s.tokenHex, ValidHosts(Split(OrElse(Some(h), ""), ',')),
                            if ts != "" && IsValidPairingHost(ts) then Some(ts) else None,
                            LAN_PORT, s.expEpoch, OrElse(Some(FormText(name)), "Desktop")))
  {
    var ps, port := Params(s, h, name, ts), LAN_PORT;
    ParamsAre(s, h, name, ts, port);
    TokenValue(s);
    ParamsAreSafe(ps, s, h, name, ts, port);
    UriIsQuery(s, h, name, ts, now, ps);
    ReadAll(ps, s, h, name, ts, port);
    FieldsAreParsed(Decoded(ps), s, h, FormText(name), ts, port, now);
  }

  lemma ReadAll(ps: seq<Param>, s: Session, h: string, name: string, ts: string, port: nat)
    requires Are(ps, s, h, name, ts, port) && IsSession(s) && FormText(h) == h && FormText(ts) == ts
    ensures Get(Decoded(ps), "v") == Some("1") && Get(Decoded(ps), "t") == Some(s.tokenHex) && Get(Decoded(ps), "h") == Some(h)
    ensures Get(Decoded(ps), "p") == Some(Print(port)) && Get(Decoded(ps), "exp") == Some(Print(s.expEpoch))
    ensures Get(Decoded(ps), "n") == Some(FormText(name)) && Get(Decoded(ps), "ts") == if ts == "" then None else Some(ts)
  {
    ReadHead(ps, s, h, name, ts, port);
    ReadPort(ps, s, h, name, ts, port);
    ReadExp(ps, s, h, name, ts, port);
    ReadName(ps, s, h, name, ts, port);
    if ts == "" { ReadNoTs(ps, s, h, name, port); } else { ReadTs(ps, s, h, name, ts, port); }
    TokenValue(s);
    PlainValue("1");
    NumberValue(port);
    NumberValue(s.expEpoch);
  }

  // ── What is refused, and why ────────────────────────────────────────────────

  predicate IsToken(t: Option<string>) {
    t.Some? && |t.value| == 64
    && forall c | c in t.value :: '0' <= c <= '9' || 'a' <= c <= 'f' || 'A' <= c <= 'F'
  }

  predicate IsCurrent(exp: Option<string>, now: int) {
    exp.Some? && exp.value != "" && AllDigits(exp.value) && Parse(exp.value) > 0 && now <= Parse(exp.value) + 45
  }

  predicate IsPort(p: Option<string>) {
    p.None? || (p.value != "" && AllDigits(p.value) && Parse(p.value) == 43118)
  }

  predicate IsVersion(v: Option<string>) {
    v == Some("1")
  }

  /** Each refusal names the first thing that is wrong. */
  lemma FieldsRefused(ps: seq<Param>, now: int)
    ensures var r, v := ParseFields(ps, now), Get(ps, "v");
            !IsVersion(v) ==> r == Error("unsupported_version:" + if v.Some? then v.value else "null")
    ensures IsVersion(Get(ps, "v")) && !IsToken(Get(ps, "t")) ==> ParseFields(ps, now) == Error("token_invalid")
    ensures IsVersion(Get(ps, "v")) && IsToken(Get(ps, "t")) && !IsCurrent(Get(ps, "exp"), now) ==>
              ParseFields(ps, now) == Error("token_expired")
    ensures IsVersion(Get(ps, "v")) && IsToken(Get(ps, "t")) && IsCurrent(Get(ps, "exp"), now) && !IsPort(Get(ps, "p")) ==>
              ParseFields(ps, now) == Error("port_invalid")
  {
    TokenExactly(Get(ps, "t"));
  }

  lemma FieldsAccepted(ps: seq<Param>, now: int)
    requires IsVersion(Get(ps, "v")) && IsToken(Get(ps, "t")) && IsCurrent(Get(ps, "exp"), now) && IsPort(Get(ps, "p"))
    ensures var r := ParseFields(ps, now);
            && r.Ok? && r.payload.token == Get(ps, "t").value && r.payload.exp == Parse(Get(ps, "exp").value)
            && r.payload.port == 43118
            && r.payload.name == (if Get(ps, "n").None? || Get(ps, "n").value == "" then "Desktop" else Get(ps, "n").value)
            && (forall h | h in r.payload.hosts :: IsValidPairingHost(h))
            && (Get(ps, "h").Some? ==> forall h | h in Split(Get(ps, "h").value, ',') && IsValidPairingHost(h) :: h in r.payload.hosts)
            && r.payload.tsIp
               == (if Get(ps, "ts").Some? && IsValidPairingHost(Get(ps, "ts").value) then Get(ps, "ts") else None)
  {
    TokenExactly(Get(ps, "t"));
    EmptyIsNoHost();
    ValidHostsAreValid(Split(OrElse(Get(ps, "h"), ""), ','));
  }

  /** A URI is read exactly if it is a pairing URI of version 1 with a token of sixty-four hexadecimal
      digits, a positive expiry at most forty-five seconds ago and no port but 43118. */
  lemma ParsesExactly(uri: string, now: int)
    ensures ParsePairingUri(uri, now).Ok?
       <==> && "furx://pair?" <= uri
            && var ps := ParseQuery(uri[12..]);
               IsVersion(Get(ps, "v")) && IsToken(Get(ps, "t")) && IsCurrent(Get(ps, "exp"), now) && IsPort(Get(ps, "p"))
    ensures !("furx://pair?" <= uri) ==> ParsePairingUri(uri, now) == Error("uri_invalid")
    ensures "furx://pair?" <= uri ==> ParsePairingUri(uri, now) == ParseFields(ParseQuery(uri[12..]), now)
  {
    if PREFIX <= uri {
      var ps := ParseQuery(uri[12..]);
      FieldsRefused(ps, now);
      if IsVersion(Get(ps, "v")) && IsToken(Get(ps, "t")) && IsCurrent(Get(ps, "exp"), now) && IsPort(Get(ps, "p")) {
        FieldsAccepted(ps, now);
      }
    }
  }

  lemma TokenExactly(t: Option<string>)
    ensures IsToken(t) <==> |OrElse(t, "")| == 64 && IsHexText(OrElse(t, ""))
  {
    if t.Some? {
      forall c | c in t.value
        ensures HexValue(c).Some? <==> '0' <= c <= '9' || 'a' <= c <= 'f' || 'A' <= c <= 'F'
      {
        HexDigits(c, 0);
      }
    }
  }

  lemma EmptyIsNoHost()
    ensures !IsValidPairingHost("")
  {
    assert Split("", '.') == [""];
  }

  lemma {:induction false} ValidHostsAreValid(parts: seq<string>)
    ensures forall h | h in ValidHosts(parts) :: h in parts && h != "" && IsValidPairingHost(h)
    ensures forall h | h in parts && h != "" && IsValidPairingHost(h) :: h in ValidHosts(parts)
  {
    if parts == [] {
    } else {
      ValidHostsAreValid(parts[1..]);
    }
  }

  // ── Lengths ─────────────────────────────────────────────────────────────────

  function Weight(ps: seq<Param>): nat {
    if ps == [] then 0 else |ps[0].name| + |ps[0].value| + 2 + Weight(ps[1..])
  }

  lemma {:induction false} QueryLength(ps: seq<Param>)
    requires |ps| > 0
    ensures |Query(ps)| + 1 == Weight(ps)
  {
    if |ps| <= 1 {
    } else {
      QueryLength(ps[1..]);
      assert Texts(ps)[1..] == Texts(ps[1..]);
    }
  }

  lemma WeightOf(a: Param, ps: seq<Param>)
    ensures Weight([a] + ps) == |a.name| + |a.value| + 2 + Weight(ps)
  {
    assert ([a] + ps)[1..] == ps;
  }

  lemma BuildLength(s: Session, hosts: string, name: string, ts: string)
    ensures |Build(s, hosts, name, ts)| <= 43 + |s.tokenHex| + |hosts| + |Print(s.expEpoch)| + |name| + |ts|
  {
    var ps := Params(s, hosts, name, ts);
    QueryLength(ps);
    var tail := if ts == "" then [] else [Param("ts", ts)];
    var p0, p1, p2 := Param("v", "1"), Param("t", s.tokenHex), Param("h", hosts);
    var p3, p4, p5 := Param("p", Print(LAN_PORT)), Param("exp", Print(s.expEpoch)), Param("n", name);
    assert ps == [p0] + ([p1] + ([p2] + ([p3] + ([p4] + ([p5] + tail)))));
    WeightOf(p5, tail); WeightOf(p4, [p5] + tail); WeightOf(p3, [p4] + ([p5] + tail));
    WeightOf(p2, [p3] + ([p4] + ([p5] + tail)));
    WeightOf(p1, [p2] + ([p3] + ([p4] + ([p5] + tail))));
    WeightOf(p0, [p1] + ([p2] + ([p3] + ([p4] + ([p5] + tail)))));
    PortDigits();
    assert Weight(tail) <= 4 + |ts| by {
      if ts != "" { assert [Param("ts", ts)][1..] == []; }
    }
  }

  lemma PortDigits()
    ensures |Print(LAN_PORT)| == 5
  {
    assert |Print(431)| == 3;
  }

  /** One address and no name always fit, whatever the expiry in 64 bits and with a second network. */
  lemma OneAddressFits(s: Session, hosts: string, ts: string)
    requires |s.tokenHex| == 64 && s.expEpoch < 0x1_0000_0000_0000_0000 && |hosts| <= 15 && |ts| <= 15
    ensures |Build(s, hosts, "", ts)| <= MAX_URI
  {
    BuildLength(s, hosts, "", ts);
    assert Pow10(20) > 0x1_0000_0000_0000_0000 by { assert Pow10(10) == 1_00000_00000; }
    PrintLength(s.expEpoch, 20);
  }

  // ── The generated code is read back ─────────────────────────────────────────

  predicate Fits(s: Session, c: Candidate, ts: string) {
    |Build(s, HostsText(c.hosts), c.name, ts)| <= MAX_URI
  }

  /** The reductions are tried in order, up to one that is known to fit. */
  lemma {:induction false} FirstFittingIsFirst(s: Session, cs: seq<Candidate>, ts: string, known: nat) returns (i: nat)
    requires known < |cs| && Fits(s, cs[known], ts)
    ensures i <= known && FirstFitting(s, cs, ts) == Some(cs[i])
    ensures forall j | 0 <= j < i :: !Fits(s, cs[j], ts)
  {
    if Fits(s, cs[0], ts) {
      i := 0;
    } else {
      var k := FirstFittingIsFirst(s, cs[1..], ts, known - 1);
      i := k + 1;
      forall j | 0 <= j < i ensures !Fits(s, cs[j], ts) {
        if j > 0 { assert cs[j] == cs[1..][j - 1]; }
      }
    }
  }

  function FirstOnly(ips: seq<Ip>): seq<Ip> {
    if ips == [] then [] else ips[..1]
  }

  lemma OneHostText(ips: seq<Ip>)
    requires AreIps(ips)
    ensures DottedAll(FirstOnly(ips)) == (if ips == [] then [] else DottedAll(ips)[..1])
    ensures |HostsText(DottedAll(FirstOnly(ips)))| <= 15
  {
    if ips != [] {
      assert ips[0] in ips;
      DottedText(ips[0]);
      assert FirstOnly(ips) == [ips[0]] && [ips[0]][1..] == [];
      assert DottedAll(FirstOnly(ips)) == [Dotted(ips[0])];
    }
  }

  lemma ThirdFits(s: Session, lanIps: seq<Ip>, ts: Option<Ip>, name: string)
    requires IsSession(s) && AreIps(lanIps) && (ts.Some? ==> IsIp(ts.value))
    ensures Candidates(DottedAll(lanIps), name)[2] == Candidate(DottedAll(FirstOnly(lanIps)), "")
    ensures Fits(s, Candidates(DottedAll(lanIps), name)[2], TsText(ts))
  {
    OneHostText(lanIps);
    if ts.Some? { DottedText(ts.value); }
    OneAddressFits(s, HostsText(DottedAll(FirstOnly(lanIps))), TsText(ts));
  }

  /** Whether the code with the first `kept` addresses, and with the name or without, is short enough. */
  predicate FitsWith(s: Session, lanIps: seq<Ip>, ts: Option<Ip>, kept: nat, name: string)
    requires kept <= |lanIps|
  {
    |Build(s, HostsText(DottedAll(lanIps[..kept])), name, TsText(ts))| <= 175
  }

  /** What is shown: all addresses and the name if that fits, else the first address and the name if that
      fits, else the first address alone, which always fits. So the error is never raised and the last
      candidate never taken. */
  lemma ChosenKeepsAHost(s: Session, lanIps: seq<Ip>, ts: Option<Ip>, hostname: string) returns (kept: nat)
    requires IsSession(s) && AreIps(lanIps) && (ts.Some? ==> IsIp(ts.value)) && (lanIps != [] || ts.Some?)
    ensures kept <= |lanIps| && (lanIps != [] ==> kept > 0)
    ensures var one := if lanIps == [] then 0 else 1;
            var name := PercentEncode(Utf8.Encode(if |hostname| <= 15 then hostname else hostname[..15]));
            var all, short := FitsWith(s, lanIps, ts, |lanIps|, name), FitsWith(s, lanIps, ts, one, name);
            && kept == (if all then |lanIps| else one)
            && Generate(s, DottedAll(lanIps), TsText(ts), hostname)
               == (var c := Candidate(DottedAll(lanIps[..kept]), if all || short then name else "");
                   Uri(Build(s, HostsText(c.hosts), c.name, TsText(ts)), c))
            && FitsWith(s, lanIps, ts, kept, if all || short then name else "")
  {
    var name := NameParam(hostname);
    var cs := Candidates(DottedAll(lanIps), name);
    ThirdFits(s, lanIps, ts, name);
    var i := FirstFittingIsFirst(s, cs, TsText(ts), 2);
    TsRead(ts);
    kept := if i == 0 then |lanIps| else |FirstOnly(lanIps)|;
    OneHostText(lanIps);
    assert lanIps[..|lanIps|] == lanIps && lanIps[..|FirstOnly(lanIps)|] == FirstOnly(lanIps);
    assert cs[0] == Candidate(DottedAll(lanIps), name) && cs[1] == Candidate(DottedAll(FirstOnly(lanIps)), name);
    if i > 0 { assert !Fits(s, cs[0], TsText(ts)); }
    if i > 1 { assert !Fits(s, cs[1], TsText(ts)); }
  }

  /** A desktop that has any address makes a code of at most 175 characters. Until forty-five seconds after
      it expires the phone reads from it the token, the expiry, the port, the reachable ones of the kept
      addresses, the Tailscale address if that is reachable, and the first fifteen characters of the name
      if it was kept; from then on it refuses it. */
  lemma RoundTrip(s: Session, lanIps: seq<Ip>, ts: Option<Ip>, hostname: string, now: int) returns (kept: nat, named: bool)
    requires IsSession(s) && AreIps(lanIps) && (ts.Some? ==> IsIp(ts.value)) && (lanIps != [] || ts.Some?)
    ensures kept <= |lanIps| && (lanIps != [] ==> kept > 0) && (kept < |lanIps| || named || kept <= 1)
    ensures var g := Generate(s, DottedAll(lanIps), TsText(ts), hostname);
            && g.Uri? && |g.uri| <= 175
            && (named <==> g.chosen.name == PercentEncode(Utf8.Encode(if |hostname| <= 15 then hostname else hostname[..15])))
            && ParsePairingUri(g.uri, now)
            == if now > s.expEpoch + 45 then Error("token_expired")
               else Ok(Payload(s.tokenHex, DottedAll(Private(lanIps[..kept])), TsOut(ts), 43118, s.expEpoch,
                               if !named || hostname == "" then "Desktop"
                               else if |hostname| <= 15 then hostname else hostname[..15]))
  {
    kept := ChosenKeepsAHost(s, lanIps, ts, hostname);
    var g := Generate(s, DottedAll(lanIps), TsText(ts), hostname);
    named := g.chosen.name == NameParam(hostname);
    NameValue(Take(hostname, 15));
    PlainValue("");
    BuiltIsParsed(s, lanIps[..kept], g.chosen.name, ts, now);
  }

  /** The command itself, with the sessions it has made. */
  class Desktop {
    var sessions: seq<Session>

    constructor ()
      ensures sessions == []
    {
      sessions := [];
    }

    /** `drawn` is what the session service would give, if anything. A session is spent exactly when a
        code is shown: without an address none is asked for, and once there is one the code never turns
        out too long. */
    method GenerateCode(drawn: Option<Session>, lanIps: seq<Ip>, ts: Option<Ip>, hostname: string) returns (g: Generated)
      requires (drawn.Some? ==> IsSession(drawn.value)) && AreIps(lanIps) && (ts.Some? ==> IsIp(ts.value))
      modifies this
      ensures g.NoReachableHost? <==> lanIps == [] && ts.None?
      ensures g.SessionRefused? <==> drawn.None? && !g.NoReachableHost?
      ensures g.Uri? <==> drawn.Some? && !g.NoReachableHost?
      ensures drawn.Some? ==> g == Generate(drawn.value, DottedAll(lanIps), TsText(ts), hostname)
      ensures g.Uri? ==> |g.uri| <= 175
      ensures sessions == old(sessions) + (if g.Uri? then [drawn.value] else [])
    {
      var hosts, tsParam := DottedAll(lanIps), TsText(ts);
      TsRead(ts);
      if tsParam == "" && hosts == [] { return NoReachableHost; }
      if drawn.None? { return SessionRefused; }
      var s := drawn.value;
      sessions := sessions + [s];
      ghost var _ := ChosenKeepsAHost(s, lanIps, ts, hostname);
      match FirstFitting(s, Candidates(hosts, NameParam(hostname)), tsParam) {
        case None => assert false; g := TooLong;
        case Some(c) => g := Uri(Build(s, HostsText(c.hosts), c.name, tsParam), c);
      }
    }
  }

  /** The addresses to try: the local ones in order on their port, then Tailscale's on its own; there is
      none exactly when nothing kept was reachable. */
  lemma UrlsExactly(p: Payload)
    requires p.port == 43118
    ensures var urls := BuildCandidateUrls(p);
            && |urls| == |p.hosts| + (if p.tsIp.Some? then 1 else 0)
            && (forall i | 0 <= i < |p.hosts| :: urls[i] == "ws://" + p.hosts[i] + ":43118/ws")
            && (p.tsIp.Some? ==> urls[|p.hosts|] == "ws://" + p.tsIp.value + ":43119/ws")
  {
    SocketUrlsAre(p.hosts);
    PrintPorts();
  }

  lemma {:induction false} SocketUrlsAre(ips: seq<string>)
    ensures forall i | 0 <= i < |ips| :: SocketUrls(ips, 43118)[i] == "ws://" + ips[i] + ":43118/ws"
  {
    if ips == [] {
    } else {
      SocketUrlsAre(ips[1..]);
      PrintPorts();
      assert "ws://" + ips[0] + ":" + "43118" + "/ws" == "ws://" + ips[0] + ":43118/ws";
    }
  }

  lemma PrintPorts()
    ensures Print(43118) == "43118" && Print(43119) == "43119"
  {
    assert Print(431) == "431" by { assert Print(43) == "43"; }
    assert Print(4311) == "4311";
  }

  lemma NothingToTryExactly(p: Payload)
    ensures BuildCandidateUrls(p) == [] <==> p.hosts == [] && p.tsIp.None?
  {
  }
}
