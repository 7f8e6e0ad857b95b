/** The length-prefixed byte string both ends of the bridge sign: canonicalBytes in furx-sign.js and
    canonical_bytes in mobile_bridge.rs. */
module Framing {
  import opened Bits
  import opened Options
  import Utf8

  // ── Little-endian integers ──────────────────────────────────────────────────

  function Pow256(k: nat): (p: nat)
    ensures p > 0
  {
    if k == 0 then 1 else 0x100 * Pow256(k - 1)
  }

  /** The low `k` bytes of `n`, least significant first. */
  function Le(n: nat, k: nat): (bs: seq<Byte>)
    ensures |bs| == k
  {
    if k == 0 then [] else [n % 0x100] + Le(n / 0x100, k - 1)
  }

  function FromLe(bs: seq<Byte>): (n: nat)
    ensures n < Pow256(|bs|)
  {
    if bs == [] then 0 else bs[0] + 0x100 * FromLe(bs[1..])
  }

  lemma {:induction false} FromLeOfLe(n: nat, k: nat)
    requires n < Pow256(k)
    ensures FromLe(Le(n, k)) == n
  {
    if k == 0 {
    } else {
      FromLeOfLe(n / 0x100, k - 1);
    }
  }

  lemma LowByte(first: int, rest: nat)
    requires 0 <= first < 0x100
    ensures (first + 0x100 * rest) % 0x100 == first && (first + 0x100 * rest) / 0x100 == rest
  {
  }

  lemma {:induction false} LeOfFromLe(bs: seq<Byte>)
    ensures Le(FromLe(bs), |bs|) == bs
  {
    if bs == [] {
    } else {
      var first: int, rest: int := bs[0], FromLe(bs[1..]);
      LowByte(first, rest);
      LeOfFromLe(bs[1..]);
    }
  }

  const TWO64 := 0x1_0000_0000_0000_0000

  /** `setBigUint64` and `setBigInt64`: the integer modulo 2^64. */
  function U64Le(n: int): (bs: seq<Byte>)
    ensures |bs| == 8
  {
    Le(n % TWO64, 8)
  }

  /** Reading eight bytes back as a signed integer. */
  function I64FromLe(bs: seq<Byte>): int
    requires |bs| == 8
  {
    if FromLe(bs) >= 0x8000_0000_0000_0000 then FromLe(bs) - TWO64 else FromLe(bs)
  }

  predicate IsI64(n: int) {
    -0x8000_0000_0000_0000 <= n < 0x8000_0000_0000_0000
  }

  lemma Pow256Of8()
    ensures Pow256(8) == TWO64
  {
    assert Pow256(4) == 0x1_0000_0000;
  }

  lemma Wraps(n: int)
    ensures 0 <= n < TWO64 ==> n % TWO64 == n
    ensures -TWO64 <= n < 0 ==> n % TWO64 == n + TWO64
  {
  }

  lemma U64RoundTrip(n: nat)
    requires n < TWO64
    ensures FromLe(U64Le(n)) == n
  {
    Wraps(n);
    ReadBack(n, U64Le(n));
  }

  lemma ReadBack(n: nat, bs: seq<Byte>)
    requires n < TWO64 && bs == Le(n, 8)
    ensures FromLe(bs) == n
  {
    Pow256Of8();
    FromLeOfLe(n, 8);
  }

  lemma I64RoundTrip(n: int)
    requires IsI64(n)
    ensures I64FromLe(U64Le(n)) == n
  {
    Wraps(n);
    ReadBack(if n < 0 then n + TWO64 else n, U64Le(n));
  }

  lemma WriteBack(bs: seq<Byte>, n: nat)
    requires |bs| == 8 && n == FromLe(bs)
    ensures Le(n, 8) == bs && n < TWO64
  {
    Pow256Of8();
    LeOfFromLe(bs);
  }

  lemma EightBytes(bs: seq<Byte>)
    requires |bs| == 8
    ensures U64Le(FromLe(bs)) == bs && FromLe(bs) < TWO64
  {
    WriteBack(bs, FromLe(bs));
    Wraps(FromLe(bs));
  }

  lemma EightSignedBytes(bs: seq<Byte>, n: nat, i: int)
    requires |bs| == 8 && n == FromLe(bs) && i == I64FromLe(bs)
    ensures IsI64(i) && U64Le(i) == bs
  {
    WriteBack(bs, n);
    Wraps(i);
  }

  // ── The layout ──────────────────────────────────────────────────────────────

  function Field(bs: seq<Byte>): seq<Byte> {
    U64Le(|bs|) + bs
  }

  datatype Content = Content(tag: seq<Byte>, nonce: string, ts: int, scope: string, source: string, body: string)

  function Canonical(c: Content): seq<Byte> {
    c.tag + Field(Utf8.Encode(c.nonce)) + Field(U64Le(c.ts)) + Field(Utf8.Encode(c.scope))
    + Field(Utf8.Encode(c.source)) + Field(Utf8.Encode(c.body))
  }

  /** What the format can carry: tags of eight bytes, times of 64 bits, fields below 2^64 bytes. */
  predicate Carriable(c: Content) {
    && |c.tag| == 8 && IsI64(c.ts)
    && |Utf8.Encode(c.nonce)| < TWO64 && |Utf8.Encode(c.scope)| < TWO64
    && |Utf8.Encode(c.source)| < TWO64 && |Utf8.Encode(c.body)| < TWO64
  }

  // ── Reading it back ─────────────────────────────────────────────────────────

  /** One field and what follows it. */
  function TakeField(bs: seq<Byte>): (r: Option<(seq<Byte>, seq<Byte>)>)
    ensures r.Some? ==> |r.value.1| < |bs|
  {
    if |bs| < 8 then None
    else
      var n := FromLe(bs[..8]);
      if |bs| - 8 < n then None else Some((bs[8..8 + n], bs[8 + n..]))
  }

  function TakeText(bs: seq<Byte>): Option<(string, seq<Byte>)> {
    match TakeField(bs)
    case None => None
    case Some((field, rest)) =>
      match Utf8.Decode(field)
      case None => None
      case Some(s) => Some((s, rest))
  }

  function TakeTime(bs: seq<Byte>): Option<(int, seq<Byte>)> {
    match TakeField(bs)
    case None => None
    case Some((field, rest)) => if |field| == 8 then Some((I64FromLe(field), rest)) else None
  }

  function Parse(bs: seq<Byte>): Option<Content> {
    if |bs| < 8 then None
    else match TakeText(bs[8..])
      case None => None
      case Some((nonce, afterNonce)) =>
      match TakeTime(afterNonce)
      case None => None
      case Some((ts, afterTs)) =>
      match TakeText(afterTs)
      case None => None
      case Some((scope, afterScope)) =>
      match TakeText(afterScope)
      case None => None
      case Some((source, afterSource)) =>
      match TakeText(afterSource)
      case None => None
      case Some((body, end)) =>
        if end == [] then Some(Content(bs[..8], nonce, ts, scope, source, body)) else None
  }

  // ── One field ───────────────────────────────────────────────────────────────

  lemma TakeFieldOfField(field: seq<Byte>, rest: seq<Byte>)
    requires |field| < TWO64
    ensures TakeField(Field(field) + rest) == Some((field, rest))
  {
    var bs := Field(field) + rest;
    U64RoundTrip(|field|);
    assert bs[..8] == U64Le(|field|);
    assert bs[8..8 + |field|] == field;
    assert bs[8 + |field|..] == rest;
  }

  lemma FieldOfTakeField(bs: seq<Byte>, field: seq<Byte>, rest: seq<Byte>)
    requires TakeField(bs) == Some((field, rest))
    ensures bs == Field(field) + rest && |field| < TWO64
  {
    EightBytes(bs[..8]);
    assert bs == bs[..8] + bs[8..8 + |field|] + bs[8 + |field|..];
  }

  lemma TextThere(s: string, rest: seq<Byte>)
    requires |Utf8.Encode(s)| < TWO64
    ensures TakeText(Field(Utf8.Encode(s)) + rest) == Some((s, rest))
  {
    TakeFieldOfField(Utf8.Encode(s), rest);
    Utf8.DecodeEncode(s);
  }

  lemma TextBack(bs: seq<Byte>, s: string, rest: seq<Byte>)
    requires TakeText(bs) == Some((s, rest))
    ensures bs == Field(Utf8.Encode(s)) + rest && |Utf8.Encode(s)| < TWO64
  {
    var p := TakeField(bs).value;
    FieldOfTakeField(bs, p.0, p.1);
    Utf8.EncodeDecode(p.0, s);
  }

  lemma TimeThere(ts: int, rest: seq<Byte>)
    requires IsI64(ts)
    ensures TakeTime(Field(U64Le(ts)) + rest) == Some((ts, rest))
  {
    TakeFieldOfField(U64Le(ts), rest);
    I64RoundTrip(ts);
  }

  lemma TimeBack(bs: seq<Byte>, ts: int, rest: seq<Byte>)
    requires TakeTime(bs) == Some((ts, rest))
    ensures bs == Field(U64Le(ts)) + rest && IsI64(ts)
  {
    var p := TakeField(bs).value;
    FieldOfTakeField(bs, p.0, p.1);
    EightSignedBytes(p.0, FromLe(p.0), ts);
  }

  // ── The whole layout ────────────────────────────────────────────────────────

  lemma Regroup(a: seq<Byte>, b: seq<Byte>, c: seq<Byte>, d: seq<Byte>, e: seq<Byte>, f: seq<Byte>)
    ensures a + b + c + d + e + f == a + (b + (c + (d + (e + (f + [])))))
  {
  }

  /** The bytes tell everything that was signed, */
  lemma ParseCanonical(c: Content)
    requires Carriable(c)
    ensures Parse(Canonical(c)) == Some(c)
  {
    var n, t := Field(Utf8.Encode(c.nonce)), Field(U64Le(c.ts));
    var sc, so, b := Field(Utf8.Encode(c.scope)), Field(Utf8.Encode(c.source)), Field(Utf8.Encode(c.body));
    Regroup(c.tag, n, t, sc, so, b);
    var bs := Canonical(c);
    assert bs[..8] == c.tag && bs[8..] == n + (t + (sc + (so + (b + []))));
    TextThere(c.nonce, t + (sc + (so + (b + []))));
    TimeThere(c.ts, sc + (so + (b + [])));
    TextThere(c.scope, so + (b + []));
    TextThere(c.source, b + []);
    TextThere(c.body, []);
  }

  /** and only bytes laid out this way are read. */
  lemma CanonicalParse(bs: seq<Byte>, c: Content)
    requires Parse(bs) == Some(c)
    ensures Canonical(c) == bs && Carriable(c)
  {
    var p1 := TakeText(bs[8..]).value;
    TextBack(bs[8..], p1.0, p1.1);
    var p2 := TakeTime(p1.1).value;
    TimeBack(p1.1, p2.0, p2.1);
    var p3 := TakeText(p2.1).value;
    TextBack(p2.1, p3.0, p3.1);
    var p4 := TakeText(p3.1).value;
    TextBack(p3.1, p4.0, p4.1);
    var p5 := TakeText(p4.1).value;
    TextBack(p4.1, p5.0, p5.1);
    Regroup(c.tag, Field(Utf8.Encode(c.nonce)), Field(U64Le(c.ts)), Field(Utf8.Encode(c.scope)),
            Field(Utf8.Encode(c.source)), Field(Utf8.Encode(c.body)));
    assert bs == bs[..8] + bs[8..];
  }

  /** Parsing inverts signing exactly. */
  lemma ParsesExactly(bs: seq<Byte>, c: Content)
    ensures Parse(bs) == Some(c) <==> Carriable(c) && Canonical(c) == bs
  {
    if Parse(bs) == Some(c) { CanonicalParse(bs, c); }
    if Carriable(c) { ParseCanonical(c); }
  }

  lemma CanonicalInjective(c: Content, d: Content)
    requires Carriable(c) && Carriable(d) && Canonical(c) == Canonical(d)
    ensures c == d
  {
    ParseCanonical(c);
    ParseCanonical(d);
  }

  // ── How JavaScript builds it ────────────────────────────────────────────────

  function Flatten(chunks: seq<seq<Byte>>): seq<Byte> {
    if chunks == [] then [] else Flatten(chunks[..|chunks| - 1]) + chunks[|chunks| - 1]
  }

  lemma FlattenMore(chunks: seq<seq<Byte>>, c: seq<Byte>)
    ensures Flatten(chunks + [c]) == Flatten(chunks) + c
  {
    assert (chunks + [c])[..|chunks|] == chunks;
  }

  lemma FlattenNext(chunks: seq<seq<Byte>>, i: nat)
    requires i < |chunks|
    ensures Flatten(chunks[..i + 1]) == Flatten(chunks[..i]) + chunks[i]
  {
    assert chunks[..i + 1] == chunks[..i] + [chunks[i]];
    FlattenMore(chunks[..i], chunks[i]);
  }

  method TotalSize(chunks: seq<seq<Byte>>) returns (total: nat)
    ensures total == |Flatten(chunks)|
  {
    total := 0;
    for i := 0 to |chunks|
      invariant total == |Flatten(chunks[..i])|
    {
      FlattenNext(chunks, i);
      total := total + |chunks[i]|;
    }
    assert chunks[..|chunks|] == chunks;
  }

  /** `out.set(c, off)`. */
  method SetChunk(out: array<Byte>, off: nat, c: seq<Byte>)
    requires off + |c| <= out.Length
    modifies out
    ensures out[..off + |c|] == old(out[..off]) + c
  {
    forall j | 0 <= j < |c| { out[off + j] := c[j]; }
  }

  /** concatBytes: one buffer of the total size, filled chunk by chunk. */
  method ConcatBytes(chunks: seq<seq<Byte>>) returns (out: array<Byte>)
    ensures fresh(out) && out[..] == Flatten(chunks)
  {
    var total := TotalSize(chunks);
    out := new Byte[total](i => 0);
    var off := 0;
    for i := 0 to |chunks|
      invariant fresh(out) && out.Length == total && 0 <= off <= total
      invariant out[..off] == Flatten(chunks[..i])
    {
      FlattenNext(chunks, i);
      FlattenPrefix(chunks, i + 1);
      SetChunk(out, off, chunks[i]);
      off := off + |chunks[i]|;
    }
    assert chunks[..|chunks|] == chunks;
    assert out[..off] == out[..];
  }

  lemma {:induction false} FlattenPrefix(chunks: seq<seq<Byte>>, i: nat)
    requires i <= |chunks|
    ensures |Flatten(chunks[..i])| <= |Flatten(chunks)|
    decreases |chunks| - i
  {
    if i == |chunks| {
      assert chunks[..i] == chunks;
    } else {
      FlattenNext(chunks, i);
      FlattenPrefix(chunks, i + 1);
    }
  }

  function PushField(chunks: seq<seq<Byte>>, bs: seq<Byte>): seq<seq<Byte>> {
    chunks + [U64Le(|bs|)] + [bs]
  }

  lemma PushedField(chunks: seq<seq<Byte>>, bs: seq<Byte>)
    ensures Flatten(PushField(chunks, bs)) == Flatten(chunks) + Field(bs)
  {
    FlattenMore(chunks, U64Le(|bs|));
    FlattenMore(chunks + [U64Le(|bs|)], bs);
  }

  /** canonicalBytes of furx-sign.js. */
  method JsCanonicalBytes(c: Content) returns (out: array<Byte>)
    ensures fresh(out) && out[..] == Canonical(c)
  {
    var chunks := [c.tag];
    assert Flatten(chunks) == c.tag by {
      FlattenMore([], c.tag);
      assert [] + [c.tag] == [c.tag];
    }
    PushedField(chunks, Utf8.Encode(c.nonce));
    chunks := PushField(chunks, Utf8.Encode(c.nonce));
    PushedField(chunks, U64Le(c.ts));
    chunks := PushField(chunks, U64Le(c.ts));
    PushedField(chunks, Utf8.Encode(c.scope));
    chunks := PushField(chunks, Utf8.Encode(c.scope));
    PushedField(chunks, Utf8.Encode(c.source));
    chunks := PushField(chunks, Utf8.Encode(c.source));
    PushedField(chunks, Utf8.Encode(c.body));
    chunks := PushField(chunks, Utf8.Encode(c.body));
    out := ConcatBytes(chunks);
  }

  // ── How Rust builds it ──────────────────────────────────────────────────────

  function Push(out: seq<Byte>, bs: seq<Byte>): seq<Byte> {
    out + U64Le(|bs|) + bs
  }

  /** canonical_bytes of mobile_bridge.rs: the same bytes, pushed onto one vector. */
  method RustCanonicalBytes(c: Content) returns (out: seq<Byte>)
    ensures out == Canonical(c)
  {
    out := c.tag;
    out := Push(out, Utf8.Encode(c.nonce));
    var tsBytes := U64Le(c.ts);
    out := out + U64Le(|tsBytes|);
    out := out + tsBytes;
    out := Push(out, Utf8.Encode(c.scope));
    out := Push(out, Utf8.Encode(c.source));
    out := Push(out, Utf8.Encode(c.body));
  }
}
