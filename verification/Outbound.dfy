/** The phone's guard for signed frames from the desktop: time window, signature, and a bounded cache
    of nonces (verifyOutbound in furx-sign.js). */
module Outbound {
  import opened Bits
  import opened JsNumber
  import opened Options
  import Frames
  import Framing
  import opened NonceCache
  import Spec = Sha256Spec

  // ── Comparing two signatures ────────────────────────────────────────────────

  lemma XorIsZero(x: Word, y: Word)
    ensures BitXor(x, y) == 0 <==> x == y
  {
    XorSigned(x, y);
    WordIsItself(x);
    WordIsItself(y);
    Pow2Values();
    var op := (a, b) => a != b;
    var z := Spec.Bitwise(op, x, y, 32);
    if z == 0 {
      forall i | 0 <= i < 32 ensures BitAt(x, i) == BitAt(y, i) {
        HighBitsAreClear(0, 0, i);
        assert BitAt(z, i) == op(BitAt(x, i), BitAt(y, i));
      }
      SameBits(x, y, 32);
    }
    if x == y {
      forall i | 0 <= i < 32 ensures BitAt(z, i) == BitAt(0, i) {
        HighBitsAreClear(0, 0, i);
        assert BitAt(z, i) == op(BitAt(x, i), BitAt(y, i));
      }
      SameBits(z, 0, 32);
    }
  }

  lemma OrIsZero(x: int, y: int)
    requires IsInt32(x) && IsInt32(y)
    ensures BitOr(x, y) == 0 <==> x == 0 && y == 0
  {
    OrSigned(x, y);
    Pow2Values();
    var a, b := ToUint32(x), ToUint32(y);
    var op := (a, b) => a || b;
    var z := Spec.Bitwise(op, a, b, 32);
    if z == 0 {
      forall i | 0 <= i < 32 ensures BitAt(a, i) == BitAt(0, i) && BitAt(b, i) == BitAt(0, i) {
        HighBitsAreClear(0, 0, i);
        assert BitAt(z, i) == op(BitAt(a, i), BitAt(b, i));
      }
      SameBits(a, 0, 32);
      SameBits(b, 0, 32);
    }
    if a == 0 && b == 0 {
      forall i | 0 <= i < 32 ensures BitAt(z, i) == BitAt(0, i) {
        HighBitsAreClear(0, 0, i);
        assert BitAt(z, i) == op(BitAt(a, i), BitAt(b, i));
      }
      SameBits(z, 0, 32);
    }
  }

  /** Accumulating differences without an early exit decides equality. */
  method SameText(expected: string, sig: string) returns (same: bool)
    ensures same <==> expected == sig
  {
    if |expected| != |sig| { return false; }
    var diff: int := 0;
    for i := 0 to |expected|
      invariant IsInt32(diff) && (diff == 0 <==> expected[..i] == sig[..i])
    {
      var x: int, y: int := expected[i] as int, sig[i] as int;
      XorIsZero(x, y);
      XorSigned(x, y);
      OrIsZero(diff, BitXor(x, y));
      OrSigned(diff, BitXor(x, y));
      assert expected[..i + 1] == expected[..i] + [expected[i]] && sig[..i + 1] == sig[..i] + [sig[i]];
      diff := BitOr(diff, BitXor(x, y));
    }
    assert expected[..|expected|] == expected && sig[..|sig|] == sig;
    same := diff == 0;
  }

  // ── The cache ───────────────────────────────────────────────────────────────

  const SKEW_SECS := 60

  /** What arrives: its time may be any finite double, and nonce, time and signature may be missing or
      of another type. */
  datatype Arrival = Arrival(frame: Frames.Frame, nonce: Option<string>, ts: Option<real>, sig: Option<string>, now: int)

  /** Only frames from the desktop to the phone have a tag here. */
  predicate HasTag(f: Frames.Frame) {
    f.NavSpec? || f.CommandCatalog? || f.AppEvent?
  }

  predicate IsWhole(x: real) {
    x.Floor as real == x
  }

  predicate IsNear(a: Arrival) {
    a.ts.Some? && -(SKEW_SECS as real) <= a.now as real - a.ts.value <= SKEW_SECS as real
  }

  predicate HasShape(a: Arrival) {
    HasTag(a.frame) && a.nonce.Some? && a.sig.Some? && IsNear(a)
  }

  function ContentOf(a: Arrival): Framing.Content
    requires a.nonce.Some? && a.ts.Some?
  {
    Frames.ContentOf(a.frame, a.nonce.value, a.ts.value.Floor)
  }

  predicate Authentic(secret: string, a: Arrival) {
    HasShape(a) && IsWhole(a.ts.value) && a.sig.value == Frames.ToHex(Frames.Mac(secret, ContentOf(a)))
  }

  function CallOf(secret: string, a: Arrival): Call {
    Call(if a.nonce.Some? then a.nonce.value else "", Authentic(secret, a))
  }

  /** A near time that is not a whole number cannot be laid out: BigInt raises. */
  datatype Verdict = Accepted | Refused | Raised

  class Verifier {
    var seen: seq<string>

    constructor ()
      ensures seen == []
    {
      seen := [];
    }

    method OutboundNonceSeen(nonce: string) returns (known: bool)
      modifies this
      ensures known <==> nonce in old(seen)
      ensures seen == if known then old(seen) else Remember(old(seen), nonce)
    {
      if nonce in seen { return true; }
      seen := seen + [nonce];
      if |seen| > NONCE_CAP {
        seen := seen[1..];
      }
      return false;
    }

    /** Accepted exactly if well-formed, near, whole, rightly signed and new; it raises exactly for a near
        time that is no whole number; and whatever is not accepted changes nothing. */
    method VerifyOutbound(secret: string, a: Arrival) returns (v: Verdict)
      requires HasShape(a) ==> Frames.Hashable(secret, ContentOf(a))
      modifies this
      ensures v.Accepted? <==> Accepts(old(seen), CallOf(secret, a))
      ensures v.Raised? <==> HasShape(a) && !IsWhole(a.ts.value)
      ensures seen == After(old(seen), CallOf(secret, a))
    {
      if !HasTag(a.frame) { return Refused; }
      if a.nonce.None? || a.sig.None? { return Refused; }
      if a.ts.None? { return Refused; }
      var ahead := a.now as real - a.ts.value;
      if (if ahead < 0.0 then -ahead else ahead) > SKEW_SECS as real { return Refused; }
      if !IsWhole(a.ts.value) { return Raised; }
      var expected := Frames.HmacHex(secret, ContentOf(a));
      var same := SameText(expected, a.sig.value);
      if !same { return Refused; }
      var known := OutboundNonceSeen(a.nonce.value);
      v := if known then Refused else Accepted;
    }
  }

  /** There are such times within the window: any half second next to now. */
  lemma HalfSecondsRaise(frame: Frames.Frame, nonce: string, sig: string, now: int) returns (a: Arrival)
    requires HasTag(frame)
    ensures a.frame == frame && a.nonce == Some(nonce) && a.sig == Some(sig) && a.now == now
    ensures HasShape(a) && !IsWhole(a.ts.value)
  {
    a := Arrival(frame, Some(nonce), Some(now as real + 0.5), Some(sig), now);
    assert a.ts.value.Floor == now;
  }

  lemma SignedIsAuthentic(secret: string, a: Arrival, content: Framing.Content)
    requires HasTag(a.frame) && a.nonce.Some? && a.ts.Some? && IsWhole(a.ts.value) && ContentOf(a) == content
    requires a.sig == Some(Frames.ToHex(Frames.Mac(secret, content)))
    ensures Authentic(secret, a) <==> IsNear(a)
  {
  }

  /** A frame the desktop signed with the shared secret gets through exactly when its time is near
      and its nonce is not among the last accepted. */
  method DesktopToPhone(v: Verifier, secret: string, frame: Frames.Frame, nonce: string, ts: int, now: int)
    returns (verdict: Verdict)
    requires HasTag(frame) && Frames.Hashable(secret, Frames.ContentOf(frame, nonce, ts))
    modifies v
    ensures verdict == if -60 <= now - ts <= 60 && nonce !in old(v.seen) then Accepted else Refused
  {
    var content := Frames.DesktopContent(frame, nonce, ts);
    var sig := Frames.SignOutbound(secret, content);
    var a := Arrival(frame, Some(nonce), Some(ts as real), Some(sig), now);
    assert ContentOf(a) == content by { Frames.SidesAgree(frame, nonce, ts); }
    SignedIsAuthentic(secret, a, content);
    verdict := v.VerifyOutbound(secret, a);
  }
}
