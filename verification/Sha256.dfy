/** The hash as furx-sign.js computes it: padded buffer, schedule array, eight rolling variables,
    sums of mixed signed and unsigned numbers that are cut to 32 bits at the end. */
module Sha256 {
  import opened Bits
  import opened JsNumber
  import Spec = Sha256Spec

  // ── The expressions of the round, each equal to its function in the standard ─

  function UpperS1(e: Word): int { BitXor(BitXor(Rotr(e, 6), Rotr(e, 11)), Rotr(e, 25)) }
  function UpperS0(a: Word): int { BitXor(BitXor(Rotr(a, 2), Rotr(a, 13)), Rotr(a, 22)) }
  function LittleS0(x: Word): int { BitXor(BitXor(Rotr(x, 7), Rotr(x, 18)), ShiftRightZero(x, 3)) }
  function LittleS1(x: Word): int { BitXor(BitXor(Rotr(x, 17), Rotr(x, 19)), ShiftRightZero(x, 10)) }
  function Choose(e: Word, f: Word, g: Word): int { BitXor(BitAnd(e, f), BitAnd(BitNot(e), g)) }
  function Majority(a: Word, b: Word, c: Word): int { BitXor(BitXor(BitAnd(a, b), BitAnd(a, c)), BitAnd(b, c)) }

  lemma UpperS1IsSigma(e: Word)
    ensures ToUint32(UpperS1(e)) == Spec.BigSigma1(e) && IsInt32(UpperS1(e))
  {
    RotrWord(e, 6); RotrWord(e, 11); RotrWord(e, 25);
    XorSigned(Rotr(e, 6), Rotr(e, 11));
    XorSigned(BitXor(Rotr(e, 6), Rotr(e, 11)), Rotr(e, 25));
  }

  lemma UpperS0IsSigma(a: Word)
    ensures ToUint32(UpperS0(a)) == Spec.BigSigma0(a) && IsInt32(UpperS0(a))
  {
    RotrWord(a, 2); RotrWord(a, 13); RotrWord(a, 22);
    XorSigned(Rotr(a, 2), Rotr(a, 13));
    XorSigned(BitXor(Rotr(a, 2), Rotr(a, 13)), Rotr(a, 22));
  }

  lemma LittleS0IsSigma(x: Word)
    ensures ToUint32(LittleS0(x)) == Spec.SmallSigma0(x) && IsInt32(LittleS0(x))
  {
    RotrWord(x, 7); RotrWord(x, 18); ShiftRightWord(x, 3);
    XorSigned(Rotr(x, 7), Rotr(x, 18));
    XorSigned(BitXor(Rotr(x, 7), Rotr(x, 18)), ShiftRightZero(x, 3));
  }

  lemma LittleS1IsSigma(x: Word)
    ensures ToUint32(LittleS1(x)) == Spec.SmallSigma1(x) && IsInt32(LittleS1(x))
  {
    RotrWord(x, 17); RotrWord(x, 19); ShiftRightWord(x, 10);
    XorSigned(Rotr(x, 17), Rotr(x, 19));
    XorSigned(BitXor(Rotr(x, 17), Rotr(x, 19)), ShiftRightZero(x, 10));
  }

  lemma ChooseIsCh(e: Word, f: Word, g: Word)
    ensures ToUint32(Choose(e, f, g)) == Spec.Ch(e, f, g) && IsInt32(Choose(e, f, g))
  {
    WordIsItself(e); WordIsItself(f); WordIsItself(g);
    NotWord(e);
    AndSigned(e, f);
    AndSigned(BitNot(e), g);
    XorSigned(BitAnd(e, f), BitAnd(BitNot(e), g));
  }

  lemma MajorityIsMaj(a: Word, b: Word, c: Word)
    ensures ToUint32(Majority(a, b, c)) == Spec.Maj(a, b, c) && IsInt32(Majority(a, b, c))
  {
    WordIsItself(a); WordIsItself(b); WordIsItself(c);
    AndSigned(a, b); AndSigned(a, c); AndSigned(b, c);
    XorSigned(BitAnd(a, b), BitAnd(a, c));
    XorSigned(BitXor(BitAnd(a, b), BitAnd(a, c)), BitAnd(b, c));
  }

  // One more term on a running sum whose cut value is known.
  lemma OneMore(sum: int, cut: Word, y: int, z: Word)
    requires ToUint32(sum) == cut && ToUint32(y) == z
    ensures ToUint32(sum + y) == Spec.Add(cut, z)
  {
    SumCut(sum, y);
  }

  /** Five terms, two of them signed: no partial sum is rounded, and cutting once at the end is
      cutting after every addition. */
  lemma FiveTerms(h: Word, x: int, y: int, k: Word, w: Word, x': Word, y': Word)
    requires IsInt32(x) && IsInt32(y) && ToUint32(x) == x' && ToUint32(y) == y'
    ensures ToUint32(Plus(Plus(Plus(Plus(h, x), y), k), w))
         == Spec.Add(Spec.Add(Spec.Add(Spec.Add(h, x'), y'), k), w)
  {
    var h0: int, k0: int, w0: int := h, k, w;
    WordIsItself(h); WordIsItself(k); WordIsItself(w);
    OneMore(h0, h, x, x');
    OneMore(h0 + x, Spec.Add(h, x'), y, y');
    OneMore(h0 + x + y, Spec.Add(Spec.Add(h, x'), y'), k0, k);
    OneMore(h0 + x + y + k0, Spec.Add(Spec.Add(Spec.Add(h, x'), y'), k), w0, w);
  }

  // ── The padded buffer ───────────────────────────────────────────────────────

  function ZeroByteCount(length: nat): (k: nat)
    ensures k < 64
  {
    (56 - (length + 1) % 64 + 64) % 64
  }

  lemma PaddedSize(length: nat)
    ensures (length + 1 + ZeroByteCount(length) + 8) % 64 == 0
    ensures 7 + 8 * ZeroByteCount(length) == Spec.ZeroCount(8 * length)
  {
    var q, r := (length + 1) / 64, (length + 1) % 64;
    SizeFor(q, r);
    BitCountFor(q, r);
  }

  lemma SizeFor(q: nat, r: nat)
    requires r < 64 && 64 * q + r >= 1
    ensures ZeroByteCount(64 * q + r - 1) == if r <= 56 then 56 - r else 120 - r
    ensures (64 * q + r + ZeroByteCount(64 * q + r - 1) + 8) % 64 == 0
  {
  }

  lemma BitCountFor(q: nat, r: nat)
    requires r < 64 && 64 * q + r >= 1
    ensures Spec.ZeroCount(8 * (64 * q + r - 1)) == 7 + 8 * (if r <= 56 then 56 - r else 120 - r)
  {
    if r == 0 {
      Remainder(q - 1, 505);
    } else {
      Remainder(q, 8 * r - 7);
    }
  }

  // The position of the marker bit within its block decides the number of zeros.
  lemma Remainder(q: nat, r: nat)
    requires 0 < r < 512
    ensures (512 * q + r) % 512 == r
    ensures Spec.ZeroCount(512 * q + r - 1) == if r <= 448 then 448 - r else 960 - r
  {
  }

  /** The message, 0x80, zeros, and the bit length as two big-endian halves. */
  function PadBytes(msg: seq<Byte>): (bs: seq<Byte>)
    ensures |bs| == |msg| + 1 + ZeroByteCount(|msg|) + 8 && |bs| % 64 == 0
  {
    PaddedSize(|msg|);
    msg + [0x80] + Spec.ZeroBytes(ZeroByteCount(|msg|)) + SizeBytes(8 * |msg|)
  }

  function SizeBytes(l: nat): (bs: seq<Byte>)
    ensures |bs| == 8
  {
    BigEndian(ToUint32(l / TWO32)) + BigEndian(ToUint32(l))
  }

  lemma {:induction false} ZeroBytesAreZeros(n: nat)
    ensures OfBytes(Spec.ZeroBytes(n)) == Zeros(8 * n)
  {
    if n == 0 {
    } else {
      assert Spec.ZeroBytes(n)[1..] == Spec.ZeroBytes(n - 1);
      ZeroBytesAreZeros(n - 1);
      ZeroBits(8);
      assert Zeros(8) + Zeros(8 * (n - 1)) == Zeros(8 * n);
    }
  }

  lemma {:induction false} ZeroBits(n: nat)
    ensures Of(0, n) == Zeros(n)
  {
    if n == 0 {
    } else {
      ZeroBits(n - 1);
      assert Zeros(n - 1) + [false] == Zeros(n);
    }
  }

  lemma MarkerBits()
    ensures OfBytes([0x80]) == [true] + Zeros(7)
  {
    OfByte(0x80);
    OfSplit(0x80, 1, 7);
    assert Pow2(7) == 0x80 && ShiftRight(0x80, 7) == ShiftRight(8, 3) == 1 by {
      assert Pow2(4) == 16;
    }
    OfAdd(0, 1, 7);
    ZeroBits(7);
    assert Of(1, 1) == Of(0, 0) + [true];
  }

  lemma BytesOfHalves(hi: Word, lo: Word)
    ensures OfBytes(BigEndian(hi) + BigEndian(lo)) == Of(hi, 32) + Of(lo, 32)
  {
    BigEndianBits(hi);
    BigEndianBits(lo);
    OfBytesConcat(BigEndian(hi), BigEndian(lo));
  }

  lemma BitsOfHalves(x: nat, hi: Word, lo: Word)
    requires x == TWO32 * hi + lo
    ensures Of(x, 64) == Of(hi, 32) + Of(lo, 32)
  {
    OfSplit(x, 32, 32);
    ShiftWord(x);
    LowWord(x, hi, lo);
  }

  /** Two 32-bit halves are the 64 bits of the length. */
  lemma LengthBits(x: nat, hi: Word, lo: Word)
    requires x == TWO32 * hi + lo
    ensures OfBytes(BigEndian(hi) + BigEndian(lo)) == Of(x, 64)
  {
    BytesOfHalves(hi, lo);
    BitsOfHalves(x, hi, lo);
  }

  lemma LowWord(x: nat, hi: Word, lo: Word)
    requires x == TWO32 * hi + lo
    ensures Of(x, 32) == Of(lo, 32)
  {
    Pow2Values();
    OfAdd(lo, hi, 32);
  }

  lemma ShiftWord(x: nat)
    ensures ShiftRight(x, 32) == x / TWO32
  {
    ShiftAgain(x, 8, 24);
    ShiftByte(x);
    ShiftAgain(x / 0x100, 8, 16);
    ShiftByte(x / 0x100);
    ShiftAgain(x / 0x1_0000, 8, 8);
    ShiftByte(x / 0x1_0000);
    ShiftByte(x / 0x100_0000);
  }

  lemma {:induction false} ShiftAgain(x: nat, m: nat, n: nat)
    ensures ShiftRight(x, m + n) == ShiftRight(ShiftRight(x, m), n)
  {
    if m == 0 {
    } else {
      ShiftAgain(x / 2, m - 1, n);
      assert m + n - 1 == m - 1 + n;
    }
  }

  lemma PadParts(msg: seq<Byte>, zeros: seq<Byte>, size: seq<Byte>, count: nat)
    requires OfBytes([0x80]) + OfBytes(zeros) == [true] + Zeros(count)
    ensures OfBytes(msg + [0x80] + zeros + size) == OfBytes(msg) + [true] + Zeros(count) + OfBytes(size)
  {
    FourParts(msg, [0x80], zeros, size);
    RegroupBits(OfBytes(msg), Zeros(count), OfBytes(size));
  }

  lemma SpecPadIs(m: seq<bool>, count: nat)
    requires count == Spec.ZeroCount(|m|)
    ensures Spec.Pad(m) == m + [true] + Zeros(count) + Of(|m|, 64)
  {
  }

  lemma PadBytesAre(msg: seq<Byte>, l: nat, k: nat, count: nat)
    requires l == 8 * |msg| <= MAX_EXACT && k == ZeroByteCount(|msg|) && count == 7 + 8 * k
    ensures OfBytes(PadBytes(msg)) == OfBytes(msg) + [true] + Zeros(count) + Of(l, 64)
  {
    SizeBits(l);
    MarkerAndZeros(k);
    PadParts(msg, Spec.ZeroBytes(k), SizeBytes(l), count);
  }

  /** The buffer is the standard's padding of the message's bits. */
  lemma PadBytesIsPad(msg: seq<Byte>)
    requires 8 * |msg| <= MAX_EXACT
    ensures OfBytes(PadBytes(msg)) == Spec.Pad(OfBytes(msg))
  {
    PaddedSize(|msg|);
    SameZeroCount(msg, OfBytes(msg));
  }

  lemma SameZeroCount(msg: seq<Byte>, m: seq<bool>)
    requires m == OfBytes(msg) && 8 * |msg| <= MAX_EXACT
    requires 7 + 8 * ZeroByteCount(|msg|) == Spec.ZeroCount(|m|)
    ensures OfBytes(PadBytes(msg)) == Spec.Pad(m)
  {
    var count := Spec.ZeroCount(|m|);
    PadBytesAre(msg, |m|, ZeroByteCount(|msg|), count);
    SpecPadIs(m, count);
  }

  lemma SizeBits(l: nat)
    requires l <= MAX_EXACT
    ensures OfBytes(SizeBytes(l)) == Of(l, 64)
  {
    LengthHalves(l);
    LengthBits(l, ToUint32(l / TWO32), ToUint32(l));
  }

  lemma MarkerAndZeros(k: nat)
    ensures OfBytes([0x80]) + OfBytes(Spec.ZeroBytes(k)) == [true] + Zeros(7 + 8 * k)
  {
    MarkerBits();
    ZeroBytesAreZeros(k);
    assert Zeros(7) + Zeros(8 * k) == Zeros(7 + 8 * k);
    RegroupBits([], Zeros(7), Zeros(8 * k));
  }

  lemma RegroupBits(a: seq<bool>, b: seq<bool>, c: seq<bool>)
    ensures a + ([true] + b) + c == a + [true] + b + c
    ensures [true] + b + c == [true] + (b + c)
  {
  }

  lemma LengthHalves(x: nat)
    requires x <= MAX_EXACT
    ensures x == TWO32 * ToUint32(x / TWO32) + ToUint32(x)
  {
  }

  lemma FourParts(a: seq<Byte>, b: seq<Byte>, c: seq<Byte>, d: seq<Byte>)
    ensures OfBytes(a + b + c + d) == OfBytes(a) + (OfBytes(b) + OfBytes(c)) + OfBytes(d)
  {
    OfBytesConcat(a, b);
    OfBytesConcat(a + b, c);
    OfBytesConcat(a + b + c, d);
  }

  // ── Reading words out of the buffer ─────────────────────────────────────────

  lemma Middle(a: seq<bool>, b: seq<bool>, c: seq<bool>)
    ensures (a + b + c)[|a|..|a| + |b|] == b
  {
  }

  lemma ThreeParts(a: seq<Byte>, b: seq<Byte>, c: seq<Byte>)
    ensures OfBytes(a + b + c) == OfBytes(a) + OfBytes(b) + OfBytes(c)
  {
    OfBytesConcat(a, b);
    OfBytesConcat(a + b, c);
  }

  lemma BitsOfSlice(bs: seq<Byte>, i: nat, j: nat, from: nat, to: nat)
    requires i <= j <= |bs| && from == 8 * i && to == 8 * j
    ensures OfBytes(bs[i..j]) == OfBytes(bs)[from..to]
  {
    ThreeParts(bs[..i], bs[i..j], bs[j..]);
    Middle(OfBytes(bs[..i]), OfBytes(bs[i..j]), OfBytes(bs[j..]));
    Cut(bs, i, j);
  }

  lemma Cut(bs: seq<Byte>, i: nat, j: nat)
    requires i <= j <= |bs|
    ensures bs[..i] + bs[i..j] + bs[j..] == bs
  {
  }

  lemma WordAtIs(p: seq<bool>, n: nat, bits: seq<bool>)
    requires 32 * n + 32 <= |p| && bits == p[32 * n..32 * n + 32]
    ensures Spec.WordAt(p, n) == Value(bits)
  {
  }

  lemma FourBytesValue(bs: seq<Byte>, bits: seq<bool>)
    requires |bs| == 4 && bits == OfBytes(bs)
    ensures Value(bits) == FromBigEndian(bs)
  {
    FromBigEndianIsValue(bs);
  }

  /** `getUint32` at byte 4n is the n-th word of the bit string. */
  lemma ReadWord(bs: seq<Byte>, n: nat, at: nat)
    requires at == 4 * n && at + 4 <= |bs|
    ensures FromBigEndian(bs[at..at + 4]) == Spec.WordAt(OfBytes(bs), n)
  {
    var p := OfBytes(bs);
    var bits := p[32 * n..32 * n + 32];
    WordAtIs(p, n, bits);
    BitsOfSlice(bs, at, at + 4, 32 * n, 32 * n + 32);
    FourBytesValue(bs[at..at + 4], bits);
  }

  // ── The algorithm ───────────────────────────────────────────────────────────

  /** `DataView.setUint32(at, w, false)`. */
  method SetUint32(buf: array<Byte>, at: nat, w: Word)
    requires at + 4 <= buf.Length
    modifies buf
    ensures buf[at..at + 4] == BigEndian(w)
    ensures buf[..at] == old(buf[..at]) && buf[at + 4..] == old(buf[at + 4..])
  {
    var bs := BigEndian(w);
    buf[at], buf[at + 1], buf[at + 2], buf[at + 3] := bs[0], bs[1], bs[2], bs[3];
  }

  /** The bit length into the last eight bytes, low half first. */
  method WriteSize(buf: array<Byte>, bitLen: nat)
    requires 8 <= buf.Length
    modifies buf
    ensures buf[..buf.Length - 8] == old(buf[..buf.Length - 8])
    ensures buf[buf.Length - 8..] == SizeBytes(bitLen)
  {
    var total := buf.Length;
    SetUint32(buf, total - 4, ToUint32(bitLen));
    ghost var half := buf[..];
    assert half[..total - 4][..total - 8] == half[..total - 8];
    assert half[total - 4..] == BigEndian(ToUint32(bitLen));
    SetUint32(buf, total - 8, ToUint32(bitLen / TWO32));
    TwoHalves(buf[..], half, total, BigEndian(ToUint32(bitLen / TWO32)), BigEndian(ToUint32(bitLen)));
  }

  lemma TwoHalves(s: seq<Byte>, half: seq<Byte>, total: nat, hi: seq<Byte>, lo: seq<Byte>)
    requires |s| == |half| == total >= 8
    requires s[total - 8..total - 4] == hi && s[total - 4..] == half[total - 4..] == lo
    ensures s[total - 8..] == hi + lo
  {
  }

  lemma Assemble(s: seq<Byte>, msg: seq<Byte>, n: nat, k: nat, size: seq<Byte>)
    requires n == |msg| && |s| == n + 1 + k + |size|
    requires s[..n] == msg && s[n] == 0x80
    requires forall i | n + 1 <= i < n + 1 + k :: s[i] == 0
    requires s[n + 1 + k..] == size
    ensures s == msg + [0x80] + Spec.ZeroBytes(k) + size
  {
    assert s[..n + 1] == msg + [0x80];
    assert s[n + 1..n + 1 + k] == Spec.ZeroBytes(k);
    assert s == s[..n + 1] + s[n + 1..n + 1 + k] + s[n + 1 + k..];
  }

  method PaddedBuffer(msg: seq<Byte>) returns (buf: array<Byte>)
    requires 8 * |msg| <= MAX_EXACT
    ensures fresh(buf) && buf[..] == PadBytes(msg)
  {
    var ml := |msg|;
    var withOne := ml + 1;
    var k := (56 - (withOne % 64) + 64) % 64;
    assert k == ZeroByteCount(ml);
    var total := withOne + k + 8;
    buf := new Byte[total](i => 0);
    forall i | 0 <= i < ml { buf[i] := msg[i]; }
    buf[ml] := 0x80;
    var bitLen := ml * 8;
    ghost var body := buf[..total - 8];
    assert body[..ml] == msg;
    WriteSize(buf, bitLen);
    Filled(buf[..], msg, k, body);
  }

  lemma Filled(s: seq<Byte>, msg: seq<Byte>, k: nat, body: seq<Byte>)
    requires k == ZeroByteCount(|msg|) && |s| == |msg| + 1 + k + 8
    requires s[..|msg| + 1 + k] == body && s[|msg| + 1 + k..] == SizeBytes(8 * |msg|)
    requires body[..|msg|] == msg && body[|msg|] == 0x80
    requires forall i | |msg| + 1 <= i < |msg| + 1 + k :: body[i] == 0
    ensures s == PadBytes(msg)
  {
    assert s[..|msg|] == body[..|msg|];
    forall i | |msg| <= i < |msg| + 1 + k ensures s[i] == body[i] {
      assert s[..|msg| + 1 + k][i] == s[i];
    }
    Assemble(s, msg, |msg|, k, SizeBytes(8 * |msg|));
  }

  // The schedule's sum in the order the code takes, with its signed terms.
  lemma FourTerms(u: Word, x: int, v: Word, y: int, x': Word, y': Word)
    requires IsInt32(x) && IsInt32(y) && ToUint32(x) == x' && ToUint32(y) == y'
    ensures ToUint32(Plus(Plus(Plus(u, x), v), y)) == Spec.Add(Spec.Add(Spec.Add(y', v), x'), u)
  {
    var u0: int, v0: int := u, v;
    WordIsItself(u); WordIsItself(v);
    OneMore(y, y', v0, v);
    OneMore(y + v0, Spec.Add(y', v), x, x');
    OneMore(y + v0 + x, Spec.Add(Spec.Add(y', v), x'), u0, u);
    assert u0 + x + v0 + y == y + v0 + x + u0;
  }

  lemma ScheduleStep(m: seq<Word>, i: nat, u: Word, p: Word, v: Word, q: Word)
    requires |m| == 16 && 16 <= i
    requires u == Spec.Schedule(m, i - 16) && p == Spec.Schedule(m, i - 15)
    requires v == Spec.Schedule(m, i - 7) && q == Spec.Schedule(m, i - 2)
    ensures IsInt32(LittleS0(p)) && IsInt32(LittleS1(q))
    ensures ToUint32(Plus(Plus(Plus(u, LittleS0(p)), v), LittleS1(q))) == Spec.Schedule(m, i)
  {
    LittleS0IsSigma(p);
    LittleS1IsSigma(q);
    FourTerms(u, LittleS0(p), v, LittleS1(q), Spec.SmallSigma0(p), Spec.SmallSigma1(q));
  }

  lemma FirstWords(m: seq<Word>)
    requires |m| == 16
    ensures forall j | 0 <= j < 16 :: Spec.Schedule(m, j) == m[j]
  {
  }

  /** `ms[n]` are the sixteen big-endian words of the n-th 64 bytes. */
  ghost predicate WordsOf(bs: seq<Byte>, ms: seq<seq<Word>>) {
    && |bs| == 64 * |ms|
    && forall n | 0 <= n < |ms| :: IsBlockAt(bs, 64 * n, ms[n])
  }

  ghost predicate IsBlockAt(bs: seq<Byte>, off: nat, m: seq<Word>) {
    && off + 64 <= |bs| && |m| == 16
    && forall i | 0 <= i < 16 :: m[i] == FromBigEndian(bs[off + 4 * i..off + 4 * i + 4])
  }

  /** `DataView.getUint32(at, false)`. */
  method GetUint32(buf: array<Byte>, at: nat) returns (w: Word)
    requires at + 4 <= buf.Length
    ensures w == FromBigEndian(buf[..][at..at + 4])
  {
    w := FromBigEndian([buf[at], buf[at + 1], buf[at + 2], buf[at + 3]]);
    assert buf[..][at..at + 4] == [buf[at], buf[at + 1], buf[at + 2], buf[at + 3]];
  }

  method ReadBlock(buf: array<Byte>, off: nat, w: array<Word>, ghost m: seq<Word>)
    requires w.Length == 64 && IsBlockAt(buf[..], off, m)
    modifies w
    ensures w[..16] == m
  {
    for i := 0 to 16
      invariant w[..i] == m[..i]
    {
      w[i] := GetUint32(buf, off + 4 * i);
    }
  }

  method ExpandBlock(w: array<Word>, ghost m: seq<Word>)
    requires w.Length == 64 && |m| == 16 && w[..16] == m
    modifies w
    ensures forall j | 0 <= j < 64 :: w[j] == Spec.Schedule(m, j)
  {
    FirstWords(m);
    for i := 16 to 64
      invariant forall j | 0 <= j < i :: w[j] == Spec.Schedule(m, j)
    {
      ScheduleStep(m, i, w[i - 16], w[i - 15], w[i - 7], w[i - 2]);
      w[i] := ToUint32(Plus(Plus(Plus(w[i - 16], LittleS0(w[i - 15])), w[i - 7]), LittleS1(w[i - 2])));
    }
  }

  // What a round computes from the words its four expressions stand for.
  lemma RoundWith(v: Spec.Vars, k: Word, w: Word, t1: Word, t2: Word)
    requires t1 == Spec.Add(Spec.Add(Spec.Add(Spec.Add(v.h, Spec.BigSigma1(v.e)), Spec.Ch(v.e, v.f, v.g)), k), w)
    requires t2 == Spec.Add(Spec.BigSigma0(v.a), Spec.Maj(v.a, v.b, v.c))
    ensures Spec.Round(v, k, w) == Spec.Vars(Spec.Add(t1, t2), v.a, v.b, v.c, Spec.Add(v.d, t1), v.e, v.f, v.g)
  {
  }

  lemma FirstSum(v: Spec.Vars, k: Word, w: Word)
    ensures IsInt32(UpperS1(v.e)) && IsInt32(Choose(v.e, v.f, v.g))
    ensures ToUint32(Plus(Plus(Plus(Plus(v.h, UpperS1(v.e)), Choose(v.e, v.f, v.g)), k), w))
         == Spec.Add(Spec.Add(Spec.Add(Spec.Add(v.h, Spec.BigSigma1(v.e)), Spec.Ch(v.e, v.f, v.g)), k), w)
  {
    UpperS1IsSigma(v.e);
    ChooseIsCh(v.e, v.f, v.g);
    FiveTerms(v.h, UpperS1(v.e), Choose(v.e, v.f, v.g), k, w, Spec.BigSigma1(v.e), Spec.Ch(v.e, v.f, v.g));
  }

  lemma SecondSum(v: Spec.Vars)
    ensures IsInt32(UpperS0(v.a)) && IsInt32(Majority(v.a, v.b, v.c))
    ensures ToUint32(Plus(UpperS0(v.a), Majority(v.a, v.b, v.c))) == Spec.Add(Spec.BigSigma0(v.a), Spec.Maj(v.a, v.b, v.c))
  {
    UpperS0IsSigma(v.a);
    MajorityIsMaj(v.a, v.b, v.c);
    OneMore(UpperS0(v.a), Spec.BigSigma0(v.a), Majority(v.a, v.b, v.c), Spec.Maj(v.a, v.b, v.c));
  }

  lemma WordSum(x: Word, y: Word)
    ensures ToUint32(Plus(x, y)) == Spec.Add(x, y)
  {
  }

  function HashOf(h: seq<Word>): Spec.Vars
    requires |h| == 8
  {
    Spec.Vars(h[0], h[1], h[2], h[3], h[4], h[5], h[6], h[7])
  }

  /** The eight hash words as they stand. */
  function Current(h: array<Word>): Spec.Vars
    reads h
    requires h.Length == 8
  {
    Spec.Vars(h[0], h[1], h[2], h[3], h[4], h[5], h[6], h[7])
  }

  method RunRounds(v: Spec.Vars, w: array<Word>, ghost m: seq<Word>) returns (r: Spec.Vars)
    requires w.Length == 64 && |m| == 16
    requires forall j | 0 <= j < 64 :: w[j] == Spec.Schedule(m, j)
    ensures r == Spec.Rounds(v, m, 64)
  {
    var a, b, c, d, e, f, g, hh := v.a, v.b, v.c, v.d, v.e, v.f, v.g, v.h;
    for i := 0 to 64
      invariant Spec.Vars(a, b, c, d, e, f, g, hh) == Spec.Rounds(v, m, i)
    {
      ghost var before := Spec.Vars(a, b, c, d, e, f, g, hh);
      FirstSum(before, Spec.K(i), w[i]);
      var t1 := ToUint32(Plus(Plus(Plus(Plus(hh, UpperS1(e)), Choose(e, f, g)), Spec.K(i)), w[i]));
      SecondSum(before);
      var t2 := ToUint32(Plus(UpperS0(a), Majority(a, b, c)));
      RoundWith(before, Spec.K(i), w[i], t1, t2);
      WordSum(t1, t2);
      WordSum(d, t1);
      hh := g; g := f; f := e; e := ToUint32(Plus(d, t1)); d := c; c := b; b := a; a := ToUint32(Plus(t1, t2));
    }
    r := Spec.Vars(a, b, c, d, e, f, g, hh);
  }

  method AddToHash(h: array<Word>, r: Spec.Vars)
    requires h.Length == 8
    modifies h
    ensures Current(h) == Spec.AddVars(r, old(Current(h)))
  {
    h[0], h[1], h[2], h[3] := ToUint32(h[0] + r.a), ToUint32(h[1] + r.b), ToUint32(h[2] + r.c), ToUint32(h[3] + r.d);
    h[4], h[5], h[6], h[7] := ToUint32(h[4] + r.e), ToUint32(h[5] + r.f), ToUint32(h[6] + r.g), ToUint32(h[7] + r.h);
  }

  method AddBlock(buf: array<Byte>, off: nat, h: array<Word>, w: array<Word>, ghost m: seq<Word>)
    requires h.Length == 8 && w.Length == 64 && h != w && IsBlockAt(buf[..], off, m)
    modifies h, w
    ensures Current(h) == Spec.Compress(old(Current(h)), m)
  {
    ReadBlock(buf, off, w, m);
    ExpandBlock(w, m);
    var v := Current(h);
    var r := RunRounds(v, w, m);
    AddToHash(h, r);
    CompressIs(v, m, r);
  }

  lemma CompressIs(v: Spec.Vars, m: seq<Word>, r: Spec.Vars)
    requires |m| == 16 && r == Spec.Rounds(v, m, 64)
    ensures Spec.Compress(v, m) == Spec.AddVars(r, v)
  {
  }

  /** The hash values before the first block and after each. */
  ghost predicate Chain(hs: seq<Spec.Vars>, ms: seq<seq<Word>>) {
    && |hs| == |ms| + 1
    && (forall n | 0 <= n < |ms| :: |ms[n]| == 16)
    && (forall n {:trigger Spec.Compress(hs[n], ms[n])} | 0 <= n < |ms| :: hs[n + 1] == Spec.Compress(hs[n], ms[n]))
  }

  method NextBlock(buf: array<Byte>, off: nat, h: array<Word>, w: array<Word>,
                   ghost hs: seq<Spec.Vars>, ghost ms: seq<seq<Word>>, ghost n: nat)
    requires Chain(hs, ms) && n < |ms| && IsBlockAt(buf[..], off, ms[n])
    requires h.Length == 8 && w.Length == 64 && h != w && Current(h) == hs[n]
    modifies h, w
    ensures Current(h) == hs[n + 1]
  {
    AddBlock(buf, off, h, w, ms[n]);
  }

  method AddBlocks(buf: array<Byte>, h: array<Word>, ghost hs: seq<Spec.Vars>, ghost ms: seq<seq<Word>>)
    requires h.Length == 8 && WordsOf(buf[..], ms) && Chain(hs, ms) && Current(h) == hs[0]
    modifies h
    ensures Current(h) == hs[|ms|]
  {
    var w := new Word[64];
    var off := 0;
    ghost var n := 0;
    while off < buf.Length
      invariant off == 64 * n && n <= |ms|
      invariant Current(h) == hs[n]
    {
      NextBlock(buf, off, h, w, hs, ms, n);
      off := off + 64;
      n := n + 1;
    }
  }

  ghost predicate BlocksAre(p: seq<bool>, ms: seq<seq<Word>>) {
    512 * |ms| <= |p| && forall n | 0 <= n < |ms| :: ms[n] == Spec.Block(p, n)
  }

  ghost predicate HashesAre(p: seq<bool>, hs: seq<Spec.Vars>) {
    |hs| > 0 && 512 * (|hs| - 1) <= |p| && forall n | 0 <= n < |hs| :: hs[n] == Spec.HashAfter(p, n)
  }

  lemma Link(p: seq<bool>, hs: seq<Spec.Vars>, ms: seq<seq<Word>>, n: nat)
    requires HashesAre(p, hs) && BlocksAre(p, ms) && n < |ms| < |hs|
    ensures hs[n + 1] == Spec.Compress(hs[n], ms[n])
  {
    HashAfterOneMore(p, n);
  }

  lemma Linked(p: seq<bool>, hs: seq<Spec.Vars>, ms: seq<seq<Word>>)
    requires HashesAre(p, hs) && BlocksAre(p, ms) && |hs| == |ms| + 1
    ensures Chain(hs, ms)
  {
    forall n | 0 <= n < |ms| ensures hs[n + 1] == Spec.Compress(hs[n], ms[n]) {
      Link(p, hs, ms, n);
    }
  }

  lemma AllHashes(p: seq<bool>, blocks: nat) returns (hs: seq<Spec.Vars>)
    requires |p| >= 512 * blocks
    ensures |hs| == blocks + 1 && HashesAre(p, hs)
  {
    hs := seq(blocks + 1, n requires 0 <= n <= blocks => Spec.HashAfter(p, n));
  }

  lemma ChainOf(p: seq<bool>, blocks: nat) returns (hs: seq<Spec.Vars>, ms: seq<seq<Word>>)
    requires |p| >= 512 * blocks
    ensures |ms| == blocks && Chain(hs, ms) && HashesAre(p, hs) && BlocksAre(p, ms)
  {
    hs := AllHashes(p, blocks);
    ms := seq(blocks, n requires 0 <= n < blocks => Spec.Block(p, n));
    Linked(p, hs, ms);
  }

  /** Reading four bytes at a time is reading words of the bit string. */
  ghost predicate ReadsAs(bs: seq<Byte>, p: seq<bool>) {
    && |p| == 8 * |bs|
    && forall k {:trigger Spec.WordAt(p, k)} | 0 <= k && 4 * k + 4 <= |bs| ::
         FromBigEndian(bs[4 * k..4 * k + 4]) == Spec.WordAt(p, k)
  }

  lemma BytesReadAsBits(bs: seq<Byte>)
    ensures ReadsAs(bs, OfBytes(bs))
  {
    forall k | 0 <= k && 4 * k + 4 <= |bs|
      ensures FromBigEndian(bs[4 * k..4 * k + 4]) == Spec.WordAt(OfBytes(bs), k)
    {
      ReadWord(bs, k, 4 * k);
    }
  }

  // The sixteen big-endian words of a block are the standard's message block.
  lemma BlockWords(bs: seq<Byte>, p: seq<bool>, n: nat)
    requires ReadsAs(bs, p) && 64 * n + 64 <= |bs|
    ensures IsBlockAt(bs, 64 * n, Spec.Block(p, n))
  {
    var m := Spec.Block(p, n);
    forall i | 0 <= i < 16 ensures m[i] == FromBigEndian(bs[64 * n + 4 * i..64 * n + 4 * i + 4]) {
      var k := 16 * n + i;
      assert FromBigEndian(bs[4 * k..4 * k + 4]) == Spec.WordAt(p, k);
    }
  }

  lemma BlocksOf(bs: seq<Byte>, p: seq<bool>, ms: seq<seq<Word>>)
    requires ReadsAs(bs, p) && |bs| == 64 * |ms| && BlocksAre(p, ms)
    ensures WordsOf(bs, ms)
  {
    forall n | 0 <= n < |ms| ensures IsBlockAt(bs, 64 * n, ms[n]) {
      BlockWords(bs, p, n);
    }
  }

  lemma ChainOfBytes(bs: seq<Byte>, blocks: nat) returns (hs: seq<Spec.Vars>, ms: seq<seq<Word>>)
    requires |bs| == 64 * blocks
    ensures |ms| == blocks && Chain(hs, ms) && WordsOf(bs, ms)
    ensures hs[0] == Spec.INITIAL && hs[blocks] == Spec.HashAfter(OfBytes(bs), blocks)
  {
    hs, ms := ChainOf(OfBytes(bs), blocks);
    HashAfterNone(OfBytes(bs));
    BytesReadAsBits(bs);
    BlocksOf(bs, OfBytes(bs), ms);
  }

  lemma HashAfterNone(p: seq<bool>)
    ensures Spec.HashAfter(p, 0) == Spec.INITIAL
  {
  }

  lemma HashAfterOneMore(p: seq<bool>, n: nat)
    requires 512 * (n + 1) <= |p|
    ensures Spec.HashAfter(p, n + 1) == Spec.Compress(Spec.HashAfter(p, n), Spec.Block(p, n))
  {
  }

  function WordsToBytes(ws: seq<Word>, n: nat): (bs: seq<Byte>)
    requires n <= |ws|
    ensures |bs| == 4 * n
  {
    if n == 0 then [] else WordsToBytes(ws, n - 1) + BigEndian(ws[n - 1])
  }

  lemma EightWords(ws: seq<Word>)
    requires |ws| == 8
    ensures WordsToBytes(ws, 8) == Spec.DigestBytes(HashOf(ws))
  {
    assert WordsToBytes(ws, 4) == BigEndian(ws[0]) + BigEndian(ws[1]) + BigEndian(ws[2]) + BigEndian(ws[3]) by {
      assert WordsToBytes(ws, 2) == BigEndian(ws[0]) + BigEndian(ws[1]);
    }
    assert WordsToBytes(ws, 6) == WordsToBytes(ws, 4) + BigEndian(ws[4]) + BigEndian(ws[5]);
  }

  method WriteDigest(h: array<Word>) returns (out: array<Byte>)
    requires h.Length == 8
    ensures fresh(out) && out[..] == Spec.DigestBytes(Current(h))
  {
    out := new Byte[32](i => 0);
    for i := 0 to 8
      invariant fresh(out) && out[..4 * i] == WordsToBytes(h[..], i)
    {
      SetUint32(out, i * 4, h[i]);
      assert out[..4 * (i + 1)] == out[..4 * i] + out[4 * i..4 * i + 4];
    }
    EightWords(h[..]);
    assert out[..] == out[..32];
  }

  lemma DigestOfBlocks(msg: seq<Byte>, blocks: nat)
    requires 8 * |msg| <= MAX_EXACT && |PadBytes(msg)| == 64 * blocks
    ensures Spec.DigestBytes(Spec.HashAfter(OfBytes(PadBytes(msg)), blocks)) == Spec.Sha256Bytes(msg)
  {
    PadBytesIsPad(msg);
    assert |Spec.Pad(OfBytes(msg))| == 512 * blocks;
    assert 512 * blocks / 512 == blocks;
  }

  // The values the loop has to reach, and the digest at the end of them.
  lemma Target(msg: seq<Byte>) returns (hs: seq<Spec.Vars>, ms: seq<seq<Word>>)
    requires 8 * |msg| <= MAX_EXACT
    ensures Chain(hs, ms) && WordsOf(PadBytes(msg), ms)
    ensures hs[0] == Spec.INITIAL && Spec.DigestBytes(hs[|ms|]) == Spec.Sha256Bytes(msg)
  {
    var blocks := |PadBytes(msg)| / 64;
    hs, ms := ChainOfBytes(PadBytes(msg), blocks);
    DigestOfBlocks(msg, blocks);
  }

  method InitialHash() returns (h: array<Word>)
    ensures fresh(h) && h.Length == 8 && Current(h) == Spec.INITIAL
  {
    h := new Word[8];
    h[0], h[1], h[2], h[3] := Spec.H0[0], Spec.H0[1], Spec.H0[2], Spec.H0[3];
    h[4], h[5], h[6], h[7] := Spec.H0[4], Spec.H0[5], Spec.H0[6], Spec.H0[7];
  }

  /** The program's hash is the standard's, for every message whose bit length is an exact double. */
  method Hash(msg: seq<Byte>) returns (out: array<Byte>)
    requires 8 * |msg| <= MAX_EXACT
    ensures fresh(out) && out[..] == Spec.Sha256Bytes(msg)
  {
    ghost var hs, ms := Target(msg);
    var h := InitialHash();
    var buf := PaddedBuffer(msg);
    AddBlocks(buf, h, hs, ms);
    out := WriteDigest(h);
  }

  // ── HMAC ────────────────────────────────────────────────────────────────────

  /** `k[i] ^ pad` as a Uint8Array keeps it. */
  function XorKept(x: Byte, pad: Byte): Byte {
    ToUint32(BitXor(x, pad)) % 0x100
  }

  // Two bytes have nothing to combine above the eighth bit.
  lemma XorLow(x: Byte, y: Byte)
    ensures Spec.Xor(x, y) == Spec.XorByte(x, y)
  {
    Pow2Values();
    var op := (a, b) => a != b;
    var z := Spec.Bitwise(op, x, y, 8);
    assert Spec.IsBitwise(op, x, y, z, 8);
    forall i | 0 <= i < 32 ensures BitAt(z, i) == op(BitAt(x, i), BitAt(y, i)) {
      if i >= 8 {
        HighBitsAreClear(x, 8, i); HighBitsAreClear(y, 8, i); HighBitsAreClear(z, 8, i);
      }
    }
    Spec.BitwiseUnique(op, x, y, z, Spec.Bitwise(op, x, y, 32), 32);
  }

  lemma XorKeptIsXor(x: Byte, pad: Byte)
    ensures XorKept(x, pad) == Spec.XorByte(x, pad)
  {
    XorSigned(x, pad);
    WordIsItself(x);
    WordIsItself(pad);
    XorLow(x, pad);
  }

  method XorKeyByte(x: Byte, pad: Byte, ghost k: seq<Byte>, ghost i: nat) returns (r: Byte)
    requires i < |k| && x == k[i]
    ensures r == Spec.XorAll(k, pad)[i]
  {
    XorKeptIsXor(x, pad);
    r := XorKept(x, pad);
  }

  method FillPads(k: array<Byte>, ipad: array<Byte>, opad: array<Byte>)
    requires k.Length == 64 && ipad.Length >= 64 && opad.Length >= 64
    requires k != ipad && k != opad && ipad != opad
    modifies ipad, opad
    ensures ipad[..64] == Spec.XorAll(k[..], 0x36)
    ensures opad[..64] == Spec.XorAll(k[..], 0x5C)
  {
    ghost var key := k[..];
    for i := 0 to 64
      invariant k[..] == key
      invariant ipad[..i] == Spec.XorAll(key, 0x36)[..i]
      invariant opad[..i] == Spec.XorAll(key, 0x5C)[..i]
    {
      var p := XorKeyByte(k[i], 0x36, key, i);
      var q := XorKeyByte(k[i], 0x5C, key, i);
      ipad[i] := p;
      opad[i] := q;
      assert ipad[..i + 1] == ipad[..i] + [p] && opad[..i + 1] == opad[..i] + [q];
    }
  }

  /** A key over one block is hashed; the block is filled up with zeros. */
  method KeyBlock(keyBytes: seq<Byte>) returns (k: array<Byte>)
    requires 8 * |keyBytes| <= MAX_EXACT
    ensures fresh(k) && k[..] == Spec.BlockKey(keyBytes)
  {
    var key := keyBytes;
    if |key| > Spec.BLOCK {
      var hashed := Hash(key);
      key := hashed[..];
    }
    k := new Byte[Spec.BLOCK](i => 0);
    forall i | 0 <= i < |key| { k[i] := key[i]; }
  }

  /** `a.set(s, at)`. */
  method SetAt(a: array<Byte>, at: nat, s: seq<Byte>)
    requires at + |s| == a.Length
    modifies a
    ensures a[..] == old(a[..at]) + s
  {
    forall i | 0 <= i < |s| { a[at + i] := s[i]; }
  }

  lemma HmacIs(key: seq<Byte>, text: seq<Byte>, k: seq<Byte>, inner: seq<Byte>, mac: seq<Byte>)
    requires k == Spec.BlockKey(key)
    requires inner == Spec.Sha256Bytes(Spec.XorAll(k, 0x36) + text)
    requires mac == Spec.Sha256Bytes(Spec.XorAll(k, 0x5C) + inner)
    ensures mac == Spec.Hmac(key, text)
  {
  }

  /** The program's HMAC is RFC 2104's over SHA-256. */
  method HmacSha256(keyBytes: seq<Byte>, msg: seq<Byte>) returns (mac: array<Byte>)
    requires 8 * |keyBytes| <= MAX_EXACT && 8 * (Spec.BLOCK + |msg|) <= MAX_EXACT
    ensures fresh(mac) && mac[..] == Spec.Hmac(keyBytes, msg)
  {
    var k := KeyBlock(keyBytes);
    var ipad := new Byte[Spec.BLOCK + |msg|](i => 0);
    var opad := new Byte[Spec.BLOCK + 32](i => 0);
    FillPads(k, ipad, opad);
    SetAt(ipad, Spec.BLOCK, msg);
    var inner := Hash(ipad[..]);
    SetAt(opad, Spec.BLOCK, inner[..]);
    mac := Hash(opad[..]);
    HmacIs(keyBytes, msg, Spec.BlockKey(keyBytes), inner[..], mac[..]);
  }
}
