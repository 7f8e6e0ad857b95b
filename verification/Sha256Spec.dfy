/** SHA-256 as FIPS 180-4 defines it, on bit strings, and HMAC as RFC 2104 defines it on top. */
module Sha256Spec {
  import opened Bits

  // ── Section 3.2: operations on 32-bit words ─────────────────────────────────

  /** `z` has `n` bits, each the combination of the bits of `x` and `y` at its place. */
  predicate IsBitwise(op: (bool, bool) -> bool, x: nat, y: nat, z: nat, n: nat) {
    z < Pow2(n) && forall i | 0 <= i < n :: BitAt(z, i) == op(BitAt(x, i), BitAt(y, i))
  }

  lemma {:induction false} BitwiseExists(op: (bool, bool) -> bool, x: nat, y: nat, n: nat) returns (z: nat)
    ensures IsBitwise(op, x, y, z, n)
  {
    if n == 0 {
      z := 0;
    } else {
      var half := BitwiseExists(op, x / 2, y / 2, n - 1);
      z := 2 * half + (if op(x % 2 == 1, y % 2 == 1) then 1 else 0);
      assert z / 2 == half;
      forall i | 0 <= i < n ensures BitAt(z, i) == op(BitAt(x, i), BitAt(y, i)) {
        if i > 0 {
          assert BitAt(half, i - 1) == op(BitAt(x / 2, i - 1), BitAt(y / 2, i - 1));
        }
      }
    }
  }

  lemma BitwiseUnique(op: (bool, bool) -> bool, x: nat, y: nat, z: nat, z': nat, n: nat)
    requires IsBitwise(op, x, y, z, n) && IsBitwise(op, x, y, z', n)
    ensures z == z'
  {
    SameBits(z, z', n);
  }

  function Bitwise(op: (bool, bool) -> bool, x: nat, y: nat, n: nat): nat {
    BitwiseDefined(op, x, y, n);
    var z: nat :| z < Pow2(n) && IsBitwise(op, x, y, z, n);
    z
  }

  lemma BitwiseDefined(op: (bool, bool) -> bool, x: nat, y: nat, n: nat)
    ensures exists z: nat :: z < Pow2(n) && IsBitwise(op, x, y, z, n)
    ensures forall z: nat, z': nat | IsBitwise(op, x, y, z, n) && IsBitwise(op, x, y, z', n) :: z == z'
  {
    var z := BitwiseExists(op, x, y, n);
    forall z: nat, z': nat | IsBitwise(op, x, y, z, n) && IsBitwise(op, x, y, z', n) ensures z == z' {
      BitwiseUnique(op, x, y, z, z', n);
    }
  }

  function Combine(op: (bool, bool) -> bool, x: Word, y: Word): Word {
    Pow2Values();
    Bitwise(op, x, y, 32)
  }

  function And(x: Word, y: Word): Word { Combine((a, b) => a && b, x, y) }
  function Or(x: Word, y: Word): Word { Combine((a, b) => a || b, x, y) }
  function Xor(x: Word, y: Word): Word { Combine((a, b) => a != b, x, y) }
  function Not(x: Word): Word { 0xFFFF_FFFF - x }

  function Add(x: Word, y: Word): Word { (x + y) % 0x1_0000_0000 }

  function Shr(x: Word, n: nat): Word {
    ShiftRightShrinks(x, n);
    ShiftRight(x, n)
  }

  function Shl(x: Word, n: nat): Word {
    (x * Pow2(n)) % 0x1_0000_0000
  }

  lemma {:induction false} ShiftRightShrinks(x: nat, n: nat)
    ensures ShiftRight(x, n) <= x
  {
    if n == 0 {
    } else {
      ShiftRightShrinks(x / 2, n - 1);
    }
  }

  function Rotr(x: Word, n: nat): Word
    requires 0 < n < 32
  {
    Or(Shr(x, n), Shl(x, 32 - n))
  }

  // ── Section 4.1.2: functions ────────────────────────────────────────────────

  function Ch(x: Word, y: Word, z: Word): Word { Xor(And(x, y), And(Not(x), z)) }
  function Maj(x: Word, y: Word, z: Word): Word { Xor(Xor(And(x, y), And(x, z)), And(y, z)) }
  function BigSigma0(x: Word): Word { Xor(Xor(Rotr(x, 2), Rotr(x, 13)), Rotr(x, 22)) }
  function BigSigma1(x: Word): Word { Xor(Xor(Rotr(x, 6), Rotr(x, 11)), Rotr(x, 25)) }
  function SmallSigma0(x: Word): Word { Xor(Xor(Rotr(x, 7), Rotr(x, 18)), Shr(x, 3)) }
  function SmallSigma1(x: Word): Word { Xor(Xor(Rotr(x, 17), Rotr(x, 19)), Shr(x, 10)) }

  // ── Sections 4.2.2 and 5.3.3: constants ─────────────────────────────────────

  // One row of eight words to a line, as printed.
  const K_ROWS: seq<seq<Word>> := [
    [0x428a2f98, 0x71374491, 0xb5c0fbcf, 0xe9b5dba5, 0x3956c25b, 0x59f111f1, 0x923f82a4, 0xab1c5ed5],
    [0xd807aa98, 0x12835b01, 0x243185be, 0x550c7dc3, 0x72be5d74, 0x80deb1fe, 0x9bdc06a7, 0xc19bf174],
    [0xe49b69c1, 0xefbe4786, 0x0fc19dc6, 0x240ca1cc, 0x2de92c6f, 0x4a7484aa, 0x5cb0a9dc, 0x76f988da],
    [0x983e5152, 0xa831c66d, 0xb00327c8, 0xbf597fc7, 0xc6e00bf3, 0xd5a79147, 0x06ca6351, 0x14292967],
    [0x27b70a85, 0x2e1b2138, 0x4d2c6dfc, 0x53380d13, 0x650a7354, 0x766a0abb, 0x81c2c92e, 0x92722c85],
    [0xa2bfe8a1, 0xa81a664b, 0xc24b8b70, 0xc76c51a3, 0xd192e819, 0xd6990624, 0xf40e3585, 0x106aa070],
    [0x19a4c116, 0x1e376c08, 0x2748774c, 0x34b0bcb5, 0x391c0cb3, 0x4ed8aa4a, 0x5b9cca4f, 0x682e6ff3],
    [0x748f82ee, 0x78a5636f, 0x84c87814, 0x8cc70208, 0x90befffa, 0xa4506ceb, 0xbef9a3f7, 0xc67178f2]]

  function K(t: nat): Word
    requires t < 64
  {
    K_ROWS[t / 8][t % 8]
  }

  const H0: seq<Word> := [
    0x6a09e667, 0xbb67ae85, 0x3c6ef372, 0xa54ff53a, 0x510e527f, 0x9b05688c, 0x1f83d9ab, 0x5be0cd19]

  // The first sixty-four primes.
  const PRIME_ROWS: seq<seq<nat>> := [
    [2, 3, 5, 7, 11, 13, 17, 19],
    [23, 29, 31, 37, 41, 43, 47, 53],
    [59, 61, 67, 71, 73, 79, 83, 89],
    [97, 101, 103, 107, 109, 113, 127, 131],
    [137, 139, 149, 151, 157, 163, 167, 173],
    [179, 181, 191, 193, 197, 199, 211, 223],
    [227, 229, 233, 239, 241, 251, 257, 263],
    [269, 271, 277, 281, 283, 293, 307, 311]]

  function Prime(t: nat): nat
    requires t < 64
  {
    PRIME_ROWS[t / 8][t % 8]
  }

  /** `x` is the cube root of `p`, shifted 32 bits to the left and cut to an integer. */
  predicate ScaledCubeRoot(p: nat, x: nat) {
    x * x * x <= p * 0x1_0000_0000_0000_0000_0000_0000 < (x + 1) * (x + 1) * (x + 1)
  }

  predicate ScaledSquareRoot(p: nat, x: nat) {
    x * x <= p * 0x1_0000_0000_0000_0000 < (x + 1) * (x + 1)
  }

  // Checked constant by constant, row by row.
  lemma RoundConstants0(t: nat) returns (x: nat)
    requires t / 8 == 0
    ensures ScaledCubeRoot(Prime(t), x) && K(t) == x % 0x1_0000_0000
  {
    match t % 8
    case 0 => x := 0x1_428a2f98;
    case 1 => x := 0x1_71374491;
    case 2 => x := 0x1_b5c0fbcf;
    case 3 => x := 0x1_e9b5dba5;
    case 4 => x := 0x2_3956c25b;
    case 5 => x := 0x2_59f111f1;
    case 6 => x := 0x2_923f82a4;
    case _ => x := 0x2_ab1c5ed5;
  }

  lemma RoundConstants1(t: nat) returns (x: nat)
    requires t / 8 == 1
    ensures ScaledCubeRoot(Prime(t), x) && K(t) == x % 0x1_0000_0000
  {
    match t % 8
    case 0 => x := 0x2_d807aa98;
    case 1 => x := 0x3_12835b01;
    case 2 => x := 0x3_243185be;
    case 3 => x := 0x3_550c7dc3;
    case 4 => x := 0x3_72be5d74;
    case 5 => x := 0x3_80deb1fe;
    case 6 => x := 0x3_9bdc06a7;
    case _ => x := 0x3_c19bf174;
  }

  lemma RoundConstants2(t: nat) returns (x: nat)
    requires t / 8 == 2
    ensures ScaledCubeRoot(Prime(t), x) && K(t) == x % 0x1_0000_0000
  {
    match t % 8
    case 0 => x := 0x3_e49b69c1;
    case 1 => x := 0x3_efbe4786;
    case 2 => x := 0x4_0fc19dc6;
    case 3 => x := 0x4_240ca1cc;
    case 4 => x := 0x4_2de92c6f;
    case 5 => x := 0x4_4a7484aa;
    case 6 => x := 0x4_5cb0a9dc;
    case _ => x := 0x4_76f988da;
  }

  lemma RoundConstants3(t: nat) returns (x: nat)
    requires t / 8 == 3
    ensures ScaledCubeRoot(Prime(t), x) && K(t) == x % 0x1_0000_0000
  {
    match t % 8
    case 0 => x := 0x4_983e5152;
    case 1 => x := 0x4_a831c66d;
    case 2 => x := 0x4_b00327c8;
    case 3 => x := 0x4_bf597fc7;
    case 4 => x := 0x4_c6e00bf3;
    case 5 => x := 0x4_d5a79147;
    case 6 => x := 0x5_06ca6351;
    case _ => x := 0x5_14292967;
  }

  lemma RoundConstants4(t: nat) returns (x: nat)
    requires t / 8 == 4
    ensures ScaledCubeRoot(Prime(t), x) && K(t) == x % 0x1_0000_0000
  {
    match t % 8
    case 0 => x := 0x5_27b70a85;
    case 1 => x := 0x5_2e1b2138;
    case 2 => x := 0x5_4d2c6dfc;
    case 3 => x := 0x5_53380d13;
    case 4 => x := 0x5_650a7354;
    case 5 => x := 0x5_766a0abb;
    case 6 => x := 0x5_81c2c92e;
    case _ => x := 0x5_92722c85;
  }

  lemma RoundConstants5(t: nat) returns (x: nat)
    requires t / 8 == 5
    ensures ScaledCubeRoot(Prime(t), x) && K(t) == x % 0x1_0000_0000
  {
    match t % 8
    case 0 => x := 0x5_a2bfe8a1;
    case 1 => x := 0x5_a81a664b;
    case 2 => x := 0x5_c24b8b70;
    case 3 => x := 0x5_c76c51a3;
    case 4 => x := 0x5_d192e819;
    case 5 => x := 0x5_d6990624;
    case 6 => x := 0x5_f40e3585;
    case _ => x := 0x6_106aa070;
  }

  lemma RoundConstants6(t: nat) returns (x: nat)
    requires t / 8 == 6
    ensures ScaledCubeRoot(Prime(t), x) && K(t) == x % 0x1_0000_0000
  {
    match t % 8
    case 0 => x := 0x6_19a4c116;
    case 1 => x := 0x6_1e376c08;
    case 2 => x := 0x6_2748774c;
    case 3 => x := 0x6_34b0bcb5;
    case 4 => x := 0x6_391c0cb3;
    case 5 => x := 0x6_4ed8aa4a;
    case 6 => x := 0x6_5b9cca4f;
    case _ => x := 0x6_682e6ff3;
  }

  lemma RoundConstants7(t: nat) returns (x: nat)
    requires t / 8 == 7
    ensures ScaledCubeRoot(Prime(t), x) && K(t) == x % 0x1_0000_0000
  {
    match t % 8
    case 0 => x := 0x6_748f82ee;
    case 1 => x := 0x6_78a5636f;
    case 2 => x := 0x6_84c87814;
    case 3 => x := 0x6_8cc70208;
    case 4 => x := 0x6_90befffa;
    case 5 => x := 0x6_a4506ceb;
    case 6 => x := 0x6_bef9a3f7;
    case _ => x := 0x6_c67178f2;
  }

  /** Section 4.2.2: the round constants are the first thirty-two bits of the fractional parts of
      the cube roots of the first sixty-four primes. */
  lemma RoundConstants(t: nat) returns (x: nat)
    requires t < 64
    ensures ScaledCubeRoot(Prime(t), x) && K(t) == x % 0x1_0000_0000
  {
    match t / 8
    case 0 => x := RoundConstants0(t);
    case 1 => x := RoundConstants1(t);
    case 2 => x := RoundConstants2(t);
    case 3 => x := RoundConstants3(t);
    case 4 => x := RoundConstants4(t);
    case 5 => x := RoundConstants5(t);
    case 6 => x := RoundConstants6(t);
    case _ => x := RoundConstants7(t);
  }

  /** Section 5.3.3: the initial hash value comes from the square roots of the first eight. */
  lemma InitialHash(i: nat) returns (x: nat)
    requires i < 8
    ensures ScaledSquareRoot(Prime(i), x) && H0[i] == x % 0x1_0000_0000
  {
    match i
    case 0 => x := 0x1_6a09e667;
    case 1 => x := 0x1_bb67ae85;
    case 2 => x := 0x2_3c6ef372;
    case 3 => x := 0x2_a54ff53a;
    case 4 => x := 0x3_510e527f;
    case 5 => x := 0x3_9b05688c;
    case 6 => x := 0x4_1f83d9ab;
    case _ => x := 0x4_5be0cd19;
  }

  // ── Sections 5.1.1 and 5.2.1: padding and parsing ───────────────────────────

  function ZeroCount(l: nat): nat {
    (448 + 512 - (l + 1) % 512) % 512
  }

  predicate SolvesPadding(l: nat, k: nat) {
    (l + 1 + k) % 512 == 448
  }

  /** It is the smallest non-negative solution of l + 1 + k = 448 modulo 512. */
  lemma ZeroCountIsLeast(l: nat)
    ensures SolvesPadding(l, ZeroCount(l))
    ensures forall k | 0 <= k < ZeroCount(l) :: !SolvesPadding(l, k)
  {
    var q, r := (l + 1) / 512, (l + 1) % 512;
    assert l + 1 == 512 * q + r;
    assert ZeroCount(l) == if r <= 448 then 448 - r else 960 - r;
  }

  lemma PaddedLength(l: nat)
    ensures (l + 1 + ZeroCount(l) + 64) % 512 == 0
  {
    ZeroCountIsLeast(l);
    var x := l + 1 + ZeroCount(l);
    assert x % 512 == 448 ==> (x + 64) % 512 == 0;
  }

  function Pad(m: seq<bool>): (p: seq<bool>)
    ensures |p| == |m| + 1 + ZeroCount(|m|) + 64
    ensures |p| % 512 == 0
  {
    PaddedLength(|m|);
    m + [true] + Zeros(ZeroCount(|m|)) + Of(|m|, 64)
  }

  lemma {:induction false} ValueBound(bits: seq<bool>)
    ensures Value(bits) < Pow2(|bits|)
  {
    if bits == [] {
    } else {
      ValueBound(bits[..|bits| - 1]);
    }
  }

  function WordAt(p: seq<bool>, n: nat): Word
    requires 32 * n + 32 <= |p|
  {
    Pow2Values();
    ValueBound(p[32 * n..32 * n + 32]);
    Value(p[32 * n..32 * n + 32])
  }

  function Block(p: seq<bool>, i: nat): (m: seq<Word>)
    requires 512 * i + 512 <= |p|
    ensures |m| == 16
  {
    seq<Word>(16, j requires 0 <= j < 16 => WordAt(p, 16 * i + j))
  }

  // ── Section 6.2.2: the hash computation ─────────────────────────────────────

  function Schedule(m: seq<Word>, t: nat): Word
    requires |m| == 16
  {
    if t < 16 then m[t]
    else Add(Add(Add(SmallSigma1(Schedule(m, t - 2)), Schedule(m, t - 7)), SmallSigma0(Schedule(m, t - 15))),
             Schedule(m, t - 16))
  }

  datatype Vars = Vars(a: Word, b: Word, c: Word, d: Word, e: Word, f: Word, g: Word, h: Word)

  function Round(v: Vars, k: Word, w: Word): Vars {
    var t1 := Add(Add(Add(Add(v.h, BigSigma1(v.e)), Ch(v.e, v.f, v.g)), k), w);
    var t2 := Add(BigSigma0(v.a), Maj(v.a, v.b, v.c));
    Vars(Add(t1, t2), v.a, v.b, v.c, Add(v.d, t1), v.e, v.f, v.g)
  }

  function Rounds(v: Vars, m: seq<Word>, t: nat): Vars
    requires |m| == 16 && t <= 64
  {
    if t == 0 then v else Round(Rounds(v, m, t - 1), K(t - 1), Schedule(m, t - 1))
  }

  function AddVars(r: Vars, v: Vars): Vars {
    Vars(Add(r.a, v.a), Add(r.b, v.b), Add(r.c, v.c), Add(r.d, v.d),
         Add(r.e, v.e), Add(r.f, v.f), Add(r.g, v.g), Add(r.h, v.h))
  }

  function Compress(v: Vars, m: seq<Word>): Vars
    requires |m| == 16
  {
    AddVars(Rounds(v, m, 64), v)
  }

  const INITIAL := Vars(H0[0], H0[1], H0[2], H0[3], H0[4], H0[5], H0[6], H0[7])

  /** The hash value after the first `n` blocks. */
  function HashAfter(p: seq<bool>, n: nat): Vars
    requires 512 * n <= |p|
  {
    if n == 0 then INITIAL else Compress(HashAfter(p, n - 1), Block(p, n - 1))
  }

  function DigestBits(v: Vars): seq<bool> {
    Of(v.a, 32) + Of(v.b, 32) + Of(v.c, 32) + Of(v.d, 32) + Of(v.e, 32) + Of(v.f, 32) + Of(v.g, 32) + Of(v.h, 32)
  }

  function Sha256(m: seq<bool>): seq<bool> {
    DigestBits(HashAfter(Pad(m), |Pad(m)| / 512))
  }

  /** The same on bytes, which is what everybody passes around. */
  function DigestBytes(v: Vars): (bs: seq<Byte>)
    ensures |bs| == 32
  {
    BigEndian(v.a) + BigEndian(v.b) + BigEndian(v.c) + BigEndian(v.d)
    + BigEndian(v.e) + BigEndian(v.f) + BigEndian(v.g) + BigEndian(v.h)
  }

  function Sha256Bytes(m: seq<Byte>): (bs: seq<Byte>)
    ensures |bs| == 32
  {
    DigestBytes(HashAfter(Pad(OfBytes(m)), |Pad(OfBytes(m))| / 512))
  }

  lemma Sha256OnBytes(m: seq<Byte>)
    ensures OfBytes(Sha256Bytes(m)) == Sha256(OfBytes(m))
  {
    DigestBytesAreBits(HashAfter(Pad(OfBytes(m)), |Pad(OfBytes(m))| / 512));
  }

  lemma DigestBytesAreBits(v: Vars)
    ensures OfBytes(DigestBytes(v)) == DigestBits(v)
  {
    var a, b, c, d := BigEndian(v.a), BigEndian(v.b), BigEndian(v.c), BigEndian(v.d);
    var e, f, g, h := BigEndian(v.e), BigEndian(v.f), BigEndian(v.g), BigEndian(v.h);
    BigEndianBits(v.a); BigEndianBits(v.b); BigEndianBits(v.c); BigEndianBits(v.d);
    BigEndianBits(v.e); BigEndianBits(v.f); BigEndianBits(v.g); BigEndianBits(v.h);
    OfBytesConcat(a, b);
    OfBytesConcat(a + b, c);
    OfBytesConcat(a + b + c, d);
    OfBytesConcat(a + b + c + d, e);
    OfBytesConcat(a + b + c + d + e, f);
    OfBytesConcat(a + b + c + d + e + f, g);
    OfBytesConcat(a + b + c + d + e + f + g, h);
  }

  // ── RFC 2104, section 2 ─────────────────────────────────────────────────────

  function XorByte(x: Byte, y: Byte): Byte {
    Pow2Values();
    Bitwise((a, b) => a != b, x, y, 8)
  }

  function XorAll(bs: seq<Byte>, pad: Byte): (r: seq<Byte>)
    ensures |r| == |bs|
  {
    seq<Byte>(|bs|, i requires 0 <= i < |bs| => XorByte(bs[i], pad))
  }

  function ZeroBytes(n: nat): (bs: seq<Byte>)
    ensures |bs| == n
  {
    seq<Byte>(n, i => 0)
  }

  const BLOCK := 64

  /** Keys longer than a block are hashed first; all are filled up with zeros. */
  function BlockKey(key: seq<Byte>): (k: seq<Byte>)
    ensures |k| == BLOCK
  {
    var k := if |key| > BLOCK then Sha256Bytes(key) else key;
    k + ZeroBytes(BLOCK - |k|)
  }

  function Hmac(key: seq<Byte>, text: seq<Byte>): (mac: seq<Byte>)
    ensures |mac| == 32
  {
    Sha256Bytes(XorAll(BlockKey(key), 0x5C) + Sha256Bytes(XorAll(BlockKey(key), 0x36) + text))
  }
}
