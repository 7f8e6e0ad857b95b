/** JavaScript numbers as the hash code uses them: integers that a double holds exactly, with the
    bitwise operators that go through signed 32-bit integers (sections 7.1.6, 7.1.7 and 13.9 to
    13.12 of ECMA-262). */
module JsNumber {
  import opened Bits
  import Spec = Sha256Spec

  const TWO32 := 0x1_0000_0000

  /** Integers up to this magnitude are doubles. */
  const MAX_EXACT := 0x20_0000_0000_0000

  predicate Exact(x: int) {
    -MAX_EXACT <= x <= MAX_EXACT
  }

  /** What `x >>> 0` gives, and what a Uint32Array keeps. */
  function ToUint32(x: int): Word {
    x % TWO32
  }

  function ToInt32(x: int): int {
    if ToUint32(x) >= 0x8000_0000 then ToUint32(x) - TWO32 else ToUint32(x)
  }

  /** A sum is only meaningful here if it is not rounded. */
  function Plus(x: int, y: int): int
    requires Exact(x + y)
  {
    x + y
  }

  function BitAnd(x: int, y: int): int { ToInt32(Spec.And(ToUint32(x), ToUint32(y))) }
  function BitOr(x: int, y: int): int { ToInt32(Spec.Or(ToUint32(x), ToUint32(y))) }
  function BitXor(x: int, y: int): int { ToInt32(Spec.Xor(ToUint32(x), ToUint32(y))) }
  function BitNot(x: int): int { ToInt32(-x - 1) }
  function ShiftLeft(x: int, n: nat): int { ToInt32(ToUint32(x) * Pow2(n)) }
  function ShiftRightZero(x: int, n: nat): int { Spec.Shr(ToUint32(x), n) }

  /** `(x >>> n) | (x << (32 - n))`. */
  function Rotr(x: int, n: nat): int
    requires 0 < n < 32
  {
    BitOr(ShiftRightZero(x, n), ShiftLeft(x, 32 - n))
  }

  /** The results of the bitwise operators, signed as they are. */
  predicate IsInt32(x: int) {
    -0x8000_0000 <= x < 0x8000_0000
  }

  lemma SignedAndBack(x: int)
    ensures ToUint32(ToInt32(x)) == ToUint32(x) && IsInt32(ToInt32(x))
  {
  }

  lemma WordIsItself(x: Word)
    ensures ToUint32(x) == x
  {
  }

  lemma ShiftRightWord(x: Word, n: nat)
    ensures ToUint32(ShiftRightZero(x, n)) == Spec.Shr(x, n)
  {
    WordIsItself(x);
    WordIsItself(Spec.Shr(x, n));
  }

  lemma ShiftLeftWord(x: Word, n: nat)
    ensures ToUint32(ShiftLeft(x, n)) == Spec.Shl(x, n)
  {
    WordIsItself(x);
    SignedAndBack(x * Pow2(n));
  }

  lemma RotrWord(x: Word, n: nat)
    requires 0 < n < 32
    ensures ToUint32(Rotr(x, n)) == Spec.Rotr(x, n) && IsInt32(Rotr(x, n))
  {
    ShiftRightWord(x, n);
    ShiftLeftWord(x, 32 - n);
    OrSigned(ShiftRightZero(x, n), ShiftLeft(x, 32 - n));
  }

  lemma NotWord(x: Word)
    ensures ToUint32(BitNot(x)) == Spec.Not(x)
  {
    var y: int := x;
    SignedAndBack(-y - 1);
  }

  lemma OrSigned(x: int, y: int)
    ensures ToUint32(BitOr(x, y)) == Spec.Or(ToUint32(x), ToUint32(y)) && IsInt32(BitOr(x, y))
  {
    SignedAndBack(Spec.Or(ToUint32(x), ToUint32(y)));
  }

  lemma XorSigned(x: int, y: int)
    ensures ToUint32(BitXor(x, y)) == Spec.Xor(ToUint32(x), ToUint32(y)) && IsInt32(BitXor(x, y))
  {
    SignedAndBack(Spec.Xor(ToUint32(x), ToUint32(y)));
  }

  lemma AndSigned(x: int, y: int)
    ensures ToUint32(BitAnd(x, y)) == Spec.And(ToUint32(x), ToUint32(y)) && IsInt32(BitAnd(x, y))
  {
    SignedAndBack(Spec.And(ToUint32(x), ToUint32(y)));
  }

  // ── Modular sums: cut once at the end, or after every addition ──────────────

  lemma SumCut(x: int, y: int)
    ensures ToUint32(x + y) == Spec.Add(ToUint32(x), ToUint32(y))
  {
    var m := TWO32;
    var p, q := x / m, y / m;
    var r, s := x % m, y % m;
    assert x + y == m * (p + q) + (r + s);
    MultipleVanishes(p + q, r + s);
  }

  lemma MultipleVanishes(k: int, z: int)
    ensures (TWO32 * k + z) % TWO32 == z % TWO32
  {
  }
}
