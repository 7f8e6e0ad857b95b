/** Bit strings and the numbers they stand for, most significant bit first. */
module Bits {

  type Byte = x: int | 0 <= x < 0x100
  type Word = x: int | 0 <= x < 0x1_0000_0000

  function Pow2(n: nat): (p: nat)
    ensures p > 0
  {
    if n == 0 then 1 else 2 * Pow2(n - 1)
  }

  /** The low `n` bits of `x`. */
  function Of(x: nat, n: nat): (bits: seq<bool>)
    ensures |bits| == n
  {
    if n == 0 then [] else Of(x / 2, n - 1) + [x % 2 == 1]
  }

  predicate BitAt(x: nat, i: nat) {
    if i == 0 then x % 2 == 1 else BitAt(x / 2, i - 1)
  }

  function Value(bits: seq<bool>): nat {
    if bits == [] then 0
    else 2 * Value(bits[..|bits| - 1]) + (if bits[|bits| - 1] then 1 else 0)
  }

  function OfBytes(bs: seq<Byte>): (bits: seq<bool>)
    ensures |bits| == 8 * |bs|
  {
    if bs == [] then [] else Of(bs[0], 8) + OfBytes(bs[1..])
  }

  function Zeros(n: nat): seq<bool> {
    seq(n, i => false)
  }

  // ── Laws ────────────────────────────────────────────────────────────────────

  lemma Pow2Values()
    ensures Pow2(8) == 0x100 && Pow2(16) == 0x1_0000 && Pow2(24) == 0x100_0000 && Pow2(32) == 0x1_0000_0000
  {
    assert Pow2(4) == 16;
    assert Pow2(8) == 0x100;
    assert Pow2(12) == 0x1000;
    assert Pow2(16) == 0x1_0000;
    assert Pow2(20) == 0x10_0000;
    assert Pow2(24) == 0x100_0000;
    assert Pow2(28) == 0x1000_0000;
  }

  lemma {:induction false} SameBits(x: nat, y: nat, n: nat)
    requires x < Pow2(n) && y < Pow2(n)
    requires forall i | 0 <= i < n :: BitAt(x, i) == BitAt(y, i)
    ensures x == y
  {
    if n == 0 {
    } else {
      assert BitAt(x, 0) == BitAt(y, 0);
      forall i | 0 <= i < n - 1 ensures BitAt(x / 2, i) == BitAt(y / 2, i) {
        assert BitAt(x, i + 1) == BitAt(y, i + 1);
      }
      SameBits(x / 2, y / 2, n - 1);
    }
  }

  lemma {:induction false} HighBitsAreClear(x: nat, n: nat, i: nat)
    requires x < Pow2(n) && i >= n
    ensures !BitAt(x, i)
  {
    if i == 0 {
    } else {
      if n == 0 {
        HighBitsAreClear(0, 0, i - 1);
      } else {
        HighBitsAreClear(x / 2, n - 1, i - 1);
      }
    }
  }

  lemma {:induction false} ValueOf(x: nat, n: nat)
    requires x < Pow2(n)
    ensures Value(Of(x, n)) == x
  {
    if n == 0 {
    } else {
      ValueOf(x / 2, n - 1);
      assert Of(x, n)[..n - 1] == Of(x / 2, n - 1);
    }
  }

  lemma {:induction false} ValueConcat(a: seq<bool>, b: seq<bool>)
    ensures Value(a + b) == Value(a) * Pow2(|b|) + Value(b)
  {
    if b == [] {
      assert a + b == a;
    } else {
      var b' := b[..|b| - 1];
      assert (a + b)[..|a + b| - 1] == a + b';
      ValueConcat(a, b');
      assert Pow2(|b|) == 2 * Pow2(|b'|);
      Double(Value(a), Pow2(|b'|));
    }
  }

  lemma Double(x: nat, y: nat)
    ensures 2 * (x * y) == x * (2 * y)
  {
    assert x * (2 * y) == (x * 2) * y;
  }

  function ShiftRight(x: nat, n: nat): nat {
    if n == 0 then x else ShiftRight(x / 2, n - 1)
  }

  lemma {:induction false} OfSplit(x: nat, m: nat, n: nat)
    ensures Of(x, m + n) == Of(ShiftRight(x, n), m) + Of(x, n)
  {
    if n > 0 {
      OfSplit(x / 2, m, n - 1);
      assert m + n - 1 == m + (n - 1);
    } else {
      assert Of(x, 0) == [];
    }
  }

  /** Only the low bits matter. */
  lemma {:induction false} OfAdd(x: nat, k: nat, n: nat)
    ensures Of(x + Pow2(n) * k, n) == Of(x, n)
  {
    if n == 0 {
    } else {
      var p := Pow2(n - 1);
      assert Pow2(n) * k == 2 * (p * k);
      var y := x + 2 * (p * k);
      assert y / 2 == x / 2 + p * k && y % 2 == x % 2;
      OfAdd(x / 2, k, n - 1);
    }
  }

  lemma OfLowByte(x: nat)
    ensures Of(x, 8) == Of(x % 0x100, 8)
  {
    Pow2Values();
    OfAdd(x % 0x100, x / 0x100, 8);
  }

  lemma ShiftByte(x: nat)
    ensures ShiftRight(x, 8) == x / 0x100
  {
    assert ShiftRight(x, 8) == ShiftRight(x / 4, 6);
    assert ShiftRight(x / 4, 6) == ShiftRight(x / 0x10, 4);
    assert ShiftRight(x / 0x10, 4) == ShiftRight(x / 0x40, 2);
    assert ShiftRight(x / 0x40, 2) == ShiftRight(x / 0x80, 1) == ShiftRight(x / 0x100, 0);
  }

  lemma {:induction false} OfBytesConcat(a: seq<Byte>, b: seq<Byte>)
    ensures OfBytes(a + b) == OfBytes(a) + OfBytes(b)
  {
    if a == [] {
      assert a + b == b;
    } else {
      assert (a + b)[0] == a[0] && (a + b)[1..] == a[1..] + b;
      OfBytesConcat(a[1..], b);
    }
  }

  lemma OfByte(b: Byte)
    ensures OfBytes([b]) == Of(b, 8)
  {
    assert [b][1..] == [];
  }

  /** Four bytes, most significant first. */
  function BigEndian(w: Word): (bs: seq<Byte>)
    ensures |bs| == 4
  {
    var a: nat := w / 0x100;
    var b: nat := a / 0x100;
    [b / 0x100, b % 0x100, a % 0x100, w % 0x100]
  }

  function FromBigEndian(bs: seq<Byte>): Word
    requires |bs| == 4
  {
    var a: int, b: int, c: int, d: int := bs[0], bs[1], bs[2], bs[3];
    0x100 * (0x100 * (0x100 * a + b) + c) + d
  }

  /** Four bytes read as one number are the value of their 32 bits. */
  lemma FromBigEndianIsValue(bs: seq<Byte>)
    requires |bs| == 4
    ensures Value(OfBytes(bs)) == FromBigEndian(bs)
  {
    Pow2Values();
    BytesInLine(bs[0], bs[1], bs[2], bs[3]);
    assert bs == [bs[0], bs[1], bs[2], bs[3]];
    ValueOf(bs[0], 8); ValueOf(bs[1], 8); ValueOf(bs[2], 8); ValueOf(bs[3], 8);
    ValueConcat(Of(bs[0], 8), Of(bs[1], 8));
    ValueConcat(Of(bs[0], 8) + Of(bs[1], 8), Of(bs[2], 8));
    ValueConcat(Of(bs[0], 8) + Of(bs[1], 8) + Of(bs[2], 8), Of(bs[3], 8));
  }

  /** The four bytes of a word are its 32 bits. */
  lemma BigEndianBits(w: Word)
    ensures OfBytes(BigEndian(w)) == Of(w, 32)
  {
    var a: nat := w / 0x100;
    var b: nat := a / 0x100;
    ShiftByte(w); ShiftByte(a); ShiftByte(b);
    OfSplit(w, 24, 8);
    OfSplit(a, 16, 8);
    OfSplit(b, 8, 8);
    OfLowByte(w); OfLowByte(a); OfLowByte(b);
    BytesInLine(b / 0x100, b % 0x100, a % 0x100, w % 0x100);
  }

  lemma BytesInLine(p: Byte, q: Byte, r: Byte, s: Byte)
    ensures OfBytes([p, q, r, s]) == Of(p, 8) + Of(q, 8) + Of(r, 8) + Of(s, 8)
  {
    OfByte(p); OfByte(q); OfByte(r); OfByte(s);
    OfBytesConcat([p], [q]);
    OfBytesConcat([p, q], [r]);
    OfBytesConcat([p, q, r], [s]);
    assert [p] + [q] == [p, q] && [p, q] + [r] == [p, q, r] && [p, q, r] + [s] == [p, q, r, s];
  }
}
