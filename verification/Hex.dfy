/** Hexadecimal digits of either case. */
module Hex {
  import opened Options

  function HexValue(c: char): (r: Option<nat>)
    ensures r.Some? ==> r.value < 16
  {
    if '0' <= c <= '9' then Some(c as int - '0' as int)
    else if 'a' <= c <= 'f' then Some(c as int - 'a' as int + 10)
    else if 'A' <= c <= 'F' then Some(c as int - 'A' as int + 10)
    else None
  }

  function LowerHex(n: nat): (c: char)
    requires n < 16
    ensures HexValue(c) == Some(n)
  {
    if n < 10 then ('0' as int + n) as char else ('a' as int + (n - 10)) as char
  }

  function UpperHex(n: nat): (c: char)
    requires n < 16
    ensures HexValue(c) == Some(n)
  {
    if n < 10 then ('0' as int + n) as char else ('A' as int + (n - 10)) as char
  }

  predicate IsLower(c: char) {
    '0' <= c <= '9' || 'a' <= c <= 'f'
  }

  predicate IsUpper(c: char) {
    '0' <= c <= '9' || 'A' <= c <= 'F'
  }

  /** What counts as a digit, and for what. */
  lemma HexDigits(c: char, v: nat)
    requires v < 16
    ensures HexValue(c).Some? <==> IsLower(c) || IsUpper(c)
    ensures HexValue(c) == Some(v) <==> c == "0123456789abcdef"[v] || c == "0123456789ABCDEF"[v]
  {
  }

  /** Each printer keeps to one case, and in one case there is one digit for a value. */
  lemma OneDigitEach(n: nat, c: char)
    requires n < 16 && HexValue(c) == Some(n)
    ensures IsLower(LowerHex(n)) && IsUpper(UpperHex(n))
    ensures IsLower(c) ==> c == LowerHex(n)
    ensures IsUpper(c) ==> c == UpperHex(n)
  {
  }
}
