/** Hexadecimal digits, as object ids and pkt-line lengths print and read them. */
module Hex {
  import opened Wrappers

  /** The lower-case digit of a value. */
  function HexDigit(d: nat): char
    requires d < 16
  {
    if d < 10 then ('0' as int + d) as char else ('a' as int + d - 10) as char
  }

  /** The value of a digit of either case. */
  function HexValue(c: char): (v: Option<nat>)
    ensures v.Some? ==> v.value < 16
  {
    if '0' <= c <= '9' then Some(c as int - '0' as int)
    else if 'a' <= c <= 'f' then Some(c as int - 'a' as int + 10)
    else if 'A' <= c <= 'F' then Some(c as int - 'A' as int + 10)
    else None
  }

  lemma HexDigitValue(d: nat)
    requires d < 16
    ensures HexValue(HexDigit(d)) == Some(d)
  {
  }

  /** The digits in order, in both cases. */
  lemma HexValueIff(c: char, v: nat)
    requires v < 16
    ensures HexValue(c) == Some(v) <==> c == "0123456789abcdef"[v] || c == "0123456789ABCDEF"[v]
    ensures HexDigit(v) == "0123456789abcdef"[v]
  {
  }

  lemma LowerHexIff(c: char)
    ensures LowerHex(c) <==> exists v :: 0 <= v < 16 && c == "0123456789abcdef"[v]
  {
    if LowerHex(c) {
      LowerHexRoundTrip(c);
      var v := HexValue(c).value;
      HexValueIff(HexDigit(v), v);
      assert c == "0123456789abcdef"[v];
    }
    if v :| 0 <= v < 16 && c == "0123456789abcdef"[v] {
      HexValueIff(c, v);
    }
  }

  predicate LowerHex(c: char) {
    '0' <= c <= '9' || 'a' <= c <= 'f'
  }

  lemma LowerHexRoundTrip(c: char)
    requires LowerHex(c)
    ensures HexValue(c).Some? && HexDigit(HexValue(c).value) == c
  {
  }
}
