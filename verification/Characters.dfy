/** The character classes and conversions of the C library, against the characters written out. */
module Characters {
  import opened Strings

  const DIGITS := "0123456789"
  const UPPER := "ABCDEFGHIJKLMNOPQRSTUVWXYZ"
  const LOWER := "abcdefghijklmnopqrstuvwxyz"
  const HEX_UPPER := "0123456789ABCDEF"
  const HEX_LOWER := "0123456789abcdef"

  /** The hexadecimal digit, of either case, with the value v. */
  predicate IsHexDigit(c: char, v: int) {
    0 <= v < 16 && (c == HEX_UPPER[v] || c == HEX_LOWER[v])
  }

  lemma HexDigitsAre(c: char, v: int)
    ensures IsHexDigit(c, v) <==> HexValue(c) == Some(v)
  {
    if HexValue(c) == Some(v) {
      assert HEX_UPPER[v] == c || HEX_LOWER[v] == c;
    }
  }

  lemma BlanksAre(c: char)
    ensures IsSpace(c) <==> c == ' ' || c == '\t' || c == '\n' || c == '\U{0B}' || c == '\U{0C}' || c == '\r'
  {}

  lemma DigitsAre(c: char)
    ensures IsDigit(c) <==> c in DIGITS
  {
    if IsDigit(c) {
      assert DIGITS[c as int - '0' as int] == c;
    }
  }

  lemma UpperAt(i: nat)
    requires i < 26
    ensures UPPER[i] as int == 'A' as int + i
  {}

  lemma LowerAt(i: nat)
    requires i < 26
    ensures LOWER[i] as int == 'a' as int + i
  {}

  lemma LettersAre(c: char)
    ensures 'A' <= c <= 'Z' <==> c in UPPER
    ensures 'a' <= c <= 'z' <==> c in LOWER
  {
    hide UPPER, LOWER;
    Lengths();
    forall i | 0 <= i < 26
      ensures UPPER[i] as int == 'A' as int + i && LOWER[i] as int == 'a' as int + i
    {
      UpperAt(i);
      LowerAt(i);
    }
    if 'A' <= c <= 'Z' {
      assert UPPER[c as int - 'A' as int] == c;
    }
    if 'a' <= c <= 'z' {
      assert LOWER[c as int - 'a' as int] == c;
    }
  }

  lemma Lengths()
    ensures |UPPER| == |LOWER| == 26
  {}

  lemma AlnumsAre(c: char)
    ensures IsAlnum(c) <==> c in DIGITS || c in UPPER || c in LOWER
  {
    hide IsDigit, UPPER, LOWER, DIGITS;
    DigitsAre(c);
    LettersAre(c);
  }

  /** The upper-case letters become the lower-case ones at the same places, and nothing else changes. */
  lemma LowersAre(c: char)
    ensures forall i :: 0 <= i < 26 && c == UPPER[i] ==> LowerChar(c) == LOWER[i]
    ensures c !in UPPER ==> LowerChar(c) == c
  {
    hide UPPER, LOWER;
    Lengths();
    LettersAre(c);
    forall i | 0 <= i < 26 && c == UPPER[i]
      ensures LowerChar(c) == LOWER[i]
    {
      UpperAt(i);
      LowerAt(i);
    }
  }
}
