/** What number a Content-Length field stands for, and when it is the one that is announced. */
module ContentLengthReading {
  import opened Strings
  import opened RequestSyntax
  import opened RequestReading

  predicate Digits(s: string) {
    forall c | c in s :: IsDigit(c)
  }

  function DigitValue(c: char): nat
    requires IsDigit(c)
  {
    c as int - '0' as int
  }

  /** The number that digits denote, by their places. */
  function Numeral(s: string): nat
    requires Digits(s)
  {
    if s == [] then 0
    else
      assert s[|s| - 1] in s;
      10 * Numeral(s[..|s| - 1]) + DigitValue(s[|s| - 1])
  }

  predicate HasSign(t: string) {
    t != [] && (t[0] == '-' || t[0] == '+')
  }

  /** What follows the blanks and the sign. */
  function Unsigned(text: string): string {
    var t := TrimLeft(text);
    if HasSign(t) then t[1..] else t
  }

  function Signed(text: string, n: nat): int {
    var t := TrimLeft(text);
    if t != [] && t[0] == '-' then -(n as int) else n
  }

  /** How many digits stand at the front. */
  function DigitRun(s: string): (n: nat)
    ensures n <= |s| && Digits(s[..n]) && (n < |s| ==> !IsDigit(s[n]))
  {
    if s == [] || !IsDigit(s[0]) then 0
    else
      var n := 1 + DigitRun(s[1..]);
      assert s[..n] == [s[0]] + s[1..][..n - 1];
      n
  }

  /** The text announces the number v: after blanks and a sign, if any, there are digits and nothing
      but digits. */
  predicate Announces(text: string, v: int) {
    var u := Unsigned(text);
    u != [] && Digits(u) && v == Signed(text, Numeral(u))
  }

  // ----- reading

  lemma {:induction false} LeadingDigitsAre(before: string, s: string)
    requires Digits(before)
    ensures Digits(before + s[..DigitRun(s)])
    ensures LeadingDigits(s, Numeral(before)) == Numeral(before + s[..DigitRun(s)])
    decreases |s|
  {
    var n := DigitRun(s);
    if n == 0 {
      assert before + s[..0] == before;
    } else {
      var next := before + [s[0]];
      assert next[..|next| - 1] == before;
      LeadingDigitsAre(next, s[1..]);
      assert next + s[1..][..n - 1] == before + s[..n];
    }
  }

  lemma LeadingDigitsFromZero(u: string)
    ensures LeadingDigits(u, 0) == Numeral(u[..DigitRun(u)])
  {
    hide LeadingDigits, DigitRun;
    LeadingDigitsAre([], u);
    assert [] + u[..DigitRun(u)] == u[..DigitRun(u)];
    assert Numeral([]) == 0;
  }

  /** atoll gives the signed number of the leading digits, or the long long nearest to it, whatever
      follows them. */
  lemma AtollReads(text: string)
    ensures var u := Unsigned(text); Atoll(text) == Clamp(Signed(text, Numeral(u[..DigitRun(u)])))
  {
    hide TrimLeft, LeadingDigits, DigitRun, Numeral, Digits;
    LeadingDigitsFromZero(Unsigned(text));
  }

  lemma {:induction false} OnlyDigits(u: string)
    requires Digits(u)
    ensures DigitRun(u) == |u| && u[..|u|] == u
  {
    if u != [] {
      assert u[0] in u;
      OnlyDigits(u[1..]);
    }
  }

  // ----- the length of a body

  /** A number that is announced is the one read exactly when it is neither negative nor too large
      for a long long. */
  lemma AnnouncedIsReadExactly(h: Header, v: int)
    requires "Content-Length" in h.fields && Announces(h.fields["Content-Length"], v)
    ensures ContentLength(h) == Some(v) <==> 0 <= v < 0x8000_0000_0000_0000
    ensures ContentLength(h) == Some(Clamp(v) % TWO_TO_64)
  {
    hide Atoll, Unsigned, Signed, DigitRun, Clamp;
    var text := h.fields["Content-Length"];
    AtollReads(text);
    OnlyDigits(Unsigned(text));
    assert Atoll(text) == Clamp(v);
    ClampedWord(v);
  }

  lemma ClampedWord(v: int)
    ensures Clamp(v) % TWO_TO_64 == v <==> 0 <= v < TWO_TO_63
  {
    assert Clamp(v) < 0 ==> Clamp(v) % TWO_TO_64 == Clamp(v) + TWO_TO_64;
  }

  /** For every text of the field, a number or not: what is read is the number of the leading digits
      with its sign, or the long long nearest to it, as an unsigned word. It is 0 when no digit leads.
      No text raises an error. */
  lemma LengthIsLeadingNumber(h: Header)
    requires "Content-Length" in h.fields
    ensures var text := h.fields["Content-Length"];
            var u := Unsigned(text);
            && ContentLength(h) == Some(Clamp(Signed(text, Numeral(u[..DigitRun(u)]))) % TWO_TO_64)
            && (u == [] || !IsDigit(u[0]) ==> ContentLength(h) == Some(0))
            && ((exists v :: Announces(text, v)) <==> u != [] && DigitRun(u) == |u|)
  {
    hide Atoll, Unsigned, Signed, Clamp;
    var text := h.fields["Content-Length"];
    AtollReads(text);
    var u := Unsigned(text);
    if u == [] || !IsDigit(u[0]) {
      assert u[..0] == [];
      assert Signed(text, 0) == 0 by { NothingSigned(text); }
      assert Clamp(0) == 0;
    }
    assert u[..|u|] == u;
    if u != [] && DigitRun(u) == |u| {
      assert Announces(text, Signed(text, Numeral(u)));
    }
    if Digits(u) {
      OnlyDigits(u);
    }
  }

  lemma NothingSigned(text: string)
    ensures Signed(text, 0) == 0
  {}

  // ----- texts that are no length

  /** The text begins with no digit, or it announces a negative number. */
  ghost predicate IsNoLength(text: string) {
    || Unsigned(text) == [] || !IsDigit(Unsigned(text)[0])
    || exists v :: v < 0 && Announces(text, v)
  }

  lemma NoLengthIsNotPositive(h: Header)
    requires "Content-Length" in h.fields && IsNoLength(h.fields["Content-Length"])
    ensures ToSigned(ContentLength(h).value) <= 0
  {
    hide Announces, Unsigned, Signed, ContentLength, DigitRun, Clamp, Numeral;
    var text := h.fields["Content-Length"];
    LengthIsLeadingNumber(h);
    if v: int :| v < 0 && Announces(text, v) {
      AnnouncedIsReadExactly(h, v);
      NegativeWord(v);
    }
  }

  lemma NegativeWord(v: int)
    requires v < 0
    ensures ToSigned(Clamp(v) % TWO_TO_64) < 0
  {
    assert Clamp(v) % TWO_TO_64 == Clamp(v) + TWO_TO_64;
  }

  /** Without a limit and with nothing behind the head, a text that begins with no digit and any
      number that is announced as negative read nothing: the first one is taken as 0, and the signed
      cast of the handlers makes the second one negative again. */
  lemma NoLengthReadsNothing(r: Reader)
    requires r.pending == r.fulfilled == 0 && r.parser.buffer == []
    requires "Content-Length" in r.parser.header.fields && IsNoLength(r.parser.header.fields["Content-Length"])
    ensures StartBody(r, 0) == r.(phase := BodyPhase, maxRead := 0, written := 0, fulfilled := 1)
  {
    hide IsNoLength, ContentLength;
    NoLengthIsNotPositive(r.parser.header);
  }

  lemma TextIsSplit(text: string)
    requires text != [] && !IsSpace(text[0])
    ensures Unsigned(text) == if HasSign(text) then text[1..] else text
    ensures forall n :: Signed(text, n) == if text[0] == '-' then -(n as int) else n
  {
    assert TrimLeft(text) == text;
  }

  lemma OneDigit(c: char, rest: string)
    requires IsDigit(c) && (rest != [] ==> !IsDigit(rest[0]))
    ensures DigitRun([c] + rest) == 1 && ([c] + rest)[..1] == [c]
    ensures Digits([c]) && Numeral([c]) == DigitValue(c)
  {
    assert ([c] + rest)[1..] == rest;
    assert [c][..0] == [];
  }

  /** Texts that are no length of a body, and what is read of them. */
  lemma NotALength(h: Header)
    requires "Content-Length" in h.fields
    ensures h.fields["Content-Length"] == "abc" ==> ContentLength(h) == Some(0)
    ensures h.fields["Content-Length"] == "-1" ==> ContentLength(h) == Some(0xffff_ffff_ffff_ffff)
    ensures h.fields["Content-Length"] == "1a" ==> ContentLength(h) == Some(1)
  {
    hide ContentLength, Unsigned, Signed, DigitRun, Numeral, Announces;
    LengthIsLeadingNumber(h);
    TextIsSplit("abc");
    TextIsSplit("-1");
    TextIsSplit("1a");
    OneDigit('1', "");
    OneDigit('1', "a");
    assert "-1"[1..] == "1" == ['1'] + "" && "1a" == ['1'] + "a";
  }
}
