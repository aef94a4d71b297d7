/** Frames of the chunked transfer coding (section 7.1 of RFC 9112): how the library builds one in a
    buffer of computed size, and a reference decoder that reads them back. */
module ChunkFrame {
  import opened Strings
  import opened HexLength

  const TERMINATOR: string := "0\r\n\r\n"

  function Frame(payload: string): string {
    Hex(|payload|) + CRLF + payload + CRLF
  }

  function Frames(payloads: seq<string>): string {
    if payloads == [] then [] else Frame(payloads[0]) + Frames(payloads[1..])
  }

  // ----- building a frame

  /** std::to_chars in base 16 on the range [first, last) of a buffer. */
  method ToChars(a: array<char>, first: nat, last: nat, value: nat) returns (p: nat, ok: bool)
    requires first <= last <= a.Length
    modifies a
    ensures ok <==> |Hex(value)| <= last - first
    ensures if ok then p == first + |Hex(value)| && a[..] == old(a[..first]) + Hex(value) + old(a[p..])
            else p == last && a[..] == old(a[..])
  {
    var digits := Hex(value);
    if |digits| > last - first {
      return last, false;
    }
    forall i | 0 <= i < |digits| {
      a[first + i] := digits[i];
    }
    p, ok := first + |digits|, true;
  }

  /** std::copy of the first n bytes of the data to position `at` of a buffer. */
  method Copy(data: string, n: nat, a: array<char>, at: nat)
    requires n <= |data| && at + n <= a.Length
    modifies a
    ensures a[..] == old(a[..at]) + data[..n] + old(a[at + n..])
  {
    forall i | 0 <= i < n {
      a[at + i] := data[i];
    }
  }

  /** The first `avail` bytes of the data as one frame. The buffer has exactly the computed size,
      every store is inside it, and every byte of it is written. */
  method BuildFrame(data: string, avail: nat) returns (availBytes: array<char>)
    requires 0 < avail <= |data|
    ensures fresh(availBytes) && availBytes.Length == avail + HexLen(avail) + 4
    ensures availBytes[..] == Frame(data[..avail])
  {
    hide Hex, HexLen;
    var sizeLen := HexLen(avail);
    HexLenIsExact(avail);
    ghost var digits, payload := Hex(avail), data[..avail];
    availBytes := new char[avail + sizeLen + 4];
    var p, ok := ToChars(availBytes, 0, sizeLen, avail);
    assert availBytes[..sizeLen] == digits;
    availBytes[p] := '\r';
    availBytes[p + 1] := '\n';
    assert availBytes[..p] == digits && availBytes[p..p + 2] == CRLF;
    var iter := sizeLen + 2;
    assert availBytes[..iter] == digits + CRLF;
    Copy(data, avail, availBytes, iter);
    assert availBytes[..iter + avail] == digits + CRLF + payload;
    iter := iter + avail;
    availBytes[iter] := '\r';
    iter := iter + 1;
    availBytes[iter] := '\n';
    assert availBytes[iter - 1..] == CRLF;
    assert availBytes[..] == availBytes[..iter - 1] + availBytes[iter - 1..];
  }

  // ----- the reference decoder

  /** How many hexadecimal digits stand at the front. */
  function HexRun(s: string): (n: nat)
    ensures n <= |s|
  {
    if s == [] || HexValue(s[0]).None? then 0 else 1 + HexRun(s[1..])
  }

  function HexNumber(s: string): nat {
    if s == [] then 0
    else
      var digit := HexValue(s[|s| - 1]);
      16 * HexNumber(s[..|s| - 1]) + (if digit.Some? then digit.value else 0)
  }

  /** The payload of all chunks that arrived whole, and whether the last chunk arrived. */
  datatype Decoded = Decoded(payload: string, complete: bool)

  /** Size in hexadecimal, CRLF, as many bytes, CRLF, until a chunk of size zero and an empty
      trailer section. */
  function Decode(wire: string): Decoded
    decreases |wire|
  {
    var n := HexRun(wire);
    if n == 0 || !(CRLF <= wire[n..]) then Decoded([], false)
    else
      var size, rest := HexNumber(wire[..n]), wire[n + 2..];
      if size == 0 then Decoded([], CRLF <= rest)
      else if |rest| < size || !(CRLF <= rest[size..]) then Decoded([], false)
      else
        var more := Decode(rest[size + 2..]);
        Decoded(rest[..size] + more.payload, more.complete)
  }

  // ----- sizes are read back

  lemma HexDigitIsRead(d: nat)
    requires d < 16
    ensures HexValue(HexDigit(d)) == Some(d)
  {}

  lemma {:induction false} HexIsRead(n: nat)
    ensures HexNumber(Hex(n)) == n && forall c | c in Hex(n) :: HexValue(c).Some?
  {
    HexDigitIsRead(n % 16);
    if n < 16 {
      assert Hex(n)[..0] == [];
    } else {
      HexIsRead(n / 16);
      assert Hex(n)[..|Hex(n)| - 1] == Hex(n / 16);
    }
  }

  lemma {:induction false} HexRunIs(digits: string, rest: string)
    requires forall c | c in digits :: HexValue(c).Some?
    requires rest == [] || HexValue(rest[0]).None?
    ensures HexRun(digits + rest) == |digits|
  {
    if digits == [] {
      assert digits + rest == rest;
    } else {
      assert digits[0] in digits;
      assert (digits + rest)[1..] == digits[1..] + rest;
      HexRunIs(digits[1..], rest);
    }
  }

  // ----- frames are read back

  lemma ChunkSlices(digits: string, payload: string, rest: string)
    ensures var after := payload + CRLF + rest;
            var wire := digits + (CRLF + after);
            && wire[..|digits|] == digits && wire[|digits|..] == CRLF + after && wire[|digits| + 2..] == after
            && after[..|payload|] == payload && after[|payload|..] == CRLF + rest && after[|payload| + 2..] == rest
  {}

  /** A frame at the front is decoded to its payload, whatever follows. */
  lemma DecodeFrame(payload: string, rest: string)
    requires payload != []
    ensures Decode(Frame(payload) + rest)
         == Decoded(payload + Decode(rest).payload, Decode(rest).complete)
  {
    hide Hex, HexRun, HexNumber, HexValue;
    var digits, after := Hex(|payload|), payload + CRLF + rest;
    var wire := digits + (CRLF + after);
    assert Frame(payload) + rest == wire by { hide Decode; }
    HexIsRead(|payload|);
    NoDigit(after);
    HexRunIs(digits, CRLF + after);
    ChunkSlices(digits, payload, rest);
    assert CRLF <= wire[|digits|..] && CRLF <= after[|payload|..];
  }

  lemma NoDigit(after: string)
    ensures HexValue((CRLF + after)[0]).None?
  {}

  lemma DecodeTerminator()
    ensures Decode(TERMINATOR) == Decoded([], true)
  {
    var wire := "0" + (CRLF + CRLF);
    assert TERMINATOR == wire;
    HexRunIs("0", CRLF + CRLF);
    assert wire[..1] == "0" && wire[1..] == CRLF + CRLF && wire[3..] == CRLF;
    assert HexNumber("0") == 0 by { assert "0"[..0] == []; }
  }

  /** Any sequence of frames is decoded to all payloads in order, and the terminator completes it. */
  lemma {:induction false} DecodeFrames(payloads: seq<string>, terminated: bool)
    requires forall i :: 0 <= i < |payloads| ==> payloads[i] != []
    ensures Decode(Frames(payloads) + (if terminated then TERMINATOR else []))
         == Decoded(Concat(payloads), terminated)
    decreases |payloads|
  {
    hide Decode, Frame;
    var end := if terminated then TERMINATOR else [];
    if payloads == [] {
      DecodeTerminator();
      DecodeNothing();
      assert [] + end == end;
    } else {
      DecodeFrames(payloads[1..], terminated);
      DecodeFrame(payloads[0], Frames(payloads[1..]) + end);
      assert Frames(payloads) + end == Frame(payloads[0]) + (Frames(payloads[1..]) + end);
    }
  }

  lemma DecodeNothing()
    ensures Decode([]) == Decoded([], false)
  {}

  // ----- what a receiver knows before everything has arrived

  /** A frame that has not arrived whole says nothing. */
  lemma DecodePartialFrame(payload: string, cut: nat)
    requires payload != [] && cut < |Frame(payload)|
    ensures Decode(Frame(payload)[..cut]) == Decoded([], false)
  {
    hide Hex, HexRun, HexNumber, HexValue, Decode;
    var digits := Hex(|payload|);
    var frame := Frame(payload);
    var wire := frame[..cut];
    HexIsRead(|payload|);
    if cut <= |digits| {
      assert wire == digits[..cut];
      HexRunIs(wire, []);
      assert wire + [] == wire;
      DecodeNoLine(wire);
    } else {
      var tail := CRLF + (payload + CRLF);
      var after := tail[..cut - |digits|];
      assert frame == digits + tail;
      assert wire == digits + after;
      assert HexValue(after[0]).None? by { NoDigit(payload); assert after[0] == '\r'; }
      HexRunIs(digits, after);
      if |after| == 1 {
        DecodeNoLine(wire);
      } else {
        assert wire[..|digits|] == digits;
        DecodeShortChunk(wire);
      }
    }
  }

  lemma DecodeNoLine(wire: string)
    requires |wire| < HexRun(wire) + 2
    ensures Decode(wire) == Decoded([], false)
  {}

  lemma DecodeShortChunk(wire: string)
    requires var n := HexRun(wire);
             0 < n && n + 2 <= |wire| && HexNumber(wire[..n]) > 0
             && |wire| - n - 2 < HexNumber(wire[..n]) + 2
    ensures Decode(wire) == Decoded([], false)
  {}

  lemma DecodePartialTerminator(cut: nat)
    requires cut < |TERMINATOR|
    ensures Decode(TERMINATOR[..cut]) == Decoded([], false)
  {
    var wire := TERMINATOR[..cut];
    if cut == 0 {
      assert wire == [];
    } else {
      var after := wire[1..];
      assert wire == "0" + after;
      HexRunIs("0", after);
      assert wire[..1] == "0" && HexNumber("0") == 0 by { assert "0"[..0] == []; }
      assert !(CRLF <= wire[1..]) || !(CRLF <= wire[3..]);
    }
  }

  /** However much of the wire has arrived, the decoded payload is made of whole leading payloads;
      it counts as complete only when all of the wire and the terminator have arrived. */
  lemma {:induction false} DecodeCut(payloads: seq<string>, terminated: bool, cut: nat)
    requires forall i :: 0 <= i < |payloads| ==> payloads[i] != []
    requires cut <= |Frames(payloads) + (if terminated then TERMINATOR else [])|
    ensures var wire := Frames(payloads) + (if terminated then TERMINATOR else []);
            var seen := Decode(wire[..cut]);
            && seen.payload <= Concat(payloads)
            && (seen.complete <==> terminated && cut == |wire|)
            && (seen.complete ==> seen.payload == Concat(payloads))
    decreases |payloads|
  {
    hide Decode, Frame;
    var end := if terminated then TERMINATOR else [];
    var wire := Frames(payloads) + end;
    if payloads == [] {
      assert wire == end;
      DecodeNothing();
      if cut < |wire| {
        DecodePartialTerminator(cut);
      } else {
        assert wire[..cut] == wire;
        DecodeTerminator();
      }
    } else {
      var first, others := Frame(payloads[0]), Frames(payloads[1..]) + end;
      assert wire == first + others;
      if cut < |first| {
        assert wire[..cut] == first[..cut];
        DecodePartialFrame(payloads[0], cut);
      } else {
        assert wire[..cut] == first + others[..cut - |first|];
        DecodeFrame(payloads[0], others[..cut - |first|]);
        DecodeCut(payloads[1..], terminated, cut - |first|);
      }
    }
  }
}
