/** An independent description of request heads, as text made of words and lines, and the proof
    that the incremental parser accepts exactly these texts. Printing a header gives such a text,
    so parsing undoes printing. */
module HeadGrammar {
  import opened Config
  import opened Strings
  import opened RequestSyntax
  import opened RequestChunking
  import opened FieldReading

  // ----- the grammar

  datatype Head = Head(verb: string, url: string, protocol: string, version: string, lines: seq<string>)

  predicate IsWord(s: string) {
    ' ' !in s && '\r' !in s
  }

  predicate HasNoCrlf(s: string) {
    forall k {:trigger CrlfAt(s, k)} :: 0 <= k < |s| ==> !CrlfAt(s, k)
  }

  predicate IsFieldLine(line: string) {
    line != [] && HasNoCrlf(line) && IsAlnum(line[0])
  }

  predicate WellFormed(head: Head) {
    && IsWord(head.verb) && IsWord(head.url) && IsWord(head.protocol) && IsWord(head.version)
    && '/' !in head.protocol
    && (forall line | line in head.lines :: IsFieldLine(line))
  }

  function LinesText(lines: seq<string>): string {
    if lines == [] then [] else lines[0] + CRLF + LinesText(lines[1..])
  }

  function Text(head: Head): string {
    head.verb + " " + head.url + " " + head.protocol + "/" + head.version + CRLF + LinesText(head.lines) + CRLF
  }

  /** The fields of all lines, added in order. */
  function AddFields(h: Header, lines: seq<string>): FieldResult
    decreases |lines|
  {
    if lines == [] then Field(h)
    else
      match AddField(h, lines[0])
      case BadField(error) => BadField(error)
      case Field(next) => AddFields(next, lines[1..])
  }

  function Words(head: Head): Header {
    Header(head.verb, head.url, head.protocol, head.version, map[], map[])
  }

  lemma {:induction false} StorableExactly(h: Header, lines: seq<string>)
    ensures AddFields(h, lines).Field? <==> forall line | line in lines :: IsStorable(line)
    decreases |lines|
  {
    hide AddField, IsStorable;
    if lines != [] {
      IsStorableExactly(h, lines[0]);
      assert forall line :: line in lines <==> line == lines[0] || line in lines[1..];
      if AddField(h, lines[0]).Field? {
        StorableExactly(AddField(h, lines[0]).header, lines[1..]);
      }
    }
  }

  /** The head is well-formed, its fields can be stored, and there are not too many of them. */
  ghost predicate Acceptable(head: Head) {
    WellFormed(head) && |head.lines| <= 256 && forall line | line in head.lines :: IsStorable(line)
  }

  // ----- what the grammar describes is parsed

  lemma LineEndIs(line: string, rest: string)
    requires HasNoCrlf(line)
    ensures LineEnd(line + CRLF + rest) == |line|
    ensures (line + CRLF + rest)[..|line|] == line && (line + CRLF + rest)[|line| + 2..] == rest
  {
    hide LineEnd;
    var t := line + CRLF + rest;
    assert CrlfAt(t, |line|);
    forall k | 0 <= k < |line|
      ensures !CrlfAt(t, k)
    {
      assert !CrlfAt(line, k);
    }
    assert !(LineEnd(t) < |line|) by {
      assert forall k {:trigger CrlfAt(t, k)} :: 0 <= k < |line| ==> !CrlfAt(t, k);
    }
  }

  lemma WordEndAt(word: string, c: char, rest: string)
    requires IsWord(word) && (c == ' ' || c == '\r')
    ensures WordEnd(word + ([c] + rest)) == |word|
    ensures var t := word + ([c] + rest);
            t[..|word|] == word && t[|word|..] == [c] + rest && t[|word| + 1..] == rest
  {
    var t := word + ([c] + rest);
    assert t[..|word|] == word;
    WordEndIs(t, |word|);
  }

  lemma FieldStep(p: Parser, line: string, rest: string)
    requires p.progress.Fields? && p.buffer == line + CRLF + rest
    requires IsFieldLine(line) && p.fieldCount < HEADER_FIELD_MAX && AddField(p.header, line).Field?
    ensures Step(p) == Advance(Parser(AddField(p.header, line).header, rest, Fields, p.fieldCount + 1))
  {
    hide LineEnd, AddField;
    LineEndIs(line, rest);
  }

  /** Lines at the front of the buffer are all consumed before anything else happens. */
  lemma {:induction false} RunLines(p: Parser, lines: seq<string>, rest: string)
    requires p.progress.Fields? && p.buffer == LinesText(lines) + rest
    requires forall line | line in lines :: IsFieldLine(line)
    requires p.fieldCount + |lines| <= HEADER_FIELD_MAX && AddFields(p.header, lines).Field?
    ensures Run(p) == Run(Parser(AddFields(p.header, lines).header, rest, Fields, p.fieldCount + |lines|))
    decreases |lines|
  {
    hide Step, AddField, IsFieldLine;
    if lines == [] {
      assert p.buffer == rest;
    } else {
      var line, more := lines[0], LinesText(lines[1..]) + rest;
      assert line in lines;
      assert p.buffer == line + CRLF + more;
      FieldStep(p, line, more);
      RunLines(Parser(AddField(p.header, line).header, more, Fields, p.fieldCount + 1), lines[1..], rest);
    }
  }

  lemma RunBlankLine(p: Parser, rest: string)
    requires p.progress.Fields? && p.buffer == CRLF + rest
    ensures Run(p) == Result(p.(buffer := rest, progress := Body), Finished)
  {
    hide LineEnd, AddField;
    assert p.buffer == "" + CRLF + rest;
    LineEndIs("", rest);
  }

  lemma VerbStep(verb: string, rest: string)
    requires IsWord(verb)
    ensures Step(INITIAL.(buffer := verb + ([' '] + rest)))
         == Advance(Parser(EMPTY_HEADER.(verb := verb), rest, Url, 0))
  {
    hide WordEnd;
    WordEndAt(verb, ' ', rest);
  }

  lemma UrlStep(h: Header, url: string, rest: string)
    requires IsWord(url)
    ensures Step(Parser(h, url + ([' '] + rest), Url, 0))
         == Advance(Parser(h.(url := url), rest, ProtocolAndVersion, 0))
  {
    hide WordEnd;
    WordEndAt(url, ' ', rest);
  }

  lemma ProtocolStep(h: Header, protocol: string, version: string, rest: string)
    requires IsWord(protocol) && IsWord(version) && '/' !in protocol
    ensures Step(Parser(h, protocol + "/" + version + (['\r'] + rest), ProtocolAndVersion, 0))
         == Advance(Parser(h.(protocol := protocol, version := version), ['\r'] + rest, ProtocolAndVersionPhase2, 0))
  {
    hide WordEnd, Find;
    var word := protocol + "/" + version;
    assert word[..|protocol|] == protocol && word[|protocol| + 1..] == version;
    FindIs(word, '/', |protocol|);
    WordEndAt(word, '\r', rest);
  }

  lemma LineRestStep(h: Header, rest: string)
    ensures Step(Parser(h, ['\r'] + ("\n" + rest), ProtocolAndVersionPhase2, 0)) == Advance(Parser(h, rest, Fields, 0))
  {
    hide LineEnd;
    assert ['\r'] + ("\n" + rest) == "" + CRLF + rest;
    LineEndIs("", rest);
  }

  /** The text with what follows it, cut where the parser cuts it. */
  function RequestLineText(head: Head, afterLine: string): string {
    head.verb + ([' '] + (head.url + ([' '] + (head.protocol + "/" + head.version + (['\r'] + ("\n" + afterLine))))))
  }

  lemma RunRequestLine(head: Head, rest: string)
    requires WellFormed(head)
    ensures Run(INITIAL.(buffer := RequestLineText(head, rest))) == Run(Parser(Words(head), rest, Fields, 0))
  {
    hide Step;
    var afterUrl := head.protocol + "/" + head.version + (['\r'] + ("\n" + rest));
    var afterVerb := head.url + ([' '] + afterUrl);
    var h1 := EMPTY_HEADER.(verb := head.verb);
    var h2 := h1.(url := head.url);
    VerbStep(head.verb, afterVerb);
    UrlStep(h1, head.url, afterUrl);
    ProtocolStep(h2, head.protocol, head.version, "\n" + rest);
    LineRestStep(Words(head), rest);
    var p1 := Parser(h1, afterVerb, Url, 0);
    var p2 := Parser(h2, afterUrl, ProtocolAndVersion, 0);
    var p3 := Parser(Words(head), ['\r'] + ("\n" + rest), ProtocolAndVersionPhase2, 0);
    assert Run(p1) == Run(p2) && Run(p2) == Run(p3);
  }

  function Parsed(head: Head, rest: string): Parser
    requires Acceptable(head)
  {
    StorableExactly(Words(head), head.lines);
    Parser(AddFields(Words(head), head.lines).header, rest, Body, |head.lines|)
  }

  /** Every acceptable head is parsed to exactly its parts, whatever follows it. */
  lemma GrammarIsParsed(head: Head, rest: string)
    requires Acceptable(head)
    ensures Run(INITIAL.Append(Text(head) + rest)) == Result(Parsed(head, rest), Finished)
  {
    hide Run, AddFields, LinesText, RequestLineText, Text, IsStorable;
    StorableExactly(Words(head), head.lines);
    var tail := LinesText(head.lines) + (CRLF + rest);
    TextIsCut(head, rest);
    RunRequestLine(head, tail);
    RunLines(Parser(Words(head), tail, Fields, 0), head.lines, CRLF + rest);
    RunBlankLine(Parser(AddFields(Words(head), head.lines).header, CRLF + rest, Fields, |head.lines|), rest);
  }

  lemma TextIsCut(head: Head, rest: string)
    ensures "" + (Text(head) + rest) == RequestLineText(head, LinesText(head.lines) + (CRLF + rest))
  {
    hide LinesText;
    var t := LinesText(head.lines);
    assert CRLF == ['\r'] + "\n";
    var pv := head.protocol + "/" + head.version;
    assert Text(head) + rest == head.verb + " " + head.url + " " + pv + CRLF + t + CRLF + rest;
    assert CRLF + t + CRLF + rest == ['\r'] + ("\n" + (t + (CRLF + rest)));
  }

  // ----- nothing else is accepted

  lemma WordAtFront(s: string) returns (word: string, rest: string)
    requires WordEnd(s) < |s|
    ensures IsWord(word) && WordEnd(s) == |word| && s == word + ([s[|word|]] + rest)
  {
    hide WordEnd;
    word, rest := s[..WordEnd(s)], s[WordEnd(s) + 1..];
  }

  lemma LineAtFront(s: string) returns (line: string, rest: string)
    requires LineEnd(s) < |s|
    ensures HasNoCrlf(line) && LineEnd(s) == |line| && s == line + CRLF + rest
  {
    hide LineEnd;
    var end := LineEnd(s);
    line, rest := s[..end], s[end + 2..];
    forall k | 0 <= k < |line|
      ensures !CrlfAt(line, k)
    {
      assert !CrlfAt(s, k);
    }
    assert s[end..end + 2] == CRLF;
    assert s == s[..end] + s[end..end + 2] + s[end + 2..];
  }

  /** Fields that were read to the end are lines of text closed by a blank one. */
  lemma {:induction false} FieldsShape(p: Parser) returns (lines: seq<string>, rest: string)
    requires p.progress.Fields? && p.fieldCount <= HEADER_FIELD_MAX && Run(p).outcome.Finished?
    ensures p.buffer == LinesText(lines) + (CRLF + rest)
    ensures forall line | line in lines :: IsFieldLine(line)
    ensures p.fieldCount + |lines| <= HEADER_FIELD_MAX && AddFields(p.header, lines).Field?
    decreases |p.buffer|
  {
    hide LineEnd, AddField;
    var line, after := LineAtFront(p.buffer);
    LineEndIs(line, after);
    if line == [] {
      lines, rest := [], after;
      assert p.buffer == CRLF + after;
    } else {
      var next := Parser(AddField(p.header, line).header, after, Fields, p.fieldCount + 1);
      assert Step(p) == Advance(next);
      var others;
      others, rest := FieldsShape(next);
      lines := [line] + others;
      assert lines[1..] == others;
      assert p.buffer == (line + CRLF + LinesText(others)) + (CRLF + rest);
    }
  }

  lemma LineRestShape(h: Header, t: string) returns (rest: string)
    requires Run(Parser(h, t, ProtocolAndVersionPhase2, 0)).outcome.Finished?
    ensures t == ['\r'] + ("\n" + rest)
  {
    hide LineEnd, StepVerb, StepUrl, StepProtocol, StepField, HasNoCrlf;
    var p := Parser(h, t, ProtocolAndVersionPhase2, 0);
    assert Step(p).Advance?;
    var line, after := LineAtFront(t);
    rest := after;
    assert [] + CRLF + rest == ['\r'] + ("\n" + rest);
  }

  lemma ProtocolShape(h: Header, t: string) returns (protocol: string, version: string, rest: string)
    requires Run(Parser(h, t, ProtocolAndVersion, 0)).outcome.Finished?
    ensures IsWord(protocol) && IsWord(version) && '/' !in protocol
    ensures t == protocol + "/" + version + (['\r'] + ("\n" + rest))
  {
    hide WordEnd, LineEnd, Find;
    var p := Parser(h, t, ProtocolAndVersion, 0);
    assert Step(p).Advance?;
    var word, after := WordAtFront(t);
    var slash := Find(word, '/');
    protocol, version := word[..slash], word[slash + 1..];
    assert word == protocol + "/" + version;
    var q := Step(p).parser;
    assert q.buffer == [t[|word|]] + after;
    rest := LineRestShape(q.header, q.buffer);
  }

  /** A request line that was read is three words with a '/' in the third. */
  lemma RequestLineShape(t: string) returns (head: Head, rest: string)
    requires Run(INITIAL.(buffer := t)).outcome.Finished?
    ensures WellFormed(head) && head.lines == []
    ensures t == RequestLineText(head, rest)
    ensures Run(INITIAL.(buffer := t)) == Run(Parser(Words(head), rest, Fields, 0))
  {
    hide WordEnd, LineEnd, Find, AddField, StepProtocol, StepLineRest;
    var p0 := INITIAL.(buffer := t);
    assert Step(p0).Advance?;
    var verb, afterVerb := WordAtFront(t);
    VerbStep(verb, afterVerb);
    var p1 := Parser(EMPTY_HEADER.(verb := verb), afterVerb, Url, 0);
    assert Step(p1).Advance?;
    var url, afterUrl := WordAtFront(afterVerb);
    UrlStep(p1.header, url, afterUrl);
    var protocol, version, after := ProtocolShape(p1.header.(url := url), afterUrl);
    head, rest := Head(verb, url, protocol, version, []), after;
    RunRequestLine(head, rest);
  }

  /** A parse that finishes has read an acceptable head. */
  lemma OnlyGrammarIsParsed(t: string)
    requires Run(INITIAL.Append(t)).outcome.Finished?
    ensures exists head, rest :: Acceptable(head) && t == Text(head) + rest
  {
    hide Run, RequestLineText, Text, LinesText, AddFields, IsStorable;
    assert INITIAL.Append(t) == INITIAL.(buffer := t);
    var words, tail := RequestLineShape(t);
    var lines, rest := FieldsShape(Parser(Words(words), tail, Fields, 0));
    var head := words.(lines := lines);
    StorableExactly(Words(words), lines);
    TextIsCut(head, rest);
    assert RequestLineText(words, tail) == RequestLineText(head, tail) by { SameRequestLine(words, head, tail); }
    assert Acceptable(head) && t == Text(head) + rest;
  }

  lemma SameRequestLine(a: Head, b: Head, tail: string)
    requires a == b.(lines := a.lines)
    ensures RequestLineText(a, tail) == RequestLineText(b, tail)
  {}

  /** The parser finishes on exactly the texts that begin with an acceptable head. */
  lemma FinishesExactlyOnGrammar(t: string)
    ensures Run(INITIAL.Append(t)).outcome.Finished?
       <==> exists head, rest :: Acceptable(head) && t == Text(head) + rest
  {
    if Run(INITIAL.Append(t)).outcome.Finished? {
      OnlyGrammarIsParsed(t);
    }
    if head, rest :| Acceptable(head) && t == Text(head) + rest {
      GrammarIsParsed(head, rest);
    }
  }
}
