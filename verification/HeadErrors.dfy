/** An independent description of the texts that are refused as request heads, error by error, and the
    proof that the incremental parser fails on exactly these. */
module HeadErrors {
  import opened Config
  import opened Strings
  import opened RequestSyntax
  import opened RequestChunking
  import opened HeadGrammar
  import opened FieldReading

  // ----- the texts that are refused

  /** What is wrong with a line that is not blank, when `count` lines were stored before. */
  ghost predicate IsWrong(count: nat, line: string, error: ParseError)
    requires line != []
  {
    match error
    case FieldStart => !IsAlnum(line[0])
    case TooManyFields => IsAlnum(line[0]) && count >= 256
    case NoColon => IsAlnum(line[0]) && count < 256 && ':' !in line
    case BadCookie => IsAlnum(line[0]) && count < 256 && IsBadCookieLine(line)
    case _ => false
  }

  lemma IsWrongExactly(h: Header, count: nat, line: string, error: ParseError)
    requires line != []
    ensures IsWrong(count, line, error) <==> LineError(h, count, line) == Some(error)
  {
    hide AddField, IsBadCookieLine;
    NoColonIsRefusedExactly(h, line);
    BadCookieLineIsRefusedExactly(h, line);
    AddFieldErrors(h, line);
  }

  /** The error that the parser finds in such a line. */
  function LineError(h: Header, count: nat, line: string): Option<ParseError>
    requires line != []
  {
    if !IsAlnum(line[0]) then Some(FieldStart)
    else if count >= HEADER_FIELD_MAX then Some(TooManyFields)
    else
      match AddField(h, line)
      case BadField(error) => Some(error)
      case Field(_) => None
  }

  /** Lines that can be stored, and then one that is wrong. */
  ghost predicate BadLine(lines: seq<string>, line: string, error: ParseError) {
    && (forall l | l in lines :: IsFieldLine(l) && IsStorable(l)) && |lines| <= HEADER_FIELD_MAX
    && HasNoCrlf(line) && line != [] && IsWrong(|lines|, line, error)
  }

  predicate EndsWord(c: char) {
    c == ' ' || c == '\r'
  }

  predicate IsProtocol(protocol: string, version: string) {
    IsWord(protocol) && IsWord(version) && '/' !in protocol
  }

  /** What follows verb and url is refused: the third word has no '/', or something stands between it
      and the end of the line, or a line of the fields is wrong. */
  ghost predicate BadTail(tail: string, error: ParseError) {
    match error
    case NoProtocolVersion =>
      exists word, c, rest :: IsWord(word) && '/' !in word && EndsWord(c) && tail == word + ([c] + rest)
    case ExtraTokens =>
      exists protocol, version, line, rest ::
        && IsProtocol(protocol, version) && HasNoCrlf(line) && line != [] && EndsWord(line[0])
        && tail == protocol + "/" + version + (line + CRLF + rest)
    case _ =>
      exists protocol, version, lines, line, rest ::
        && IsProtocol(protocol, version) && BadLine(lines, line, error)
        && tail == protocol + "/" + version + (['\r'] + ("\n" + (LinesText(lines) + (line + CRLF + rest))))
  }

  ghost predicate Refused(t: string, error: ParseError) {
    exists verb, url, tail ::
      && IsWord(verb) && IsWord(url) && t == verb + ([' '] + (url + ([' '] + tail)))
      && BadTail(tail, error)
  }

  // ----- they are refused

  lemma TwoWordsRun(verb: string, url: string, tail: string)
    requires IsWord(verb) && IsWord(url)
    ensures Run(INITIAL.(buffer := verb + ([' '] + (url + ([' '] + tail)))))
         == Run(Parser(EMPTY_HEADER.(verb := verb, url := url), tail, ProtocolAndVersion, 0))
  {
    hide Step;
    VerbStep(verb, url + ([' '] + tail));
    UrlStep(EMPTY_HEADER.(verb := verb), url, tail);
    var p := Parser(EMPTY_HEADER.(verb := verb), url + ([' '] + tail), Url, 0);
    assert Run(p) == Run(Step(p).parser);
  }

  lemma NoSlashFails(h: Header, word: string, c: char, rest: string)
    requires IsWord(word) && '/' !in word && EndsWord(c)
    ensures Run(Parser(h, word + ([c] + rest), ProtocolAndVersion, 0)).outcome == Failed(NoProtocolVersion)
  {
    hide WordEnd, Find;
    WordEndAt(word, c, rest);
    FindIs(word, '/', |word|);
    assert word[..|word|] == word;
  }

  lemma ProtocolAdvances(h: Header, protocol: string, version: string, c: char, rest: string)
    requires IsProtocol(protocol, version) && EndsWord(c)
    ensures Run(Parser(h, protocol + "/" + version + ([c] + rest), ProtocolAndVersion, 0))
         == Run(Parser(h.(protocol := protocol, version := version), [c] + rest, ProtocolAndVersionPhase2, 0))
  {
    hide WordEnd, Find, StepLineRest;
    var word := protocol + "/" + version;
    assert word[..|protocol|] == protocol && word[|protocol| + 1..] == version;
    FindIs(word, '/', |protocol|);
    WordEndAt(word, c, rest);
  }

  lemma ExtraFails(h: Header, line: string, rest: string)
    requires HasNoCrlf(line) && line != []
    ensures Run(Parser(h, line + CRLF + rest, ProtocolAndVersionPhase2, 0)).outcome == Failed(ExtraTokens)
  {
    hide LineEnd;
    LineEndIs(line, rest);
  }

  lemma LineFails(p: Parser, line: string, rest: string, error: ParseError)
    requires p.progress.Fields? && p.buffer == line + CRLF + rest && HasNoCrlf(line) && line != []
    requires LineError(p.header, p.fieldCount, line) == Some(error)
    ensures Run(p).outcome == Failed(error)
  {
    hide LineEnd, AddField;
    LineEndIs(line, rest);
  }

  lemma BadLineFails(h: Header, lines: seq<string>, line: string, rest: string, error: ParseError)
    requires BadLine(lines, line, error)
    ensures Run(Parser(h, LinesText(lines) + (line + CRLF + rest), Fields, 0)).outcome == Failed(error)
  {
    hide Run, AddFields, LinesText, LineError, IsWrong, IsFieldLine, HasNoCrlf, IsStorable;
    StorableExactly(h, lines);
    IsWrongExactly(AddFields(h, lines).header, |lines|, line, error);
    var tail := line + CRLF + rest;
    RunLines(Parser(h, LinesText(lines) + tail, Fields, 0), lines, tail);
    LineFails(Parser(AddFields(h, lines).header, tail, Fields, |lines|), line, rest, error);
  }

  lemma BadTailFails(h: Header, tail: string, error: ParseError)
    requires BadTail(tail, error)
    ensures Run(Parser(h, tail, ProtocolAndVersion, 0)).outcome == Failed(error)
  {
    hide Run, LinesText, BadLine, IsProtocol, HasNoCrlf;
    if error.NoProtocolVersion? {
      var word, c, rest :| IsWord(word) && '/' !in word && EndsWord(c) && tail == word + ([c] + rest);
      NoSlashFails(h, word, c, rest);
    } else if error.ExtraTokens? {
      var protocol, version, line, rest :|
        && IsProtocol(protocol, version) && HasNoCrlf(line) && line != [] && EndsWord(line[0])
        && tail == protocol + "/" + version + (line + CRLF + rest);
      assert line + CRLF + rest == [line[0]] + (line[1..] + CRLF + rest);
      ProtocolAdvances(h, protocol, version, line[0], line[1..] + CRLF + rest);
      ExtraFails(h.(protocol := protocol, version := version), line, rest);
    } else {
      var protocol, version, lines, line, rest :|
        && IsProtocol(protocol, version) && BadLine(lines, line, error)
        && tail == protocol + "/" + version + (['\r'] + ("\n" + (LinesText(lines) + (line + CRLF + rest))));
      var after, q := LinesText(lines) + (line + CRLF + rest), h.(protocol := protocol, version := version);
      ProtocolAdvances(h, protocol, version, '\r', "\n" + after);
      LineRestRuns(q, after);
      BadLineFails(q, lines, line, rest, error);
    }
  }

  lemma LineRestRuns(h: Header, after: string)
    ensures Run(Parser(h, ['\r'] + ("\n" + after), ProtocolAndVersionPhase2, 0)) == Run(Parser(h, after, Fields, 0))
  {
    hide Step;
    LineRestStep(h, after);
  }

  // ----- nothing else is refused

  lemma {:induction false} FieldsFailShape(p: Parser, error: ParseError)
      returns (lines: seq<string>, line: string, rest: string)
    requires p.progress.Fields? && p.fieldCount <= HEADER_FIELD_MAX && Run(p).outcome == Failed(error)
    ensures p.buffer == LinesText(lines) + (line + CRLF + rest)
    ensures forall l | l in lines :: IsFieldLine(l)
    ensures p.fieldCount + |lines| <= HEADER_FIELD_MAX && AddFields(p.header, lines).Field?
    ensures HasNoCrlf(line) && line != []
    ensures LineError(AddFields(p.header, lines).header, p.fieldCount + |lines|, line) == Some(error)
    decreases |p.buffer|
  {
    hide LineEnd, AddField;
    line, rest := LineAtFront(p.buffer);
    LineEndIs(line, rest);
    lines := [];
    if Step(p).Reject? {
      assert p.buffer == LinesText([]) + (line + CRLF + rest);
    } else {
      var first, next := line, Parser(AddField(p.header, line).header, rest, Fields, p.fieldCount + 1);
      assert Step(p) == Advance(next);
      var others;
      others, line, rest := FieldsFailShape(next, error);
      lines := [first] + others;
      assert lines[1..] == others;
      assert p.buffer == (first + CRLF + LinesText(others)) + (line + CRLF + rest);
    }
  }

  lemma FailShape(h: Header, tail: string, error: ParseError)
    requires Run(Parser(h, tail, ProtocolAndVersion, 0)).outcome == Failed(error)
    ensures BadTail(tail, error)
  {
    hide WordEnd, LineEnd, Find, Run, LinesText, AddFields, LineError, HasNoCrlf;
    var word, after := TailWord(h, tail, error);
    var c, slash := tail[|word|], Find(word, '/');
    if slash == |word| {
      assert word[..|word|] == word;
      NoSlashFails(h, word, c, after);
      assert tail == word + ([c] + after);
    } else {
      var protocol, version := word[..slash], word[slash + 1..];
      assert word == protocol + "/" + version;
      assert IsProtocol(protocol, version);
      ProtocolAdvances(h, protocol, version, c, after);
      LineRestFails(h, protocol, version, c, after, error);
    }
  }

  lemma TailWord(h: Header, tail: string, error: ParseError) returns (word: string, after: string)
    requires Run(Parser(h, tail, ProtocolAndVersion, 0)).outcome == Failed(error)
    ensures IsWord(word) && |word| < |tail| && EndsWord(tail[|word|]) && tail == word + ([tail[|word|]] + after)
  {
    hide WordEnd, LineEnd, Find;
    word, after := WordAtFront(tail);
  }

  lemma LineRestFails(h: Header, protocol: string, version: string, c: char, after: string, error: ParseError)
    requires IsProtocol(protocol, version) && EndsWord(c)
    requires Run(Parser(h.(protocol := protocol, version := version), [c] + after, ProtocolAndVersionPhase2, 0)).outcome
          == Failed(error)
    ensures BadTail(protocol + "/" + version + ([c] + after), error)
  {
    hide Run, LinesText, AddFields, LineError, IsWrong, HasNoCrlf, IsProtocol, IsStorable;
    var q := h.(protocol := protocol, version := version);
    var line, rest := SecondLine(q, [c] + after, error);
    if line != [] {
      ExtraFails(q, line, rest);
      assert line[0] == ([c] + after)[0];
      assert [c] + after == line + CRLF + rest;
    } else {
      assert [] + CRLF + rest == ['\r'] + ("\n" + rest);
      LineRestRuns(q, rest);
      var lines, bad, end := FieldsFailShape(Parser(q, rest, Fields, 0), error);
      StorableExactly(q, lines);
      IsWrongExactly(AddFields(q, lines).header, |lines|, bad, error);
      assert BadLine(lines, bad, error);
      FieldErrorsOnly(AddFields(q, lines).header, |lines|, bad);
      assert [c] + after == ['\r'] + ("\n" + (LinesText(lines) + (bad + CRLF + end)));
    }
  }

  lemma SecondLine(h: Header, t: string, error: ParseError) returns (line: string, rest: string)
    requires Run(Parser(h, t, ProtocolAndVersionPhase2, 0)).outcome == Failed(error)
    ensures HasNoCrlf(line) && t == line + CRLF + rest
  {
    hide LineEnd, HasNoCrlf;
    line, rest := LineAtFront(t);
  }

  lemma FieldErrorsOnly(h: Header, count: nat, line: string)
    requires line != []
    ensures LineError(h, count, line) != Some(NoProtocolVersion) && LineError(h, count, line) != Some(ExtraTokens)
  {
    hide Find, TrimLeft, TrimRight, Lower, ParseCookies;
  }

  /** The parser fails on exactly the texts that are refused, and with the error that fits. */
  lemma FailsExactlyOnRefused(t: string, error: ParseError)
    ensures Run(INITIAL.Append(t)).outcome == Failed(error) <==> Refused(t, error)
  {
    hide Run, BadTail, WordEnd;
    assert INITIAL.Append(t) == INITIAL.(buffer := t);
    if Run(INITIAL.Append(t)).outcome == Failed(error) {
      var verb, url, tail := TwoWordsShape(t, error);
      TwoWordsRun(verb, url, tail);
      FailShape(EMPTY_HEADER.(verb := verb, url := url), tail, error);
    }
    if Refused(t, error) {
      var verb, url, tail :|
        && IsWord(verb) && IsWord(url) && t == verb + ([' '] + (url + ([' '] + tail)))
        && BadTail(tail, error);
      TwoWordsRun(verb, url, tail);
      BadTailFails(EMPTY_HEADER.(verb := verb, url := url), tail, error);
    }
  }

  lemma TwoWordsShape(t: string, error: ParseError) returns (verb: string, url: string, tail: string)
    requires Run(INITIAL.(buffer := t)).outcome == Failed(error)
    ensures IsWord(verb) && IsWord(url) && t == verb + ([' '] + (url + ([' '] + tail)))
  {
    hide WordEnd, LineEnd, Find, AddField, StepProtocol, StepLineRest, StepField;
    var p0 := INITIAL.(buffer := t);
    assert Step(p0).Advance?;
    var afterVerb;
    verb, afterVerb := WordAtFront(t);
    VerbStep(verb, afterVerb);
    var p1 := Parser(EMPTY_HEADER.(verb := verb), afterVerb, Url, 0);
    assert Step(p1).Advance?;
    url, tail := WordAtFront(afterVerb);
  }

  // ----- errors are final, but some come late

  /** What is refused stays refused: no bytes that follow make it begin with a head. */
  lemma RefusedForGood(t: string, more: string, error: ParseError)
    requires Refused(t, error)
    ensures Refused(t + more, error)
    ensures !exists head, rest :: Acceptable(head) && t + more == Text(head) + rest
  {
    hide Run, Refused, Acceptable, Text;
    FailsExactlyOnRefused(t, error);
    RunResumes(INITIAL.Append(t), more);
    assert INITIAL.Append(t).Append(more) == INITIAL.Append(t + more);
    FailsExactlyOnRefused(t + more, error);
    FinishesExactlyOnGrammar(t + more);
  }

  /** A space behind the third word can never become part of a head, but it is refused only when the
      line ends: until then the parser asks for more. */
  lemma LateRefusal(head: Head, more: string)
    requires WellFormed(head)
    ensures var t := head.verb + ([' '] + (head.url + ([' '] + (head.protocol + "/" + head.version + " "))));
            && Run(INITIAL.(buffer := t)).outcome.NeedMore?
            && !Run(INITIAL.(buffer := t + more)).outcome.Finished?
  {
    hide Run;
    var word, h := head.protocol + "/" + head.version, EMPTY_HEADER.(verb := head.verb, url := head.url);
    var t := head.verb + ([' '] + (head.url + ([' '] + (word + " "))));
    assert word + " " == word + ([' '] + []);
    assert t + more == head.verb + ([' '] + (head.url + ([' '] + (word + ([' '] + more)))));
    TwoWordsRun(head.verb, head.url, word + ([' '] + []));
    TwoWordsRun(head.verb, head.url, word + ([' '] + more));
    ProtocolAdvances(h, head.protocol, head.version, ' ', []);
    ProtocolAdvances(h, head.protocol, head.version, ' ', more);
    BlankHolds(h.(protocol := head.protocol, version := head.version), more);
    BlankHolds(h.(protocol := head.protocol, version := head.version), []);
  }

  lemma BlankHolds(h: Header, more: string)
    ensures var run := Run(Parser(h, [' '] + more, ProtocolAndVersionPhase2, 0));
            !run.outcome.Finished? && (more == [] ==> run.outcome.NeedMore?)
  {
    hide LineEnd;
    assert !CrlfAt([' '] + more, 0);
    assert more == [] ==> LineEnd([' '] + more) == 1;
  }
}
