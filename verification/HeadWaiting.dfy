/** Which texts the parser waits behind for ever: it neither accepts nor refuses them, whatever follows. */
module HeadWaiting {
  import opened Config
  import opened Strings
  import opened RequestSyntax
  import opened RequestChunking
  import opened HeadGrammar

  /** A request line that is cut short by a carriage return behind its first or its second word. */
  ghost predicate CutShort(t: string) {
    || (exists word, rest :: IsWord(word) && t == word + (['\r'] + rest))
    || (exists verb, url, rest :: IsWord(verb) && IsWord(url) && t == verb + ([' '] + (url + (['\r'] + rest))))
  }

  predicate Waits(t: string) {
    Run(INITIAL.(buffer := t)).outcome.NeedMore?
  }

  // ----- a line cut short holds the parser

  /** In front of a carriage return where a space is expected, the parser stays. */
  predicate Parked(p: Parser) {
    (p.progress.Verb? || p.progress.Url?) && WordEnd(p.buffer) < |p.buffer| && p.buffer[WordEnd(p.buffer)] == '\r'
  }

  lemma ParkedWaits(p: Parser, word: string, rest: string)
    requires (p.progress.Verb? || p.progress.Url?) && IsWord(word) && p.buffer == word + (['\r'] + rest)
    ensures Run(p).outcome.NeedMore?
  {
    hide WordEnd;
    WordEndAt(word, '\r', rest);
  }

  /** A word before a carriage return is taken over, but the next feed overwrites it with nothing,
      since the parser has stayed in front of the carriage return. */
  lemma ParkedWordIsOverwritten(p: Parser, word: string, rest: string, more: string)
    requires (p.progress.Verb? || p.progress.Url?) && IsWord(word) && p.buffer == word + (['\r'] + rest)
    ensures var parked := Run(p).parser;
            && (if p.progress.Verb? then parked.header.verb == word else parked.header.url == word)
            && parked.buffer == ['\r'] + rest && parked.progress == p.progress
    ensures var later := Run(Run(p).parser.Append(more)).parser;
            && (if p.progress.Verb? then later.header.verb == "" else later.header.url == "")
            && later.buffer == ['\r'] + rest + more
  {
    hide WordEnd;
    WordEndAt(word, '\r', rest);
    var q := Run(p).parser.Append(more);
    assert q.buffer == "" + (['\r'] + (rest + more));
    WordEndAt("", '\r', rest + more);
    assert q.buffer[..0] == "" && q.buffer[0..] == q.buffer;
  }

  lemma CutShortWaits(t: string, more: string)
    requires CutShort(t)
    ensures Waits(t + more)
  {
    hide Run, WordEnd, IsWord;
    if word, rest :| IsWord(word) && t == word + (['\r'] + rest) {
      assert t + more == word + (['\r'] + (rest + more));
      ParkedWaits(INITIAL.(buffer := t + more), word, rest + more);
    } else {
      var verb, url, rest :| IsWord(verb) && IsWord(url) && t == verb + ([' '] + (url + (['\r'] + rest)));
      var after := url + (['\r'] + (rest + more));
      assert t + more == verb + ([' '] + after);
      VerbRuns(verb, after);
      ParkedWaits(Parser(EMPTY_HEADER.(verb := verb), after, Url, 0), url, rest + more);
    }
  }

  lemma VerbRuns(verb: string, rest: string)
    requires IsWord(verb)
    ensures Run(INITIAL.(buffer := verb + ([' '] + rest))) == Run(Parser(EMPTY_HEADER.(verb := verb), rest, Url, 0))
  {
    hide Step;
    VerbStep(verb, rest);
  }

  // ----- anything else can be brought to an end

  /** Bytes with which a parser that waits comes to an end, unless it is parked: for the words that
      are missing, anything that is refused; for a line, its end. */
  function Ending(p: Parser): string {
    match p.progress
    case Verb => "  x "
    case Url => " x "
    case ProtocolAndVersion => " " + CRLF
    case ProtocolAndVersionPhase2 => CRLF
    case _ => CRLF + CRLF
  }

  lemma ThirdWordEnds(p: Parser, word: string, rest: string)
    requires p.progress.ProtocolAndVersion? && IsWord(word) && p.buffer == word + ([' '] + (CRLF + rest))
    ensures !Run(p).outcome.NeedMore?
  {
    hide WordEnd, Find, StepLineRest;
    var after := CRLF + rest;
    WordEndAt(word, ' ', after);
    if Step(p).Advance? {
      assert Step(p).parser.buffer == [' '] + CRLF + rest;
      ExtraEnds(Step(p).parser, " ", rest);
    }
  }

  lemma ExtraEnds(p: Parser, line: string, rest: string)
    requires p.progress.ProtocolAndVersionPhase2? && p.buffer == line + CRLF + rest && HasNoCrlf(line) && line != []
    ensures Run(p).outcome.Failed?
  {
    hide LineEnd;
    LineEndIs(line, rest);
  }

  lemma SlashlessEnds(p: Parser, rest: string)
    requires p.progress.ProtocolAndVersion? && p.buffer == "x" + ([' '] + rest)
    ensures Run(p).outcome.Failed?
  {
    hide WordEnd, Find;
    WordEndAt("x", ' ', rest);
    assert p.buffer[..1] == "x";
    FindIs("x", '/', 1);
  }

  lemma UrlEnds(p: Parser, word: string)
    requires p.progress.Url? && IsWord(word) && p.buffer == word + ([' '] + ("x" + ([' '] + "")))
    ensures Run(p).outcome.Failed?
  {
    hide WordEnd, StepProtocol;
    WordEndAt(word, ' ', "x" + ([' '] + ""));
    SlashlessEnds(Step(p).parser, "");
  }

  lemma VerbEnds(p: Parser, word: string)
    requires p.progress.Verb? && IsWord(word) && p.buffer == word + ([' '] + ("" + ([' '] + ("x" + ([' '] + "")))))
    ensures Run(p).outcome.Failed?
  {
    hide WordEnd, StepUrl;
    WordEndAt(word, ' ', "" + ([' '] + ("x" + ([' '] + ""))));
    UrlEnds(Step(p).parser, "");
  }

  lemma LineEnds(p: Parser, line: string)
    requires p.progress.Fields? && p.buffer == line + CRLF + CRLF && HasNoCrlf(line)
    ensures !Run(p).outcome.NeedMore?
  {
    hide LineEnd, AddField;
    LineEndIs(line, CRLF);
    if Step(p).Advance? && line != [] {
      assert CRLF == CRLF + "";
      RunBlankLine(Step(p).parser, "");
    }
  }

  lemma NoLineNoCrlf(s: string)
    requires LineEnd(s) == |s|
    ensures HasNoCrlf(s)
  {
    hide LineEnd;
  }

  /** A waiting parser that is not parked comes to an end. */
  lemma EndingEnds(p: Parser)
    requires !p.Finished() && Step(p).Stuck? && !Parked(p)
    requires p.progress.ProtocolAndVersionPhase2? ==> p.buffer != []
    ensures !Run(p.Append(Ending(p))).outcome.NeedMore?
  {
    hide Run, WordEnd, LineEnd, Find, AddField;
    var q, s := p.Append(Ending(p)), p.buffer;
    match p.progress
    case Verb =>
      assert s[..|s|] == s;
      assert s + "  x " == s + ([' '] + ("" + ([' '] + ("x" + ([' '] + "")))));
      VerbEnds(q, s);
    case Url =>
      assert s[..|s|] == s;
      assert s + " x " == s + ([' '] + ("x" + ([' '] + "")));
      UrlEnds(q, s);
    case ProtocolAndVersion =>
      assert s[..|s|] == s;
      assert s + (" " + CRLF) == s + ([' '] + (CRLF + ""));
      ThirdWordEnds(q, s, "");
    case ProtocolAndVersionPhase2 =>
      NoLineNoCrlf(s);
      assert s + CRLF == s + CRLF + "";
      ExtraEnds(q, s, "");
    case Fields =>
      NoLineNoCrlf(s);
      assert s + (CRLF + CRLF) == s + CRLF + CRLF;
      LineEnds(q, s);
  }

  // ----- where a run waits

  /** Behind the third word there is always its separator or more. */
  predicate KeepsSeparator(p: Parser) {
    p.progress.ProtocolAndVersionPhase2? ==> p.buffer != []
  }

  lemma StepKeepsSeparator(p: Parser)
    requires !p.Finished() && KeepsSeparator(p)
    ensures !Step(p).Reject? ==> KeepsSeparator(Step(p).parser)
  {
    hide WordEnd, LineEnd, Find, AddField;
  }

  /** Once two words are taken, the parser is never parked, and waits where a step is stuck. */
  lemma {:induction false} WaitsBehindWords(p: Parser)
    requires p.progress.Rank() >= ProtocolAndVersion.Rank() && KeepsSeparator(p) && Run(p).outcome.NeedMore?
    ensures var q := Run(p).parser;
            !q.Finished() && Step(q).Stuck? && !Parked(q) && KeepsSeparator(q)
    decreases |p.buffer|
  {
    hide WordEnd, LineEnd, Find, AddField;
    StepKeepsTail(p);
    StepKeepsSeparator(p);
    if Step(p).Advance? {
      WaitsBehindWords(Step(p).parser);
    }
  }

  lemma FrontOfWord(s: string)
    requires WordEnd(s) < |s|
    ensures IsWord(s[..WordEnd(s)]) && s == s[..WordEnd(s)] + ([s[WordEnd(s)]] + s[WordEnd(s) + 1..])
  {
    hide WordEnd;
  }

  /** A run from the start that waits, but not behind a line cut short, waits where it can go on. */
  lemma WaitsUnparked(t: string)
    requires Waits(t) && !CutShort(t)
    ensures var q := Run(INITIAL.(buffer := t)).parser;
            !q.Finished() && Step(q).Stuck? && !Parked(q) && KeepsSeparator(q)
  {
    hide WordEnd, LineEnd, Find, StepProtocol, StepLineRest, StepField;
    var p0 := INITIAL.(buffer := t);
    if WordEnd(t) < |t| {
      FrontOfWord(t);
      var verb, after := t[..WordEnd(t)], t[WordEnd(t) + 1..];
      assert t[WordEnd(t)] == ' ';
      VerbRuns(verb, after);
      var p1 := Parser(EMPTY_HEADER.(verb := verb), after, Url, 0);
      if WordEnd(after) < |after| {
        FrontOfWord(after);
        assert after[WordEnd(after)] == ' ';
        assert Step(p1).Advance?;
        WaitsBehindWords(Step(p1).parser);
      }
    }
  }

  /** The parser waits for good, whatever follows, behind exactly the request lines that a carriage
      return cuts short. Every other text is accepted or refused in some continuation. */
  lemma WaitsForGoodExactly(t: string)
    ensures (forall more :: Waits(t + more)) <==> CutShort(t)
  {
    hide Waits, CutShort;
    if CutShort(t) {
      forall more
        ensures Waits(t + more)
      {
        CutShortWaits(t, more);
      }
    } else {
      ComesToAnEnd(t);
    }
  }

  lemma ComesToAnEnd(t: string)
    requires !CutShort(t)
    ensures exists more :: !Waits(t + more)
  {
    hide Run, Step, Parked, CutShort;
    assert t + [] == t;
    if Waits(t) {
      WaitsUnparked(t);
      var q := Run(INITIAL.(buffer := t)).parser;
      EndingEnds(q);
      RunResumes(INITIAL.(buffer := t), Ending(q));
      assert INITIAL.(buffer := t).Append(Ending(q)) == INITIAL.(buffer := t + Ending(q));
      assert !Waits(t + Ending(q));
    } else {
      assert !Waits(t + []);
    }
  }
}
