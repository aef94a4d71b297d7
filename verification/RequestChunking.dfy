/** The outcome of parsing a head does not depend on how the network cut the byte stream. */
module RequestChunking {
  import opened Config
  import opened Strings
  import opened RequestSyntax

  // ----- tokens are found at the same place when more bytes follow

  lemma {:induction false} LineEndStable(s: string, more: string)
    requires LineEnd(s) < |s|
    ensures LineEnd(s + more) == LineEnd(s)
  {
    var t := s + more;
    assert CrlfAt(t, 0) == CrlfAt(s, 0);
    if LineEnd(s) > 0 {
      assert t[1..] == s[1..] + more;
      LineEndStable(s[1..], more);
    }
  }

  lemma WordEndIs(s: string, i: nat)
    requires i < |s| && ' ' !in s[..i] && '\r' !in s[..i]
    requires s[i] == ' ' || s[i] == '\r'
    ensures WordEnd(s) == i
  {
    if s[i] == ' ' {
      FindIs(s, ' ', i);
      assert Find(s, '\r') >= i;
    } else {
      FindIs(s, '\r', i);
      assert Find(s, ' ') >= i;
    }
  }

  lemma WordEndStable(s: string, more: string)
    requires WordEnd(s) < |s|
    ensures WordEnd(s + more) == WordEnd(s)
  {
    var i := WordEnd(s);
    assert (s + more)[..i] == s[..i];
    WordEndIs(s + more, i);
  }

  // ----- one step

  /** What a step that was taken makes of the bytes that follow. */
  predicate StableStep(short: StepResult, long: StepResult, more: string) {
    match short
    case Advance(q) => long == Advance(q.Append(more))
    case Reject(q, error) => long == Reject(q.Append(more), error)
    case Stuck(_) => true
  }

  lemma CutStable(s: string, more: string, i: nat)
    requires i <= |s|
    ensures (s + more)[..i] == s[..i] && (s + more)[i..] == s[i..] + more
  {}

  lemma WordSplitStable(s: string, more: string)
    requires WordEnd(s) < |s|
    ensures var end, t := WordEnd(s), s + more;
            && WordEnd(t) == end && t[..end] == s[..end]
            && t[end..] == s[end..] + more && t[end + 1..] == s[end + 1..] + more
  {
    WordEndStable(s, more);
    CutStable(s, more, WordEnd(s));
    CutStable(s, more, WordEnd(s) + 1);
  }

  lemma LineSplitStable(s: string, more: string)
    requires LineEnd(s) < |s|
    ensures var end, t := LineEnd(s), s + more;
            && LineEnd(t) == end && t[..end] == s[..end] && t[end + 2..] == s[end + 2..] + more
  {
    hide LineEnd;
    LineEndStable(s, more);
    assert LineEnd(s) + 2 <= |s|;
    CutStable(s, more, LineEnd(s));
    CutStable(s, more, LineEnd(s) + 2);
  }

  lemma FieldStepStable(p: Parser, more: string)
    ensures StableStep(StepField(p), StepField(p.Append(more)), more)
  {
    hide LineEnd, AddField;
    if LineEnd(p.buffer) < |p.buffer| {
      LineSplitStable(p.buffer, more);
      assert TakeLine(p.Append(more)) == TakeLine(p).Append(more);
    }
  }

  lemma ProtocolStepStable(p: Parser, more: string)
    ensures StableStep(StepProtocol(p), StepProtocol(p.Append(more)), more)
  {
    hide WordEnd, Find;
    if WordEnd(p.buffer) < |p.buffer| {
      WordSplitStable(p.buffer, more);
    }
  }

  /** A step that can be taken is taken in the same way when more bytes follow. */
  lemma StepStable(p: Parser, more: string)
    requires !p.Finished()
    ensures StableStep(Step(p), Step(p.Append(more)), more)
  {
    hide WordEnd, LineEnd, Find, StepField, StepProtocol;
    match p.progress
    case ProtocolAndVersion => ProtocolStepStable(p, more);
    case Fields => FieldStepStable(p, more);
    case ProtocolAndVersionPhase2 =>
      if LineEnd(p.buffer) < |p.buffer| {
        LineSplitStable(p.buffer, more);
      }
    case _ =>
      if WordEnd(p.buffer) < |p.buffer| {
        WordSplitStable(p.buffer, more);
      }
  }

  /** Parsing on from where a step got stuck is as good as parsing all over again. */
  lemma StuckResumes(p: Parser, more: string)
    requires !p.Finished() && Step(p).Stuck?
    ensures var again, whole := Run(Step(p).parser.Append(more)), Run(p.Append(more));
            again.outcome == whole.outcome && again.parser.Observable() == whole.parser.Observable()
  {
    hide WordEnd, LineEnd, Find, AddField;
    var q := Step(p).parser;
    if q != p {
      // the word ended in a carriage return: both parsers stay in front of it
      WordEndStable(p.buffer, more);
      var end := WordEnd(p.buffer);
      assert (p.buffer + more)[end..] == q.buffer + more;
      WordEndIs(q.buffer + more, 0);
      assert (q.buffer + more)[0..] == q.buffer + more;
    }
  }

  // ----- a whole run

  /** A run that ends is not influenced by bytes that follow; one that waits can be resumed. */
  lemma {:induction false} RunResumes(p: Parser, more: string)
    ensures var r, whole := Run(p), Run(p.Append(more));
            if r.outcome.NeedMore? then
              var again := Run(r.parser.Append(more));
              again.outcome == whole.outcome && again.parser.Observable() == whole.parser.Observable()
            else
              whole == Result(r.parser.Append(more), r.outcome)
    decreases |p.buffer|
  {
    if !p.Finished() {
      if Step(p).Stuck? {
        StuckResumes(p, more);
      } else {
        StepStable(p, more);
        if Step(p).Advance? {
          RunResumes(Step(p).parser, more);
        }
      }
    }
  }

  /** Two parsers that differ only in an unterminated word behave alike. */
  lemma RunObservable(p: Parser, q: Parser)
    requires p.Observable() == q.Observable()
    ensures Run(p).outcome == Run(q).outcome
    ensures Run(p).parser.Observable() == Run(q).parser.Observable()
  {
    assert p.progress == q.progress;
    if p.progress.Verb? || p.progress.Url? {
      assert p.buffer == q.buffer;
      if Step(p).Advance? {
        assert Step(p) == Step(q);
      }
    }
  }

  /** Whoever is not waiting shows everything. */
  lemma {:induction false} EndedIsObservable(p: Parser)
    ensures !Run(p).outcome.NeedMore? ==> Run(p).parser.Observable() == Run(p).parser
    ensures Run(p).outcome.Finished? <==> Run(p).parser.Finished()
    decreases |p.buffer|
  {
    hide WordEnd, LineEnd, Find, AddField;
    if !p.Finished() && Step(p).Advance? {
      EndedIsObservable(Step(p).parser);
    }
  }

  // ----- feeding

  lemma {:induction false} FeedAllObservable(p: Parser, q: Parser, chunks: seq<string>)
    requires p.Observable() == q.Observable()
    ensures var a, b := FeedAll(p, chunks, false), FeedAll(q, chunks, false);
            a.outcome == b.outcome && a.unfed == b.unfed && a.parser.Observable() == b.parser.Observable()
    decreases |chunks|
  {
    if !p.Finished() && chunks != [] {
      var p', q' := p.Append(chunks[0]), q.Append(chunks[0]);
      assert p'.Observable() == q'.Observable();
      RunObservable(p', q');
      FeedAllObservable(Run(p').parser, Run(q').parser, chunks[1..]);
    }
  }

  /** Chunking does not matter: fed piece by piece or at once, the same bytes give the same outcome,
      the same header and the same bytes behind the head. */
  lemma {:induction false} SplitEqualsWhole(p: Parser, chunks: seq<string>)
    requires chunks != []
    ensures var split, whole := FeedAll(p, chunks, false), FeedAll(p, [Concat(chunks)], false);
            split.outcome == whole.outcome && split.Rest().Observable() == whole.Rest().Observable()
    decreases |chunks|
  {
    hide Step;
    var first, others := chunks[0], chunks[1..];
    if |chunks| == 1 {
      assert Concat(chunks) == first + [] == first;
      assert chunks == [first];
    } else if !p.Finished() {
      var r, whole := Run(p.Append(first)), Run(p.Append(Concat(chunks)));
      assert p.Append(first).Append(Concat(others)) == p.Append(Concat(chunks));
      RunResumes(p.Append(first), Concat(others));
      FeedOne(p, Concat(chunks));
      if r.outcome.NeedMore? {
        EndedIsObservable(p.Append(first));
        SplitEqualsWhole(r.parser, others);
        FeedOne(r.parser, Concat(others));
      }
    } else {
      assert Concat([Concat(chunks)]) == Concat(chunks) + [];
    }
  }

  lemma FeedOne(p: Parser, chunk: string)
    requires !p.Finished()
    ensures var r, a := Run(p.Append(chunk)), FeedAll(p, [chunk], false);
            a.outcome == r.outcome && a.unfed == [] && a.parser == r.parser && a.Rest() == r.parser
  {
    var r := Run(p.Append(chunk));
    EndedIsObservable(p.Append(chunk));
    assert [chunk][1..] == [];
    assert FeedAll(r.parser, [], false).unfed == [];
    assert r.parser.buffer + Concat<char>([]) == r.parser.buffer;
  }

  /** Where no feed trips over the size limit, the limit plays no part. */
  lemma {:induction false} LimitUnnoticed(p: Parser, chunks: seq<string>)
    requires FeedAll(p, chunks, true).outcome != Failed(HeaderBufferExceeded)
    ensures FeedAll(p, chunks, true) == FeedAll(p, chunks, false)
    decreases |chunks|
  {
    if !p.Finished() && chunks != [] {
      var r := Feed(p, chunks[0]);
      if r.outcome.NeedMore? {
        LimitUnnoticed(r.parser, chunks[1..]);
      }
    }
  }

  /** The main result for feed itself: any two ways of cutting the same bytes agree on success,
      error, header and the bytes behind the head, unless one of them trips over the size limit. */
  lemma ChunkingIrrelevant(p: Parser, a: seq<string>, b: seq<string>)
    requires a != [] && b != [] && Concat(a) == Concat(b)
    requires FeedAll(p, a, true).outcome != Failed(HeaderBufferExceeded)
    requires FeedAll(p, b, true).outcome != Failed(HeaderBufferExceeded)
    ensures FeedAll(p, a, true).outcome == FeedAll(p, b, true).outcome
    ensures FeedAll(p, a, true).Rest().Observable() == FeedAll(p, b, true).Rest().Observable()
  {
    LimitUnnoticed(p, a);
    LimitUnnoticed(p, b);
    SplitEqualsWhole(p, a);
    SplitEqualsWhole(p, b);
  }

  // ----- when the size limit strikes

  /** Feeding from the start without the limit comes to what a run over all the bytes comes to. */
  lemma FeedingIsRunning(chunks: seq<string>)
    ensures var fed, run := FeedAll(INITIAL, chunks, false), Run(INITIAL.Append(Concat(chunks)));
            && fed.outcome == run.outcome
            && (run.outcome.NeedMore? ==> |fed.parser.buffer| == |run.parser.buffer|)
  {
    hide Run;
    var whole := Concat(chunks);
    if chunks == [] {
      NothingRuns();
    } else {
      SplitEqualsWhole(INITIAL, chunks);
      FeedOne(INITIAL, whole);
      WaitingFedAll(INITIAL, chunks);
    }
  }

  lemma NothingRuns()
    ensures Run(INITIAL.Append([])) == Result(INITIAL, NeedMore)
  {
    assert INITIAL.Append([]) == INITIAL;
  }

  lemma {:induction false} WaitingFedAll(p: Parser, chunks: seq<string>)
    ensures var fed := FeedAll(p, chunks, false); fed.outcome.NeedMore? ==> fed.unfed == [] && fed.Rest() == fed.parser
    decreases |chunks|
  {
    hide Run;
    if !p.Finished() && chunks != [] {
      var r := FeedUnlimited(p, chunks[0]);
      if r.outcome.NeedMore? {
        WaitingFedAll(r.parser, chunks[1..]);
      }
    } else {
      assert p.buffer + [] == p.buffer;
    }
  }

  /** Feeding waits for read k, and what is not consumed by then and read k together are too much. */
  predicate StrikesFed(p: Parser, chunks: seq<string>, k: nat)
    requires k < |chunks|
  {
    var fed := FeedAll(p, chunks[..k], true);
    fed.outcome.NeedMore? && |fed.parser.buffer| + |chunks[k]| > HEADER_BUFFER_MAX
  }

  lemma {:induction false} FeedStrikes(p: Parser, chunks: seq<string>)
    requires !p.Finished()
    ensures FeedAll(p, chunks, true).outcome == Failed(HeaderBufferExceeded)
       <==> exists k :: 0 <= k < |chunks| && StrikesFed(p, chunks, k)
    decreases |chunks|
  {
    hide Run;
    if chunks != [] {
      var q, others := p.Append(chunks[0]), chunks[1..];
      RunNeverExceeds(q);
      EndedIsObservable(q);
      assert chunks[..0] == [];
      assert StrikesFed(p, chunks, 0) <==> |q.buffer| > HEADER_BUFFER_MAX;
      forall k | 0 < k < |chunks|
        ensures StrikesFed(p, chunks, k)
           <==> Feed(p, chunks[0]).outcome.NeedMore? && StrikesFed(Feed(p, chunks[0]).parser, others, k - 1)
      {
        assert chunks[..k][0] == chunks[0] && chunks[..k][1..] == others[..k - 1];
      }
      if Feed(p, chunks[0]).outcome.NeedMore? {
        var next := Feed(p, chunks[0]).parser;
        FeedStrikes(next, others);
        if i :| 0 <= i < |others| && StrikesFed(next, others, i) {
          assert StrikesFed(p, chunks, i + 1);
        }
      }
    }
  }

  lemma {:induction false} FailedFeedStays(p: Parser, chunks: seq<string>, k: nat)
    requires k <= |chunks| && FeedAll(p, chunks[..k], true).outcome.Failed?
    ensures FeedAll(p, chunks, true).outcome == FeedAll(p, chunks[..k], true).outcome
    decreases |chunks|
  {
    hide Feed;
    if k > 0 && !p.Finished() {
      assert chunks[..k][0] == chunks[0] && chunks[..k][1..] == chunks[1..][..k - 1];
      if Feed(p, chunks[0]).outcome.NeedMore? {
        FailedFeedStays(Feed(p, chunks[0]).parser, chunks[1..], k - 1);
      }
    }
  }

  /** The head is neither complete nor refused in the bytes before read k, and what of them is not
      consumed is, together with read k, more than the limit. This speaks of bytes and cuts alone. */
  predicate Strikes(chunks: seq<string>, k: nat)
    requires k < |chunks|
  {
    var run := Run(INITIAL.Append(Concat(chunks[..k])));
    run.outcome.NeedMore? && |run.parser.buffer| + |chunks[k]| > 4096
  }

  ghost predicate LimitStrikes(chunks: seq<string>) {
    exists k :: 0 <= k < |chunks| && Strikes(chunks, k)
  }

  /** The size error ends the reading of a stream exactly when the limit strikes at some read. */
  lemma LimitStrikesExactly(chunks: seq<string>)
    ensures FeedAll(INITIAL, chunks, true).outcome == Failed(HeaderBufferExceeded) <==> LimitStrikes(chunks)
  {
    hide Run, FeedAll;
    FeedStrikes(INITIAL, chunks);
    forall k | 0 <= k < |chunks|
      ensures StrikesFed(INITIAL, chunks, k) ==> Strikes(chunks, k)
      ensures Strikes(chunks, k) ==>
                StrikesFed(INITIAL, chunks, k) || FeedAll(INITIAL, chunks, true).outcome == Failed(HeaderBufferExceeded)
    {
      var before := chunks[..k];
      FeedingIsRunning(before);
      if FeedAll(INITIAL, before, true).outcome == Failed(HeaderBufferExceeded) {
        FailedFeedStays(INITIAL, chunks, k);
      } else {
        LimitUnnoticed(INITIAL, before);
      }
    }
  }

  /** Two ways of cutting the same stream come to the same outcome exactly when the limit strikes in
      both or in neither; in the second case header and leftover are the same, too. */
  lemma CutsAgreeExactly(a: seq<string>, b: seq<string>)
    requires a != [] && b != [] && Concat(a) == Concat(b)
    ensures FeedAll(INITIAL, a, true).outcome == FeedAll(INITIAL, b, true).outcome
       <==> (LimitStrikes(a) <==> LimitStrikes(b))
    ensures !LimitStrikes(a) && !LimitStrikes(b) ==>
              FeedAll(INITIAL, a, true).Rest().Observable() == FeedAll(INITIAL, b, true).Rest().Observable()
  {
    hide FeedAll, LimitStrikes;
    LimitStrikesExactly(a);
    LimitStrikesExactly(b);
    if !LimitStrikes(a) && !LimitStrikes(b) {
      ChunkingIrrelevant(INITIAL, a, b);
    }
  }

  // ----- what every feed keeps

  ghost predicate IsTail(t: string, s: string) {
    exists consumed :: s == consumed + t
  }

  lemma DropIsTail(s: string, i: nat)
    requires i <= |s|
    ensures IsTail(s[i..], s)
  {
    assert s == s[..i] + s[i..];
  }

  lemma TailOfTail(a: string, b: string, c: string)
    requires IsTail(a, b) && IsTail(b, c)
    ensures IsTail(a, c) && |a| <= |c|
  {
    var x :| b == x + a;
    var y :| c == y + b;
    assert c == (y + x) + a;
  }

  lemma FieldStepKeepsTail(p: Parser)
    requires p.progress.Fields?
    ensures IsTail(StepField(p).parser.buffer, p.buffer)
    ensures StepField(p).parser.progress.Fields? || StepField(p).parser.progress.Body?
  {
    hide LineEnd, AddField, IsTail;
    assert p.buffer == p.buffer[0..];
    DropIsTail(p.buffer, 0);
    if LineEnd(p.buffer) < |p.buffer| {
      DropIsTail(p.buffer, LineEnd(p.buffer) + 2);
    }
  }

  lemma WordStepKeepsTail(p: Parser)
    requires p.progress.Rank() < ProtocolAndVersionPhase2.Rank()
    ensures IsTail(Step(p).parser.buffer, p.buffer)
  {
    hide WordEnd, Find, IsTail;
    var s, end, left := p.buffer, WordEnd(p.buffer), Step(p).parser.buffer;
    assert left == s[0..] || left == s[end..] || (end < |s| && left == s[end + 1..]);
    DropIsTail(s, 0);
    DropIsTail(s, end);
    if end < |s| {
      DropIsTail(s, end + 1);
    }
  }

  lemma StepKeepsTail(p: Parser)
    requires !p.Finished()
    ensures IsTail(Step(p).parser.buffer, p.buffer)
    ensures p.progress.Rank() <= Step(p).parser.progress.Rank()
  {
    hide WordEnd, LineEnd, StepField, IsTail;
    match p.progress
    case Fields => FieldStepKeepsTail(p);
    case ProtocolAndVersionPhase2 =>
      DropIsTail(p.buffer, 0);
      if LineEnd(p.buffer) < |p.buffer| {
        DropIsTail(p.buffer, LineEnd(p.buffer) + 2);
      }
    case _ => WordStepKeepsTail(p);
  }

  /** Nothing is lost or made up: what is left in the buffer is the tail of what was there,
      and progress never goes back. */
  lemma {:induction false} RunConserves(p: Parser)
    ensures IsTail(Run(p).parser.buffer, p.buffer)
    ensures p.progress.Rank() <= Run(p).parser.progress.Rank()
    decreases |p.buffer|
  {
    DropIsTail(p.buffer, 0);
    if !p.Finished() {
      StepKeepsTail(p);
      if Step(p).Advance? {
        RunConserves(Step(p).parser);
        TailOfTail(Run(p).parser.buffer, Step(p).parser.buffer, p.buffer);
      }
    }
  }

  /** Every stored field was counted. */
  predicate FieldsCounted(p: Parser) {
    |p.header.fields| <= p.fieldCount <= HEADER_FIELD_MAX
  }

  lemma StepCountsFields(p: Parser)
    requires !p.Finished() && FieldsCounted(p)
    ensures FieldsCounted(Step(p).parser)
  {
    hide LineEnd, WordEnd, Find, AddField;
    if p.progress.Fields? && LineEnd(p.buffer) < |p.buffer| {
      AddFieldGrows(p.header, p.buffer[..LineEnd(p.buffer)]);
    }
  }

  /** No more than 256 fields are ever stored. */
  lemma {:induction false} RunCountsFields(p: Parser)
    requires FieldsCounted(p)
    ensures FieldsCounted(Run(p).parser)
    decreases |p.buffer|
  {
    if !p.Finished() {
      StepCountsFields(p);
      if Step(p).Advance? {
        RunCountsFields(Step(p).parser);
      }
    }
  }

  lemma AddFieldGrows(h: Header, line: string)
    ensures var r := AddField(h, line); r.Field? ==> |r.header.fields| <= |h.fields| + 1
  {
    hide TrimLeft, TrimRight, Find, Lower, ParseCookies;
    var colon := Find(line, ':');
    if colon < |line| {
      InsertGrowsByOne(h.fields, TrimRight(line[..colon]), TrimLeft(line[colon + 1..]));
    }
  }

  lemma InsertGrowsByOne(m: map<string, string>, k: string, v: string)
    ensures |m[k := v]| <= |m| + 1
  {
    assert m[k := v].Keys == m.Keys + {k};
  }

  lemma TailGrows(a: string, b: string, more: string)
    requires IsTail(a, b)
    ensures IsTail(a + more, b + more)
  {
    var x :| b == x + a;
    assert b + more == x + (a + more);
  }

  lemma FeedKeeps(p: Parser, chunk: string, limited: bool)
    requires FieldsCounted(p)
    ensures var q := (if limited then Feed(p, chunk) else FeedUnlimited(p, chunk)).parser;
            && FieldsCounted(q) && p.progress.Rank() <= q.progress.Rank()
            && (!p.Finished() ==> IsTail(q.buffer, p.buffer + chunk))
  {
    hide Run, IsTail;
    RunConserves(p.Append(chunk));
    RunCountsFields(p.Append(chunk));
    DropIsTail(p.buffer + chunk, 0);
  }

  /** Over any sequence of reads, with or without the limit: what is not consumed, in the buffer and
      in the reads not made, is a tail of everything there was. */
  lemma {:induction false} FeedAllKeeps(p: Parser, chunks: seq<string>, limited: bool)
    requires FieldsCounted(p)
    ensures var reading := FeedAll(p, chunks, limited);
            && IsTail(reading.Rest().buffer, p.buffer + Concat(chunks))
            && FieldsCounted(reading.parser) && p.progress.Rank() <= reading.parser.progress.Rank()
    decreases |chunks|
  {
    hide Feed, FeedUnlimited, IsTail;
    DropIsTail(p.buffer + Concat(chunks), 0);
    if !p.Finished() && chunks != [] {
      var r, more := if limited then Feed(p, chunks[0]) else FeedUnlimited(p, chunks[0]), Concat(chunks[1..]);
      FeedKeeps(p, chunks[0], limited);
      TailGrows(r.parser.buffer, p.buffer + chunks[0], more);
      assert p.buffer + chunks[0] + more == p.buffer + Concat(chunks);
      if r.outcome.NeedMore? {
        FeedAllKeeps(r.parser, chunks[1..], limited);
        TailOfTail(FeedAll(p, chunks, limited).Rest().buffer, r.parser.buffer + more, p.buffer + Concat(chunks));
      }
    }
  }

  /** A whole stream from the start, cut in any way and refused or not: the bytes consumed, the buffer
      and the reads not made are together the bytes sent, and at most 256 fields are stored. */
  lemma StreamConserves(chunks: seq<string>, limited: bool)
    ensures var reading := FeedAll(INITIAL, chunks, limited);
            && (exists consumed :: Concat(chunks) == consumed + reading.parser.buffer + Concat(reading.unfed))
            && |reading.parser.header.fields| <= reading.parser.fieldCount <= 256
  {
    hide FeedAll, Concat;
    FeedAllKeeps(INITIAL, chunks, limited);
    var reading := FeedAll(INITIAL, chunks, limited);
    assert INITIAL.buffer + Concat(chunks) == Concat(chunks);
    var consumed :| Concat(chunks) == consumed + reading.Rest().buffer;
    assert Concat(chunks) == consumed + reading.parser.buffer + Concat(reading.unfed);
  }

  /** A stream of at most 4096 bytes never meets the size limit, however it is cut. */
  lemma {:induction false} SmallStreamsFit(p: Parser, chunks: seq<string>)
    requires |p.buffer| + |Concat(chunks)| <= HEADER_BUFFER_MAX
    ensures FeedAll(p, chunks, true).outcome != Failed(HeaderBufferExceeded)
    decreases |chunks|
  {
    if !p.Finished() && chunks != [] {
      var q := p.Append(chunks[0]);
      assert Feed(p, chunks[0]) == Run(q);
      RunConserves(q);
      RunNeverExceeds(q);
      if Run(q).outcome.NeedMore? {
        SmallStreamsFit(Run(q).parser, chunks[1..]);
      }
    }
  }

  lemma {:induction false} RunNeverExceeds(p: Parser)
    ensures Run(p).outcome != Failed(HeaderBufferExceeded)
    decreases |p.buffer|
  {
    hide WordEnd, LineEnd, Find;
    if !p.Finished() && Step(p).Advance? {
      RunNeverExceeds(Step(p).parser);
    }
  }

  /** Feeding a stream of at most 4096 bytes in pieces is the same as feeding it whole. */
  lemma SmallStreamChunking(chunks: seq<string>)
    requires chunks != [] && |Concat(chunks)| <= 4096
    ensures var split, whole := FeedAll(INITIAL, chunks, true), Feed(INITIAL, Concat(chunks));
            && split.outcome == whole.outcome
            && split.Rest().Observable() == whole.parser.Observable()
            && (whole.outcome.Finished? ==> split.Rest() == whole.parser)
  {
    SmallStreamsFit(INITIAL, chunks);
    LimitUnnoticed(INITIAL, chunks);
    SplitEqualsWhole(INITIAL, chunks);
    FeedOne(INITIAL, Concat(chunks));
    EndedIsObservable(INITIAL.Append(Concat(chunks)));
  }

  /** Once the word of the verb or the url has been taken, a byte is left for the separator test,
      so that test never waits for input: it passes, or it holds the parser there for good. */
  lemma SeparatorIsPresent(p: Parser, more: string)
    requires (p.progress.Verb? || p.progress.Url?) && WordEnd(p.buffer) < |p.buffer|
    ensures p.buffer[WordEnd(p.buffer)..] != []
    ensures p.buffer[WordEnd(p.buffer)] == ' ' <==> Step(p).Advance?
    ensures p.buffer[WordEnd(p.buffer)] == '\r' ==>
              var parked := Step(p).parser;
              var later := Run(parked.Append(more));
              later.outcome.NeedMore? && later.parser.buffer == parked.buffer + more
  {
    var q := Step(p).parser;
    if Step(p).Stuck? {
      WordEndIs(q.buffer + more, 0);
      assert (q.buffer + more)[0..] == q.buffer + more;
    }
  }
}
