/** What ends up in the sink of a request whose body is read. */
module BodyDelivery {
  import opened Config
  import opened Strings
  import opened RequestSyntax
  import opened RequestChunking
  import opened RequestReading
  import UrlSyntax

  /** The bytes of the deliveries, in order. */
  function Bytes(events: seq<Delivery>): string {
    if events == [] then []
    else (if events[0].Data? then events[0].bytes else []) + Bytes(events[1..])
  }

  lemma {:induction false} BytesOfReads(chunks: seq<string>)
    ensures Bytes(Reads(chunks)) == Concat(chunks)
    decreases |chunks|
  {
    if chunks != [] {
      assert Reads(chunks)[1..] == Reads(chunks[1..]);
      BytesOfReads(chunks[1..]);
    }
  }

  predicate NoneEmpty(chunks: seq<string>) {
    forall i :: 0 <= i < |chunks| ==> chunks[i] != []
  }

  // ----- the head

  /** Until the head is complete, deliveries are feeds; then the body is started with what is left. */
  lemma {:induction false} HeadPhaseFeeds(r: Reader, chunks: seq<string>, max: nat)
    requires Valid(r) && r.pending > 0 && r.phase.HeadPhase? && max < TWO_TO_64
    requires FeedAll(r.parser, chunks, true).outcome.Finished?
    ensures var fed := FeedAll(r.parser, chunks, true);
            var begun := r.(parser := fed.parser, pending := 0);
            UrlSyntax.Parse(fed.parser.header.url).Some? ==>
              && Valid(StartBody(begun, max))
              && Process(r, Reads(chunks), max) == Process(StartBody(begun, max), Reads(fed.unfed), max)
    decreases |chunks|
  {
    hide Feed, StartBody, UrlSyntax.Parse, ContentLength;
    var events := Reads(chunks);
    assert events[1..] == Reads(chunks[1..]);
    var fed := Feed(r.parser, chunks[0]);
    EndedIsObservable(r.parser.Append(chunks[0]));
    DeliverIsValid(r, events[0], max);
    var next := Deliver(r, events[0], max);
    match fed.outcome
    case NeedMore =>
      HeadPhaseFeeds(next, chunks[1..], max);
    case Finished =>
      StartBodyIsValid(r.(parser := fed.parser, pending := 0), max);
    case Failed(_) =>
  }

  /** A head that is malformed or exceeds a limit is answered with 400; nothing more is read, and
      the sink and the promise are left alone. */
  lemma {:induction false} BadHeadIsRefused(r: Reader, chunks: seq<string>, max: nat)
    requires Valid(r) && r.pending > 0 && r.phase.HeadPhase? && max < TWO_TO_64
    requires FeedAll(r.parser, chunks, true).outcome.Failed?
    ensures var fed := FeedAll(r.parser, chunks, true);
            var refused := r.(parser := fed.parser, pending := 0, replies := [400]);
            Process(r, Reads(chunks), max) == Reached(refused, Reads(fed.unfed))
    decreases |chunks|
  {
    hide Feed, StartBody, UrlSyntax.Parse, ContentLength;
    var events := Reads(chunks);
    assert events[1..] == Reads(chunks[1..]);
    var fed := Feed(r.parser, chunks[0]);
    DeliverIsValid(r, events[0], max);
    if fed.outcome.NeedMore? {
      BadHeadIsRefused(Deliver(r, events[0], max), chunks[1..], max);
    }
  }

  /** A head that is complete but whose url cannot be decoded is answered with 400 as well. */
  lemma {:induction false} BadUrlIsRefused(r: Reader, chunks: seq<string>, max: nat)
    requires Valid(r) && r.pending > 0 && r.phase.HeadPhase? && max < TWO_TO_64
    requires var fed := FeedAll(r.parser, chunks, true);
             fed.outcome.Finished? && UrlSyntax.Parse(fed.parser.header.url).None?
    ensures var fed := FeedAll(r.parser, chunks, true);
            var refused := r.(parser := fed.parser, pending := 0, replies := [400]);
            Process(r, Reads(chunks), max) == Reached(refused, Reads(fed.unfed))
    decreases |chunks|
  {
    hide Feed, StartBody, UrlSyntax.Parse, ContentLength;
    var events := Reads(chunks);
    assert events[1..] == Reads(chunks[1..]);
    var fed := Feed(r.parser, chunks[0]);
    EndedIsObservable(r.parser.Append(chunks[0]));
    DeliverIsValid(r, events[0], max);
    if fed.outcome.NeedMore? {
      BadUrlIsRefused(Deliver(r, events[0], max), chunks[1..], max);
    }
  }

  /** A read that fails ends the request, whatever else the socket would deliver: the sink keeps what
      it has. During the head the connection is given up and the promise is left alone; during the
      body the promise fails, once, and the response is ended unless the read was aborted. */
  lemma ReadErrorEnds(r: Reader, aborted: bool, events: seq<Delivery>, max: nat)
    requires Valid(r) && r.pending > 0 && max < TWO_TO_64
    ensures var s := Process(r, [ReadError(aborted)] + events, max);
            && s.unread == events && s.reader.pending == 0 && s.reader.fulfilled == 0 && s.reader.replies == []
            && s.reader.sink == r.sink && s.reader.written == r.written && s.reader.parser == r.parser
            && (r.phase.HeadPhase? ==> s.reader.failed == 0 && s.reader.closed == 1)
            && (r.phase.BodyPhase? ==> s.reader.failed == 1 && s.reader.closed == if aborted then 0 else 1)
  {
    hide ContentLength;
    var all := [ReadError(aborted)] + events;
    assert all[0] == ReadError(aborted) && all[1..] == events;
    DeliverIsValid(r, all[0], max);
  }

  /** Without a Content-Length field, and only then, the body is refused with 411. */
  lemma MissingLengthIsRefused(r: Reader, max: nat)
    requires max < TWO_TO_64 && r.pending == r.fulfilled == r.failed == 0
    ensures var s := StartBody(r, max);
            && (s.replies == r.replies + [411] <==> "Content-Length" !in r.parser.header.fields)
            && (s.failed == 1 <==> "Content-Length" !in r.parser.header.fields)
            && ("Content-Length" !in r.parser.header.fields ==> s.pending == 0 && s.sink == r.sink && s.parser == r.parser)
  {
    hide Atoll;
    assert |r.replies + [411]| != |r.replies|;
  }

  // ----- which reads reach the sink

  /** The bytes in the sink when k reads have followed `first` bytes. */
  function Upto(first: nat, chunks: seq<string>, k: nat): nat
    requires k <= |chunks|
  {
    first + |Concat(chunks[..k])|
  }

  lemma {:induction false} UptoGrows(first: nat, chunks: seq<string>, j: nat, k: nat)
    requires j <= k <= |chunks|
    ensures Upto(first, chunks, j) <= Upto(first, chunks, k)
  {
    assert chunks[..k] == chunks[..j] + chunks[j..k];
    ConcatAppend(chunks[..j], chunks[j..k]);
  }

  lemma UptoShifts(first: nat, chunks: seq<string>, k: nat)
    requires 0 < k <= |chunks|
    ensures Concat(chunks[..k]) == chunks[0] + Concat(chunks[1..][..k - 1])
    ensures Upto(first, chunks, k) == Upto(first + |chunks[0]|, chunks[1..], k - 1)
  {
    assert chunks[..k][1..] == chunks[1..][..k - 1];
  }

  predicate BelowLimit(max: nat, written: nat)
    requires max < TWO_TO_64
  {
    max == 0 || written < ToSigned(max)
  }

  /** Read k of the body handler is written: the limit is not reached, and the reads before it did
      not complete the body. The first read was started before, whatever the announced length. */
  predicate Written(n: nat, max: nat, first: nat, chunks: seq<string>, k: nat)
    requires n < TWO_TO_64 && max < TWO_TO_64 && k < |chunks|
  {
    var before := Upto(first, chunks, k);
    BelowLimit(max, before) && (k == 0 || before < ToSigned(n))
  }

  /** How a sequence of reads ends. */
  predicate Ends(s: Reached, chunks: seq<string>, m: nat, open: bool, below: bool)
    requires m <= |chunks|
  {
    && s.reader.pending == (if m == |chunks| && open then 1 else 0)
    && s.reader.fulfilled == 1 - s.reader.pending && s.reader.failed == 0 && s.reader.replies == []
    // the read that finds the limit reached is answered, but not written
    && s.unread == Reads(if m < |chunks| && open && !below then chunks[m + 1..] else chunks[m..])
  }

  lemma NoReads(chunks: seq<string>)
    ensures chunks[..0] == [] && chunks[0..] == chunks && Concat<char>([]) == []
  {}

  /** One read of the body: refused at the limit, the last one, or one of more. */
  lemma OneRead(r: Reader, bytes: string)
    requires Valid(r) && r.phase.BodyPhase? && r.pending > 0
    ensures var n, after := ContentLength(r.parser.header).value, r.written + |bytes|;
            var taken := r.(sink := r.sink + bytes, written := after);
            Deliver(r, Data(bytes), r.maxRead)
            == (if !BelowLimit(r.maxRead, r.written) then r.(pending := 0, fulfilled := 1)
                else if after < ToSigned(n) then taken
                else taken.(pending := 0, fulfilled := 1))
  {
    hide ContentLength;
  }

  /** While the body is read, the sink gets exactly the first m reads, those that are `Written`. */
  lemma {:induction false} BodyReads(r: Reader, chunks: seq<string>) returns (m: nat)
    requires Valid(r) && r.phase.BodyPhase? && r.pending > 0
    ensures m <= |chunks|
    ensures var n := ContentLength(r.parser.header).value;
            forall k :: 0 <= k < |chunks| ==> (Written(n, r.maxRead, r.written, chunks, k) <==> k < m)
    ensures var s, n, after := Process(r, Reads(chunks), r.maxRead), ContentLength(r.parser.header).value,
                               Upto(r.written, chunks, m);
            && s.reader.sink == r.sink + Concat(chunks[..m]) && s.reader.written == after
            && s.reader.parser == r.parser
            && Ends(s, chunks, m, m == 0 || after < ToSigned(n), BelowLimit(r.maxRead, after))
    decreases |chunks|
  {
    hide ContentLength, Written, Deliver, Concat;
    var n, max, events := ContentLength(r.parser.header).value, r.maxRead, Reads(chunks);
    NoReads(chunks);
    assert r.sink + [] == r.sink;
    if chunks == [] {
      m := 0;
    } else {
      assert events[1..] == Reads(chunks[1..]);
      DeliverIsValid(r, events[0], max);
      OneRead(r, chunks[0]);
      var next := Deliver(r, events[0], max);
      if !BelowLimit(max, r.written) {
        m := 0;
        assert Process(next, events[1..], max) == Reached(next, events[1..]);
        LimitStaysReached(n, max, r.written, chunks);
      } else {
        ConcatOne(chunks[0]);
        assert chunks[..1] == [chunks[0]];
        if next.pending == 0 {
          m := 1;
          assert Process(next, events[1..], max) == Reached(next, events[1..]);
          BodyStaysComplete(n, max, r.written, chunks);
        } else {
          var i := BodyReads(next, chunks[1..]);
          m := i + 1;
          WrittenShifts(n, max, r.written, chunks, next.written, chunks[1..], i);
          UptoShifts(r.written, chunks, m);
          assert (r.sink + chunks[0]) + Concat(chunks[1..][..i]) == r.sink + Concat(chunks[..m]);
          assert i < |chunks[1..]| ==> chunks[1..][i + 1..] == chunks[m + 1..];
          assert chunks[1..][i..] == chunks[m..];
        }
      }
    }
  }

  lemma LimitStaysReached(n: nat, max: nat, first: nat, chunks: seq<string>)
    requires n < TWO_TO_64 && max < TWO_TO_64 && !BelowLimit(max, first)
    ensures forall k :: 0 <= k < |chunks| ==> !Written(n, max, first, chunks, k)
  {
    forall k | 0 <= k < |chunks|
      ensures !Written(n, max, first, chunks, k)
    {
      UptoGrows(first, chunks, 0, k);
    }
  }

  lemma BodyStaysComplete(n: nat, max: nat, first: nat, chunks: seq<string>)
    requires n < TWO_TO_64 && max < TWO_TO_64 && chunks != []
    requires BelowLimit(max, first) && Upto(first, chunks, 1) >= ToSigned(n)
    ensures forall k :: 0 <= k < |chunks| ==> (Written(n, max, first, chunks, k) <==> k < 1)
  {
    forall k | 0 <= k < |chunks|
      ensures Written(n, max, first, chunks, k) <==> k < 1
    {
      if k > 0 {
        UptoGrows(first, chunks, 1, k);
      } else {
        assert chunks[..0] == [];
      }
    }
  }

  lemma WrittenShifts(n: nat, max: nat, first: nat, chunks: seq<string>, next: nat, rest: seq<string>, i: nat)
    requires n < TWO_TO_64 && max < TWO_TO_64
    requires chunks != [] && rest == chunks[1..] && next == first + |chunks[0]|
    requires BelowLimit(max, first) && Upto(first, chunks, 1) < ToSigned(n)
    requires forall k :: 0 <= k < |rest| ==> (Written(n, max, next, rest, k) <==> k < i)
    ensures forall k :: 0 <= k < |chunks| ==> (Written(n, max, first, chunks, k) <==> k < i + 1)
  {
    forall k | 0 <= k < |chunks|
      ensures Written(n, max, first, chunks, k) <==> k < i + 1
    {
      if k == 0 {
        assert chunks[..0] == [];
      } else {
        UptoShifts(first, chunks, k);
        if k == 1 {
          assert Upto(next, rest, 0) == next;
        }
        assert Written(n, max, next, rest, k - 1) <==> k - 1 < i;
      }
    }
  }

  // ----- from the end of the head

  /** Whether body_read_start goes on to read when `first` bytes came with the head. The subtraction
      of the two sizes is unsigned, so a surplus counts as something missing. */
  predicate Opens(n: nat, max: nat, first: nat)
    requires n < TWO_TO_64
  {
    (max == 0 || first < max) && if first > 0 then n != first else 0 < ToSigned(n)
  }

  /** Read k behind the head reaches the sink. */
  predicate Taken(n: nat, max: nat, first: nat, chunks: seq<string>, k: nat)
    requires n < TWO_TO_64 && max < TWO_TO_64 && k < |chunks|
  {
    Opens(n, max, first) && Written(n, max, first, chunks, k)
  }

  /** What of the bytes behind the head is taken over at once. */
  function AtOnce(buffer: string, max: nat): string {
    if max != 0 && max < |buffer| then buffer[..max] else buffer
  }

  lemma StartsReading(r: Reader, max: nat)
    requires r.pending == r.fulfilled == r.failed == r.closed == 0 && r.replies == []
    requires max < TWO_TO_64 && |r.parser.buffer| < TWO_TO_64 && ContentLength(r.parser.header).Some?
    ensures var s, n, first := StartBody(r, max), ContentLength(r.parser.header).value, |r.parser.buffer|;
            && s.sink == r.sink + AtOnce(r.parser.buffer, max) && s.written == |AtOnce(r.parser.buffer, max)|
            && s.phase.BodyPhase? && s.maxRead == max && s.parser.header == r.parser.header
            && s.failed == 0 && s.replies == []
            && s.pending == (if Opens(n, max, first) then 1 else 0) && s.fulfilled == 1 - s.pending
  {
    hide ContentLength;
    var buffer, n := r.parser.buffer, ContentLength(r.parser.header).value;
    assert buffer[..|buffer|] == buffer && r.sink + [] == r.sink;
    DifferenceIsZero(n, |buffer|);
  }

  lemma DifferenceIsZero(a: nat, b: nat)
    requires a < TWO_TO_64 && b < TWO_TO_64
    ensures Minus(a, b) == 0 <==> a == b
  {
    if a >= b {
      assert Minus(a, b) == a - b;
    } else {
      assert Minus(a, b) == a - b + TWO_TO_64;
    }
  }

  /** Every run of successful reads from the end of the head, for every announced length, limit and
      way of cutting: the sink gets the bytes that came with the head, up to the limit, and then
      exactly the first m reads, those that are `Taken`; and this is how the run ends. */
  lemma BodyRun(r: Reader, chunks: seq<string>, max: nat) returns (m: nat)
    requires r.pending == r.fulfilled == r.failed == r.closed == 0 && r.replies == []
    requires max < TWO_TO_64 && |r.parser.buffer| < TWO_TO_64 && ContentLength(r.parser.header).Some?
    ensures Valid(StartBody(r, max)) && m <= |chunks|
    ensures var n := ContentLength(r.parser.header).value;
            forall k :: 0 <= k < |chunks| ==> (Taken(n, max, |r.parser.buffer|, chunks, k) <==> k < m)
    ensures var s, n, first := Process(StartBody(r, max), Reads(chunks), max),
                               ContentLength(r.parser.header).value, AtOnce(r.parser.buffer, max);
            var after := Upto(|first|, chunks, m);
            && s.reader.sink == r.sink + first + Concat(chunks[..m]) && s.reader.written == after
            && s.reader.parser.header == r.parser.header
            && Ends(s, chunks, m, Opens(n, max, |r.parser.buffer|) && (m == 0 || after < ToSigned(n)),
                    BelowLimit(max, after))
  {
    hide ContentLength, StartBody, Deliver;
    StartBodyIsValid(r, max);
    StartsReading(r, max);
    var s := StartBody(r, max);
    if s.pending > 0 {
      m := BodyReads(s, chunks);
    } else {
      m := 0;
      assert chunks[..0] == [] && chunks[0..] == chunks && s.sink + [] == s.sink;
    }
  }

  // ----- head and body together

  /** Some read brings the end of the head; until then the parser waits, and with that read it has
      the bytes behind the head in its buffer. */
  lemma {:induction false} FeedAllStops(p: Parser, chunks: seq<string>) returns (j: nat)
    requires !p.Finished() && FeedAll(p, chunks, false).outcome.Finished?
    ensures 0 < j <= |chunks| && FeedAll(p, chunks, false).unfed == chunks[j..]
    ensures FeedAll(p, chunks[..j - 1], false).outcome.NeedMore?
    ensures FeedAll(p, chunks[..j], false) == FeedAll(p, chunks, false).(unfed := [])
    decreases |chunks|
  {
    hide Run;
    var r := FeedUnlimited(p, chunks[0]);
    EndedIsObservable(p.Append(chunks[0]));
    if r.outcome.Finished? {
      j := 1;
    } else {
      var i := FeedAllStops(r.parser, chunks[1..]);
      j := i + 1;
      assert chunks[1..][i..] == chunks[j..];
      assert chunks[..j][1..] == chunks[1..][..i];
      assert i > 0 ==> chunks[..i][1..] == chunks[1..][..i - 1];
    }
  }

  /** A whole head is in the text exactly when a run over the text finishes. */
  lemma HeadIsRead(head: string, p: Parser, rest: string, cut: nat)
    requires Run(INITIAL.Append(head)) == Result(p, Finished) && p.buffer == [] && cut <= |head + rest|
    ensures var r, t := Run(INITIAL.Append((head + rest)[..cut])), (head + rest)[..cut];
            && (r.outcome.Finished? <==> |head| <= cut)
            && (|head| <= cut ==> r.parser == p.Append(t[|head|..]))
  {
    hide Run;
    var t := (head + rest)[..cut];
    if |head| <= cut {
      assert t == head + t[|head|..];
      RunResumes(INITIAL.Append(head), t[|head|..]);
      assert INITIAL.Append(head).Append(t[|head|..]) == INITIAL.Append(t);
    } else {
      var missing := head[cut..];
      assert t + missing == head && missing != [];
      RunResumes(INITIAL.Append(t), missing);
      assert INITIAL.Append(t).Append(missing) == INITIAL.Append(head);
    }
  }

  /** Feeding the reads of a request stops with the read that brings the end of the head. */
  lemma HeadEndsInRead(head: string, p: Parser, rest: string, chunks: seq<string>) returns (j: nat)
    requires Run(INITIAL.Append(head)) == Result(p, Finished) && p.buffer == []
    requires Concat(chunks) == head + rest
    requires !LimitStrikes(chunks)
    ensures 0 < j <= |chunks| && |Concat(chunks[..j - 1])| < |head| <= |Concat(chunks[..j])|
    ensures FeedAll(INITIAL, chunks, true)
         == Reading(p.Append(Concat(chunks[..j])[|head|..]), Finished, chunks[j..])
  {
    hide Run, FeedAll, LimitStrikes;
    LimitStrikesExactly(chunks);
    HeadIsRead(head, p, rest, 0);
    HeadIsRead(head, p, rest, |head + rest|);
    assert (head + rest)[..|head + rest|] == head + rest;
    NothingRunsOn();
    LimitUnnoticed(INITIAL, chunks);
    FedIsRun(chunks);
    j := FeedAllStops(INITIAL, chunks);
    ConcatIsPrefix(chunks, j);
    FedIsRun(chunks[..j]);
    HeadIsRead(head, p, rest, |Concat(chunks[..j])|);
    if j > 1 {
      ConcatIsPrefix(chunks, j - 1);
      FedIsRun(chunks[..j - 1]);
      HeadIsRead(head, p, rest, |Concat(chunks[..j - 1])|);
    }
  }

  lemma NothingRunsOn()
    ensures !Run(INITIAL.Append([])).outcome.Finished?
  {}

  /** Feeding reads one by one, as far as the outcome goes, is a run over all of them. */
  lemma FedIsRun(chunks: seq<string>)
    requires chunks != []
    ensures var fed, run := FeedAll(INITIAL, chunks, false), Run(INITIAL.Append(Concat(chunks)));
            && fed.outcome == run.outcome
            && (fed.outcome.Finished? && fed.unfed == [] ==> fed.parser == run.parser)
  {
    hide Run;
    SplitEqualsWhole(INITIAL, chunks);
    FeedOne(INITIAL, Concat(chunks));
    EndedIsObservable(INITIAL.Append(Concat(chunks)));
    FinishedFeedIsObservable(INITIAL, chunks);
    var fed := FeedAll(INITIAL, chunks, false);
    assert fed.unfed == [] ==> fed.parser.buffer + [] == fed.parser.buffer;
  }

  lemma {:induction false} FinishedFeedIsObservable(p: Parser, chunks: seq<string>)
    ensures FeedAll(p, chunks, false).outcome.Finished? ==> FeedAll(p, chunks, false).parser.Finished()
    decreases |chunks|
  {
    hide Run;
    if !p.Finished() && chunks != [] {
      EndedIsObservable(p.Append(chunks[0]));
      if Run(p.Append(chunks[0])).outcome.NeedMore? {
        FinishedFeedIsObservable(Run(p.Append(chunks[0])).parser, chunks[1..]);
      }
    }
  }

  lemma ConcatIsPrefix(chunks: seq<string>, k: nat)
    requires k <= |chunks|
    ensures |Concat(chunks[..k])| <= |Concat(chunks)| && Concat(chunks[..k]) == Concat(chunks)[..|Concat(chunks[..k])|]
    ensures Concat(chunks) == Concat(chunks[..k]) + Concat(chunks[k..])
  {
    assert chunks == chunks[..k] + chunks[k..];
    ConcatAppend(chunks[..k], chunks[k..]);
  }

  lemma ConcatGrows(chunks: seq<string>, j: nat, k: nat)
    requires j <= k <= |chunks|
    ensures Concat(chunks[..k]) == Concat(chunks[..j]) + Concat(chunks[j..][..k - j])
  {
    assert chunks[..k] == chunks[..j] + chunks[j..][..k - j];
    ConcatAppend(chunks[..j], chunks[j..][..k - j]);
  }

  /** The read that brings the last byte of the head also brings bytes behind the announced body. */
  predicate EndsTogether(head: string, body: string, chunks: seq<string>, k: nat)
    requires 0 < k <= |chunks|
  {
    |Concat(chunks[..k - 1])| < |head| && |Concat(chunks[..k])| > |head + body|
  }

  /** A run over a stream that begins with a whole head: read j ends the head, and the m reads
      behind it are those that are `Taken`. */
  lemma StreamRun(head: string, p: Parser, rest: string, chunks: seq<string>, target: string) returns (j: nat, m: nat)
    requires Run(INITIAL.Append(head)) == Result(p, Finished) && p.buffer == []
    requires UrlSyntax.Parse(p.header.url).Some? && ContentLength(p.header).Some?
    requires Concat(chunks) == head + rest
    requires !LimitStrikes(chunks)
    ensures 0 < j <= |chunks| && |Concat(chunks[..j - 1])| < |head| <= |Concat(chunks[..j])|
    ensures m <= |chunks| - j && |head| <= |Concat(chunks[..j + m])|
    ensures var n, behind, first := ContentLength(p.header).value, chunks[j..], |Concat(chunks[..j])| - |head|;
            forall i :: 0 <= i < |behind| ==> (Taken(n, 0, first, behind, i) <==> i < m)
    ensures var s, n, first := Process(Start(target), Reads(chunks), 0), ContentLength(p.header).value,
                               |Concat(chunks[..j])| - |head|;
            var after := |Concat(chunks[..j + m])| - |head|;
            && s.reader.sink == target + Concat(chunks[..j + m])[|head|..] && s.reader.written == after
            && s.reader.parser.header == p.header
            && Ends(s, chunks, j + m, Opens(n, 0, first) && (m == 0 || after < ToSigned(n)), true)
  {
    hide Run, ContentLength, UrlSyntax.Parse, StartBody, FeedAll, Deliver, Process, Taken, Opens, Concat, LimitStrikes;
    LimitStrikesExactly(chunks);
    j := HeadEndsInRead(head, p, rest, chunks);
    HeadPhaseFeeds(Start(target), chunks, 0);
    var first := Concat(chunks[..j])[|head|..];
    var begun := Start(target).(parser := p.Append(first), pending := 0);
    FedFitsBuffer(INITIAL, chunks);
    assert p.Append(first).buffer == first;
    m := BodyRun(begun, chunks[j..], 0);
    BehindHead(chunks, j, m, |head|, target);
  }

  lemma BehindHead(chunks: seq<string>, j: nat, m: nat, head: nat, target: string)
    requires j + m <= |chunks| && head <= |Concat(chunks[..j])|
    ensures head <= |Concat(chunks[..j + m])|
    ensures target + Concat(chunks[..j])[head..] + Concat(chunks[j..][..m])
         == target + Concat(chunks[..j + m])[head..]
    ensures Upto(|Concat(chunks[..j])| - head, chunks[j..], m) == |Concat(chunks[..j + m])| - head
    ensures chunks[j..][m..] == chunks[j + m..]
  {
    hide Concat;
    ConcatGrows(chunks, j, j + m);
    DropBoth(Concat(chunks[..j]), Concat(chunks[j..][..m]), head, target);
  }

  lemma DropBoth(before: string, behind: string, n: nat, target: string)
    requires n <= |before|
    ensures target + before[n..] + behind == target + (before + behind)[n..]
  {
    assert (before + behind)[n..] == before[n..] + behind;
  }

  /** What is left of the reads when the head is complete fits the limit of one feed. */
  lemma {:induction false} FedFitsBuffer(p: Parser, chunks: seq<string>)
    requires |p.buffer| <= HEADER_BUFFER_MAX
    requires FeedAll(p, chunks, true).outcome != Failed(HeaderBufferExceeded)
    ensures |FeedAll(p, chunks, true).parser.buffer| <= HEADER_BUFFER_MAX
    decreases |chunks|
  {
    hide Run;
    if !p.Finished() && chunks != [] {
      RunConserves(p.Append(chunks[0]));
      if Feed(p, chunks[0]).outcome.NeedMore? {
        FedFitsBuffer(Feed(p, chunks[0]).parser, chunks[1..]);
      }
    }
  }

  /** A peer that sends more than it announced. Let read k bring the last announced byte. Unless it
      is also the read that ends the head, it fulfils the promise, and its surplus is in the sink.
      Otherwise one more read is started; that one fulfils, and goes into the sink as well. */
  lemma OverSentBody(head: string, p: Parser, body: string, extra: string, chunks: seq<string>, target: string, k: nat)
    requires Run(INITIAL.Append(head)) == Result(p, Finished) && p.buffer == []
    requires UrlSyntax.Parse(p.header.url).Some?
    requires ContentLength(p.header) == Some(|body|) && |body| < TWO_TO_63
    requires Concat(chunks) == head + (body + extra)
    requires !LimitStrikes(chunks)
    requires 0 < k <= |chunks| && |Concat(chunks[..k - 1])| < |head + body| <= |Concat(chunks[..k])|
    ensures var s, together := Process(Start(target), Reads(chunks), 0), EndsTogether(head, body, chunks, k);
            var last := if together && k < |chunks| then k + 1 else k;
            && |head| <= |Concat(chunks[..last])|
            && s.reader.sink == target + Concat(chunks[..last])[|head|..]
            && s.reader.written == |Concat(chunks[..last])| - |head|
            && s.unread == Reads(chunks[last..]) && s.reader.parser.header == p.header
            && s.reader.pending == (if together && k == |chunks| then 1 else 0)
            && s.reader.fulfilled == 1 - s.reader.pending && s.reader.failed == 0 && s.reader.replies == []
  {
    hide Run, ContentLength, UrlSyntax.Parse, StartBody, FeedAll, Deliver, Process, LimitStrikes;
    hide Taken, Written, Concat;
    var j, m := StreamRun(head, p, body + extra, chunks, target);
    TakenOfStream(chunks, j, |head|, |body|, m, k);
    ConcatGrows(chunks, k, j + m);
  }

  /** Which reads behind the head are taken, in terms of the whole stream. */
  lemma TakenOfStream(chunks: seq<string>, j: nat, head: nat, n: nat, m: nat, k: nat)
    requires 0 < j <= |chunks| && |Concat(chunks[..j - 1])| < head <= |Concat(chunks[..j])|
    requires n < TWO_TO_63 && m <= |chunks| - j
    requires 0 < k <= |chunks| && |Concat(chunks[..k - 1])| < head + n <= |Concat(chunks[..k])|
    requires var rest, first := chunks[j..], |Concat(chunks[..j])| - head;
             forall i :: 0 <= i < |rest| ==> (Taken(n, 0, first, rest, i) <==> i < m)
    ensures j <= k && (j < k <==> |Concat(chunks[..k - 1])| >= head)
    ensures j + m == if k == j && |Concat(chunks[..k])| > head + n && k < |chunks| then k + 1 else k
  {
    hide Concat, Upto;
    var rest, first := chunks[j..], |Concat(chunks[..j])| - head;
    if k < j {
      ConcatGrows(chunks, k, j - 1);
    }
    BehindHead(chunks, j, 0, head, []);
    if k == j {
      if |rest| > 0 {
        assert Taken(n, 0, first, rest, 0) <==> first != n;
      }
      if |rest| > 1 {
        UptoGrows(first, rest, 0, 1);
        assert !Taken(n, 0, first, rest, 1);
      }
    } else {
      var last := k - 1 - j;
      ConcatGrows(chunks, j, k - 1);
      UptoGrows(first, rest, 0, last);
      BehindHead(chunks, j, last, head, []);
      assert Taken(n, 0, first, rest, last);
      if k < |chunks| {
        BehindHead(chunks, j, last + 1, head, []);
        assert !Taken(n, 0, first, rest, last + 1);
      }
    }
  }

  /** End to end: a request of head and body, cut into reads in any way, puts exactly the body
      behind what the target held, fulfils the promise once, and leaves no read outstanding. */
  lemma EndToEnd(head: string, p: Parser, body: string, chunks: seq<string>, target: string)
    requires Run(INITIAL.Append(head)) == Result(p, Finished) && p.buffer == []
    requires UrlSyntax.Parse(p.header.url).Some?
    requires ContentLength(p.header) == Some(|body|) && |body| < TWO_TO_63
    requires chunks != [] && NoneEmpty(chunks) && Concat(chunks) == head + body
    requires !LimitStrikes(chunks)
    ensures var s := Process(Start(target), Reads(chunks), 0);
            && s.reader.sink == target + body && s.reader.written == |body|
            && s.reader.fulfilled == 1 && s.reader.failed == 0 && s.reader.replies == []
            && s.reader.pending == 0 && s.unread == [] && s.reader.parser.header == p.header
  {
    hide Run, ContentLength, UrlSyntax.Parse, StartBody, FeedAll, Deliver, Process, LimitStrikes;
    var k := |chunks|;
    assert chunks[..k] == chunks;
    ConcatGrows(chunks, k - 1, k);
    ConcatOne(chunks[k - 1]);
    assert chunks[k - 1..][..1] == [chunks[k - 1]] && chunks[k - 1] != [];
    assert head + (body + []) == head + body;
    OverSentBody(head, p, body, [], chunks, target, k);
    assert (head + body)[|head|..] == body;
  }

  /** When the peer sends more than announced, the sink is exactly the body if and only if some read
      ends where the body ends; and the promise is fulfilled with the last announced byte if and only
      if the head does not end in the read that brings that byte together with a surplus. */
  lemma BodyIsExactExactly(head: string, p: Parser, body: string, extra: string, chunks: seq<string>, target: string, k: nat)
    requires Run(INITIAL.Append(head)) == Result(p, Finished) && p.buffer == []
    requires UrlSyntax.Parse(p.header.url).Some?
    requires ContentLength(p.header) == Some(|body|) && |body| < TWO_TO_63
    requires Concat(chunks) == head + (body + extra)
    requires !LimitStrikes(chunks)
    requires 0 < k <= |chunks| && |Concat(chunks[..k - 1])| < |head + body| <= |Concat(chunks[..k])|
    ensures var s := Process(Start(target), Reads(chunks), 0);
            && (s.reader.sink == target + body <==> exists i :: 0 <= i <= |chunks| && Concat(chunks[..i]) == head + body)
            && (s.reader.fulfilled == 1 && s.unread == Reads(chunks[k..]) <==> !EndsTogether(head, body, chunks, k))
  {
    hide Run, ContentLength, UrlSyntax.Parse, StartBody, FeedAll, Deliver, Process, LimitStrikes;
    OverSentBody(head, p, body, extra, chunks, target, k);
    var s := Process(Start(target), Reads(chunks), 0);
    var last := if EndsTogether(head, body, chunks, k) && k < |chunks| then k + 1 else k;
    assert (head + (body + extra))[..|head + body|] == head + body && (head + body)[|head|..] == body;
    ConcatIsPrefix(chunks, k);
    ConcatGrows(chunks, k, last);
    if s.reader.sink == target + body {
      assert |s.reader.sink| == |target| + (|Concat(chunks[..last])| - |head|);
      assert Concat(chunks[..k]) == head + body;
    }
    if i :| 0 <= i <= |chunks| && Concat(chunks[..i]) == head + body {
      if i < k {
        ConcatGrows(chunks, i, k - 1);
      } else {
        ConcatGrows(chunks, k, i);
      }
      assert Concat(chunks[..k]) == head + body;
    }
    assert last == k + 1 ==> |Reads(chunks[last..])| < |Reads(chunks[k..])|;
  }

  // ----- with a limit

  /** A delivery the socket can make: at most one receive buffer. */
  predicate FitsBuffer(d: Delivery) {
    d.Data? ==> |d.bytes| <= BUFFER_SIZE
  }

  /** The sink holds, behind its old content, a prefix of what arrived, and no more than
      max - 1 bytes and one read. */
  predicate WithinLimit(r: Reader, target: string, arrived: string, max: nat) {
    && r.written <= |arrived| && r.sink == target + arrived[..r.written]
    && r.written <= max - 1 + BUFFER_SIZE
    && (r.pending > 0 ==> r.written == |arrived|)
  }

  lemma {:induction false} BodyStaysWithinLimit(r: Reader, events: seq<Delivery>, max: nat, target: string, arrived: string)
    requires Valid(r) && r.phase.BodyPhase? && 0 < max < TWO_TO_64 && r.maxRead == max
    requires WithinLimit(r, target, arrived, max)
    requires forall d | d in events :: FitsBuffer(d)
    ensures WithinLimit(Process(r, events, max).reader, target, arrived + Bytes(events), max)
    decreases |events|
  {
    hide ContentLength, Deliver;
    if events != [] && r.pending > 0 {
      assert events[0] in events;
      var bytes := if events[0].Data? then events[0].bytes else [];
      DeliverIsValid(r, events[0], max);
      var next := Deliver(r, events[0], max);
      OneMoreRead(r, events[0], max, target, arrived);
      BodyStaysWithinLimit(next, events[1..], max, target, arrived + bytes);
      assert (arrived + bytes) + Bytes(events[1..]) == arrived + Bytes(events);
    } else {
      assert (arrived + Bytes(events))[..r.written] == arrived[..r.written];
      if r.pending > 0 {
        assert arrived + [] == arrived;
      }
    }
  }

  lemma ErrorEndsBody(r: Reader, d: Delivery)
    requires Valid(r) && r.phase.BodyPhase? && r.pending > 0 && d.ReadError?
    ensures Deliver(r, d, r.maxRead)
         == r.(pending := 0, failed := 1, closed := if d.aborted then 0 else 1)
  {
    hide ContentLength;
  }

  lemma OneMoreRead(r: Reader, d: Delivery, max: nat, target: string, arrived: string)
    requires Valid(r) && r.phase.BodyPhase? && 0 < max < TWO_TO_64 && r.maxRead == max && r.pending > 0
    requires WithinLimit(r, target, arrived, max) && FitsBuffer(d)
    ensures var next := Deliver(r, d, max);
            && next.phase.BodyPhase? && next.maxRead == max
            && WithinLimit(next, target, arrived + (if d.Data? then d.bytes else []), max)
  {
    hide ContentLength, Deliver;
    var bytes := if d.Data? then d.bytes else [];
    var all := arrived + bytes;
    assert all[..r.written] == arrived[..r.written] == arrived;
    if d.Data? {
      OneRead(r, bytes);
      assert all[..|all|] == all && r.sink + bytes == target + all;
    } else {
      ErrorEndsBody(r, d);
    }
  }

  lemma StartStaysWithinLimit(r: Reader, max: nat)
    requires 0 < max < TWO_TO_64 && r.pending == 0
    ensures WithinLimit(StartBody(r, max), r.sink, r.parser.buffer, max)
    ensures var s := StartBody(r, max); s.phase.BodyPhase? && s.maxRead == max
  {
    hide ContentLength;
    var buffer := r.parser.buffer;
    assert r.sink + buffer[..0] == r.sink;
    assert buffer[..|buffer|] == buffer;
  }

  /** Read limit, for every run, whatever the peer sends and whatever it announced: the sink gets a
      prefix of what followed the head and never more than max - 1 bytes and one full read. */
  lemma ReadLimit(r: Reader, events: seq<Delivery>, max: nat)
    requires 0 < max < TWO_TO_64 && r.pending == r.fulfilled == r.failed == r.closed == 0 && r.replies == []
    requires forall d | d in events :: FitsBuffer(d)
    ensures Valid(StartBody(r, max))
    ensures var s := Process(StartBody(r, max), events, max).reader;
            && s.written <= max + 4095 && s.written <= |r.parser.buffer + Bytes(events)|
            && s.sink == r.sink + (r.parser.buffer + Bytes(events))[..s.written]
  {
    hide StartBody, Process;
    StartBodyIsValid(r, max);
    StartStaysWithinLimit(r, max);
    BodyStaysWithinLimit(StartBody(r, max), events, max, r.sink, r.parser.buffer);
  }

  /** A limit that is no int64_t is taken for a negative one: no read is written at all. */
  lemma HugeLimitReadsNothing(r: Reader, chunks: seq<string>, max: nat)
    requires r.pending == r.fulfilled == r.failed == r.closed == 0 && r.replies == []
    requires TWO_TO_63 <= max < TWO_TO_64 && |r.parser.buffer| < TWO_TO_63 && ContentLength(r.parser.header).Some?
    ensures Valid(StartBody(r, max))
    ensures Process(StartBody(r, max), Reads(chunks), max).reader.sink == r.sink + r.parser.buffer
  {
    hide ContentLength, StartBody, Process;
    var m := BodyRun(r, chunks, max);
    var n := ContentLength(r.parser.header).value;
    if chunks != [] {
      assert !Taken(n, max, |r.parser.buffer|, chunks, 0);
    }
    assert chunks[..0] == [] && r.sink + r.parser.buffer + [] == r.sink + r.parser.buffer;
  }

  /** The limit is tested before a read is written, not after. It is overshot exactly when some read
      that is started below it goes beyond it. */
  lemma LimitIsOvershotExactly(r: Reader, chunks: seq<string>, max: nat)
    requires r.pending == r.fulfilled == r.failed == r.closed == 0 && r.replies == []
    requires 0 < max < TWO_TO_64 && |r.parser.buffer| < TWO_TO_64 && ContentLength(r.parser.header).Some?
    ensures Valid(StartBody(r, max))
    ensures var n, first := ContentLength(r.parser.header).value, |r.parser.buffer|;
            Process(StartBody(r, max), Reads(chunks), max).reader.written > max
            <==> exists k :: 0 <= k < |chunks| && Taken(n, max, first, chunks, k) && Upto(first, chunks, k + 1) > max
    // as long as no more came with the head than was announced
    ensures var n, first := ContentLength(r.parser.header).value, |r.parser.buffer|;
            first <= n < TWO_TO_63 && max < TWO_TO_63 ==>
              (Process(StartBody(r, max), Reads(chunks), max).reader.written > max
               <==> exists k :: 0 <= k < |chunks| && Upto(first, chunks, k) < n && Upto(first, chunks, k) < max
                                < Upto(first, chunks, k + 1))
  {
    hide ContentLength, StartBody, Process;
    var n, first := ContentLength(r.parser.header).value, |r.parser.buffer|;
    var m := BodyRun(r, chunks, max);
    var written := Process(StartBody(r, max), Reads(chunks), max).reader.written;
    if written > max {
      assert Taken(n, max, first, chunks, m - 1) && Upto(first, chunks, m) > max;
    }
    if k :| 0 <= k < |chunks| && Taken(n, max, first, chunks, k) && Upto(first, chunks, k + 1) > max {
      UptoGrows(first, chunks, k + 1, m);
    }
    if first <= n < TWO_TO_63 && max < TWO_TO_63 {
      forall k | 0 <= k < |chunks|
        ensures Taken(n, max, first, chunks, k) <==> Upto(first, chunks, k) < n && Upto(first, chunks, k) < max
      {
        UptoGrows(first, chunks, 0, k);
        assert k == 0 ==> Upto(first, chunks, k) == first;
      }
    }
  }
}
