/** Safety and progress of chunked delivery, over every run. */
module ChunkedDelivery {
  import opened Strings
  import opened ChunkFrame
  import opened ChunkedProtocol

  // ----- the invariant is kept

  lemma {:induction false} FramesSnoc(payloads: seq<string>, last: string)
    ensures Frames(payloads + [last]) == Frames(payloads) + Frame(last)
  {
    if payloads == [] {
      assert [] + [last] == [last];
      assert Frames([last]) == Frame(last) + Frames([]);
    } else {
      assert (payloads + [last])[1..] == payloads[1..] + [last];
      FramesSnoc(payloads[1..], last);
    }
  }

  lemma WriteFrameKeepsData(s: Stream)
    requires DataKept(s) && s.sent == 0 && !s.terminated && s.buffer != []
    ensures DataKept(WriteFrame(s))
  {
    hide Frames, Frame, Concat;
    var t := WriteFrame(s);
    assert s.buffer[..0] == [] && s.acked + [] == s.acked;
    ConcatAppend(s.payloads, [s.buffer]);
    ConcatOne(s.buffer);
    assert t.buffer[..t.sent] == s.buffer;
    FramesSnoc(s.payloads, s.buffer);
    assert Frames(s.payloads) + [] == Frames(s.payloads);
    assert Frames(t.payloads) + [] == Frames(t.payloads);
  }

  lemma WriteLastKeepsData(s: Stream)
    requires DataKept(s) && s.sent == 0 && !s.terminated && s.completed
    ensures DataKept(WriteLast(s))
  {
    assert Frames(s.payloads) + [] == Frames(s.payloads);
  }

  /** The data part of the invariant does not look at flags, writes and counters. */
  lemma SameData(s: Stream, t: Stream)
    requires DataKept(s)
    requires t == s.(consuming := t.consuming, attached := t.attached, inFlight := t.inFlight,
                     errors := t.errors, finishes := t.finishes, closes := t.closes)
    ensures DataKept(t)
  {
    hide Frames, Concat;
  }

  /** Everything is kept by the callback when it is called with no write in flight. */
  lemma OnProduceKeeps(s: Stream)
    requires DataKept(s) && s.inFlight == [] && s.sent == 0 && !s.terminated
    requires s.attached && s.everAttached && s.finishes == s.closes == s.errors == 0
    ensures Inv(OnProduce(s))
  {
    hide DataKept;
    var t := s.(consuming := true);
    SameData(s, t);
    SameData(s, s.(consuming := false));
    if s.completed {
      WriteLastKeepsData(t);
    } else if s.buffer != [] {
      WriteFrameKeepsData(t);
      assert s.buffer[..|s.buffer|] == s.buffer;
    }
  }

  lemma ProducedDataKeeps(s: Stream)
    requires DataKept(s) && WritesKept(s)
    requires FlagsKept(s.(started := s.started && s.buffer == []))
    requires !s.everAttached ==> !s.started
    ensures Inv(ProducedData(s))
  {
    if !s.consuming && s.attached {
      OnProduceKeeps(s);
    }
  }

  lemma PushKeeps(s: Stream, data: string)
    requires Inv(s)
    ensures Inv(Step(s, Push(data)))
  {
    var t := s.(buffer := s.buffer + data, pushed := s.pushed + data);
    assert t.buffer[..t.sent] == s.buffer[..s.sent];
    assert t.pushed == t.acked + t.buffer;
    ProducedDataKeeps(t);
  }

  lemma TakeKeepsData(s: Stream, size: nat)
    requires DataKept(s) && size == s.sent && !s.terminated
    ensures DataKept(s.(buffer := s.buffer[size..], acked := s.acked + s.buffer[..size], sent := 0))
  {
    hide Frames, Concat;
    var front, rest := s.buffer[..size], s.buffer[size..];
    assert s.buffer == front + rest;
    assert (s.acked + front) + rest == s.acked + s.buffer;
    assert rest[..0] == [] && (s.acked + front) + [] == s.acked + front;
  }

  lemma WriteDoneKeeps(s: Stream, ok: bool)
    requires Inv(s) && s.inFlight != []
    ensures Inv(Step(s, WriteDone(ok)))
  {
    hide DataKept;
    var write := s.inFlight[0];
    var t := s.(inFlight := s.inFlight[1..]);
    assert t.inFlight == [];
    SameData(s, t);
    SameData(s, EndProduction(t).(closes := s.closes + 1));
    SameData(s, EndProduction(t.(errors := s.errors + 1)).(closes := s.closes + 1));
    if write.Chunk? && ok {
      TakeKeepsData(t, write.size);
      var u := t.(buffer := s.buffer[write.size..], acked := s.acked + s.buffer[..write.size], sent := 0);
      if u.buffer != [] {
        OnProduceKeeps(u);
      } else {
        SameData(u, u.(consuming := false));
      }
    }
  }

  /** Every step of the protocol keeps the invariant. */
  lemma StepKeeps(s: Stream, e: Event)
    requires Inv(s) && Enabled(s, e)
    ensures Inv(Step(s, e))
  {
    hide Frames, Concat, OnProduce, HasConsumed;
    match e
    case Push(data) => PushKeeps(s, data);
    case WriteDone(ok) => WriteDoneKeeps(s, ok);
    case Flush =>
      ProducedDataKeeps(s);
    case Finish => ProducedDataKeeps(s.(completed := true));
    case Attach =>
    case StartProduction =>
      if s.buffer != [] {
        ProducedDataKeeps(s.(started := true));
      }
  }

  lemma {:induction false} RunKeeps(s: Stream, events: seq<Event>)
    requires Inv(s)
    ensures Inv(Run(s, events))
    decreases |events|
  {
    hide Inv, Step;
    if events != [] {
      if Enabled(s, events[0]) {
        StepKeeps(s, events[0]);
        RunKeeps(Step(s, events[0]), events[1..]);
      } else {
        RunKeeps(s, events[1..]);
      }
    }
  }

  ghost predicate Reachable(s: Stream) {
    exists events :: s == Run(INITIAL, events)
  }

  lemma ReachableKeeps(s: Stream)
    requires Reachable(s)
    ensures Inv(s)
  {
    var events :| s == Run(INITIAL, events);
    assert Inv(INITIAL) by {
      assert Frames([]) + [] == [];
    }
    RunKeeps(INITIAL, events);
  }

  // ----- safety

  /** In every reachable state: nothing is lost between producer and consumer, at most one write is
      outstanding and belongs to a consuming consumer, its payload is the front of the buffer, and a
      consumer that was started is consuming whenever there is data. When the consumer is detached,
      the finish callback has run once and the response was ended once; an error was reported if and
      only if the last chunk was not written by then. */
  lemma ProtocolSafety(s: Stream)
    requires Reachable(s)
    ensures s.pushed == s.acked + s.buffer
    ensures |s.inFlight| <= 1 && (s.inFlight != [] ==> s.consuming && s.attached)
    ensures forall size: nat :: s.inFlight == [Chunk(size)] ==>
              0 < size <= |s.buffer| && s.payloads != [] && s.payloads[|s.payloads| - 1] == s.buffer[..size]
    ensures s.attached && s.started && s.buffer != [] ==> s.consuming
    ensures s.attached && s.consuming ==> s.inFlight != []
    ensures s.finishes == s.closes == if s.everAttached && !s.attached then 1 else 0
    ensures s.errors == if s.everAttached && !s.attached && !s.terminated then 1 else 0
  {
    ReachableKeeps(s);
  }

  /** What the answer to a write does: a chunk that failed is reported, ends production and the
      response, and is not acknowledged; the last chunk ends them without a report, however it went. */
  lemma FailedWriteIsReported(s: Stream, ok: bool)
    requires Reachable(s) && s.inFlight != []
    ensures s.sent <= |s.buffer|
    ensures var t := Step(s, WriteDone(ok));
            && (t.errors == 1 <==> s.inFlight[0].Chunk? && !ok)
            && (t.attached <==> s.inFlight[0].Chunk? && ok)
            && (t.attached ==> t.acked == s.acked + s.buffer[..s.sent])
            && (!t.attached ==> t.finishes == t.closes == 1 && t.acked == s.acked && t.buffer == s.buffer && t.wire == s.wire)
  {
    hide DataKept, Frame;
    ReachableKeeps(s);
    StepKeeps(s, WriteDone(ok));
    assert DataKept(s) ==> s.sent <= |s.buffer| by { SentIsBuffered(s); }
  }

  lemma SentIsBuffered(s: Stream)
    ensures DataKept(s) ==> s.sent <= |s.buffer|
  {}

  /** An acknowledged write never covers more than the buffer holds, so the branch of has_consumed
      that clears a buffer which is too short is never taken. */
  lemma NothingToClear(s: Stream, size: nat)
    requires Reachable(s) && s.inFlight != [] && s.inFlight[0] == Chunk(size)
    ensures !(|s.buffer| < size)
    ensures var taken := HasConsumed(s.(inFlight := []), size).acked;
            |taken| == |s.acked| + size
  {
    ReachableKeeps(s);
  }

  /** Whatever part of the wire a receiver has seen, the chunks it decodes are a prefix of what was
      pushed. If it has seen the last chunk, it has everything that was acknowledged before. */
  lemma ReceiverSeesPrefix(s: Stream, cut: nat)
    requires Reachable(s) && cut <= |s.wire|
    ensures var seen := Decode(s.wire[..cut]);
            && seen.payload <= s.pushed
            && (seen.complete ==> s.terminated && seen.payload == s.acked)
  {
    hide Decode, Frames;
    ReachableKeeps(s);
    DecodeCut(s.payloads, s.terminated, cut);
    var framed := Concat(s.payloads);
    assert framed <= s.pushed by {
      assert s.pushed == framed + s.buffer[s.sent..];
    }
    if s.terminated {
      assert s.buffer[..0] == [];
    }
  }

  /** Everything that was pushed has arrived, and the receiver knows that it was all. */
  predicate Whole(s: Stream) {
    Decode(s.wire) == Decoded(s.pushed, true)
  }

  lemma WireDecodes(s: Stream)
    requires Inv(s)
    ensures Decode(s.wire) == Decoded(s.acked + s.buffer[..s.sent], s.terminated)
    ensures s.acked + s.buffer[..s.sent] == s.pushed[..|s.acked| + s.sent]
    ensures Whole(s) <==> s.terminated && s.buffer == []
  {
    hide Decode, Frames;
    DecodeFrames(s.payloads, s.terminated);
    assert s.terminated ==> s.buffer[..s.sent] == [];
  }

  // ----- finishing

  lemma CompletedWritesLast(s: Stream)
    requires s.completed
    ensures var t := OnProduce(s);
            t.completed && t.payloads == s.payloads && t.pushed == s.pushed && t.terminated
  {}

  /** Once the producer is completed no chunk is framed any more. */
  lemma CompletedFramesNothing(s: Stream, e: Event)
    requires Inv(s) && s.completed && Enabled(s, e)
    ensures var t := Step(s, e);
            t.completed && t.payloads == s.payloads && |t.pushed| >= |s.pushed| && (s.terminated ==> t.terminated)
  {
    hide DataKept, OnProduce;
    forall p: Stream | p.completed
      ensures var t := OnProduce(p);
              t.completed && t.payloads == p.payloads && t.pushed == p.pushed && t.terminated
    {
      CompletedWritesLast(p);
    }
  }

  lemma {:induction false} CompletedRunFramesNothing(s: Stream, events: seq<Event>)
    requires Inv(s) && s.completed
    ensures var t := Run(s, events);
            Inv(t) && t.payloads == s.payloads && |t.pushed| >= |s.pushed| && (s.terminated ==> t.terminated)
    decreases |events|
  {
    hide Inv, Step;
    if events != [] {
      if Enabled(s, events[0]) {
        CompletedFramesNothing(s, events[0]);
        StepKeeps(s, events[0]);
        CompletedRunFramesNothing(Step(s, events[0]), events[1..]);
      } else {
        CompletedRunFramesNothing(s, events[1..]);
      }
    }
  }

  lemma FinishKeepsHistory(s: Stream)
    requires Inv(s)
    ensures var f := Step(s, Finish);
            Inv(f) && f.completed && f.payloads == s.payloads && f.pushed == s.pushed
  {
    hide DataKept, Frame;
    StepKeeps(s, Finish);
  }

  /** finish() cuts the stream off behind the last byte that was framed before it: whatever happens
      afterwards, that is all a receiver of the whole wire will ever decode. */
  lemma FinishCutsOff(s: Stream, events: seq<Event>)
    requires Reachable(s)
    ensures |s.acked| + s.sent <= |s.pushed|
    ensures var t := Run(Step(s, Finish), events);
            Decode(t.wire) == Decoded(s.pushed[..|s.acked| + s.sent], t.terminated)
  {
    hide Decode, Frames, Concat, Step, Run;
    ReachableKeeps(s);
    FinishKeepsHistory(s);
    var f := Step(s, Finish);
    CompletedRunFramesNothing(f, events);
    SamePayloadsDecode(s, Run(f, events));
  }

  lemma SamePayloadsDecode(s: Stream, t: Stream)
    requires Inv(s) && Inv(t) && t.payloads == s.payloads
    ensures Decode(t.wire) == Decoded(s.pushed[..|s.acked| + s.sent], t.terminated)
  {
    hide Decode, Frames;
    WireDecodes(s);
    WireDecodes(t);
  }

  /** An attached consumer that is not consuming gets the last chunk at once. finish() completes the
      stream whole by itself exactly when such a consumer meets an empty buffer; once production has
      started, the buffer of an idle consumer is always empty. */
  lemma FinishDeliversExactly(s: Stream)
    requires Reachable(s) && !s.terminated
    ensures var t := Step(s, Finish);
            && (Whole(t) <==> s.attached && !s.consuming && s.buffer == [])
            && (t.inFlight == [Last] <==> s.attached && !s.consuming)
            && (s.attached && !s.consuming ==> t.wire == s.wire + "0\r\n\r\n" && Decode(t.wire) == Decoded(s.acked, true))
            && (s.attached && !s.consuming && s.started ==> Whole(t))
  {
    hide Decode, Frames, DataKept;
    ReachableKeeps(s);
    StepKeeps(s, Finish);
    var t := Step(s, Finish);
    WireDecodes(t);
    assert s.attached && !s.consuming ==> s.acked + s.buffer[..0] == s.acked;
  }

  /** After finish() the stream can still become whole, in some continuation, exactly when everything
      in the buffer has been framed already and the consumer is attached or still to come. */
  lemma WholeIsReachableExactly(s: Stream)
    requires Reachable(s) && !s.terminated
    ensures (exists events :: Whole(Run(Step(s, Finish), events)))
       <==> (s.attached || !s.everAttached) && s.sent == |s.buffer|
  {
    hide Step, Run, Inv, Whole;
    if events :| Whole(Run(Step(s, Finish), events)) {
      WholeNeedsFramed(s, events);
    }
    if (s.attached || !s.everAttached) && s.sent == |s.buffer| {
      FramedBecomesWhole(s);
    }
  }

  lemma WholeNeedsFramed(s: Stream, events: seq<Event>)
    requires Reachable(s) && !s.terminated && Whole(Run(Step(s, Finish), events))
    ensures (s.attached || !s.everAttached) && s.sent == |s.buffer|
  {
    hide Decode, Frames, Run, Step;
    ReachableKeeps(s);
    FinishKeepsHistory(s);
    var f := Step(s, Finish);
    CompletedRunFramesNothing(f, events);
    FinishCutsOff(s, events);
    if s.everAttached && !s.attached {
      assert f == s.(completed := true) by { DetachedFinish(s); }
      EndedStaysSilent(f, events);
      WireDecodes(f);
    }
  }

  lemma DetachedFinish(s: Stream)
    requires !s.attached
    ensures Step(s, Finish) == s.(completed := true)
  {}

  /** The continuation that completes it: the missing attachment or acknowledgement, and a flush. */
  lemma FramedBecomesWhole(s: Stream)
    requires Reachable(s) && !s.terminated
    requires (s.attached || !s.everAttached) && s.sent == |s.buffer|
    ensures exists events :: Whole(Run(Step(s, Finish), events))
  {
    hide Decode, Frames, DataKept, Frame, Run;
    ReachableKeeps(s);
    var f := Step(s, Finish);
    StepKeeps(s, Finish);
    if s.inFlight != [] {
      var t := Step(f, WriteDone(true));
      StepKeeps(f, WriteDone(true));
      StepKeeps(t, Flush);
      WireDecodes(Step(t, Flush));
      RunTwo(f, WriteDone(true), Flush);
    } else if s.attached {
      WireDecodes(f);
      RunNone(f);
    } else {
      var t := Step(f, Attach);
      StepKeeps(f, Attach);
      StepKeeps(t, Flush);
      WireDecodes(Step(t, Flush));
      RunTwo(f, Attach, Flush);
    }
  }

  lemma RunNone(s: Stream)
    ensures Run(s, []) == s
  {}

  lemma RunOne(s: Stream, e: Event)
    requires Enabled(s, e)
    ensures Run(s, [e]) == Step(s, e)
  {
    assert [e][1..] == [];
  }

  lemma RunTwo(s: Stream, d: Event, e: Event)
    requires Enabled(s, d) && Enabled(Step(s, d), e)
    ensures Run(s, [d, e]) == Step(Step(s, d), e)
  {
    hide Step;
    assert [d, e][1..] == [e];
    RunOne(Step(s, d), e);
  }

  /** Finishing while a chunk is in flight never completes the stream whole by itself: when more data
      has gathered behind the chunk, the acknowledgement makes the last chunk go out in its place;
      when none has, the producer goes idle and the last chunk is not written at all. A flush in
      that idle state is what completes the stream. */
  lemma FinishInFlight(s: Stream, size: nat)
    requires Reachable(s) && s.inFlight == [Chunk(size)]
    ensures var t := Step(Step(s, Finish), WriteDone(true));
            && !Whole(t)
            && (t.terminated <==> size < |s.buffer|)
            && (!t.terminated ==> t.attached && !t.consuming && t.inFlight == [] && t.buffer == [])
            && (!t.terminated ==> Whole(Step(t, Flush)))
  {
    hide Decode, Frames, DataKept;
    ReachableKeeps(s);
    var f := Step(s, Finish);
    StepKeeps(s, Finish);
    var t := Step(f, WriteDone(true));
    StepKeeps(f, WriteDone(true));
    WireDecodes(t);
    if !t.terminated {
      StepKeeps(t, Flush);
      WireDecodes(Step(t, Flush));
    }
  }

  /** Finishing before production starts, with no chunk in flight: after the start the last chunk has
      been written exactly when the consumer had been attached before or data is waiting, the data
      that was waiting is lost, and the stream is whole exactly when finish() met an attached
      consumer and an empty buffer. */
  lemma FinishedBeforeStart(s: Stream)
    requires Reachable(s) && !s.started && !s.terminated && s.inFlight == []
    requires s.everAttached ==> s.attached
    ensures var t := Run(s, [Finish, Attach, StartProduction]);
            && (t.terminated <==> s.attached || s.buffer != [])
            && Decode(t.wire) == Decoded(s.acked, t.terminated)
            && (Whole(t) <==> s.attached && s.buffer == [])
  {
    hide Decode, Frames, DataKept, Run;
    ReachableKeeps(s);
    var f := Step(s, Finish);
    StepKeeps(s, Finish);
    var a := if s.everAttached then f else Step(f, Attach);
    if !s.everAttached {
      StepKeeps(f, Attach);
    }
    var t := Step(a, StartProduction);
    StepKeeps(a, StartProduction);
    WireDecodes(t);
    assert t.buffer[..0] == [] && t.acked + [] == t.acked;
    RunFinishAttachStart(s);
  }

  lemma RunFinishAttachStart(s: Stream)
    requires !s.started
    ensures var f := Step(s, Finish);
            var a := if Enabled(f, Attach) then Step(f, Attach) else f;
            Enabled(a, StartProduction) ==>
              Run(s, [Finish, Attach, StartProduction]) == Step(a, StartProduction)
  {
    hide Step;
    var events := [Finish, Attach, StartProduction];
    assert events[1..] == [Attach, StartProduction] && events[1..][1..] == [StartProduction];
    var f := Step(s, Finish);
    var a := if Enabled(f, Attach) then Step(f, Attach) else f;
    if Enabled(a, StartProduction) {
      RunOne(a, StartProduction);
    }
  }

  // ----- runs that lose data

  /** One event further along a run. */
  lemma AlongRun(events: seq<Event>, k: nat, s: Stream)
    requires k < |events| && s == Run(INITIAL, events[..k]) && Enabled(s, events[k])
    ensures Step(s, events[k]) == Run(INITIAL, events[..k + 1])
  {
    hide Step;
    RunAppends(INITIAL, events[..k], events[k]);
    assert events[..k + 1] == events[..k] + [events[k]];
  }

  lemma {:induction false} RunAppends(s: Stream, events: seq<Event>, e: Event)
    requires Enabled(Run(s, events), e)
    ensures Run(s, events + [e]) == Step(Run(s, events), e)
    decreases |events|
  {
    hide Step;
    if events == [] {
      assert [] + [e] == [e];
      RunOne(s, e);
    } else {
      assert (events + [e])[1..] == events[1..] + [e];
      RunAppends(if Enabled(s, events[0]) then Step(s, events[0]) else s, events[1..], e);
    }
  }

  /** Data that was pushed before the consumer was attached, and finish() before the start: the
      stream is completed without the data. */
  lemma UnstartedLoss()
    ensures var s := Run(INITIAL, [Push("a"), Attach, Finish]);
            s.pushed == "a" && Decode(s.wire) == Decoded("", true)
  {
    hide Decode, Frames, Frame, DataKept, Run;
    var events := [Push("a"), Attach, Finish];
    var s1 := INITIAL.(buffer := "a", pushed := "a");
    var s2 := s1.(attached := true, everAttached := true);
    assert [] + "a" == "a";
    RunNone(INITIAL);
    AlongRun(events, 0, INITIAL);
    AlongRun(events, 1, s1);
    AlongRun(events, 2, s2);
    assert events[..3] == events;
    assert Reachable(s2);
    FinishDeliversExactly(s2);
  }

  lemma PushBehindChunk()
    ensures var s := Run(INITIAL, [Attach, StartProduction, Push("a"), Push("b")]);
            && s.inFlight == [Chunk(1)] && s.buffer == s.pushed == "ab" && s.acked == [] && s.sent == 1
            && !s.completed && s.attached && s.consuming
  {
    hide Decode, Frames, Frame, DataKept, Run;
    var events := [Attach, StartProduction, Push("a"), Push("b")];
    var s1 := INITIAL.(attached := true, everAttached := true);
    var s2 := s1.(started := true);
    var s3 := Step(s2, Push("a"));
    assert [] + "a" == "a" && "a" + "b" == "ab";
    RunNone(INITIAL);
    AlongRun(events, 0, INITIAL);
    AlongRun(events, 1, s1);
    AlongRun(events, 2, s2);
    AlongRun(events, 3, s3);
    assert events[..4] == events;
  }

  /** Data that gathered behind the chunk in flight when finish() came: the stream is completed
      without it. */
  lemma InFlightLoss()
    ensures var s := Run(INITIAL, [Attach, StartProduction, Push("a"), Push("b"), Finish, WriteDone(true)]);
            s.pushed == "ab" && Decode(s.wire) == Decoded("a", true)
  {
    hide Decode, Frames, Frame, DataKept, Run;
    var events := [Attach, StartProduction, Push("a"), Push("b"), Finish, WriteDone(true)];
    var s4 := Run(INITIAL, events[..4]);
    assert events[..4] == [Attach, StartProduction, Push("a"), Push("b")];
    PushBehindChunk();
    AlongRun(events, 4, s4);
    AlongRun(events, 5, Step(s4, Finish));
    assert events[..6] == events;
    assert Reachable(s4);
    FinishInFlight(s4, 1);
    RunOne(Step(s4, Finish), WriteDone(true));
    FinishCutsOff(s4, [WriteDone(true)]);
  }

  // ----- progress

  /** Without failures and without finishing, two acknowledgements deliver everything that has been
      pushed: the first one frames all that gathered meanwhile, the second one empties the buffer. */
  lemma TwoAcknowledgementsDrain(s: Stream)
    requires Reachable(s) && s.attached && s.started && !s.completed && s.inFlight != []
    ensures var t := Step(s, WriteDone(true));
            if t.inFlight == [] then t.acked == s.pushed && !t.consuming
            else
              var u := Step(t, WriteDone(true));
              u.acked == s.pushed && u.inFlight == [] && !u.consuming && u.attached
  {
    hide Frames;
    ReachableKeeps(s);
    var t := Step(s, WriteDone(true));
    StepKeeps(s, WriteDone(true));
    assert t.acked + [] == t.acked;
    if t.inFlight != [] {
      var u := Step(t, WriteDone(true));
      StepKeeps(t, WriteDone(true));
      assert u.acked + [] == u.acked;
    }
  }

  // ----- after the end

  /** Once the consumer is detached, by the last chunk or by a failed write, nothing is handed to the
      socket any more, whatever happens, and the finish callback is not called again. */
  lemma {:induction false} EndedStaysSilent(s: Stream, events: seq<Event>)
    requires Inv(s) && s.everAttached && !s.attached
    ensures var t := Run(s, events);
            t.wire == s.wire && t.inFlight == [] && t.finishes == 1 && t.errors == s.errors && !t.attached
    decreases |events|
  {
    hide DataKept;
    if events != [] {
      if Enabled(s, events[0]) {
        StepKeeps(s, events[0]);
        EndedStaysSilent(Step(s, events[0]), events[1..]);
      } else {
        EndedStaysSilent(s, events[1..]);
      }
    }
  }
}
