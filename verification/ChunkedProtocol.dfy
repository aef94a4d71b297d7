/** The protocol between a streaming producer and the chunked response that consumes it, as a state
    machine on values. Every public call and every completion of a socket write is one step. */
module ChunkedProtocol {
  import opened Strings
  import opened ChunkFrame

  /** A socket write that was started: a frame of `size` bytes of payload, or the last chunk. */
  datatype Write = Chunk(size: nat) | Last

  datatype Stream = Stream(
    // the producer
    buffer: string, consuming: bool, completed: bool, attached: bool,
    // the connection: all bytes handed to the socket, and the writes that are not answered yet
    wire: string, inFlight: seq<Write>,
    // calls of on_error, end_production (with on_finish), and end
    errors: nat, finishes: nat, closes: nat,
    // which parts of send_chunked have run
    everAttached: bool, started: bool,
    // history: what was pushed, what was acknowledged, the payloads that were framed,
    // how many bytes at the front of the buffer have been framed, whether the last chunk was written
    pushed: string, acked: string, payloads: seq<string>, sent: nat, terminated: bool)

  const INITIAL := Stream([], false, false, false, [], [], 0, 0, 0, false, false, [], [], [], 0, false)

  datatype Event =
    | Push(data: string)
    | Flush
    | Finish
    | Attach
    | StartProduction
    | WriteDone(ok: bool)

  // ----- the callback of send_chunked

  function WriteLast(s: Stream): Stream {
    s.(wire := s.wire + TERMINATOR, inFlight := s.inFlight + [Last], terminated := true)
  }

  function WriteFrame(s: Stream): Stream {
    var avail := |s.buffer|;
    s.(wire := s.wire + Frame(s.buffer), inFlight := s.inFlight + [Chunk(avail)],
       payloads := s.payloads + [s.buffer], sent := avail)
  }

  /** on_produce: the flag is set first, completion is tested before the amount of data. Without data
      it calls has_consumed(0), which finds the buffer empty and lets the consumer go idle. */
  function OnProduce(s: Stream): Stream {
    var s := s.(consuming := true);
    if s.completed then WriteLast(s)
    else if s.buffer == [] then s.(consuming := false, sent := 0)
    else WriteFrame(s)
  }

  // ----- the producer

  function ProducedData(s: Stream): Stream {
    if s.consuming || !s.attached then s else OnProduce(s)
  }

  function HasConsumed(s: Stream, size: nat): Stream {
    var taken := if |s.buffer| < size then |s.buffer| else size;
    var s := s.(buffer := s.buffer[taken..], acked := s.acked + s.buffer[..taken], sent := 0);
    if s.buffer == [] then s.(consuming := false)
    else if s.attached then OnProduce(s)
    else s
  }

  function EndProduction(s: Stream): Stream {
    s.(attached := false, finishes := s.finishes + 1)
  }

  // ----- the completion handlers

  function LastWritten(s: Stream): Stream {
    EndProduction(s).(closes := s.closes + 1)
  }

  function FrameWritten(s: Stream, size: nat, ok: bool): Stream {
    if ok then HasConsumed(s, size)
    else EndProduction(s.(errors := s.errors + 1)).(closes := s.closes + 1)
  }

  // ----- steps

  predicate Enabled(s: Stream, e: Event) {
    match e
    case Attach => !s.everAttached
    case StartProduction => s.everAttached && !s.started
    case WriteDone(_) => s.inFlight != []
    case _ => true
  }

  function Step(s: Stream, e: Event): Stream
    requires Enabled(s, e)
  {
    match e
    case Push(data) => ProducedData(s.(buffer := s.buffer + data, pushed := s.pushed + data))
    case Flush => ProducedData(s)
    case Finish => ProducedData(s.(completed := true))
    case Attach => s.(attached := true, everAttached := true)
    case StartProduction =>
      var s := s.(started := true);
      if s.buffer != [] then ProducedData(s) else s
    case WriteDone(ok) =>
      var write := s.inFlight[0];
      var s := s.(inFlight := s.inFlight[1..]);
      match write
      case Last => LastWritten(s)
      case Chunk(size) => FrameWritten(s, size, ok)
  }

  /** Any interleaving of events; one that cannot happen in a state is no event there. */
  function Run(s: Stream, events: seq<Event>): Stream
    decreases |events|
  {
    if events == [] then s
    else Run(if Enabled(s, events[0]) then Step(s, events[0]) else s, events[1..])
  }

  // ----- what every reachable state keeps

  function WireOf(payloads: seq<string>, terminated: bool): string {
    Frames(payloads) + if terminated then TERMINATOR else []
  }

  predicate DataKept(s: Stream) {
    && s.pushed == s.acked + s.buffer
    && s.sent <= |s.buffer| && Concat(s.payloads) == s.acked + s.buffer[..s.sent]
    && (forall i :: 0 <= i < |s.payloads| ==> s.payloads[i] != [])
    && s.wire == WireOf(s.payloads, s.terminated)
    && (s.terminated ==> s.completed && s.sent == 0)
  }

  predicate WritesKept(s: Stream) {
    match |s.inFlight|
    case 0 => true
    case 1 =>
      (match s.inFlight[0]
       case Last => s.terminated && s.consuming && s.attached
       case Chunk(size) =>
         && !s.terminated && s.consuming && s.attached
         && 0 < size == s.sent <= |s.buffer| && s.payloads != [] && s.payloads[|s.payloads| - 1] == s.buffer[..size])
    case _ => false
  }

  predicate FlagsKept(s: Stream) {
    && (s.attached ==> s.everAttached && s.finishes == s.closes == 0)
    && (s.everAttached && !s.attached ==> s.finishes == 1 && s.closes == 1)
    && s.errors == (if s.everAttached && !s.attached && !s.terminated then 1 else 0)
    && (!s.everAttached ==> !s.consuming && !s.started && s.finishes == s.closes == 0
                            && s.inFlight == [] && s.sent == 0 && !s.terminated)
    && (s.attached && s.inFlight == [] ==> !s.consuming && s.sent == 0 && !s.terminated)
    && (s.attached && s.started && s.buffer != [] ==> s.consuming)
  }

  predicate Inv(s: Stream) {
    DataKept(s) && WritesKept(s) && FlagsKept(s)
  }
}
