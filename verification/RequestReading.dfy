/** How a request is read: head first, then the body into a sink, as a function on values.
    Deliveries of the connection are the events; the route's callback asks for the body as soon
    as the head has been parsed. */
module RequestReading {
  import opened Strings
  import opened RequestSyntax
  import opened RequestChunking
  import UrlSyntax

  // ----- machine integers

  const TWO_TO_64: nat := 0x1_0000_0000_0000_0000
  const TWO_TO_63: nat := 0x8000_0000_0000_0000

  /** static_cast<int64_t> of a size_t. */
  function ToSigned(n: nat): int
    requires n < TWO_TO_64
  {
    if n < TWO_TO_63 then n else n - TWO_TO_64
  }

  /** Subtraction of two size_t. */
  function Minus(a: nat, b: nat): (r: nat)
    ensures r < TWO_TO_64
  {
    (a - b) % TWO_TO_64
  }

  function Max(a: int, b: int): int {
    if a < b then b else a
  }

  // ----- the length of the body

  function LeadingDigits(s: string, value: int): int {
    if s == [] || !IsDigit(s[0]) then value
    else LeadingDigits(s[1..], 10 * value + (s[0] as int - '0' as int))
  }

  /** The value of type long long that is nearest to a number. */
  function Clamp(v: int): (r: int)
    ensures -(TWO_TO_63 as int) <= r < TWO_TO_63
    ensures r == v <==> -(TWO_TO_63 as int) <= v < TWO_TO_63
  {
    if v >= TWO_TO_63 then TWO_TO_63 - 1
    else if v < -(TWO_TO_63 as int) then -(TWO_TO_63 as int)
    else v
  }

  /** std::atoll, which reads as many digits as there are and gives 0 when there are none. A number
      that is no long long becomes the nearest one. */
  function Atoll(s: string): int {
    var t := TrimLeft(s);
    if t != [] && t[0] == '-' then Clamp(-LeadingDigits(t[1..], 0))
    else if t != [] && t[0] == '+' then Clamp(LeadingDigits(t[1..], 0))
    else Clamp(LeadingDigits(t, 0))
  }

  /** None stands for the exception that a missing field raises. */
  function ContentLength(h: Header): (n: Option<nat>)
    ensures n.None? <==> "Content-Length" !in h.fields
    ensures n.Some? ==> n.value < TWO_TO_64
  {
    if "Content-Length" in h.fields then Some(Atoll(h.fields["Content-Length"]) % TWO_TO_64) else None
  }

  // ----- states and events

  datatype Phase = HeadPhase | BodyPhase

  /** `pending` counts reads that were started and not answered; `fulfilled` and `failed` count how
      often the promise of read_body was settled; `replies` are status codes sent by the library. */
  datatype Reader = Reader(
    parser: Parser, phase: Phase, sink: string, written: nat, maxRead: nat,
    pending: nat, fulfilled: nat, failed: nat, replies: seq<int>, closed: nat)

  datatype Delivery = Data(bytes: string) | ReadError(aborted: bool)

  function Start(target: string): Reader {
    Reader(INITIAL, HeadPhase, target, 0, 0, 1, 0, 0, [], 0)
  }

  // ----- the handlers

  /** read_body with a fresh sink on the target string, then body_read_start. */
  function StartBody(r: Reader, max: nat): Reader
    requires max < TWO_TO_64
  {
    var r := r.(phase := BodyPhase, maxRead := max, written := 0);
    match ContentLength(r.parser.header)
    case None => r.(failed := r.failed + 1, replies := r.replies + [411])
    case Some(length) =>
      var buffer := r.parser.buffer;
      if buffer != [] then
        var amount := if max != 0 && max < |buffer| then max else |buffer|;
        var r := r.(parser := r.parser.(buffer := buffer[amount..]),
                    sink := r.sink + buffer[..amount], written := amount);
        if r.parser.buffer == [] && Minus(length, amount) > 0 && (max == 0 || amount < max) then
          r.(pending := r.pending + 1)
        else
          r.(fulfilled := r.fulfilled + 1)
      else if Max(ToSigned(length) - r.written, 0) == 0 then r.(fulfilled := r.fulfilled + 1)
      else r.(pending := r.pending + 1)
  }

  function HandleHead(r: Reader, d: Delivery, max: nat): Reader
    requires max < TWO_TO_64
  {
    match d
    case ReadError(_) => r.(closed := r.closed + 1)
    case Data(bytes) =>
      var fed := Feed(r.parser, bytes);
      var r := r.(parser := fed.parser);
      match fed.outcome
      case NeedMore => r.(pending := r.pending + 1)
      case Failed(_) => r.(replies := r.replies + [400])
      case Finished =>
        if UrlSyntax.Parse(r.parser.header.url).None? then r.(replies := r.replies + [400])
        else StartBody(r, max)
  }

  predicate LimitReached(r: Reader)
    requires r.maxRead < TWO_TO_64
  {
    r.maxRead != 0 && ToSigned(r.maxRead) - r.written <= 0
  }

  function HandleBody(r: Reader, d: Delivery): Reader
    requires r.maxRead < TWO_TO_64 && ContentLength(r.parser.header).Some?
  {
    match d
    case ReadError(aborted) =>
      r.(failed := r.failed + 1, closed := r.closed + if aborted then 0 else 1)
    case Data(bytes) =>
      if LimitReached(r) then r.(fulfilled := r.fulfilled + 1)
      else
        var r := r.(sink := r.sink + bytes, written := r.written + |bytes|);
        if Max(ToSigned(ContentLength(r.parser.header).value) - r.written, 0) == 0 then
          r.(fulfilled := r.fulfilled + 1)
        else r.(pending := r.pending + 1)
  }

  // ----- runs

  /** What holds between deliveries: either one read is outstanding and nothing is concluded yet,
      or no read is outstanding and the request is concluded; the promise settles at most once. */
  predicate Valid(r: Reader) {
    && r.maxRead < TWO_TO_64 && r.fulfilled + r.failed <= 1
    && (if r.pending > 0 then r.pending == 1 && r.fulfilled == r.failed == r.closed == 0 && r.replies == []
        else r.fulfilled + r.failed + r.closed + |r.replies| > 0)
    && (r.phase.HeadPhase? && r.pending > 0 ==> !r.parser.Finished())
    && (r.phase.BodyPhase? && r.pending > 0 ==> ContentLength(r.parser.header).Some?)
  }

  /** One answered read. */
  function Deliver(r: Reader, d: Delivery, max: nat): Reader
    requires Valid(r) && r.pending > 0 && max < TWO_TO_64
  {
    var r := r.(pending := r.pending - 1);
    match r.phase
    case HeadPhase => HandleHead(r, d, max)
    case BodyPhase => HandleBody(r, d)
  }

  lemma StartBodyIsValid(r: Reader, max: nat)
    requires max < TWO_TO_64 && r.pending == r.fulfilled == r.failed == r.closed == 0 && r.replies == []
    ensures Valid(StartBody(r, max))
  {
    hide Atoll;
  }

  lemma HeadIsValid(r: Reader, d: Delivery, max: nat)
    requires max < TWO_TO_64 && r.pending == r.fulfilled == r.failed == r.closed == 0 && r.replies == []
    requires r.phase.HeadPhase? && r.maxRead < TWO_TO_64 && !r.parser.Finished()
    ensures Valid(HandleHead(r, d, max))
  {
    hide Run, StartBody, ContentLength, UrlSyntax.Parse;
    if d.Data? {
      EndedIsObservable(r.parser.Append(d.bytes));
      StartBodyIsValid(r.(parser := Feed(r.parser, d.bytes).parser), max);
    }
  }

  /** In every run a read is outstanding or the request is concluded, never both. */
  lemma DeliverIsValid(r: Reader, d: Delivery, max: nat)
    requires Valid(r) && r.pending > 0 && max < TWO_TO_64
    ensures Valid(Deliver(r, d, max))
  {
    hide HandleHead, ContentLength;
    if r.phase.HeadPhase? {
      HeadIsValid(r.(pending := 0), d, max);
    }
  }

  datatype Reached = Reached(reader: Reader, unread: seq<Delivery>)

  /** The deliveries answer reads as long as reads are outstanding. */
  function Process(r: Reader, events: seq<Delivery>, max: nat): (s: Reached)
    requires Valid(r) && max < TWO_TO_64
    ensures Valid(s.reader)
    decreases |events|
  {
    if events == [] || r.pending == 0 then Reached(r, events)
    else
      DeliverIsValid(r, events[0], max);
      Process(Deliver(r, events[0], max), events[1..], max)
  }

  /** Successful reads only. */
  function Reads(chunks: seq<string>): (events: seq<Delivery>)
    ensures |events| == |chunks|
  {
    seq(|chunks|, i requires 0 <= i < |chunks| => Data(chunks[i]))
  }
}
