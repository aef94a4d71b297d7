/** What the request parser computes, as a function on values: a head is consumed in small
    steps, one word or one line at a time, until the buffer holds no further complete token. */
module RequestSyntax {
  import opened Config
  import opened Strings

  datatype Progress = Verb | Url | ProtocolAndVersion | ProtocolAndVersionPhase2 | Fields | Body
  {
    function Rank(): nat {
      match this
      case Verb => 0
      case Url => 1
      case ProtocolAndVersion => 2
      case ProtocolAndVersionPhase2 => 3
      case Fields => 4
      case Body => 5
    }
  }

  datatype ParseError =
    | HeaderBufferExceeded
    | NoProtocolVersion
    | ExtraTokens
    | FieldStart
    | TooManyFields
    | NoColon
    | BadCookie

  datatype Header = Header(
    verb: string, url: string, protocol: string, version: string,
    fields: map<string, string>, cookies: map<string, string>)

  datatype Parser = Parser(header: Header, buffer: string, progress: Progress, fieldCount: nat)
  {
    predicate Finished() {
      progress.Body?
    }

    /** The parser after `more` arrived behind the unconsumed bytes. */
    function Append(more: string): Parser {
      this.(buffer := buffer + more)
    }

    /** What later parsing can still see: a request-line word that is not terminated yet will be
        assigned again, so its current content is no part of it. */
    function Observable(): Parser {
      match progress
      case Verb => this.(header := header.(verb := ""))
      case Url => this.(header := header.(url := ""))
      case _ => this
    }
  }

  const EMPTY_HEADER := Header("", "", "", "", map[], map[])
  const INITIAL := Parser(EMPTY_HEADER, "", Verb, 0)

  /** NeedMore is the `false` of feed, which comes with exactly one request to read more. */
  datatype Outcome = Finished | NeedMore | Failed(error: ParseError)

  datatype Result = Result(parser: Parser, outcome: Outcome)

  datatype StepResult =
    | Advance(parser: Parser)
    | Stuck(parser: Parser)
    | Reject(parser: Parser, error: ParseError)

  // ----- tokens

  /** Where the word at the front ends: the first space or carriage return, |s| when neither occurs. */
  function WordEnd(s: string): (i: nat)
    ensures i <= |s|
    ensures i < |s| ==> s[i] == ' ' || s[i] == '\r'
    ensures ' ' !in s[..i] && '\r' !in s[..i]
  {
    var space, newLine := Find(s, ' '), Find(s, '\r');
    assert space <= newLine ==> s[..space] == s[..newLine][..space];
    assert newLine <= space ==> s[..newLine] == s[..space][..newLine];
    if space < newLine then space else newLine
  }

  predicate CrlfAt(s: string, i: int) {
    0 <= i < |s| - 1 && s[i] == '\r' && s[i + 1] == '\n'
  }

  /** Where the line at the front ends: the first CRLF, |s| when there is none. */
  function LineEnd(s: string): (i: nat)
    ensures i <= |s|
    ensures i < |s| ==> CrlfAt(s, i)
    ensures forall k {:trigger CrlfAt(s, k)} :: 0 <= k < i ==> !CrlfAt(s, k)
  {
    if s == [] || CrlfAt(s, 0) then 0 else
      var i := 1 + LineEnd(s[1..]);
      assert forall k {:trigger CrlfAt(s, k)} :: 0 < k < i ==> CrlfAt(s, k) == CrlfAt(s[1..], k - 1);
      i
  }

  // ----- fields

  /** One run of the separator counts as one separator. */
  function CompressRuns(s: string, c: char): string {
    if |s| >= 2 && s[0] == c && s[1] == c then CompressRuns(s[1..], c)
    else if s == [] then [] else [s[0]] + CompressRuns(s[1..], c)
  }

  function CookiesOf(pairs: seq<string>): Option<map<string, string>> {
    if pairs == [] then Some(map[])
    else
      var last := |pairs| - 1;
      var eq := Find(pairs[last], '=');
      match CookiesOf(pairs[..last])
      case None => None
      case Some(earlier) =>
        if eq == |pairs[last]| then None
        else Some(earlier[TrimLeft(pairs[last][..eq]) := pairs[last][eq + 1..]])
  }

  function ParseCookies(entry: string): Option<map<string, string>> {
    if entry == [] then None
    else CookiesOf(Split(CompressRuns(entry, ';'), c => c == ';'))
  }

  datatype FieldResult = Field(header: Header) | BadField(error: ParseError)

  /** A cookie that is already there keeps its value, any other field is overwritten. */
  function AddField(h: Header, line: string): FieldResult {
    var colon := Find(line, ':');
    if colon == |line| then BadField(NoColon)
    else
      var front, back := TrimRight(line[..colon]), TrimLeft(line[colon + 1..]);
      if Lower(front) == "cookie" then
        match ParseCookies(back)
        case None => BadField(BadCookie)
        case Some(cookies) => Field(h.(cookies := cookies + h.cookies))
      else Field(h.(fields := h.fields[front := back]))
  }

  // ----- one step

  function TakeLine(p: Parser): Parser
    requires LineEnd(p.buffer) < |p.buffer|
  {
    p.(buffer := p.buffer[LineEnd(p.buffer) + 2..])
  }

  function StepVerb(p: Parser): StepResult {
    var end := WordEnd(p.buffer);
    if end == |p.buffer| then Stuck(p)
    else
      var header := p.header.(verb := p.buffer[..end]);
      if p.buffer[end] != ' ' then Stuck(p.(header := header, buffer := p.buffer[end..]))
      else Advance(p.(header := header, buffer := p.buffer[end + 1..], progress := Url))
  }

  function StepUrl(p: Parser): StepResult {
    var end := WordEnd(p.buffer);
    if end == |p.buffer| then Stuck(p)
    else
      var header := p.header.(url := p.buffer[..end]);
      if p.buffer[end] != ' ' then Stuck(p.(header := header, buffer := p.buffer[end..]))
      else Advance(p.(header := header, buffer := p.buffer[end + 1..], progress := ProtocolAndVersion))
  }

  function StepProtocol(p: Parser): StepResult {
    var end := WordEnd(p.buffer);
    if end == |p.buffer| then Stuck(p)
    else
      var word, q := p.buffer[..end], p.(buffer := p.buffer[end..]);
      var slash := Find(word, '/');
      if slash == |word| then Reject(q, NoProtocolVersion)
      else
        Advance(q.(header := p.header.(protocol := word[..slash], version := word[slash + 1..]),
                   progress := ProtocolAndVersionPhase2))
  }

  function StepLineRest(p: Parser): StepResult {
    var end := LineEnd(p.buffer);
    if end == |p.buffer| then Stuck(p)
    else if end != 0 then Reject(TakeLine(p), ExtraTokens)
    else Advance(TakeLine(p).(progress := Fields))
  }

  function StepField(p: Parser): StepResult {
    var end := LineEnd(p.buffer);
    if end == |p.buffer| then Stuck(p)
    else
      var line, q := p.buffer[..end], TakeLine(p);
      if line == [] then Advance(q.(progress := Body))
      else if !IsAlnum(line[0]) then Reject(q, FieldStart)
      else if p.fieldCount + 1 > HEADER_FIELD_MAX then Reject(q, TooManyFields)
      else
        var counted := q.(fieldCount := p.fieldCount + 1);
        match AddField(p.header, line)
        case BadField(error) => Reject(counted, error)
        case Field(header) => Advance(counted.(header := header))
  }

  function Step(p: Parser): (r: StepResult)
    requires !p.Finished()
    ensures r.Advance? ==> |r.parser.buffer| < |p.buffer|
  {
    match p.progress
    case Verb => StepVerb(p)
    case Url => StepUrl(p)
    case ProtocolAndVersion => StepProtocol(p)
    case ProtocolAndVersionPhase2 => StepLineRest(p)
    case Fields => StepField(p)
  }

  // ----- a whole feed

  /** Steps until the head ends, is rejected, or the next token is not complete. */
  function Run(p: Parser): Result
    decreases |p.buffer|
  {
    if p.Finished() then Result(p, Finished)
    else
      match Step(p)
      case Advance(q) => Run(q)
      case Stuck(q) => Result(q, NeedMore)
      case Reject(q, error) => Result(q, Failed(error))
  }

  /** One call of feed with `chunk` ready on the connection. A finished parser does not look at it. */
  function Feed(p: Parser, chunk: string): Result {
    if p.Finished() then Result(p, Finished)
    else if |p.Append(chunk).buffer| > HEADER_BUFFER_MAX then
      Result(p.Append(chunk), Failed(HeaderBufferExceeded))
    else Run(p.Append(chunk))
  }

  /** feed without the size check. */
  function FeedUnlimited(p: Parser, chunk: string): Result {
    if p.Finished() then Result(p, Finished) else Run(p.Append(chunk))
  }

  datatype Reading = Reading(parser: Parser, outcome: Outcome, unfed: seq<string>)
  {
    /** The parser with everything that was not fed to it put behind its buffer. */
    function Rest(): Parser {
      parser.Append(Concat(unfed))
    }
  }

  /** The reads of a connection fed in order. A further read only happens after NeedMore. */
  function FeedAll(p: Parser, chunks: seq<string>, limited: bool): Reading
    decreases |chunks|
  {
    if p.Finished() then Reading(p, Finished, chunks)
    else if chunks == [] then Reading(p, NeedMore, [])
    else
      var r := if limited then Feed(p, chunks[0]) else FeedUnlimited(p, chunks[0]);
      if r.outcome.NeedMore? then FeedAll(r.parser, chunks[1..], limited)
      else Reading(r.parser, r.outcome, chunks[1..])
  }
}
