/** The request parser as the library runs it: one object whose buffer is consumed in place. */
module RequestParserObject {
  import opened Config
  import opened Strings
  import opened RequestSyntax
  import opened Connection

  class RequestParser {
    var header: Header
    var buffer: string
    var progress: Progress
    var fieldCount: nat

    ghost function State(): Parser
      reads this
    {
      Parser(header, buffer, progress, fieldCount)
    }

    constructor ()
      ensures State() == INITIAL
    {
      header := EMPTY_HEADER;
      buffer := "";
      progress := Verb;
      fieldCount := 0;
    }

    method GetLineFromBuffer() returns (found: bool, line: string)
      modifies `buffer
      ensures var end := LineEnd(old(buffer));
              if found then
                end < |old(buffer)| && line == old(buffer)[..end] && buffer == old(buffer)[end + 2..]
              else
                end == |old(buffer)| && buffer == old(buffer)
    {
      line := "";
      var i := 0;
      while i < |buffer|
        invariant i <= |buffer| && buffer == old(buffer) && line == buffer[..i]
        invariant forall k {:trigger CrlfAt(buffer, k)} :: 0 <= k < i ==> !CrlfAt(buffer, k)
      {
        if buffer[i] != '\r' {
          line := line + [buffer[i]];
        } else if i + 1 < |buffer| && buffer[i + 1] == '\n' {
          assert CrlfAt(buffer, i);
          buffer := buffer[i + 2..];
          return true, line;
        } else {
          line := line + ['\r'];
        }
        i := i + 1;
      }
      found := false;
    }

    method GetWordFromBuffer() returns (word: Option<string>)
      modifies `buffer
      ensures var end := WordEnd(old(buffer));
              match word
              case None => end == |old(buffer)| && buffer == old(buffer)
              case Some(w) =>
                end < |old(buffer)| && w == old(buffer)[..end] && buffer == old(buffer)[end..] && buffer != []
    {
      var space, newLine := Find(buffer, ' '), Find(buffer, '\r');
      if space == |buffer| && newLine == |buffer| {
        return None;
      }
      var first := if space < newLine then space else newLine;
      word := Some(buffer[..first]);
      buffer := buffer[first..];
    }

    method ExpectSpace() returns (ok: bool)
      modifies `buffer
      ensures ok <==> old(buffer) != [] && old(buffer)[0] == ' '
      ensures buffer == if ok then old(buffer)[1..] else old(buffer)
    {
      if buffer == [] || buffer[0] != ' ' {
        return false;
      }
      buffer := buffer[1..];
      ok := true;
    }

    /** Takes a word and the space behind it; the word is assigned even when the space is missing. */
    method TakeVerb() returns (ok: bool)
      requires progress.Verb?
      modifies this
      ensures ok ==> progress.Url?
      ensures Step(old(State())) == if ok then Advance(State()) else Stuck(State())
    {
      hide WordEnd, StepUrl, StepProtocol, StepLineRest, StepField;
      var word := GetWordFromBuffer();
      if word.None? {
        return false;
      }
      header := header.(verb := word.value);
      ok := ExpectSpace();
      if ok {
        progress := Progress.Url;
      }
    }

    method TakeUrl() returns (ok: bool)
      requires progress.Url?
      modifies this
      ensures ok ==> progress.ProtocolAndVersion?
      ensures Step(old(State())) == if ok then Advance(State()) else Stuck(State())
    {
      hide WordEnd, StepVerb, StepProtocol, StepLineRest, StepField;
      var word := GetWordFromBuffer();
      if word.None? {
        return false;
      }
      header := header.(url := word.value);
      ok := ExpectSpace();
      if ok {
        progress := ProtocolAndVersion;
      }
    }

    method TakeProtocol() returns (r: Outcome)
      requires progress.ProtocolAndVersion?
      modifies this
      ensures r.Finished? ==> progress.ProtocolAndVersionPhase2?
      ensures Step(old(State())) == match r
                                    case Finished => Advance(State())
                                    case NeedMore => Stuck(State())
                                    case Failed(error) => Reject(State(), error)
    {
      var word := GetWordFromBuffer();
      if word.None? {
        return NeedMore;
      }
      var slash := Find(word.value, '/');
      if slash == |word.value| {
        return Failed(NoProtocolVersion);
      }
      header := header.(protocol := word.value[..slash], version := word.value[slash + 1..]);
      progress := ProtocolAndVersionPhase2;
      r := Finished;
    }

    method TakeLineRest() returns (r: Outcome)
      requires progress.ProtocolAndVersionPhase2?
      modifies this
      ensures r.Finished? ==> progress.Fields?
      ensures Step(old(State())) == match r
                                    case Finished => Advance(State())
                                    case NeedMore => Stuck(State())
                                    case Failed(error) => Reject(State(), error)
    {
      var found, mustBeEmpty := GetLineFromBuffer();
      if !found {
        return NeedMore;
      }
      if mustBeEmpty != [] {
        return Failed(ExtraTokens);
      }
      progress := Fields;
      r := Finished;
    }

    /** The request line. Finished means that the fields come next. */
    method ParseWords() returns (r: Outcome)
      requires progress.Rank() < Fields.Rank()
      modifies this
      ensures match r
              case Finished => progress.Fields? && Run(old(State())) == Run(State())
              case _ => Run(old(State())) == Result(State(), r)
    {
      hide StepVerb, StepUrl, StepProtocol, StepLineRest, StepField;
      ghost var start := State();
      if progress.Verb? {
        var ok := TakeVerb();
        if !ok {
          return NeedMore;
        }
      }
      assert Run(start) == Run(State());
      if progress.Url? {
        var ok := TakeUrl();
        if !ok {
          return NeedMore;
        }
      }
      assert Run(start) == Run(State());
      if progress.ProtocolAndVersion? {
        r := TakeProtocol();
        if !r.Finished? {
          return;
        }
      }
      assert Run(start) == Run(State());
      if progress.ProtocolAndVersionPhase2? {
        r := TakeLineRest();
        if !r.Finished? {
          return;
        }
      }
      r := Finished;
    }

    /** Counts the line and stores it as a field or as cookies. */
    method StoreField(line: string) returns (error: Option<ParseError>)
      modifies `header, `fieldCount
      ensures fieldCount == old(fieldCount) + 1
      ensures match AddField(old(header), line)
              case BadField(e) => error == Some(e) && header == old(header)
              case Field(h) => error == None && header == h
    {
      fieldCount := fieldCount + 1;
      var colon := Find(line, ':');
      if colon == |line| {
        return Some(NoColon);
      }
      var front := TrimRight(line[..colon]);
      var back := TrimLeft(line[colon + 1..]);
      if Lower(front) == "cookie" {
        var cookies := ParseCookies(back);
        if cookies.None? {
          return Some(BadCookie);
        }
        header := header.(cookies := cookies.value + header.cookies);
      } else {
        header := header.(fields := header.fields[front := back]);
      }
      error := None;
    }

    /** One call of feed: takes over the ready bytes, parses as far as they go, and asks for
        another read exactly when they do not reach the end of the head. */
    method Feed(connection: HttpConnection) returns (r: Outcome)
      requires connection.Valid()
      modifies this, connection`pendingReads
      ensures Result(State(), r) == RequestSyntax.Feed(old(State()), old(connection.Ready()))
      ensures connection.pendingReads == old(connection.pendingReads) + (if r.NeedMore? then 1 else 0)
    {
      hide StepVerb, StepUrl, StepProtocol, StepLineRest;
      if progress.Body? {
        return Finished;
      }
      var streamString := Drain(connection, BUFFER_SIZE);
      buffer := buffer + streamString;
      ghost var start := State();
      if |buffer| > HEADER_BUFFER_MAX {
        return Failed(HeaderBufferExceeded);
      }
      if !progress.Fields? {
        r := ParseWords();
        match r
        case Finished =>
        case Failed(_) => return;
        case NeedMore =>
          connection.Read();
          return;
      }
      while true
        invariant progress.Fields? && Run(start) == Run(State())
        invariant connection.pendingReads == old(connection.pendingReads)
        decreases |buffer|
      {
        r := FeedLine();
        match r
        case Finished =>
          if progress.Body? {
            return;
          }
        case Failed(_) => return;
        case NeedMore =>
          connection.Read();
          return;
      }
    }

    /** The body of the loop over header lines. */
    method FeedLine() returns (r: Outcome)
      requires progress.Fields?
      modifies this
      ensures Step(old(State())) == match r
                                    case Finished => Advance(State())
                                    case NeedMore => Stuck(State())
                                    case Failed(error) => Reject(State(), error)
      ensures r.Finished? ==> progress.Fields? || progress.Body?
    {
      hide LineEnd, AddField;
      var found, line := GetLineFromBuffer();
      if !found {
        return NeedMore;
      }
      if line == [] {
        progress := Body;
        return Finished;
      }
      if !IsAlnum(line[0]) {
        return Failed(FieldStart);
      }
      if fieldCount + 1 > HEADER_FIELD_MAX {
        return Failed(TooManyFields);
      }
      var error := StoreField(line);
      r := if error.Some? then Failed(error.value) else Finished;
    }

    /** Takes at most `length` bytes off the front of the buffer. */
    method ReadFront(length: nat) returns (word: string)
      modifies `buffer
      ensures old(buffer) == word + buffer
      ensures |word| == if length < |old(buffer)| then length else |old(buffer)|
    {
      var amount := if length < |buffer| then length else |buffer|;
      word := buffer[..amount];
      buffer := buffer[amount..];
    }
  }
}
