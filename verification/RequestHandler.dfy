/** The request handler as the library runs it: read callbacks that update one object, its parser,
    its connection and the sink of the body. */
module RequestHandlerObject {
  import opened Config
  import opened Strings
  import opened RequestSyntax
  import opened RequestReading
  import opened Connection
  import opened RequestParserObject
  import UrlSyntax

  /** The string a route reads the body into. */
  class StringTarget {
    var contents: string

    constructor (contents: string)
      ensures this.contents == contents
    {
      this.contents := contents;
    }
  }

  class HttpStringSink {
    const target: StringTarget
    var writtenBytes: nat

    constructor (target: StringTarget)
      ensures this.target == target && writtenBytes == 0
    {
      this.target := target;
      writtenBytes := 0;
    }

    method Write(data: string, size: nat)
      requires size <= |data|
      modifies this, target
      ensures writtenBytes == old(writtenBytes) + size
      ensures target.contents == old(target.contents) + data[..size]
    {
      writtenBytes := writtenBytes + size;
      target.contents := target.contents + data[..size];
    }

    /** Takes the front of a receive buffer, and no more than the buffer holds. */
    method WriteBuffer(buffer: string, amount: nat)
      modifies this, target
      ensures var size := if |buffer| < amount then |buffer| else amount;
              && writtenBytes == old(writtenBytes) + size
              && target.contents == old(target.contents) + buffer[..size]
    {
      Write(buffer, if |buffer| < amount then |buffer| else amount);
    }
  }

  /** What a read callback is told: an error code, here whether it is an abort, or nothing and the
      bytes that are ready. */
  function Answer(error: Option<bool>, ready: string): Delivery {
    if error.Some? then ReadError(error.value) else Data(ready)
  }

  class RequestHandler {
    const parser: RequestParser
    const connection: HttpConnection
    const target: StringTarget
    // the limit the route passes to read_body
    const max: nat
    var sink: HttpStringSink
    var phase: Phase
    var maxRead: nat
    var fulfilled: nat
    var failed: nat
    var replies: seq<int>
    var closed: nat

    ghost predicate Wired()
      reads this, connection, sink
    {
      sink.target == target && connection.Valid() && max < TWO_TO_64
    }

    ghost function State(): Reader
      reads this, parser, connection, target, sink
    {
      Reader(parser.State(), phase, target.contents, sink.writtenBytes, maxRead,
             connection.pendingReads, fulfilled, failed, replies, closed)
    }

    /** A connection whose head is being read. */
    constructor (target: StringTarget, max: nat)
      requires max < TWO_TO_64
      ensures Wired() && State() == Start(target.contents)
      ensures this.target == target && this.max == max
      ensures fresh(parser) && fresh(connection) && fresh(sink)
    {
      parser := new RequestParser();
      var connection := new HttpConnection();
      connection.Read();
      this.connection := connection;
      this.target := target;
      this.max := max;
      sink := new HttpStringSink(target);
      phase, maxRead, fulfilled, failed, replies, closed := HeadPhase, 0, 0, 0, [], 0;
    }

    /** Writes what the parser has left, and reads on if that is not everything. */
    method BodyReadStart()
      requires Wired() && phase.BodyPhase? && maxRead == max && sink.writtenBytes == 0
      modifies this, parser, connection, target, sink
      ensures Wired() && sink == old(sink) && State() == StartBody(old(State()), max)
    {
      hide RequestReading.ContentLength;
      var length := ContentLength(parser.header);
      if length.None? {
        failed := failed + 1;
        replies := replies + [411];
        return;
      }
      if parser.buffer != [] {
        var fromHeaderBuffer := |parser.buffer|;
        if max != 0 {
          fromHeaderBuffer := if max < fromHeaderBuffer then max else fromHeaderBuffer;
        }
        ghost var buffer := parser.buffer;
        var bodyBegin := parser.ReadFront(fromHeaderBuffer);
        assert bodyBegin == buffer[..fromHeaderBuffer] && parser.buffer == buffer[fromHeaderBuffer..];
        assert bodyBegin[..fromHeaderBuffer] == bodyBegin;
        sink.Write(bodyBegin, fromHeaderBuffer);
        if parser.buffer == [] && Minus(length.value, fromHeaderBuffer) > 0 && (max == 0 || fromHeaderBuffer < max) {
          connection.Read();
        } else {
          fulfilled := fulfilled + 1;
        }
      } else {
        var remaining := Max(ToSigned(length.value) - sink.writtenBytes, 0);
        if remaining == 0 {
          fulfilled := fulfilled + 1;
        } else {
          connection.Read();
        }
      }
    }

    method ReadBody()
      requires Wired()
      modifies this, parser, connection, target, sink
      ensures Wired() && fresh({sink} - {old(sink)}) && State() == StartBody(old(State()), max)
    {
      hide RequestReading.ContentLength;
      phase := BodyPhase;
      maxRead := max;
      sink := new HttpStringSink(target);
      BodyReadStart();
    }

    /** The callback of a read while the head is read. */
    method HeaderReadHandler(error: Option<bool>)
      requires Wired() && phase.HeadPhase?
      modifies this, parser, connection, target, sink
      ensures Wired() && fresh({sink} - {old(sink)})
      ensures State() == HandleHead(old(State()), Answer(error, old(connection.Ready())), max)
    {
      hide RequestReading.StartBody, RequestSyntax.Feed;
      if error.Some? {
        closed := closed + 1;
        return;
      }
      var fed := parser.Feed(connection);
      match fed
      case NeedMore =>
      case Failed(_) => replies := replies + [400];
      case Finished =>
        var url := UrlSyntax.ParseUrl(parser.header.url);
        if url.None? {
          replies := replies + [400];
        } else {
          ReadBody();
        }
    }

    /** The callback of a read while the body is read. */
    method BodyReadHandler(error: Option<bool>)
      requires Wired() && phase.BodyPhase? && maxRead < TWO_TO_64 && ContentLength(parser.header).Some?
      modifies this, parser, connection, target, sink
      ensures Wired() && sink == old(sink)
      ensures State() == HandleBody(old(State()), Answer(error, old(connection.Ready())))
    {
      hide RequestReading.ContentLength;
      if error.Some? {
        failed := failed + 1;
        if !error.value {
          closed := closed + 1;
        }
        return;
      }
      if maxRead != 0 {
        var remainingLimit := ToSigned(maxRead) - sink.writtenBytes;
        if remainingLimit <= 0 {
          fulfilled := fulfilled + 1;
          return;
        }
      }
      sink.WriteBuffer(connection.buffer, connection.bytesReady);
      var remaining := Max(ToSigned(ContentLength(parser.header).value) - sink.writtenBytes, 0);
      if remaining == 0 {
        fulfilled := fulfilled + 1;
      } else {
        connection.Read();
      }
    }

    /** The socket answers the outstanding read, and the callback that is set runs. */
    method OnDelivery(d: Delivery)
      requires Wired() && Valid(State()) && connection.pendingReads > 0
      requires d.Data? ==> |d.bytes| <= BUFFER_SIZE
      modifies this, parser, connection, target, sink
      ensures Wired() && fresh({sink} - {old(sink)})
      ensures State() == Deliver(old(State()), d, max) && Valid(State())
    {
      hide RequestReading.HandleHead, RequestReading.HandleBody, RequestReading.ContentLength;
      DeliverIsValid(State(), d, max);
      if d.Data? {
        connection.Deliver(d.bytes);
      } else {
        connection.Fail();
      }
      var error := if d.ReadError? then Some(d.aborted) else None;
      assert Answer(error, connection.Ready()) == d;
      assert State() == old(State()).(pending := old(State()).pending - 1);
      if phase.HeadPhase? {
        HeaderReadHandler(error);
      } else {
        BodyReadHandler(error);
      }
    }
  }
}
