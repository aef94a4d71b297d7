/** The streaming producer and the chunked response as the library runs them: two objects that call
    each other back. */
module StreamingProducerObject {
  import opened ChunkFrame
  import P = ChunkedProtocol

  class StreamingProducer {
    var buffer: string
    var consuming: bool
    var completed: bool
    // the callback on_produce; null when it is empty
    var consumer: ChunkedResponse?
    // calls of the finish callback
    var finishes: nat

    constructor ()
      ensures buffer == [] && !consuming && !completed && consumer == null && finishes == 0
    {
      buffer, consuming, completed, consumer, finishes := [], false, false, null, 0;
    }

    /** `r` is the response this producer was made for; it may not be attached yet. */
    ghost predicate Serves(r: ChunkedResponse)
      reads this, r
    {
      r.producer == this && (consumer != null ==> consumer == r)
    }

    method ProducedData(ghost r: ChunkedResponse)
      requires Serves(r)
      modifies this, r
      ensures Serves(r) && r.State() == P.ProducedData(old(r.State()))
    {
      hide P.OnProduce;
      if consuming {
        return;
      }
      if consumer != null {
        consumer.OnProduce();
      }
    }

    /** operator<<: appends to the buffer and signals. */
    method Append(data: string, ghost r: ChunkedResponse)
      requires Serves(r)
      modifies this, r
      ensures Serves(r) && r.State() == P.Step(old(r.State()), P.Push(data))
    {
      buffer := buffer + data;
      r.pushed := r.pushed + data;
      ProducedData(r);
    }

    method Flush(ghost r: ChunkedResponse)
      requires Serves(r)
      modifies this, r
      ensures Serves(r) && r.State() == P.Step(old(r.State()), P.Flush)
    {
      ProducedData(r);
    }

    method Finish(ghost r: ChunkedResponse)
      requires Serves(r)
      modifies this, r
      ensures Serves(r) && r.State() == P.Step(old(r.State()), P.Finish)
    {
      completed := true;
      ProducedData(r);
    }

    method StartProduction(ghost r: ChunkedResponse)
      requires Serves(r) && r.everAttached && !r.started
      modifies this, r
      ensures Serves(r) && r.State() == P.Step(old(r.State()), P.StartProduction)
    {
      r.started := true;
      if |buffer| > 0 {
        ProducedData(r);
      }
    }

    /** Erases what was written; with data left the consumer is called again, else it goes idle. */
    method HasConsumed(size: nat, ghost r: ChunkedResponse)
      requires Serves(r)
      modifies this, r
      ensures Serves(r) && r.State() == P.HasConsumed(old(r.State()), size)
      decreases if |buffer| > size then 1 else 0, 0
    {
      hide P.OnProduce;
      if |buffer| < size {
        r.acked := r.acked + buffer;
        assert buffer[|buffer|..] == [] && buffer[..|buffer|] == buffer;
        buffer := [];
      } else {
        r.acked := r.acked + buffer[..size];
        buffer := buffer[size..];
      }
      r.sent := 0;
      if |buffer| > 0 {
        if consumer != null {
          consumer.OnProduce();
        }
      } else {
        consuming := false;
      }
    }

    method EndProduction(ghost r: ChunkedResponse)
      requires Serves(r)
      modifies this, r
      ensures Serves(r) && r.State() == P.EndProduction(old(r.State()))
    {
      consumer := null;
      finishes := finishes + 1;
    }
  }

  class ChunkedResponse {
    const producer: StreamingProducer
    var wire: string
    var inFlight: seq<P.Write>
    var errors: nat
    var closes: nat
    // history
    ghost var everAttached: bool
    ghost var started: bool
    ghost var pushed: string
    ghost var acked: string
    ghost var payloads: seq<string>
    ghost var sent: nat
    ghost var terminated: bool

    ghost function State(): P.Stream
      reads this, producer
    {
      P.Stream(producer.buffer, producer.consuming, producer.completed, producer.consumer == this,
               wire, inFlight, errors, producer.finishes, closes, everAttached, started,
               pushed, acked, payloads, sent, terminated)
    }

    constructor ()
      ensures producer.Serves(this) && State() == P.INITIAL
    {
      producer := new StreamingProducer();
      wire, inFlight, errors, closes := [], [], 0, 0;
      everAttached, started := false, false;
      pushed, acked, payloads, sent, terminated := [], [], [], 0, false;
    }

    /** set_on_produce_cb and set_finish_callback, once the header has been sent. */
    method Attach()
      requires producer.Serves(this) && !everAttached
      modifies this, producer
      ensures producer.Serves(this) && State() == P.Step(old(State()), P.Attach)
    {
      producer.consumer := this;
      everAttached := true;
    }

    method WriteLast()
      modifies this
      ensures State() == P.WriteLast(old(State()))
    {
      wire := wire + TERMINATOR;
      inFlight := inFlight + [P.Last];
      terminated := true;
    }

    method WriteFrame()
      requires producer.buffer != []
      modifies this
      ensures State() == P.WriteFrame(old(State()))
    {
      hide Frame;
      var avail := |producer.buffer|;
      var availBytes := BuildFrame(producer.buffer, avail);
      assert producer.buffer[..avail] == producer.buffer;
      wire := wire + availBytes[..];
      inFlight := inFlight + [P.Chunk(avail)];
      payloads := payloads + [producer.buffer];
      sent := avail;
    }

    /** The callback that the producer calls, with the flag that set_on_produce_cb puts around it. */
    method OnProduce()
      requires producer.Serves(this)
      modifies this, producer
      ensures producer.Serves(this) && State() == P.OnProduce(old(State()))
      decreases if |producer.buffer| > 0 then 0 else 1, 1
    {
      hide P.WriteFrame;
      producer.consuming := true;
      if producer.completed {
        WriteLast();
        return;
      }
      if |producer.buffer| == 0 {
        producer.HasConsumed(0, this);
        assert acked == old(acked);
        return;
      }
      WriteFrame();
    }

    /** The completion handler of the write of the last chunk, which does not look at errors. */
    method LastWritten()
      requires producer.Serves(this)
      modifies this, producer
      ensures producer.Serves(this) && State() == P.LastWritten(old(State()))
    {
      producer.EndProduction(this);
      closes := closes + 1;
    }

    /** The completion handler of the write of a frame. */
    method FrameWritten(size: nat, ok: bool)
      requires producer.Serves(this)
      modifies this, producer
      ensures producer.Serves(this) && State() == P.FrameWritten(old(State()), size, ok)
    {
      hide P.HasConsumed;
      if ok {
        producer.HasConsumed(size, this);
      } else {
        errors := errors + 1;
        producer.EndProduction(this);
        closes := closes + 1;
      }
    }

    /** The socket answers the first outstanding write. */
    method WriteDone(ok: bool)
      requires producer.Serves(this) && inFlight != []
      modifies this, producer
      ensures producer.Serves(this) && State() == P.Step(old(State()), P.WriteDone(ok))
    {
      hide P.LastWritten, P.FrameWritten;
      var write := inFlight[0];
      inFlight := inFlight[1..];
      assert State() == old(State()).(inFlight := old(inFlight)[1..]);
      match write
      case Last => LastWritten();
      case Chunk(size) => FrameWritten(size, ok);
    }
  }
}
