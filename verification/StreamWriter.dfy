/** Sending a stream: the connection writes it block by block, and the completion of one write
    starts the next one. */
module StreamWriter {
  import opened Config
  import opened Strings

  /** What the k-th write of a run is answered with: None is success, otherwise the error handler
      is told how many bytes went out. */
  type Answers = nat -> Option<nat>

  /** A call of the completion handler. */
  datatype Call = Call(error: bool, amount: nat)

  // ----- what is written

  /** The blocks handed to the socket, in order, and the call of the handler that ends the run. */
  datatype Sent = Sent(blocks: seq<string>, call: Call)

  function FirstBlock(content: string): string {
    if |content| < BUFFER_SIZE then content else content[..BUFFER_SIZE]
  }

  function Send(content: string, answers: Answers, k: nat): Sent
    decreases |content|
  {
    var block := FirstBlock(content);
    if block == [] then Sent([], Call(false, 0))
    else
      match answers(k)
      case Some(amount) => Sent([block], Call(true, amount))
      case None =>
        if |block| == BUFFER_SIZE then
          var rest := Send(content[BUFFER_SIZE..], answers, k + 1);
          Sent([block] + rest.blocks, rest.call)
        else Sent([block], Call(false, |block|))
  }

  // ----- the objects

  class InputStream {
    const content: string
    var pos: nat
    var gcount: nat

    ghost predicate Valid()
      reads this
    {
      pos <= |content|
    }

    constructor (content: string)
      ensures this.content == content && pos == 0 && Valid()
    {
      this.content, pos, gcount := content, 0, 0;
    }

    /** Reads at most n bytes; gcount tells how many there were. */
    method Read(n: nat) returns (bytes: string)
      requires Valid()
      modifies this
      ensures Valid() && gcount == |bytes| && pos == old(pos) + gcount
      ensures bytes == content[old(pos)..pos]
      ensures gcount == if |content| - old(pos) < n then |content| - old(pos) else n
    {
      gcount := if |content| - pos < n then |content| - pos else n;
      bytes := content[pos..pos + gcount];
      pos := pos + gcount;
    }
  }

  class ConnectionWriter {
    var writeBuffer: string
    // the writes that were started, and the calls of the caller's handler
    var blocks: seq<string>
    var calls: seq<Call>

    constructor ()
      ensures blocks == [] && calls == []
    {
      writeBuffer, blocks, calls := "", [], [];
    }

    /** write(std::istream&): one block, and in the completion handler the rest of the stream. */
    method Write(stream: InputStream, answers: Answers)
      requires stream.Valid()
      modifies this, stream
      ensures var sent := Send(old(stream.content[stream.pos..]), answers, old(|blocks|));
              blocks == old(blocks) + sent.blocks && calls == old(calls) + [sent.call]
      decreases |stream.content| - stream.pos
    {
      ghost var rest := stream.content[stream.pos..];
      writeBuffer := stream.Read(BUFFER_SIZE);
      assert writeBuffer == FirstBlock(rest);
      if stream.gcount != 0 {
        var answer := answers(|blocks|);
        blocks := blocks + [writeBuffer];
        if answer.None? {
          if stream.gcount == BUFFER_SIZE {
            assert stream.content[stream.pos..] == rest[BUFFER_SIZE..];
            Write(stream, answers);
          } else {
            calls := calls + [Call(false, |writeBuffer|)];
          }
        } else {
          calls := calls + [Call(true, answer.value)];
        }
      } else {
        calls := calls + [Call(false, 0)];
      }
    }
  }

  // ----- what that means

  /** Blocks are not empty and hold at most one buffer; together they are a prefix of the stream, and
      without an error they are the whole stream, once and in order, however long it is. */
  lemma {:induction false} StreamIsSent(content: string, answers: Answers, k: nat)
    ensures var sent := Send(content, answers, k);
            && (forall i :: 0 <= i < |sent.blocks| ==> 0 < |sent.blocks[i]| <= BUFFER_SIZE)
            && Concat(sent.blocks) <= content
            && (!sent.call.error ==> Concat(sent.blocks) == content)
    decreases |content|
  {
    var block := FirstBlock(content);
    var sent := Send(content, answers, k);
    if block != [] {
      ConcatOne(block);
      if answers(k).None? && |block| == BUFFER_SIZE {
        var others := content[BUFFER_SIZE..];
        StreamIsSent(others, answers, k + 1);
        assert sent.blocks[1..] == Send(others, answers, k + 1).blocks;
        assert content == block + others;
      }
    }
  }

  /** The handler hears of an error exactly when the last write failed, and then what this write was
      answered with; all writes before it succeeded and were full blocks. Without an error it hears
      how long the last block was that was not full. */
  lemma {:induction false} ErrorEndsTheRun(content: string, answers: Answers, k: nat)
    ensures var sent := Send(content, answers, k);
            var n := |sent.blocks|;
            && (sent.call.error <==> n > 0 && answers(k + n - 1).Some?)
            && (forall m: nat :: k <= m < k + n - 1 ==> answers(m).None?)
            && (forall i :: 0 <= i < n - 1 ==> |sent.blocks[i]| == BUFFER_SIZE)
            && (sent.call.error ==> Some(sent.call.amount) == answers(k + n - 1))
            && (!sent.call.error ==> sent.call.amount == |content| % BUFFER_SIZE)
    decreases |content|
  {
    var block := FirstBlock(content);
    if block != [] && answers(k).None? && |block| == BUFFER_SIZE {
      ErrorEndsTheRun(content[BUFFER_SIZE..], answers, k + 1);
      BlockCount(|content|);
    }
  }

  lemma BlockCount(n: nat)
    requires n >= BUFFER_SIZE
    ensures (n + BUFFER_SIZE - 1) / BUFFER_SIZE == 1 + (n - BUFFER_SIZE + BUFFER_SIZE - 1) / BUFFER_SIZE
    ensures n % BUFFER_SIZE == (n - BUFFER_SIZE) % BUFFER_SIZE
  {}

  /** Without write errors the whole content goes out, in one write for each block begun. */
  lemma {:induction false} NoErrorSendsAll(content: string, answers: Answers, k: nat)
    requires forall i: nat :: answers(i).None?
    ensures var sent := Send(content, answers, k);
            && Concat(sent.blocks) == content
            && |sent.blocks| == (|content| + BUFFER_SIZE - 1) / BUFFER_SIZE
            && sent.call == Call(false, |content| % BUFFER_SIZE)
    decreases |content|
  {
    hide Concat;
    StreamIsSent(content, answers, k);
    if |content| >= BUFFER_SIZE {
      NoErrorSendsAll(content[BUFFER_SIZE..], answers, k + 1);
      BlockCount(|content|);
    }
  }
}
