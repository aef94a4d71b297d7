/** The reading side of a connection, with the socket replaced by explicit deliveries. */
module Connection {
  import opened Config
  import opened Strings

  class HttpConnection {
    var buffer: string
    var bytesReady: nat
    // reads asked for and not answered yet
    var pendingReads: nat

    ghost predicate Valid()
      reads this
    {
      |buffer| == BUFFER_SIZE && bytesReady <= BUFFER_SIZE
    }

    /** The bytes between begin() and end(). */
    ghost function Ready(): string
      reads this
      requires Valid()
    {
      buffer[..bytesReady]
    }

    constructor ()
      ensures Valid() && Ready() == [] && pendingReads == 0
    {
      buffer := seq(BUFFER_SIZE, i => '\0');
      bytesReady := 0;
      pendingReads := 0;
    }

    method Read()
      modifies `pendingReads
      ensures pendingReads == old(pendingReads) + 1
    {
      pendingReads := pendingReads + 1;
    }

    /** The socket answers a read: the front of the buffer is overwritten. */
    method Deliver(data: string)
      requires Valid() && pendingReads > 0 && |data| <= BUFFER_SIZE
      modifies this
      ensures Valid() && Ready() == data && pendingReads == old(pendingReads) - 1
    {
      buffer := data + buffer[|data|..];
      bytesReady := |data|;
      pendingReads := pendingReads - 1;
    }

    /** The socket answers a read with an error. */
    method Fail()
      requires Valid() && pendingReads > 0
      modifies `pendingReads
      ensures Valid() && pendingReads == old(pendingReads) - 1
    {
      pendingReads := pendingReads - 1;
    }
  }

  /** Hands out the ready bytes of a connection block by block. */
  class HttpStreamDevice {
    const connection: HttpConnection
    var pos: nat

    constructor (connection: HttpConnection)
      ensures this.connection == connection && pos == 0
    {
      this.connection := connection;
      pos := 0;
    }

    /** The next at most n bytes; None is the end of the data. */
    method Read(n: nat) returns (block: Option<string>)
      requires connection.Valid() && pos <= connection.bytesReady
      modifies this
      ensures pos <= connection.bytesReady
      ensures match block
              case None => pos == old(pos) && (pos == connection.bytesReady || n == 0)
              case Some(bytes) =>
                && 0 < |bytes| == (if n < connection.bytesReady - old(pos) then n else connection.bytesReady - old(pos))
                && connection.Ready()[..pos] == connection.Ready()[..old(pos)] + bytes
    {
      var amount := connection.bytesReady - pos;
      var toRead := if n < amount then n else amount;
      if toRead != 0 {
        block := Some(connection.buffer[pos..pos + toRead]);
        pos := pos + toRead;
        return;
      }
      block := None;
    }
  }

  /** Reading a fresh device to its end, in whatever block size, gives exactly the ready bytes. */
  method Drain(connection: HttpConnection, blockSize: nat) returns (bytes: string)
    requires connection.Valid() && blockSize > 0
    ensures bytes == connection.Ready()
  {
    var device := new HttpStreamDevice(connection);
    bytes := [];
    var atEnd := false;
    while !atEnd
      invariant device.pos <= connection.bytesReady && bytes == connection.Ready()[..device.pos]
      invariant atEnd ==> device.pos == connection.bytesReady
      invariant fresh(device)
      decreases connection.bytesReady - device.pos, !atEnd
    {
      var block := device.Read(blockSize);
      match block
      case None => atEnd := true;
      case Some(more) =>
        assert |connection.Ready()[..device.pos]| == device.pos;
        bytes := bytes + more;
    }
  }
}
