/** One TCP session: reassembly of frames from reads, and the sender with partial writes. */
module TcpStream {
  import opened Structs
  import opened Framing
  import opened Pipeline
  import opened Reassembly

  /** The receiving half of `handle_tcp_stream`. */
  class Receiver {
    const codec: Codec
    const threadName: GDPName
    const handle: Sender
    // The variables of the connection loop.
    var needMoreDataForPreviousHeader: bool
    var remainingGdpHeader: GDPPacketInTransit
    var remainingGdpPayload: seq<byte>
    var closed: bool
    // Everything this connection has put on the queues of the RIB.
    var toRib: seq<GDPPacket>
    var toRegistry: seq<GDPChannel>

    constructor (codec: Codec, threadName: GDPName, handle: Sender)
      ensures Carried() == Idle && !closed && toRib == [] && toRegistry == []
      ensures this.codec == codec && this.threadName == threadName && this.handle == handle
    {
      this.codec, this.threadName, this.handle := codec, threadName, handle;
      needMoreDataForPreviousHeader := false;
      remainingGdpHeader, remainingGdpPayload := DEFAULT_HEADER, [];
      closed, toRib, toRegistry := false, [], [];
    }

    /** What the three variables mean: the header is stale unless more data is needed. */
    function Carried(): Carry
      reads this
    {
      if needMoreDataForPreviousHeader then Partial(remainingGdpHeader, remainingGdpPayload) else Idle
    }

    /** The branches for a header or payload that the last read cut short. `num_remaining` does not
        underflow and does not exceed the read. */
    method Resume(chunk: seq<byte>) returns (done: bool, pairs: seq<Frame>, receivingBuf: seq<byte>)
      requires codec.Lawful() && Carried().Sane()
      modifies this`remainingGdpPayload
      ensures codec.Parse(codec.Held(old(Carried())) + chunk) ==
              if done then Parsed([], Carried()) else codec.Parse(receivingBuf).After(pairs)
      ensures done ==> pairs == [] && Carried().Sane()
    {
      hide Codec.Parse;
      done, pairs, receivingBuf := false, [], chunk;
      if needMoreDataForPreviousHeader {
        var readPayloadSize := |remainingGdpPayload| + |chunk|;
        if remainingGdpHeader.action == Noop {
          remainingGdpPayload := remainingGdpPayload + chunk;
          receivingBuf := remainingGdpPayload;
        } else {
          codec.ParseResumesPayload(remainingGdpHeader, remainingGdpPayload, chunk);
          if readPayloadSize < remainingGdpHeader.length {
            remainingGdpPayload := remainingGdpPayload + chunk;
            done := true;
          } else if readPayloadSize == remainingGdpHeader.length {
            assert chunk[..|chunk|] == chunk && chunk[|chunk|..] == [];
            remainingGdpPayload := remainingGdpPayload + chunk;
            pairs := [Pair(remainingGdpHeader, remainingGdpPayload)];
            receivingBuf := [];
          } else {
            var numRemaining: nat := remainingGdpHeader.length - |remainingGdpPayload|;
            remainingGdpPayload := remainingGdpPayload + chunk[..numRemaining];
            pairs := [Pair(remainingGdpHeader, remainingGdpPayload)];
            receivingBuf := chunk[numRemaining..];
          }
        }
      } else {
        assert [] + chunk == chunk;
      }
    }

    /** One readable event. For every state that keeps a short payload, and for every read, it
        amounts to parsing the held bytes and the new ones together, and again keeps a payload that
        is shorter than its header says. */
    method Read(chunk: seq<byte>) returns (panicked: bool, pairs: seq<Frame>)
      requires codec.Lawful() && Carried().Sane() && !closed
      modifies this
      ensures closed == (chunk == [])
      ensures chunk == [] ==> !panicked && pairs == [] && Carried() == old(Carried())
      ensures chunk != [] ==>
                Feed(codec, old(Carried()), chunk) == if panicked then Panic else Parsed(pairs, Carried())
      ensures !panicked ==> Carried().Sane()
      ensures toRib == old(toRib) + (if panicked then [] else ForRib(pairs, threadName, handle))
      ensures toRegistry == old(toRegistry) + (if panicked then [] else ForRegistry(pairs, threadName, handle))
    {
      hide Codec.Parse;
      panicked, pairs := false, [];
      if |chunk| == 0 {
        closed := true;
        return;
      }
      var done, resumed, receivingBuf := Resume(chunk);
      if done {
        return;
      }
      var failed, processed, remaining := codec.ParseHeaderPayloadPairs(receivingBuf);
      if failed {
        panicked := true;
        return;
      }
      codec.ParseAccounts(receivingBuf);
      pairs := resumed + processed;
      var packets, channels := HandOn(pairs, threadName, handle);
      toRib, toRegistry := toRib + packets, toRegistry + channels;
      match remaining {
        case Partial(header, payload) =>
          remainingGdpHeader := header;
          remainingGdpPayload := payload;
          needMoreDataForPreviousHeader := true;
        case Idle =>
          needMoreDataForPreviousHeader := false;
          remainingGdpPayload := [];
      }
    }
  }
}
