/** One DTLS session: the reassembly of `handle_tcp_stream` with a counter that throws away what was
    received after too many reads in search of a header. */
module DtlsStream {
  import opened Structs
  import opened Framing
  import opened Pipeline
  import opened Reassembly

  const MAX_CONTINUATIONS: nat := 5

  datatype State = State(outcome: Outcome, resetCounter: nat)

  /** One read. Every read that goes on with a header counts; the sixth discards everything. */
  function DtlsFeed(c: Codec, carry: Carry, resetCounter: nat, chunk: seq<byte>): State {
    if !carry.AwaitsHeader() then State(Feed(c, carry, chunk), resetCounter)
    else if resetCounter + 1 > MAX_CONTINUATIONS then State(Parsed([], Idle), 0)
    else State(Feed(c, carry, chunk), resetCounter + 1)
  }

  function DtlsRun(c: Codec, chunks: seq<seq<byte>>): State {
    if chunks == [] then State(Parsed([], Idle), 0)
    else
      var before := DtlsRun(c, chunks[..|chunks| - 1]);
      match before.outcome
      case Panic => before
      case Parsed(frames, carry) =>
        var now := DtlsFeed(c, carry, before.resetCounter, chunks[|chunks| - 1]);
        State(now.outcome.After(frames), now.resetCounter)
  }

  /** The received bytes behind the emitted frames and the state; a reset lets go of the latter. */
  function DtlsRawRun(c: Codec, chunks: seq<seq<byte>>): Raw {
    if chunks == [] then Raw([], [])
    else
      var front := chunks[..|chunks| - 1];
      var before, raw := DtlsRun(c, front), DtlsRawRun(c, front);
      if Awaits(before.outcome) && before.resetCounter + 1 > MAX_CONTINUATIONS then Raw(raw.emitted, [])
      else RawFeed(c, raw, chunks[|chunks| - 1])
  }

  predicate Awaits(r: Outcome) {
    r.Parsed? && r.carry.AwaitsHeader()
  }

  class Session {
    const codec: Codec
    const threadName: GDPName
    const handle: Sender
    // The variables of the connection loop.
    var needMoreDataForPreviousHeader: bool
    var remainingGdpHeader: GDPPacketInTransit
    var remainingGdpPayload: seq<byte>
    var resetCounter: nat
    // Everything this connection has put on the queues of the RIB, and on the wire.
    var toRib: seq<GDPPacket>
    var toRegistry: seq<GDPChannel>
    var wire: seq<byte>

    constructor (codec: Codec, threadName: GDPName, handle: Sender)
      ensures Carried() == Idle && resetCounter == 0 && toRib == [] && toRegistry == [] && wire == []
      ensures this.codec == codec && this.threadName == threadName && this.handle == handle
    {
      this.codec, this.threadName, this.handle := codec, threadName, handle;
      needMoreDataForPreviousHeader, resetCounter := false, 0;
      remainingGdpHeader, remainingGdpPayload := DEFAULT_HEADER, [];
      toRib, toRegistry, wire := [], [], [];
    }

    function Carried(): Carry
      reads this
    {
      if needMoreDataForPreviousHeader then Partial(remainingGdpHeader, remainingGdpPayload) else Idle
    }

    /** The branches for a header or payload that the last read cut short. */
    method Resume(chunk: seq<byte>) returns (done: bool, pairs: seq<Frame>, receivingBuf: seq<byte>)
      requires codec.Lawful() && Carried().Sane()
      modifies this`remainingGdpPayload, this`resetCounter
      ensures done ==> pairs == [] && Carried().Sane()
      ensures State(if done then Parsed([], Carried()) else codec.Parse(receivingBuf).After(pairs), resetCounter) ==
              DtlsFeed(codec, old(Carried()), old(resetCounter), chunk)
    {
      hide Codec.Parse;
      codec.ParseNothing();
      done, pairs, receivingBuf := false, [], chunk;
      if needMoreDataForPreviousHeader {
        var readPayloadSize := |remainingGdpPayload| + |chunk|;
        if remainingGdpHeader.action == Noop {
          remainingGdpPayload := remainingGdpPayload + chunk;
          receivingBuf := remainingGdpPayload;
          resetCounter := resetCounter + 1;
          if resetCounter > MAX_CONTINUATIONS {
            receivingBuf := [];
            remainingGdpPayload := [];
            resetCounter := 0;
          }
        } else {
          codec.ParseResumesPayload(remainingGdpHeader, remainingGdpPayload, chunk);
          if readPayloadSize < remainingGdpHeader.length {
            remainingGdpPayload := remainingGdpPayload + chunk;
            done := true;
          } else if readPayloadSize == remainingGdpHeader.length {
            assert chunk[..|chunk|] == chunk && chunk[|chunk|..] == [];
            remainingGdpPayload := remainingGdpPayload + chunk;
            pairs := [Pair(remainingGdpHeader, remainingGdpPayload)];
            receivingBuf := [];
          } else {
            var numRemaining: nat := remainingGdpHeader.length - |remainingGdpPayload|;
            remainingGdpPayload := remainingGdpPayload + chunk[..numRemaining];
            pairs := [Pair(remainingGdpHeader, remainingGdpPayload)];
            receivingBuf := chunk[numRemaining..];
          }
        }
      } else {
        assert [] + chunk == chunk;
      }
    }

    /** One read. It does what DtlsFeed says, and what it hands on is exactly the frames. */
    method Read(chunk: seq<byte>) returns (panicked: bool, pairs: seq<Frame>)
      requires codec.Lawful() && Carried().Sane()
      modifies this
      ensures State(if panicked then Panic else Parsed(pairs, Carried()), resetCounter) ==
              DtlsFeed(codec, old(Carried()), old(resetCounter), chunk)
      ensures !panicked ==> Carried().Sane()
      ensures toRib == old(toRib) + (if panicked then [] else ForRib(pairs, threadName, handle))
      ensures toRegistry == old(toRegistry) + (if panicked then [] else ForRegistry(pairs, threadName, handle))
      ensures wire == old(wire)
    {
      hide Codec.Parse, DtlsFeed;
      panicked, pairs := false, [];
      var done, resumed, receivingBuf := Resume(chunk);
      if done {
        return;
      }
      var failed, processed, remaining := codec.ParseHeaderPayloadPairs(receivingBuf);
      if failed {
        panicked := true;
        return;
      }
      codec.ParseAccounts(receivingBuf);
      pairs := resumed + processed;
      var packets, channels := HandOn(pairs, threadName, handle);
      toRib, toRegistry := toRib + packets, toRegistry + channels;
      match remaining {
        case Partial(header, payload) =>
          remainingGdpHeader := header;
          remainingGdpPayload := payload;
          needMoreDataForPreviousHeader := true;
        case Idle =>
          needMoreDataForPreviousHeader := false;
          remainingGdpPayload := [];
      }
    }

    /** `write_all` twice: nothing is cut short. */
    method Send(packet: GDPPacket)
      modifies this`wire
      ensures wire == old(wire) + codec.EncodeFrame(FrameOf(packet))
    {
      wire := wire + (codec.show(packet.GetHeader()) + [0]);
      if packet.payload.Some? {
        wire := wire + packet.payload.value;
      }
    }
  }

  /** How many reads of a TCP receiver go on with a header, over the whole run. */
  function Continuations(c: Codec, chunks: seq<seq<byte>>): nat {
    if chunks == [] then 0
    else
      var front := chunks[..|chunks| - 1];
      Continuations(c, front) + if Awaits(Run(c, front)) then 1 else 0
  }

  /** The reads before which an unfinished header is held. */
  function ContinuationReads(c: Codec, chunks: seq<seq<byte>>): set<nat> {
    set i: nat | i < |chunks| && Run(c, chunks[..i]).Parsed? && Run(c, chunks[..i]).carry.AwaitsHeader()
  }

  lemma {:induction false} ContinuationsAreCounted(c: Codec, chunks: seq<seq<byte>>)
    ensures Continuations(c, chunks) == |ContinuationReads(c, chunks)|
  {
    hide Run;
    if chunks == [] {
      assert ContinuationReads(c, chunks) == {};
    } else {
      var n := |chunks| - 1;
      ContinuationsAreCounted(c, chunks[..n]);
      assert forall i | 0 <= i < n :: chunks[..n][..i] == chunks[..i];
      assert ContinuationReads(c, chunks) ==
             ContinuationReads(c, chunks[..n]) + if Awaits(Run(c, chunks[..n])) then {n} else {};
    }
  }

  /** Up to five continuation reads, counted from the start and not cleared by success, DTLS does
      what TCP does, on arbitrary bytes. */
  lemma {:induction false} RefinesTcp(c: Codec, chunks: seq<seq<byte>>)
    requires Continuations(c, chunks) <= 5
    ensures DtlsRun(c, chunks).outcome == Run(c, chunks)
    ensures Run(c, chunks).Parsed? ==>
              DtlsRun(c, chunks).resetCounter == Continuations(c, chunks) && DtlsRawRun(c, chunks) == RawRun(c, chunks)
  {
    hide Feed, RawFeed;
    if chunks != [] {
      RefinesTcp(c, chunks[..|chunks| - 1]);
    }
  }

  /** The sixth continuation read throws away the pending bytes and itself, and the connection then
      behaves for ever as one that has just been opened. */
  lemma {:induction false} SixthContinuationResets(
    c: Codec, chunks: seq<seq<byte>>, chunk: seq<byte>, more: seq<seq<byte>>)
    requires Continuations(c, chunks) == 5 && Awaits(Run(c, chunks))
    ensures var after := DtlsRun(c, chunks + [chunk] + more);
            && after.outcome == DtlsRun(c, more).outcome.After(Run(c, chunks).frames)
            && (after.outcome.Parsed? ==> after.resetCounter == DtlsRun(c, more).resetCounter)
  {
    hide Feed;
    var fs := Run(c, chunks).frames;
    if more == [] {
      RefinesTcp(c, chunks);
      assert chunks + [chunk] + more == chunks + [chunk];
      assert (chunks + [chunk])[..|chunks|] == chunks;
    } else {
      var front, last := more[..|more| - 1], more[|more| - 1];
      var all := chunks + [chunk] + more;
      SixthContinuationResets(c, chunks, chunk, front);
      assert all[..|all| - 1] == chunks + [chunk] + front && all[|all| - 1] == last;
      var r := DtlsRun(c, front);
      if r.outcome.Parsed? {
        DtlsFeed(c, r.outcome.carry, r.resetCounter, last).outcome.AfterAfter(fs, r.outcome.frames);
      }
    }
  }

  /** For every input: as long as reads are at most one buffer long, an unfinished header never
      holds more than resetCounter + 1 buffers, which is at most six. */
  lemma {:induction false} HeaderBufferIsBounded(c: Codec, chunks: seq<seq<byte>>)
    requires c.Lawful() && forall i | 0 <= i < |chunks| :: |chunks[i]| <= 17480
    ensures var s := DtlsRun(c, chunks);
            && s.resetCounter <= 5
            && (s.outcome.Parsed? ==> s.outcome.carry.Sane())
            && (Awaits(s.outcome) ==> |s.outcome.carry.payload| <= (s.resetCounter + 1) * 17480)
  {
    hide Codec.Parse, Codec.TurnOn;
    if chunks != [] {
      var front, last := chunks[..|chunks| - 1], chunks[|chunks| - 1];
      HeaderBufferIsBounded(c, front);
      var before := DtlsRun(c, front);
      if before.outcome.Parsed? {
        FeedIsBounded(c, before.outcome.carry, last);
      }
    }
  }

  lemma {:induction false} FeedIsBounded(c: Codec, carry: Carry, chunk: seq<byte>)
    requires c.Lawful() && carry.Sane()
    ensures var r := Feed(c, carry, chunk);
            && (r.Parsed? ==> r.carry.Sane())
            && (Awaits(r) ==> |r.carry.payload| <= |chunk| + if carry.AwaitsHeader() then |carry.payload| else 0)
  {
    hide Codec.Parse, Codec.TurnOn;
    var b := c.Held(carry) + chunk;
    var r := c.Parse(b);
    if r.Parsed? {
      c.ParseAccounts(b);
    }
    if Awaits(r) {
      if carry.Idle? || carry.AwaitsHeader() {
        c.AwaitingIsBounded(b);
      } else {
        c.ParseResumesPayload(carry.header, carry.payload, chunk);
        c.AwaitingIsBounded(chunk[carry.header.length - |carry.payload|..]);
      }
    }
  }

  // ---- The round trip ----

  /** Over any byte stream, unless the receiver panics: emitted frames and state were made from exactly
      the bytes received if and only if no cut makes the parser drop bytes and at most five reads go
      on with a header. */
  lemma {:induction false} DtlsKeepsEverythingIff(c: Codec, chunks: seq<seq<byte>>)
    requires c.Lawful() && DtlsRun(c, chunks).outcome.Parsed?
    ensures var raw := DtlsRawRun(c, chunks);
            && IsRawOf(c, raw, DtlsRun(c, chunks).outcome)
            && (if LosslessCuts(c, chunks) && Continuations(c, chunks) <= 5
                then raw.emitted + raw.held == Flatten(chunks)
                else raw.Size() < |Flatten(chunks)|)
  {
    hide Codec.Parse, Codec.Keeps, IsRawOf, RawFeed, LosslessCuts, Feed;
    if Continuations(c, chunks) <= 5 {
      RefinesTcp(c, chunks);
      RunAccounts(c, chunks);
    } else {
      var front, last := chunks[..|chunks| - 1], chunks[|chunks| - 1];
      var before, raw := DtlsRun(c, front), DtlsRawRun(c, front);
      DtlsKeepsEverythingIff(c, front);
      assert raw.Size() <= |Flatten(front)|;
      if Awaits(before.outcome) && before.resetCounter + 1 > 5 {
        ResetLosesBytes(c, front);
      } else {
        FeedAccounts(c, raw, before.outcome, last);
        if Continuations(c, front) <= 5 {
          RefinesTcp(c, front);
        }
      }
    }
  }

  /** A reset never comes when there is nothing to lose, unless bytes were lost before. */
  lemma {:induction false} ResetLosesBytes(c: Codec, chunks: seq<seq<byte>>)
    requires c.Lawful() && Awaits(DtlsRun(c, chunks).outcome)
    requires IsRawOf(c, DtlsRawRun(c, chunks), DtlsRun(c, chunks).outcome)
    ensures var raw := DtlsRawRun(c, chunks);
            && IsRawOf(c, Raw(raw.emitted, []), Parsed([], Idle).After(DtlsRun(c, chunks).outcome.frames))
            && (LosslessCuts(c, chunks) && Continuations(c, chunks) <= 5 ==> raw.held != [])
  {
    hide Codec.Parse, Codec.Keeps, RawFeed, Feed;
    NothingReceived(c);
    if LosslessCuts(c, chunks) && Continuations(c, chunks) <= 5 {
      RefinesTcp(c, chunks);
      RunAccounts(c, chunks);
      LosslessAtEnd(c, chunks);
      c.AwaitingIsBounded(Flatten(chunks));
    }
  }

  /** The number of reads that start strictly inside the text of a header. */
  function HeaderCuts(c: Codec, fs: seq<Frame>, chunks: seq<seq<byte>>): nat {
    if chunks == [] then 0
    else
      var front := chunks[..|chunks| - 1];
      HeaderCuts(c, fs, front) + if c.InsideHeader(fs, |Flatten(front)|) then 1 else 0
  }

  function ReadsInsideHeaders(c: Codec, fs: seq<Frame>, chunks: seq<seq<byte>>): set<nat> {
    set i: nat | i < |chunks| && c.InsideHeader(fs, |Flatten(chunks[..i])|)
  }

  lemma {:induction false} HeaderCutsAreCounted(c: Codec, fs: seq<Frame>, chunks: seq<seq<byte>>)
    ensures HeaderCuts(c, fs, chunks) == |ReadsInsideHeaders(c, fs, chunks)|
  {
    hide Codec.InsideHeader, Flatten;
    if chunks == [] {
      assert ReadsInsideHeaders(c, fs, chunks) == {};
    } else {
      var n := |chunks| - 1;
      HeaderCutsAreCounted(c, fs, chunks[..n]);
      assert forall i | 0 <= i < n :: chunks[..n][..i] == chunks[..i];
      assert ReadsInsideHeaders(c, fs, chunks) ==
             ReadsInsideHeaders(c, fs, chunks[..n]) +
             if c.InsideHeader(fs, |Flatten(chunks[..n])|) then {n} else {};
    }
  }

  lemma {:induction false} ContinuationsAreHeaderCuts(c: Codec, fs: seq<Frame>, chunks: seq<seq<byte>>)
    requires c.Lawful() && Flatten(chunks) <= c.Encode(fs) && GoodCuts(c, fs, chunks)
    ensures Continuations(c, chunks) == HeaderCuts(c, fs, chunks)
  {
    hide Codec.Parse, Codec.BadCut, Codec.InsideHeader;
    if chunks != [] {
      var front := chunks[..|chunks| - 1];
      assert forall i | 0 <= i <= |front| :: front[..i] == chunks[..i];
      ContinuationsAreHeaderCuts(c, fs, front);
      GoodCutsAreLossless(c, fs, front);
      RunAccounts(c, front);
      assert c.Encode(fs)[..|Flatten(front)|] == Flatten(front);
      assert front[..|front|] == front;
      c.ParsePrefix(fs, |Flatten(front)|);
    }
  }

  /** The round trip over DTLS needs one thing more than over TCP: over the whole life of the
      connection, at most five reads may start inside a header. */
  lemma {:induction false} DtlsRoundTripIff(c: Codec, fs: seq<Frame>, chunks: seq<seq<byte>>)
    requires c.Lawful() && Flatten(chunks) == c.Encode(fs)
    ensures var good := GoodCuts(c, fs, chunks) && HeaderCuts(c, fs, chunks) <= 5;
            var arrived := DtlsRun(c, chunks).outcome == Parsed(fs, Idle);
            && (arrived && DtlsRawRun(c, chunks).emitted == c.Encode(fs) <==> good)
            && (c.Strict() ==> (arrived <==> good))
  {
    hide Codec.Parse, Codec.BadCut, HeaderCuts, Continuations, RawRun;
    GoodCutsAreLossless(c, fs, chunks);
    RoundTripIff(c, fs, chunks);
    if GoodCuts(c, fs, chunks) {
      ContinuationsAreHeaderCuts(c, fs, chunks);
    }
    if GoodCuts(c, fs, chunks) && HeaderCuts(c, fs, chunks) <= 5 {
      RefinesTcp(c, chunks);
    } else if DtlsRun(c, chunks).outcome == Parsed(fs, Idle) {
      DtlsKeepsEverythingIff(c, chunks);
      if c.Strict() {
        c.ConsumedIsEncoding(DtlsRawRun(c, chunks).emitted);
      }
    }
  }
}
