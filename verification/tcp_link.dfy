/** A TCP link from end to end. */
module TcpLink {
  import opened Structs
  import opened Framing
  import opened Pipeline
  import opened Reassembly
  import opened JsonCodec
  import opened TcpSender

  /** For every list of packets as connections queue them, and every way of cutting their bytes into
      reads: the receiver ends with nothing pending and has handed on exactly these packets, in
      order, with its own name as the source, unless some read ends between a header and its NUL;
      then it panics. */
  lemma {:induction false} PacketsArriveIff(
    c: Codec, packets: seq<GDPPacket>, chunks: seq<seq<byte>>, name: GDPName, handle: Sender)
    requires c.Lawful() && forall p <- packets :: Sendable(p)
    requires Flatten(chunks) == c.Encode(FramesOf(packets))
    ensures if GoodCuts(c, FramesOf(packets), chunks) then ArrivedAs(Run(c, chunks), packets, name, handle)
            else Run(c, chunks).Panic?
  {
    hide Codec.Parse, Codec.BadCut, Codec.Encode, Run, Flatten;
    assert forall i | 0 <= i < |packets| :: packets[i] in packets;
    PanicsIff(c, FramesOf(packets), chunks);
    if GoodCuts(c, FramesOf(packets), chunks) {
      RoundTrip(c, FramesOf(packets), chunks);
    }
    FramesBringPackets(packets, name, handle);
  }

  predicate ArrivedAs(r: Outcome, packets: seq<GDPPacket>, name: GDPName, handle: Sender) {
    && r.Parsed? && r.carry == Idle
    && ForRib(r.frames, name, handle) == RenamedForwards(packets, name)
    && ForRegistry(r.frames, name, handle) == RenamedAdverts(packets, name, handle)
  }

  /** The same with the header text of the program. */
  lemma {:induction false} JsonPacketsArriveIff(
    packets: seq<GDPPacket>, chunks: seq<seq<byte>>, name: GDPName, handle: Sender)
    requires forall p <- packets :: Sendable(p)
    requires Flatten(chunks) == JSON.Encode(FramesOf(packets))
    ensures if GoodCuts(JSON, FramesOf(packets), chunks) then ArrivedAs(Run(JSON, chunks), packets, name, handle)
            else Run(JSON, chunks).Panic?
  {
    hide Codec.Parse, Codec.BadCut, Codec.Encode, Run, Flatten, ArrivedAs, JSON;
    JsonIsLawful();
    PacketsArriveIff(JSON, packets, chunks, name, handle);
  }

  /** One direction of a link from the queue of one end to the state of the other, with the header
      text of the program: whatever the kernel answers to the sender, and however the network cuts
      what was written, the packets whose headers were not refused have been handed on and the part
      of the next one is held, if and only if no header was taken in part, no payload write failed
      hard, and no read has ended at a bad cut. */
  method SendAcross(queue: seq<GDPPacket>, answers: seq<Answer>)
    returns (wire: seq<byte>, sent: seq<GDPPacket>, partial: seq<byte>, next: nat, used: nat)
    ensures next <= |queue| && used <= |answers| && (next == |queue| || used == |answers|)
    ensures var begun := Begun(queue, answers);
            && wire == WireOf(JSON, queue, answers)
            && |begun| == next + (if partial == [] then 0 else 1)
            && sent == Accepted(queue[..next], answers, begun)
            && forall chunks | Flatten(chunks) == wire ::
                 IsReceived(JSON, Run(JSON, chunks), sent, partial) <==>
                 && Harmless(JSON, queue, answers, begun, used)
                 && GoodCuts(JSON, FramesOf(sent + queue[next..|begun|]), chunks)
  {
    hide Codec.EncodeFrame, Codec.Encode, Codec.Parse, Codec.BadCut, JSON, Begun, Accepted, Harmless, IsReceived,
      Flatten, Run, WireOf, FramesOf, FrameOf;
    var lost, intact, begun;
    wire, sent, partial, lost, intact, next, begun, used := SendQueue(JSON, queue, answers);
    JsonIsLawful();
    var cut := queue[next..|begun|];
    PartOfNext(JSON, cut, partial);
    forall chunks | Flatten(chunks) == wire
      ensures IsReceived(JSON, Run(JSON, chunks), sent, partial) <==>
              Harmless(JSON, queue, answers, begun, used) && GoodCuts(JSON, FramesOf(sent + cut), chunks)
    {
      SentIsReceivedIff(JSON, sent, cut, partial, chunks);
    }
  }

  lemma PartOfNext(c: Codec, next: seq<GDPPacket>, partial: seq<byte>)
    requires |next| <= 1 && (next == [] <==> partial == [])
    requires next != [] ==> partial < c.EncodeFrame(FrameOf(next[0]))
    ensures partial <= c.Encode(FramesOf(next))
  {
    hide Codec.EncodeFrame;
    if next != [] {
      assert FramesOf(next) == [FrameOf(next[0])] + [];
      c.EncodeCons(FrameOf(next[0]), []);
    }
  }
}
