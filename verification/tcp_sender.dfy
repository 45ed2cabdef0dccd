/** The sending half of a TCP session, with writes that the kernel takes in part or not at all. */
module TcpSender {
  import opened Structs
  import opened Framing
  import opened Pipeline
  import opened Reassembly
  import opened Sequences

  /** What `try_write` answers; a count larger than what was offered stands for all of it. */
  datatype Answer = Wrote(count: nat) | WouldBlock | Failed

  datatype Status = Done | Broken | Waiting

  function Taken(answer: Answer, offered: nat): nat {
    if answer.Wrote? then (if answer.count < offered then answer.count else offered) else 0
  }

  /** The bytes taken by a run of payload writes. */
  function TakenInAll(answers: seq<Answer>, size: nat): (n: nat)
    ensures n <= size
  {
    if answers == [] then 0
    else
      var before := TakenInAll(answers[..|answers| - 1], size);
      before + Taken(answers[|answers| - 1], size - before)
  }

  /** How many bytes the kernel says it would take. */
  function Offers(answers: seq<Answer>): nat {
    if answers == [] then 0
    else
      var last := answers[|answers| - 1];
      Offers(answers[..|answers| - 1]) + if last.Wrote? then last.count else 0
  }

  lemma {:induction false} OffersAppend(a: seq<Answer>, b: seq<Answer>)
    ensures Offers(a + b) == Offers(a) + Offers(b)
  {
    if b == [] {
      assert a + b == a;
    } else {
      assert (a + b)[..|a + b| - 1] == a + b[..|b| - 1];
      OffersAppend(a, b[..|b| - 1]);
    }
  }

  /** All that is offered is taken, up to the size. */
  lemma {:induction false} TakenIsOffered(answers: seq<Answer>, size: nat)
    ensures TakenInAll(answers, size) == if Offers(answers) < size then Offers(answers) else size
  {
    if answers != [] {
      TakenIsOffered(answers[..|answers| - 1], size);
    }
  }

  /** How many answers the loop for a payload of some size asks for: until nothing is left, or a
      hard error. */
  function PayloadAnswers(size: nat, answers: seq<Answer>): (n: nat)
    ensures n <= |answers|
  {
    if size == 0 || answers == [] then 0
    else if answers[0] == Failed then 1
    else 1 + PayloadAnswers(size - Taken(answers[0], size), answers[1..])
  }

  /** It asks as long as something is missing and no hard error has come, and then not once more. */
  lemma {:induction false} PayloadAnswersAre(size: nat, answers: seq<Answer>)
    ensures var n := PayloadAnswers(size, answers);
            && (forall i | 0 <= i < n :: Offers(answers[..i]) < size && Failed !in answers[..i])
            && (n == |answers| || Offers(answers[..n]) >= size || Failed in answers[..n])
  {
    if size > 0 && answers != [] {
      hide Offers;
      var left := size - Taken(answers[0], size);
      var n := PayloadAnswers(size, answers);
      NothingOffered(answers);
      if answers[0] != Failed {
        PayloadAnswersAre(left, answers[1..]);
        OffersFrom(answers, n);
      } else {
        assert answers[..1] == [Failed];
      }
      forall i | 0 <= i < n ensures Offers(answers[..i]) < size && Failed !in answers[..i] {
        if i > 0 {
          OffersFrom(answers, i);
          assert Offers(answers[1..][..i - 1]) < left && Failed !in answers[1..][..i - 1];
        }
      }
    }
  }

  lemma NothingOffered(answers: seq<Answer>)
    ensures Offers(answers[..0]) == 0
  {
  }

  lemma OffersFrom(answers: seq<Answer>, i: nat)
    requires 0 < i <= |answers|
    ensures answers[..i] == [answers[0]] + answers[1..][..i - 1]
    ensures Offers(answers[..i]) == (if answers[0].Wrote? then answers[0].count else 0) + Offers(answers[1..][..i - 1])
  {
    var first := [answers[0]];
    assert first[..0] == [] && Offers(first) == if answers[0].Wrote? then answers[0].count else 0;
    assert answers[..i] == first + answers[1..][..i - 1];
    OffersAppend(first, answers[1..][..i - 1]);
  }

  /** The payload loop. Whatever the answers, the wire gets the first bytes of the payload, in order
      and without gaps, as many as were taken; only a hard error or the end of the answers leaves
      the payload unfinished. */
  method WritePayload(payload: seq<byte>, answers: seq<Answer>)
    returns (written: seq<byte>, used: nat, status: Status)
    ensures used == PayloadAnswers(|payload|, answers)
    ensures written == payload[..TakenInAll(answers[..used], |payload|)]
    ensures status == Done <==> written == payload
    ensures status == Broken <==> Failed in answers[..used]
    ensures status == Waiting ==> used == |answers|
    ensures forall i | 0 <= i < used - 1 :: answers[i] != Failed
  {
    hide TakenInAll, PayloadAnswers;
    var bytesWritten := 0;
    written, used, status := [], 0, Done;
    NothingAsked(|payload|, answers);
    while bytesWritten < |payload|
      invariant used <= |answers| && bytesWritten == TakenInAll(answers[..used], |payload|)
      invariant used + PayloadAnswers(|payload| - bytesWritten, answers[used..]) == PayloadAnswers(|payload|, answers)
      invariant written == payload[..bytesWritten] && status == Done
      invariant forall i | 0 <= i < used :: answers[i] != Failed
      decreases |answers| - used
    {
      if used == |answers| {
        NoMoreAnswers(|payload| - bytesWritten, answers[used..]);
        status := Waiting;
        return;
      }
      var answer := answers[used];
      OneMoreAnswer(|payload|, answers, used);
      used := used + 1;
      match answer {
        case Wrote(_) =>
          var n := Taken(answer, |payload| - bytesWritten);
          written := written + payload[bytesWritten..bytesWritten + n];
          bytesWritten := bytesWritten + n;
        case WouldBlock =>
        case Failed =>
          assert answers[..used][used - 1] == Failed;
          status := Broken;
          return;
      }
    }
    NoMoreAnswers(0, answers[used..]);
  }

  lemma NothingAsked(size: nat, answers: seq<Answer>)
    ensures TakenInAll(answers[..0], size) == 0 && answers[0..] == answers
  {
  }

  lemma NoMoreAnswers(size: nat, answers: seq<Answer>)
    requires size == 0 || answers == []
    ensures PayloadAnswers(size, answers) == 0
  {
  }

  lemma OneMoreAnswer(size: nat, answers: seq<Answer>, used: nat)
    requires used < |answers|
    ensures var before := TakenInAll(answers[..used], size);
            var now := Taken(answers[used], size - before);
            && TakenInAll(answers[..used + 1], size) == before + now
            && (before < size ==>
                  PayloadAnswers(size - before, answers[used..]) ==
                  1 + if answers[used] == Failed then 0 else PayloadAnswers(size - before - now, answers[used + 1..]))
  {
    assert answers[..used + 1][..used] == answers[..used] && answers[used..][1..] == answers[used + 1..];
  }

  lemma FramesOfAppend(packets: seq<GDPPacket>, p: GDPPacket)
    ensures FramesOf(packets + [p]) == FramesOf(packets) + [FrameOf(p)]
  {
  }

  function HeaderBytes(c: Codec, p: GDPPacket): seq<byte> {
    c.show(p.GetHeader()) + [0]
  }

  function PayloadBytes(p: GDPPacket): seq<byte> {
    p.payload.GetOr([])
  }

  /** Some of a header is taken, but not all of it. */
  predicate CutsHeader(c: Codec, p: GDPPacket, a: Answer) {
    a.Wrote? && a.count < |HeaderBytes(c, p)|
  }

  /** How many answers one packet asks for. */
  function AnswersFor(p: GDPPacket, answers: seq<Answer>): (n: nat)
    requires answers != []
    ensures 0 < n <= |answers|
  {
    1 + if answers[0].Wrote? then PayloadAnswers(|PayloadBytes(p)|, answers[1..]) else 0
  }

  /** What one packet puts on the wire: as much of the header and as much of the payload as was
      taken, one after the other. */
  function WireOfPacket(c: Codec, p: GDPPacket, answers: seq<Answer>): seq<byte>
    requires answers != []
  {
    var header, payload := HeaderBytes(c, p), PayloadBytes(p);
    if !answers[0].Wrote? then []
    else
      header[..Taken(answers[0], |header|)] +
      payload[..TakenInAll(answers[1..AnswersFor(p, answers)], |payload|)]
  }

  function Prefix(b: seq<byte>, n: nat): seq<byte> {
    if n < |b| then b[..n] else b
  }

  /** Said without the loop: a packet whose header is refused takes one answer and leaves nothing.
      Otherwise as much of the header is on the wire as its answer offers, and right behind it, even
      if that is not all, as much of the payload as its own answers offer, which are asked for until
      they offer enough, fail hard, or end. */
  lemma {:induction false} WireOfPacketIs(c: Codec, p: GDPPacket, answers: seq<Answer>)
    requires answers != []
    ensures var n, header, payload := AnswersFor(p, answers), c.show(p.GetHeader()) + [0], FrameOf(p).payload;
            if answers[0].Wrote? then
              && WireOfPacket(c, p, answers) ==
                 Prefix(header, answers[0].count) + Prefix(payload, Offers(answers[1..n]))
              && (forall i | 1 <= i < n :: Offers(answers[1..i]) < |payload| && Failed !in answers[1..i])
              && (n == |answers| || Offers(answers[1..n]) >= |payload| || Failed in answers[1..n])
            else WireOfPacket(c, p, answers) == [] && n == 1
  {
    hide TakenInAll, Offers, PayloadAnswers;
    if answers[0].Wrote? {
      var n, size := AnswersFor(p, answers), |PayloadBytes(p)|;
      PayloadAnswersAre(size, answers[1..]);
      TakenIsOffered(answers[1..n], size);
      assert forall i | 0 <= i < n :: answers[1..][..i] == answers[1..1 + i];
      forall i | 1 <= i < n ensures Offers(answers[1..i]) < size && Failed !in answers[1..i] {
        assert answers[1..][..i - 1] == answers[1..i];
      }
    }
  }

  /** What became of one packet: on the wire in full; dropped, because its header was refused; part
      of it on the wire when the answers ended; or cut short with the connection going on. */
  datatype Sending = Whole | Lost | Unfinished | Corrupt

  /** One packet. The count that `try_write` returns for the header is ignored, so a header that is
      taken in part is followed by the payload all the same. A payload that is taken in parts does
      no harm: only a hard error cuts it short for good. */
  method SendPacket(c: Codec, packet: GDPPacket, answers: seq<Answer>)
    returns (bytes: seq<byte>, used: nat, sending: Sending)
    requires answers != []
    ensures used == AnswersFor(packet, answers)
    ensures bytes == WireOfPacket(c, packet, answers)
    ensures sending == Lost <==> !answers[0].Wrote?
    ensures sending == Lost ==> bytes == []
    ensures sending == Corrupt <==> CutsHeader(c, packet, answers[0]) || Failed in answers[1..used]
    ensures sending == Whole ==> bytes == c.EncodeFrame(FrameOf(packet))
    ensures sending == Unfinished ==> used == |answers| && [] < bytes < c.EncodeFrame(FrameOf(packet))
    ensures sending == Corrupt ==> |bytes| < |c.EncodeFrame(FrameOf(packet))|
  {
    var header := c.show(packet.GetHeader()) + [0];
    bytes, used, sending := [], 1, Lost;
    if answers[0].Wrote? {
      var n := Taken(answers[0], |header|);
      bytes, sending := header[..n], if n < |header| then Corrupt else Whole;
      if packet.payload.Some? {
        var written, more, status := WritePayload(packet.payload.value, answers[1..]);
        assert answers[1..][..more] == answers[1..1 + more];
        bytes, used := bytes + written, used + more;
        if status == Broken {
          sending := Corrupt;
        } else if status == Waiting && sending == Whole {
          sending := Unfinished;
        }
      }
    }
  }

  function WireOf(c: Codec, queue: seq<GDPPacket>, answers: seq<Answer>, from: nat := 0): seq<byte>
    requires from <= |answers|
  {
    if queue == [] || from == |answers| then []
    else
      WireOfPacket(c, queue[0], answers[from..]) +
      WireOf(c, queue[1..], answers, from + AnswersFor(queue[0], answers[from..]))
  }

  predicate Within(positions: seq<nat>, n: nat) {
    forall i | 0 <= i < |positions| :: positions[i] < n
  }

  /** For each packet that is begun, the position of the answer to its header. */
  function Begun(queue: seq<GDPPacket>, answers: seq<Answer>, from: nat := 0): (begun: seq<nat>)
    requires from <= |answers|
    ensures |begun| <= |queue| && Within(begun, |answers|)
  {
    if queue == [] || from == |answers| then []
    else [from] + Begun(queue[1..], answers, from + AnswersFor(queue[0], answers[from..]))
  }

  /** The first packet takes the first answers, and every other one those after its predecessor's,
      until packets or answers end. */
  lemma {:induction false} BegunAre(queue: seq<GDPPacket>, answers: seq<Answer>, from: nat := 0)
    requires from <= |answers|
    ensures var begun := Begun(queue, answers, from);
            && (begun == [] <==> queue == [] || from == |answers|)
            && (begun != [] ==> begun[0] == from)
            && (forall j | 0 < j < |begun| ::
                  begun[j] == begun[j - 1] + AnswersFor(queue[j - 1], answers[begun[j - 1]..]))
            && (begun != [] && |begun| < |queue| ==>
                  var last := |begun| - 1;
                  begun[last] + AnswersFor(queue[last], answers[begun[last]..]) == |answers|)
  {
    hide AnswersFor;
    if queue != [] && from < |answers| {
      var next := from + AnswersFor(queue[0], answers[from..]);
      var rest := Begun(queue[1..], answers, next);
      BegunAre(queue[1..], answers, next);
      var begun := [from] + rest;
      assert begun == Begun(queue, answers, from);
      forall j | 0 < j < |begun|
        ensures begun[j] == begun[j - 1] + AnswersFor(queue[j - 1], answers[begun[j - 1]..])
      {
        if j > 1 {
          assert rest[j - 1] == rest[j - 2] + AnswersFor(queue[1..][j - 2], answers[rest[j - 2]..]);
        }
      }
    }
  }

  /** The packets whose headers were not refused. */
  function Accepted(packets: seq<GDPPacket>, answers: seq<Answer>, begun: seq<nat>): seq<GDPPacket>
    requires |packets| <= |begun| && Within(begun, |answers|)
  {
    if packets == [] then []
    else
      var last := |packets| - 1;
      Accepted(packets[..last], answers, begun) + if answers[begun[last]].Wrote? then [packets[last]] else []
  }

  /** Every header is taken whole or not at all, and no payload write fails hard. */
  predicate Harmless(c: Codec, queue: seq<GDPPacket>, answers: seq<Answer>, begun: seq<nat>, used: nat)
    requires |begun| <= |queue| && used <= |answers| && Within(begun, |answers|)
  {
    && (forall j | 0 <= j < |begun| :: !CutsHeader(c, queue[j], answers[begun[j]]))
    && (forall i | 0 <= i < used && answers[i] == Failed :: i in begun)
  }

  /** The whole sender. The wire is the encoding of the queued packets whose headers were not refused,
      in order, plus a part of the next one when the answers ended, if and only if every header is
      taken whole or not at all and no payload write fails hard; otherwise it is too short for that.
      How much of a payload each write takes does not matter. */
  method SendQueue(c: Codec, queue: seq<GDPPacket>, answers: seq<Answer>)
    returns (wire: seq<byte>, sent: seq<GDPPacket>, partial: seq<byte>, lost: nat, intact: bool, next: nat,
             begun: seq<nat>, used: nat)
    ensures next <= |queue| && used <= |answers| && (next == |queue| || used == |answers|)
    ensures begun == Begun(queue, answers) && |begun| == next + if partial == [] then 0 else 1
    ensures intact <==> Harmless(c, queue, answers, begun, used)
    ensures wire == WireOf(c, queue, answers)
    ensures intact <==> wire == c.Encode(FramesOf(sent)) + partial
    ensures !intact ==> |wire| < |c.Encode(FramesOf(sent)) + partial|
    ensures sent == Accepted(queue[..next], answers, begun)
    ensures IsSubsequence(sent, queue[..next]) && |sent| + lost == next
    ensures partial != [] ==> partial < c.EncodeFrame(FrameOf(queue[next]))
    ensures (forall a <- answers :: a.Wrote?) ==> lost == 0
  {
    hide Codec.EncodeFrame, Codec.Encode, FramesOf, FrameOf, CutsHeader, IsSubsequence, Harmless, Accepted, Begun,
      AnswersFor, WireOf, WireOfPacket;
    wire, sent, partial, lost, intact, next, begun, used := [], [], [], 0, true, 0, [], 0;
    NothingBegun(c, queue, answers);
    while next < |queue| && used < |answers|
      invariant next <= |queue| && used <= |answers| && partial == [] && |begun| == next
      invariant Within(begun, used)
      invariant begun + Begun(queue[next..], answers, used) == Begun(queue, answers)
      invariant wire + WireOf(c, queue[next..], answers, used) == WireOf(c, queue, answers)
      invariant intact <==> Harmless(c, queue, answers, begun, used)
      invariant if intact then wire == c.Encode(FramesOf(sent)) else |wire| < |c.Encode(FramesOf(sent))|
      invariant sent == Accepted(queue[..next], answers, begun)
      invariant IsSubsequence(sent, queue[..next]) && |sent| + lost == next
    {
      var packet, rest := queue[next], answers[used..];
      var bytes, more, sending := SendPacket(c, packet, rest);
      HarmlessStep(c, queue, answers, begun, used, more);
      QueueStep(c, queue, answers, begun, used, wire);
      AcceptedStep(queue, answers, begun, used);
      begun, used := begun + [used], used + more;
      intact := intact && sending != Corrupt;
      if sending == Unfinished {
        NoneBegun(c, queue, answers, next + 1, used);
        wire, partial := wire + bytes, bytes;
        break;
      }
      SubsequenceGoesOn(sent, queue, next);
      EncodeGoesOn(c, sent, packet);
      wire, next := wire + bytes, next + 1;
      if sending == Lost {
        lost := lost + 1;
      } else {
        sent := sent + [packet];
      }
    }
    NoneBegun(c, queue, answers, next, used);
    NoneRefused(queue[..next], answers, begun);
    assert begun + [] == begun && wire + [] == wire;
  }

  lemma EncodeGoesOn(c: Codec, packets: seq<GDPPacket>, p: GDPPacket)
    ensures c.Encode(FramesOf(packets + [p])) == c.Encode(FramesOf(packets)) + c.EncodeFrame(FrameOf(p))
  {
    hide Codec.EncodeFrame;
    FramesOfAppend(packets, p);
    c.EncodeAppend(FramesOf(packets), [FrameOf(p)]);
    c.EncodeCons(FrameOf(p), []);
    assert [FrameOf(p)] + [] == [FrameOf(p)];
  }

  lemma NothingBegun(c: Codec, queue: seq<GDPPacket>, answers: seq<Answer>)
    ensures Harmless(c, queue, answers, [], 0) && Accepted(queue[..0], answers, []) == []
    ensures IsSubsequence<GDPPacket>([], queue[..0]) && c.Encode(FramesOf([])) == []
    ensures [] + Begun(queue[0..], answers, 0) == Begun(queue, answers)
    ensures [] + WireOf(c, queue[0..], answers, 0) == WireOf(c, queue, answers)
  {
    assert queue[0..] == queue;
  }

  lemma QueueStep(c: Codec, queue: seq<GDPPacket>, answers: seq<Answer>, begun: seq<nat>, used: nat, wire: seq<byte>)
    requires |begun| < |queue| && used < |answers|
    ensures var next, rest := |begun|, answers[used..];
            var more := AnswersFor(queue[next], rest);
            && begun + Begun(queue[next..], answers, used) ==
               (begun + [used]) + Begun(queue[next + 1..], answers, used + more)
            && wire + WireOf(c, queue[next..], answers, used) ==
               (wire + WireOfPacket(c, queue[next], rest)) + WireOf(c, queue[next + 1..], answers, used + more)
  {
    hide AnswersFor, WireOfPacket;
    var here, next := queue[|begun|..], queue[|begun| + 1..];
    assert here[1..] == next;
    var later := used + AnswersFor(here[0], answers[used..]);
    var tail, bytes := Begun(next, answers, later), WireOf(c, next, answers, later);
    assert Begun(here, answers, used) == [used] + tail;
    assert begun + ([used] + tail) == (begun + [used]) + tail;
    var first := WireOfPacket(c, here[0], answers[used..]);
    assert wire + (first + bytes) == (wire + first) + bytes;
  }

  lemma NoneBegun(c: Codec, queue: seq<GDPPacket>, answers: seq<Answer>, next: nat, used: nat)
    requires next <= |queue| && used <= |answers| && (next == |queue| || used == |answers|)
    ensures Begun(queue[next..], answers, used) == [] && WireOf(c, queue[next..], answers, used) == []
  {
  }

  lemma {:induction false} NoneRefused(packets: seq<GDPPacket>, answers: seq<Answer>, begun: seq<nat>)
    requires |packets| <= |begun| && Within(begun, |answers|)
    ensures (forall a <- answers :: a.Wrote?) ==> |Accepted(packets, answers, begun)| == |packets|
  {
    if packets != [] {
      NoneRefused(packets[..|packets| - 1], answers, begun);
    }
  }

  lemma AcceptedStep(queue: seq<GDPPacket>, answers: seq<Answer>, begun: seq<nat>, at: nat)
    requires |begun| < |queue| && at < |answers| && Within(begun, |answers|)
    ensures Accepted(queue[..|begun|], answers, begun + [at]) == Accepted(queue[..|begun|], answers, begun)
    ensures Accepted(queue[..|begun| + 1], answers, begun + [at]) ==
            Accepted(queue[..|begun|], answers, begun) + if answers[at].Wrote? then [queue[|begun|]] else []
  {
    AcceptedLocal(queue[..|begun|], answers, begun, at);
    assert queue[..|begun| + 1][..|begun|] == queue[..|begun|];
  }

  lemma {:induction false} AcceptedLocal(packets: seq<GDPPacket>, answers: seq<Answer>, begun: seq<nat>, at: nat)
    requires |packets| <= |begun| && at < |answers| && Within(begun, |answers|)
    ensures Accepted(packets, answers, begun + [at]) == Accepted(packets, answers, begun)
  {
    if packets != [] {
      AcceptedLocal(packets[..|packets| - 1], answers, begun, at);
    }
  }

  lemma HarmlessStep(c: Codec, queue: seq<GDPPacket>, answers: seq<Answer>, begun: seq<nat>, used: nat, more: nat)
    requires |begun| < |queue| && 0 < more && used + more <= |answers| && Within(begun, used)
    ensures Harmless(c, queue, answers, begun + [used], used + more) <==>
            && Harmless(c, queue, answers, begun, used)
            && !CutsHeader(c, queue[|begun|], answers[used]) && Failed !in answers[used..][1..more]
  {
    hide CutsHeader;
    var begun', used' := begun + [used], used + more;
    if Harmless(c, queue, answers, begun', used') {
      forall j | 0 <= j < |begun| ensures !CutsHeader(c, queue[j], answers[begun[j]]) {
        assert begun'[j] == begun[j];
      }
      assert begun'[|begun|] == used;
    } else if Failed !in answers[used..][1..more] {
      forall i | used < i < used' ensures answers[i] != Failed {
        assert answers[used..][1..more][i - used - 1] == answers[i];
      }
    }
  }

  /** Sender and receiver together, for the wire that SendQueue leaves and any way of cutting it: the
      packets whose headers were not refused have been handed on and the part of the next one is
      held, if and only if the wire is intact and no read has ended at a bad cut. */
  lemma {:induction false} SentIsReceivedIff(
    c: Codec, sent: seq<GDPPacket>, next: seq<GDPPacket>, partial: seq<byte>, chunks: seq<seq<byte>>)
    requires c.Lawful() && partial <= c.Encode(FramesOf(next))
    requires Flatten(chunks) == c.Encode(FramesOf(sent)) + partial ||
             |Flatten(chunks)| < |c.Encode(FramesOf(sent)) + partial|
    requires |next| <= 1 && (next != [] ==> partial < c.EncodeFrame(FrameOf(next[0])))
    ensures var meant := c.Encode(FramesOf(sent)) + partial;
            var received := IsReceived(c, Run(c, chunks), sent, partial);
            var good := Flatten(chunks) == meant && GoodCuts(c, FramesOf(sent + next), chunks);
            && (received && IsMadeFrom(c, chunks, meant) <==> good)
            && (c.Strict() ==> (received <==> good))
  {
    hide Codec.EncodeFrame, Codec.Parse, Codec.BadCut, Codec.Encode, Codec.Held, Codec.Settled, Flatten, Run;
    var fs, gs := FramesOf(sent), FramesOf(next);
    assert FramesOf(sent + next) == fs + gs;
    c.EncodeAppend(fs, gs);
    var n := |c.Encode(fs)| + |partial|;
    assert c.Encode(fs + gs)[..n] == c.Encode(fs) + partial;
    SpoiltIff(c, fs + gs, n, chunks);
    if Flatten(chunks) == c.Encode(fs) + partial && GoodCuts(c, fs + gs, chunks) {
      ReceivedSoFar(c, fs + gs, chunks);
      c.WholeFramesBefore(fs, gs, |partial|);
      assert (fs + gs)[..|fs|] == fs;
      AppendCancels(c.Encode(fs), c.Held(Run(c, chunks).carry), partial);
    }
  }

  /** The frames of the packets have been handed on, and the bytes are held. */
  predicate IsReceived(c: Codec, r: Outcome, packets: seq<GDPPacket>, held: seq<byte>) {
    r.Parsed? && r.frames == FramesOf(packets) && c.Held(r.carry) == held
  }
}
