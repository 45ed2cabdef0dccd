/** The queues inside a router over whole runs: what goes into each of them, said packet by packet, is
    what has come out of it and what is still in it, in order. Links may do anything meanwhile. */
module QueueFifo {
  import opened Structs
  import opened Framing
  import opened Pipeline
  import opened Reassembly
  import opened ConnectionRib
  import opened Ros
  import opened Network
  import opened NetworkInvariant
  import opened DisturbedLinks
  import opened LinkFifo

  /** What goes through the RIB's queue and registry at one router, and through the outgoing queue of
      one connection. */
  datatype Flow = Flow(
    toRib: seq<GDPPacket>, routed: seq<GDPPacket>, enlisted: seq<GDPChannel>,
    queued: seq<GDPPacket>, taken: seq<GDPPacket>)
  {
    function Then(later: Flow): Flow {
      Flow(toRib + later.toRib, routed + later.routed, enlisted + later.enlisted,
           queued + later.queued, taken + later.taken)
    }
  }

  /** The packets that a move puts on the queue of the RIB of router r: a subscriber's message, under its
      topic and from its node, or what a connection hands on. */
  ghost function ToRibNow(t: Topology, s: State, move: Move, r: nat): seq<GDPPacket>
    requires Fits(t, s) && Possible(t, s, move)
  {
    match move
    case Take(Send(e, payload)) =>
      if t.endpointHome[e] != r then []
      else [GDPPacket(Forward, t.endpointTopic[e], Some(payload), t.endpointName[e])]
    case Take(Read(q, _)) => if t.home[q] == r then ForRib(HandedOnNow(t, s, move, q), t.threadName[q], Link(q)) else []
    case _ => []
  }

  /** The registrations that a move puts on the registry of router r: an endpoint under its topic, as
      advertised by its node; a connection under its own name; or what a peer advertises. */
  ghost function EnlistedNow(t: Topology, s: State, move: Move, r: nat): seq<GDPChannel>
    requires Fits(t, s) && Possible(t, s, move)
  {
    match move
    case Take(JoinEndpoint(e)) =>
      var topic := t.endpointTopic[e];
      if t.endpointHome[e] != r then []
      else [GDPChannel(topic, Endpoint(e), GDPPacket(Advertise, topic, None, t.endpointName[e]))]
    case Take(AdvertiseSelf(c)) =>
      var name := t.threadName[c];
      if t.home[c] != r then [] else [GDPChannel(name, Link(c), GDPPacket(Advertise, name, None, name))]
    case Take(Read(q, _)) =>
      if t.home[q] == r then ForRegistry(HandedOnNow(t, s, move, q), t.threadName[q], Link(q)) else []
    case _ => []
  }

  /** The packets that a move queues for connection c: copies of what its RIB routes, one for each
      eligible registration; advertisements of a flush; or a subscriber's message of its own. */
  ghost function QueuedNow(t: Topology, s: State, move: Move, c: nat): seq<GDPPacket>
    requires Fits(t, s) && Possible(t, s, move) && t.IsConn(c)
  {
    match move
    case Take(Route(r)) =>
      var packet := s.ribQueue[r][0].packet;
      if r == t.home[c] then Repeat(packet, |Eligible(s.log[r], packet, Link(c))|) else []
    case Take(Flush(d, order)) => if d == c then Advertisements(order) else []
    case Take(SendDirect(e, d, payload)) =>
      if d != c then [] else [GDPPacket(Forward, t.endpointTopic[e], Some(payload), t.endpointName[e])]
    case _ => []
  }

  ghost function FlowNow(t: Topology, s: State, move: Move, r: nat, c: nat): Flow
    requires Fits(t, s) && Possible(t, s, move) && t.IsConn(c)
  {
    var routed := if move == Take(Route(r)) then [s.ribQueue[r][0].packet] else [];
    var taken := if move == Take(Write(c)) || move == Take(Refuse(c)) then [s.out[c][0].packet] else [];
    Flow(ToRibNow(t, s, move, r), routed, EnlistedNow(t, s, move, r), QueuedNow(t, s, move, c), taken)
  }

  ghost function FlowOf(t: Topology, s: State, moves: seq<Move>, r: nat, c: nat): Flow
    requires Fits(t, s) && CanMove(t, s, moves) && t.IsConn(c)
    decreases |moves|
  {
    if moves == [] then Flow([], [], [], [], [])
    else FlowNow(t, s, moves[0], r, c).Then(FlowOf(t, After(t, s, moves[0]), moves[1..], r, c))
  }

  lemma AdvertItemsArePackets(order: seq<GDPName>)
    ensures Packets(AdvertItems(order)) == Advertisements(order)
  {
  }

  lemma PacketsOf(a: seq<Item>, b: seq<Item>)
    ensures Packets(a + b) == Packets(a) + Packets(b)
  {
  }

  lemma CopiesArePackets(item: Item, n: nat)
    ensures Packets(Copies(item, n)) == Repeat(item.packet, n)
  {
  }

  lemma MoveFlowsThroughRib(t: Topology, s: State, move: Move, r: nat)
    requires QueuesInv(t, s) && Possible(t, s, move) && r < t.routers
    ensures var routed := if move == Take(Route(r)) then [s.ribQueue[r][0].packet] else [];
            Packets(s.ribQueue[r]) + ToRibNow(t, s, move, r) == routed + Packets(After(t, s, move).ribQueue[r])
  {
    hide Forwardable, OwnEntry, Feed, Arrivals, ForRib, ForRegistry, CopyCount, Codec.EncodeFrame;
    match move
    case Take(Read(q, n)) =>
      if t.home[q] == r {
        ArrivalsAreForRib(t, HandedOnNow(t, s, move, q), s.transit[t.peer[q]], q);
        PacketsOf(s.ribQueue[r], Arrivals(HandedOnNow(t, s, move, q), s.transit[t.peer[q]], t, q));
        NothingForRib(t, q, s.transit[t.peer[q]]);
      }
    case _ =>
  }

  lemma NothingForRib(t: Topology, q: nat, sent: seq<Item>)
    requires q < |t.threadName|
    ensures Arrivals([], sent, t, q) == [] && ForRib([], t.threadName[q], Link(q)) == []
    ensures ForRegistry([], t.threadName[q], Link(q)) == []
  {
  }

  lemma MoveFlowsThroughRegistry(t: Topology, s: State, move: Move, r: nat)
    requires QueuesInv(t, s) && Possible(t, s, move) && r < t.routers
    ensures var after := After(t, s, move);
            s.log[r] + s.registry[r] + EnlistedNow(t, s, move, r) == after.log[r] + after.registry[r]
  {
    hide Forwardable, OwnEntry, Feed, Arrivals, ForRib, ForRegistry, CopyCount, Codec.EncodeFrame;
    match move
    case Take(Read(q, n)) => NothingForRib(t, q, s.transit[t.peer[q]]);
    case _ =>
  }

  lemma MoveFlowsThroughOut(t: Topology, s: State, move: Move, c: nat)
    requires QueuesInv(t, s) && Possible(t, s, move) && t.IsConn(c)
    ensures var taken := if move == Take(Write(c)) || move == Take(Refuse(c)) then [s.out[c][0].packet] else [];
            Packets(s.out[c]) + QueuedNow(t, s, move, c) == taken + Packets(After(t, s, move).out[c])
  {
    hide Forwardable, OwnEntry, Feed, Arrivals, ForRegistry, CopyCount, Eligible, Codec.EncodeFrame;
    match move
    case Take(Route(r)) =>
      var item := s.ribQueue[r][0];
      var n := CopyCount(s.log[r], item.packet, Link(c));
      OneCopyPerEligibleEntry(s.log[r], item.packet, Link(c));
      if r != t.home[c] {
        OnlyHomeCopies(t, s, r, c);
      }
      CopiesArePackets(Onward(t, item, c), n);
      PacketsOf(s.out[c], Copies(Onward(t, item, c), n));
    case Take(Flush(_, order)) => AdvertItemsArePackets(order);
    case _ =>
  }

  /** Only the router of a connection ever makes copies for it. */
  lemma OnlyHomeCopies(t: Topology, s: State, r: nat, c: nat)
    requires QueuesInv(t, s) && Enabled(t, s, Route(r)) && t.IsConn(c) && r != t.home[c]
    ensures CopyCount(s.log[r], s.ribQueue[r][0].packet, Link(c)) == 0
  {
    hide CopyCount;
    assert forall entry <- s.log[r] :: OwnEntry(t, r, entry);
    SplitHorizon(s.log[r], s.ribQueue[r][0].packet, Link(c));
  }

  lemma {:induction false} MovesFlow(t: Topology, s: State, moves: seq<Move>, r: nat, c: nat)
    requires QueuesInv(t, s) && CanMove(t, s, moves) && r < t.routers && t.IsConn(c)
    ensures var flow, end := FlowOf(t, s, moves, r, c), AfterAll(t, s, moves);
            && Packets(s.ribQueue[r]) + flow.toRib == flow.routed + Packets(end.ribQueue[r])
            && s.log[r] + s.registry[r] + flow.enlisted == end.log[r] + end.registry[r]
            && Packets(s.out[c]) + flow.queued == flow.taken + Packets(end.out[c])
    decreases |moves|
  {
    hide After, Possible, Forwardable, OwnEntry, ToRibNow, EnlistedNow, QueuedNow, Packets;
    if moves != [] {
      var next := After(t, s, moves[0]);
      MoveKeepsQueues(t, s, moves[0]);
      MoveFlowsThroughRib(t, s, moves[0], r);
      MoveFlowsThroughRegistry(t, s, moves[0], r);
      MoveFlowsThroughOut(t, s, moves[0], c);
      MovesFlow(t, next, moves[1..], r, c);
      var now, later := FlowNow(t, s, moves[0], r, c), FlowOf(t, next, moves[1..], r, c);
      var end := AfterAll(t, s, moves);
      Chain(Packets(s.ribQueue[r]), now.toRib, now.routed, Packets(next.ribQueue[r]),
            later.toRib, later.routed, Packets(end.ribQueue[r]));
      Chain(Packets(s.out[c]), now.queued, now.taken, Packets(next.out[c]),
            later.queued, later.taken, Packets(end.out[c]));
      assert s.log[r] + s.registry[r] + (now.enlisted + later.enlisted) ==
             (s.log[r] + s.registry[r] + now.enlisted) + later.enlisted;
    } else {
      assert Packets(s.ribQueue[r]) + [] == [] + Packets(s.ribQueue[r]);
      assert Packets(s.out[c]) + [] == [] + Packets(s.out[c]);
    }
  }

  lemma Chain<T>(start: seq<T>, i: seq<T>, o: seq<T>, middle: seq<T>, i': seq<T>, o': seq<T>, end: seq<T>)
    requires start + i == o + middle && middle + i' == o' + end
    ensures start + (i + i') == (o + o') + end
  {
    assert start + (i + i') == (start + i) + i' == (o + middle) + i' == o + (middle + i') == o + (o' + end);
  }

  /** Over every run: what was given to a RIB has been routed or waits, in order; what was to be
      registered at a router is in its log, or waits, in order; and what was queued for a connection
      has been taken off to be written, or waits, in order. */
  lemma {:induction false} QueuesAreFifo(t: Topology, moves: seq<Move>, r: nat, c: nat)
    requires t.Valid() && CanMove(t, Init(t), moves) && r < t.routers && t.IsConn(c)
    ensures var flow, end := FlowOf(t, Init(t), moves, r, c), AfterAll(t, Init(t), moves);
            && flow.toRib == flow.routed + Packets(end.ribQueue[r])
            && flow.enlisted == end.log[r] + end.registry[r]
            && flow.queued == flow.taken + Packets(end.out[c])
  {
    hide After, Possible, QueuesInv, FlowOf;
    InitQueues(t);
    MovesFlow(t, Init(t), moves, r, c);
    var flow := FlowOf(t, Init(t), moves, r, c);
    assert [] + flow.toRib == flow.toRib && [] + [] + flow.enlisted == flow.enlisted && [] + flow.queued == flow.queued;
    assert Packets([]) == [];
  }

  /** What is taken off the queue of a connection is written, unless its header is refused. */
  lemma {:induction false} TakenIsWritten(t: Topology, s: State, moves: seq<Move>, r: nat, c: nat)
    requires Fits(t, s) && CanMove(t, s, moves) && t.IsConn(c) && Take(Refuse(c)) !in moves
    ensures FlowOf(t, s, moves, r, c).taken == Written(t, s, moves, c)
    decreases |moves|
  {
    hide After, Possible, ToRibNow, EnlistedNow, QueuedNow;
    if moves != [] {
      TakenIsWritten(t, After(t, s, moves[0]), moves[1..], r, c);
    }
  }

  /** From the queue of one end to the hands of the other: over every run that spares a link and in
      which no header is refused on it, the frames that one end has handed on are the packets that
      were queued at the other, but for those under way and those still queued. */
  lemma {:induction false} QueuedIsHandedOn(t: Topology, moves: seq<Move>, c: nat)
    requires t.Valid() && CanMove(t, Init(t), moves) && t.IsConn(c) && t.home[c] < t.routers
    requires Take(Refuse(c)) !in moves && forall move <- moves :: Spares(move, c)
    ensures var end := AfterAll(t, Init(t), moves);
            FramesOf(FlowOf(t, Init(t), moves, t.home[c], c).queued) ==
            HandedOn(t, Init(t), moves, t.peer[c]) + FramesOf(Packets(end.transit[c])) + FramesOf(Packets(end.out[c]))
  {
    hide After, Possible, FlowOf, FrameOf, Written, HandedOn;
    var end := AfterAll(t, Init(t), moves);
    QueuesAreFifo(t, moves, t.home[c], c);
    TakenIsWritten(t, Init(t), moves, t.home[c], c);
    LinksAreFifo(t, moves, c);
    var written, waiting := Written(t, Init(t), moves, c), Packets(end.out[c]);
    assert FramesOf(written + waiting) == FramesOf(written) + FramesOf(waiting);
  }

  // ---- A subscriber's message ----

  /** What a subscriber sends is what others get: when its RIB, with nothing else to do, routes the
      message, every endpoint and every connection gets one copy for each registration that it is
      eligible for, and a publisher of the subscriber's topic is delivered its payload as often. */
  lemma {:induction false} SentIsDelivered(t: Topology, s: State, e: nat, payload: Bytes, f: nat, c: nat)
    requires QueuesInv(t, s) && e < |t.endpointHome| && f < |t.endpointHome| && t.IsConn(c)
    requires s.ribQueue[t.endpointHome[e]] == []
    ensures var r := t.endpointHome[e];
            var message := GDPPacket(Forward, t.endpointTopic[e], Some(payload), t.endpointName[e]);
            var after := After(t, After(t, s, Take(Send(e, payload))), Take(Route(r)));
            var n := |Eligible(s.log[r], message, Endpoint(f))|;
            && after.inbox[f] == s.inbox[f] + Repeat(message, n)
            && Packets(after.out[c]) == Packets(s.out[c]) + Repeat(message, |Eligible(s.log[r], message, Link(c))|)
            && forall topic :: Delivered(topic, after.inbox[f]) ==
                 Delivered(topic, s.inbox[f]) + seq(if topic == t.endpointTopic[e] then n else 0, _ => Some(payload))
  {
    hide CopyCount, Eligible, OwnEntry, Forwardable;
    var r, message := t.endpointHome[e], GDPPacket(Forward, t.endpointTopic[e], Some(payload), t.endpointName[e]);
    var sent := After(t, s, Take(Send(e, payload)));
    var after := After(t, sent, Take(Route(r)));
    var item := sent.ribQueue[r][0];
    assert item.packet == message;
    OneCopyPerEligibleEntry(s.log[r], message, Endpoint(f));
    OneCopyPerEligibleEntry(s.log[r], message, Link(c));
    CopiesArePackets(Onward(t, item, c), CopyCount(s.log[r], message, Link(c)));
    PacketsOf(s.out[c], Copies(Onward(t, item, c), CopyCount(s.log[r], message, Link(c))));
    var n := |Eligible(s.log[r], message, Endpoint(f))|;
    forall topic
      ensures Delivered(topic, after.inbox[f]) ==
              Delivered(topic, s.inbox[f]) + seq(if topic == t.endpointTopic[e] then n else 0, _ => Some(payload))
    {
      DeliveredAppend(topic, s.inbox[f], Repeat(message, n));
      RepeatIsDelivered(topic, message, n);
    }
  }

  lemma {:induction false} RepeatIsDelivered(topic: GDPName, p: GDPPacket, n: nat)
    ensures Delivered(topic, Repeat(p, n)) == seq(if Concerns(topic, p) then n else 0, _ => p.payload)
  {
    if n > 0 {
      RepeatIsDelivered(topic, p, n - 1);
      assert Repeat(p, n)[..n - 1] == Repeat(p, n - 1);
    }
  }
}
