/** What holds at every state of every run, even if links do not carry what was written on them: a
    payload write fails half way, a DTLS session starts again in the middle of a packet, bytes are
    lost, or a peer sends something else. */
module DisturbedLinks {
  import opened Structs
  import opened Framing
  import opened Pipeline
  import opened Reassembly
  import opened ConnectionRib
  import opened Ros
  import opened Network
  import opened NetworkInvariant
  import opened NetworkRuns

  /** A step of some task; or anything at all happens to the bytes between connection c and its peer
      and to what the peer holds of them. */
  datatype Move = Take(step: Step) | Disturb(c: nat, wire: seq<byte>, transit: seq<Item>, carry: Carry, dead: bool)

  ghost predicate Possible(t: Topology, s: State, move: Move)
    requires Fits(t, s)
  {
    match move
    case Take(step) => Enabled(t, s, step)
    case Disturb(c, _, _, _, _) => t.IsConn(c)
  }

  ghost function After(t: Topology, s: State, move: Move): (after: State)
    requires Fits(t, s) && Possible(t, s, move)
    ensures Fits(t, after)
  {
    match move
    case Take(step) => Next(t, s, step)
    case Disturb(c, wire, transit, carry, dead) =>
      s.(wire := s.wire[c := wire], transit := s.transit[c := transit],
         carry := s.carry[t.peer[c] := carry], dead := s.dead[t.peer[c] := dead])
  }

  ghost predicate CanMove(t: Topology, s: State, moves: seq<Move>)
    requires Fits(t, s)
    decreases |moves|
  {
    moves != [] ==> Possible(t, s, moves[0]) && CanMove(t, After(t, s, moves[0]), moves[1..])
  }

  ghost function AfterAll(t: Topology, s: State, moves: seq<Move>): (after: State)
    requires Fits(t, s) && CanMove(t, s, moves)
    ensures Fits(t, after)
    decreases |moves|
  {
    if moves == [] then s else AfterAll(t, After(t, s, moves[0]), moves[1..])
  }

  function TakeAll(steps: seq<Step>): seq<Move> {
    seq(|steps|, i requires 0 <= i < |steps| => Take(steps[i]))
  }

  /** Undisturbed runs are among these. */
  lemma {:induction false} RunsAreMoves(t: Topology, s: State, steps: seq<Step>)
    requires Fits(t, s) && CanRun(t, s, steps)
    ensures CanMove(t, s, TakeAll(steps)) && AfterAll(t, s, TakeAll(steps)) == StateAfter(t, s, steps)
    decreases |steps|
  {
    hide Next, Enabled, Fits;
    if steps != [] {
      RunsAreMoves(t, Next(t, s, steps[0]), steps[1..]);
      assert TakeAll(steps)[1..] == TakeAll(steps[1..]);
    }
  }

  /** And any possible move can follow any run. */
  lemma {:induction false} MovesGoOn(t: Topology, s: State, moves: seq<Move>, move: Move)
    requires Fits(t, s) && CanMove(t, s, moves) && Possible(t, AfterAll(t, s, moves), move)
    ensures CanMove(t, s, moves + [move])
    ensures AfterAll(t, s, moves + [move]) == After(t, AfterAll(t, s, moves), move)
    decreases |moves|
  {
    hide After, Possible, Fits;
    var all := moves + [move];
    if moves == [] {
      assert all[0] == move && all[1..] == [];
    } else {
      MovesGoOn(t, After(t, s, moves[0]), moves[1..], move);
      assert all[0] == moves[0] && all[1..] == moves[1..] + [move];
    }
  }

  /** No order of the tasks is ruled out, no size of a read, and no refusal of a header. */
  lemma NothingIsRuledOut(t: Topology, s: State, r: nat, c: nat, e: nat, n: nat, payload: Bytes, order: seq<GDPName>)
    requires Fits(t, s) && r < t.routers && t.IsConn(c) && e < |t.endpointHome|
    ensures Possible(t, s, Take(Route(r))) <==> s.ribQueue[r] != []
    ensures Possible(t, s, Take(Register(r))) <==> s.registry[r] != []
    ensures Possible(t, s, Take(Flush(c, order))) <==> IsOrderOf(order, Names(s.log[t.home[c]]))
    ensures Possible(t, s, Take(Write(c))) <==> s.out[c] != []
    ensures Possible(t, s, Take(Refuse(c))) <==> s.out[c] != []
    ensures Possible(t, s, Take(Read(c, n))) <==> !s.dead[c] && 0 < n <= |s.wire[t.peer[c]]|
    ensures Possible(t, s, Take(AdvertiseSelf(c))) && Possible(t, s, Take(JoinEndpoint(e)))
    ensures Possible(t, s, Take(Send(e, payload)))
    ensures Possible(t, s, Take(SendDirect(e, c, payload))) <==> t.home[c] == t.endpointHome[e]
  {
  }

  // ---- The queues ----

  /** A packet in the queue of the RIB: to be forwarded, with a payload, and named after the
      connection that it came in on. */
  predicate Forwardable(t: Topology, r: nat, item: Item) {
    && item.packet.action == Forward && item.packet.payload.Some?
    && (item.via.Some? ==>
          var c := item.via.value;
          c < |t.home| && c < |t.threadName| && t.home[c] == r && item.packet.source == t.threadName[c])
  }

  /** What holds of the queues and tables whatever is on the links. */
  ghost predicate QueuesInv(t: Topology, s: State) {
    && Fits(t, s)
    && (forall c: nat | c < |t.home| :: t.IsConn(c))
    && (forall r, item | 0 <= r < t.routers && item in s.ribQueue[r] :: Forwardable(t, r, item))
    && (forall r, e | 0 <= r < t.routers && e in s.registry[r] :: OwnEntry(t, r, e))
    && (forall r, e | 0 <= r < t.routers && e in s.log[r] :: OwnEntry(t, r, e))
    && (forall c, item | 0 <= c < |t.home| && item in s.out[c] :: Sendable(item.packet))
    && (forall e, p | 0 <= e < |s.inbox| && p in s.inbox[e] :: p.action == Forward && p.payload.Some?)
  }

  lemma {:induction false} ArrivalsAreForwardable(t: Topology, fs: seq<Frame>, sent: seq<Item>, c: nat)
    requires c < |t.threadName| && c < |t.home|
    ensures forall item <- Arrivals(fs, sent, t, c) :: Forwardable(t, t.home[c], item)
  {
    if fs != [] {
      ArrivalsAreForwardable(t, fs[..|fs| - 1], sent, c);
    }
  }

  lemma MoveKeepsQueues(t: Topology, s: State, move: Move)
    requires QueuesInv(t, s) && Possible(t, s, move)
    ensures QueuesInv(t, After(t, s, move))
  {
    hide CopyCount, OwnEntry, Feed, Arrivals, ForRegistry, Codec.EncodeFrame, Forwardable;
    match move
    case Take(Read(c, n)) =>
      var r := Feed(t.codec, s.carry[c], s.wire[t.peer[c]][..n]);
      if r.Parsed? {
        ArrivalsAreForwardable(t, r.frames, s.transit[t.peer[c]], c);
        RegistryEntriesAreOwn(t, r.frames, c);
      }
    case Take(step) => OtherStepKeepsQueues(t, s, step);
    case Disturb(_, _, _, _, _) =>
  }

  lemma OtherStepKeepsQueues(t: Topology, s: State, step: Step)
    requires QueuesInv(t, s) && Enabled(t, s, step) && !step.Read?
    ensures QueuesInv(t, Next(t, s, step))
  {
    hide CopyCount, Codec.EncodeFrame;
    match step
    case Route(r) =>
      var item := s.ribQueue[r][0];
      assert Forwardable(t, r, item);
    case _ =>
  }

  lemma {:induction false} MovesKeepQueues(t: Topology, s: State, moves: seq<Move>)
    requires QueuesInv(t, s) && CanMove(t, s, moves)
    ensures QueuesInv(t, AfterAll(t, s, moves))
    decreases |moves|
  {
    hide After, Possible, Forwardable, OwnEntry;
    if moves != [] {
      MoveKeepsQueues(t, s, moves[0]);
      MovesKeepQueues(t, After(t, s, moves[0]), moves[1..]);
    }
  }

  lemma InitQueues(t: Topology)
    requires t.Valid()
    ensures QueuesInv(t, Init(t))
  {
  }

  /** Whatever happens on the links, at every state of every run: the queue of the RIB holds only
      Forward packets with a payload, and what is queued for a connection is one of those or an
      Advertise packet without a payload: never a Noop, and never a length that differs from the
      bytes that follow. */
  lemma QueuesHoldOnlySendable(t: Topology, moves: seq<Move>)
    requires t.Valid() && CanMove(t, Init(t), moves)
    ensures var s := AfterAll(t, Init(t), moves);
            && (forall r, item | 0 <= r < t.routers && item in s.ribQueue[r] ::
                  item.packet.action == Forward && item.packet.payload.Some?)
            && (forall c, item | 0 <= c < |t.home| && item in s.out[c] ::
                  && Sendable(item.packet) && item.packet.GetHeader().action != Noop
                  && item.packet.GetHeader().length == |item.packet.payload.GetOr([])|)
  {
    hide Init;
    InitQueues(t);
    MovesKeepQueues(t, Init(t), moves);
    var s := AfterAll(t, Init(t), moves);
    forall r, item | 0 <= r < t.routers && item in s.ribQueue[r]
      ensures item.packet.action == Forward && item.packet.payload.Some?
    {
      assert Forwardable(t, r, item);
    }
  }

  /** Split horizon over whole runs, whatever happens on the links and however many of them are
      parallel: the RIB makes no copy of a packet for the connection that it came in on. */
  lemma NeverBackWhereItCameFrom(t: Topology, moves: seq<Move>, r: nat, item: Item)
    requires t.Valid() && CanMove(t, Init(t), moves) && r < t.routers && item.via.Some?
    ensures var s := AfterAll(t, Init(t), moves);
            item in s.ribQueue[r] ==> CopyCount(s.log[r], item.packet, Link(item.via.value)) == 0
  {
    hide Init, CopyCount;
    InitQueues(t);
    MovesKeepQueues(t, Init(t), moves);
    var s := AfterAll(t, Init(t), moves);
    if item in s.ribQueue[r] {
      assert Forwardable(t, r, item);
      assert forall e <- s.log[r] :: OwnEntry(t, r, e);
      SplitHorizon(s.log[r], item.packet, Link(item.via.value));
    }
  }

  // ---- ROS publishers ----

  /** A ROS publisher is only ever given packets that have a payload, so its first unwrap never fails;
      it panics exactly if some payload does not decode. */
  lemma PublishersGetPayloads(t: Topology, moves: seq<Move>, e: nat, topic: GDPName)
    requires t.Valid() && CanMove(t, Init(t), moves) && e < |t.endpointHome|
    ensures forall payload <- Delivered(topic, AfterAll(t, Init(t), moves).inbox[e]) :: payload.Some?
  {
    hide Init;
    InitQueues(t);
    MovesKeepQueues(t, Init(t), moves);
    DeliveredFrom(topic, AfterAll(t, Init(t), moves).inbox[e]);
  }

  lemma {:induction false} DeliveredFrom(topic: GDPName, inbox: seq<GDPPacket>)
    requires forall p <- inbox :: p.payload.Some?
    ensures forall payload <- Delivered(topic, inbox) :: payload.Some?
  {
    if inbox != [] {
      assert inbox[|inbox| - 1] in inbox;
      DeliveredFrom(topic, inbox[..|inbox| - 1]);
    }
  }

  /** What the RIB of router r is given by one move, if anything. */
  ghost function EventOf(t: Topology, s: State, move: Move, r: nat): seq<Event>
    requires Fits(t, s) && Possible(t, s, move)
  {
    if move.Disturb? then [] else EventOfStep(t, s, move.step, r)
  }

  ghost function EventOfStep(t: Topology, s: State, step: Step, r: nat): seq<Event>
    requires Fits(t, s) && Enabled(t, s, step)
  {
    match step
    case Route(q) => if q == r then [Packet(s.ribQueue[q][0].packet)] else []
    case Register(q) => if q == r then [Registration(s.registry[q][0])] else []
    case Flush(c, order) => if t.home[c] == r then [FlushTo(Link(c), order)] else []
    case _ => []
  }

  /** What the RIB of router r is given in the course of a run. */
  ghost function EventsAt(t: Topology, s: State, moves: seq<Move>, r: nat): seq<Event>
    requires Fits(t, s) && CanMove(t, s, moves)
    decreases |moves|
  {
    if moves == [] then []
    else EventOf(t, s, moves[0], r) + EventsAt(t, After(t, s, moves[0]), moves[1..], r)
  }

  /** The endpoint e has received what the RIB of its router sent it, and this is what that RIB has
      been given so far. */
  ghost predicate HasReceived(t: Topology, s: State, events: seq<Event>, e: nat)
    requires Fits(t, s) && e < |t.endpointHome|
  {
    s.log[t.endpointHome[e]] == LogOf(events) && s.inbox[e] == Inbox(events, Endpoint(e), false)
  }

  lemma MoveKeepsReceived(t: Topology, s: State, move: Move, events: seq<Event>, e: nat)
    requires QueuesInv(t, s) && Possible(t, s, move) && e < |t.endpointHome| && HasReceived(t, s, events, e)
    ensures HasReceived(t, After(t, s, move), events + EventOf(t, s, move, t.endpointHome[e]), e)
  {
    hide Forwardable, OwnEntry, LogOf, Inbox, CopyCount, Feed, Arrivals, ForRegistry, Spread, Codec.EncodeFrame;
    var now := EventOf(t, s, move, t.endpointHome[e]);
    if now == [] {
      assert events + now == events;
    } else {
      OneMoreEvent(events, now[0], Endpoint(e));
    }
    match move
    case Take(Route(r)) =>
      if r != t.endpointHome[e] {
        NoEntryElsewhere(t, s, r, e);
        assert Repeat(s.ribQueue[r][0].packet, 0) == [];
      }
    case _ =>
  }

  lemma OneMoreEvent(events: seq<Event>, event: Event, ch: Sender)
    ensures LogOf(events + [event]) == LogOf(events) + if event.Registration? then [event.channel] else []
    ensures Inbox(events + [event], ch, false) == Inbox(events, ch, false) + SentFor(LogOf(events), event, ch, false)
  {
    assert (events + [event])[..|events|] == events;
  }

  /** Only the router of an endpoint ever makes copies for it. */
  lemma NoEntryElsewhere(t: Topology, s: State, r: nat, e: nat)
    requires QueuesInv(t, s) && Enabled(t, s, Route(r)) && e < |t.endpointHome| && t.endpointHome[e] != r
    ensures CopyCount(s.log[r], s.ribQueue[r][0].packet, Endpoint(e)) == 0
  {
    hide CopyCount;
    assert forall entry <- s.log[r] :: OwnEntry(t, r, entry);
    SplitHorizon(s.log[r], s.ribQueue[r][0].packet, Endpoint(e));
  }

  lemma {:induction false} MovesKeepReceived(t: Topology, s: State, moves: seq<Move>, events: seq<Event>, e: nat)
    requires QueuesInv(t, s) && CanMove(t, s, moves) && e < |t.endpointHome| && HasReceived(t, s, events, e)
    ensures HasReceived(t, AfterAll(t, s, moves), events + EventsAt(t, s, moves, t.endpointHome[e]), e)
    decreases |moves|
  {
    hide After, Possible, Forwardable, OwnEntry, HasReceived, EventOf;
    var r := t.endpointHome[e];
    if moves == [] {
      assert events + EventsAt(t, s, moves, r) == events;
    } else {
      var now, next := EventOf(t, s, moves[0], r), After(t, s, moves[0]);
      MoveKeepsQueues(t, s, moves[0]);
      MoveKeepsReceived(t, s, moves[0], events, e);
      MovesKeepReceived(t, next, moves[1..], events + now, e);
      assert (events + now) + EventsAt(t, next, moves[1..], r) == events + (now + EventsAt(t, next, moves[1..], r));
    }
  }

  /** The name index serves local publishers as flooding does, over every run and whatever happens on
      the links: what reaches an endpoint is what its RIB sends it by looking names up, and had the
      RIB sent every packet to every entry, a publisher would get the same payloads in the same
      order. */
  lemma {:induction false} LookupServesPublishers(t: Topology, moves: seq<Move>, e: nat)
    requires t.Valid() && CanMove(t, Init(t), moves) && e < |t.endpointHome|
    ensures var events := EventsAt(t, Init(t), moves, t.endpointHome[e]);
            var inbox, topic := AfterAll(t, Init(t), moves).inbox[e], t.endpointTopic[e];
            && inbox == Inbox(events, Endpoint(e), false)
            && Delivered(topic, inbox) == Delivered(topic, Inbox(events, Endpoint(e), true))
  {
    hide QueuesInv, After, Possible, Delivered, FloodCount, CopyCount, Codec.Parse;
    var events := EventsAt(t, Init(t), moves, t.endpointHome[e]);
    InitQueues(t);
    MovesKeepReceived(t, Init(t), moves, [], e);
    assert [] + events == events;
    MovesKeepQueues(t, Init(t), moves);
    OnlyUnderOwnTopic(t, AfterAll(t, Init(t), moves), e);
    NameIndexRefinesFlooding(events, Endpoint(e), t.endpointTopic[e]);
  }

  lemma OnlyUnderOwnTopic(t: Topology, s: State, e: nat)
    requires QueuesInv(t, s) && e < |t.endpointHome|
    ensures OnlyUnder(s.log[t.endpointHome[e]], Endpoint(e), t.endpointTopic[e])
  {
    assert forall entry <- s.log[t.endpointHome[e]] :: OwnEntry(t, t.endpointHome[e], entry);
  }
}
