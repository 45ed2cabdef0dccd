/** Route synchronisation: a flush makes every name of one router's table a route of its neighbour's. */
module RouteSync {
  import opened Structs
  import opened Framing
  import opened Pipeline
  import opened Reassembly
  import opened ConnectionRib
  import opened Network
  import opened NetworkInvariant
  import opened DisturbedLinks
  import opened LinkFifo

  /** The registration that connection q makes of an advertisement of a name. */
  function RouteOver(t: Topology, q: nat, name: GDPName): GDPChannel
    requires q < |t.threadName|
  {
    GDPChannel(name, Link(q), ConstructAdvertisement(name, t.threadName[q]))
  }

  predicate Advertises(items: seq<Item>, name: GDPName) {
    ConstructAdvertisement(name, name) in Packets(items)
  }

  /** An advertisement of a name by connection c is queued, under way, waiting to be registered at
      the other end, or registered there. */
  ghost predicate OnItsWay(t: Topology, s: State, c: nat, name: GDPName)
    requires Fits(t, s) && t.IsConn(c)
  {
    var q := t.peer[c];
    || Advertises(s.out[c], name)
    || Advertises(s.transit[c], name)
    || RouteOver(t, q, name) in s.registry[t.home[q]]
    || RouteOver(t, q, name) in s.log[t.home[q]]
  }

  lemma {:induction false} RegistryHasRoute(t: Topology, fs: seq<Frame>, q: nat, name: GDPName)
    requires q < |t.threadName| && FrameOf(ConstructAdvertisement(name, name)) in fs
    ensures RouteOver(t, q, name) in ForRegistry(fs, t.threadName[q], Link(q))
  {
    if fs[|fs| - 1] != FrameOf(ConstructAdvertisement(name, name)) {
      RegistryHasRoute(t, fs[..|fs| - 1], q, name);
    }
  }

  lemma AdvertisesAppend(a: seq<Item>, b: seq<Item>, name: GDPName)
    ensures Advertises(a + b, name) <==> Advertises(a, name) || Advertises(b, name)
  {
    assert Packets(a + b) == Packets(a) + Packets(b);
  }

  /** A read at the other end either leaves an advertisement under way or registers its name. */
  lemma ReadKeepsOnItsWay(t: Topology, s: State, q: nat, n: nat, name: GDPName)
    requires Fits(t, s) && Enabled(t, s, Read(q, n)) && t.IsConn(t.peer[q]) && InStep(t, s, t.peer[q])
    requires Advertises(s.transit[t.peer[q]], name)
    ensures var after := Next(t, s, Read(q, n));
            || Advertises(after.transit[t.peer[q]], name)
            || RouteOver(t, q, name) in after.registry[t.home[q]]
  {
    hide Codec.Encode, Codec.Held, Codec.Settled, Codec.Parse, Codec.BadCut, Feed, Sendable, Arrivals, ForRegistry,
      Advertises;
    var c := t.peer[q];
    var items := s.transit[c];
    var r := Feed(t.codec, s.carry[q], s.wire[c][..n]);
    ItemsAreSendable(items);
    ReadTakesFrames(t.codec, s.carry[q], s.wire[c], FramesOf(Packets(items)), n);
    if r.Parsed? {
      var k := |r.frames|;
      assert items == items[..k] + items[k..];
      AdvertisesAppend(items[..k], items[k..], name);
      if Advertises(items[..k], name) {
        assert r.frames == FramesOf(Packets(items[..k]));
        TakenFrameAdvertises(items[..k], name);
        RegistryHasRoute(t, r.frames, q, name);
      }
    }
  }

  lemma TakenFrameAdvertises(items: seq<Item>, name: GDPName)
    requires Advertises(items, name)
    ensures FrameOf(ConstructAdvertisement(name, name)) in FramesOf(Packets(items))
  {
    var i :| 0 <= i < |Packets(items)| && Packets(items)[i] == ConstructAdvertisement(name, name);
    assert FramesOf(Packets(items))[i] == FrameOf(ConstructAdvertisement(name, name));
  }

  /** Neither the link nor the headers of connection c come to harm. */
  predicate Serves(move: Move, c: nat) {
    Spares(move, c) && move != Take(Refuse(c))
  }

  /** No move that spares the link loses the advertisement, but a refused header on this connection. */
  lemma {:induction false} MoveKeepsOnItsWay(t: Topology, s: State, move: Move, c: nat, name: GDPName)
    requires QueuesInv(t, s) && Possible(t, s, move) && t.IsConn(c) && InStep(t, s, c) && Serves(move, c)
    requires OnItsWay(t, s, c, name)
    ensures OnItsWay(t, After(t, s, move), c, name)
  {
    hide Forwardable, OwnEntry, InStep, CopyCount, Feed, Arrivals, ForRegistry, Codec.EncodeFrame, Advertises;
    var q := t.peer[c];
    var after := After(t, s, move);
    match move
    case Take(Route(r)) =>
      var item := s.ribQueue[r][0];
      AdvertisesAppend(s.out[c], Copies(Onward(t, item, c), CopyCount(s.log[r], item.packet, Link(c))), name);
    case Take(Flush(d, order)) =>
      AdvertisesAppend(s.out[c], AdvertItems(order), name);
    case Take(Write(d)) =>
      if d == c {
        var head, rest := [s.out[c][0]], s.out[c][1..];
        assert s.out[c] == head + rest;
        AdvertisesAppend(head, rest, name);
        AdvertisesAppend(s.transit[c], head, name);
      }
    case Take(Read(d, n)) =>
      if d == q && Advertises(s.transit[c], name) {
        ReadKeepsOnItsWay(t, s, q, n, name);
      }
    case Take(SendDirect(e, d, payload)) =>
      if d == c {
        var item := after.out[c][|s.out[c]|];
        assert after.out[c] == s.out[c] + [item];
        AdvertisesAppend(s.out[c], [item], name);
      }
    case _ =>
  }

  lemma {:induction false} MovesKeepOnItsWay(t: Topology, s: State, moves: seq<Move>, c: nat, name: GDPName)
    requires QueuesInv(t, s) && CanMove(t, s, moves) && t.IsConn(c) && InStep(t, s, c)
    requires forall move <- moves :: Serves(move, c)
    requires OnItsWay(t, s, c, name)
    ensures OnItsWay(t, AfterAll(t, s, moves), c, name)
    decreases |moves|
  {
    hide After, Possible, Forwardable, OwnEntry, InStep, OnItsWay, WrittenNow, HandedOnNow;
    if moves != [] {
      assert Serves(moves[0], c);
      MoveKeepsQueues(t, s, moves[0]);
      MoveIsFifo(t, s, moves[0], c);
      MoveKeepsOnItsWay(t, s, moves[0], c, name);
      MovesKeepOnItsWay(t, After(t, s, moves[0]), moves[1..], c, name);
    }
  }

  /** Connection c has nothing left to send, and its peer's router nothing left to register. */
  ghost predicate IsQuiet(t: Topology, s: State, c: nat)
    requires Fits(t, s) && t.IsConn(c)
  {
    s.out[c] == [] && s.transit[c] == [] && s.registry[t.Neighbour(c)] == []
  }

  /** The other end of connection c has a route for a name over this link, and packets for that name
      from any other source are sent along it. */
  ghost predicate HasRoute(t: Topology, s: State, c: nat, name: GDPName)
    requires Fits(t, s) && t.IsConn(c)
  {
    var q, log := t.peer[c], s.log[t.Neighbour(c)];
    && RouteOver(t, q, name) in log
    && forall p: GDPPacket | p.gdpname == name && p.source != t.threadName[q] :: CopyCount(log, p, Link(q)) > 0
  }

  lemma QuietMeansRouted(t: Topology, s: State, c: nat, name: GDPName)
    requires Fits(t, s) && t.IsConn(c) && OnItsWay(t, s, c, name) && IsQuiet(t, s, c)
    ensures HasRoute(t, s, c, name)
  {
    var q, log := t.peer[c], s.log[t.Neighbour(c)];
    forall p: GDPPacket | p.gdpname == name && p.source != t.threadName[q]
      ensures CopyCount(log, p, Link(q)) > 0
    {
      RouteIsUsed(log, RouteOver(t, q, name), p);
    }
  }

  lemma FlushStartsIt(t: Topology, s: State, c: nat, order: seq<GDPName>, name: GDPName)
    requires Fits(t, s) && Enabled(t, s, Flush(c, order)) && name in Names(s.log[t.home[c]])
    ensures OnItsWay(t, Next(t, s, Flush(c, order)), c, name)
  {
    var i :| 0 <= i < |order| && order[i] == name;
    assert Packets(s.out[c] + AdvertItems(order))[|s.out[c]| + i] == ConstructAdvertisement(name, name);
  }

  /** Route synchronisation, from every state at which the link carries what was written on it, and
      over every run that spares it and in which the connection refuses no header, whatever happens
      elsewhere: once the link is quiet, every name that was in the flusher's table at the flush has a
      route at the other end. */
  lemma {:induction false} FlushSynchronisesRoutes(t: Topology, s: State, c: nat, order: seq<GDPName>, moves: seq<Move>)
    requires QueuesInv(t, s) && CanMove(t, s, [Take(Flush(c, order))] + moves) && t.IsConn(c) && InStep(t, s, c)
    requires forall move <- moves :: Serves(move, c)
    ensures var end := AfterAll(t, s, [Take(Flush(c, order))] + moves);
            IsQuiet(t, end, c) ==> forall name <- Names(s.log[t.home[c]]) :: HasRoute(t, end, c, name)
  {
    hide Names, Forwardable, OwnEntry, InStep, HasRoute, OnItsWay, IsQuiet, WrittenNow, HandedOnNow;
    var all := [Take(Flush(c, order))] + moves;
    assert all[0] == Take(Flush(c, order)) && all[1..] == moves;
    var flushed, end := After(t, s, all[0]), AfterAll(t, s, all);
    if IsQuiet(t, end, c) {
      MoveKeepsQueues(t, s, all[0]);
      MoveIsFifo(t, s, all[0], c);
      forall name <- Names(s.log[t.home[c]]) ensures HasRoute(t, end, c, name) {
        FlushStartsIt(t, s, c, order, name);
        MovesKeepOnItsWay(t, flushed, moves, c, name);
        QuietMeansRouted(t, end, c, name);
      }
    }
  }

  // ---- A quiet state can always be reached ----

  predicate IsStep(move: Move) {
    move.Take? && !move.step.Refuse?
  }

  /** What is under way on a link has bytes on the wire. */
  lemma EmptyWireCarriesNothing(t: Topology, s: State, c: nat)
    requires Fits(t, s) && t.IsConn(c) && InStep(t, s, c) && !s.dead[t.peer[c]] && s.wire[c] == []
    ensures s.transit[c] == []
  {
    hide Codec.Parse, Codec.Held, Codec.Encode;
    var pending, held := FramesOf(Packets(s.transit[c])), t.codec.Held(s.carry[t.peer[c]]);
    t.codec.ParseFramesThen(pending, []);
    t.codec.ParseNothing();
    assert held + [] == held && t.codec.Encode(pending) + [] == t.codec.Encode(pending);
    assert pending + [] == pending;
  }

  /** A receiver that reads all there is does not panic, and empties the link. */
  lemma ReadAllEmptiesLink(t: Topology, s: State, c: nat)
    requires Fits(t, s) && t.IsConn(c) && t.IsConn(t.peer[c]) && InStep(t, s, c) && !s.dead[t.peer[c]]
    requires s.wire[c] != []
    ensures Enabled(t, s, Read(t.peer[c], |s.wire[c]|))
    ensures var after := Next(t, s, Read(t.peer[c], |s.wire[c]|));
            && !after.dead[t.peer[c]] && after.wire[c] == [] && after.transit[c] == [] && after.out == s.out
  {
    hide Codec.Parse, Codec.Held, Codec.Encode, Codec.Settled, Arrivals, ForRegistry, Sendable;
    var pending, wire := FramesOf(Packets(s.transit[c])), s.wire[c];
    t.codec.ParseFramesThen(pending, []);
    t.codec.ParseNothing();
    assert wire[..|wire|] == wire && t.codec.Encode(pending) + [] == t.codec.Encode(pending) && pending + [] == pending;
    assert t.peer[t.peer[c]] == c;
  }

  /** From every such state a quiet one can be reached, as long as the receiver has not panicked. */
  lemma {:induction false} QuietIsReachable(t: Topology, s: State, c: nat) returns (moves: seq<Move>)
    requires QueuesInv(t, s) && t.IsConn(c) && InStep(t, s, c) && !s.dead[t.peer[c]]
    ensures CanMove(t, s, moves) && (forall move <- moves :: IsStep(move)) && IsQuiet(t, AfterAll(t, s, moves), c)
    decreases |s.out[c]|, |s.wire[c]|, |s.registry[t.Neighbour(c)]|
  {
    hide Forwardable, OwnEntry, InStep, Feed, Arrivals, ForRegistry, Codec.EncodeFrame, WrittenNow, HandedOnNow;
    var q, r := t.peer[c], t.Neighbour(c);
    assert t.IsConn(q) && t.peer[q] == c;
    if s.out[c] == [] && s.wire[c] == [] && s.registry[r] == [] {
      EmptyWireCarriesNothing(t, s, c);
      moves := [];
    } else {
      var step := if s.out[c] != [] then Write(c) else if s.wire[c] != [] then Read(q, |s.wire[c]|) else Register(r);
      if s.wire[c] != [] {
        ReadAllEmptiesLink(t, s, c);
      }
      var next := After(t, s, Take(step));
      MoveKeepsQueues(t, s, Take(step));
      MoveIsFifo(t, s, Take(step), c);
      var rest := QuietIsReachable(t, next, c);
      moves := [Take(step)] + rest;
      assert moves[1..] == rest;
    }
  }

  /** So whatever has happened elsewhere, if this link has been spared and its receiver has not
      panicked, a flush can always go through: some run after it, of ordinary steps only, ends with a
      route at the other end for every name that was in the flusher's table. */
  lemma {:induction false} FlushCanGoThrough(t: Topology, before: seq<Move>, c: nat, order: seq<GDPName>)
    requires t.Valid() && CanMove(t, Init(t), before) && t.IsConn(c) && forall move <- before :: Spares(move, c)
    ensures var s := AfterAll(t, Init(t), before);
            Enabled(t, s, Flush(c, order)) && !s.dead[t.peer[c]] ==>
              exists moves :: FlushesWith(t, s, c, order, moves)
  {
    hide InStep, After, QueuesInv, IsQuiet;
    InitQueues(t);
    InitInStep(t, c);
    MovesKeepQueues(t, Init(t), before);
    MovesAreFifo(t, Init(t), before, c);
    var s := AfterAll(t, Init(t), before);
    if Enabled(t, s, Flush(c, order)) && !s.dead[t.peer[c]] {
      var flush := Take(Flush(c, order));
      MoveKeepsQueues(t, s, flush);
      MoveIsFifo(t, s, flush, c);
      FlushKeepsReceiver(t, s, c, order);
      var moves := QuietIsReachable(t, After(t, s, flush), c);
      assert ([flush] + moves)[1..] == moves;
      assert CanMove(t, s, [flush] + moves);
      FlushSynchronisesRoutes(t, s, c, order, moves);
      assert FlushesWith(t, s, c, order, moves);
    }
  }

  lemma FlushKeepsReceiver(t: Topology, s: State, c: nat, order: seq<GDPName>)
    requires Fits(t, s) && Enabled(t, s, Flush(c, order))
    ensures After(t, s, Take(Flush(c, order))).dead == s.dead
  {
  }

  ghost predicate FlushesWith(t: Topology, s: State, c: nat, order: seq<GDPName>, moves: seq<Move>)
    requires Fits(t, s) && t.IsConn(c)
  {
    var all := [Take(Flush(c, order))] + moves;
    && CanMove(t, s, all) && (forall move <- moves :: IsStep(move))
    && forall name <- Names(s.log[t.home[c]]) :: HasRoute(t, AfterAll(t, s, all), c, name)
  }
}
