/** Routers that are joined by byte streams, as a step system: every step of a run is one event of
    one task, in any order. The RIB, the connections and the endpoints do what the modules
    ConnectionRib, Reassembly, Pipeline and Ros say; the bytes between two routers are cut into
    reads at random. */
module Network {
  import opened Structs
  import opened Framing
  import opened Pipeline
  import opened Reassembly
  import opened ConnectionRib
  import opened Forest

  /** What does not change during a run. Connection c belongs to router home[c]; its stream ends at
      connection peer[c] of another router; packets that it receives get threadName[c] as their
      source. An endpoint is a local ROS publisher or subscriber. */
  datatype Topology = Topology(
    codec: Codec, routers: nat,
    home: seq<nat>, peer: seq<nat>, threadName: seq<GDPName>,
    endpointHome: seq<nat>, endpointName: seq<GDPName>, endpointTopic: seq<GDPName>)
  {
    ghost predicate Valid() {
      && codec.Lawful()
      && |home| == |peer| == |threadName|
      && |endpointHome| == |endpointName| == |endpointTopic|
      && (forall c | 0 <= c < |home| :: home[c] < routers && peer[c] < |peer| && peer[peer[c]] == c)
      && (forall e | 0 <= e < |endpointHome| :: endpointHome[e] < routers)
    }

    predicate IsConn(c: nat) {
      c < |home| && c < |peer| && peer[c] < |home|
    }

    function Neighbour(c: nat): nat
      requires IsConn(c)
    {
      home[peer[c]]
    }

    ghost predicate Linked(a: nat, b: nat) {
      exists c: nat :: IsConn(c) && home[c] == a && Neighbour(c) == b
    }

    /** At most one connection between any two routers. */
    ghost predicate OneConnectionPerLink() {
      forall c: nat, d: nat | IsConn(c) && IsConn(d) && home[c] == home[d] && Neighbour(c) == Neighbour(d) :: c == d
    }

    /** The trails that packets take: walks, and without parallel links never straight back. */
    ghost predicate IsTrail(w: seq<nat>) {
      && w != [] && (forall i | 0 <= i < |w| :: w[i] < routers)
      && IsWalk(Linked, w) && (OneConnectionPerLink() ==> NeverBack(w))
    }
  }

  /** A packet on its way, with the routers it has been at or is going to; `via` is the connection it
      came in on. Only the packet exists in the program. */
  datatype Item = Item(packet: GDPPacket, trail: seq<nat>, via: Option<nat>)

  function Packets(items: seq<Item>): seq<GDPPacket> {
    seq(|items|, i requires 0 <= i < |items| => items[i].packet)
  }

  datatype State = State(
    ribQueue: seq<seq<Item>>, registry: seq<seq<GDPChannel>>, log: seq<seq<GDPChannel>>, // per router
    out: seq<seq<Item>>, wire: seq<seq<byte>>, transit: seq<seq<Item>>,                  // per connection, sending
    carry: seq<Carry>, dead: seq<bool>,                                                  // per connection, receiving
    inbox: seq<seq<GDPPacket>>)                                                          // per endpoint

  datatype Step =
    | Route(r: nat)                             // the RIB takes a packet
    | Register(r: nat)                          // the RIB takes a registration
    | Flush(c: nat, order: seq<GDPName>)        // the RIB takes a flush request for connection c
    | Write(c: nat)                             // a connection writes the next queued packet
    | Refuse(c: nat)                            // its header is refused, and the packet is lost
    | Read(c: nat, n: nat)                      // a connection reads n bytes
    | AdvertiseSelf(c: nat)                     // a connection to a peer registers its own name
    | JoinEndpoint(e: nat)                      // an endpoint registers its topic
    | Send(e: nat, payload: Bytes)              // a subscriber sends to its RIB
    | SendDirect(e: nat, c: nat, payload: Bytes) // a subscriber sends on its own connection

  /** The queues have the shape of the topology. */
  ghost predicate Fits(t: Topology, s: State) {
    && t.Valid()
    && |s.ribQueue| == |s.registry| == |s.log| == t.routers
    && |s.out| == |s.wire| == |s.transit| == |s.carry| == |s.dead| == |t.home|
    && |s.inbox| == |t.endpointHome|
  }

  ghost predicate Enabled(t: Topology, s: State, step: Step)
    requires Fits(t, s)
  {
    match step
    case Route(r) => r < |s.ribQueue| && s.ribQueue[r] != []
    case Register(r) => r < |s.registry| && s.registry[r] != []
    case Flush(c, order) => t.IsConn(c) && IsOrderOf(order, Names(s.log[t.home[c]]))
    case Write(c) => t.IsConn(c) && s.out[c] != []
    case Refuse(c) => t.IsConn(c) && s.out[c] != []
    case Read(c, n) => t.IsConn(c) && !s.dead[c] && 0 < n <= |s.wire[t.peer[c]]|
    case AdvertiseSelf(c) => t.IsConn(c)
    case JoinEndpoint(e) => e < |t.endpointHome|
    case Send(e, _) => e < |t.endpointHome|
    case SendDirect(e, c, _) => e < |t.endpointHome| && t.IsConn(c) && t.home[c] == t.endpointHome[e]
  }

  function Copies(item: Item, n: nat): seq<Item> {
    seq(n, _ => item)
  }

  /** The items that decoded frames become; `sent` are the items they were written from. */
  function Arrivals(fs: seq<Frame>, sent: seq<Item>, t: Topology, c: nat): seq<Item>
    requires c < |t.threadName|
  {
    if fs == [] then []
    else
      var i := |fs| - 1;
      var trail := if i < |sent| then sent[i].trail else [];
      Arrivals(fs[..i], sent, t, c) +
      match Handle(fs[i], t.threadName[c], Link(c))
      case ToRib(p) => [Item(p, trail, Some(c))]
      case _ => []
  }

  function AdvertItems(order: seq<GDPName>): seq<Item> {
    seq(|order|, i requires 0 <= i < |order| => Item(ConstructAdvertisement(order[i], order[i]), [], None))
  }

  function Onward(t: Topology, item: Item, c: nat): Item
    requires t.IsConn(c)
  {
    Item(item.packet, item.trail + [t.Neighbour(c)], None)
  }

  /** What the connections' queues are after the RIB of router r has routed an item. */
  function Spread(t: Topology, s: State, r: nat, item: Item): seq<seq<Item>>
    requires r < |s.log| && |s.out| == |t.home| && forall c: nat | c < |s.out| :: t.IsConn(c)
  {
    seq(|s.out|, c requires 0 <= c < |s.out| =>
      s.out[c] + Copies(Onward(t, item, c), CopyCount(s.log[r], item.packet, Link(c))))
  }

  function SpreadLocally(s: State, r: nat, item: Item): seq<seq<GDPPacket>>
    requires r < |s.log|
  {
    seq(|s.inbox|, e requires 0 <= e < |s.inbox| =>
      s.inbox[e] + Repeat(item.packet, CopyCount(s.log[r], item.packet, Endpoint(e))))
  }

  ghost function Next(t: Topology, s: State, step: Step): (after: State)
    requires Fits(t, s) && Enabled(t, s, step)
    ensures Fits(t, after)
  {
    match step
    case Route(r) =>
      var item := s.ribQueue[r][0];
      s.(ribQueue := s.ribQueue[r := s.ribQueue[r][1..]],
         out := Spread(t, s, r, item), inbox := SpreadLocally(s, r, item))
    case Register(r) =>
      s.(registry := s.registry[r := s.registry[r][1..]], log := s.log[r := s.log[r] + [s.registry[r][0]]])
    case Flush(c, order) => s.(out := s.out[c := s.out[c] + AdvertItems(order)])
    case Write(c) =>
      var item := s.out[c][0];
      s.(out := s.out[c := s.out[c][1..]],
         wire := s.wire[c := s.wire[c] + t.codec.EncodeFrame(FrameOf(item.packet))],
         transit := s.transit[c := s.transit[c] + [item]])
    case Refuse(c) => s.(out := s.out[c := s.out[c][1..]])
    case Read(c, n) =>
      var p := t.peer[c];
      var rest := s.(wire := s.wire[p := s.wire[p][n..]]);
      (match Feed(t.codec, s.carry[c], s.wire[p][..n])
       case Panic => rest.(dead := s.dead[c := true])
       case Parsed(fs, carry) => Deliver(t, rest, c, fs, carry))
    case AdvertiseSelf(c) =>
      Enlist(s, t.home[c], GDPChannel(t.threadName[c], Link(c),
                                      ConstructAdvertisement(t.threadName[c], t.threadName[c])))
    case JoinEndpoint(e) =>
      Enlist(s, t.endpointHome[e], GDPChannel(t.endpointTopic[e], Endpoint(e),
                                              ConstructAdvertisement(t.endpointTopic[e], t.endpointName[e])))
    case Send(e, payload) =>
      var r := t.endpointHome[e];
      var item := Item(ConstructForward(t.endpointTopic[e], t.endpointName[e], payload), [r], None);
      s.(ribQueue := s.ribQueue[r := s.ribQueue[r] + [item]])
    case SendDirect(e, c, payload) =>
      var item := Item(ConstructForward(t.endpointTopic[e], t.endpointName[e], payload), [t.home[c]], None);
      s.(out := s.out[c := s.out[c] + [Onward(t, item, c)]])
  }

  function Enlist(s: State, r: nat, channel: GDPChannel): State
    requires r < |s.registry|
  {
    s.(registry := s.registry[r := s.registry[r] + [channel]])
  }

  /** Connection c hands on the frames of one read. */
  function Deliver(t: Topology, s: State, c: nat, fs: seq<Frame>, carry: Carry): State
    requires t.IsConn(c) && c < |s.carry| && t.peer[c] < |s.transit| && c < |t.threadName|
    requires t.home[c] < |s.ribQueue| && t.home[c] < |s.registry|
  {
    var r, p := t.home[c], t.peer[c];
    var k := if |fs| < |s.transit[p]| then |fs| else |s.transit[p]|;
    s.(ribQueue := s.ribQueue[r := s.ribQueue[r] + Arrivals(fs, s.transit[p], t, c)],
       registry := s.registry[r := s.registry[r] + ForRegistry(fs, t.threadName[c], Link(c))],
       carry := s.carry[c := carry],
       transit := s.transit[p := s.transit[p][k..]])
  }

  // ---- The invariant ----

  /** A packet in the queue of the RIB: to be forwarded, with a payload; and if it came in on a
      connection, named after that connection. */
  ghost predicate RibItem(t: Topology, r: nat, item: Item) {
    && item.packet.action == Forward && item.packet.payload.Some?
    && t.IsTrail(item.trail) && item.trail[|item.trail| - 1] == r
    && match item.via
       case None => |item.trail| == 1
       case Some(c) =>
         && t.IsConn(c) && c < |t.threadName| && t.home[c] == r && item.packet.source == t.threadName[c]
         && |item.trail| >= 2 && item.trail[|item.trail| - 2] == t.Neighbour(c)
  }

  /** A packet queued for connection c, or on its wire. */
  ghost predicate OutItem(t: Topology, c: nat, item: Item) {
    && Sendable(item.packet) && t.IsConn(c)
    && (item.packet.action == Forward ==>
          && t.IsTrail(item.trail) && |item.trail| >= 2
          && item.trail[|item.trail| - 2] == t.home[c] && item.trail[|item.trail| - 1] == t.Neighbour(c))
  }

  /** A connection's channel is filed by its own router, as advertised by its own thread name, which
      is what split horizon rests on; an endpoint's channel is filed by its own router, under its
      own topic only. */
  predicate OwnEntry(t: Topology, r: nat, entry: GDPChannel) {
    match entry.channel
    case Link(c) =>
      c < |t.home| && c < |t.threadName| && t.home[c] == r && entry.advertisement.source == t.threadName[c]
    case Endpoint(e) =>
      && e < |t.endpointHome| && e < |t.endpointTopic|
      && t.endpointHome[e] == r && entry.gdpname == t.endpointTopic[e]
  }

  /** The bytes that are held and the bytes on the wire are the packets on their way, and none of these
      is complete already. */
  ghost predicate StreamInStep(t: Topology, s: State, c: nat)
    requires Fits(t, s) && t.IsConn(c)
  {
    !s.dead[t.peer[c]] ==>
      && s.carry[t.peer[c]].Sane() && t.codec.Settled(s.carry[t.peer[c]])
      && t.codec.Held(s.carry[t.peer[c]]) + s.wire[c] == t.codec.Encode(FramesOf(Packets(s.transit[c])))
  }

  ghost predicate Inv(t: Topology, s: State) {
    && Fits(t, s)
    && (forall r, item | 0 <= r < t.routers && item in s.ribQueue[r] :: RibItem(t, r, item))
    && (forall r, e | 0 <= r < t.routers && e in s.registry[r] :: OwnEntry(t, r, e))
    && (forall r, e | 0 <= r < t.routers && e in s.log[r] :: OwnEntry(t, r, e))
    && (forall c, item | 0 <= c < |t.home| && item in s.out[c] :: OutItem(t, c, item))
    && (forall c, item | 0 <= c < |t.home| && item in s.transit[c] :: OutItem(t, c, item))
    && (forall c: nat | c < |t.home| :: t.IsConn(c) && StreamInStep(t, s, c))
    && (forall e, p | 0 <= e < |s.inbox| && p in s.inbox[e] :: p.action == Forward && p.payload.Some?)
  }

  ghost function Init(t: Topology): State {
    State(seq(t.routers, _ => []), seq(t.routers, _ => []), seq(t.routers, _ => []),
          seq(|t.home|, _ => []), seq(|t.home|, _ => []), seq(|t.home|, _ => []),
          seq(|t.home|, _ => Idle), seq(|t.home|, _ => false), seq(|t.endpointHome|, _ => []))
  }

  lemma InitInv(t: Topology)
    requires t.Valid()
    ensures Inv(t, Init(t))
  {
    hide Codec.Parse, Codec.Settled;
    t.codec.ParseNothing();
    var s := Init(t);
    forall c: nat | c < |t.home| ensures t.IsConn(c) && StreamInStep(t, s, c) {
      assert FramesOf(Packets(s.transit[c])) == [];
    }
  }
}
