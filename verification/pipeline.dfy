/** Building packets from decoded frames and dispatching them to the RIB. */
module Pipeline {
  import opened Structs
  import opened Framing
  import opened Sequences

  function ConstructForward(destination: GDPName, source: GDPName, buffer: Bytes): GDPPacket {
    GDPPacket(Forward, destination, Some(buffer), source)
  }

  function ConstructAdvertisement(destination: GDPName, source: GDPName): GDPPacket {
    GDPPacket(Advertise, destination, None, source)
  }

  /** The one queue that `proc_gdp_packet` sends to, if any. */
  datatype Dispatch = ToRib(packet: GDPPacket) | ToRegistry(channel: GDPChannel) | Ignored

  function ProcGdpPacket(packet: GDPPacket, handle: Sender): Dispatch {
    match packet.action
    case Advertise => ToRegistry(GDPChannel(packet.gdpname, handle, packet))
    case Forward => ToRib(packet)
    case _ => Ignored
  }

  /** Packets are forwarded, advertisements are registered under their name with the whole packet, and
      nothing else has any effect. */
  lemma OnlyTwoActionsMatter(packet: GDPPacket, handle: Sender)
    ensures ProcGdpPacket(packet, handle).ToRib? <==> packet.action == Forward
    ensures ProcGdpPacket(packet, handle).ToRegistry? <==> packet.action == Advertise
    ensures packet.action == Forward ==> ProcGdpPacket(packet, handle) == ToRib(packet)
    ensures packet.action == Advertise ==>
              ProcGdpPacket(packet, handle) == ToRegistry(GDPChannel(packet.gdpname, handle, packet))
  {
  }

  /** What a connection makes of one decoded frame: the sender's name gives way to its own. */
  function Handle(f: Frame, threadName: GDPName, handle: Sender): Dispatch {
    match f.header.action
    case Forward => ProcGdpPacket(ConstructForward(f.header.destination, threadName, f.payload), handle)
    case Advertise => ProcGdpPacket(ConstructAdvertisement(f.header.destination, threadName), handle)
    case _ => Ignored
  }

  /** The packets for the RIB among some frames, in order. */
  function ForRib(fs: seq<Frame>, threadName: GDPName, handle: Sender): seq<GDPPacket> {
    if fs == [] then []
    else
      var rest := ForRib(fs[..|fs| - 1], threadName, handle);
      match Handle(fs[|fs| - 1], threadName, handle)
      case ToRib(packet) => rest + [packet]
      case _ => rest
  }

  /** The registrations among some frames, in order. */
  function ForRegistry(fs: seq<Frame>, threadName: GDPName, handle: Sender): seq<GDPChannel> {
    if fs == [] then []
    else
      var rest := ForRegistry(fs[..|fs| - 1], threadName, handle);
      match Handle(fs[|fs| - 1], threadName, handle)
      case ToRegistry(channel) => rest + [channel]
      case _ => rest
  }

  /** Said by positions: exactly the Forward frames bring packets, one each and in order, with their
      destination and payload and the connection's name as the source. */
  lemma {:induction false} ForRibByPosition(fs: seq<Frame>, name: GDPName, handle: Sender) returns (at: seq<nat>)
    ensures InOrder(at, |fs|) && forall i | 0 <= i < |fs| :: i in at <==> fs[i].header.action == Forward
    ensures |ForRib(fs, name, handle)| == |at|
    ensures forall k | 0 <= k < |at| ::
              ForRib(fs, name, handle)[k] ==
              GDPPacket(Forward, fs[at[k]].header.destination, Some(fs[at[k]].payload), name)
  {
    at := [];
    if fs != [] {
      var n := |fs| - 1;
      at := ForRibByPosition(fs[..n], name, handle);
      assert forall i | 0 <= i < n :: fs[..n][i] == fs[i];
      if fs[n].header.action == Forward {
        at := at + [n];
      }
    }
  }

  /** And exactly the Advertise frames bring registrations: of their destination, with the
      connection's queue and name. */
  lemma {:induction false} ForRegistryByPosition(fs: seq<Frame>, name: GDPName, handle: Sender) returns (at: seq<nat>)
    ensures InOrder(at, |fs|) && forall i | 0 <= i < |fs| :: i in at <==> fs[i].header.action == Advertise
    ensures |ForRegistry(fs, name, handle)| == |at|
    ensures forall k | 0 <= k < |at| ::
              var destination := fs[at[k]].header.destination;
              ForRegistry(fs, name, handle)[k] ==
              GDPChannel(destination, handle, GDPPacket(Advertise, destination, None, name))
  {
    at := [];
    if fs != [] {
      var n := |fs| - 1;
      at := ForRegistryByPosition(fs[..n], name, handle);
      assert forall i | 0 <= i < n :: fs[..n][i] == fs[i];
      if fs[n].header.action == Advertise {
        at := at + [n];
      }
    }
  }

  /** The loop over the frames of one read: what goes to the RIB, and what to its registry. */
  method HandOn(pairs: seq<Frame>, threadName: GDPName, handle: Sender)
    returns (toRib: seq<GDPPacket>, toRegistry: seq<GDPChannel>)
    ensures toRib == ForRib(pairs, threadName, handle)
    ensures toRegistry == ForRegistry(pairs, threadName, handle)
  {
    toRib, toRegistry := [], [];
    for i := 0 to |pairs|
      invariant toRib == ForRib(pairs[..i], threadName, handle)
      invariant toRegistry == ForRegistry(pairs[..i], threadName, handle)
    {
      assert pairs[..i + 1][..i] == pairs[..i];
      var header := pairs[i].header;
      if header.action == Forward {
        match ProcGdpPacket(ConstructForward(header.destination, threadName, pairs[i].payload), handle)
        case ToRib(packet) => toRib := toRib + [packet];
      } else if header.action == Advertise {
        match ProcGdpPacket(ConstructAdvertisement(header.destination, threadName), handle)
        case ToRegistry(channel) => toRegistry := toRegistry + [channel];
      }
    }
    assert pairs[..|pairs|] == pairs;
  }

  /** The frame that a connection writes for a queued packet. */
  function FrameOf(packet: GDPPacket): Frame {
    Pair(packet.GetHeader(), packet.payload.GetOr([]))
  }

  function FramesOf(packets: seq<GDPPacket>): seq<Frame> {
    seq(|packets|, i requires 0 <= i < |packets| => FrameOf(packets[i]))
  }

  /** The only packets that are ever queued for a connection. */
  predicate Sendable(p: GDPPacket) {
    (p.action == Forward && p.payload.Some?) || (p.action == Advertise && p.payload.None?)
  }

  /** The Forward packets among some packets, with a new source. */
  function RenamedForwards(packets: seq<GDPPacket>, name: GDPName): seq<GDPPacket> {
    if packets == [] then []
    else
      var p := packets[|packets| - 1];
      RenamedForwards(packets[..|packets| - 1], name) + if p.action == Forward then [p.(source := name)] else []
  }

  /** The registrations that the Advertise packets among some packets ask for: the advertised name,
      reached over `handle`. */
  function RenamedAdverts(packets: seq<GDPPacket>, name: GDPName, handle: Sender): seq<GDPChannel> {
    if packets == [] then []
    else
      var p := packets[|packets| - 1];
      RenamedAdverts(packets[..|packets| - 1], name, handle) +
      if p.action == Advertise then [GDPChannel(p.gdpname, handle, p.(source := name))] else []
  }

  /** The frames of sendable packets bring about these packets again, but for the source. */
  lemma {:induction false} FramesBringPackets(packets: seq<GDPPacket>, name: GDPName, handle: Sender)
    requires forall p <- packets :: Sendable(p)
    ensures ForRib(FramesOf(packets), name, handle) == RenamedForwards(packets, name)
    ensures ForRegistry(FramesOf(packets), name, handle) == RenamedAdverts(packets, name, handle)
  {
    if packets != [] {
      var n := |packets| - 1;
      assert FramesOf(packets)[..n] == FramesOf(packets[..n]);
      assert packets[n] in packets;
      FramesBringPackets(packets[..n], name, handle);
    }
  }
}
