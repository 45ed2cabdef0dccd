/** Local ROS endpoints, and why looking a name up serves them as well as flooding would. */
module Ros {
  import opened Structs
  import opened ConnectionRib
  import opened Sequences

  /** What a ROS publisher gets out of its inbox: the payloads of forwarded packets under its own
      topic. */
  function Delivered(topic: GDPName, inbox: seq<GDPPacket>): seq<Option<Bytes>> {
    if inbox == [] then []
    else
      var p := inbox[|inbox| - 1];
      Delivered(topic, inbox[..|inbox| - 1]) + if Concerns(topic, p) then [p.payload] else []
  }

  predicate Concerns(topic: GDPName, p: GDPPacket) {
    p.action == Forward && p.gdpname == topic
  }

  /** What `from_utf8`, `serde_json::from_str` and ROS make of a payload, if there is one. */
  function Message<M>(payload: Option<Bytes>, decode: Bytes -> Option<M>): Option<M> {
    var bytes :- payload;
    decode(bytes)
  }

  /** The loop of `ros_publisher`. It goes through its inbox up to the first forwarded packet for the
      topic whose payload is missing or does not decode, where it panics, or to the end. It publishes
      one message for each forwarded packet for the topic before that, in order, and no other. */
  method Publish<M>(topic: GDPName, inbox: seq<GDPPacket>, decode: Bytes -> Option<M>)
    returns (panicked: bool, published: seq<M>, stop: nat, ghost at: seq<nat>)
    ensures if panicked then stop < |inbox| else stop == |inbox|
    ensures panicked ==>
              && inbox[stop].action == Forward && inbox[stop].gdpname == topic
              && Message(inbox[stop].payload, decode) == None
    ensures InOrder(at, stop)
    ensures forall i | 0 <= i < stop :: i in at <==> inbox[i].action == Forward && inbox[i].gdpname == topic
    ensures |published| == |at|
    ensures forall k | 0 <= k < |at| :: Message(inbox[at[k]].payload, decode) == Some(published[k])
    ensures |Delivered(topic, inbox[..stop])| == |published|
    ensures forall k | 0 <= k < |published| ::
              Message(Delivered(topic, inbox[..stop])[k], decode) == Some(published[k])
  {
    hide Delivered, Message;
    panicked, published, stop, at := false, [], 0, [];
    NothingDelivered(topic, inbox[..0]);
    while stop < |inbox|
      invariant stop <= |inbox| && !panicked
      invariant InOrder(at, stop)
      invariant forall i | 0 <= i < stop :: i in at <==> inbox[i].action == Forward && inbox[i].gdpname == topic
      invariant |published| == |at|
      invariant forall k | 0 <= k < |at| :: Message(inbox[at[k]].payload, decode) == Some(published[k])
      invariant |Delivered(topic, inbox[..stop])| == |published|
      invariant forall k | 0 <= k < |published| ::
                  Message(Delivered(topic, inbox[..stop])[k], decode) == Some(published[k])
    {
      DeliveredStep(topic, inbox, stop);
      var p := inbox[stop];
      if p.action == Forward {
        if p.gdpname == topic {
          var message := Message(p.payload, decode);
          if message.None? {
            panicked := true;
            return;
          }
          published, at := published + [message.value], at + [stop];
        }
      }
      stop := stop + 1;
    }
  }

  lemma DeliveredStep(topic: GDPName, inbox: seq<GDPPacket>, i: nat)
    requires i < |inbox|
    ensures Delivered(topic, inbox[..i + 1]) ==
            Delivered(topic, inbox[..i]) + if Concerns(topic, inbox[i]) then [inbox[i].payload] else []
  {
    assert inbox[..i + 1][..i] == inbox[..i];
  }

  /** What is delivered, said by positions: the payload of each forwarded packet for the topic. */
  lemma {:induction false} DeliveredByPosition(topic: GDPName, inbox: seq<GDPPacket>) returns (at: seq<nat>)
    ensures InOrder(at, |inbox|)
    ensures forall i | 0 <= i < |inbox| :: i in at <==> inbox[i].action == Forward && inbox[i].gdpname == topic
    ensures |Delivered(topic, inbox)| == |at|
    ensures forall k | 0 <= k < |at| :: Delivered(topic, inbox)[k] == inbox[at[k]].payload
  {
    at := [];
    if inbox != [] {
      var n := |inbox| - 1;
      at := DeliveredByPosition(topic, inbox[..n]);
      assert forall i | 0 <= i < n :: inbox[..n][i] == inbox[i];
      if inbox[n].action == Forward && inbox[n].gdpname == topic {
        at := at + [n];
      }
    }
  }

  lemma {:induction false} DeliveredAppend(topic: GDPName, a: seq<GDPPacket>, b: seq<GDPPacket>)
    ensures Delivered(topic, a + b) == Delivered(topic, a) + Delivered(topic, b)
  {
    if b == [] {
      assert a + b == a;
    } else {
      assert (a + b)[..|a + b| - 1] == a + b[..|b| - 1];
      DeliveredAppend(topic, a, b[..|b| - 1]);
    }
  }

  lemma {:induction false} NothingDelivered(topic: GDPName, packets: seq<GDPPacket>)
    requires forall p <- packets :: !Concerns(topic, p)
    ensures Delivered(topic, packets) == []
  {
    if packets != [] {
      NothingDelivered(topic, packets[..|packets| - 1]);
    }
  }

  // ---- Lookup against flooding ----

  /** The form that is commented out in the source: every packet to every entry. */
  function FloodCount(log: seq<GDPChannel>, packet: GDPPacket, ch: Sender): nat {
    CopiesTo(Under(log, Names(log)), packet.source, ch)
  }

  /** Flooding makes one copy for each registration that was not advertised by the source. */
  lemma FloodReachesEveryEntry(log: seq<GDPChannel>, packet: GDPPacket, ch: Sender)
    ensures FloodCount(log, packet, ch) == |AllEligible(log, packet, ch)|
  {
    CountUnder(log, Names(log), packet.source, ch);
    assert forall i | 0 <= i < |log| :: log[i] in log;
    assert AllEligible(log, packet, ch) == Entries(log, Names(log), packet.source, ch);
  }

  function AllEligible(log: seq<GDPChannel>, packet: GDPPacket, ch: Sender): set<nat> {
    set i: nat | i < |log| && log[i].channel == ch && log[i].advertisement.source != packet.source
  }

  lemma {:induction false} SameCopies(
    log: seq<GDPChannel>, some: set<GDPName>, all: set<GDPName>, source: GDPName, ch: Sender)
    requires forall e <- log :: e.channel == ch ==> (e.gdpname in some <==> e.gdpname in all)
    ensures CopiesTo(Under(log, some), source, ch) == CopiesTo(Under(log, all), source, ch)
  {
    if log != [] {
      SameCopies(log[..|log| - 1], some, all, source, ch);
      CopiesUnder(log, some, source, ch);
      CopiesUnder(log, all, source, ch);
    }
  }

  predicate OnlyUnder(log: seq<GDPChannel>, ch: Sender, topic: GDPName) {
    forall e <- log :: e.channel == ch ==> e.gdpname == topic
  }

  /** A registration under another name gets packets of the topic by flooding only. */
  lemma ForeignEntryIsMissed(log: seq<GDPChannel>, e: GDPChannel, topic: GDPName) returns (p: GDPPacket)
    requires e in log && e.gdpname != topic && topic in Names(log)
    ensures Concerns(topic, p) && p.payload.Some?
    ensures CopyCount(log, p, e.channel) < FloodCount(log, p, e.channel)
  {
    hide CopiesTo, Under;
    var other := GDPName((e.advertisement.source.a + 1) % 256, 0, 0, 0);
    p := GDPPacket(Forward, topic, Some([]), other);
    var rest := Names(log) - {topic};
    CopiesAdd(log, rest, topic, other, e.channel);
    assert rest + {topic} == Names(log);
    UnderIsPart(log, rest);
    CopyForEntry(Under(log, rest), e, other);
  }

  /** At one table, exactly when the lookup serves a channel as flooding does, for every packet of a
      topic: unless the topic is known and the channel is also registered under another name. */
  lemma LookupServesAsFloodingIff(log: seq<GDPChannel>, ch: Sender, topic: GDPName)
    ensures (forall p: GDPPacket | p.gdpname == topic :: CopyCount(log, p, ch) == FloodCount(log, p, ch)) <==>
            (topic in Names(log) ==> OnlyUnder(log, ch, topic))
  {
    hide CopiesTo, Under;
    if topic in Names(log) {
      if OnlyUnder(log, ch, topic) {
        forall p: GDPPacket | p.gdpname == topic
          ensures CopyCount(log, p, ch) == FloodCount(log, p, ch)
        {
          SameCopies(log, {topic}, Names(log), p.source, ch);
        }
      } else {
        var e :| e in log && e.channel == ch && e.gdpname != topic;
        var p := ForeignEntryIsMissed(log, e, topic);
      }
    }
  }

  /** What the RIB is given, one event after the other; a flush goes through the names in some order. */
  datatype Event =
    | Packet(packet: GDPPacket)
    | Registration(channel: GDPChannel)
    | FlushTo(sink: Sender, order: seq<GDPName>)

  function LogOf(events: seq<Event>): seq<GDPChannel> {
    if events == [] then []
    else
      var last := events[|events| - 1];
      LogOf(events[..|events| - 1]) + if last.Registration? then [last.channel] else []
  }

  /** What one channel receives from the RIB because of one event. */
  function SentFor(log: seq<GDPChannel>, event: Event, ch: Sender, flood: bool): seq<GDPPacket> {
    match event
    case Packet(p) => Repeat(p, if flood then FloodCount(log, p, ch) else CopyCount(log, p, ch))
    case Registration(_) => []
    case FlushTo(sink, order) => if sink == ch then Advertisements(order) else []
  }

  /** All that one channel receives from the RIB. */
  function Inbox(events: seq<Event>, ch: Sender, flood: bool): seq<GDPPacket> {
    if events == [] then []
    else
      var before := events[..|events| - 1];
      Inbox(before, ch, flood) + SentFor(LogOf(before), events[|events| - 1], ch, flood)
  }

  /** A packet adds one copy for each registration so far that it is eligible for; under flooding, for
      each that was not advertised by its source. */
  lemma PacketReachesInbox(events: seq<Event>, p: GDPPacket, ch: Sender)
    ensures Inbox(events + [Packet(p)], ch, false) ==
            Inbox(events, ch, false) + Repeat(p, |Eligible(LogOf(events), p, ch)|)
    ensures Inbox(events + [Packet(p)], ch, true) ==
            Inbox(events, ch, true) + Repeat(p, |AllEligible(LogOf(events), p, ch)|)
  {
    hide Eligible, AllEligible, CopyCount, FloodCount;
    assert (events + [Packet(p)])[..|events|] == events;
    OneCopyPerEligibleEntry(LogOf(events), p, ch);
    FloodReachesEveryEntry(LogOf(events), p, ch);
  }

  /** The name index refines flooding: over any sequence of packets, registrations and flushes, a
      local publisher whose channel is registered under its topic only gets the same payloads in the
      same order under both. */
  lemma {:induction false} NameIndexRefinesFlooding(events: seq<Event>, ch: Sender, topic: GDPName)
    requires OnlyUnder(LogOf(events), ch, topic)
    ensures Delivered(topic, Inbox(events, ch, false)) == Delivered(topic, Inbox(events, ch, true))
  {
    hide Delivered, CopyCount, FloodCount;
    if events != [] {
      var before, last := events[..|events| - 1], events[|events| - 1];
      var log := LogOf(before);
      assert forall e <- log :: e in LogOf(events);
      NameIndexRefinesFlooding(before, ch, topic);
      var few, many := Inbox(before, ch, false), Inbox(before, ch, true);
      match last
      case Registration(_) =>
        assert Inbox(events, ch, false) == few && Inbox(events, ch, true) == many;
      case FlushTo(sink, order) =>
        var sent := if sink == ch then Advertisements(order) else [];
        DeliveredAppend(topic, few, sent);
        DeliveredAppend(topic, many, sent);
      case Packet(p) =>
        var m, n := CopyCount(log, p, ch), FloodCount(log, p, ch);
        DeliveredAppend(topic, few, Repeat(p, m));
        DeliveredAppend(topic, many, Repeat(p, n));
        if Concerns(topic, p) {
          LookupServesAsFloodingIff(log, ch, topic);
        } else {
          NothingDelivered(topic, Repeat(p, m));
          NothingDelivered(topic, Repeat(p, n));
        }
    }
  }
}
