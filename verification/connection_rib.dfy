/** The connection RIB: a table from names to registered channels, the forwarding of packets by
    name, and the flushing of the table to a peer. */
module ConnectionRib {
  import opened Structs
  import opened Pipeline

  // ---- What the table means: the log of registrations ----

  function Names(log: seq<GDPChannel>): set<GDPName> {
    set e | e in log :: e.gdpname
  }

  /** The registrations under some names, in arrival order. */
  function Under(log: seq<GDPChannel>, names: set<GDPName>): seq<GDPChannel> {
    if log == [] then []
    else
      var last := log[|log| - 1];
      Under(log[..|log| - 1], names) + if last.gdpname in names then [last] else []
  }

  /** How often a packet from `source` goes out on one channel, if it is sent to all these
      registrations but those that were advertised by `source` itself. */
  function CopiesTo(dsts: seq<GDPChannel>, source: GDPName, ch: Sender): nat {
    if dsts == [] then 0
    else
      var last := dsts[|dsts| - 1];
      CopiesTo(dsts[..|dsts| - 1], source, ch) +
      if last.channel == ch && last.advertisement.source != source then 1 else 0
  }

  /** A known name is routed to its own registrations, an unknown one to all. */
  function Targets(log: seq<GDPChannel>, name: GDPName): set<GDPName> {
    if name in Names(log) then {name} else Names(log)
  }

  function CopyCount(log: seq<GDPChannel>, packet: GDPPacket, ch: Sender): nat {
    CopiesTo(Under(log, Targets(log, packet.gdpname)), packet.source, ch)
  }

  function Repeat(packet: GDPPacket, n: nat): (copies: seq<GDPPacket>)
    ensures |copies| == n && forall i | 0 <= i < n :: copies[i] == packet
  {
    seq(n, _ => packet)
  }

  // ---- The owner of the table ----

  class Router {
    var table: map<GDPName, seq<GDPChannel>>
    var counter: nat
    /** Everything sent so far through each channel handle. */
    var queues: map<Sender, seq<GDPPacket>>
    ghost var log: seq<GDPChannel>

    /** The table is the log, grouped by name. */
    ghost predicate Valid()
      reads this
    {
      && table.Keys == Names(log)
      && forall name <- table :: table[name] == Under(log, {name})
    }

    function Queue(ch: Sender): seq<GDPPacket>
      reads this
    {
      if ch in queues then queues[ch] else []
    }

    constructor ()
      ensures Valid() && log == [] && counter == 0 && queues == map[]
    {
      table, counter, queues, log := map[], 0, map[], [];
    }

    method Send(ch: Sender, packet: GDPPacket)
      modifies this`queues
      ensures Queue(ch) == old(Queue(ch)) + [packet]
      ensures forall other | other != ch :: Queue(other) == old(Queue(other))
    {
      queues := queues[ch := Queue(ch) + [packet]];
    }

    method SendToDestination(destinations: seq<GDPChannel>, packet: GDPPacket)
      modifies this`queues
      ensures forall ch ::
                Queue(ch) == old(Queue(ch)) + Repeat(packet, CopiesTo(destinations, packet.source, ch))
    {
      hide CopiesTo, Repeat;
      NoCopiesYet(packet, packet.source);
      for i := 0 to |destinations|
        invariant forall ch ::
                    Queue(ch) == old(Queue(ch)) + Repeat(packet, CopiesTo(destinations[..i], packet.source, ch))
      {
        var dst := destinations[i];
        CopiesOfPrefix(destinations, i, packet);
        if dst.advertisement.source == packet.source {
          continue;
        }
        Send(dst.channel, packet);
      }
      assert destinations[..|destinations|] == destinations;
    }

    /** A packet arrives. Every channel gets one copy for each eligible registration, whatever the
        order in which the table is traversed, and nothing else changes. */
    method Forward(packet: GDPPacket)
      requires Valid()
      modifies this`counter, this`queues
      ensures Valid() && counter == old(counter) + 1
      ensures forall ch :: Queue(ch) == old(Queue(ch)) + Repeat(packet, CopyCount(log, packet, ch))
    {
      counter := counter + 1;
      if packet.gdpname in table {
        SendToDestination(table[packet.gdpname], packet);
      } else {
        Broadcast(packet);
      }
    }

    method Broadcast(packet: GDPPacket)
      requires Valid()
      modifies this`queues
      ensures forall ch ::
                Queue(ch) == old(Queue(ch)) + Repeat(packet, CopiesTo(Under(log, Names(log)), packet.source, ch))
    {
      hide Under, CopiesTo, Repeat;
      var rest := table.Keys;
      ghost var done: set<GDPName> := {};
      UnderNothing(log);
      while rest != {}
        invariant done + rest == table.Keys && done !! rest
        invariant forall ch ::
                    Queue(ch) == old(Queue(ch)) + Repeat(packet, CopiesTo(Under(log, done), packet.source, ch))
        decreases |rest|
      {
        var name :| name in rest;
        label before:
        assert table[name] == Under(log, {name});
        SendToDestination(table[name], packet);
        CopiesOfMore(log, done, name, packet);
        forall ch
          ensures Queue(ch) == old(Queue(ch)) + Repeat(packet, CopiesTo(Under(log, done + {name}), packet.source, ch))
        {
          assert Queue(ch) == old@before(Queue(ch)) + Repeat(packet, CopiesTo(Under(log, {name}), packet.source, ch));
        }
        rest, done := rest - {name}, done + {name};
      }
    }

    /** A registration arrives: it goes to the end of the list of its name. */
    method Register(channel: GDPChannel)
      requires Valid()
      modifies this`table, this`log
      ensures Valid() && log == old(log) + [channel]
    {
      log := log + [channel];
      assert log[..|log| - 1] == old(log);
      if channel.gdpname in table {
        table := table[channel.gdpname := table[channel.gdpname] + [channel]];
      } else {
        ListedIffRegistered(old(log), channel.gdpname);
        table := table[channel.gdpname := [channel]];
      }
    }

    /** A flush request: the sink gets one advertisement for each registered name, in some order. */
    method Flush(sink: Sender) returns (order: seq<GDPName>)
      requires Valid()
      modifies this`queues
      ensures Valid() && IsOrderOf(order, Names(log))
      ensures Queue(sink) == old(Queue(sink)) + Advertisements(order)
      ensures EachOnce(Queue(sink)[|old(Queue(sink))|..], Names(log))
      ensures forall ch | ch != sink :: Queue(ch) == old(Queue(ch))
    {
      var rest := table.Keys;
      order := [];
      while rest != {}
        invariant IsOrderOf(order, table.Keys - rest) && rest <= table.Keys
        invariant Queue(sink) == old(Queue(sink)) + Advertisements(order)
        invariant forall ch | ch != sink :: Queue(ch) == old(Queue(ch))
        decreases |rest|
      {
        var name :| name in rest;
        Send(sink, ConstructAdvertisement(name, name));
        order, rest := order + [name], rest - {name};
      }
      assert Queue(sink)[|old(Queue(sink))|..] == Advertisements(order);
      OneAdvertisementEach(order, Names(log));
    }
  }

  /** Each name of the set once. */
  ghost predicate IsOrderOf(order: seq<GDPName>, names: set<GDPName>) {
    && (forall i, j | 0 <= i < j < |order| :: order[i] != order[j])
    && (forall name :: name in order <==> name in names)
  }

  /** Each name is advertised under itself, as its own source. */
  function Advertisements(order: seq<GDPName>): (packets: seq<GDPPacket>)
    ensures |packets| == |order|
    ensures forall i | 0 <= i < |order| :: packets[i] == GDPPacket(Advertise, order[i], None, order[i])
  {
    seq(|order|, i requires 0 <= i < |order| => ConstructAdvertisement(order[i], order[i]))
  }

  /** The packets are one advertisement for each of the names, and nothing else. */
  ghost predicate EachOnce(packets: seq<GDPPacket>, names: set<GDPName>) {
    && |packets| == |names|
    && (forall p <- packets :: p.gdpname in names && p == GDPPacket(Advertise, p.gdpname, None, p.gdpname))
    && (forall name <- names :: GDPPacket(Advertise, name, None, name) in packets)
  }

  lemma {:induction false} OneAdvertisementEach(order: seq<GDPName>, names: set<GDPName>)
    requires IsOrderOf(order, names)
    ensures EachOnce(Advertisements(order), names)
  {
    OrderIsAsLong(order, names);
    forall name <- names ensures GDPPacket(Advertise, name, None, name) in Advertisements(order) {
      var i :| 0 <= i < |order| && order[i] == name;
      assert Advertisements(order)[i] == GDPPacket(Advertise, name, None, name);
    }
  }

  lemma {:induction false} OrderIsAsLong(order: seq<GDPName>, names: set<GDPName>)
    requires IsOrderOf(order, names)
    ensures |order| == |names|
  {
    if order == [] {
      assert names == {};
    } else {
      var n := |order| - 1;
      assert order == order[..n] + [order[n]];
      assert forall name :: name in order[..n] <==> name in names - {order[n]};
      OrderIsAsLong(order[..n], names - {order[n]});
    }
  }

  lemma NoCopiesYet(packet: GDPPacket, source: GDPName)
    ensures forall ch :: Repeat(packet, CopiesTo([], source, ch)) == []
  {
  }

  lemma CopiesOfPrefix(dsts: seq<GDPChannel>, i: nat, packet: GDPPacket)
    requires i < |dsts|
    ensures forall ch ::
              Repeat(packet, CopiesTo(dsts[..i + 1], packet.source, ch)) ==
              Repeat(packet, CopiesTo(dsts[..i], packet.source, ch)) +
              if dsts[i].channel == ch && dsts[i].advertisement.source != packet.source then [packet] else []
  {
    assert dsts[..i + 1][..i] == dsts[..i];
  }

  /** One more registration adds at most one copy. */
  lemma CopiesUnder(log: seq<GDPChannel>, names: set<GDPName>, source: GDPName, ch: Sender)
    requires log != []
    ensures var last := log[|log| - 1];
            CopiesTo(Under(log, names), source, ch) ==
            CopiesTo(Under(log[..|log| - 1], names), source, ch) +
            if last.gdpname in names && last.channel == ch && last.advertisement.source != source then 1 else 0
  {
    var before := Under(log[..|log| - 1], names);
    assert (before + [log[|log| - 1]])[..|before|] == before;
    assert before + [] == before;
  }

  lemma {:induction false} CopiesAdd(
    log: seq<GDPChannel>, names: set<GDPName>, name: GDPName, source: GDPName, ch: Sender)
    requires name !in names
    ensures CopiesTo(Under(log, names + {name}), source, ch) ==
            CopiesTo(Under(log, names), source, ch) + CopiesTo(Under(log, {name}), source, ch)
  {
    if log != [] {
      CopiesUnder(log, names, source, ch);
      CopiesUnder(log, {name}, source, ch);
      CopiesUnder(log, names + {name}, source, ch);
      CopiesAdd(log[..|log| - 1], names, name, source, ch);
    }
  }

  lemma RepeatAdd(packet: GDPPacket, m: nat, n: nat)
    ensures Repeat(packet, m + n) == Repeat(packet, m) + Repeat(packet, n)
  {
  }

  lemma {:induction false} CopiesOfMore(log: seq<GDPChannel>, names: set<GDPName>, name: GDPName, packet: GDPPacket)
    requires name !in names
    ensures forall ch ::
              Repeat(packet, CopiesTo(Under(log, names + {name}), packet.source, ch)) ==
              Repeat(packet, CopiesTo(Under(log, names), packet.source, ch)) +
              Repeat(packet, CopiesTo(Under(log, {name}), packet.source, ch))
  {
    hide Under, CopiesTo, Repeat;
    forall ch
      ensures Repeat(packet, CopiesTo(Under(log, names + {name}), packet.source, ch)) ==
              Repeat(packet, CopiesTo(Under(log, names), packet.source, ch)) +
              Repeat(packet, CopiesTo(Under(log, {name}), packet.source, ch))
    {
      CopiesAdd(log, names, name, packet.source, ch);
      var m, n := CopiesTo(Under(log, names), packet.source, ch), CopiesTo(Under(log, {name}), packet.source, ch);
      RepeatAdd(packet, m, n);
    }
  }

  lemma {:induction false} UnderNothing(log: seq<GDPChannel>)
    ensures Under(log, {}) == []
    ensures forall packet, source, ch :: Repeat(packet, CopiesTo(Under(log, {}), source, ch)) == []
  {
    if log != [] {
      UnderNothing(log[..|log| - 1]);
    }
  }

  lemma {:induction false} ListedIffRegistered(log: seq<GDPChannel>, name: GDPName)
    ensures name in Names(log) <==> Under(log, {name}) != []
  {
    if log != [] {
      ListedIffRegistered(log[..|log| - 1], name);
      assert log == log[..|log| - 1] + [log[|log| - 1]];
    }
  }

  /** However the log goes on, the list of a name only grows at its end. */
  lemma {:induction false} ListsOnlyGrow(log: seq<GDPChannel>, more: seq<GDPChannel>, names: set<GDPName>)
    ensures Under(log + more, names) == Under(log, names) + Under(more, names)
  {
    if more == [] {
      assert log + more == log;
    } else {
      assert (log + more)[..|log + more| - 1] == log + more[..|more| - 1];
      ListsOnlyGrow(log, more[..|more| - 1], names);
    }
  }

  // ---- What forwarding promises ----

  function Eligible(log: seq<GDPChannel>, packet: GDPPacket, ch: Sender): set<nat> {
    set i: nat | i < |log| && log[i].channel == ch && log[i].advertisement.source != packet.source
                 && (packet.gdpname in Names(log) ==> log[i].gdpname == packet.gdpname)
  }

  /** Copy conservation: a channel gets exactly one copy for each registration in the log that has
      it as its channel, was not advertised by the packet's source, and is filed under the packet's
      name if that name is known. */
  lemma OneCopyPerEligibleEntry(log: seq<GDPChannel>, packet: GDPPacket, ch: Sender)
    ensures CopyCount(log, packet, ch) == |Eligible(log, packet, ch)|
  {
    var names := Targets(log, packet.gdpname);
    CountUnder(log, names, packet.source, ch);
    assert forall i | 0 <= i < |log| :: log[i] in log;
    assert Eligible(log, packet, ch) == Entries(log, names, packet.source, ch);
  }

  predicate Counts(e: GDPChannel, names: set<GDPName>, source: GDPName, ch: Sender) {
    e.gdpname in names && e.channel == ch && e.advertisement.source != source
  }

  function Entries(log: seq<GDPChannel>, names: set<GDPName>, source: GDPName, ch: Sender): set<nat> {
    set i: nat | i < |log| && Counts(log[i], names, source, ch)
  }

  lemma EntriesOfFront(log: seq<GDPChannel>, names: set<GDPName>, source: GDPName, ch: Sender)
    requires log != []
    ensures |Entries(log, names, source, ch)| == |Entries(log[..|log| - 1], names, source, ch)| +
                                                 if Counts(log[|log| - 1], names, source, ch) then 1 else 0
  {
    hide Counts;
    var n := |log| - 1;
    var all, before := Entries(log, names, source, ch), Entries(log[..n], names, source, ch);
    if Counts(log[n], names, source, ch) {
      assert all == before + {n};
    } else {
      assert all == before;
    }
  }

  lemma {:induction false} CountUnder(log: seq<GDPChannel>, names: set<GDPName>, source: GDPName, ch: Sender)
    ensures CopiesTo(Under(log, names), source, ch) == |Entries(log, names, source, ch)|
  {
    hide Under, CopiesTo;
    if log != [] {
      CountUnder(log[..|log| - 1], names, source, ch);
      CopiesUnder(log, names, source, ch);
      EntriesOfFront(log, names, source, ch);
    } else {
      NothingUnder(names, source, ch);
    }
  }

  lemma NothingUnder(names: set<GDPName>, source: GDPName, ch: Sender)
    ensures CopiesTo(Under([], names), source, ch) == 0
  {
  }

  /** Split horizon at one table: if every registration of a channel was advertised under `source`,
      no packet from `source` goes out on it. */
  lemma {:induction false} NothingBackToSource(dsts: seq<GDPChannel>, source: GDPName, ch: Sender)
    requires forall e <- dsts :: e.channel == ch ==> e.advertisement.source == source
    ensures CopiesTo(dsts, source, ch) == 0
  {
    if dsts != [] {
      NothingBackToSource(dsts[..|dsts| - 1], source, ch);
    }
  }

  lemma {:induction false} UnderIsPart(log: seq<GDPChannel>, names: set<GDPName>)
    ensures forall e :: e in Under(log, names) <==> e in log && e.gdpname in names
  {
    if log != [] {
      UnderIsPart(log[..|log| - 1], names);
      assert log == log[..|log| - 1] + [log[|log| - 1]];
    }
  }

  lemma SplitHorizon(log: seq<GDPChannel>, packet: GDPPacket, ch: Sender)
    requires forall e <- log :: e.channel == ch ==> e.advertisement.source == packet.source
    ensures CopyCount(log, packet, ch) == 0
  {
    UnderIsPart(log, Targets(log, packet.gdpname));
    NothingBackToSource(Under(log, Targets(log, packet.gdpname)), packet.source, ch);
  }

  lemma {:induction false} CopyForEntry(dsts: seq<GDPChannel>, e: GDPChannel, source: GDPName)
    requires e in dsts && e.advertisement.source != source
    ensures CopiesTo(dsts, source, e.channel) > 0
  {
    var last := dsts[|dsts| - 1];
    if last != e {
      CopyForEntry(dsts[..|dsts| - 1], e, source);
    }
  }

  lemma {:induction false} CopyNeedsEntry(dsts: seq<GDPChannel>, source: GDPName, ch: Sender)
    requires CopiesTo(dsts, source, ch) > 0
    ensures exists e <- dsts :: e.channel == ch && e.advertisement.source != source
  {
    var last := dsts[|dsts| - 1];
    if !(last.channel == ch && last.advertisement.source != source) {
      CopyNeedsEntry(dsts[..|dsts| - 1], source, ch);
    }
  }

  lemma RouteNeedsEntry(log: seq<GDPChannel>, packet: GDPPacket, ch: Sender)
    requires CopyCount(log, packet, ch) > 0
    ensures exists e <- log :: e.channel == ch && e.advertisement.source != packet.source
  {
    var names := Targets(log, packet.gdpname);
    UnderIsPart(log, names);
    CopyNeedsEntry(Under(log, names), packet.source, ch);
  }

  /** A registered route is used: a packet for its name from any other source goes out on it. */
  lemma RouteIsUsed(log: seq<GDPChannel>, e: GDPChannel, packet: GDPPacket)
    requires e in log && packet.gdpname == e.gdpname && packet.source != e.advertisement.source
    ensures CopyCount(log, packet, e.channel) > 0
  {
    UnderIsPart(log, {e.gdpname});
    CopyForEntry(Under(log, {e.gdpname}), e, packet.source);
  }
}
