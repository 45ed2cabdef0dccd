/** What every step of every run keeps. */
module NetworkInvariant {
  import opened Structs
  import opened Framing
  import opened Pipeline
  import opened Reassembly
  import opened ConnectionRib
  import opened Network

  lemma PacketsAppend(a: seq<Item>, b: seq<Item>)
    ensures FramesOf(Packets(a + b)) == FramesOf(Packets(a)) + FramesOf(Packets(b))
  {
  }

  // ---- Routing ----

  lemma TrailGoesOn(t: Topology, w: seq<nat>, c: nat)
    requires t.Valid() && t.IsTrail(w) && t.IsConn(c) && w[|w| - 1] == t.home[c]
    requires |w| >= 2 ==> w[|w| - 2] != t.Neighbour(c) || !t.OneConnectionPerLink()
    ensures t.IsTrail(w + [t.Neighbour(c)])
  {
    assert t.Linked(t.home[c], t.Neighbour(c));
  }

  /** A packet goes on over a connection only if that is not the one it came in on; so its trail
      does not turn straight back. */
  lemma {:induction false} OnwardIsOutItem(t: Topology, s: State, r: nat, item: Item, c: nat)
    requires Inv(t, s) && r < t.routers && RibItem(t, r, item) && t.IsConn(c)
    requires CopyCount(s.log[r], item.packet, Link(c)) > 0
    ensures OutItem(t, c, Onward(t, item, c))
  {
    hide CopyCount, Topology.IsTrail;
    RouteNeedsEntry(s.log[r], item.packet, Link(c));
    var e :| e in s.log[r] && e.channel == Link(c) && e.advertisement.source != item.packet.source;
    assert OwnEntry(t, r, e);
    assert item.via.Some? ==> item.via.value != c;
    TrailGoesOn(t, item.trail, c);
  }

  lemma RouteKeepsInv(t: Topology, s: State, r: nat)
    requires Inv(t, s) && Enabled(t, s, Route(r))
    ensures Inv(t, Next(t, s, Route(r)))
  {
    hide CopyCount, OutItem, RibItem, OwnEntry, Codec.Encode, Codec.Held;
    var item := s.ribQueue[r][0];
    var s' := Next(t, s, Route(r));
    assert RibItem(t, r, item);
    forall c, i | 0 <= c < |t.home| && i in s'.out[c] ensures OutItem(t, c, i) {
      if i !in s.out[c] {
        OnwardIsOutItem(t, s, r, item, c);
      }
    }
    assert forall c: nat | c < |t.home| :: StreamInStep(t, s, c) ==> StreamInStep(t, s', c);
    assert item.packet.action == Forward && item.packet.payload.Some? by { RibItemIsForward(t, r, item); }
  }

  lemma RibItemIsForward(t: Topology, r: nat, item: Item)
    requires RibItem(t, r, item)
    ensures item.packet.action == Forward && item.packet.payload.Some?
  {
  }

  // ---- Reading ----

  lemma {:induction false} RegistryEntriesAreOwn(t: Topology, fs: seq<Frame>, c: nat)
    requires c < |t.home| && c < |t.threadName|
    ensures forall e <- ForRegistry(fs, t.threadName[c], Link(c)) :: OwnEntry(t, t.home[c], e)
  {
    if fs != [] {
      RegistryEntriesAreOwn(t, fs[..|fs| - 1], c);
    }
  }

  lemma {:induction false} ArrivalsAreRibItems(t: Topology, fs: seq<Frame>, sent: seq<Item>, c: nat)
    requires t.Valid() && t.IsConn(c) && |fs| <= |sent|
    requires fs == FramesOf(Packets(sent[..|fs|]))
    requires forall item <- sent :: OutItem(t, t.peer[c], item)
    ensures forall item <- Arrivals(fs, sent, t, c) :: RibItem(t, t.home[c], item)
  {
    if fs != [] {
      var i := |fs| - 1;
      assert fs[..i] == FramesOf(Packets(sent[..i]));
      ArrivalsAreRibItems(t, fs[..i], sent, c);
      assert OutItem(t, t.peer[c], sent[i]);
    }
  }

  lemma ReadKeepsInv(t: Topology, s: State, c: nat, n: nat)
    requires Inv(t, s) && Enabled(t, s, Read(c, n))
    ensures Inv(t, Next(t, s, Read(c, n)))
  {
    hide Codec.Encode, Codec.Held, Codec.Settled, Codec.Parse, Codec.BadCut, Feed, OutItem, RibItem, OwnEntry,
      Arrivals, ForRegistry;
    var p := t.peer[c];
    var s' := Next(t, s, Read(c, n));
    var pending := FramesOf(Packets(s.transit[p]));
    var r := Feed(t.codec, s.carry[c], s.wire[p][..n]);
    assert t.IsConn(p) && StreamInStep(t, s, p);
    PendingIsNeverNoop(t, p, s.transit[p]);
    ReadTakesFrames(t.codec, s.carry[c], s.wire[p], pending, n);
    if r.Parsed? {
      var k := |r.frames|;
      RegistryEntriesAreOwn(t, r.frames, c);
      assert r.frames == FramesOf(Packets(s.transit[p][..k]));
      ArrivalsAreRibItems(t, r.frames, s.transit[p], c);
      assert pending[k..] == FramesOf(Packets(s.transit[p][k..]));
    }
    forall d: nat | d < |t.home| ensures t.IsConn(d) && StreamInStep(t, s', d) {
      assert StreamInStep(t, s, d);
      assert d != p ==> t.peer[d] != c;
    }
  }

  lemma PendingIsNeverNoop(t: Topology, c: nat, items: seq<Item>)
    requires forall item <- items :: OutItem(t, c, item)
    ensures forall i | 0 <= i < |items| :: FramesOf(Packets(items))[i].header.action != Noop
  {
    assert forall i | 0 <= i < |items| :: items[i] in items;
  }

  // ---- The other steps ----

  lemma WriteKeepsInv(t: Topology, s: State, c: nat)
    requires Inv(t, s) && Enabled(t, s, Write(c))
    ensures Inv(t, Next(t, s, Write(c)))
  {
    hide Codec.EncodeFrame, Codec.Held, Codec.Settled, OutItem, RibItem, OwnEntry;
    var item := s.out[c][0];
    var s' := Next(t, s, Write(c));
    var before := FramesOf(Packets(s.transit[c]));
    var f := FrameOf(item.packet);
    assert OutItem(t, c, item);
    PacketsAppend(s.transit[c], [item]);
    assert FramesOf(Packets([item])) == [f];
    t.codec.EncodeAppend(before, [f]);
    t.codec.EncodeCons(f, []);
    assert [f] + [] == [f];
    forall d: nat | d < |t.home| ensures t.IsConn(d) && StreamInStep(t, s', d) {
      assert StreamInStep(t, s, d);
    }
  }

  lemma FlushKeepsInv(t: Topology, s: State, c: nat, order: seq<GDPName>)
    requires Inv(t, s) && Enabled(t, s, Flush(c, order))
    ensures Inv(t, Next(t, s, Flush(c, order)))
  {
    hide Codec.Encode, Codec.Held, Codec.Settled, RibItem, OwnEntry;
    var s' := Next(t, s, Flush(c, order));
    assert forall item <- AdvertItems(order) :: OutItem(t, c, item);
    assert forall d: nat | d < |t.home| :: StreamInStep(t, s, d) ==> StreamInStep(t, s', d);
  }

  lemma SmallStepKeepsInv(t: Topology, s: State, step: Step)
    requires Inv(t, s) && Enabled(t, s, step)
    requires step.Register? || step.Refuse? || step.AdvertiseSelf? || step.JoinEndpoint?
    ensures Inv(t, Next(t, s, step))
  {
    hide Codec.Encode, Codec.Held, Codec.Settled, RibItem, OutItem;
    var s' := Next(t, s, step);
    assert forall d: nat | d < |t.home| :: StreamInStep(t, s, d) ==> StreamInStep(t, s', d);
  }

  lemma SendKeepsInv(t: Topology, s: State, step: Step)
    requires Inv(t, s) && Enabled(t, s, step)
    requires step.Send? || step.SendDirect?
    ensures Inv(t, Next(t, s, step))
  {
    hide Codec.Encode, Codec.Held, Codec.Settled, OwnEntry;
    var s' := Next(t, s, step);
    match step {
      case SendDirect(_, c, _) => assert t.Linked(t.home[c], t.Neighbour(c));
      case _ =>
    }
    assert forall d: nat | d < |t.home| :: StreamInStep(t, s, d) ==> StreamInStep(t, s', d);
  }

  lemma StepKeepsInv(t: Topology, s: State, step: Step)
    requires Inv(t, s) && Enabled(t, s, step)
    ensures Inv(t, Next(t, s, step))
  {
    hide Inv, Next, Enabled;
    match step
    case Route(r) => RouteKeepsInv(t, s, r);
    case Flush(c, order) => FlushKeepsInv(t, s, c, order);
    case Write(c) => WriteKeepsInv(t, s, c);
    case Read(c, n) => ReadKeepsInv(t, s, c, n);
    case Send(_, _) => SendKeepsInv(t, s, step);
    case SendDirect(_, _, _) => SendKeepsInv(t, s, step);
    case _ => SmallStepKeepsInv(t, s, step);
  }
}
