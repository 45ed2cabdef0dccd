/** What holds at every state of every run. */
module NetworkRuns {
  import opened Structs
  import opened Framing
  import opened Pipeline
  import opened Reassembly
  import opened ConnectionRib
  import opened Forest
  import opened Ros
  import opened Network
  import opened NetworkInvariant

  ghost predicate CanRun(t: Topology, s: State, steps: seq<Step>)
    requires Fits(t, s)
    decreases |steps|
  {
    steps != [] ==> Enabled(t, s, steps[0]) && CanRun(t, Next(t, s, steps[0]), steps[1..])
  }

  ghost function StateAfter(t: Topology, s: State, steps: seq<Step>): (after: State)
    requires Fits(t, s) && CanRun(t, s, steps)
    ensures Fits(t, after)
    decreases |steps|
  {
    if steps == [] then s else StateAfter(t, Next(t, s, steps[0]), steps[1..])
  }

  lemma {:induction false} RunKeepsInv(t: Topology, s: State, steps: seq<Step>)
    requires Inv(t, s) && CanRun(t, s, steps)
    ensures Inv(t, StateAfter(t, s, steps))
    decreases |steps|
  {
    hide Next, Enabled, RibItem, OutItem, OwnEntry, StreamInStep;
    if steps != [] {
      StepKeepsInv(t, s, steps[0]);
      RunKeepsInv(t, Next(t, s, steps[0]), steps[1..]);
    }
  }

  ghost predicate Reachable(t: Topology, s: State) {
    t.Valid() && exists steps :: ReachedBy(t, s, steps)
  }

  ghost predicate ReachedBy(t: Topology, s: State, steps: seq<Step>)
    requires t.Valid()
  {
    CanRun(t, Init(t), steps) && s == StateAfter(t, Init(t), steps)
  }

  /** The start is reachable, and so is what any step leads to. */
  lemma ReachableGoesOn(t: Topology, s: State, step: Step)
    requires t.Valid()
    ensures Reachable(t, Init(t))
    ensures Reachable(t, s) && Fits(t, s) && Enabled(t, s, step) ==> Reachable(t, Next(t, s, step))
  {
    hide Next, Enabled, Init;
    assert ReachedBy(t, Init(t), []);
    if Reachable(t, s) && Fits(t, s) && Enabled(t, s, step) {
      var steps :| ReachedBy(t, s, steps);
      RunGoesOn(t, Init(t), steps, step);
      assert ReachedBy(t, Next(t, s, step), steps + [step]);
    }
  }

  lemma {:induction false} RunGoesOn(t: Topology, s: State, steps: seq<Step>, step: Step)
    requires Fits(t, s) && CanRun(t, s, steps) && Enabled(t, StateAfter(t, s, steps), step)
    ensures CanRun(t, s, steps + [step])
    ensures StateAfter(t, s, steps + [step]) == Next(t, StateAfter(t, s, steps), step)
    decreases |steps|
  {
    hide Next, Enabled, Fits;
    var all := steps + [step];
    if steps == [] {
      assert all[0] == step && all[1..] == [];
    } else {
      RunGoesOn(t, Next(t, s, steps[0]), steps[1..], step);
      assert all[0] == steps[0] && all[1..] == steps[1..] + [step];
    }
  }

  lemma ReachableInv(t: Topology, s: State)
    requires Reachable(t, s)
    ensures Inv(t, s)
  {
    hide Inv, Next, Enabled, Init;
    InitInv(t);
    var steps :| ReachedBy(t, s, steps);
    RunKeepsInv(t, Init(t), steps);
  }

  /** In every reachable state what is under way on a link is Forward packets with a payload and
      Advertise packets without one: never a Noop, and never a length that differs from the bytes
      that follow. */
  lemma LinksCarryOnlySendable(t: Topology, s: State)
    requires Reachable(t, s)
    ensures Fits(t, s)
    ensures forall c, item | 0 <= c < |t.home| && item in s.transit[c] ::
              && Sendable(item.packet) && item.packet.GetHeader().action != Noop
              && item.packet.GetHeader().length == |item.packet.payload.GetOr([])|
  {
    ReachableInv(t, s);
    forall c, item | 0 <= c < |t.home| && item in s.transit[c] ensures Sendable(item.packet) {
      assert OutItem(t, c, item);
    }
  }

  // ---- Loops ----

  /** No loops without a hop limit: in a forest of routers with one connection per link, however the
      tables come about and change, every packet to be forwarded has been at no router twice, and
      so at no more of them than there are. */
  lemma NoLoops(t: Topology, s: State, item: Item)
    requires Reachable(t, s) && IsForest(t.Linked) && t.OneConnectionPerLink()
    requires Fits(t, s) && item.packet.action == Forward
    requires (exists q <- s.ribQueue :: item in q) || (exists q <- s.out + s.transit :: item in q)
    ensures forall i, j | 0 <= i < j < |item.trail| :: item.trail[i] != item.trail[j]
    ensures 1 <= |item.trail| <= t.routers
  {
    ReachableInv(t, s);
    TrailIsSimple(t, s, item);
  }

  lemma TrailIsSimple(t: Topology, s: State, item: Item)
    requires Inv(t, s) && IsForest(t.Linked) && t.OneConnectionPerLink()
    requires item.packet.action == Forward
    requires (exists q <- s.ribQueue :: item in q) || (exists q <- s.out + s.transit :: item in q)
    ensures IsSimple(item.trail) && 1 <= |item.trail| <= t.routers
  {
    if q :| q in s.ribQueue && item in q {
      var r :| 0 <= r < |s.ribQueue| && s.ribQueue[r] == q;
      assert RibItem(t, r, item);
    } else {
      var q :| q in s.out + s.transit && item in q;
      if q in s.out {
        var c :| 0 <= c < |s.out| && s.out[c] == q;
        assert OutItem(t, c, item);
      } else {
        var c :| 0 <= c < |s.transit| && s.transit[c] == q;
        assert OutItem(t, c, item);
      }
    }
    WalkIsSimple(t.Linked, item.trail);
    SimpleIsShort(item.trail, t.routers);
  }

  // ---- Copies ----

  /** When the RIB takes a packet, every connection and every endpoint gets one copy of it for each
      registration that the packet is eligible for. */
  lemma RouteMakesCopies(t: Topology, s: State, r: nat, c: nat, e: nat)
    requires Fits(t, s) && Enabled(t, s, Route(r)) && c < |s.out| && e < |s.inbox|
    requires forall d: nat | d < |s.out| :: t.IsConn(d)
    ensures var packet := s.ribQueue[r][0].packet;
            var after := Next(t, s, Route(r));
            && Packets(after.out[c]) == Packets(s.out[c]) + Repeat(packet, |Eligible(s.log[r], packet, Link(c))|)
            && after.inbox[e] == s.inbox[e] + Repeat(packet, |Eligible(s.log[r], packet, Endpoint(e))|)
  {
    hide CopyCount, Eligible;
    var packet := s.ribQueue[r][0].packet;
    OneCopyPerEligibleEntry(s.log[r], packet, Link(c));
    OneCopyPerEligibleEntry(s.log[r], packet, Endpoint(e));
  }
}
