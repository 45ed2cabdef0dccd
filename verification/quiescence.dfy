/** With fixed tables, forwarding in a forest comes to an end. */
module Quiescence {
  import opened Structs
  import opened Framing
  import opened Pipeline
  import opened Reassembly
  import opened ConnectionRib
  import opened Forest
  import opened Network
  import opened NetworkInvariant
  import opened NetworkRuns

  // ---- Sums ----

  function Total(q: seq<nat>): nat {
    if q == [] then 0 else Total(q[..|q| - 1]) + q[|q| - 1]
  }

  lemma {:induction false} TotalUpdate(q: seq<nat>, i: nat, n: nat)
    requires i < |q|
    ensures Total(q[i := n]) + q[i] == Total(q) + n
  {
    var front, last := q[..|q| - 1], |q| - 1;
    if i < last {
      TotalUpdate(front, i, n);
      assert q[i := n][..last] == front[i := n];
    } else {
      assert q[i := n][..last] == front;
    }
  }

  lemma {:induction false} TotalGrowth(q: seq<nat>, q': seq<nat>, more: nat)
    requires |q| == |q'| && forall i | 0 <= i < |q| :: q'[i] <= q[i] + more
    ensures Total(q') <= Total(q) + |q| * more
  {
    if q != [] {
      var last := |q| - 1;
      TotalGrowth(q[..last], q'[..last], more);
      assert |q| * more == last * more + more;
    }
  }

  function Pow(base: nat, exponent: nat): nat {
    if exponent == 0 then 1 else base * Pow(base, exponent - 1)
  }

  // ---- The measure ----

  /** How much forwarding a packet can still cause, if each router makes fewer than `fan` copies. */
  function ItemWeight(t: Topology, fan: nat, item: Item): nat {
    if item.packet.action == Forward && |item.trail| <= t.routers then Pow(fan, t.routers - |item.trail|) else 0
  }

  function QueueWeight(t: Topology, fan: nat, items: seq<Item>): nat {
    if items == [] then 0
    else QueueWeight(t, fan, items[..|items| - 1]) + ItemWeight(t, fan, items[|items| - 1])
  }

  lemma {:induction false} QueueWeightAppend(t: Topology, fan: nat, a: seq<Item>, b: seq<Item>)
    ensures QueueWeight(t, fan, a + b) == QueueWeight(t, fan, a) + QueueWeight(t, fan, b)
  {
    if b == [] {
      assert a + b == a;
    } else {
      assert (a + b)[..|a + b| - 1] == a + b[..|b| - 1];
      QueueWeightAppend(t, fan, a, b[..|b| - 1]);
    }
  }

  function Weights(t: Topology, fan: nat, queues: seq<seq<Item>>): seq<nat> {
    seq(|queues|, i requires 0 <= i < |queues| => QueueWeight(t, fan, queues[i]))
  }

  function Lengths<T>(queues: seq<seq<T>>): seq<nat> {
    seq(|queues|, i requires 0 <= i < |queues| => |queues[i]|)
  }

  function Work(t: Topology, fan: nat, s: State): nat {
    Total(Weights(t, fan, s.ribQueue)) + Total(Weights(t, fan, s.out)) + Total(Weights(t, fan, s.transit))
  }

  function Queued(s: State): nat {
    Total(Lengths(s.out))
  }

  function Unread(s: State): nat {
    Total(Lengths(s.wire))
  }

  lemma WeightUpdate(t: Topology, fan: nat, queues: seq<seq<Item>>, i: nat, items: seq<Item>)
    requires i < |queues|
    ensures Total(Weights(t, fan, queues[i := items])) + QueueWeight(t, fan, queues[i]) ==
            Total(Weights(t, fan, queues)) + QueueWeight(t, fan, items)
  {
    TotalUpdate(Weights(t, fan, queues), i, QueueWeight(t, fan, items));
    assert Weights(t, fan, queues[i := items]) == Weights(t, fan, queues)[i := QueueWeight(t, fan, items)];
  }

  lemma LengthUpdate<T>(queues: seq<seq<T>>, i: nat, items: seq<T>)
    requires i < |queues|
    ensures Total(Lengths(queues[i := items])) + |queues[i]| == Total(Lengths(queues)) + |items|
  {
    TotalUpdate(Lengths(queues), i, |items|);
    assert Lengths(queues[i := items]) == Lengths(queues)[i := |items|];
  }

  // ---- One forwarding step ----

  predicate IsForwarding(step: Step) {
    step.Route? || step.Write? || step.Refuse? || step.Read?
  }

  /** More than any router can make of one packet. */
  predicate FanOut(t: Topology, s: State, fan: nat) {
    forall r | 0 <= r < |s.log| :: |t.home| * |s.log[r]| < fan
  }

  lemma {:induction false} CopiesAtMostEntries(dsts: seq<GDPChannel>, source: GDPName, ch: Sender)
    ensures CopiesTo(dsts, source, ch) <= |dsts|
  {
    if dsts != [] {
      CopiesAtMostEntries(dsts[..|dsts| - 1], source, ch);
    }
  }

  lemma {:induction false} UnderIsShorter(log: seq<GDPChannel>, names: set<GDPName>)
    ensures |Under(log, names)| <= |log|
  {
    if log != [] {
      UnderIsShorter(log[..|log| - 1], names);
    }
  }

  lemma {:induction false} CopiesWeight(t: Topology, fan: nat, item: Item, n: nat)
    ensures QueueWeight(t, fan, Copies(item, n)) == n * ItemWeight(t, fan, item)
  {
    if n > 0 {
      assert Copies(item, n)[..n - 1] == Copies(item, n - 1);
      CopiesWeight(t, fan, item, n - 1);
      assert n * ItemWeight(t, fan, item) == (n - 1) * ItemWeight(t, fan, item) + ItemWeight(t, fan, item);
    }
  }

  /** The copies for one connection weigh at most as many next hops as the table has entries. */
  lemma SpreadWeight(t: Topology, fan: nat, s: State, r: nat, item: Item, c: nat, w: nat)
    requires Inv(t, s) && r < t.routers && c < |t.home| && t.IsConn(c)
    requires ItemWeight(t, fan, Onward(t, item, c)) <= w
    ensures QueueWeight(t, fan, Spread(t, s, r, item)[c]) <= QueueWeight(t, fan, s.out[c]) + |s.log[r]| * w
  {
    hide RibItem, OutItem, OwnEntry, StreamInStep, ItemWeight, CopiesTo, Under;
    var n := CopyCount(s.log[r], item.packet, Link(c));
    var next := Onward(t, item, c);
    UnderIsShorter(s.log[r], Targets(s.log[r], item.packet.gdpname));
    CopiesAtMostEntries(Under(s.log[r], Targets(s.log[r], item.packet.gdpname)), item.packet.source, Link(c));
    QueueWeightAppend(t, fan, s.out[c], Copies(next, n));
    CopiesWeight(t, fan, next, n);
    MulLe(n, |s.log[r]|, ItemWeight(t, fan, next), w);
  }

  lemma MulLe(a: nat, b: nat, x: nat, y: nat)
    requires a <= b && x <= y
    ensures a * x <= b * y
  {
    assert a * x <= b * x <= b * y;
  }

  lemma PowPositive(base: nat, exponent: nat)
    requires base > 0
    ensures Pow(base, exponent) > 0
  {
  }

  /** A packet weighs more than all its copies together. */
  lemma RouteLosesWork(t: Topology, s: State, fan: nat, r: nat)
    requires Inv(t, s) && IsForest(t.Linked) && t.OneConnectionPerLink() && FanOut(t, s, fan)
    requires Enabled(t, s, Route(r))
    ensures Work(t, fan, Next(t, s, Route(r))) < Work(t, fan, s)
  {
    hide OutItem, OwnEntry, StreamInStep, CopyCount, QueueWeight, Topology.IsTrail, Total, IsForest, FanOut;
    var item := s.ribQueue[r][0];
    assert |t.home| * |s.log[r]| < fan by { FanAt(t, s, fan, r); }
    assert RibItem(t, r, item) && item in s.ribQueue[r];
    TrailIsSimple(t, s, item);
    var h := |item.trail|;
    var w := if h < t.routers then Pow(fan, t.routers - h - 1) else 0;
    var after := Next(t, s, Route(r));
    forall c | 0 <= c < |t.home|
      ensures Weights(t, fan, after.out)[c] <= Weights(t, fan, s.out)[c] + |s.log[r]| * w
    {
      SpreadWeight(t, fan, s, r, item, c, w);
    }
    TotalGrowth(Weights(t, fan, s.out), Weights(t, fan, after.out), |s.log[r]| * w);
    assert s.ribQueue[r] == [item] + s.ribQueue[r][1..];
    QueueWeightAppend(t, fan, [item], s.ribQueue[r][1..]);
    WeightUpdate(t, fan, s.ribQueue, r, s.ribQueue[r][1..]);
    SingleWeight(t, fan, item);
    CopiesWeighLess(|t.home|, |s.log[r]|, fan, w, t.routers - h);
  }

  lemma FanAt(t: Topology, s: State, fan: nat, r: nat)
    requires FanOut(t, s, fan) && r < |s.log|
    ensures |t.home| * |s.log[r]| < fan
  {
  }

  lemma SingleWeight(t: Topology, fan: nat, item: Item)
    ensures QueueWeight(t, fan, [item]) == ItemWeight(t, fan, item)
  {
    assert [item][..0] == [];
  }

  lemma CopiesWeighLess(conns: nat, entries: nat, fan: nat, w: nat, hops: nat)
    requires conns * entries < fan
    requires w == if hops > 0 then Pow(fan, hops - 1) else 0
    ensures conns * (entries * w) < Pow(fan, hops)
  {
    PowPositive(fan, hops);
    assert conns * (entries * w) == (conns * entries) * w;
    if hops > 0 {
      PowPositive(fan, hops - 1);
      assert (conns * entries) * w < fan * w;
    }
  }

  /** What arrives weighs no more than what was taken off the link. */
  lemma {:induction false} ArrivalsWeigh(t: Topology, fan: nat, fs: seq<Frame>, sent: seq<Item>, c: nat)
    requires c < |t.threadName| && |fs| <= |sent| && fs == FramesOf(Packets(sent[..|fs|]))
    ensures QueueWeight(t, fan, Arrivals(fs, sent, t, c)) <= QueueWeight(t, fan, sent[..|fs|])
  {
    if fs != [] {
      var i := |fs| - 1;
      assert fs[..i] == FramesOf(Packets(sent[..i]));
      assert sent[..i + 1][..i] == sent[..i];
      ArrivalsWeigh(t, fan, fs[..i], sent, c);
      var arrived := match Handle(fs[i], t.threadName[c], Link(c))
                     case ToRib(p) => [Item(p, sent[i].trail, Some(c))]
                     case _ => [];
      QueueWeightAppend(t, fan, Arrivals(fs[..i], sent, t, c), arrived);
      if arrived != [] {
        SingleWeight(t, fan, arrived[0]);
      }
    }
  }

  lemma ReadKeepsWork(t: Topology, s: State, fan: nat, c: nat, n: nat)
    requires Inv(t, s) && Enabled(t, s, Read(c, n))
    ensures Work(t, fan, Next(t, s, Read(c, n))) <= Work(t, fan, s)
  {
    hide Codec.Encode, Codec.Held, Codec.Settled, Codec.Parse, Codec.BadCut, Feed, OutItem, RibItem, OwnEntry,
      Arrivals, QueueWeight;
    var p := t.peer[c];
    var items := s.transit[p];
    var r := Feed(t.codec, s.carry[c], s.wire[p][..n]);
    assert t.IsConn(p) && StreamInStep(t, s, p);
    PendingIsNeverNoop(t, p, items);
    ReadTakesFrames(t.codec, s.carry[c], s.wire[p], FramesOf(Packets(items)), n);
    if r.Parsed? {
      var k, home := |r.frames|, t.home[c];
      var arrived := Arrivals(r.frames, items, t, c);
      assert r.frames == FramesOf(Packets(items[..k]));
      ArrivalsWeigh(t, fan, r.frames, items, c);
      assert items == items[..k] + items[k..];
      QueueWeightAppend(t, fan, items[..k], items[k..]);
      QueueWeightAppend(t, fan, s.ribQueue[home], arrived);
      WeightUpdate(t, fan, s.ribQueue, home, s.ribQueue[home] + arrived);
      WeightUpdate(t, fan, s.transit, p, items[k..]);
    }
  }

  /** Every forwarding step lowers the measure: first the work, then the queued packets, then the
      unread bytes. */
  lemma ForwardingStepDescends(t: Topology, s: State, fan: nat, step: Step)
    requires Inv(t, s) && IsForest(t.Linked) && t.OneConnectionPerLink() && FanOut(t, s, fan)
    requires IsForwarding(step) && Enabled(t, s, step)
    ensures var after := Next(t, s, step);
            && FanOut(t, after, fan)
            && (|| Work(t, fan, after) < Work(t, fan, s)
                || (Work(t, fan, after) == Work(t, fan, s) &&
                      (|| Queued(after) < Queued(s)
                       || (Queued(after) == Queued(s) && Unread(after) < Unread(s)))))
  {
    hide RibItem, OutItem, OwnEntry, StreamInStep, QueueWeight, Codec.EncodeFrame, Feed, Arrivals, Total;
    match step
    case Route(r) =>
      RouteLosesWork(t, s, fan, r);
    case Read(c, n) =>
      var p := t.peer[c];
      ReadKeepsWork(t, s, fan, c, n);
      LengthUpdate(s.wire, p, s.wire[p][n..]);
    case Write(c) =>
      var head, rest := [s.out[c][0]], s.out[c][1..];
      assert s.out[c] == head + rest;
      QueueWeightAppend(t, fan, head, rest);
      QueueWeightAppend(t, fan, s.transit[c], head);
      WeightUpdate(t, fan, s.out, c, rest);
      WeightUpdate(t, fan, s.transit, c, s.transit[c] + head);
      LengthUpdate(s.out, c, rest);
    case Refuse(c) =>
      var head, rest := [s.out[c][0]], s.out[c][1..];
      assert s.out[c] == head + rest;
      QueueWeightAppend(t, fan, head, rest);
      WeightUpdate(t, fan, s.out, c, rest);
      LengthUpdate(s.out, c, rest);
  }

  ghost predicate ForwardsTo(t: Topology, s: State, after: State) {
    Fits(t, s) && exists step :: IsForwarding(step) && Enabled(t, s, step) && after == Next(t, s, step)
  }

  lemma {:induction false} NoEndlessDescent(t: Topology, fan: nat, run: nat -> State, i: nat)
    requires IsForest(t.Linked) && t.OneConnectionPerLink()
    requires Inv(t, run(i)) && FanOut(t, run(i), fan)
    requires forall j: nat | j >= i :: ForwardsTo(t, run(j), run(j + 1))
    ensures false
    decreases Work(t, fan, run(i)), Queued(run(i)), Unread(run(i))
  {
    hide Inv, Next, Enabled, FanOut, Work, Queued, Unread;
    assert ForwardsTo(t, run(i), run(i + 1));
    var step :| IsForwarding(step) && Enabled(t, run(i), step) && run(i + 1) == Next(t, run(i), step);
    StepKeepsInv(t, run(i), step);
    ForwardingStepDescends(t, run(i), fan, step);
    NoEndlessDescent(t, fan, run, i + 1);
  }

  /** Quiescence: from any reachable state of a forest with one connection per link, no run goes on
      for ever with forwarding steps alone, whatever is in the tables and however reads are cut. */
  lemma ForwardingComesToAnEnd(t: Topology, run: nat -> State)
    requires Reachable(t, run(0)) && IsForest(t.Linked) && t.OneConnectionPerLink()
    ensures exists i: nat :: !ForwardsTo(t, run(i), run(i + 1))
  {
    ReachableInv(t, run(0));
    var fan := 1 + Total(EntryBounds(t, run(0)));
    forall r | 0 <= r < |run(0).log| ensures |t.home| * |run(0).log[r]| < fan {
      TotalIsAtLeast(EntryBounds(t, run(0)), r);
    }
    if forall i: nat :: ForwardsTo(t, run(i), run(i + 1)) {
      NoEndlessDescent(t, fan, run, 0);
    }
  }

  function EntryBounds(t: Topology, s: State): seq<nat> {
    seq(|s.log|, r requires 0 <= r < |s.log| => |t.home| * |s.log[r]|)
  }

  lemma {:induction false} TotalIsAtLeast(q: seq<nat>, i: nat)
    requires i < |q|
    ensures q[i] <= Total(q)
  {
    if i < |q| - 1 {
      TotalIsAtLeast(q[..|q| - 1], i);
    }
  }
}
