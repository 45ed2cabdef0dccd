/** One link over whole runs: as long as nothing but its own steps touches it, it carries packets
    exactly once and in order, whatever happens on other links. */
module LinkFifo {
  import opened Structs
  import opened Framing
  import opened Pipeline
  import opened Reassembly
  import opened ConnectionRib
  import opened Network
  import opened NetworkInvariant
  import opened NetworkRuns
  import opened DisturbedLinks

  /** The bytes on link c are those of the packets under way on it, which connections may queue. */
  ghost predicate InStep(t: Topology, s: State, c: nat)
    requires Fits(t, s) && t.IsConn(c)
  {
    StreamInStep(t, s, c) && forall item <- s.transit[c] :: Sendable(item.packet)
  }

  lemma ItemsAreSendable(items: seq<Item>)
    requires forall item <- items :: Sendable(item.packet)
    ensures forall p <- Packets(items) :: Sendable(p)
    ensures forall i | 0 <= i < |items| :: FramesOf(Packets(items))[i].header.action != Noop
  {
    forall i | 0 <= i < |items| ensures Sendable(items[i].packet) {
      assert items[i] in items;
    }
  }

  predicate Spares(move: Move, c: nat) {
    move.Disturb? ==> move.c != c
  }

  /** The packet that connection c writes in a move, if any. */
  ghost function WrittenNow(t: Topology, s: State, move: Move, c: nat): seq<GDPPacket>
    requires Fits(t, s) && Possible(t, s, move) && t.IsConn(c)
  {
    if move == Take(Write(c)) then [s.out[c][0].packet] else []
  }

  /** The packets that connection c writes in the course of a run. */
  ghost function Written(t: Topology, s: State, moves: seq<Move>, c: nat): seq<GDPPacket>
    requires Fits(t, s) && CanMove(t, s, moves) && t.IsConn(c)
    decreases |moves|
  {
    if moves == [] then []
    else WrittenNow(t, s, moves[0], c) + Written(t, After(t, s, moves[0]), moves[1..], c)
  }

  predicate Reads(move: Move, q: nat) {
    move.Take? && move.step.Read? && move.step.c == q
  }

  ghost function HandedOnNow(t: Topology, s: State, move: Move, q: nat): seq<Frame>
    requires Fits(t, s) && Possible(t, s, move) && t.IsConn(q)
  {
    if !Reads(move, q) then []
    else
      match Feed(t.codec, s.carry[q], s.wire[t.peer[q]][..move.step.n])
      case Panic => []
      case Parsed(fs, _) => fs
  }

  /** The frames that connection q hands on in the course of a run. */
  ghost function HandedOn(t: Topology, s: State, moves: seq<Move>, q: nat): seq<Frame>
    requires Fits(t, s) && CanMove(t, s, moves) && t.IsConn(q)
    decreases |moves|
  {
    if moves == [] then []
    else HandedOnNow(t, s, moves[0], q) + HandedOn(t, After(t, s, moves[0]), moves[1..], q)
  }

  lemma ReadIsFifo(t: Topology, s: State, q: nat, n: nat)
    requires Fits(t, s) && Enabled(t, s, Read(q, n)) && t.IsConn(t.peer[q]) && InStep(t, s, t.peer[q])
    ensures var c, after := t.peer[q], Next(t, s, Read(q, n));
            && InStep(t, after, c)
            && FramesOf(Packets(s.transit[c])) ==
               HandedOnNow(t, s, Take(Read(q, n)), q) + FramesOf(Packets(after.transit[c]))
  {
    hide Codec.Encode, Codec.Held, Codec.Settled, Codec.Parse, Codec.BadCut, Feed, Arrivals, Sendable;
    var c := t.peer[q];
    var items, r := s.transit[c], Feed(t.codec, s.carry[q], s.wire[c][..n]);
    ItemsAreSendable(items);
    ReadTakesFrames(t.codec, s.carry[q], s.wire[c], FramesOf(Packets(items)), n);
    if r.Parsed? {
      var k := |r.frames|;
      assert items == items[..k] + items[k..];
      PacketsAppend(items[..k], items[k..]);
      assert FramesOf(Packets(items))[k..] == FramesOf(Packets(items[k..]));
    }
  }

  lemma WriteIsFifo(t: Topology, s: State, c: nat)
    requires QueuesInv(t, s) && Enabled(t, s, Write(c)) && InStep(t, s, c)
    ensures var after := Next(t, s, Write(c));
            && InStep(t, after, c)
            && FramesOf(Packets(s.transit[c])) + FramesOf([s.out[c][0].packet]) == FramesOf(Packets(after.transit[c]))
  {
    hide Codec.EncodeFrame, Codec.Held, Codec.Settled, Forwardable, OwnEntry;
    var item := s.out[c][0];
    var before, f := FramesOf(Packets(s.transit[c])), FrameOf(item.packet);
    PacketsAppend(s.transit[c], [item]);
    assert FramesOf(Packets([item])) == [f];
    t.codec.EncodeAppend(before, [f]);
    t.codec.EncodeCons(f, []);
    assert [f] + [] == [f];
  }

  /** One move that spares the link. */
  lemma MoveIsFifo(t: Topology, s: State, move: Move, c: nat)
    requires QueuesInv(t, s) && Possible(t, s, move) && t.IsConn(c) && InStep(t, s, c) && Spares(move, c)
    ensures InStep(t, After(t, s, move), c)
    ensures FramesOf(Packets(s.transit[c])) + FramesOf(WrittenNow(t, s, move, c)) ==
            HandedOnNow(t, s, move, t.peer[c]) + FramesOf(Packets(After(t, s, move).transit[c]))
  {
    hide Forwardable, OwnEntry, Feed, Arrivals, ForRegistry, Codec.EncodeFrame, Codec.Encode, Codec.Held, Codec.Settled,
      Sendable;
    if move == Take(Write(c)) {
      WriteIsFifo(t, s, c);
    } else if Reads(move, t.peer[c]) {
      ReadIsFifo(t, s, t.peer[c], move.step.n);
    } else if move.Disturb? {
      assert t.peer[t.peer[c]] == c && t.peer[t.peer[move.c]] == move.c;
    } else if move.step.Read? {
      assert t.IsConn(move.step.c) && t.peer[move.step.c] != c;
    }
  }

  lemma {:induction false} MovesAreFifo(t: Topology, s: State, moves: seq<Move>, c: nat)
    requires QueuesInv(t, s) && CanMove(t, s, moves) && t.IsConn(c) && InStep(t, s, c)
    requires forall move <- moves :: Spares(move, c)
    ensures InStep(t, AfterAll(t, s, moves), c)
    ensures FramesOf(Packets(s.transit[c])) + FramesOf(Written(t, s, moves, c)) ==
            HandedOn(t, s, moves, t.peer[c]) + FramesOf(Packets(AfterAll(t, s, moves).transit[c]))
    decreases |moves|
  {
    hide After, Possible, Forwardable, OwnEntry, InStep, HandedOnNow, WrittenNow, Spares;
    var q, here := t.peer[c], FramesOf(Packets(s.transit[c]));
    if moves == [] {
      assert here + FramesOf([]) == [] + here;
    } else {
      var next, rest := After(t, s, moves[0]), moves[1..];
      MoveKeepsQueues(t, s, moves[0]);
      MoveIsFifo(t, s, moves[0], c);
      MovesAreFifo(t, next, rest, c);
      var now := WrittenNow(t, s, moves[0], c);
      var later, there := Written(t, next, rest, c), FramesOf(Packets(next.transit[c]));
      var first := HandedOnNow(t, s, moves[0], q);
      assert FramesOf(now + later) == FramesOf(now) + FramesOf(later);
      assert here + (FramesOf(now) + FramesOf(later)) == (here + FramesOf(now)) + FramesOf(later);
      assert (first + there) + FramesOf(later) == first + (there + FramesOf(later));
    }
  }

  lemma InitInStep(t: Topology, c: nat)
    requires t.Valid() && t.IsConn(c)
    ensures InStep(t, Init(t), c)
  {
    hide Codec.Settled;
    t.codec.ParseNothing();
    assert FramesOf(Packets(Init(t).transit[c])) == [];
  }

  /** Exactly once, in order, and nothing else: over every run that spares a link, the frames that one
      end has handed on are the packets that the other end has written, but for those that are still
      under way. */
  lemma {:induction false} LinksAreFifo(t: Topology, moves: seq<Move>, c: nat)
    requires t.Valid() && CanMove(t, Init(t), moves) && t.IsConn(c)
    requires forall move <- moves :: Spares(move, c)
    ensures FramesOf(Written(t, Init(t), moves, c)) ==
            HandedOn(t, Init(t), moves, t.peer[c]) + FramesOf(Packets(AfterAll(t, Init(t), moves).transit[c]))
  {
    hide InStep, After, Possible;
    InitQueues(t);
    InitInStep(t, c);
    MovesAreFifo(t, Init(t), moves, c);
  }

  // ---- One read, end to end ----

  lemma {:induction false} ArrivalsAreForRib(t: Topology, fs: seq<Frame>, sent: seq<Item>, c: nat)
    requires c < |t.threadName|
    ensures Packets(Arrivals(fs, sent, t, c)) == ForRib(fs, t.threadName[c], Link(c))
  {
    if fs != [] {
      ArrivalsAreForRib(t, fs[..|fs| - 1], sent, c);
    }
  }

  /** At every state of a run that spares a link, a read panics exactly when it ends between a header
      and its NUL. Any other read hands to the RIB the next packets that the peer wrote, in order
      and unchanged but for the source, and takes exactly those off the link. */
  lemma {:induction false} ReadHandsOnWhatWasWritten(t: Topology, moves: seq<Move>, q: nat, n: nat)
    requires t.Valid() && CanMove(t, Init(t), moves) && t.IsConn(q) && t.IsConn(t.peer[q])
    requires forall move <- moves :: Spares(move, t.peer[q])
    ensures var s := AfterAll(t, Init(t), moves);
            Enabled(t, s, Read(q, n)) ==> HandsOn(t, s, q, n)
  {
    hide InStep, After, Possible, HandsOn;
    InitQueues(t);
    InitInStep(t, t.peer[q]);
    MovesAreFifo(t, Init(t), moves, t.peer[q]);
    var s := AfterAll(t, Init(t), moves);
    if Enabled(t, s, Read(q, n)) {
      InStepHandsOn(t, s, q, n);
    }
  }

  ghost predicate HandsOn(t: Topology, s: State, q: nat, n: nat)
    requires Fits(t, s) && Enabled(t, s, Read(q, n))
  {
    var c, r := t.peer[q], t.home[q];
    var after := Next(t, s, Read(q, n));
    if t.codec.BadCut(FramesOf(Packets(s.transit[c])), |t.codec.Held(s.carry[q])| + n) then after.dead[q]
    else
      && !after.dead[q]
      && exists taken ::
           && s.transit[c] == taken + after.transit[c]
           && Packets(after.ribQueue[r]) ==
              Packets(s.ribQueue[r]) + RenamedForwards(Packets(taken), t.threadName[q])
           && after.registry[r] == s.registry[r] + RenamedAdverts(Packets(taken), t.threadName[q], Link(q))
  }

  lemma InStepHandsOn(t: Topology, s: State, q: nat, n: nat)
    requires Fits(t, s) && Enabled(t, s, Read(q, n)) && t.IsConn(t.peer[q]) && InStep(t, s, t.peer[q])
    ensures HandsOn(t, s, q, n)
  {
    hide Codec.Encode, Codec.Held, Codec.Settled, Codec.Parse, Codec.BadCut, Feed, Sendable, Arrivals, ForRib,
      ForRegistry, RenamedForwards, RenamedAdverts;
    var c := t.peer[q];
    var items, r := s.transit[c], Feed(t.codec, s.carry[q], s.wire[c][..n]);
    ItemsAreSendable(items);
    ReadTakesFrames(t.codec, s.carry[q], s.wire[c], FramesOf(Packets(items)), n);
    if r.Parsed? {
      var taken := items[..|r.frames|];
      assert r.frames == FramesOf(Packets(taken));
      assert forall item <- taken :: item in items;
      ItemsAreSendable(taken);
      ArrivalsAreForRib(t, r.frames, items, q);
      FramesBringPackets(Packets(taken), t.threadName[q], Link(q));
      var after := Next(t, s, Read(q, n));
      assert items == taken + after.transit[c];
      assert Packets(after.ribQueue[t.home[q]]) ==
             Packets(s.ribQueue[t.home[q]]) + Packets(Arrivals(r.frames, items, t, q));
    }
  }
}
