/** The UDP listener: one socket, split into one stream for each remote address. */
module UdpStream {

  import opened Sequences
  import opened Structs

  datatype Address = SocketAddr(ip: seq<byte>, port: nat)

  type Datagram = seq<byte>

  /** A stream that was handed to its user. The flag is shared with the listener; the queue ends in
      a receiver that is open as long as the user holds the stream. */
  class Stream {
    const peerAddr: Address
    var drop: bool
    var receiverOpen: bool
    /** Every datagram that was put on the queue. */
    var given: seq<Datagram>

    constructor (peerAddr: Address, first: Datagram)
      ensures this.peerAddr == peerAddr && !drop && receiverOpen && given == [first]
    {
      this.peerAddr, drop, receiverOpen, given := peerAddr, false, true, [first];
    }

    /** The flag goes up: by `shutdown`, by a failed write, or as the first half of a drop. */
    method Shutdown()
      modifies this`drop
      ensures drop
    {
      drop := true;
    }

    /** The second half of a drop: the receiver goes only after the flag is up. */
    method Close()
      requires drop
      modifies this`receiverOpen
      ensures !receiverOpen
    {
      receiverOpen := false;
    }
  }

  datatype Arrival = Arrival(addr: Address, data: Datagram, taken: bool)

  /** The datagrams from one address whose send did not fail, in order of arrival. */
  function Taken(arrived: seq<Arrival>, addr: Address): seq<Datagram> {
    if arrived == [] then []
    else
      var last := arrived[|arrived| - 1];
      Taken(arrived[..|arrived| - 1], addr) + if last.addr == addr && last.taken then [last.data] else []
  }

  function From(arrived: seq<Arrival>, addr: Address): seq<Datagram> {
    if arrived == [] then []
    else
      var last := arrived[|arrived| - 1];
      From(arrived[..|arrived| - 1], addr) + if last.addr == addr then [last.data] else []
  }

  /** Said by positions: one datagram for each arrival from the address whose send did not fail. */
  lemma {:induction false} TakenByPosition(arrived: seq<Arrival>, addr: Address) returns (at: seq<nat>)
    ensures InOrder(at, |arrived|)
    ensures forall i | 0 <= i < |arrived| :: i in at <==> arrived[i].addr == addr && arrived[i].taken
    ensures |Taken(arrived, addr)| == |at|
    ensures forall k | 0 <= k < |at| :: Taken(arrived, addr)[k] == arrived[at[k]].data
  {
    at := [];
    if arrived != [] {
      var n := |arrived| - 1;
      at := TakenByPosition(arrived[..n], addr);
      assert forall i | 0 <= i < n :: arrived[..n][i] == arrived[i];
      if arrived[n].addr == addr && arrived[n].taken {
        at := at + [n];
      }
    }
  }

  /** What is sent on is a subsequence of what arrived from the address, and all of it if no send
      failed. */
  lemma {:induction false} TakenIsSubsequence(arrived: seq<Arrival>, addr: Address)
    ensures IsSubsequence(Taken(arrived, addr), From(arrived, addr))
    ensures (forall a <- arrived :: a.addr == addr ==> a.taken) ==> Taken(arrived, addr) == From(arrived, addr)
  {
    hide IsSubsequence;
    if arrived == [] {
      EmptySubsequence(From(arrived, addr));
    } else {
      var front, last := arrived[..|arrived| - 1], arrived[|arrived| - 1];
      TakenIsSubsequence(front, addr);
      assert last in arrived && forall a <- front :: a in arrived;
      var sent, all := Taken(front, addr), From(front, addr);
      if last.addr == addr {
        assert (all + [last.data])[..|all|] == all && (all + [last.data])[..|all| + 1] == all + [last.data];
        SubsequenceGoesOn(sent, all + [last.data], |all|);
      }
      assert sent + [] == sent && all + [] == all;
    }
  }

  /** What some streams were given, one stream after the other. */
  function Given(streams: seq<Stream>): seq<Datagram>
    reads streams
  {
    if streams == [] then [] else Given(streams[..|streams| - 1]) + streams[|streams| - 1].given
  }

  /** The streams of one address, oldest first: never the same twice, and all marked dropped but
      perhaps the youngest, as long as the listener still knows it as the current one. */
  ghost predicate Succession(mine: seq<Stream>, addr: Address, current: Option<Stream>)
    reads mine
  {
    && (forall s <- mine :: s.peerAddr == addr && (!s.receiverOpen ==> s.drop))
    && (forall i, j | 0 <= i < j < |mine| :: mine[i] != mine[j])
    && (forall i | 0 <= i < |mine| - 1 :: mine[i].drop)
    && (if current.Some? then mine != [] && current.value == mine[|mine| - 1]
        else mine != [] ==> mine[|mine| - 1].drop)
  }

  class Listener {
    var streams: map<Address, Stream>
    /** All streams ever handed out for each address, and all datagrams received. */
    ghost var created: map<Address, seq<Stream>>
    ghost var arrived: seq<Arrival>
    ghost var repr: set<Stream>

    ghost function Created(addr: Address): seq<Stream>
      reads this
    {
      if addr in created then created[addr] else []
    }

    function Current(addr: Address): Option<Stream>
      reads this
    {
      if addr in streams then Some(streams[addr]) else None
    }

    /** One address: what its streams were given is what arrived from it, less what could not be
        sent. */
    ghost predicate Served(addr: Address)
      reads this, repr
    {
      && (forall s <- Created(addr) :: s in repr)
      && Succession(Created(addr), addr, Current(addr))
      && Given(Created(addr)) == Taken(arrived, addr)
    }

    ghost predicate Valid()
      reads this, repr
    {
      forall addr :: Served(addr)
    }

    /** The listener has a stream for the address, and the next sweep leaves it alone. */
    predicate Survives(addr: Address, lockable: set<Address>)
      reads this, if addr in streams then {streams[addr]} else {}
    {
      addr in streams && !(addr in lockable && streams[addr].drop)
    }

    constructor ()
      ensures Valid() && streams == map[] && arrived == [] && repr == {}
    {
      streams, created, arrived, repr := map[], map[], [], {};
    }

    /** The sweep before each datagram: of the streams that are marked dropped, it forgets those
        whose flag could be locked, and no others. */
    method Sweep(lockable: set<Address>)
      requires Valid()
      modifies this`streams
      ensures Valid()
      ensures forall addr :: Current(addr) == if old(Survives(addr, lockable)) then old(Current(addr)) else None
    {
      hide Given, Taken, Succession;
      var rest := streams.Keys;
      while rest != {}
        invariant rest <= streams.Keys && Valid()
        invariant forall addr ::
                    Current(addr) == if addr in rest || old(Survives(addr, lockable)) then old(Current(addr)) else None
        decreases |rest|
      {
        var addr :| addr in rest;
        rest := rest - {addr};
        if addr in lockable && streams[addr].drop {
          assert Served(addr);
          DroppedMayGo(Created(addr), addr, streams[addr]);
          label forgetting:
          streams := streams - {addr};
          forall other ensures Served(other) {
            assert old@forgetting(Served(other));
          }
        }
      }
    }

    /** One more datagram on the queue of the current stream. */
    method Enqueue(stream: Stream, data: Datagram, addr: Address)
      requires Valid() && Current(addr) == Some(stream) && stream in repr
      modifies stream`given, this`arrived
      ensures Valid() && arrived == old(arrived) + [Arrival(addr, data, true)]
    {
      hide Taken, Given;
      assert Served(addr);
      ghost var own := Created(addr);
      GivenByLast(own);
      stream.given := stream.given + [data];
      arrived := arrived + [Arrival(addr, data, true)];
      GivenByLast(own);
      SameGiven(own[..|own| - 1]);
      forall other ensures Served(other) {
        var mine := Created(other);
        assert old(Served(other));
        assert forall i | 0 <= i < |mine| :: mine[i] in mine;
        TakenAppend(old(arrived), Arrival(addr, data, true), other);
        if other != addr {
          SameGiven(mine);
        }
      }
    }

    /** A datagram that could not be sent: its stream, if it had one, is forgotten. */
    method Forget(data: Datagram, addr: Address)
      requires Valid() && (addr in streams ==> !streams[addr].receiverOpen)
      modifies this`streams, this`arrived
      ensures Valid() && arrived == old(arrived) + [Arrival(addr, data, false)]
      ensures forall other :: Current(other) == if other == addr then None else old(Current(other))
    {
      hide Taken, Given;
      streams := streams - {addr};
      arrived := arrived + [Arrival(addr, data, false)];
      forall other ensures Served(other) {
        assert old(Served(other));
        TakenAppend(old(arrived), Arrival(addr, data, false), other);
      }
    }

    /** A new stream for an address that has no current one. */
    method Open(data: Datagram, addr: Address) returns (stream: Stream)
      requires Valid() && addr !in streams
      modifies this
      ensures Valid() && fresh(stream) && arrived == old(arrived) + [Arrival(addr, data, true)]
      ensures forall other :: Created(other) == old(Created(other)) + if other == addr then [stream] else []
      ensures repr == old(repr) + {stream} && Current(addr) == Some(stream) && stream.given == [data]
      ensures forall other | other != addr :: Current(other) == old(Current(other))
    {
      hide Taken, Given, Succession;
      assert Served(addr);
      stream := new Stream(addr, data);
      ghost var mine := Created(addr);
      streams := streams[addr := stream];
      created := created[addr := mine + [stream]];
      arrived := arrived + [Arrival(addr, data, true)];
      repr := repr + {stream};
      forall other ensures Served(other) {
        assert old(Served(other));
        TakenAppend(old(arrived), Arrival(addr, data, true), other);
        if other == addr {
          OpenedIsServed(mine, stream, addr, data);
        }
      }
    }

    lemma OpenedIsServed(mine: seq<Stream>, stream: Stream, addr: Address, data: Datagram)
      requires Succession(mine, addr, None) && stream !in mine
      requires stream.peerAddr == addr && stream.receiverOpen && stream.given == [data]
      ensures Succession(mine + [stream], addr, Some(stream))
      ensures Given(mine + [stream]) == Given(mine) + [data]
    {
      GivenByLast(mine + [stream]);
      assert (mine + [stream])[..|mine|] == mine;
    }

    /** One datagram. `lockable` are the addresses whose flag `try_lock` gets hold of, and `accepting`
        says whether the listener still takes new streams. Whatever they are: for each address, its
        streams were given exactly what arrived, in order, less what could not be sent, and at most
        the youngest of them is not marked dropped. */
    method Receive(data: Datagram, addr: Address, lockable: set<Address>, accepting: bool) returns (taken: bool)
      requires Valid()
      modifies this, repr
      ensures Valid() && arrived == old(arrived) + [Arrival(addr, data, taken)]
      ensures taken <==> if old(Survives(addr, lockable)) then old(Current(addr).value.receiverOpen) else accepting
      ensures Current(addr).Some? <==> taken
      ensures taken && old(Survives(addr, lockable)) ==> Current(addr) == old(Current(addr)) && created == old(created)
      ensures taken && !old(Survives(addr, lockable)) ==>
                && Current(addr).value.given == [data] && Current(addr).value !in old(repr)
                && Created(addr) == old(Created(addr)) + [Current(addr).value]
      ensures forall other | other != addr :: Created(other) == old(Created(other))
      ensures forall other | other != addr ::
                Current(other) == if old(Survives(other, lockable)) then old(Current(other)) else None
      ensures old(repr) <= repr && fresh(repr - old(repr))
      ensures forall s <- old(repr) :: s.drop == old(s.drop) && s.receiverOpen == old(s.receiverOpen)
    {
      hide Succession, Given, Taken;
      Sweep(lockable);
      assert Served(addr);
      if addr in streams {
        var stream := streams[addr];
        assert stream in repr by { CurrentIsYoungest(Created(addr), addr, stream); }
        taken := stream.receiverOpen;
        if taken {
          Enqueue(stream, data, addr);
        } else {
          Forget(data, addr);
        }
      } else {
        taken := accepting;
        if taken {
          var _ := Open(data, addr);
        } else {
          Forget(data, addr);
        }
      }
    }

    /** What the users of streams do between two datagrams, dropping some and shutting others down,
        keeps all this true. */
    twostate lemma FlagsOnlyRise()
      requires old(Valid()) && unchanged(this)
      requires forall s <- repr ::
                 && old(allocated(s)) && s.given == old(s.given) && (old(s.drop) ==> s.drop)
                 && (!s.receiverOpen ==> s.drop || old(!s.receiverOpen))
      ensures Valid()
    {
      forall addr ensures Served(addr) {
        assert old(Served(addr));
        SameGiven(Created(addr));
      }
    }

    /** A user shuts a stream down, or begins to drop it. From then on the listener may forget it at
        any sweep, and until then it goes on serving it. */
    method ShutDown(stream: Stream)
      requires Valid() && stream in repr
      modifies stream`drop
      ensures Valid() && stream.drop
    {
      hide Succession, Given, Taken;
      stream.Shutdown();
      FlagsOnlyRise();
    }

    /** A user has dropped a stream that is marked. Any datagrams may have arrived since it was. */
    method CloseDropped(stream: Stream)
      requires Valid() && stream in repr && stream.drop
      modifies stream`receiverOpen
      ensures Valid() && !stream.receiverOpen
    {
      hide Succession, Given, Taken;
      stream.Close();
      FlagsOnlyRise();
    }
  }

  twostate lemma {:induction false} SameGiven(streams: seq<Stream>)
    requires forall s <- streams :: s.given == old(s.given)
    ensures Given(streams) == old(Given(streams))
  {
    if streams != [] {
      SameGiven(streams[..|streams| - 1]);
    }
  }

  lemma DroppedMayGo(mine: seq<Stream>, addr: Address, current: Stream)
    requires Succession(mine, addr, Some(current)) && current.drop
    ensures Succession(mine, addr, None)
  {
  }

  lemma GivenByLast(streams: seq<Stream>)
    requires streams != []
    ensures Given(streams) == Given(streams[..|streams| - 1]) + streams[|streams| - 1].given
  {
  }

  lemma CurrentIsYoungest(mine: seq<Stream>, addr: Address, current: Stream)
    requires Succession(mine, addr, Some(current))
    ensures current in mine
  {
  }

  lemma TakenAppend(arrived: seq<Arrival>, last: Arrival, addr: Address)
    ensures Taken(arrived + [last], addr) ==
            Taken(arrived, addr) + if last.addr == addr && last.taken then [last.data] else []
  {
    assert (arrived + [last])[..|arrived|] == arrived;
  }
}
