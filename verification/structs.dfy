/** The records that the router passes around: names, actions, packets, transit headers and
    registrations. */
module Structs {

  datatype Option<+T> = None | Some(value: T) {
    predicate IsFailure() {
      None?
    }

    function PropagateFailure<U>(): Option<U>
      requires None?
    {
      None
    }

    function Extract(): T
      requires Some?
    {
      value
    }

    function GetOr(default: T): T {
      if Some? then value else default
    }
  }

  type byte = x: int | 0 <= x < 256

  const USIZE_LIMIT: int := 0x1_0000_0000_0000_0000

  type usize = x: int | 0 <= x < USIZE_LIMIT

  /** The contents of a byte vector: its length always fits a `usize`. */
  type Bytes = s: seq<byte> | |s| < USIZE_LIMIT witness []

  datatype GdpAction = Noop | Forward | Advertise | RibGet | RibReply | Nack | Control

  datatype GDPName = GDPName(a: byte, b: byte, c: byte, d: byte)

  datatype GDPPacketInTransit =
    GDPPacketInTransit(action: GdpAction, destination: GDPName, length: usize)

  datatype GDPPacket =
    GDPPacket(action: GdpAction, gdpname: GDPName, payload: Option<Bytes>, source: GDPName)
  {
    function GetHeader(): GDPPacketInTransit {
      match payload
      case Some(bytes) => GDPPacketInTransit(action, gdpname, |bytes|)
      case None => GDPPacketInTransit(action, gdpname, 0)
    }
  }

  /** The sending half of an unbounded queue: the outgoing queue of a connection or the inbox of a
      local ROS endpoint. */
  datatype Sender = Link(conn: nat) | Endpoint(id: nat)

  datatype GDPChannel = GDPChannel(gdpname: GDPName, channel: Sender, advertisement: GDPPacket)
}
