/**
 Connection events: how the kernel side fills and lays out a NetEvent, and what the
 monitor reads back out of the same 88 bytes.
 */
module NetEvents {
  import opened Machine
  import opened Layout

  datatype EventType = Unknown | Connect | Accept | Send | Recv | Close | StateChange | Dns | TlsHandshake
  datatype Protocol = NoProtocol | Tcp | Udp
  datatype Direction = NoDirection | Ingress | Egress

  function EventCode(e: EventType): Byte {
    match e
    case Unknown => 0 case Connect => 1 case Accept => 2 case Send => 3 case Recv => 4
    case Close => 5 case StateChange => 6 case Dns => 7 case TlsHandshake => 8
  }

  function EventOf(b: Byte): Option<EventType> {
    match b
    case 0 => Some(Unknown) case 1 => Some(Connect) case 2 => Some(Accept) case 3 => Some(Send) case 4 => Some(Recv)
    case 5 => Some(Close) case 6 => Some(StateChange) case 7 => Some(Dns) case 8 => Some(TlsHandshake) case _ => None
  }

  function ProtocolCode(p: Protocol): Byte {
    match p case NoProtocol => 0 case Tcp => 6 case Udp => 17
  }

  function ProtocolOf(b: Byte): Option<Protocol> {
    match b case 0 => Some(NoProtocol) case 6 => Some(Tcp) case 17 => Some(Udp) case _ => None
  }

  function DirectionCode(d: Direction): Byte {
    match d case NoDirection => 0 case Ingress => 1 case Egress => 2
  }

  function DirectionOf(b: Byte): Option<Direction> {
    match b case 0 => Some(NoDirection) case 1 => Some(Ingress) case 2 => Some(Egress) case _ => None
  }

  type Bytes16 = s: seq<Byte> | |s| == 16 witness seq(16, _ => 0)
  type I32 = x: int | -0x8000_0000 <= x < 0x8000_0000

  datatype NetEvent = NetEvent(
    timestampNs: U64, socketId: U64, pid: U32, tid: U32, uid: U32,
    event: EventType, protocol: Protocol, direction: Direction,
    comm: Bytes16, srcIp: Bytes16, dstIp: Bytes16, srcPort: U16, dstPort: U16, ret: I32)

  // ----- Layout -----

  const SLOTS: seq<Slot> := [
    Slot(8, 8), Slot(8, 8), Slot(4, 4), Slot(4, 4), Slot(4, 4),
    Slot(1, 1), Slot(1, 1), Slot(1, 1),
    Slot(16, 1), Slot(16, 1), Slot(16, 1), Slot(2, 2), Slot(2, 2), Slot(4, 4)]

  const SIZE: nat := 88

  /** The offsets C alignment gives the fields: one padding byte, at 79, and 88 bytes in all. */
  lemma NetEventLayout()
    ensures Sensible(SLOTS) && |SLOTS| == 14
    ensures Offset(SLOTS, 0) == 0 && Offset(SLOTS, 1) == 8
    ensures Offset(SLOTS, 2) == 16 && Offset(SLOTS, 3) == 20 && Offset(SLOTS, 4) == 24
    ensures Offset(SLOTS, 5) == 28 && Offset(SLOTS, 6) == 29 && Offset(SLOTS, 7) == 30
    ensures Offset(SLOTS, 8) == 31 && Offset(SLOTS, 9) == 47 && Offset(SLOTS, 10) == 63
    ensures End(SLOTS, 11) == 79 && Offset(SLOTS, 11) == 80
    ensures Offset(SLOTS, 12) == 82 && Offset(SLOTS, 13) == 84
    ensures AlignUp(End(SLOTS, 14), 8) == End(SLOTS, 14) == SIZE
  {
    assert End(SLOTS, 1) == 8;
    assert End(SLOTS, 2) == 16;
    assert End(SLOTS, 3) == 20;
    assert End(SLOTS, 4) == 24;
    assert End(SLOTS, 5) == 28;
    assert End(SLOTS, 6) == 29;
    assert End(SLOTS, 7) == 30;
    assert End(SLOTS, 8) == 31;
    assert End(SLOTS, 9) == 47;
    assert End(SLOTS, 10) == 63;
    assert End(SLOTS, 11) == 79;
    assert End(SLOTS, 12) == 82;
    assert End(SLOTS, 13) == 84;
  }

  function Unsigned(x: I32): U32 {
    if x < 0 then x + TWO_32 else x
  }

  function Signed(x: U32): I32 {
    if x >= 0x8000_0000 then x - TWO_32 else x
  }

  function FieldBytes(order: Endian, e: NetEvent): (fields: seq<seq<Byte>>)
    ensures Fits(fields, SLOTS)
  {
    [ToNE(order, e.timestampNs, 8), ToNE(order, e.socketId, 8),
     ToNE(order, e.pid, 4), ToNE(order, e.tid, 4), ToNE(order, e.uid, 4),
     [EventCode(e.event)], [ProtocolCode(e.protocol)], [DirectionCode(e.direction)],
     e.comm, e.srcIp, e.dstIp,
     ToNE(order, e.srcPort, 2), ToNE(order, e.dstPort, 2), ToNE(order, Unsigned(e.ret), 4)]
  }

  function Encode(order: Endian, e: NetEvent, pad: nat -> Byte): seq<Byte> {
    NetEventLayout();
    Image(FieldBytes(order, e), SLOTS, pad, 14)
  }

  /** Field i of a record of the right size. */
  function FieldAt(record: seq<Byte>, i: nat): (f: seq<Byte>)
    requires |record| == SIZE && i < 14
    ensures |f| == SLOTS[i].size
  {
    NetEventLayout();
    record[Offset(SLOTS, i)..Offset(SLOTS, i) + SLOTS[i].size]
  }

  function FieldsOf(record: seq<Byte>): (f: seq<seq<Byte>>)
    requires |record| == SIZE
    ensures Fits(f, SLOTS)
  {
    seq(14, i requires 0 <= i < 14 => FieldAt(record, i))
  }

  /** The cast back to a NetEvent; None where the bytes are not one. */
  function Decode(order: Endian, record: seq<Byte>): Option<NetEvent> {
    if |record| != SIZE then None
    else
      FromFields(order, FieldsOf(record))
  }

  function FromFields(order: Endian, f: seq<seq<Byte>>): Option<NetEvent>
    requires Fits(f, SLOTS)
  {
    Pow256Values();
    match (EventOf(f[5][0]), ProtocolOf(f[6][0]), DirectionOf(f[7][0]))
    case (Some(event), Some(protocol), Some(direction)) =>
      Some(NetEvent(
             FromNE(order, f[0]), FromNE(order, f[1]), FromNE(order, f[2]), FromNE(order, f[3]), FromNE(order, f[4]),
             event, protocol, direction, f[8], f[9], f[10],
             FromNE(order, f[11]), FromNE(order, f[12]), Signed(FromNE(order, f[13]))))
    case _ => None
  }

  lemma CodesRoundTrip(e: EventType, p: Protocol, d: Direction, x: I32)
    ensures EventOf(EventCode(e)) == Some(e)
    ensures ProtocolOf(ProtocolCode(p)) == Some(p)
    ensures DirectionOf(DirectionCode(d)) == Some(d)
    ensures Signed(Unsigned(x)) == x
  {
  }

  lemma FieldsRoundTrip(order: Endian, e: NetEvent)
    ensures FromFields(order, FieldBytes(order, e)) == Some(e)
  {
    Pow256Values();
    CodesRoundTrip(e.event, e.protocol, e.direction, e.ret);
    NativeReads(order, e.timestampNs, 8);
    NativeReads(order, e.socketId, 8);
    NativeReads(order, e.pid, 4);
    NativeReads(order, e.tid, 4);
    NativeReads(order, e.uid, 4);
    NativeReads(order, e.srcPort, 2);
    NativeReads(order, e.dstPort, 2);
    NativeReads(order, Unsigned(e.ret), 4);
  }

  /** Casting the bytes of an event back gives the event, on either byte order and whatever the padding holds. */
  lemma EventRoundTrip(order: Endian, e: NetEvent, pad: nat -> Byte)
    ensures |Encode(order, e, pad)| == SIZE
    ensures Decode(order, Encode(order, e, pad)) == Some(e)
  {
    NetEventLayout();
    var record, fields := Encode(order, e, pad), FieldBytes(order, e);
    var f := FieldsOf(record);
    forall i | 0 <= i < 14 ensures f[i] == fields[i] {
      FieldIsAtItsOffset(fields, SLOTS, pad, 14, i);
    }
    assert f == fields;
    FieldsRoundTrip(order, e);
  }

  /** Where each field of an event is in its record. */
  lemma EventBytes(order: Endian, e: NetEvent, pad: nat -> Byte)
    ensures var record := Encode(order, e, pad);
            && |record| == SIZE
            && record[0..8] == ToNE(order, e.timestampNs, 8) && record[8..16] == ToNE(order, e.socketId, 8)
            && record[16..20] == ToNE(order, e.pid, 4) && record[20..24] == ToNE(order, e.tid, 4)
            && record[24..28] == ToNE(order, e.uid, 4)
            && record[28..29] == [EventCode(e.event)] && record[29..30] == [ProtocolCode(e.protocol)]
            && record[30..31] == [DirectionCode(e.direction)]
            && record[31..47] == e.comm && record[47..63] == e.srcIp && record[63..79] == e.dstIp
            && record[79] == pad(79)
            && record[80..82] == ToNE(order, e.srcPort, 2) && record[82..84] == ToNE(order, e.dstPort, 2)
            && record[84..88] == ToNE(order, Unsigned(e.ret), 4)
  {
    NetEventLayout();
    var fields := FieldBytes(order, e);
    forall i | 0 <= i < 14
      ensures Offset(SLOTS, i) + SLOTS[i].size <= SIZE
      ensures Encode(order, e, pad)[Offset(SLOTS, i)..Offset(SLOTS, i) + SLOTS[i].size] == fields[i]
    {
      FieldIsAtItsOffset(fields, SLOTS, pad, 14, i);
    }
    GapIsPadding(fields, SLOTS, pad, 14, 11, 79);
  }

  /** Where each field is taken from. */
  lemma FieldsByBytes(record: seq<Byte>)
    requires |record| == 88
    ensures var f := FieldsOf(record);
            && |f| == 14
            && f[0] == record[0..8] && f[1] == record[8..16]
            && f[2] == record[16..20] && f[3] == record[20..24] && f[4] == record[24..28]
            && f[5] == record[28..29] && f[6] == record[29..30] && f[7] == record[30..31]
            && f[8] == record[31..47] && f[9] == record[47..63] && f[10] == record[63..79]
            && f[11] == record[80..82] && f[12] == record[82..84] && f[13] == record[84..88]
  {
    NetEventLayout();
  }

  /** What the three code bytes say; with any other code there is no event. */
  lemma CodesByBytes(order: Endian, f: seq<seq<Byte>>)
    requires Fits(f, SLOTS)
    ensures |f[5]| == 1 && |f[6]| == 1 && |f[7]| == 1
    ensures FromFields(order, f).Some? <==> f[5][0] <= 8 && f[6][0] in {0, 6, 17} && f[7][0] <= 2
    ensures FromFields(order, f).Some? ==>
              var e := FromFields(order, f).value;
              && e.event == [Unknown, Connect, Accept, Send, Recv, Close, StateChange, Dns, TlsHandshake][f[5][0]]
              && e.protocol == (if f[6][0] == 6 then Tcp else if f[6][0] == 17 then Udp else NoProtocol)
              && e.direction == [NoDirection, Ingress, Egress][f[7][0]]
  {
  }

  /** A record of 88 bytes is an event exactly when its three codes are among those of their enumerations. */
  lemma DecodesIff(order: Endian, record: seq<Byte>)
    requires |record| == 88
    ensures Decode(order, record).Some? <==> record[28] <= 8 && record[29] in {0, 6, 17} && record[30] <= 2
  {
    FieldsByBytes(record);
    CodesByBytes(order, FieldsOf(record));
  }

  /** What those codes say. */
  lemma DecodedCodes(order: Endian, record: seq<Byte>, e: NetEvent)
    requires |record| == 88 && Decode(order, record) == Some(e)
    ensures record[28] <= 8 && record[30] <= 2
    ensures e.event == [Unknown, Connect, Accept, Send, Recv, Close, StateChange, Dns, TlsHandshake][record[28]]
    ensures e.protocol == if record[29] == 6 then Tcp else if record[29] == 17 then Udp else NoProtocol
    ensures e.direction == [NoDirection, Ingress, Egress][record[30]]
  {
    FieldsByBytes(record);
    CodesByBytes(order, FieldsOf(record));
  }

  /** Every other field is read from its own bytes. */
  lemma DecodedByBytes(order: Endian, record: seq<Byte>, e: NetEvent)
    requires |record| == 88 && Decode(order, record) == Some(e)
    ensures e.timestampNs == FromNE(order, record[0..8]) && e.socketId == FromNE(order, record[8..16])
    ensures e.pid == FromNE(order, record[16..20]) && e.tid == FromNE(order, record[20..24])
    ensures e.uid == FromNE(order, record[24..28])
    ensures e.comm == record[31..47] && e.srcIp == record[47..63] && e.dstIp == record[63..79]
    ensures e.srcPort == FromNE(order, record[80..82]) && e.dstPort == FromNE(order, record[82..84])
    ensures e.ret == FromNE(order, record[84..88]) - if e.ret < 0 then 0x1_0000_0000 else 0
  {
    FieldsByBytes(record);
  }

  // ----- Filling an event from a socket -----

  const AF_INET: U16 := 2
  const AF_INET6: U16 := 10

  /** The fields of a kernel socket the program copies, as the machine loads them. */
  datatype SockCommon = SockCommon(
    family: U16, rcvSaddr: U32, daddr: U32, v6RcvSaddr: Bytes16, v6Daddr: Bytes16, num: U16, dport: U16)

  /** A number stored big endian in memory and loaded natively, put right. */
  function U16FromBE(order: Endian, x: U16): U16 {
    Pow256Values();
    FromBE(ToNE(order, x, 2))
  }

  function Widen(octets: Octets): Bytes16 {
    octets + seq(12, _ => 0)
  }

  function FilledIpv4(order: Endian, e: NetEvent, common: SockCommon): NetEvent {
    e.(srcIp := Widen(ToNE(order, common.rcvSaddr, 4)), dstIp := Widen(ToNE(order, common.daddr, 4)),
       srcPort := common.num, dstPort := U16FromBE(order, common.dport))
  }

  function FilledIpv6(order: Endian, e: NetEvent, common: SockCommon): NetEvent {
    e.(srcIp := common.v6RcvSaddr, dstIp := common.v6Daddr,
       srcPort := common.num, dstPort := U16FromBE(order, common.dport))
  }

  function Filled(order: Endian, e: NetEvent, common: SockCommon): NetEvent {
    if common.family == AF_INET then FilledIpv4(order, e, common)
    else if common.family == AF_INET6 then FilledIpv6(order, e, common)
    else e
  }

  /** Filling changes the addresses and ports of IPv4 and IPv6 sockets, and nothing else of any event. */
  lemma FillingKeeps(order: Endian, e: NetEvent, common: SockCommon)
    ensures var filled := Filled(order, e, common);
            && filled.timestampNs == e.timestampNs && filled.socketId == e.socketId
            && filled.pid == e.pid && filled.tid == e.tid && filled.uid == e.uid
            && filled.event == e.event && filled.protocol == e.protocol && filled.direction == e.direction
            && filled.comm == e.comm && filled.ret == e.ret
            && (common.family !in {2, 10} ==> filled == e)
  {
  }

  class EventBuffer {
    var event: NetEvent

    constructor (event: NetEvent)
      ensures this.event == event
    {
      this.event := event;
    }

    method FillSocket(order: Endian, common: SockCommon)
      modifies this
      ensures event == Filled(order, old(event), common)
    {
      if common.family == AF_INET {
        FillIpv4(order, common);
      } else if common.family == AF_INET6 {
        FillIpv6(order, common);
      }
    }

    method FillIpv4(order: Endian, common: SockCommon)
      modifies this
      ensures event == FilledIpv4(order, old(event), common)
    {
      var zero: Bytes16 := seq(16, _ => 0);
      event := event.(srcIp := zero, dstIp := zero);
      event := event.(srcIp := ToNE(order, common.rcvSaddr, 4) + event.srcIp[4..]);
      event := event.(dstIp := ToNE(order, common.daddr, 4) + event.dstIp[4..]);
      assert zero[4..] == seq(12, _ => 0);
      event := event.(srcPort := common.num);
      event := event.(dstPort := U16FromBE(order, common.dport));
    }

    method FillIpv6(order: Endian, common: SockCommon)
      modifies this
      ensures event == FilledIpv6(order, old(event), common)
    {
      event := event.(srcIp := common.v6RcvSaddr);
      event := event.(dstIp := common.v6Daddr);
      event := event.(srcPort := common.num);
      event := event.(dstPort := U16FromBE(order, common.dport));
    }
  }

  // ----- Showing an address -----

  datatype Ip = V4(octets: Octets) | V6(bytes: Bytes16)

  function IpOf(ip: Bytes16): Ip {
    if forall i :: 4 <= i < 16 ==> ip[i] == 0 then V4(ip[..4])
    else if (forall i :: 0 <= i < 10 ==> ip[i] == 0) && ip[10] == 0xff && ip[11] == 0xff then V4(ip[12..])
    else V6(ip)
  }

  /** The two 16-byte forms an IPv4 address has. */
  predicate Denotes(ip: Bytes16, octets: Octets) {
    ip == octets + seq(12, _ => 0) || ip == seq(10, _ => 0) + [0xff, 0xff] + octets
  }

  /** Shown as an IPv4 address are exactly the two forms of it; everything else is shown as itself. */
  lemma ShownAsIpv4Iff(ip: Bytes16, octets: Octets)
    ensures IpOf(ip) == V4(octets) <==> Denotes(ip, octets)
    ensures IpOf(ip).V6? ==> IpOf(ip) == V6(ip)
  {
    if IpOf(ip) == V4(octets) {
      if forall i :: 4 <= i < 16 ==> ip[i] == 0 {
        assert ip == octets + seq(12, _ => 0);
      } else {
        assert ip == seq(10, _ => 0) + [0xff, 0xff] + octets;
      }
    }
    if ip == octets + seq(12, _ => 0) {
      assert ip[..4] == octets;
    } else if ip == seq(10, _ => 0) + [0xff, 0xff] + octets {
      assert ip[10] == 0xff && ip[12..] == octets;
    }
  }

  /** Two addresses look the same exactly when they are the same or forms of one IPv4 address. */
  lemma ShownAlikeIff(x: Bytes16, y: Bytes16)
    ensures IpOf(x) == IpOf(y) <==> x == y || exists octets :: Denotes(x, octets) && Denotes(y, octets)
  {
    if IpOf(x) == IpOf(y) && IpOf(x).V4? {
      var octets := IpOf(x).octets;
      ShownAsIpv4Iff(x, octets);
      ShownAsIpv4Iff(y, octets);
    } else if IpOf(x) == IpOf(y) {
      ShownAsIpv4Iff(x, [0, 0, 0, 0]);
      ShownAsIpv4Iff(y, [0, 0, 0, 0]);
    }
    if octets: Octets :| Denotes(x, octets) && Denotes(y, octets) {
      ShownAsIpv4Iff(x, octets);
      ShownAsIpv4Iff(y, octets);
    }
  }

  /** An IPv6 socket address is shown as itself unless it is one of the IPv4 forms, as 2001:db8:: is. */
  lemma Ipv6ShownIff(ip: Bytes16)
    ensures IpOf(ip) == V6(ip) <==> !exists octets :: Denotes(ip, octets)
  {
    if IpOf(ip).V4? {
      ShownAsIpv4Iff(ip, IpOf(ip).octets);
    }
    if octets: Octets :| Denotes(ip, octets) {
      ShownAsIpv4Iff(ip, octets);
    }
  }

  /**
   What a socket's memory holds in network order is what filling an IPv4 event makes
   visible, on either byte order: the octets of both addresses and the remote port.
   */
  lemma FilledIpv4Shows(order: Endian, e: NetEvent, common: SockCommon, source: Octets, destination: Octets, port: seq<Byte>)
    requires common.family == 2 && |port| == 2
    requires common.rcvSaddr == FromNE(order, source) && common.daddr == FromNE(order, destination)
    requires common.dport == FromNE(order, port)
    ensures var filled := Filled(order, e, common);
            && IpOf(filled.srcIp) == V4(source) && IpOf(filled.dstIp) == V4(destination)
            && filled.srcPort == common.num && filled.dstPort == FromBE(port)
  {
    NativeWrites(order, source);
    NativeWrites(order, destination);
    NativeWrites(order, port);
    var filled := Filled(order, e, common);
    ShownAsIpv4Iff(filled.srcIp, source);
    ShownAsIpv4Iff(filled.dstIp, destination);
  }

  /** An IPv6 socket's own address bytes, local port and remote port are what filling makes visible. */
  lemma FilledIpv6Shows(order: Endian, e: NetEvent, common: SockCommon, port: seq<Byte>)
    requires common.family == 10 && |port| == 2 && common.dport == FromNE(order, port)
    ensures var filled := Filled(order, e, common);
            && filled.srcIp == common.v6RcvSaddr && filled.dstIp == common.v6Daddr
            && filled.srcPort == common.num && filled.dstPort == FromBE(port)
  {
    NativeWrites(order, port);
  }

  /** The mapped form of 192.0.2.1. */
  lemma MappedFormSample()
    ensures IpOf(seq(10, _ => 0) + [0xff, 0xff, 192, 0, 2, 1]) == V4([192, 0, 2, 1])
  {
    var ip: Bytes16 := seq(10, _ => 0) + [0xff, 0xff, 192, 0, 2, 1];
    assert ip[10] == 0xff && ip[12..] == [192, 0, 2, 1];
  }

  // ----- Process names -----

  /** Length up to the first NUL, or of the whole name. */
  function NameLen(comm: seq<Byte>): (n: nat)
    ensures n <= |comm|
    ensures forall i :: 0 <= i < n ==> comm[i] != 0
    ensures n < |comm| ==> comm[n] == 0
  {
    if comm == [] || comm[0] == 0 then 0 else 1 + NameLen(comm[1..])
  }

  /** The kernel side's scan finds the prefix the monitor's search finds. */
  method CommToStr(comm: Bytes16) returns (name: seq<Byte>)
    ensures name == comm[..NameLen(comm)]
    ensures 0 !in name && name <= comm
    ensures |name| < 16 ==> comm[|name|] == 0
  {
    var len := 16;
    var i := 0;
    while i < 16
      invariant i <= 16 && len == 16
      invariant forall j :: 0 <= j < i ==> comm[j] != 0
    {
      if comm[i] == 0 {
        len := i;
        break;
      }
      i := i + 1;
    }
    name := comm[..len];
  }
}
