/**
 The packet program's header walk: a cursor over raw memory with a bounds check before
 every read, and the frame formats it is meant to recognise (Ethernet II; section 3.1 of
 RFC 791; section 3.1 of RFC 9293; RFC 768, "Format").
 */
module Classifier {
  import opened Machine

  const ETH_LEN: nat := 14
  const IPV4_LEN: nat := 20
  const TCP_LEN: nat := 20
  const UDP_LEN: nat := 8
  const TCP: Byte := 6
  const UDP: Byte := 17
  const ETHER_IPV4: seq<Byte> := [0x08, 0x00]
  /** The furthest byte a header read can need. */
  const REACH: nat := ETH_LEN + IPV4_LEN + TCP_LEN

  datatype Action = Aborted | Drop | Pass

  /** Either the verdict is settled, or the ban table has to be asked about a source. */
  datatype Parsed = Stop(action: Action) | Ask(source: Octets, port: U16)

  // ----- The cursor code -----

  /** A packet in memory at [data, data + |packet|). */
  datatype XdpContext = XdpContext(data: U64, packet: seq<Byte>) {
    ghost predicate Valid() {
      data + |packet| < TWO_64
    }

    function DataEnd(): U64
      requires Valid()
    {
      data + |packet|
    }

    /** A run of bytes behind a pointer. Reading outside the packet is an error. */
    function Read(at: U64, n: nat): (s: seq<Byte>)
      requires Valid()
      requires data <= at && at + n <= DataEnd()
      ensures |s| == n
    {
      packet[at - data..at - data + n]
    }
  }

  /** A pointer to len bytes at an offset, unless they reach past the end of the packet. */
  function PtrAt(ctx: XdpContext, offset: nat, len: nat): Option<U64>
    requires ctx.Valid()
  {
    var start := Wrap64(ctx.data + offset);
    if Wrap64(start + len) > ctx.DataEnd() then None else Some(start)
  }

  /** Address sums up to the furthest header byte do not wrap. */
  predicate NoWrap(ctx: XdpContext) {
    ctx.data + REACH < TWO_64
  }

  lemma PtrAtIsBoundsCheck(ctx: XdpContext, offset: nat, len: nat)
    requires ctx.Valid() && ctx.data + offset + len < TWO_64
    ensures PtrAt(ctx, offset, len) ==
            if offset + len <= |ctx.packet| then Some(ctx.data + offset) else None
  {
    assert Wrap64(ctx.data + offset) == ctx.data + offset;
  }

  /**
   A pointer is given to bytes beyond the packet exactly when their exact end address needs
   more than 64 bits and its low 64 bits fall at or before the end of the packet.
   */
  lemma PtrAtOutsideIff(ctx: XdpContext, offset: nat, len: nat)
    requires ctx.Valid()
    ensures PtrAt(ctx, offset, len).Some? && ctx.data + offset + len > ctx.DataEnd() <==>
            ctx.data + offset + len >= TWO_64 && Wrap64(ctx.data + offset + len) <= ctx.DataEnd()
  {
    assert Wrap64(Wrap64(ctx.data + offset) + len) == Wrap64(ctx.data + offset + len);
  }

  /** Eight bytes at the top of memory: the IPv4 header check passes although no header is there. */
  lemma TopOfMemoryPacket()
    ensures var ctx := XdpContext(0xFFFF_FFFF_FFFF_FFF0, seq(8, _ => 0));
            ctx.Valid() && !NoWrap(ctx) && PtrAt(ctx, ETH_LEN, IPV4_LEN).Some?
            && ctx.data + ETH_LEN + IPV4_LEN > ctx.DataEnd()
  {
    PtrAtOutsideIff(XdpContext(0xFFFF_FFFF_FFFF_FFF0, seq(8, _ => 0)), ETH_LEN, IPV4_LEN);
  }

  /** The steps of the packet program up to the table lookup. Every read is inside the packet. */
  function Walk(ctx: XdpContext): Parsed
    requires ctx.Valid() && NoWrap(ctx)
  {
    PtrAtIsBoundsCheck(ctx, 0, ETH_LEN);
    match PtrAt(ctx, 0, ETH_LEN)
    case None => Stop(Aborted)
    case Some(eth) => if ctx.Read(eth + 12, 2) == ETHER_IPV4 then WalkIpv4(ctx) else Stop(Pass)
  }

  function WalkIpv4(ctx: XdpContext): Parsed
    requires ctx.Valid() && NoWrap(ctx)
  {
    PtrAtIsBoundsCheck(ctx, ETH_LEN, IPV4_LEN);
    match PtrAt(ctx, ETH_LEN, IPV4_LEN)
    case None => Stop(Aborted)
    case Some(ip) =>
      var source: Octets := ctx.Read(ip + 12, 4);
      var proto := ctx.Read(ip + 9, 1)[0];
      if proto == TCP then WalkTransport(ctx, source, TCP_LEN)
      else if proto == UDP then WalkTransport(ctx, source, UDP_LEN)
      else Stop(Aborted)
  }

  /** The source port is the first field of either transport header. */
  function WalkTransport(ctx: XdpContext, source: Octets, len: nat): Parsed
    requires ctx.Valid() && NoWrap(ctx) && 2 <= len <= TCP_LEN
  {
    PtrAtIsBoundsCheck(ctx, ETH_LEN + IPV4_LEN, len);
    Pow256Values();
    match PtrAt(ctx, ETH_LEN + IPV4_LEN, len)
    case None => Stop(Aborted)
    case Some(header) => Ask(source, FromBE(ctx.Read(header, 2)))
  }

  // ----- The formats -----

  datatype Ethernet = Ethernet(destination: seq<Byte>, source: seq<Byte>, etherType: seq<Byte>, payload: seq<Byte>) {
    predicate Valid() {
      |destination| == 6 && |source| == 6 && |etherType| == 2
    }
    function Bytes(): seq<Byte> {
      destination + source + etherType + payload
    }
  }

  /**
   An IPv4 packet as its first twenty bytes and everything after them. The nine leading
   bytes hold version, header length, service type, total length, identification,
   fragmentation and time to live.
   */
  datatype Ipv4 = Ipv4(lead: seq<Byte>, protocol: Byte, checksum: seq<Byte>, source: Octets, destination: Octets, rest: seq<Byte>) {
    predicate Valid() {
      |lead| == 9 && |checksum| == 2
    }
    function Bytes(): seq<Byte> {
      lead + [protocol] + checksum + source + destination + rest
    }
  }

  /** Bytes a transport header needs; a protocol with none is not accepted. */
  function TransportLen(protocol: Byte): Option<nat> {
    if protocol == TCP then Some(TCP_LEN) else if protocol == UDP then Some(UDP_LEN) else None
  }

  /** What the formats say of a packet. */
  function Meaning(ip: Ipv4): Parsed {
    match TransportLen(ip.protocol)
    case Some(n) =>
      if |ip.rest| < n then Stop(Aborted)
      else
        Pow256Values();
        Ask(ip.source, FromBE(ip.rest[..2]))
    case None => Stop(Aborted)
  }

  function EthernetOf(p: seq<Byte>): (e: Ethernet)
    requires |p| >= ETH_LEN
    ensures e.Valid() && e.Bytes() == p
  {
    Ethernet(p[..6], p[6..12], p[12..14], p[14..])
  }

  function Ipv4Of(p: seq<Byte>): (ip: Ipv4)
    requires |p| >= IPV4_LEN
    ensures ip.Valid() && ip.Bytes() == p
  {
    Ipv4(p[..9], p[9], p[10..12], p[12..16], p[16..20], p[20..])
  }

  /** The declarative verdict on a byte string. */
  function Classify(p: seq<Byte>): Parsed {
    if |p| < ETH_LEN then Stop(Aborted)
    else
      var e := EthernetOf(p);
      if e.etherType != ETHER_IPV4 then Stop(Pass)
      else if |e.payload| < IPV4_LEN then Stop(Aborted)
      else Meaning(Ipv4Of(e.payload))
  }

  lemma WalkTransportRefines(ctx: XdpContext, source: Octets, len: nat)
    requires ctx.Valid() && NoWrap(ctx) && 2 <= len <= TCP_LEN && |ctx.packet| >= ETH_LEN + IPV4_LEN
    ensures Pow256(2) == TWO_16
    ensures var rest := ctx.packet[ETH_LEN..][IPV4_LEN..];
            WalkTransport(ctx, source, len) == if |rest| < len then Stop(Aborted) else Ask(source, FromBE(rest[..2]))
  {
    Pow256Values();
    PtrAtIsBoundsCheck(ctx, ETH_LEN + IPV4_LEN, len);
    var rest := ctx.packet[ETH_LEN..][IPV4_LEN..];
    if |rest| >= len {
      assert rest[..2] == ctx.packet[34..36];
    }
  }

  lemma WalkIpv4Refines(ctx: XdpContext)
    requires ctx.Valid() && NoWrap(ctx) && |ctx.packet| >= ETH_LEN
    ensures var payload := ctx.packet[ETH_LEN..];
            WalkIpv4(ctx) == if |payload| < IPV4_LEN then Stop(Aborted) else Meaning(Ipv4Of(payload))
  {
    PtrAtIsBoundsCheck(ctx, ETH_LEN, IPV4_LEN);
    var payload := ctx.packet[ETH_LEN..];
    if |payload| >= IPV4_LEN {
      var source: Octets := payload[12..16];
      assert source == ctx.packet[26..30] && payload[9] == ctx.packet[23];
      WalkTransportRefines(ctx, source, TCP_LEN);
      WalkTransportRefines(ctx, source, UDP_LEN);
    }
  }

  /** On every packet in memory the cursor code gives the declarative verdict. */
  lemma WalkRefinesClassify(ctx: XdpContext)
    requires ctx.Valid() && NoWrap(ctx)
    ensures Walk(ctx) == Classify(ctx.packet)
  {
    PtrAtIsBoundsCheck(ctx, 0, ETH_LEN);
    if |ctx.packet| >= ETH_LEN {
      WalkIpv4Refines(ctx);
    }
  }

  lemma EthernetUnique(e: Ethernet)
    requires e.Valid()
    ensures |e.Bytes()| >= ETH_LEN && EthernetOf(e.Bytes()) == e
  {
    var p := e.Bytes();
    assert p[..6] == e.destination && p[6..12] == e.source && p[12..14] == e.etherType && p[14..] == e.payload;
  }

  lemma Ipv4Unique(ip: Ipv4)
    requires ip.Valid()
    ensures |ip.Bytes()| >= IPV4_LEN && Ipv4Of(ip.Bytes()) == ip
  {
    var p := ip.Bytes();
    assert p[..9] == ip.lead && p[9] == ip.protocol && p[10..12] == ip.checksum;
    assert p[12..16] == ip.source && p[16..20] == ip.destination && p[20..] == ip.rest;
  }

  /** Building a frame and classifying it returns the meaning of the fields it was built from. */
  lemma ClassifyFrame(e: Ethernet, ip: Ipv4)
    requires e.Valid() && ip.Valid() && e.payload == ip.Bytes()
    ensures Classify(e.Bytes()) == if e.etherType == ETHER_IPV4 then Meaning(ip) else Stop(Pass)
  {
    EthernetUnique(e);
    Ipv4Unique(ip);
  }

  /** A complete TCP or UDP packet over IPv4 from a source, in an Ethernet frame. */
  predicate Carries(p: seq<Byte>, e: Ethernet, ip: Ipv4, source: Octets) {
    && e.Valid() && ip.Valid() && p == e.Bytes() && e.payload == ip.Bytes()
    && e.etherType == ETHER_IPV4 && ip.source == source
    && TransportLen(ip.protocol).Some? && TransportLen(ip.protocol).value <= |ip.rest|
  }

  /** The table is asked about a source exactly for complete TCP or UDP frames from it. */
  lemma AskIff(p: seq<Byte>, source: Octets)
    ensures Classify(p).Ask? && Classify(p).source == source <==> exists e, ip :: Carries(p, e, ip, source)
  {
    if Classify(p).Ask? && Classify(p).source == source {
      var e := EthernetOf(p);
      assert Carries(p, e, Ipv4Of(e.payload), source);
    }
    if e, ip :| Carries(p, e, ip, source) {
      ClassifyFrame(e, ip);
    }
  }

  /** The source and the port asked about and logged are read from their own bytes. */
  lemma AskByBytes(p: seq<Byte>)
    requires Classify(p).Ask?
    ensures |p| >= 42
    ensures Classify(p).source == p[26..30] && Classify(p).port == p[34] as int * 0x100 + p[35]
  {
    assert p[14..][12..16] == p[26..30];
    assert p[14..][20..][..2] == [p[34], p[35]];
    ByteOrders(p[34], p[35]);
  }

  /** Equal but for the logged port. */
  predicate SameQuestion(x: Parsed, y: Parsed) {
    match x
    case Stop(a) => y == Stop(a)
    case Ask(s, _) => y.Ask? && y.source == s
  }

  /**
   Nothing but the length, the ether type, the protocol and the source address of a packet
   can influence its verdict: not the header length, options, fragmentation, ports or payload.
   */
  lemma NonInterference(p: seq<Byte>, q: seq<Byte>)
    requires |p| == |q|
    requires |p| >= ETH_LEN ==> p[12..14] == q[12..14]
    requires |p| >= ETH_LEN + IPV4_LEN ==> p[23] == q[23] && p[26..30] == q[26..30]
    ensures SameQuestion(Classify(p), Classify(q))
  {
    if |p| >= ETH_LEN + IPV4_LEN {
      assert p[14..][12..16] == p[26..30] && q[14..][12..16] == q[26..30];
    }
  }
}
