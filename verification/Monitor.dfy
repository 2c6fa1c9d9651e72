/** The monitor's loop: drain the ring, show every event, keep the path cache warm. */
module Monitor {
  import opened Machine
  import opened NetEvents
  import opened ProcessCache

  /** The parts of a printed line that depend on the event. */
  datatype Line = Line(comm: seq<Byte>, pid: U32, protocol: Protocol, event: EventType, ret: I32,
                       source: Ip, sourcePort: U16, destination: Ip, destinationPort: U16)

  function LineOf(e: NetEvent): Line {
    Line(e.comm[..NameLen(e.comm)], e.pid, e.protocol, e.event, e.ret,
         IpOf(e.srcIp), e.srcPort, IpOf(e.dstIp), e.dstPort)
  }

  /** Instants of one cache request: freshness check, read, stamp. */
  datatype Ticks = Ticks(check: nat, read: nat, stamp: nat)

  function CallOf(e: NetEvent, t: Ticks): Call {
    Call(e.pid, t.check, t.read, t.stamp)
  }

  /** How a record is taken to be an event. */
  type Cast = seq<Byte> -> Option<NetEvent>

  /** Every record of an event's size is one. */
  predicate Readable(cast: Cast, ring: seq<seq<Byte>>) {
    forall i :: 0 <= i < |ring| && |ring[i]| == SIZE ==> cast(ring[i]).Some?
  }

  /** One line per record of an event's size, in ring order; other records are passed over. */
  function Lines(cast: Cast, ring: seq<seq<Byte>>): seq<Line>
    requires Readable(cast, ring)
  {
    if ring == [] then []
    else
      var n := |ring| - 1;
      Lines(cast, ring[..n]) + if |ring[n]| == SIZE then [LineOf(cast(ring[n]).value)] else []
  }

  /** The cache requests made for the same records. The clock readings are given per record. */
  function Calls(cast: Cast, ring: seq<seq<Byte>>, ticks: seq<Ticks>): seq<Call>
    requires Readable(cast, ring) && |ticks| == |ring|
  {
    if ring == [] then []
    else
      var n := |ring| - 1;
      Calls(cast, ring[..n], ticks[..n]) + if |ring[n]| == SIZE then [CallOf(cast(ring[n]).value, ticks[n])] else []
  }

  /** The line shows the fields of the event, its name up to the first NUL, and both addresses as they look. */
  predicate Shows(line: Line, e: NetEvent) {
    && 0 !in line.comm && line.comm <= e.comm && (|line.comm| < 16 ==> e.comm[|line.comm|] == 0)
    && line.pid == e.pid && line.protocol == e.protocol && line.event == e.event && line.ret == e.ret
    && line.source == IpOf(e.srcIp) && line.sourcePort == e.srcPort
    && line.destination == IpOf(e.dstIp) && line.destinationPort == e.dstPort
  }

  /**
   A ring of encoded events shows every one of them, in order, whatever their padding
   holds, and asks the cache for the path of each one's process at that record's instants.
   */
  lemma RingRoundTrip(order: Endian, events: seq<NetEvent>, pads: seq<nat -> Byte>, ring: seq<seq<Byte>>, ticks: seq<Ticks>)
    requires |ring| == |pads| == |events| == |ticks|
    requires forall i :: 0 <= i < |ring| ==> ring[i] == Encode(order, events[i], pads[i])
    ensures var cast := r => Decode(order, r);
            Readable(cast, ring) && |Lines(cast, ring)| == |events|
            && (forall i :: 0 <= i < |events| ==> Shows(Lines(cast, ring)[i], events[i]))
            && |Calls(cast, ring, ticks)| == |events|
            && forall i :: 0 <= i < |events| ==>
                 Calls(cast, ring, ticks)[i] == Call(events[i].pid, ticks[i].check, ticks[i].read, ticks[i].stamp)
  {
    forall i | 0 <= i < |ring| ensures |ring[i]| == SIZE && Decode(order, ring[i]) == Some(events[i]) {
      EventRoundTrip(order, events[i], pads[i]);
    }
    AllAreShown(r => Decode(order, r), ring, events);
    AllAreAsked(r => Decode(order, r), ring, events, ticks);
  }

  lemma LineShows(e: NetEvent)
    ensures Shows(LineOf(e), e)
  {
  }

  lemma {:induction false} AllAreShown(cast: Cast, ring: seq<seq<Byte>>, events: seq<NetEvent>)
    requires |ring| == |events|
    requires forall i :: 0 <= i < |ring| ==> |ring[i]| == SIZE && cast(ring[i]) == Some(events[i])
    ensures Readable(cast, ring) && |Lines(cast, ring)| == |events|
    ensures forall i :: 0 <= i < |events| ==> Shows(Lines(cast, ring)[i], events[i])
  {
    if ring != [] {
      var n := |ring| - 1;
      AllAreShown(cast, ring[..n], events[..n]);
      LineShows(events[n]);
    }
  }

  lemma {:induction false} AllAreAsked(cast: Cast, ring: seq<seq<Byte>>, events: seq<NetEvent>, ticks: seq<Ticks>)
    requires |ring| == |events| == |ticks|
    requires forall i :: 0 <= i < |ring| ==> |ring[i]| == SIZE && cast(ring[i]) == Some(events[i])
    ensures Readable(cast, ring) && |Calls(cast, ring, ticks)| == |events|
    ensures forall i :: 0 <= i < |events| ==>
              Calls(cast, ring, ticks)[i] == Call(events[i].pid, ticks[i].check, ticks[i].read, ticks[i].stamp)
  {
    if ring != [] {
      var n := |ring| - 1;
      AllAreAsked(cast, ring[..n], events[..n], ticks[..n]);
    }
  }

  /** One cache request is made for each line, for the process the line names. */
  lemma {:induction false} OneRequestPerLine(cast: Cast, ring: seq<seq<Byte>>, ticks: seq<Ticks>)
    requires Readable(cast, ring) && |ticks| == |ring|
    ensures |Calls(cast, ring, ticks)| == |Lines(cast, ring)|
    ensures forall i :: 0 <= i < |Lines(cast, ring)| ==> Calls(cast, ring, ticks)[i].pid == Lines(cast, ring)[i].pid
  {
    if ring != [] {
      var n := |ring| - 1;
      OneRequestPerLine(cast, ring[..n], ticks[..n]);
    }
  }

  /** A record that is not 88 bytes long shows nothing, wherever it is in the ring. */
  lemma {:induction false} StrayRecordIsSkipped(cast: Cast, before: seq<seq<Byte>>, stray: seq<Byte>, later: seq<seq<Byte>>)
    requires |stray| != 88 && Readable(cast, before + later)
    ensures Readable(cast, before + [stray] + later)
    ensures Lines(cast, before + [stray] + later) == Lines(cast, before + later)
  {
    var with, without := before + [stray] + later, before + later;
    forall i | 0 <= i < |with| && |with[i]| == SIZE ensures cast(with[i]).Some? {
      assert i < |before| ==> with[i] == without[i];
      assert i > |before| ==> with[i] == without[i - 1];
    }
    if later == [] {
      assert with[..|with| - 1] == before == without;
    } else {
      var n := |later| - 1;
      assert with[..|with| - 1] == before + [stray] + later[..n] && with[|with| - 1] == later[n];
      assert without[..|without| - 1] == before + later[..n] && without[|without| - 1] == later[n];
      forall i | 0 <= i < |before + later[..n]| && |(before + later[..n])[i]| == SIZE
        ensures cast((before + later[..n])[i]).Some?
      {
        assert (before + later[..n])[i] == without[i];
      }
      StrayRecordIsSkipped(cast, before, stray, later[..n]);
    }
  }

  /**
   From a TCP socket's memory to the printed line: fill an event from an IPv4 socket, lay
   it out, cast the bytes back, and the line shows the socket's own addresses and ports.
   */
  lemma Ipv4ConnectionIsShown(order: Endian, e: NetEvent, common: SockCommon, source: Octets, destination: Octets,
                              port: seq<Byte>, pad: nat -> Byte)
    requires common.family == 2 && |port| == 2
    requires common.rcvSaddr == FromNE(order, source) && common.daddr == FromNE(order, destination)
    requires common.dport == FromNE(order, port)
    ensures var read := Decode(order, Encode(order, Filled(order, e, common), pad));
            && read.Some?
            && LineOf(read.value).source == V4(source) && LineOf(read.value).sourcePort == common.num
            && LineOf(read.value).destination == V4(destination) && LineOf(read.value).destinationPort == FromBE(port)
  {
    EventRoundTrip(order, Filled(order, e, common), pad);
    FilledIpv4Shows(order, e, common, source, destination, port);
  }

  /**
   An IPv6 socket's line shows its own ports, and its own addresses exactly when neither is
   a form of an IPv4 address.
   */
  lemma Ipv6ConnectionShownIff(order: Endian, e: NetEvent, common: SockCommon, port: seq<Byte>, pad: nat -> Byte)
    requires common.family == 10 && |port| == 2 && common.dport == FromNE(order, port)
    ensures var read := Decode(order, Encode(order, Filled(order, e, common), pad));
            && read.Some?
            && LineOf(read.value).sourcePort == common.num && LineOf(read.value).destinationPort == FromBE(port)
            && (LineOf(read.value).source == V6(common.v6RcvSaddr) && LineOf(read.value).destination == V6(common.v6Daddr)
                <==> forall octets :: !Denotes(common.v6RcvSaddr, octets) && !Denotes(common.v6Daddr, octets))
  {
    EventRoundTrip(order, Filled(order, e, common), pad);
    FilledIpv6Shows(order, e, common, port);
    Ipv6ShownIff(common.v6RcvSaddr);
    Ipv6ShownIff(common.v6Daddr);
  }

  lemma OneMoreRecord(cast: Cast, ring: seq<seq<Byte>>, ticks: seq<Ticks>, n: nat)
    requires n < |ring| && |ticks| == |ring| && Readable(cast, ring)
    ensures Lines(cast, ring[..n + 1]) ==
            Lines(cast, ring[..n]) + if |ring[n]| == SIZE then [LineOf(cast(ring[n]).value)] else []
    ensures Calls(cast, ring[..n + 1], ticks[..n + 1]) ==
            Calls(cast, ring[..n], ticks[..n]) + if |ring[n]| == SIZE then [CallOf(cast(ring[n]).value, ticks[n])] else []
  {
    assert ring[..n + 1][..n] == ring[..n] && ticks[..n + 1][..n] == ticks[..n];
  }

  lemma {:induction false} CallsPrefix(cast: Cast, ring: seq<seq<Byte>>, ticks: seq<Ticks>, n: nat)
    requires n <= |ring| && |ticks| == |ring| && Readable(cast, ring)
    ensures Calls(cast, ring[..n], ticks[..n]) <= Calls(cast, ring, ticks)
    decreases |ring|
  {
    if n == |ring| {
      assert ring[..n] == ring && ticks[..n] == ticks;
    } else {
      var last := |ring| - 1;
      CallsPrefix(cast, ring[..last], ticks[..last], n);
      assert ring[..last][..n] == ring[..n] && ticks[..last][..n] == ticks[..n];
    }
  }

  lemma InOrderPrefixes(earlier: seq<Call>, some: seq<Call>, all: seq<Call>)
    requires InOrder(earlier + all) && some <= all
    ensures InOrder(earlier + some)
  {
    var calls, n := earlier + all, |earlier + some|;
    assert earlier + some == calls[..n];
    forall c | c in calls[..n] ensures c in calls {}
  }

  /** Shows one event, after asking for the path of its process. */
  method PrintEvent(event: NetEvent, cache: Cache, t: Ticks) returns (line: Line)
    requires cache.Valid() && InOrder(cache.calls + [CallOf(event, t)])
    modifies cache
    ensures cache.Valid() && cache.calls == old(cache.calls) + [CallOf(event, t)]
    ensures line == LineOf(event)
  {
    var _, _, _ := cache.Exe(CallOf(event, t));
    line := LineOf(event);
  }

  /** Empties the ring: one line and one cache request per record of the right size, in ring order. */
  method Drain(cast: Cast, ring: seq<seq<Byte>>, cache: Cache, ticks: seq<Ticks>) returns (lines: seq<Line>)
    requires Readable(cast, ring) && |ticks| == |ring|
    requires cache.Valid() && InOrder(cache.calls + Calls(cast, ring, ticks))
    modifies cache
    ensures cache.Valid()
    ensures lines == Lines(cast, ring)
    ensures cache.calls == old(cache.calls) + Calls(cast, ring, ticks)
  {
    ghost var earlier := cache.calls;
    lines := [];
    var n := 0;
    while n < |ring|
      invariant n <= |ring| && cache.Valid()
      invariant lines == Lines(cast, ring[..n])
      invariant cache.calls == earlier + Calls(cast, ring[..n], ticks[..n])
    {
      var bytes := ring[n];
      OneMoreRecord(cast, ring, ticks, n);
      if |bytes| == SIZE {
        var event := cast(bytes).value;
        CallsPrefix(cast, ring, ticks, n + 1);
        InOrderPrefixes(earlier, Calls(cast, ring[..n + 1], ticks[..n + 1]), Calls(cast, ring, ticks));
        assert cache.calls + [CallOf(event, ticks[n])] == earlier + Calls(cast, ring[..n + 1], ticks[..n + 1]);
        var line := PrintEvent(event, cache, ticks[n]);
        lines := lines + [line];
      }
      n := n + 1;
    }
    assert ring[..n] == ring && ticks[..n] == ticks;
  }
}
