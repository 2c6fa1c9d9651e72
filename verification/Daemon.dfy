/**
 The daemon: one request per connection, length-prefixed both ways, answered from and
 written to the shared maps. The text format of a request is a parameter.
 */
module Daemon {
  import opened Machine
  import opened BanTable
  import opened Dotted
  import opened Requests
  import opened BpfMap
  import Xdp

  type Bytes = seq<Byte>

  // ----- Framing -----

  /** A payload behind its length, which is cut to 32 bits. */
  function Frame(payload: Bytes): Bytes {
    ToBE(|payload| % TWO_32, 4) + payload
  }

  /** The payload and what follows it, once the whole of both length and payload is there. */
  function ReadFrame(stream: Bytes): Option<(Bytes, Bytes)> {
    if |stream| < 4 then None
    else
      var len := FromBE(stream[..4]);
      if |stream| < 4 + len then None else Some((stream[4..4 + len], stream[4 + len..]))
  }

  lemma FrameParts(payload: Bytes)
    ensures |Frame(payload)| == 4 + |payload|
    ensures FromBE(Frame(payload)[..4]) == |payload| % TWO_32
    ensures Frame(payload)[4..] == payload
  {
    Pow256Values();
    BigEndianReads(|payload| % TWO_32, 4);
    assert Frame(payload)[..4] == ToBE(|payload| % TWO_32, 4);
  }

  /** On the wire: the length in network order, then the payload. */
  lemma FrameBytes(payload: Bytes)
    requires |payload| < 0x1_0000_0000
    ensures Frame(payload)[4..] == payload
    ensures var f := Frame(payload);
            |f| >= 4 && f[0] as int * 0x100_0000 + f[1] as int * 0x1_0000 + f[2] as int * 0x100 + f[3] as int == |payload|
  {
    FrameParts(payload);
    NetworkOrder(Frame(payload)[..4]);
  }

  lemma ReadsDeclaredLength(payload: Bytes, rest: Bytes)
    ensures var body, len := payload + rest, |payload| % TWO_32;
            len <= |body| && ReadFrame(Frame(payload) + rest) == Some((body[..len], body[len..]))
  {
    FrameParts(payload);
    var stream, len := Frame(payload) + rest, |payload| % TWO_32;
    assert stream[..4] == Frame(payload)[..4];
    assert stream[4..] == payload + rest;
    assert stream[4..4 + len] == stream[4..][..len] && stream[4 + len..] == stream[4..][len..];
  }

  /** A frame is read back, with what follows left alone, exactly when its length fits in 32 bits. */
  lemma FrameRoundTripIff(payload: Bytes, rest: Bytes)
    ensures ReadFrame(Frame(payload) + rest) == Some((payload, rest)) <==> |payload| < TWO_32
  {
    ReadsDeclaredLength(payload, rest);
    var body, len := payload + rest, |payload| % TWO_32;
    if |payload| < TWO_32 {
      assert body[..|payload|] == payload && body[|payload|..] == rest;
    } else {
      assert |body[..len]| < |payload|;
    }
  }

  /** Whatever is read was framed: nothing else on the stream reads the same. */
  lemma ReadIsFramed(stream: Bytes)
    requires ReadFrame(stream).Some?
    ensures var (payload, rest) := ReadFrame(stream).value; stream == Frame(payload) + rest
  {
    Pow256Values();
    BigEndianWrites(stream[..4]);
    assert stream == stream[..4] + stream[4..];
  }

  /** No strict prefix of a frame is taken for a request. */
  lemma PartialFrameIsNotRead(payload: Bytes, n: nat)
    requires |payload| < TWO_32 && n < |Frame(payload)|
    ensures ReadFrame(Frame(payload)[..n]) == None
  {
    FrameParts(payload);
    if n >= 4 {
      assert Frame(payload)[..n][..4] == Frame(payload)[..4];
    }
  }

  // ----- Connections -----

  /** The daemon's end of a connection: bytes received so far before the peer closes, and bytes sent. */
  class Stream {
    const input: Bytes
    var taken: nat
    var output: Bytes

    ghost predicate Valid()
      reads this
    {
      taken <= |input|
    }

    /** Nothing read and nothing sent yet. */
    ghost predicate New()
      reads this
    {
      taken == 0 && output == []
    }

    ghost function Left(): Bytes
      requires Valid()
      reads this
    {
      input[taken..]
    }

    constructor (input: Bytes)
      ensures New() && this.input == input
    {
      this.input := input;
      taken, output := 0, [];
    }

    method ReadU32() returns (len: Option<U32>)
      requires Valid()
      modifies this`taken
      ensures Valid()
      ensures |old(Left())| < 4 ==> len == None
      ensures |old(Left())| >= 4 ==> len == Some(FromBE(old(Left())[..4])) && Left() == old(Left())[4..]
    {
      if |input| - taken < 4 {
        return None;
      }
      Pow256Values();
      len := Some(FromBE(input[taken..taken + 4]));
      assert input[taken..][..4] == input[taken..taken + 4];
      assert input[taken..][4..] == input[taken + 4..];
      taken := taken + 4;
    }

    /** Fills the whole buffer, or fails when the stream ends first. */
    method ReadExact(buf: array<Byte>) returns (ok: bool)
      requires Valid()
      modifies this`taken, buf
      ensures Valid()
      ensures ok <==> buf.Length <= |old(Left())|
      ensures ok ==> buf[..] == old(Left())[..buf.Length] && Left() == old(Left())[buf.Length..]
    {
      var start := taken;
      var n := 0;
      while n < buf.Length
        invariant n <= buf.Length && taken == start + n <= |input|
        invariant buf[..n] == input[start..start + n]
      {
        if taken == |input| {
          return false;
        }
        buf[n] := input[taken];
        n, taken := n + 1, taken + 1;
      }
      assert buf[..] == input[start..start + n] == input[start..][..n];
      assert input[start..][n..] == input[start + n..];
      return true;
    }

    method Write(bytes: Bytes)
      modifies this`output
      ensures output == old(output) + bytes
    {
      output := output + bytes;
    }
  }

  /** How requests and responses are written to and read from payload bytes. */
  datatype Codec = Codec(
    encodeRequest: Request -> Bytes, decode: Bytes -> Option<Request>,
    encode: Response -> Bytes, decodeResponse: Bytes -> Option<Response>)
  {
    ghost predicate Faithful() {
      && (forall r :: decode(encodeRequest(r)) == Some(r))
      && (forall r :: decodeResponse(encode(r)) == Some(r))
    }
  }

  /** What reached the daemon on one connection; None when no complete payload did. */
  function Received(codec: Codec, input: Bytes): Option<Option<Request>> {
    match ReadFrame(input)
    case None => None
    case Some((payload, _)) => Some(codec.decode(payload))
  }

  /** What a client makes of the bytes that come back. */
  datatype Reply = NoLength | Empty | Truncated | Unreadable | Replied(response: Response)

  function ReplyOf(codec: Codec, stream: Bytes): Reply {
    if |stream| < 4 then NoLength
    else
      var len := FromBE(stream[..4]);
      if len == 0 then Empty
      else if |stream| < 4 + len then Truncated
      else match codec.decodeResponse(stream[4..4 + len])
        case Some(response) => Replied(response)
        case None => Unreadable
  }

  /** The client sees the daemon's response exactly as sent, or an error, never another response. */
  lemma ReplyRoundTrip(codec: Codec, response: Response, n: nat)
    requires codec.Faithful() && |codec.encode(response)| < TWO_32
    requires n <= |Frame(codec.encode(response))|
    ensures ReplyOf(codec, Frame(codec.encode(response))[..n]) ==
            if n < 4 then NoLength
            else if codec.encode(response) == [] then Empty
            else if n < |Frame(codec.encode(response))| then Truncated
            else Replied(response)
  {
    var payload := codec.encode(response);
    FrameParts(payload);
    if n >= 4 {
      assert Frame(payload)[..n][..4] == Frame(payload)[..4];
    }
    if n == |Frame(payload)| {
      assert Frame(payload)[..n] == Frame(payload);
      assert Frame(payload)[4..4 + |payload|] == payload;
    }
  }

  /** The daemon receives the client's request exactly as sent, or nothing at all. */
  lemma RequestRoundTrip(codec: Codec, request: Request, n: nat)
    requires codec.Faithful() && |codec.encodeRequest(request)| < TWO_32
    requires n <= |Frame(codec.encodeRequest(request))|
    ensures Received(codec, Frame(codec.encodeRequest(request))[..n]) ==
            if n < |Frame(codec.encodeRequest(request))| then None else Some(Some(request))
  {
    var payload := codec.encodeRequest(request);
    if n < |Frame(payload)| {
      PartialFrameIsNotRead(payload, n);
    } else {
      assert Frame(payload)[..n] == Frame(payload) + [];
      FrameRoundTripIff(payload, []);
    }
  }

  /** The command a connection amounts to, if it carries one. */
  function CommandOf(codec: Codec, input: Bytes, at: Instant): seq<Command> {
    match Received(codec, input)
    case Some(Some(request)) => [Command(request, at)]
    case _ => []
  }

  function CommandsOf(codec: Codec, inputs: seq<Bytes>, moments: seq<Instant>): seq<Command>
    requires |inputs| == |moments|
  {
    if inputs == [] then []
    else
      var n := |inputs| - 1;
      CommandsOf(codec, inputs[..n], moments[..n]) + CommandOf(codec, inputs[n], moments[n])
  }

  /** Clients that each send one framed request are all heard, in order, as exactly those requests. */
  lemma {:induction false} ClientsAreHeard(codec: Codec, requests: seq<Request>, inputs: seq<Bytes>, moments: seq<Instant>)
    requires codec.Faithful() && |requests| == |inputs| == |moments|
    requires forall i :: 0 <= i < |inputs| ==>
               |codec.encodeRequest(requests[i])| < TWO_32 && inputs[i] == Frame(codec.encodeRequest(requests[i]))
    ensures CommandsOf(codec, inputs, moments) == seq(|requests|, i requires 0 <= i < |requests| => Command(requests[i], moments[i]))
  {
    if inputs != [] {
      var n := |inputs| - 1;
      ClientsAreHeard(codec, requests[..n], inputs[..n], moments[..n]);
      var frame := Frame(codec.encodeRequest(requests[n]));
      RequestRoundTrip(codec, requests[n], |frame|);
      assert frame[..|frame|] == frame;
    }
  }

  lemma OneMoreConnection(codec: Codec, inputs: seq<Bytes>, moments: seq<Instant>, n: nat)
    requires n < |inputs| == |moments|
    ensures CommandsOf(codec, inputs[..n + 1], moments[..n + 1]) ==
            CommandsOf(codec, inputs[..n], moments[..n]) + CommandOf(codec, inputs[n], moments[n])
  {
    assert inputs[..n + 1][..n] == inputs[..n] && moments[..n + 1][..n] == moments[..n];
  }

  /** What a connection is sent: nothing, an error for unreadable bytes, or one framed answer to its request. */
  ghost predicate Answered(codec: Codec, received: Option<Option<Request>>, t: Table, dropped: Option<U64>, before: Bytes, after: Bytes) {
    match received
    case None => after == before
    case Some(None) => after == before + Frame(codec.encode(Error("invalid request")))
    case Some(Some(request)) =>
      exists response :: Answers(t, dropped, request, response) && after == before + Frame(codec.encode(response))
  }

  /** Connection i was sent what the table of everything handled before it has to say. */
  ghost predicate AnsweredInTurn(codec: Codec, dropped: Option<U64>, earlier: seq<Command>, inputs: seq<Bytes>,
                                 moments: seq<Instant>, i: nat, output: Bytes)
    requires i < |inputs| == |moments|
  {
    Answered(codec, Received(codec, inputs[i]), TableOf(earlier + CommandsOf(codec, inputs[..i], moments[..i])),
             dropped, [], output)
  }

  /** Every connection so far was answered in its turn. */
  ghost predicate AllAnswered(codec: Codec, dropped: Option<U64>, earlier: seq<Command>, inputs: seq<Bytes>,
                              moments: seq<Instant>, sent: seq<Bytes>)
    requires |sent| <= |inputs| == |moments|
  {
    forall i :: 0 <= i < |sent| ==> AnsweredInTurn(codec, dropped, earlier, inputs, moments, i, sent[i])
  }

  lemma OneMoreAnswered(codec: Codec, dropped: Option<U64>, earlier: seq<Command>, inputs: seq<Bytes>,
                        moments: seq<Instant>, sent: seq<Bytes>, latest: Bytes)
    requires |sent| < |inputs| == |moments|
    requires AllAnswered(codec, dropped, earlier, inputs, moments, sent)
    requires AnsweredInTurn(codec, dropped, earlier, inputs, moments, |sent|, latest)
    ensures AllAnswered(codec, dropped, earlier, inputs, moments, sent + [latest])
  {
  }

  /**
   What the client makes of an answer. Without a complete request it gets no answer, for
   bytes that are not a request it gets that error, and for a request a response to it.
   */
  lemma ClientSees(codec: Codec, received: Option<Option<Request>>, t: Table, dropped: Option<U64>, output: Bytes)
    requires codec.Faithful() && Answered(codec, received, t, dropped, [], output)
    requires output == [] || 4 < |output| < 4 + 0x1_0000_0000
    ensures received == None ==> ReplyOf(codec, output) == NoLength
    ensures received == Some(None) ==> ReplyOf(codec, output) == Replied(Error("invalid request"))
    ensures received.Some? && received.value.Some? ==>
              var reply := ReplyOf(codec, output);
              reply.Replied? && Answers(t, dropped, received.value.value, reply.response)
  {
    if received == Some(None) {
      WholeReply(codec, Error("invalid request"), output);
    } else if received.Some? {
      var response :| Answers(t, dropped, received.value.value, response) && output == [] + Frame(codec.encode(response));
      WholeReply(codec, response, output);
    }
  }

  lemma WholeReply(codec: Codec, response: Response, output: Bytes)
    requires codec.Faithful() && output == Frame(codec.encode(response))
    requires output == [] || 4 < |output| < 4 + 0x1_0000_0000
    ensures ReplyOf(codec, output) == Replied(response)
  {
    FrameParts(codec.encode(response));
    ReplyRoundTrip(codec, response, |output|);
    assert output[..|output|] == output;
  }

  class Server {
    const bannedIps: HashMap<U64>
    const stats: HashMap<U64>
    const codec: Codec
    /** Every command handled since the maps were created. */
    ghost var history: seq<Command>

    ghost predicate Valid()
      reads this, bannedIps, stats
    {
      && bannedIps != stats
      && bannedIps.maxEntries == MAX_ENTRIES
      && bannedIps.Valid()
      && bannedIps.entries == TableOf(history)
    }

    constructor (codec: Codec)
      ensures Valid() && history == [] && this.codec == codec
      ensures fresh(bannedIps) && fresh(stats) && bannedIps.entries == map[] && stats.entries == map[]
    {
      bannedIps := new HashMap(MAX_ENTRIES);
      stats := new HashMap(MAX_ENTRIES);
      this.codec := codec;
      history := [];
    }

    method Handle(request: Request, at: Instant) returns (response: Response)
      requires Valid()
      modifies bannedIps, this`history
      ensures Valid() && history == old(history) + [Command(request, at)]
      ensures bannedIps.entries == After(old(bannedIps.entries), Command(request, at))
      ensures Answers(old(bannedIps.entries), Xdp.Counter(stats.entries), request, response)
      ensures request.Stats? ==>
                response == Figures(if 0 in stats.entries then "Packets dropped: " + Decimal(stats.entries[0]) else "No stats")
    {
      TableStep(history, Command(request, at));
      match request {
        case Ban(target, ttl) =>
          response := HandleBan(target, ttl, at);
        case Unban(target) =>
          response := HandleUnban(target, at);
        case List =>
          var list := Keys();
          response := Listed(list);
        case Stats =>
          var v := stats.Get(Xdp.DROPPED);
          response := Figures(StatsText(v));
      }
      history := history + [Command(request, at)];
    }

    method HandleBan(target: string, ttl: Option<U64>, at: Instant) returns (response: Response)
      requires bannedIps.maxEntries == MAX_ENTRIES && bannedIps.Valid()
      modifies bannedIps
      ensures bannedIps.Valid()
      ensures bannedIps.entries == After(old(bannedIps.entries), Command(Ban(target, ttl), at))
      ensures response == if Parse(target).Some? then Ok else Error("invalid ip")
    {
      match Parse(target) {
        case Some(ip) =>
          var now := at.wall;
          var endTime := match ttl case Some(t) => Wrap64(now + Wrap64(t * NANOS)) case None => 0;
          var _ := bannedIps.Insert(Key(ip), endTime);
          response := Ok;
        case None =>
          response := Error("invalid ip");
      }
    }

    method HandleUnban(target: string, ghost at: Instant) returns (response: Response)
      requires bannedIps.Valid()
      modifies bannedIps
      ensures bannedIps.Valid()
      ensures bannedIps.entries == After(old(bannedIps.entries), Command(Unban(target), at))
      ensures response == if Parse(target).Some? then Ok else Error("invalid ip")
    {
      match Parse(target) {
        case Some(ip) =>
          var _ := bannedIps.Remove(Key(ip));
          response := Ok;
        case None =>
          response := Error("invalid ip");
      }
    }

    /** Walks the keys in whatever order the map yields them. */
    method Keys() returns (list: seq<string>)
      ensures ListsExactly(list, bannedIps.entries)
    {
      list := [];
      var left := bannedIps.entries.Keys;
      ghost var done: Table := map[];
      while left != {}
        invariant left <= bannedIps.entries.Keys
        invariant done == bannedIps.entries - left
        invariant ListsExactly(list, done)
        decreases |left|
      {
        var ip :| ip in left;
        ListGrows(list, done, ip, bannedIps.entries[ip]);
        done := done[ip := bannedIps.entries[ip]];
        list := list + [Text(OctetsOf(ip))];
        left := left - {ip};
        assert done == bannedIps.entries - left;
      }
      assert done == bannedIps.entries;
    }

    /** One connection: a request that never completes is dropped without an answer. */
    method Serve(stream: Stream, at: Instant)
      requires Valid() && stream.Valid()
      modifies bannedIps, this`history, stream
      ensures Valid() && stream.Valid()
      ensures history == old(history) + CommandOf(codec, old(stream.Left()), at)
      ensures Answered(codec, Received(codec, old(stream.Left())), old(bannedIps.entries), Xdp.Counter(stats.entries),
                       old(stream.output), stream.output)
    {
      assert stream.Left() == old(stream.Left());
      var len := stream.ReadU32();
      if len.None? {
        return;
      }
      var buf := new Byte[len.value];
      var ok := stream.ReadExact(buf);
      if !ok {
        return;
      }
      assert buf[..] == old(stream.Left())[4..4 + len.value];
      var response;
      match codec.decode(buf[..]) {
        case Some(request) =>
          response := Handle(request, at);
        case None =>
          response := Error("invalid request");
      }
      stream.Write(Frame(codec.encode(response)));
    }

    /** Accepts connection n and serves it. */
    method ServeNth(inputs: seq<Bytes>, moments: seq<Instant>, n: nat, ghost earlier: seq<Command>) returns (sent: Bytes)
      requires Valid() && n < |inputs| == |moments|
      requires history == earlier + CommandsOf(codec, inputs[..n], moments[..n])
      modifies bannedIps, this`history
      ensures Valid()
      ensures history == earlier + CommandsOf(codec, inputs[..n + 1], moments[..n + 1])
      ensures AnsweredInTurn(codec, Xdp.Counter(stats.entries), earlier, inputs, moments, n, sent)
    {
      OneMoreConnection(codec, inputs, moments, n);
      var stream := new Stream(inputs[n]);
      assert stream.Left() == inputs[n];
      Serve(stream, moments[n]);
      sent := stream.output;
    }

    /**
     The accept loop: any number of connections, one after the other, each answered from
     the table of all before it.
     */
    method Run(inputs: seq<Bytes>, moments: seq<Instant>) returns (sent: seq<Bytes>)
      requires Valid() && |inputs| == |moments|
      modifies bannedIps, this`history
      ensures Valid()
      ensures history == old(history) + CommandsOf(codec, inputs, moments)
      ensures |sent| == |inputs|
      ensures AllAnswered(codec, Xdp.Counter(stats.entries), old(history), inputs, moments, sent)
    {
      ghost var earlier, dropped := history, Xdp.Counter(stats.entries);
      sent := [];
      var n := 0;
      while n < |inputs|
        invariant |sent| == n <= |inputs| && Valid() && Xdp.Counter(stats.entries) == dropped
        invariant history == earlier + CommandsOf(codec, inputs[..n], moments[..n])
        invariant AllAnswered(codec, dropped, earlier, inputs, moments, sent)
      {
        var latest := ServeNth(inputs, moments, n, earlier);
        OneMoreAnswered(codec, dropped, earlier, inputs, moments, sent, latest);
        sent := sent + [latest];
        n := n + 1;
      }
      assert inputs[..n] == inputs && moments[..n] == moments;
    }
  }
}
