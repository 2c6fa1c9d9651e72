/**
 From the bytes clients send to the verdict on raw frames: framed requests on sockets and
 Ethernet frames on CPUs meet in one statement.
 */
module EndToEnd {
  import opened Machine
  import opened Dotted
  import opened Requests
  import opened Classifier
  import opened Firewall
  import opened Daemon
  import opened Promises

  /** What clients asked for, and when each request was handled. */
  function Asked(requests: seq<Request>, moments: seq<Instant>): seq<Command>
    requires |requests| == |moments|
  {
    seq(|requests|, i requires 0 <= i < |requests| => Command(requests[i], moments[i]))
  }

  /** Each connection carries one framed request. */
  ghost predicate Sent(codec: Codec, requests: seq<Request>, inputs: seq<Bytes>) {
    && |inputs| == |requests|
    && forall i :: 0 <= i < |inputs| ==>
         |codec.encodeRequest(requests[i])| < TWO_32 && inputs[i] == Frame(codec.encodeRequest(requests[i]))
  }

  /**
   The daemon's side of every conversation reaches the client whole: when each client sends
   one framed request, client i reads a response to its own request by the table of the
   requests before it.
   */
  lemma EveryClientIsAnswered(codec: Codec, dropped: Option<U64>, earlier: seq<Command>, requests: seq<Request>,
                              moments: seq<Instant>, inputs: seq<Bytes>, sent: seq<Bytes>, i: nat)
    requires codec.Faithful() && |requests| == |moments| && Sent(codec, requests, inputs)
    requires i < |sent| == |inputs| && AllAnswered(codec, dropped, earlier, inputs, moments, sent)
    requires 4 < |sent[i]| < 4 + 0x1_0000_0000
    ensures var reply := ReplyOf(codec, sent[i]);
            && reply.Replied?
            && Answers(TableOf(earlier + Asked(requests[..i], moments[..i])), dropped, requests[i], reply.response)
  {
    var frame := Frame(codec.encodeRequest(requests[i]));
    RequestRoundTrip(codec, requests[i], |frame|);
    assert frame[..|frame|] == frame == inputs[i];
    ClientsAreHeard(codec, requests[..i], inputs[..i], moments[..i]);
    assert AnsweredInTurn(codec, dropped, earlier, inputs, moments, i, sent[i]);
    ClientSees(codec, Received(codec, inputs[i]), TableOf(earlier + Asked(requests[..i], moments[..i])), dropped, sent[i]);
  }

  /** The requests handled before some event are the first requests handled at all. */
  lemma {:induction false} CommandsPrefix(run: Run, j: nat)
    requires j <= |run|
    ensures Commands(run[..j]) <= Commands(run)
  {
    if j == |run| {
      assert run[..j] == run;
    } else {
      var init := run[..|run| - 1];
      CommandsPrefix(init, j);
      assert init[..j] == run[..j];
    }
  }

  /** What was handled before an event is what some number of clients asked for, in order. */
  lemma FirstRequests(codec: Codec, requests: seq<Request>, moments: seq<Instant>, inputs: seq<Bytes>, run: Run, j: nat)
    returns (n: nat)
    requires codec.Faithful() && |requests| == |moments| && Sent(codec, requests, inputs)
    requires j <= |run| && Commands(run) == CommandsOf(codec, inputs, moments)
    ensures n <= |requests| && Commands(run[..j]) == Asked(requests[..n], moments[..n])
  {
    ClientsAreHeard(codec, requests, inputs, moments);
    CommandsPrefix(run, j);
    n := |Commands(run[..j])|;
    assert Commands(run[..j]) == Asked(requests, moments)[..n] == Asked(requests[..n], moments[..n]);
  }

  /**
   Clients send framed requests, the daemon serves their connections in some order among
   the packets, and a CPU hands back a verdict on a frame built around an IPv4 packet from
   some source. Then the frame is dropped exactly when, of the first n requests, the last
   one whose text is the dotted decimal of the frame's source octets is a ban that has not
   run out, if and only if those requests are trusted for the source; and exactly when it
   is one whose promised time to live has not run out, if and only if KeptAt holds of them.
   The n requests are those handled before the packet's own lookup.
   */
  lemma BytesToVerdict(codec: Codec, requests: seq<Request>, moments: seq<Instant>, inputs: seq<Bytes>,
                       boot: System, run: Run, i: nat, r: Report, e: Ethernet, ip: Ipv4)
    returns (h: nat, j: nat, n: nat)
    requires codec.Faithful() && |requests| == |moments| && Sent(codec, requests, inputs)
    requires Booted(boot) && i < |run| && Commands(run) == CommandsOf(codec, inputs, moments)
    requires Ends(boot, run, i, r) && Carries(r.packet, e, ip, ip.source)
    ensures !run[i].Serve? && j <= i && Passage(run, run[i].cpu, r.packet, r.now, h, j, i)
    ensures n <= |requests| && Commands(run[..j]) == Asked(requests[..n], moments[..n])
    ensures var asked, text := Asked(requests[..n], moments[..n]), Text(ip.source);
            && ((r.action == Drop <==> Demanded(asked, text, r.now)) <==> Trusted(asked, ip.source, r.now))
            && ((r.action == Drop <==> Promised(asked, text, r.now)) <==> KeptAt(asked, ip.source, r.now))
  {
    AskIff(r.packet, ip.source);
    h, j := TableVerdicts(boot, run, i, r);
    n := FirstRequests(codec, requests, moments, inputs, run, j);
    BlocksIffDemandedIff(Commands(run[..j]), ip.source, r.now);
    BlocksIffPromisedIff(Commands(run[..j]), ip.source, r.now);
  }
}
