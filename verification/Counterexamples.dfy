/**
 Inputs and runs at which the code does not do what its names and help texts say. The
 conditions that they fail are proved exact in the other modules.
 */
module Counterexamples {
  import opened Machine
  import opened BanTable
  import opened Dotted
  import opened Requests
  import opened Classifier
  import opened Firewall
  import opened NetEvents
  import opened Daemon

  /** Permanent bans of the first n addresses. */
  function Bans(n: nat, at: Instant): seq<Command>
    requires n <= MAX_ENTRIES
  {
    seq(n, k requires 0 <= k < n => Command(Ban(Text(OctetsOf(k)), None), at))
  }

  lemma OneMoreBan(n: nat, at: Instant)
    requires n < MAX_ENTRIES
    ensures Bans(n + 1, at) == Bans(n, at) + [Command(Ban(Text(OctetsOf(n)), None), at)]
  {
  }

  lemma OneMoreEntry(n: nat, at: Instant)
    requires n < MAX_ENTRIES && !Refuses(TableOf(Bans(n, at)), n)
    ensures TableOf(Bans(n + 1, at)) == TableOf(Bans(n, at))[n := PERMANENT]
  {
    OneMoreBan(n, at);
    KeyRoundTrip(OctetsOf(n), n);
    BanInserts(Bans(n, at), OctetsOf(n), None, at);
  }

  /** As many addresses as there are below n, and no others. */
  predicate HoldsFirst(t: Table, n: nat) {
    |t| == n && forall k :: k in t ==> k < n
  }

  lemma RoomForNext(t: Table, n: U32, end: U64)
    requires n < MAX_ENTRIES && HoldsFirst(t, n)
    ensures !Refuses(t, n) && HoldsFirst(t[n := end], n + 1)
  {
    assert n !in t;
    assert t[n := end].Keys == t.Keys + {n};
  }

  lemma {:induction false} BansFillTheTable(n: nat, at: Instant)
    requires n <= MAX_ENTRIES
    ensures HoldsFirst(TableOf(Bans(n, at)), n)
  {
    if n == 0 {
      assert Bans(n, at) == [];
    } else {
      BansFillTheTable(n - 1, at);
      RoomForNext(TableOf(Bans(n - 1, at)), n - 1, PERMANENT);
      OneMoreEntry(n - 1, at);
    }
  }

  /** The 1024th ban of a new address is stored. */
  lemma LastThatFits(at: Instant)
    ensures |TableOf(Bans(1024, at))| == 1024
    ensures TableOf(Bans(1024, at)) == TableOf(Bans(1023, at))[1023 := 0]
  {
    BansFillTheTable(1023, at);
    BansFillTheTable(1024, at);
    OneMoreEntry(1023, at);
  }

  /** One ban more than the table holds. */
  function OneTooMany(source: Octets, at: Instant): seq<Command> {
    Bans(MAX_ENTRIES, at) + [Command(Ban(Text(source), None), at)]
  }

  /** A full table loses the next permanent ban: demanded for good, blocked never. */
  lemma LostBan(source: Octets, at: Instant, now: U64)
    requires Key(source) >= MAX_ENTRIES
    ensures var cmds := OneTooMany(source, at);
            && TableOf(cmds) == TableOf(Bans(1024, at)) && |TableOf(cmds)| == 1024
            && Lost(cmds, source) && Demanded(cmds, Text(source), now)
            && !Blocks(TableOf(cmds), source, now) && !Trusted(cmds, source, now)
  {
    var cmds := OneTooMany(source, at);
    BansFillTheTable(MAX_ENTRIES, at);
    BanAtCapacity(Bans(MAX_ENTRIES, at), source, None, at);
    NamedLast(Bans(MAX_ENTRIES, at), source, None, at);
    SlotIs(cmds, source);
  }

  lemma NamedLast(cmds: seq<Command>, source: Octets, ttl: Option<U64>, at: Instant)
    ensures var c := Command(Ban(Text(source), ttl), at);
            LastAbout(cmds + [c], Text(source)) == Some(c) && Says(cmds + [c], Text(source)) == SaidBy(c)
  {
  }

  /** The daemon answers that ban Ok all the same. */
  method LostBanIsAnsweredOk(codec: Codec, source: Octets, at: Instant) returns (server: Server, response: Response)
    requires Key(source) >= MAX_ENTRIES
    ensures server.Valid() && server.history == OneTooMany(source, at)
    ensures response == Ok && Key(source) !in server.bannedIps.entries && |server.bannedIps.entries| == MAX_ENTRIES
  {
    server := FullServer(codec, at);
    response := server.Handle(Ban(Text(source), None), at);
    ParseIff(Text(source), source);
    LostBan(source, at, 0);
    BansFillTheTable(MAX_ENTRIES, at);
  }

  method FullServer(codec: Codec, at: Instant) returns (server: Server)
    ensures fresh(server) && fresh(server.bannedIps)
    ensures server.Valid() && server.history == Bans(MAX_ENTRIES, at)
  {
    server := new Server(codec);
    var n := 0;
    while n < MAX_ENTRIES
      invariant n <= MAX_ENTRIES && server.Valid() && server.history == Bans(n, at)
      invariant fresh(server) && fresh(server.bannedIps)
    {
      OneMoreBan(n, at);
      var _ := server.Handle(Ban(Text(OctetsOf(n)), None), at);
      n := n + 1;
    }
  }

  function Serves(cmds: seq<Command>): Run {
    if cmds == [] then [] else Serves(cmds[..|cmds| - 1]) + [Serve(cmds[|cmds| - 1])]
  }

  lemma {:induction false} ServesRun(boot: System, cmds: seq<Command>)
    requires Booted(boot)
    ensures Commands(Serves(cmds)) == cmds
    ensures Exec(boot, Serves(cmds)) == Some(boot.(table := TableOf(cmds)))
  {
    if cmds != [] {
      var init, last := cmds[..|cmds| - 1], cmds[|cmds| - 1];
      ServesRun(boot, init);
      assert Serves(cmds)[..|Serves(cmds)| - 1] == Serves(init);
      TableStep(init, last);
      assert init + [last] == cmds;
    }
  }

  lemma ExecOneMore(boot: System, run: Run, e: Event)
    requires Exec(boot, run).Some? && Enabled(Exec(boot, run).value, e)
    ensures Exec(boot, run + [e]) == Some(Step(Exec(boot, run).value, e))
    ensures !e.Serve? ==> Commands(run + [e]) == Commands(run)
  {
    assert (run + [e])[..|run|] == run;
  }

  /** Served the commands, an idle CPU takes a packet and passes it if the table holds no ban for its source. */
  lemma PacketAfter(boot: System, cmds: seq<Command>, packet: seq<Byte>, now: U64) returns (run: Run)
    requires Booted(boot) && 0 in boot.cpus && Classify(packet).Ask?
    requires !Blocks(TableOf(cmds), Classify(packet).source, now)
    ensures run != [] && Commands(run) == cmds && Ends(boot, run, |run| - 1, Report(packet, now, Pass))
  {
    ServesRun(boot, cmds);
    ExecOneMore(boot, Serves(cmds), Arrive(0, packet, now));
    var arrived := Serves(cmds) + [Arrive(0, packet, now)];
    ExecOneMore(boot, arrived, Find(0));
    run := arrived + [Find(0)];
    assert run[..|run| - 1] == arrived;
  }

  /** A run of the whole firewall: the packet passes though its source is banned for good. */
  lemma BannedPacketPasses(boot: System, at: Instant, packet: seq<Byte>, now: U64) returns (run: Run)
    requires Booted(boot) && 0 in boot.cpus
    requires Classify(packet).Ask? && Key(Classify(packet).source) >= MAX_ENTRIES
    ensures run != [] && Ends(boot, run, |run| - 1, Report(packet, now, Pass))
    ensures Demanded(Commands(run), Text(Classify(packet).source), now)
  {
    var source := Classify(packet).source;
    LostBan(source, at, now);
    run := PacketAfter(boot, OneTooMany(source, at), packet, now);
  }

  lemma SoleBan(source: Octets, ttl: Option<U64>, at: Instant)
    ensures var c := Command(Ban(Text(source), ttl), at);
            && Lookup(TableOf([c]), Key(source)) == Some(Deadline(at.wall, ttl))
            && Says([c], Text(source)) == SaidBy(c)
  {
    var c := Command(Ban(Text(source), ttl), at);
    assert [] + [c] == [c];
    BanInserts([], source, ttl, at);
    NamedLast([], source, ttl, at);
  }

  /** A sole ban whose deadline wraps into the past is demanded from then on and not blocked. */
  lemma WrappedBan(source: Octets, t: U64, at: Instant, now: U64)
    requires at.wall + t * NANOS >= TWO_64 && 0 < Deadline(at.wall, Some(t)) < now
    ensures var cmds := [Command(Ban(Text(source), Some(t)), at)];
            Demanded(cmds, Text(source), now) && !Blocks(TableOf(cmds), source, now) && !Trusted(cmds, source, now)
  {
    SoleBan(source, Some(t), at);
    BlocksIffDemandedIff([Command(Ban(Text(source), Some(t)), at)], source, now);
  }

  /** A 570-year ban made in November 2023 is never enforced. */
  lemma OverflowingBan(source: Octets, at: Instant, now: U64)
    requires at.wall == 1_700_000_000 * NANOS <= now
    ensures var cmds := [Command(Ban(Text(source), Some(18_000_000_000)), at)];
            Demanded(cmds, Text(source), now) && !Blocks(TableOf(cmds), source, now) && !Trusted(cmds, source, now)
  {
    WrappedBan(source, 18_000_000_000, at, now);
  }

  /** A ban that has run out is still listed, so the listing is not the set of blocked sources. */
  lemma ExpiredBanIsListed(source: Octets, at: Instant, t: U64, list: seq<string>, now: U64)
    requires 0 < at.wall + t * NANOS < now
    requires ListsExactly(list, TableOf([Command(Ban(Text(source), Some(t)), at)]))
    ensures var table := TableOf([Command(Ban(Text(source), Some(t)), at)]);
            && Text(source) in list && !Blocks(table, source, now)
            && !(forall o: Octets :: Text(o) in list <==> Blocks(table, o, now))
  {
    SoleBan(source, Some(t), at);
    ListedIffHeld(list, TableOf([Command(Ban(Text(source), Some(t)), at)]), source);
    EnforcedWithoutWrap(at.wall, t, now);
  }

  /** The IPv6 prefix address 2001:db8:: is shown as an IPv4 address. */
  lemma Ipv6ShownAsIpv4()
    ensures IpOf([0x20, 0x01, 0x0d, 0xb8] + seq(12, _ => 0)) == V4([32, 1, 13, 184])
  {
    ShownAsIpv4Iff([0x20, 0x01, 0x0d, 0xb8] + seq(12, _ => 0), [32, 1, 13, 184]);
  }

  /** A payload of 2^32 bytes is framed with length zero and read back as nothing. */
  lemma HugeFrameReadsEmpty(payload: Bytes)
    requires |payload| == TWO_32
    ensures ReadFrame(Frame(payload)) == Some(([], payload))
  {
    ReadsDeclaredLength(payload, []);
    assert Frame(payload) + [] == Frame(payload) && payload + [] == payload;
  }
}
