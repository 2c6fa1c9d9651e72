/**
 The firewall as it runs: one daemon and any number of CPUs interleave on the shared
 maps. A packet takes a timestamp, looks its source up, and on a hit loads the drop
 counter and stores it back, with other steps in between.
 */
module Firewall {
  import opened Machine
  import opened BanTable
  import opened Dotted
  import opened Requests
  import opened Classifier
  import Xdp

  /** How far a CPU is with its packet. */
  datatype Cpu =
    | Idle
    | Stamped(packet: seq<Byte>, now: U64)
    | Hit(packet: seq<Byte>, now: U64)
    | Loaded(packet: seq<Byte>, now: U64, count: U64)

  datatype Event =
    | Serve(command: Command)
    | Arrive(cpu: nat, packet: seq<Byte>, now: U64)
    | Find(cpu: nat)
    | Load(cpu: nat)
    | Store(cpu: nat)

  /** The counter is None when the statistics map has no entry for it. */
  datatype System = System(table: Table, counter: Option<U64>, cpus: map<nat, Cpu>)

  /** A verdict handed back to the kernel. */
  datatype Report = Report(packet: seq<Byte>, now: U64, action: Action)

  /** Freshly loaded maps and no packet in flight, on any set of CPUs. */
  predicate Booted(s: System) {
    s.table == map[] && forall c :: c in s.cpus ==> s.cpus[c].Idle?
  }

  predicate Enabled(s: System, e: Event) {
    match e
    case Serve(_) => true
    case Arrive(c, _, _) => c in s.cpus && s.cpus[c].Idle?
    case Find(c) => c in s.cpus && s.cpus[c].Stamped?
    case Load(c) => c in s.cpus && s.cpus[c].Hit?
    case Store(c) => c in s.cpus && s.cpus[c].Loaded?
  }

  function Step(s: System, e: Event): System
    requires Enabled(s, e)
  {
    match e
    case Serve(command) => s.(table := After(s.table, command))
    case Arrive(c, packet, now) =>
      s.(cpus := s.cpus[c := if Classify(packet).Ask? then Stamped(packet, now) else Idle])
    case Find(c) =>
      var Stamped(packet, now) := s.cpus[c];
      s.(cpus := s.cpus[c := if Xdp.Verdict(s.table, packet, now) == Drop then Hit(packet, now) else Idle])
    case Load(c) =>
      var Hit(packet, now) := s.cpus[c];
      s.(cpus := s.cpus[c := match s.counter case Some(n) => Loaded(packet, now, n) case None => Idle])
    case Store(c) =>
      s.(counter := Some(Xdp.Bump(s.cpus[c].count)), cpus := s.cpus[c := Idle])
  }

  /** The verdict an event hands back, if it ends a packet's passage. */
  function Returns(s: System, e: Event): Option<Report>
    requires Enabled(s, e)
  {
    match e
    case Serve(_) => None
    case Arrive(_, packet, now) =>
      (match Classify(packet)
       case Stop(action) => Some(Report(packet, now, action))
       case Ask(_, _) => None)
    case Find(c) =>
      var Stamped(packet, now) := s.cpus[c];
      if Xdp.Verdict(s.table, packet, now) == Drop then None else Some(Report(packet, now, Pass))
    case Load(c) =>
      var Hit(packet, now) := s.cpus[c];
      if s.counter.None? then Some(Report(packet, now, Drop)) else None
    case Store(c) =>
      var Loaded(packet, now, _) := s.cpus[c];
      Some(Report(packet, now, Drop))
  }

  type Run = seq<Event>

  /** The system after a run, if every event of the run was possible when it happened. */
  function Exec(boot: System, run: Run): Option<System> {
    if run == [] then Some(boot)
    else match Exec(boot, run[..|run| - 1])
      case Some(s) => if Enabled(s, run[|run| - 1]) then Some(Step(s, run[|run| - 1])) else None
      case None => None
  }

  /** The requests of a run, in the order the daemon handled them. */
  function Commands(run: Run): seq<Command> {
    if run == [] then []
    else
      var earlier := Commands(run[..|run| - 1]);
      match run[|run| - 1]
      case Serve(command) => earlier + [command]
      case _ => earlier
  }

  predicate On(e: Event, c: nat) {
    !e.Serve? && e.cpu == c
  }

  /** Whatever the packets do in between, the table is the one the requests alone leave behind. */
  lemma {:induction false} TableFollowsRequests(boot: System, run: Run)
    requires Booted(boot) && Exec(boot, run).Some?
    ensures Exec(boot, run).value.table == TableOf(Commands(run))
  {
    if run != [] {
      var init, last := run[..|run| - 1], run[|run| - 1];
      TableFollowsRequests(boot, init);
      if last.Serve? {
        TableStep(Commands(init), last.command);
      }
    }
  }

  // ----- Every verdict is the history's verdict at one moment of the packet's passage -----

  predicate Quiet(run: Run, c: nat, from: nat, to: nat)
    requires to <= |run|
  {
    forall m :: from <= m < to ==> !On(run[m], c)
  }

  predicate OnlyLoads(run: Run, c: nat, from: nat, to: nat)
    requires to <= |run|
  {
    forall m :: from <= m < to && On(run[m], c) ==> run[m] == Load(c)
  }

  /** CPU c took the packet at h, next looked its source up at j, and up to end at most loaded the counter. */
  predicate Passage(run: Run, c: nat, packet: seq<Byte>, now: U64, h: nat, j: nat, end: nat) {
    && h < j <= end <= |run| && j < |run|
    && run[h] == Arrive(c, packet, now)
    && Quiet(run, c, h + 1, j)
    && run[j] == Find(c)
    && OnlyLoads(run, c, j + 1, end)
  }

  /** The ban verdict of the first j events' requests on a packet. */
  function VerdictAt(run: Run, j: nat, packet: seq<Byte>, now: U64): Action
    requires j <= |run|
  {
    Xdp.Verdict(TableOf(Commands(run[..j])), packet, now)
  }

  lemma {:induction false} StampedSince(boot: System, run: Run, c: nat) returns (h: nat)
    requires Booted(boot) && Exec(boot, run).Some?
    requires var s := Exec(boot, run).value; c in s.cpus && s.cpus[c].Stamped?
    ensures var cpu := Exec(boot, run).value.cpus[c];
            && h < |run| && run[h] == Arrive(c, cpu.packet, cpu.now) && Quiet(run, c, h + 1, |run|)
            && Classify(cpu.packet).Ask?
  {
    var last := |run| - 1;
    if On(run[last], c) {
      h := last;
    } else {
      h := StampedSince(boot, run[..last], c);
    }
  }

  lemma FoundAt(boot: System, run: Run, i: nat, packet: seq<Byte>, now: U64) returns (h: nat)
    requires Booted(boot) && i < |run| && run[i].Find?
    requires var s := Exec(boot, run[..i]);
             s.Some? && Enabled(s.value, run[i]) && s.value.cpus[run[i].cpu] == Stamped(packet, now)
    ensures Passage(run, run[i].cpu, packet, now, h, i, i) && Classify(packet).Ask?
    ensures Xdp.Verdict(Exec(boot, run[..i]).value.table, packet, now) == VerdictAt(run, i, packet, now)
  {
    h := StampedSince(boot, run[..i], run[i].cpu);
    TableFollowsRequests(boot, run[..i]);
  }

  predicate Dropping(s: System, c: nat, packet: seq<Byte>, now: U64) {
    c in s.cpus && (s.cpus[c] == Hit(packet, now) || (s.cpus[c].Loaded? && s.cpus[c].packet == packet && s.cpus[c].now == now))
  }

  lemma StillDropping(s: System, e: Event, c: nat, packet: seq<Byte>, now: U64)
    requires Enabled(s, e) && Dropping(Step(s, e), c, packet, now)
    ensures e == Find(c) || (Dropping(s, c, packet, now) && (On(e, c) ==> e == Load(c)))
    ensures e == Find(c) ==> s.cpus[c] == Stamped(packet, now) && Xdp.Verdict(s.table, packet, now) == Drop
  {
  }

  lemma PassageGoesOn(run: Run, e: Event, c: nat, packet: seq<Byte>, now: U64, h: nat, j: nat)
    requires Passage(run, c, packet, now, h, j, |run|)
    requires On(e, c) ==> e == Load(c)
    ensures Passage(run + [e], c, packet, now, h, j, |run + [e]|)
    ensures VerdictAt(run + [e], j, packet, now) == VerdictAt(run, j, packet, now)
  {
    assert (run + [e])[..j] == run[..j];
  }

  lemma {:induction false} HitSince(boot: System, run: Run, c: nat, packet: seq<Byte>, now: U64) returns (h: nat, j: nat)
    requires Booted(boot) && Exec(boot, run).Some? && Dropping(Exec(boot, run).value, c, packet, now)
    ensures Passage(run, c, packet, now, h, j, |run|)
    ensures VerdictAt(run, j, packet, now) == Drop && Classify(packet).Ask?
  {
    var init, e := run[..|run| - 1], run[|run| - 1];
    assert run == init + [e];
    StillDropping(Exec(boot, init).value, e, c, packet, now);
    if e == Find(c) {
      j := |run| - 1;
      h := FoundAt(boot, run, j, packet, now);
    } else {
      h, j := HitSince(boot, init, c, packet, now);
      PassageGoesOn(init, e, c, packet, now, h, j);
    }
  }

  /** Event i ends a packet's passage with a verdict. */
  predicate Ends(boot: System, run: Run, i: nat, r: Report)
    requires i < |run|
  {
    var s := Exec(boot, run[..i]);
    s.Some? && Enabled(s.value, run[i]) && Returns(s.value, run[i]) == Some(r)
  }

  /** What a CPU was doing when it handed a verdict back. */
  lemma ReturnedFrom(s: System, e: Event, r: Report)
    requires Enabled(s, e) && Returns(s, e) == Some(r)
    ensures match e
            case Serve(_) => false
            case Arrive(_, packet, now) => packet == r.packet && now == r.now && Classify(packet) == Stop(r.action)
            case Find(c) =>
              s.cpus[c] == Stamped(r.packet, r.now)
              && (Classify(r.packet).Ask? ==> r.action == Xdp.Verdict(s.table, r.packet, r.now))
            case Load(c) => Dropping(s, c, r.packet, r.now) && r.action == Drop
            case Store(c) => Dropping(s, c, r.packet, r.now) && r.action == Drop
  {
  }

  lemma PassageOfPrefix(run: Run, i: nat, c: nat, packet: seq<Byte>, now: U64, h: nat, j: nat)
    requires i <= |run| && Passage(run[..i], c, packet, now, h, j, i)
    ensures Passage(run, c, packet, now, h, j, i) && VerdictAt(run, j, packet, now) == VerdictAt(run[..i], j, packet, now)
  {
    forall m | 0 <= m < i ensures run[..i][m] == run[m] {}
    assert run[..i][..j] == run[..j];
  }

  lemma HitBefore(boot: System, run: Run, i: nat, c: nat, packet: seq<Byte>, now: U64) returns (h: nat, j: nat)
    requires Booted(boot) && i <= |run| && Exec(boot, run[..i]).Some?
    requires Dropping(Exec(boot, run[..i]).value, c, packet, now)
    ensures j < i && Passage(run, c, packet, now, h, j, i)
    ensures VerdictAt(run, j, packet, now) == Drop
  {
    h, j := HitSince(boot, run[..i], c, packet, now);
    PassageOfPrefix(run, i, c, packet, now, h, j);
  }

  /** A verdict that did not need the table is the one the headers settle, at once. */
  lemma HeaderVerdicts(boot: System, run: Run, i: nat, r: Report)
    requires Booted(boot) && i < |run| && Ends(boot, run, i, r)
    requires Classify(r.packet).Stop?
    ensures run[i].Arrive? && run[i] == Arrive(run[i].cpu, r.packet, r.now) && r.action == Classify(r.packet).action
  {
    var s := Exec(boot, run[..i]).value;
    ReturnedFrom(s, run[i], r);
    match run[i] {
      case Arrive(_, _, _) =>
      case Find(c) =>
        var h := StampedSince(boot, run[..i], c);
      case Load(c) =>
        var h, j := HitSince(boot, run[..i], c, r.packet, r.now);
      case Store(c) =>
        var h, j := HitSince(boot, run[..i], c, r.packet, r.now);
    }
  }

  /**
   In every interleaving, every verdict that needed the table is the verdict of the
   requests handled before the packet's own lookup, an event between the moment the packet
   took its timestamp and the moment the verdict is handed back.
   */
  lemma TableVerdicts(boot: System, run: Run, i: nat, r: Report) returns (h: nat, j: nat)
    requires Booted(boot) && i < |run| && Ends(boot, run, i, r)
    requires Classify(r.packet).Ask?
    ensures !run[i].Serve? && j <= i && Passage(run, run[i].cpu, r.packet, r.now, h, j, i)
    ensures r.action == VerdictAt(run, j, r.packet, r.now)
  {
    ReturnedFrom(Exec(boot, run[..i]).value, run[i], r);
    if run[i].Find? {
      j := i;
      h := FoundAt(boot, run, i, r.packet, r.now);
    } else {
      h, j := HitBefore(boot, run, i, run[i].cpu, r.packet, r.now);
    }
  }

  /**
   In every interleaving every verdict, needing the table or not, is the packet program's
   verdict on the packet's own bytes with the table of the requests before one event.
   */
  lemma EveryVerdict(boot: System, run: Run, i: nat, r: Report) returns (j: nat)
    requires Booted(boot) && i < |run| && Ends(boot, run, i, r)
    ensures j <= i && r.action == VerdictAt(run, j, r.packet, r.now)
  {
    if Classify(r.packet).Stop? {
      HeaderVerdicts(boot, run, i, r);
      j := i;
    } else {
      var h;
      h, j := TableVerdicts(boot, run, i, r);
    }
  }

  /** So it is read off the bytes which packets of a run are aborted, whatever was requested. */
  lemma AbortedIff(boot: System, run: Run, i: nat, r: Report)
    requires Booted(boot) && i < |run| && Ends(boot, run, i, r)
    ensures var p := r.packet;
            r.action == Aborted <==>
            |p| < 14
            || (p[12..14] == [0x08, 0x00]
                && (|p| < 34 || p[23] !in {6, 17} || (p[23] == 6 && |p| < 54) || (p[23] == 17 && |p| < 42)))
  {
    var j := EveryVerdict(boot, run, i, r);
    Xdp.VerdictByBytes(TableOf(Commands(run[..j])), r.packet, r.now);
  }

  /**
   Whole-run refinement, in the requests' own terms. A complete TCP or UDP packet is
   dropped exactly when, at its lookup, the last request naming the dotted text of its
   source address is a ban that is permanent or has not run out at the packet's timestamp,
   as long as Trusted holds: that ban was not lost and its deadline did not overflow.
   */
  lemma DroppedIffDemanded(boot: System, run: Run, i: nat, r: Report) returns (h: nat, j: nat)
    requires Booted(boot) && i < |run| && Ends(boot, run, i, r)
    requires Classify(r.packet).Ask?
    ensures !run[i].Serve? && j <= i && Passage(run, run[i].cpu, r.packet, r.now, h, j, i)
    ensures r.action == Drop || r.action == Pass
    ensures var source, history := Classify(r.packet).source, Commands(run[..j]);
            (r.action == Drop <==> Demanded(history, Text(source), r.now)) <==> Trusted(history, source, r.now)
  {
    h, j := TableVerdicts(boot, run, i, r);
    BlocksIffDemandedIff(Commands(run[..j]), Classify(r.packet).source, r.now);
  }

  /** Every timed ban of a history has a deadline that is a positive 64-bit number. */
  predicate DeadlinesFit(cmds: seq<Command>) {
    forall c :: c in cmds && c.request.Ban? && c.request.ttl.Some? ==> 0 < c.at.wall + c.request.ttl.value * NANOS < TWO_64
  }

  /** With no insertion refused and no deadline overflowing, every history is trusted for every source. */
  lemma UnrefusedHistoriesAreTrusted(cmds: seq<Command>, source: Octets, now: U64)
    requires NoneRefused(map[], Ops(cmds)) && DeadlinesFit(cmds)
    ensures Trusted(cmds, source, now)
  {
    NoneRefusedMeansNoLastRefused(Ops(cmds), Key(source));
    LastAboutIsAmong(cmds, Text(source));
  }

  /** The same holds when at most 1024 different addresses are banned, whatever else is requested. */
  lemma SmallHistoriesAreTrusted(cmds: seq<Command>, source: Octets, now: U64)
    requires |PutAddresses(Ops(cmds))| <= MAX_ENTRIES && DeadlinesFit(cmds)
    ensures Trusted(cmds, source, now)
  {
    FewAddressesAreNeverRefused(Ops(cmds), Key(source));
    LastAboutIsAmong(cmds, Text(source));
  }

  lemma {:induction false} LastAboutIsAmong(cmds: seq<Command>, text: string)
    ensures LastAbout(cmds, text).Some? ==> LastAbout(cmds, text).value in cmds
  {
    if cmds != [] {
      LastAboutIsAmong(cmds[..|cmds| - 1], text);
      assert cmds[|cmds| - 1] in cmds;
    }
  }
}
