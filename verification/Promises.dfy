/**
 The two clocks over whole runs. A timed ban promises its time to live from the moment it
 is made, on the clock packets are stamped with; the daemon writes a deadline read off
 another clock.
 */
module Promises {
  import opened Machine
  import opened BanTable
  import opened Dotted
  import opened Requests
  import opened Classifier
  import opened Firewall
  import Xdp

  /** What a request promises on the boot clock. */
  function PromisedBy(c: Command): Said {
    match c.request
    case Ban(_, None) => Forever
    case Ban(_, Some(t)) => Until(c.at.kernel + t * NANOS)
    case _ => Nothing
  }

  /** The last request naming this text is a ban whose time to live has not run out. */
  predicate Promised(cmds: seq<Command>, text: string, now: U64) {
    match LastAbout(cmds, text)
    case None => false
    case Some(c) =>
      match PromisedBy(c)
      case Nothing => false
      case Forever => true
      case Until(p) => now <= p
  }

  /** What is promised, request by request: the time to live counts from the boot clock at the ban. */
  lemma PromisedStep(cmds: seq<Command>, c: Command, text: string, now: U64)
    ensures !Promised([], text, now)
    ensures Promised(cmds + [c], text, now) <==>
            match c.request
            case Ban(target, ttl) =>
              if target != text then Promised(cmds, text, now)
              else ttl.None? || now <= c.at.kernel + ttl.value * 1_000_000_000
            case Unban(target) => target != text && Promised(cmds, text, now)
            case List => Promised(cmds, text, now)
            case Stats => Promised(cmds, text, now)
  {
    assert (cmds + [c])[..|cmds|] == cmds;
  }

  /** Whether an instant lies between two deadlines, past the earlier and not past the later. */
  predicate Between(now: U64, x: nat, y: nat) {
    x < now <= y || y < now <= x
  }

  /**
   When a promise is kept at an instant, by the last ban's two clock readings and its slot.
   A lost ban is no harm once its time to live is over. A stored one is wrong exactly
   between the promised instant and the stored deadline, and, if that deadline wrapped to
   0, for ever after the promised instant.
   */
  predicate KeptAt(cmds: seq<Command>, source: Octets, now: U64) {
    match LastAbout(cmds, Text(source))
    case Some(Command(Ban(_, None), _)) => !Lost(cmds, source)
    case Some(Command(Ban(_, Some(t)), at)) =>
      var promised, end := at.kernel + t * NANOS, (at.wall + t * NANOS) % TWO_64;
      if Lost(cmds, source) then promised < now
      else if end == PERMANENT then now <= promised
      else !Between(now, end, promised)
    case _ => true
  }

  lemma BlocksIffPromisedIff(cmds: seq<Command>, source: Octets, now: U64)
    ensures (Blocks(TableOf(cmds), source, now) <==> Promised(cmds, Text(source), now))
            <==> KeptAt(cmds, source, now)
  {
    SlotIs(cmds, source);
  }

  /** The last ban naming a source was stored, and its clocks keep its time to live. */
  predicate Dependable(cmds: seq<Command>, source: Octets) {
    match LastAbout(cmds, Text(source))
    case Some(Command(Ban(_, None), _)) => !Lost(cmds, source)
    case Some(Command(Ban(_, Some(t)), at)) => !Lost(cmds, source) && KeepsTtl(at.kernel, at.wall, t)
    case _ => true
  }

  lemma KeepsTtlAlways(kernel: U64, wall: U64, t: U64, now: U64)
    requires KeepsTtl(kernel, wall, t)
    ensures Enforced((wall + t * NANOS) % TWO_64, now) <==> now <= kernel + t * NANOS
  {
  }

  /** A promise is kept at every instant exactly when the last ban is dependable. */
  lemma KeptAlwaysIff(cmds: seq<Command>, source: Octets)
    ensures (forall now: U64 :: Blocks(TableOf(cmds), source, now) <==> Promised(cmds, Text(source), now))
            <==> Dependable(cmds, source)
  {
    SlotIs(cmds, source);
    match LastAbout(cmds, Text(source))
    case Some(Command(Ban(_, None), _)) =>
      assert Promised(cmds, Text(source), 0);
    case Some(Command(Ban(_, Some(t)), at)) =>
      TimedKeptAlwaysIff(cmds, source, LastAbout(cmds, Text(source)).value, t);
    case _ =>
  }

  lemma SlotOfTimedBan(c: Command, t: U64)
    requires c.request.Ban? && c.request.ttl == Some(t)
    ensures Slot(SaidBy(c)) == Some(Deadline(c.at.wall, Some(t)))
  {
  }

  lemma SlotEnforced(table: Table, source: Octets, end: U64, now: U64)
    requires Lookup(table, Key(source)) == Some(end)
    ensures Blocks(table, source, now) <==> Enforced(end, now)
  {
  }

  /** A stored ban's deadline is what the table enforces. */
  lemma StoredIsEnforced(cmds: seq<Command>, source: Octets, c: Command, t: U64, now: U64)
    requires LastAbout(cmds, Text(source)) == Some(c) && c.request.Ban? && c.request.ttl == Some(t)
    requires !Lost(cmds, source)
    ensures Blocks(TableOf(cmds), source, now) <==> Enforced(Deadline(c.at.wall, Some(t)), now)
  {
    SlotIs(cmds, source);
    SlotOfTimedBan(c, t);
    SlotEnforced(TableOf(cmds), source, Deadline(c.at.wall, Some(t)), now);
  }

  lemma TimedKeptAlwaysIff(cmds: seq<Command>, source: Octets, c: Command, t: U64)
    requires LastAbout(cmds, Text(source)) == Some(c) && c.request.Ban? && c.request.ttl == Some(t)
    ensures (forall now: U64 :: Blocks(TableOf(cmds), source, now) <==> Promised(cmds, Text(source), now))
            <==> !Lost(cmds, source) && KeepsTtl(c.at.kernel, c.at.wall, t)
  {
    if Lost(cmds, source) {
      SlotIs(cmds, source);
      assert Promised(cmds, Text(source), c.at.kernel);
    } else {
      TtlKeptIff(c.at.kernel, c.at.wall, t);
      forall now: U64 ensures Blocks(TableOf(cmds), source, now) <==> Enforced(Deadline(c.at.wall, Some(t)), now) {
        StoredIsEnforced(cmds, source, c, t, now);
      }
      if KeepsTtl(c.at.kernel, c.at.wall, t) {
        forall now: U64
          ensures Enforced(Deadline(c.at.wall, Some(t)), now) <==> Promised(cmds, Text(source), now)
        {
          KeepsTtlAlways(c.at.kernel, c.at.wall, t, now);
        }
      }
    }
  }

  /**
   Whole-run form: in every interleaving a complete TCP or UDP packet is dropped exactly
   when, at its lookup, the last request naming its source is a ban whose promised time to
   live covers the packet's timestamp, if and only if KeptAt holds; and it is always so for
   a dependable ban.
   */
  lemma DroppedIffPromised(boot: System, run: Run, i: nat, r: Report) returns (h: nat, j: nat)
    requires Booted(boot) && i < |run| && Ends(boot, run, i, r)
    requires Classify(r.packet).Ask?
    ensures !run[i].Serve? && j <= i && Passage(run, run[i].cpu, r.packet, r.now, h, j, i)
    ensures var source, history := Classify(r.packet).source, Commands(run[..j]);
            && ((r.action == Drop <==> Promised(history, Text(source), r.now)) <==> KeptAt(history, source, r.now))
            && (Dependable(history, source) ==> (r.action == Drop <==> Promised(history, Text(source), r.now)))
  {
    h, j := TableVerdicts(boot, run, i, r);
    BlocksIffPromisedIff(Commands(run[..j]), Classify(r.packet).source, r.now);
    KeptAlwaysIff(Commands(run[..j]), Classify(r.packet).source);
  }

  /**
   After any run, packets from a source meet the promise at every timestamp if and only if
   the last ban naming the source was stored and its clocks keep its time to live.
   */
  lemma EveryTimestampIff(boot: System, run: Run, packet: seq<Byte>)
    requires Booted(boot) && Exec(boot, run).Some? && Classify(packet).Ask?
    ensures var source, history := Classify(packet).source, Commands(run);
            (forall now: U64 :: Xdp.Verdict(Exec(boot, run).value.table, packet, now) == Drop
                                <==> Promised(history, Text(source), now))
            <==> Dependable(history, source)
  {
    var source, history := Classify(packet).source, Commands(run);
    TableFollowsRequests(boot, run);
    KeptAlwaysIff(history, source);
    forall now: U64
      ensures Xdp.Verdict(Exec(boot, run).value.table, packet, now) == Drop <==> Blocks(TableOf(history), source, now)
    {
    }
  }

  /** The wall clock is the boot clock plus a constant whenever a request is handled. */
  predicate SteadyClocks(run: Run, offset: int) {
    forall e :: e in run && e.Serve? ==> e.command.at.wall == e.command.at.kernel + offset
  }

  lemma {:induction false} CommandsAreServed(run: Run)
    ensures forall c :: c in Commands(run) ==> Serve(c) in run
  {
    if run != [] {
      CommandsAreServed(run[..|run| - 1]);
      assert run[|run| - 1] in run;
    }
  }

  /**
   On steady clocks every timed ban in a run is enforced for the clocks' offset longer than
   its time to live: exactly up to the boot time of the ban, plus the offset, plus the time
   to live, unless the ban was lost or its deadline does not fit in 64 bits.
   */
  lemma TimedBansRunLate(boot: System, run: Run, i: nat, r: Report, offset: int) returns (h: nat, j: nat)
    requires Booted(boot) && i < |run| && Ends(boot, run, i, r)
    requires Classify(r.packet).Ask? && SteadyClocks(run, offset)
    ensures !run[i].Serve? && j <= i && Passage(run, run[i].cpu, r.packet, r.now, h, j, i)
    ensures var source, history := Classify(r.packet).source, Commands(run[..j]);
            match LastAbout(history, Text(source))
            case Some(Command(Ban(_, Some(t)), at)) =>
              var last := at.kernel + offset + t * 1_000_000_000;
              !Lost(history, source) && 0 < last < TWO_64 ==> (r.action == Drop <==> r.now <= last)
            case _ => true
  {
    h, j := DroppedIffDemanded(boot, run, i, r);
    var source, history := Classify(r.packet).source, Commands(run[..j]);
    CommandsAreServed(run[..j]);
    LastAboutIsAmong(history, Text(source));
    if LastAbout(history, Text(source)).Some? {
      var c := LastAbout(history, Text(source)).value;
      assert Serve(c) in run[..j] && Serve(c) in run;
    }
  }
}
