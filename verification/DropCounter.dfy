/**
 The drop counter under interleaving. Each CPU loads the shared value, adds one and
 stores it, without an atomic instruction, so a store can overwrite the work of others.
 */
module DropCounter {
  import opened Machine
  import opened Dotted
  import opened Requests
  import opened Classifier
  import opened Firewall
  import Xdp

  /** Stores of a run: the drops whose counting is complete. */
  function Stores(run: Run): nat {
    if run == [] then 0
    else Stores(run[..|run| - 1]) + if run[|run| - 1].Store? then 1 else 0
  }

  function StoresBy(run: Run, c: nat): nat {
    if run == [] then 0
    else StoresBy(run[..|run| - 1], c) + if run[|run| - 1] == Store(c) then 1 else 0
  }

  /** Stores of any CPU after the last load of this one. */
  function StoresSinceLoad(run: Run, c: nat): nat {
    if run == [] || run[|run| - 1] == Load(c) then 0
    else StoresSinceLoad(run[..|run| - 1], c) + if run[|run| - 1].Store? then 1 else 0
  }

  /** No store fell between a store and the load it is based on. */
  predicate Undisturbed(run: Run) {
    run == [] ||
    (var init, last := run[..|run| - 1], run[|run| - 1];
     Undisturbed(init) && (last.Store? ==> StoresSinceLoad(init, last.cpu) == 0))
  }

  /** Drops decided by a run, counted yet or not. */
  function Begun(boot: System, run: Run): nat
    requires Exec(boot, run).Some?
  {
    if run == [] then 0
    else
      var init := run[..|run| - 1];
      Begun(boot, init) + if run[|run| - 1].Find? && Exec(boot, run).value.cpus[run[|run| - 1].cpu].Hit? then 1 else 0
  }

  function Pending(s: System): set<nat> {
    set c | c in s.cpus && Busy(s.cpus[c])
  }

  predicate Quiescent(s: System) {
    Pending(s) == {}
  }

  // ----- Presence -----

  /** A run neither creates nor removes the counter. Without one, nothing is ever loaded or stored. */
  lemma {:induction false} PresenceKept(boot: System, run: Run)
    requires Booted(boot) && Exec(boot, run).Some?
    ensures Exec(boot, run).value.counter.Some? <==> boot.counter.Some?
    ensures boot.counter.None? ==>
        Stores(run) == 0 && StatsText(Exec(boot, run).value.counter) == "No stats"
        && forall c :: c in Exec(boot, run).value.cpus ==> !Exec(boot, run).value.cpus[c].Loaded?
  {
    if run != [] {
      PresenceKept(boot, run[..|run| - 1]);
    }
  }

  predicate Busy(cpu: Cpu) {
    cpu.Hit? || cpu.Loaded?
  }

  lemma PendingUpdate(s: System, c: nat, cpu: Cpu)
    ensures Pending(s.(cpus := s.cpus[c := cpu])) == if Busy(cpu) then Pending(s) + {c} else Pending(s) - {c}
  {
  }

  lemma PendingStep(s: System, e: Event)
    requires Enabled(s, e) && s.counter.Some?
    ensures |Pending(Step(s, e))| + (if e.Store? then 1 else 0) ==
            |Pending(s)| + if e.Find? && Step(s, e).cpus[e.cpu].Hit? then 1 else 0
  {
    if !e.Serve? {
      var s', c := Step(s, e), e.cpu;
      PendingUpdate(s, c, s'.cpus[c]);
      assert Pending(s') == Pending(s.(cpus := s.cpus[c := s'.cpus[c]]));
      assert Busy(s.cpus[c]) <==> c in Pending(s);
    }
  }

  /** Every drop begun is either counted by a store or still pending on one CPU. */
  lemma {:induction false} BegunIsStoredOrPending(boot: System, run: Run)
    requires Booted(boot) && boot.counter.Some? && Exec(boot, run).Some?
    ensures Begun(boot, run) == Stores(run) + |Pending(Exec(boot, run).value)|
  {
    if run == [] {
      assert Pending(boot) == {};
    } else {
      var init := run[..|run| - 1];
      PresenceKept(boot, init);
      BegunIsStoredOrPending(boot, init);
      PendingStep(Exec(boot, init).value, run[|run| - 1]);
    }
  }

  // ----- Upper bound, and exactly when it is met -----

  predicate Bounded(s: System, run: Run, base: nat) {
    && s.counter.Some?
    && s.counter.value <= base + Stores(run)
    && (s.counter.value == base + Stores(run) <==> Undisturbed(run))
    && (forall c :: c in s.cpus && s.cpus[c].Loaded? ==>
          && s.cpus[c].count + StoresSinceLoad(run, c) <= base + Stores(run)
          && (StoresSinceLoad(run, c) == 0 ==> s.cpus[c].count == s.counter.value))
  }

  lemma {:induction false} CounterBounded(boot: System, run: Run)
    requires Booted(boot) && boot.counter.Some? && Exec(boot, run).Some?
    requires boot.counter.value + Stores(run) < TWO_64
    ensures Bounded(Exec(boot, run).value, run, boot.counter.value)
  {
    if run != [] {
      CounterBounded(boot, run[..|run| - 1]);
    }
  }

  /**
   While fewer than 2^64 drops have begun, the counter and every value a CPU has loaded
   are at most the number of drops begun. When no drop is pending the counter is exact if
   and only if no store ever fell between another CPU's load and its store.
   */
  lemma CounterNeverExceedsDrops(boot: System, run: Run)
    requires Booted(boot) && boot.counter.Some? && Exec(boot, run).Some?
    requires boot.counter.value + Begun(boot, run) < TWO_64
    ensures var s, most := Exec(boot, run).value, boot.counter.value + Begun(boot, run);
            && s.counter.Some? && s.counter.value <= most
            && (forall c :: c in s.cpus && s.cpus[c].Loaded? ==> s.cpus[c].count <= most)
            && (Quiescent(s) ==> (s.counter.value == most <==> Undisturbed(run)))
  {
    BegunIsStoredOrPending(boot, run);
    CounterBounded(boot, run);
  }

  /**
   Conservation without any bound: as long as no load and store pair is interrupted by
   another store, as in every run that handles packets one at a time, the counter is the
   number of drops counted, modulo 2^64.
   */
  lemma {:induction false} UndisturbedCountsModulo(boot: System, run: Run)
    requires Booted(boot) && boot.counter.Some? && Exec(boot, run).Some?
    requires Undisturbed(run)
    ensures var s := Exec(boot, run).value;
            && s.counter == Some((boot.counter.value + Stores(run)) % TWO_64)
            && forall c :: c in s.cpus && s.cpus[c].Loaded? && StoresSinceLoad(run, c) == 0
                 ==> s.cpus[c].count == s.counter.value
  {
    if run == [] {
      assert boot.counter.value % TWO_64 == boot.counter.value;
    } else {
      UndisturbedCountsModulo(boot, run[..|run| - 1]);
      BumpModulo(boot.counter.value + Stores(run[..|run| - 1]));
    }
  }

  lemma BumpModulo(x: nat)
    ensures Xdp.Bump(x % TWO_64) == (x + 1) % TWO_64
  {
  }

  /** Every packet arrives with no other in flight. */
  predicate OneAtATime(boot: System, run: Run)
    requires Exec(boot, run).Some?
  {
    run == [] ||
    (var init, last := run[..|run| - 1], run[|run| - 1];
     OneAtATime(boot, init)
     && (last.Arrive? ==> forall c :: c in Exec(boot, init).value.cpus ==> Exec(boot, init).value.cpus[c].Idle?))
  }

  lemma {:induction false} SerialRunsAreUndisturbed(boot: System, run: Run)
    requires Booted(boot) && Exec(boot, run).Some? && OneAtATime(boot, run)
    ensures Undisturbed(run)
    ensures var cpus := Exec(boot, run).value.cpus;
            && (forall c, d :: c in cpus && d in cpus && !cpus[c].Idle? && !cpus[d].Idle? ==> c == d)
            && (forall c :: c in cpus && cpus[c].Loaded? ==> StoresSinceLoad(run, c) == 0)
  {
    if run != [] {
      SerialRunsAreUndisturbed(boot, run[..|run| - 1]);
    }
  }

  /** In every serial run, with no drop pending, the counter is its start plus the drops, modulo 2^64. */
  lemma SerialRunsConserveDrops(boot: System, run: Run)
    requires Booted(boot) && boot.counter.Some? && Exec(boot, run).Some? && OneAtATime(boot, run)
    requires Quiescent(Exec(boot, run).value)
    ensures Exec(boot, run).value.counter == Some((boot.counter.value + Begun(boot, run)) % TWO_64)
  {
    SerialRunsAreUndisturbed(boot, run);
    UndisturbedCountsModulo(boot, run);
    BegunIsStoredOrPending(boot, run);
  }

  // ----- Lower bounds -----

  /** The CPU of the last store, if there is one. */
  function LastStorer(run: Run): Option<nat> {
    if run == [] then None
    else if run[|run| - 1].Store? then Some(run[|run| - 1].cpu)
    else LastStorer(run[..|run| - 1])
  }

  function AtLeastOne(n: nat): nat {
    if n > 0 then 1 else 0
  }

  /**
   After any store the counter is past its start by at least one, and by at least two if
   the CPU of the last store has stored more than once.
   */
  lemma {:induction false} CounterGrows(boot: System, run: Run)
    requires Booted(boot) && boot.counter.Some? && Exec(boot, run).Some?
    requires boot.counter.value + Stores(run) < TWO_64
    ensures var s, base := Exec(boot, run).value, boot.counter.value;
            && s.counter.Some?
            && s.counter.value >= base + AtLeastOne(Stores(run))
            && (forall c :: c in s.cpus && s.cpus[c].Loaded? ==> s.cpus[c].count >= base + AtLeastOne(StoresBy(run, c)))
            && (LastStorer(run).Some? && StoresBy(run, LastStorer(run).value) >= 2 ==> s.counter.value >= base + 2)
  {
    if run != [] {
      var init, last := run[..|run| - 1], run[|run| - 1];
      CounterGrows(boot, init);
      CounterBounded(boot, init);
      forall c ensures StoresBy(init, c) <= Stores(init) {
        StoresByAreStores(init, c);
      }
    }
  }

  lemma {:induction false} StoresByAreStores(run: Run, c: nat)
    ensures StoresBy(run, c) <= Stores(run)
  {
    if run != [] {
      StoresByAreStores(run[..|run| - 1], c);
    }
  }

  // ----- The bounds are met: schedules that lose updates -----

  lemma Extend(boot: System, run: Run, e: Event)
    requires Exec(boot, run).Some? && Enabled(Exec(boot, run).value, e)
    ensures Exec(boot, run + [e]) == Some(Step(Exec(boot, run).value, e))
    ensures Stores(run + [e]) == Stores(run) + if e.Store? then 1 else 0
    ensures forall c :: StoresBy(run + [e], c) == StoresBy(run, c) + if e == Store(c) then 1 else 0
  {
    assert (run + [e])[..|run|] == run;
  }

  /** Takes a packet to the point where its CPU has loaded the counter. */
  lemma UpToLoad(boot: System, run: Run, c: nat, packet: seq<Byte>, now: U64) returns (run': Run)
    requires Exec(boot, run).Some?
    requires var s := Exec(boot, run).value;
             && c in s.cpus && s.cpus[c].Idle? && s.counter.Some?
             && Classify(packet).Ask? && Xdp.Verdict(s.table, packet, now) == Drop
    ensures var s := Exec(boot, run).value;
            Exec(boot, run') == Some(s.(cpus := s.cpus[c := Loaded(packet, now, s.counter.value)]))
    ensures Stores(run') == Stores(run) && forall d :: StoresBy(run', d) == StoresBy(run, d)
  {
    Extend(boot, run, Arrive(c, packet, now));
    var r1 := run + [Arrive(c, packet, now)];
    Extend(boot, r1, Find(c));
    var r2 := r1 + [Find(c)];
    Extend(boot, r2, Load(c));
    run' := r2 + [Load(c)];
    var s := Exec(boot, run).value;
    assert Exec(boot, run').value.cpus == s.cpus[c := Loaded(packet, now, s.counter.value)];
  }

  /** A CPU drops n packets with nothing in between. */
  lemma {:induction false} DropMany(boot: System, run: Run, c: nat, packet: seq<Byte>, now: U64, n: nat) returns (run': Run)
    requires Exec(boot, run).Some?
    requires var s := Exec(boot, run).value;
             && c in s.cpus && s.cpus[c].Idle? && s.counter.Some? && s.counter.value + n < TWO_64
             && Classify(packet).Ask? && Xdp.Verdict(s.table, packet, now) == Drop
    ensures var s := Exec(boot, run).value; Exec(boot, run') == Some(s.(counter := Some(s.counter.value + n)))
    ensures Stores(run') == Stores(run) + n
    ensures forall d :: StoresBy(run', d) == StoresBy(run, d) + if d == c then n else 0
  {
    if n == 0 {
      run' := run;
    } else {
      var earlier := DropMany(boot, run, c, packet, now, n - 1);
      var loaded := UpToLoad(boot, earlier, c, packet, now);
      Extend(boot, loaded, Store(c));
      run' := loaded + [Store(c)];
      assert Exec(boot, run').value.cpus == Exec(boot, run).value.cpus;
    }
  }

  /** A store from a value loaded at s puts the counter one past it, whatever was counted since. */
  lemma StoreOverwrites(s: System, c: nat, packet: seq<Byte>, now: U64, since: U64)
    requires c in s.cpus && s.cpus[c].Idle? && s.counter.Some? && s.counter.value + 1 < TWO_64
    ensures var late := s.(counter := Some(since), cpus := s.cpus[c := Loaded(packet, now, s.counter.value)]);
            Enabled(late, Store(c)) && Step(late, Store(c)) == s.(counter := Some(s.counter.value + 1))
  {
    assert s.cpus[c := Loaded(packet, now, s.counter.value)][c := Idle] == s.cpus;
  }

  /** CPU c loads, CPU d drops n packets meanwhile, and c's store undoes all of them. */
  lemma Overtake(boot: System, run: Run, c: nat, d: nat, packet: seq<Byte>, now: U64, n: nat) returns (run': Run)
    requires Exec(boot, run).Some? && c != d
    requires var s := Exec(boot, run).value;
             && c in s.cpus && s.cpus[c].Idle? && d in s.cpus && s.cpus[d].Idle?
             && s.counter.Some? && s.counter.value + n + 1 < TWO_64
             && Classify(packet).Ask? && Xdp.Verdict(s.table, packet, now) == Drop
    ensures var s := Exec(boot, run).value; Exec(boot, run') == Some(s.(counter := Some(s.counter.value + 1)))
    ensures Stores(run') == Stores(run) + n + 1
    ensures StoresBy(run', c) == StoresBy(run, c) + 1 && StoresBy(run', d) == StoresBy(run, d) + n
  {
    var loaded := UpToLoad(boot, run, c, packet, now);
    var s := Exec(boot, run).value;
    var overtaken := DropMany(boot, loaded, d, packet, now, n);
    assert Exec(boot, overtaken).value
        == s.(counter := Some(s.counter.value + n), cpus := s.cpus[c := Loaded(packet, now, s.counter.value)]);
    Extend(boot, overtaken, Store(c));
    run' := overtaken + [Store(c)];
    StoreOverwrites(s, c, packet, now, s.counter.value + n);
  }

  /** Two CPUs, an idle start, a counter at base, and the packet's source banned for good. */
  lemma Banned(base: U64, packet: seq<Byte>) returns (boot: System, run: Run)
    requires Classify(packet).Ask?
    ensures Booted(boot) && boot.counter == Some(base) && boot.cpus == map[0 := Idle, 1 := Idle]
    ensures Exec(boot, run).Some? && Stores(run) == 0 && StoresBy(run, 0) == 0 && StoresBy(run, 1) == 0
    ensures var s := Exec(boot, run).value;
            s.cpus == boot.cpus && s.counter == boot.counter && Xdp.Verdict(s.table, packet, 0) == Drop
  {
    var source := Classify(packet).source;
    boot := System(map[], Some(base), map[0 := Idle, 1 := Idle]);
    var ban := Command(Ban(Text(source), None), Instant(0, 0));
    run := [] + [Serve(ban)];
    Extend(boot, [], Serve(ban));
    ParseIff(Text(source), source);
  }

  /** Any number of drops can end with the counter advanced by one. */
  lemma AllButOneCanBeLost(base: U64, packet: seq<Byte>, n: nat) returns (boot: System, run: Run)
    requires Classify(packet).Ask? && base + n + 1 < TWO_64
    ensures Booted(boot) && boot.counter == Some(base) && Exec(boot, run).Some?
    ensures Quiescent(Exec(boot, run).value) && Stores(run) == n + 1
    ensures Exec(boot, run).value.counter == Some(base + 1)
  {
    boot, run := Banned(base, packet);
    run := Overtake(boot, run, 0, 1, packet, 0, n);
  }

  /** Two CPUs that each drop as many packets as one likes can end with it advanced by two. */
  lemma AllButTwoCanBeLost(base: U64, packet: seq<Byte>, n: nat, m: nat) returns (boot: System, run: Run)
    requires Classify(packet).Ask? && base + n + m + 2 < TWO_64
    ensures Booted(boot) && boot.counter == Some(base) && Exec(boot, run).Some?
    ensures Quiescent(Exec(boot, run).value) && StoresBy(run, 0) == m + 1 && StoresBy(run, 1) == n + 1
    ensures Exec(boot, run).value.counter == Some(base + 2)
  {
    boot, run := Banned(base, packet);
    run := Overtake(boot, run, 0, 1, packet, 0, n);
    run := Overtake(boot, run, 1, 0, packet, 0, m);
  }

  // ----- One packet at a time -----

  /**
   A packet that passes through without interruption gets the verdict, and leaves the
   counter, of the packet program run as one call.
   */
  lemma UninterruptedIsOneCall(s: System, c: nat, packet: seq<Byte>, now: U64)
    requires c in s.cpus && s.cpus[c].Idle?
    ensures Enabled(s, Arrive(c, packet, now))
    ensures var s1 := Step(s, Arrive(c, packet, now));
            if Classify(packet).Stop? then
              s1 == s && Returns(s, Arrive(c, packet, now)) == Some(Report(packet, now, Xdp.Verdict(s.table, packet, now)))
            else
              Enabled(s1, Find(c)) &&
              var s2 := Step(s1, Find(c));
              if Xdp.Verdict(s.table, packet, now) != Drop then s2 == s && Returns(s1, Find(c)) == Some(Report(packet, now, Pass))
              else
                Enabled(s2, Load(c)) &&
                var s3 := Step(s2, Load(c));
                match s.counter
                case None => s3 == s && Returns(s2, Load(c)) == Some(Report(packet, now, Drop))
                case Some(n) =>
                  && Enabled(s3, Store(c))
                  && Step(s3, Store(c)) == s.(counter := Some(Xdp.Bump(n)))
                  && Returns(s3, Store(c)) == Some(Report(packet, now, Drop))
  {
    assert s.cpus[c := Idle] == s.cpus;
  }
}
