/**
 The monitor's cache of executable paths: an entry is served for thirty seconds after it
 was stamped, then read again from /proc, whose answers change over time.
 */
module ProcessCache {
  import opened Machine

  /** Thirty seconds, in nanoseconds. */
  const TTL: nat := 30_000_000_000

  /** What /proc says about a process at an instant; None when the link cannot be read. */
  type Oracle = (U32, nat) -> Option<string>

  /**
   One request for a path, with the instants of the freshness check, of the /proc read and
   of the stamp. A request served from the cache makes no use of the last two.
   */
  datatype Call = Call(pid: U32, check: nat, read: nat, stamp: nat)

  type Entries = map<U32, (string, nat)>

  function Shown(link: Option<string>): string {
    match link
    case Some(path) => path
    case None => "<unknown>"
  }

  /** The clock never runs backwards within a call or from one call to the next. */
  predicate InOrder(calls: seq<Call>) {
    && (forall c :: c in calls ==> c.check <= c.read <= c.stamp)
    && (forall i :: 0 < i < |calls| ==> calls[i - 1].stamp <= calls[i].check)
  }

  function Elapsed(since: nat, now: nat): nat {
    if now < since then 0 else now - since
  }

  predicate Served(cache: Entries, c: Call) {
    c.pid in cache && Elapsed(cache[c.pid].1, c.check) < TTL
  }

  function Next(proc: Oracle, cache: Entries, c: Call): Entries {
    if Served(cache, c) then cache else cache[c.pid := (Shown(proc(c.pid, c.read)), c.stamp)]
  }

  function Answer(proc: Oracle, cache: Entries, c: Call): string {
    if Served(cache, c) then cache[c.pid].0 else Shown(proc(c.pid, c.read))
  }

  function EntriesAfter(proc: Oracle, calls: seq<Call>): Entries {
    if calls == [] then map[]
    else Next(proc, EntriesAfter(proc, calls[..|calls| - 1]), calls[|calls| - 1])
  }

  // ----- Reads of /proc over a history of calls -----

  /** Call i went to /proc. */
  predicate ReadsProc(proc: Oracle, calls: seq<Call>, i: nat)
    requires i < |calls|
  {
    !Served(EntriesAfter(proc, calls[..i]), calls[i])
  }

  lemma InOrderPrefix(calls: seq<Call>, n: nat)
    requires InOrder(calls) && n <= |calls|
    ensures InOrder(calls[..n])
  {
    forall c | c in calls[..n] ensures c in calls {}
  }

  // ----- How old an answer can be -----

  /** Every cached entry is what /proc said at the read of some earlier call, under that call's stamp. */
  lemma {:induction false} EntryComesFrom(proc: Oracle, calls: seq<Call>, pid: U32) returns (k: nat)
    requires pid in EntriesAfter(proc, calls)
    ensures k < |calls| && calls[k].pid == pid && ReadsProc(proc, calls, k)
    ensures EntriesAfter(proc, calls)[pid] == (Shown(proc(pid, calls[k].read)), calls[k].stamp)
    ensures forall j :: k < j < |calls| && calls[j].pid == pid ==> !ReadsProc(proc, calls, j)
  {
    var n := |calls| - 1;
    if calls[n].pid == pid && ReadsProc(proc, calls, n) {
      k := n;
    } else {
      k := EntryComesFrom(proc, calls[..n], pid);
      assert forall j :: 0 <= j <= n ==> calls[..n][..j] == calls[..j];
    }
  }

  /**
   Every answer is the path /proc gave at the read of this call or of an earlier one whose
   stamp is less than thirty seconds before this call's freshness check, or "<unknown>" if
   the link was not readable then. So it is older than thirty seconds by no more than the
   gap between that read and its stamp.
   */
  lemma AnswerIsRecent(proc: Oracle, calls: seq<Call>, c: Call) returns (read: nat, stamp: nat)
    requires InOrder(calls + [c])
    ensures var link := proc(c.pid, read);
            Answer(proc, EntriesAfter(proc, calls), c) == if link.Some? then link.value else "<unknown>"
    ensures read <= stamp && c.check < stamp + 30_000_000_000
    ensures c.check < read + 30_000_000_000 + (stamp - read)
    ensures (read == c.read && stamp == c.stamp)
            || exists k :: 0 <= k < |calls| && calls[k].pid == c.pid && calls[k].read == read && calls[k].stamp == stamp
  {
    assert c == (calls + [c])[|calls|];
    if Served(EntriesAfter(proc, calls), c) {
      var k := EntryComesFrom(proc, calls, c.pid);
      assert calls[k] == (calls + [c])[k];
      read, stamp := calls[k].read, calls[k].stamp;
    } else {
      read, stamp := c.read, c.stamp;
    }
  }

  /** A call goes to /proc exactly when no earlier call for the process did so with a stamp under thirty seconds old. */
  lemma ReadIff(proc: Oracle, calls: seq<Call>, c: Call)
    requires InOrder(calls + [c])
    ensures !Served(EntriesAfter(proc, calls), c) <==>
            forall k :: 0 <= k < |calls| && calls[k].pid == c.pid && ReadsProc(proc, calls, k) ==>
              calls[k].stamp + 30_000_000_000 <= c.check
  {
    var cache := EntriesAfter(proc, calls);
    if c.pid in cache {
      var k := EntryComesFrom(proc, calls, c.pid);
      var all := calls + [c];
      StampsGrow(all, k, |calls|);
      forall j | 0 <= j < |calls| && calls[j].pid == c.pid && ReadsProc(proc, calls, j)
        ensures calls[j].stamp <= calls[k].stamp
      {
        if j < k {
          StampsGrow(all, j, k);
        }
      }
    } else {
      NeverRead(proc, calls, c.pid);
    }
  }

  lemma {:induction false} StampsGrow(calls: seq<Call>, i: nat, j: nat)
    requires InOrder(calls) && i < j < |calls|
    ensures calls[i].stamp <= calls[j].check <= calls[j].stamp
  {
    assert calls[j] in calls && calls[j - 1] in calls;
    if i + 1 < j {
      StampsGrow(calls, i, j - 1);
    }
  }

  lemma {:induction false} NeverRead(proc: Oracle, calls: seq<Call>, pid: U32)
    requires pid !in EntriesAfter(proc, calls)
    ensures forall k :: 0 <= k < |calls| && calls[k].pid == pid ==> !ReadsProc(proc, calls, k)
  {
    if calls != [] {
      var n := |calls| - 1;
      NeverRead(proc, calls[..n], pid);
      assert forall j :: 0 <= j <= n ==> calls[..n][..j] == calls[..j];
    }
  }

  // ----- How often /proc is read -----

  /** Of two reads of /proc for one process, the later is checked thirty seconds or more after the earlier's stamp. */
  lemma ReadsAreSpaced(proc: Oracle, calls: seq<Call>, i: nat, j: nat)
    requires InOrder(calls) && i < j < |calls| && calls[i].pid == calls[j].pid
    requires ReadsProc(proc, calls, i) && ReadsProc(proc, calls, j)
    ensures calls[i].stamp + 30_000_000_000 <= calls[j].check
    ensures calls[i].read + 30_000_000_000 <= calls[j].read
  {
    var earlier := calls[..j];
    assert earlier + [calls[j]] == calls[..j + 1];
    InOrderPrefix(calls, j + 1);
    assert earlier[..i] == calls[..i];
    ReadIff(proc, earlier, calls[j]);
    assert calls[i] in calls && calls[j] in calls;
  }

  /** Some calls of a history that read /proc for one process, in order. */
  predicate Reads(proc: Oracle, calls: seq<Call>, pid: U32, ks: seq<nat>) {
    && (forall i :: 0 <= i < |ks| ==> ks[i] < |calls| && calls[ks[i]].pid == pid && ReadsProc(proc, calls, ks[i]))
    && (forall i, j :: 0 <= i < j < |ks| ==> ks[i] < ks[j])
  }

  lemma {:induction false} ReadsSpan(proc: Oracle, calls: seq<Call>, pid: U32, ks: seq<nat>)
    requires InOrder(calls) && Reads(proc, calls, pid, ks) && ks != []
    ensures calls[ks[0]].read + (|ks| - 1) * 30_000_000_000 <= calls[ks[|ks| - 1]].read
  {
    var n := |ks| - 1;
    if n > 0 {
      ReadsSpan(proc, calls, pid, ks[..n]);
      ReadsAreSpaced(proc, calls, ks[n - 1], ks[n]);
    }
  }

  /**
   For any calls on a clock that does not run backwards, a closed window of any width
   holds at most width / 30 s + 1 reads of /proc for one process.
   */
  lemma RateBound(proc: Oracle, calls: seq<Call>, pid: U32, ks: seq<nat>, from: nat, width: nat)
    requires InOrder(calls) && Reads(proc, calls, pid, ks)
    requires forall i :: 0 <= i < |ks| ==> from <= calls[ks[i]].read <= from + width
    ensures |ks| <= width / 30_000_000_000 + 1
  {
    if ks != [] {
      ReadsSpan(proc, calls, pid, ks);
    }
  }

  class Cache {
    const proc: Oracle
    var entries: Entries
    ghost var calls: seq<Call>

    ghost predicate Valid()
      reads this
    {
      InOrder(calls) && entries == EntriesAfter(proc, calls)
    }

    constructor (proc: Oracle)
      ensures Valid() && calls == [] && this.proc == proc
    {
      this.proc := proc;
      entries := map[];
      calls := [];
    }

    /** Also returns, for the proof, the read and the stamp that the answer goes back to. */
    method Exe(c: Call) returns (exe: string, ghost read: nat, ghost stamp: nat)
      requires Valid() && InOrder(calls + [c])
      modifies this
      ensures Valid() && calls == old(calls) + [c]
      ensures exe == if proc(c.pid, read).Some? then proc(c.pid, read).value else "<unknown>"
      ensures read <= stamp && c.check < stamp + 30_000_000_000
      ensures exists k :: 0 <= k < |calls| && calls[k].pid == c.pid && calls[k].read == read && calls[k].stamp == stamp
      ensures exe == Answer(proc, EntriesAfter(proc, old(calls)), c)
    {
      assert (calls + [c])[..|calls|] == calls;
      read, stamp := AnswerIsRecent(proc, calls, c);
      calls := calls + [c];
      assert calls[|calls| - 1] == c;
      if c.pid in entries {
        var (cached, ts) := entries[c.pid];
        if Elapsed(ts, c.check) < TTL {
          exe := cached;
          return;
        }
      }
      exe := Shown(proc(c.pid, c.read));
      entries := entries[c.pid := (exe, c.stamp)];
    }
  }
}
