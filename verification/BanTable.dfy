/**
 The ban table: a map from source address to deadline that holds at most 1024 entries.
 Two writes reach it, and an insertion that finds no room is silently lost.
 The partner of the table is the log of writes itself: what the last write about an
 address said, with no capacity involved.
 */
module BanTable {
  import opened Machine

  const MAX_ENTRIES: nat := 1024
  const PERMANENT: U64 := 0

  type Table = map<U32, U64>

  datatype Op = Put(addr: U32, end: U64) | Delete(addr: U32)

  /** The map has no room for an address it does not hold already. */
  predicate Refuses(t: Table, addr: U32) {
    addr !in t && |t| >= MAX_ENTRIES
  }

  function Apply(t: Table, op: Op): Table {
    match op
    case Put(a, end) => if Refuses(t, a) then t else t[a := end]
    case Delete(a) => t - {a}
  }

  function Replay(t: Table, ops: seq<Op>): Table {
    if ops == [] then t else Apply(Replay(t, ops[..|ops| - 1]), ops[|ops| - 1])
  }

  function Lookup(t: Table, addr: U32): Option<U64> {
    if addr in t then Some(t[addr]) else None
  }

  // ----- The log read on its own -----

  function LastOp(ops: seq<Op>, addr: U32): Option<Op> {
    if ops == [] then None
    else if ops[|ops| - 1].addr == addr then Some(ops[|ops| - 1])
    else LastOp(ops[..|ops| - 1], addr)
  }

  /** The deadline an address is left with by the last write about it. */
  function Word(ops: seq<Op>, addr: U32): Option<U64> {
    match LastOp(ops, addr)
    case Some(Put(_, end)) => Some(end)
    case _ => None
  }

  /** The last write about an address was an insertion that found the table full. */
  predicate LastRefused(ops: seq<Op>, addr: U32) {
    if ops == [] then false
    else
      var last := ops[|ops| - 1];
      if last.addr == addr then last.Put? && Refuses(Replay(map[], ops[..|ops| - 1]), addr)
      else LastRefused(ops[..|ops| - 1], addr)
  }

  /** The table agrees with the last write about an address exactly when that write was not refused. */
  lemma {:induction false} LastWriteWinsIff(ops: seq<Op>, addr: U32)
    ensures Lookup(Replay(map[], ops), addr) == Word(ops, addr) <==> !LastRefused(ops, addr)
    ensures LastRefused(ops, addr) ==> Lookup(Replay(map[], ops), addr) == None
  {
    if ops != [] && ops[|ops| - 1].addr != addr {
      LastWriteWinsIff(ops[..|ops| - 1], addr);
    }
  }

  // ----- Capacity -----

  lemma {:induction false} CapacityKept(t: Table, ops: seq<Op>)
    requires |t| <= MAX_ENTRIES
    ensures |Replay(t, ops)| <= MAX_ENTRIES
  {
    if ops != [] {
      var before, last := Replay(t, ops[..|ops| - 1]), ops[|ops| - 1];
      CapacityKept(t, ops[..|ops| - 1]);
      assert last.Put? && !Refuses(before, last.addr) ==>
          Apply(before, last).Keys == before.Keys + {last.addr};
      if last.Delete? {
        SubsetCard(Apply(before, last).Keys, before.Keys);
      }
    }
  }

  lemma SubsetCard<T>(a: set<T>, b: set<T>)
    requires a <= b
    ensures |a| <= |b|
    ensures |a| == |b| ==> a == b
  {
    assert b == a + (b - a);
    assert |b| == |a| + |b - a|;
  }

  function PutAddresses(ops: seq<Op>): set<U32> {
    set op | op in ops && op.Put? :: op.addr
  }

  lemma {:induction false} OnlyPutAddresses(ops: seq<Op>)
    ensures Replay(map[], ops).Keys <= PutAddresses(ops)
  {
    if ops != [] {
      var init := ops[..|ops| - 1];
      OnlyPutAddresses(init);
      assert forall op :: op in init ==> op in ops;
      assert ops[|ops| - 1] in ops;
    }
  }

  /** A log that inserts at most 1024 different addresses never loses an insertion. */
  lemma {:induction false} FewAddressesAreNeverRefused(ops: seq<Op>, addr: U32)
    requires |PutAddresses(ops)| <= MAX_ENTRIES
    ensures !LastRefused(ops, addr)
  {
    if ops != [] {
      var init, last := ops[..|ops| - 1], ops[|ops| - 1];
      assert forall op :: op in init ==> op in ops;
      assert last in ops;
      SubsetCard(PutAddresses(init), PutAddresses(ops));
      if last.addr != addr {
        FewAddressesAreNeverRefused(init, addr);
      } else if last.Put? && Refuses(Replay(map[], init), addr) {
        OnlyPutAddresses(init);
        SubsetCard(Replay(map[], init).Keys + {addr}, PutAddresses(ops));
        assert false;
      }
    }
  }

  // ----- Compaction: keep only the last write about each address -----

  function Without(ops: seq<Op>, addr: U32): (r: seq<Op>)
    ensures forall op :: op in r <==> op in ops && op.addr != addr
  {
    if ops == [] then []
    else
      var init, last := ops[..|ops| - 1], ops[|ops| - 1];
      assert ops == init + [last];
      if last.addr == addr then Without(init, addr) else Without(init, addr) + [last]
  }

  function Compact(ops: seq<Op>): seq<Op> {
    if ops == [] then []
    else Without(Compact(ops[..|ops| - 1]), ops[|ops| - 1].addr) + [ops[|ops| - 1]]
  }

  predicate Distinct(ops: seq<Op>) {
    forall i, j :: 0 <= i < j < |ops| ==> ops[i].addr != ops[j].addr
  }

  /** The table the log would build if the map never ran out of room. */
  function Unbounded(t: Table, ops: seq<Op>): Table {
    if ops == [] then t
    else
      var before := Unbounded(t, ops[..|ops| - 1]);
      match ops[|ops| - 1]
      case Put(a, end) => before[a := end]
      case Delete(a) => before - {a}
  }

  /** No write of the log is refused. */
  predicate NoneRefused(t: Table, ops: seq<Op>) {
    ops == [] ||
    (var init, last := ops[..|ops| - 1], ops[|ops| - 1];
     NoneRefused(t, init) && !(last.Put? && Refuses(Replay(t, init), last.addr)))
  }

  lemma {:induction false} WithoutKeepsOthers(ops: seq<Op>, addr: U32, b: U32)
    ensures LastOp(Without(ops, addr), b) == if b == addr then None else LastOp(ops, b)
  {
    if ops != [] {
      var init, last := ops[..|ops| - 1], ops[|ops| - 1];
      WithoutKeepsOthers(init, addr, b);
      if last.addr != addr {
        assert Without(ops, addr)[..|Without(ops, addr)| - 1] == Without(init, addr);
      }
    }
  }

  lemma DistinctOneMore(ops: seq<Op>, op: Op)
    requires Distinct(ops) && forall o :: o in ops ==> o.addr != op.addr
    ensures Distinct(ops + [op])
  {
  }

  lemma {:induction false} WithoutStaysDistinct(ops: seq<Op>, addr: U32)
    requires Distinct(ops)
    ensures Distinct(Without(ops, addr))
  {
    if ops != [] {
      var init, last := ops[..|ops| - 1], ops[|ops| - 1];
      WithoutStaysDistinct(init, addr);
      if last.addr != addr {
        DistinctOneMore(Without(init, addr), last);
      }
    }
  }

  /** The compacted log mentions every address at most once. */
  lemma {:induction false} CompactIsDistinct(ops: seq<Op>)
    ensures Distinct(Compact(ops))
  {
    if ops != [] {
      var init, last := ops[..|ops| - 1], ops[|ops| - 1];
      CompactIsDistinct(init);
      WithoutStaysDistinct(Compact(init), last.addr);
      DistinctOneMore(Without(Compact(init), last.addr), last);
    }
  }

  /** What it keeps for an address is the last write about it. */
  lemma {:induction false} CompactKeepsLast(ops: seq<Op>, addr: U32)
    ensures LastOp(Compact(ops), addr) == LastOp(ops, addr)
  {
    if ops != [] {
      var init, last := ops[..|ops| - 1], ops[|ops| - 1];
      CompactKeepsLast(init, addr);
      WithoutKeepsOthers(Compact(init), last.addr, addr);
      assert Compact(ops)[..|Compact(ops)| - 1] == Without(Compact(init), last.addr);
    }
  }

  lemma {:induction false} UnboundedIsWord(ops: seq<Op>, addr: U32)
    ensures Lookup(Unbounded(map[], ops), addr) == Word(ops, addr)
  {
    if ops != [] {
      UnboundedIsWord(ops[..|ops| - 1], addr);
    }
  }

  lemma SameLookups(x: Table, y: Table)
    requires forall a: U32 :: Lookup(x, a) == Lookup(y, a)
    ensures x == y
  {
    forall a: U32 ensures (a in x <==> a in y) && (a in x ==> x[a] == y[a]) {
      assert Lookup(x, a) == Lookup(y, a);
    }
    assert x.Keys == y.Keys;
  }

  lemma {:induction false} NoneRefusedIsUnbounded(ops: seq<Op>)
    requires NoneRefused(map[], ops)
    ensures Replay(map[], ops) == Unbounded(map[], ops)
  {
    if ops != [] {
      NoneRefusedIsUnbounded(ops[..|ops| - 1]);
    }
  }

  function Mentioned(ops: seq<Op>): set<U32> {
    set op | op in ops :: op.addr
  }

  lemma {:induction false} UnboundedMentioned(ops: seq<Op>)
    ensures Unbounded(map[], ops).Keys <= Mentioned(ops)
  {
    if ops != [] {
      UnboundedMentioned(ops[..|ops| - 1]);
      assert ops[|ops| - 1] in ops;
    }
  }

  lemma {:induction false} DistinctLogFits(ops: seq<Op>)
    requires Distinct(ops)
    requires |Unbounded(map[], ops)| <= MAX_ENTRIES
    ensures NoneRefused(map[], ops)
  {
    if ops != [] {
      var init, last := ops[..|ops| - 1], ops[|ops| - 1];
      var u := Unbounded(map[], init);
      UnboundedMentioned(init);
      assert last.addr !in u;
      if last.Put? {
        assert Unbounded(map[], ops).Keys == u.Keys + {last.addr};
      } else {
        assert Unbounded(map[], ops) == u;
      }
      DistinctLogFits(init);
      NoneRefusedIsUnbounded(init);
    }
  }

  /** A log that mentions each address once is played back exactly when its outcome fits. */
  lemma DistinctLogFitsIff(ops: seq<Op>)
    requires Distinct(ops)
    ensures NoneRefused(map[], ops) <==> |Unbounded(map[], ops)| <= MAX_ENTRIES
    ensures Replay(map[], ops) == Unbounded(map[], ops) <==> |Unbounded(map[], ops)| <= MAX_ENTRIES
  {
    CapacityKept(map[], ops);
    if |Unbounded(map[], ops)| <= MAX_ENTRIES {
      DistinctLogFits(ops);
    }
    if NoneRefused(map[], ops) {
      NoneRefusedIsUnbounded(ops);
    }
  }

  /**
   The compacted log builds the table the full log asks for, and meets no refusal on the
   way, exactly when that table has at most 1024 entries.
   */
  lemma CompactionIff(ops: seq<Op>)
    ensures Replay(map[], Compact(ops)) == Unbounded(map[], ops) <==> |Unbounded(map[], ops)| <= MAX_ENTRIES
    ensures NoneRefused(map[], Compact(ops)) <==> |Unbounded(map[], ops)| <= MAX_ENTRIES
  {
    forall a: U32 ensures Lookup(Unbounded(map[], Compact(ops)), a) == Lookup(Unbounded(map[], ops), a) {
      UnboundedIsWord(ops, a);
      UnboundedIsWord(Compact(ops), a);
      CompactKeepsLast(ops, a);
    }
    SameLookups(Unbounded(map[], Compact(ops)), Unbounded(map[], ops));
    CompactIsDistinct(ops);
    DistinctLogFitsIff(Compact(ops));
  }

  /**
   If the last insertion of every address was accepted, compacting the log changes nothing,
   even when earlier insertions of the full log were refused.
   */
  lemma CompactionPreservesTable(ops: seq<Op>)
    requires forall a: U32 :: !LastRefused(ops, a)
    ensures Replay(map[], Compact(ops)) == Replay(map[], ops)
    ensures NoneRefused(map[], Compact(ops))
  {
    forall a: U32 ensures Lookup(Replay(map[], ops), a) == Lookup(Unbounded(map[], ops), a) {
      LastWriteWinsIff(ops, a);
      UnboundedIsWord(ops, a);
    }
    SameLookups(Replay(map[], ops), Unbounded(map[], ops));
    CapacityKept(map[], ops);
    CompactionIff(ops);
  }

  lemma {:induction false} NoneRefusedMeansNoLastRefused(ops: seq<Op>, addr: U32)
    requires NoneRefused(map[], ops)
    ensures !LastRefused(ops, addr)
  {
    if ops != [] && ops[|ops| - 1].addr != addr {
      NoneRefusedMeansNoLastRefused(ops[..|ops| - 1], addr);
    }
  }
}
