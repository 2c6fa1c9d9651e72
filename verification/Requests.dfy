/**
 Requests to the daemon, the table a history of requests leaves behind, and what the
 history itself demands for a source address, read off the request texts alone.
 */
module Requests {
  import opened Machine
  import opened BanTable
  import opened Dotted

  const NANOS: nat := 1_000_000_000

  datatype Request = Ban(target: string, ttl: Option<U64>) | Unban(target: string) | List | Stats

  datatype Response = Ok | Error(message: string) | Listed(list: seq<string>) | Figures(text: string)

  /** What the wall clock and the kernel's boot clock say at one moment, in nanoseconds. */
  datatype Instant = Instant(wall: U64, kernel: U64)

  /** A request and the moment it was handled. The daemon itself looks at the wall clock only. */
  datatype Command = Command(request: Request, at: Instant)

  // ----- Deadlines -----

  /** Both the product and the sum wrap; together they wrap the exact deadline once. */
  function Deadline(wall: U64, ttl: Option<U64>): (end: U64)
    ensures ttl.Some? ==> end == (wall + ttl.value * NANOS) % TWO_64
  {
    match ttl
    case None => PERMANENT
    case Some(t) =>
      WrapInside(wall, t * NANOS);
      Wrap64(wall + Wrap64(t * NANOS))
  }

  predicate Enforced(end: U64, now: U64) {
    end == PERMANENT || now <= end
  }

  predicate Blocks(t: Table, source: Octets, now: U64) {
    Key(source) in t && Enforced(t[Key(source)], now)
  }

  /**
   A timed ban is enforced up to its wall-clock deadline at every instant exactly when
   the deadline is a positive 64-bit number, or wraps to 0 or to the largest one.
   */
  lemma WallDeadlineIff(wall: U64, t: U64)
    ensures (forall now: U64 :: Enforced(Deadline(wall, Some(t)), now) <==> now <= wall + t * NANOS)
            <==> (var s := wall + t * NANOS;
                  s > 0 && (s < TWO_64 || s % TWO_64 == 0 || s % TWO_64 == U64_MAX))
  {
    var s, end := wall + t * NANOS, Deadline(wall, Some(t));
    assert Enforced(end, 1) <==> end == 0 || 1 <= end;
    assert Enforced(end, U64_MAX) <==> end == 0 || end == U64_MAX;
  }

  /** Arithmetic on the two clocks at the ban decides whether its time to live is kept. */
  predicate KeepsTtl(kernel: U64, wall: U64, t: U64) {
    var end, promised := (wall + t * NANOS) % TWO_64, kernel + t * NANOS;
    if end == 0 then promised >= U64_MAX
    else end == if promised <= U64_MAX then promised else U64_MAX
  }

  /**
   From the ban on, the packet clock enforces exactly the promised time to live if and
   only if KeepsTtl holds of the two clocks at the moment of the ban.
   */
  lemma TtlKeptIff(kernel: U64, wall: U64, t: U64)
    ensures (forall now: U64 | kernel <= now :: Enforced(Deadline(wall, Some(t)), now) <==> now <= kernel + t * NANOS)
            <==> KeepsTtl(kernel, wall, t)
  {
    var end, promised := Deadline(wall, Some(t)), kernel + t * NANOS;
    if !KeepsTtl(kernel, wall, t) {
      var instant: U64 :=
        if end == 0 then U64_MAX
        else if end < kernel then kernel
        else if promised < end then promised + 1
        else end + 1;
      assert kernel <= instant;
      assert !(Enforced(end, instant) <==> instant <= promised);
    }
  }

  /** While nothing overflows, the time to live is kept exactly when the two clocks agree. */
  lemma TtlNeedsEqualClocks(kernel: U64, wall: U64, t: U64)
    requires 0 < wall + t * NANOS <= U64_MAX && kernel + t * NANOS <= U64_MAX
    ensures KeepsTtl(kernel, wall, t) <==> wall == kernel
  {
    assert (wall + t * NANOS) % TWO_64 == wall + t * NANOS;
  }

  /** A one-minute ban made a minute after boot is still enforced a year later. */
  lemma OneMinuteBanOutlivesAYear()
    ensures var kernel, wall := 60 * NANOS, 1_700_000_000 * NANOS;
            var aYearOn: U64 := kernel + 31_536_000 * NANOS;
            Enforced(Deadline(wall, Some(60)), aYearOn) && !(aYearOn <= kernel + 60 * NANOS)
            && !KeepsTtl(kernel, wall, 60)
  {
  }

  // ----- What a history demands, by text -----

  predicate About(c: Command, text: string) {
    (c.request.Ban? || c.request.Unban?) && c.request.target == text
  }

  function LastAbout(cmds: seq<Command>, text: string): Option<Command> {
    if cmds == [] then None
    else if About(cmds[|cmds| - 1], text) then Some(cmds[|cmds| - 1])
    else LastAbout(cmds[..|cmds| - 1], text)
  }

  /** What the last request naming a text asks for: nothing, a ban for good, or one up to an exact instant. */
  datatype Said = Nothing | Forever | Until(sum: nat)

  function SaidBy(c: Command): Said {
    match c.request
    case Ban(_, None) => Forever
    case Ban(_, Some(t)) => Until(c.at.wall + t * NANOS)
    case _ => Nothing
  }

  function Says(cmds: seq<Command>, text: string): Said {
    match LastAbout(cmds, text)
    case Some(c) => SaidBy(c)
    case None => Nothing
  }

  /** The last request naming this text is a ban that has not run out. */
  predicate Demanded(cmds: seq<Command>, text: string, now: U64) {
    match Says(cmds, text)
    case Nothing => false
    case Forever => true
    case Until(s) => now <= s
  }

  /**
   What a history demands, request by request: a ban without a time to live for good, one
   with it for that many seconds of the wall clock, an unban nothing, and any other
   request leaves the demand as it was.
   */
  lemma DemandedStep(cmds: seq<Command>, c: Command, text: string, now: U64)
    ensures !Demanded([], text, now)
    ensures Demanded(cmds + [c], text, now) <==>
            match c.request
            case Ban(target, ttl) =>
              if target != text then Demanded(cmds, text, now)
              else ttl.None? || now <= c.at.wall + ttl.value * 1_000_000_000
            case Unban(target) => target != text && Demanded(cmds, text, now)
            case List => Demanded(cmds, text, now)
            case Stats => Demanded(cmds, text, now)
  {
    assert (cmds + [c])[..|cmds|] == cmds;
  }

  // ----- What the daemon does with a history -----

  function OpOf(c: Command): Option<Op> {
    match c.request
    case Ban(target, ttl) =>
      (match Parse(target)
       case Some(o) => Some(Put(Key(o), Deadline(c.at.wall, ttl)))
       case None => None)
    case Unban(target) =>
      (match Parse(target)
       case Some(o) => Some(Delete(Key(o)))
       case None => None)
    case _ => None
  }

  function Ops(cmds: seq<Command>): seq<Op> {
    if cmds == [] then []
    else
      var earlier := Ops(cmds[..|cmds| - 1]);
      match OpOf(cmds[|cmds| - 1])
      case Some(op) => earlier + [op]
      case None => earlier
  }

  function TableOf(cmds: seq<Command>): Table {
    Replay(map[], Ops(cmds))
  }

  function After(t: Table, c: Command): Table {
    match OpOf(c)
    case Some(op) => Apply(t, op)
    case None => t
  }

  lemma TableStep(cmds: seq<Command>, c: Command)
    ensures TableOf(cmds + [c]) == After(TableOf(cmds), c)
  {
    assert (cmds + [c])[..|cmds|] == cmds;
    if OpOf(c).Some? {
      assert (Ops(cmds) + [OpOf(c).value])[..|Ops(cmds)|] == Ops(cmds);
    }
  }

  /**
   A ban of an address's text writes 0, or the wrapped sum of the wall clock and the time
   to live, under that address, unless the table holds 1024 others.
   */
  lemma BanEffect(t: Table, o: Octets, ttl: Option<U64>, at: Instant)
    ensures After(t, Command(Ban(Text(o), ttl), at)) ==
            if Key(o) !in t && |t| >= 1024 then t
            else t[Key(o) := match ttl
                             case None => 0
                             case Some(s) => (at.wall + s * 1_000_000_000) % 0x1_0000_0000_0000_0000]
  {
    ParseIff(Text(o), o);
  }

  /** An unban of an address's text removes that address and no other. */
  lemma UnbanEffect(t: Table, o: Octets, at: Instant)
    ensures After(t, Command(Unban(Text(o)), at)) == t - {Key(o)}
  {
    ParseIff(Text(o), o);
  }

  /** Any other request, a text that is no address's among them, leaves the table alone. */
  lemma OtherRequestsDoNothing(t: Table, c: Command)
    requires forall o: Octets :: !About(c, Text(o))
    ensures After(t, c) == t
  {
    if OpOf(c).Some? {
      var o := Parse(c.request.target).value;
      ParseIff(c.request.target, o);
      assert About(c, Text(o));
    }
  }

  lemma KeyInjective(x: Octets, y: Octets)
    requires Key(x) == Key(y)
    ensures x == y
  {
    KeyRoundTrip(x, 0);
    KeyRoundTrip(y, 0);
  }

  /** A request writes the table slot of a source exactly when it names the source's own text. */
  lemma WritesSlotIff(c: Command, source: Octets)
    ensures OpOf(c).Some? && OpOf(c).value.addr == Key(source) <==> About(c, Text(source))
  {
    if c.request.Ban? || c.request.Unban? {
      var target := c.request.target;
      ParseIff(target, source);
      if Parse(target).Some? && Key(Parse(target).value) == Key(source) {
        KeyInjective(Parse(target).value, source);
      }
    }
  }

  /** The write a ban or unban naming a source amounts to. */
  function NamedOp(c: Command, source: Octets): Op {
    if c.request.Ban? then Put(Key(source), Deadline(c.at.wall, c.request.ttl)) else Delete(Key(source))
  }

  lemma OpOfNamed(c: Command, source: Octets)
    requires About(c, Text(source))
    ensures OpOf(c) == Some(NamedOp(c, source))
  {
    ParseIff(Text(source), source);
  }

  lemma {:induction false} LastAboutIsLastOp(cmds: seq<Command>, source: Octets)
    ensures LastOp(Ops(cmds), Key(source)) ==
            match LastAbout(cmds, Text(source)) case Some(c) => Some(NamedOp(c, source)) case None => None
  {
    if cmds != [] {
      var init, last := cmds[..|cmds| - 1], cmds[|cmds| - 1];
      LastAboutIsLastOp(init, source);
      WritesSlotIff(last, source);
      if OpOf(last).Some? {
        assert Ops(cmds)[..|Ops(cmds)| - 1] == Ops(init);
      }
      if About(last, Text(source)) {
        OpOfNamed(last, source);
      }
    }
  }

  /** The insertion of the last ban naming this source found the table full. */
  predicate Lost(cmds: seq<Command>, source: Octets) {
    LastRefused(Ops(cmds), Key(source))
  }

  /**
   When the table can be trusted for a source at an instant: the last ban naming it was
   not lost (or has run out anyway), and its deadline is a positive 64-bit number (or
   wraps to one that has not passed).
   */
  predicate Trusted(cmds: seq<Command>, source: Octets, now: U64) {
    match Says(cmds, Text(source))
    case Nothing => true
    case Forever => !Lost(cmds, source)
    case Until(s) =>
      if Lost(cmds, source) then s < now
      else if s == 0 then now == 0
      else s < TWO_64 || Enforced(s % TWO_64, now)
  }

  /** The deadline that goes with a demand. */
  function Slot(said: Said): Option<U64> {
    match said
    case Nothing => None
    case Forever => Some(PERMANENT)
    case Until(s) => Some(s % TWO_64)
  }

  lemma NamedOpSays(c: Command, source: Octets)
    requires About(c, Text(source))
    ensures Slot(SaidBy(c)) == match NamedOp(c, source) case Put(_, end) => Some(end) case Delete(_) => None
  {
  }

  lemma WordIs(cmds: seq<Command>, source: Octets)
    ensures Word(Ops(cmds), Key(source)) == Slot(Says(cmds, Text(source)))
  {
    LastAboutIsLastOp(cmds, source);
    if LastAbout(cmds, Text(source)).Some? {
      LastAboutIsAbout(cmds, Text(source));
      NamedOpSays(LastAbout(cmds, Text(source)).value, source);
    }
  }

  /** The slot of a source: the wrapped deadline of the last ban naming it, unless that ban was lost. */
  lemma SlotIs(cmds: seq<Command>, source: Octets)
    ensures Lookup(TableOf(cmds), Key(source)) ==
            if Lost(cmds, source) then None else Slot(Says(cmds, Text(source)))
  {
    LastWriteWinsIff(Ops(cmds), Key(source));
    WordIs(cmds, source);
  }

  lemma {:induction false} LastAboutIsAbout(cmds: seq<Command>, text: string)
    requires LastAbout(cmds, text).Some?
    ensures About(LastAbout(cmds, text).value, text)
  {
    if !About(cmds[|cmds| - 1], text) {
      LastAboutIsAbout(cmds[..|cmds| - 1], text);
    }
  }

  lemma DeadlineVersusSum(s: nat, now: U64)
    ensures Enforced(s % TWO_64, now) == (now <= s) <==>
            if s == 0 then now == 0 else s < TWO_64 || Enforced(s % TWO_64, now)
  {
    if s < TWO_64 {
      assert s % TWO_64 == s;
    }
  }

  /** The table blocks a source exactly when its history demands it, exactly when Trusted holds. */
  lemma BlocksIffDemandedIff(cmds: seq<Command>, source: Octets, now: U64)
    ensures (Blocks(TableOf(cmds), source, now) <==> Demanded(cmds, Text(source), now))
            <==> Trusted(cmds, source, now)
  {
    SlotIs(cmds, source);
    if Says(cmds, Text(source)).Until? {
      DeadlineVersusSum(Says(cmds, Text(source)).sum, now);
    }
  }

  // ----- Histories that go on -----

  /** A request that does not name a source leaves that source's verdict alone at every instant. */
  lemma OtherTextsDoNotMatter(cmds: seq<Command>, c: Command, source: Octets, now: U64)
    requires !About(c, Text(source))
    ensures Blocks(TableOf(cmds + [c]), source, now) <==> Blocks(TableOf(cmds), source, now)
  {
    TableStep(cmds, c);
    WritesSlotIff(c, source);
  }

  lemma {:induction false} UnnamedSourceKeepsSlot(cmds: seq<Command>, later: seq<Command>, source: Octets)
    requires forall c :: c in later ==> !About(c, Text(source))
    ensures Lookup(TableOf(cmds + later), Key(source)) == Lookup(TableOf(cmds), Key(source))
  {
    if later == [] {
      assert cmds + later == cmds;
    } else {
      var init, last := later[..|later| - 1], later[|later| - 1];
      assert cmds + later == (cmds + init) + [last];
      UnnamedSourceKeepsSlot(cmds, init, source);
      TableStep(cmds + init, last);
      WritesSlotIff(last, source);
    }
  }

  /** A ban of an address is an insertion under its key, lost if it finds no room. */
  lemma BanInserts(cmds: seq<Command>, source: Octets, ttl: Option<U64>, at: Instant)
    ensures TableOf(cmds + [Command(Ban(Text(source), ttl), at)]) ==
            if Refuses(TableOf(cmds), Key(source)) then TableOf(cmds)
            else TableOf(cmds)[Key(source) := Deadline(at.wall, ttl)]
  {
    TableStep(cmds, Command(Ban(Text(source), ttl), at));
    ParseIff(Text(source), source);
  }

  /** Until a source is named again its slot is what the ban wrote, or empty if the ban was refused. */
  lemma BanLasts(cmds: seq<Command>, source: Octets, ttl: Option<U64>, at: Instant, later: seq<Command>, now: U64)
    requires forall c :: c in later ==> !About(c, Text(source))
    ensures Blocks(TableOf(cmds + [Command(Ban(Text(source), ttl), at)] + later), source, now)
            <==> !Refuses(TableOf(cmds), Key(source)) && Enforced(Deadline(at.wall, ttl), now)
  {
    UnnamedSourceKeepsSlot(cmds + [Command(Ban(Text(source), ttl), at)], later, source);
    BanInserts(cmds, source, ttl, at);
  }

  /**
   The window of a timed ban. With the wall clock a fixed offset ahead of the boot clock at
   the ban, the source is blocked after some time has elapsed on the boot clock exactly
   while that is at most the offset plus the time to live, until it is named again,
   provided the table had room and the deadline is a positive 64-bit number.
   */
  lemma EnforcementWindow(cmds: seq<Command>, at: Instant, offset: int, t: U64, later: seq<Command>,
                          source: Octets, elapsed: nat, now: U64)
    requires at.wall == at.kernel + offset && now == at.kernel + elapsed
    requires 0 < at.wall + t * NANOS < TWO_64
    requires forall c :: c in later ==> !About(c, Text(source))
    ensures Blocks(TableOf(cmds + [Command(Ban(Text(source), Some(t)), at)] + later), source, now)
            <==> !Refuses(TableOf(cmds), Key(source)) && elapsed <= offset + t * 1_000_000_000
  {
    BanLasts(cmds, source, Some(t), at, later, now);
    EnforcedWithoutWrap(at.wall, t, now);
  }

  lemma EnforcedWithoutWrap(wall: U64, t: U64, now: U64)
    requires 0 < wall + t * NANOS < TWO_64
    ensures Enforced(Deadline(wall, Some(t)), now) <==> now <= wall + t * NANOS
  {
  }

  /** Once a source is not blocked it stays so until it is banned anew, whatever else is requested. */
  lemma {:induction false} ExpiryIsStable(cmds: seq<Command>, later: seq<Command>, source: Octets, now: U64, laterOn: U64)
    requires !Blocks(TableOf(cmds), source, now) && now <= laterOn
    requires forall c :: c in later && About(c, Text(source)) ==> c.request.Unban?
    ensures !Blocks(TableOf(cmds + later), source, laterOn)
  {
    if later == [] {
      assert cmds + later == cmds;
    } else {
      var init, last := later[..|later| - 1], later[|later| - 1];
      assert cmds + later == (cmds + init) + [last];
      assert forall c :: c in init ==> c in later;
      ExpiryIsStable(cmds, init, source, now, laterOn);
      TableStep(cmds + init, last);
      WritesSlotIff(last, source);
    }
  }

  /** Every reachable table holds at most 1024 entries. */
  lemma ReachableTablesFit(cmds: seq<Command>)
    ensures |TableOf(cmds)| <= MAX_ENTRIES
  {
    CapacityKept(map[], Ops(cmds));
  }

  // ----- Listing -----

  /** The texts of the addresses of a table. */
  function Texts(t: Table): set<string> {
    set k | k in t :: Text(OctetsOf(k))
  }

  /** Every address of the table, expired or not, exactly once and in any order. */
  predicate ListsExactly(list: seq<string>, t: Table) {
    multiset(list) == multiset(Texts(t))
  }

  lemma TextsGrow(t: Table, k: U32, end: U64)
    requires k !in t
    ensures Texts(t[k := end]) == Texts(t) + {Text(OctetsOf(k))}
    ensures Text(OctetsOf(k)) !in Texts(t)
  {
    TextsMember(t, OctetsOf(k));
    KeyRoundTrip(OctetsOf(k), k);
    var t' := t[k := end];
    forall s ensures s in Texts(t') <==> s in Texts(t) + {Text(OctetsOf(k))} {
      if s in Texts(t) {
        var j :| j in t && Text(OctetsOf(j)) == s;
        assert j in t';
      }
      assert k in t';
    }
  }

  lemma ListGrows(list: seq<string>, t: Table, k: U32, end: U64)
    requires k !in t && ListsExactly(list, t)
    ensures ListsExactly(list + [Text(OctetsOf(k))], t[k := end])
  {
    TextsGrow(t, k, end);
  }

  lemma TextsMember(t: Table, source: Octets)
    ensures Text(source) in Texts(t) <==> Key(source) in t
  {
    KeyRoundTrip(source, 0);
    if Text(source) in Texts(t) {
      var k :| k in t && Text(OctetsOf(k)) == Text(source);
      TextInjective(OctetsOf(k), source);
      KeyRoundTrip(source, k);
    }
  }

  lemma ListedIffHeld(list: seq<string>, t: Table, source: Octets)
    requires ListsExactly(list, t)
    ensures Text(source) in list <==> Key(source) in t
    ensures multiset(list)[Text(source)] <= 1
  {
    TextsMember(t, source);
    assert Text(source) in list <==> Text(source) in multiset(list);
  }

  /** Every source the packet path would block is listed exactly once. */
  lemma BlockedIsListedOnce(list: seq<string>, t: Table, source: Octets, now: U64)
    requires ListsExactly(list, t) && Blocks(t, source, now)
    ensures multiset(list)[Text(source)] == 1
  {
    TextsMember(t, source);
    assert multiset(Texts(t))[Text(source)] == 1;
  }

  /** The listing is the set of blocked sources exactly when no stored deadline has passed. */
  lemma ListIsEnforcedIff(list: seq<string>, t: Table, now: U64)
    requires ListsExactly(list, t)
    ensures (forall source: Octets :: Text(source) in list <==> Blocks(t, source, now))
            <==> (forall k :: k in t ==> Enforced(t[k], now))
  {
    forall source: Octets ensures Text(source) in list <==> Key(source) in t {
      ListedIffHeld(list, t, source);
    }
    if forall source: Octets :: Text(source) in list <==> Blocks(t, source, now) {
      forall k | k in t ensures Enforced(t[k], now) {
        KeyRoundTrip(OctetsOf(k), k);
        assert Text(OctetsOf(k)) in list;
      }
    }
  }

  predicate Lifts(cleanup: seq<Command>, list: seq<string>) {
    |cleanup| == |list| && forall i :: 0 <= i < |list| ==> cleanup[i].request == Unban(list[i])
  }

  lemma {:induction false} UnbansRemoveTheirTexts(cmds: seq<Command>, list: seq<string>, cleanup: seq<Command>, source: Octets)
    requires Lifts(cleanup, list)
    ensures Key(source) in TableOf(cmds + cleanup) <==> Key(source) in TableOf(cmds) && Text(source) !in list
  {
    if list == [] {
      assert cmds + cleanup == cmds;
    } else {
      var init, last := cleanup[..|list| - 1], cleanup[|list| - 1];
      assert cmds + cleanup == (cmds + init) + [last];
      assert list == list[..|list| - 1] + [list[|list| - 1]];
      UnbansRemoveTheirTexts(cmds, list[..|list| - 1], init, source);
      TableStep(cmds + init, last);
      WritesSlotIff(last, source);
    }
  }

  /** Sending an Unban for every listed string empties the table, for every history and listing. */
  lemma UnbanningTheListEmptiesTheTable(cmds: seq<Command>, list: seq<string>, cleanup: seq<Command>)
    requires ListsExactly(list, TableOf(cmds)) && Lifts(cleanup, list)
    ensures TableOf(cmds + cleanup) == map[]
  {
    forall k | k in TableOf(cmds + cleanup) ensures false {
      var source := OctetsOf(k);
      KeyRoundTrip(source, k);
      UnbansRemoveTheirTexts(cmds, list, cleanup, source);
      ListedIffHeld(list, TableOf(cmds), source);
    }
    assert TableOf(cmds + cleanup).Keys == {};
  }

  // ----- Replies -----

  function StatsText(dropped: Option<U64>): string {
    match dropped
    case Some(n) => "Packets dropped: " + Decimal(n)
    case None => "No stats"
  }

  /** What the daemon may answer to a request when it holds this table and this counter. */
  predicate Answers(t: Table, dropped: Option<U64>, request: Request, response: Response) {
    match request
    case Ban(target, _) => response == if Parse(target).Some? then Ok else Error("invalid ip")
    case Unban(target) => response == if Parse(target).Some? then Ok else Error("invalid ip")
    case List => response.Listed? && ListsExactly(response.list, t)
    case Stats => response == Figures(StatsText(dropped))
  }

  /** A ban or an unban is answered Ok exactly when its text is some address's, and an error otherwise. */
  lemma BanAnswer(t: Table, dropped: Option<U64>, request: Request, response: Response)
    requires Answers(t, dropped, request, response) && (request.Ban? || request.Unban?)
    ensures response == Ok <==> exists o: Octets :: request.target == Text(o)
    ensures response != Ok ==> response == Error("invalid ip")
  {
    if Parse(request.target).Some? {
      ParseIff(request.target, Parse(request.target).value);
    }
    if o: Octets :| request.target == Text(o) {
      ParseIff(request.target, o);
    }
  }

  /** A listing holds the text of each address of the table once, and nothing else. */
  lemma ListAnswer(t: Table, dropped: Option<U64>, response: Response, s: string)
    requires Answers(t, dropped, List, response)
    ensures response.Listed?
    ensures s in response.list <==> exists o: Octets :: Key(o) in t && s == Text(o)
    ensures multiset(response.list)[s] <= 1
  {
    assert s in response.list <==> s in multiset(response.list);
    if s in Texts(t) {
      var k :| k in t && Text(OctetsOf(k)) == s;
      KeyRoundTrip(OctetsOf(k), k);
      assert Key(OctetsOf(k)) in t && s == Text(OctetsOf(k));
    }
    if o: Octets :| Key(o) in t && s == Text(o) {
      TextsMember(t, o);
    }
  }

  /** The figures answered are the counter in decimal digits, without leading zeros, so they tell it exactly. */
  lemma StatsAnswer(t: Table, dropped: Option<U64>, response: Response)
    requires Answers(t, dropped, Stats, response)
    ensures dropped.None? ==> response == Figures("No stats")
    ensures dropped.Some? ==>
              && response.Figures? && "Packets dropped: " <= response.text
              && var digits := response.text[17..];
                 digits != [] && AllDigits(digits) && (|digits| > 1 ==> digits[0] != '0') && Value(digits) == dropped.value
  {
    if dropped.Some? {
      DecimalValue(dropped.value);
      assert response.text[17..] == Decimal(dropped.value);
    }
  }

  /** Equal figures mean equal counters. */
  lemma StatsTell(t: Table, u: Table, m: U64, n: U64, response: Response)
    requires Answers(t, Some(m), Stats, response) && Answers(u, Some(n), Stats, response)
    ensures m == n
  {
    StatsAnswer(t, Some(m), response);
    StatsAnswer(u, Some(n), response);
  }

  lemma StatsSample(t: Table)
    ensures Answers(t, Some(105), Stats, Figures("Packets dropped: 105"))
  {
    DecimalSample();
  }

  /**
   At capacity a ban of an address the table does not hold changes nothing; a ban of an
   address it holds always takes the new deadline.
   */
  lemma BanAtCapacity(cmds: seq<Command>, source: Octets, ttl: Option<U64>, at: Instant)
    requires |TableOf(cmds)| == MAX_ENTRIES
    ensures TableOf(cmds + [Command(Ban(Text(source), ttl), at)]) ==
            if Key(source) in TableOf(cmds) then TableOf(cmds)[Key(source) := Deadline(at.wall, ttl)] else TableOf(cmds)
  {
    BanInserts(cmds, source, ttl, at);
  }
}
