/** The packet program as one uninterrupted call on the shared maps. */
module Xdp {
  import opened Machine
  import opened BanTable
  import opened Dotted
  import opened Requests
  import opened Classifier
  import opened BpfMap

  const DROPPED: U32 := 0

  /** A wrapping 64-bit increment. */
  function Bump(n: U64): U64 {
    Wrap64(n + 1)
  }

  /** The verdict on a packet at a kernel time, given the ban table. */
  function Verdict(t: Table, packet: seq<Byte>, now: U64): Action {
    Decide(t, Classify(packet), now)
  }

  function Decide(t: Table, parsed: Parsed, now: U64): Action {
    match parsed
    case Stop(action) => action
    case Ask(source, _) => if Blocks(t, source, now) then Drop else Pass
  }

  /**
   The verdict on any bytes, offset by offset. Bytes are aborted exactly when they are too
   short for an Ethernet header, or claim IPv4 and are too short for its header, carry
   neither TCP nor UDP, or are too short for that header. They are dropped exactly when
   they are a complete TCP or UDP packet over IPv4 whose source is in the table under a
   deadline that is 0 or has not passed. All others pass.
   */
  lemma VerdictByBytes(t: Table, p: seq<Byte>, now: U64)
    ensures Verdict(t, p, now) == Aborted <==>
            |p| < 14
            || (p[12..14] == [0x08, 0x00]
                && (|p| < 34 || p[23] !in {6, 17} || (p[23] == 6 && |p| < 54) || (p[23] == 17 && |p| < 42)))
    ensures Verdict(t, p, now) == Drop <==>
            && |p| >= 42 && p[12..14] == [0x08, 0x00]
            && (p[23] == 17 || (p[23] == 6 && |p| >= 54))
            && (var key := p[26] as int * 0x100_0000 + p[27] as int * 0x1_0000 + p[28] as int * 0x100 + p[29];
                key in t && (t[key] == 0 || now <= t[key]))
  {
    if |p| >= 34 {
      NetworkOrder(p[26..30]);
      assert p[14..][12..16] == p[26..30];
    }
  }

  /** Bytes that are not IPv4 pass, whatever the table holds. */
  lemma OtherEtherTypesPass(t: Table, p: seq<Byte>, now: U64)
    requires |p| >= 14 && p[12..14] != [0x08, 0x00]
    ensures Verdict(t, p, now) == Pass
  {
    VerdictByBytes(t, p, now);
  }

  /**
   Packets of one length that agree on ether type, protocol and source address get the
   same verdict from the same table at the same time, whatever else they hold.
   */
  lemma SameVerdict(t: Table, p: seq<Byte>, q: seq<Byte>, now: U64)
    requires |p| == |q|
    requires |p| >= ETH_LEN ==> p[12..14] == q[12..14]
    requires |p| >= ETH_LEN + IPV4_LEN ==> p[23] == q[23] && p[26..30] == q[26..30]
    ensures Verdict(t, p, now) == Verdict(t, q, now)
  {
    NonInterference(p, q);
  }

  /**
   The key made from a request's text is the key made from a packet's source bytes exactly
   when the text is the dotted decimal of those bytes.
   */
  lemma TextMeetsWire(target: string, p: seq<Byte>)
    requires Classify(p).Ask?
    ensures |p| >= ETH_LEN + IPV4_LEN
    ensures Parse(target).Some? && Key(Parse(target).value) == FromBE(p[26..30]) <==> target == Text(p[26..30])
  {
    var wire: Octets := p[26..30];
    ParseIff(target, wire);
    if Parse(target).Some? && Key(Parse(target).value) == Key(wire) {
      KeyInjective(Parse(target).value, wire);
    }
  }

  function Counter(stats: map<U32, U64>): Option<U64> {
    if DROPPED in stats then Some(stats[DROPPED]) else None
  }

  class Program {
    const bannedIps: HashMap<U64>
    const stats: HashMap<U64>

    constructor (bannedIps: HashMap<U64>, stats: HashMap<U64>)
      ensures this.bannedIps == bannedIps && this.stats == stats
    {
      this.bannedIps := bannedIps;
      this.stats := stats;
    }

    method ParseHeaders(ctx: XdpContext) returns (parsed: Parsed)
      requires ctx.Valid() && NoWrap(ctx)
      ensures parsed == Classify(ctx.packet)
    {
      WalkRefinesClassify(ctx);
      parsed := Walk(ctx);
    }

    /** None stands for the error return, which the caller turns into an aborted packet. */
    method TryRustguard(ctx: XdpContext, now: U64) returns (verdict: Option<Action>)
      requires ctx.Valid() && NoWrap(ctx) && stats.Valid() && bannedIps != stats
      modifies stats
      ensures stats.Valid()
      ensures (if verdict.Some? then verdict.value else Aborted) == Verdict(bannedIps.entries, ctx.packet, now)
      ensures stats.entries ==
              if verdict == Some(Drop) && DROPPED in old(stats.entries)
              then old(stats.entries)[DROPPED := Bump(old(stats.entries)[DROPPED])]
              else old(stats.entries)
    {
      var source: Octets;
      var parsed := ParseHeaders(ctx);
      match parsed {
        case Stop(Aborted) => return None;
        case Stop(action) => return Some(action);
        case Ask(s, _) => source := s;
      }
      var ban := bannedIps.Get(Key(source));
      if ban.Some? {
        if ban.value == PERMANENT || now <= ban.value {
          var stat := stats.Get(DROPPED);
          if stat.Some? {
            stats.Store(DROPPED, Bump(stat.value));
          }
          return Some(Drop);
        }
      }
      return Some(Pass);
    }

    method Rustguard(ctx: XdpContext, now: U64) returns (action: Action)
      requires ctx.Valid() && NoWrap(ctx) && stats.Valid() && bannedIps != stats
      modifies stats
      ensures stats.Valid()
      ensures action == Verdict(bannedIps.entries, ctx.packet, now)
      ensures Counter(stats.entries) ==
              match Counter(old(stats.entries))
              case None => None
              case Some(n) => Some(if action == Drop then Bump(n) else n)
    {
      var verdict := TryRustguard(ctx, now);
      match verdict {
        case Some(ret) => return ret;
        case None => return Aborted;
      }
    }
  }
}
