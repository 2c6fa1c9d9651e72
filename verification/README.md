# RustGuard: a verified model of the ban firewall and the connection monitor

RustGuard is a daemon that bans IPv4 addresses by text, an XDP program that drops packets
from banned sources, and a monitor that prints TCP connection events. The daemon and the
packet program share two kernel maps and nothing else: requests arrive as text on a
socket, packets as raw bytes on any number of CPUs, and the only link between the two is a
table of at most 1024 entries from a 32-bit key to a 64-bit nanosecond deadline. This
project models that logic in Dafny and proves what a packet's fate has to do with what was
requested.

## The modules

| module | models |
|---|---|
| Machine | fixed-width integers, byte orders, octets and map keys |
| Dotted | how addresses are printed and which texts are read as addresses |
| BanTable | the bounded table, its log of writes, refused insertions, log compaction |
| Requests | requests, deadlines, the table a history leaves behind, listings, answers |
| Classifier | the header walk by pointers, and the frame formats it recognises |
| BpfMap, Xdp | the shared kernel map, and the packet program as one call on it |
| Daemon | the byte stream, framing, and the request loop |
| Firewall | one daemon and any number of CPUs interleaving, one map access at a time |
| Promises | the times to live promised to clients, against that interleaving and its two clocks |
| EndToEnd | from client frames on sockets to the verdict on an Ethernet frame |
| DropCounter | the non-atomic drop counter under that interleaving |
| ProcessCache | the thirty-second cache of executable paths |
| Layout, NetEvents | C structure layout, the event record, socket addresses and names |
| Monitor | the drain loop |
| Counterexamples | inputs and runs at which the conditions below fail |

## Results that hold only under a condition

For each of these the code stays as it is, and the exact condition under which it does
what its names and help texts say is proved, in both directions, together with an input at
which it fails.

- A packet is dropped exactly when the last request naming its source says so, if and only
  if `Requests.Trusted` holds: the last ban was not refused by a full table, and its
  deadline did not overflow (`BlocksIffDemandedIff`, `DroppedIffDemanded`). It fails after
  1024 bans, when the next one is answered Ok and lost (`LostBan`, `LostBanIsAnsweredOk`),
  and the packets of its source pass (`BannedPacketPasses`). It also fails for a ban of
  18_000_000_000 seconds made in November 2023 (`OverflowingBan`).
- A time to live is kept if and only if `Requests.KeepsTtl` holds of the two clocks at the
  ban. The deadline is built from UTC (`rustguard/src/main.rs:157-160`, in a function named
  for boot time) and compared with time since boot (`rustguard-ebpf/src/main.rs:91`), so
  without overflow the promise of `rustguard/src/main.rs:50` is kept only if the two clocks
  agree (`TtlKeptIff`, `TtlNeedsEqualClocks`); `OneMinuteBanOutlivesAYear` is an instance.
  Over whole interleavings a packet is dropped exactly when a promised time to live covers
  it, if and only if `Promises.KeptAt` holds of the last ban's clocks and slot
  (`DroppedIffPromised`), and at every timestamp if and only if that ban was stored and
  keeps its time to live (`EveryTimestampIff`). On clocks a fixed offset apart every stored
  ban runs late by that offset (`TimedBansRunLate`).
- The listing, described as active bans at `rustguard/src/main.rs:59`, is the set of blocked
  sources if and only if no stored deadline has passed (`ListIsEnforcedIff`). It fails for
  any ban that has run out (`ExpiredBanIsListed`).
- The drop counter is exact if and only if no store fell between another CPU's load and its
  store (`CounterNeverExceedsDrops`); `AllButOneCanBeLost` and `AllButTwoCanBeLost` build
  the schedules that meet the lower bounds of `CounterGrows`.
- An IPv6 address is shown as itself if and only if it is not one of the two 16-byte forms
  of an IPv4 address (`Ipv6ShownIff`). It fails for 2001:db8:: (`Ipv6ShownAsIpv4`). The
  comment at `rustguard-common/src/event.rs:17` says IPv4 addresses are stored in mapped
  form; the code stores them in the first four bytes, and the model follows the code.
- A frame is read back if and only if its payload is shorter than 2^32 bytes
  (`FrameRoundTripIff`). One of exactly 2^32 bytes is read as an empty one
  (`HugeFrameReadsEmpty`).
- A pointer into the packet is given to bytes outside it if and only if their exact end
  address needs more than 64 bits and wraps to one at or before the packet's end
  (`PtrAtOutsideIff`, with `TopOfMemoryPacket` an instance).

## Assumptions

- `Ipv4Addr::from_str` of the Rust standard library reads four decimal octets of one to
  three digits, without leading zeros, separated by dots, in at most 15 characters;
  `to_string` prints the octets in decimal. `Dotted.Parse` and `Dotted.Text` are these.
- Integers wrap, as in a release build.
- A lookup, an insertion, a removal and a listing of a kernel map are each one step; only
  the drop counter's increment is split, into a load and a store.
- Clocks, `/proc`, the request format and the order in which a map yields its keys are
  parameters or are left free.

## Model

| member | source | states |
|---|---|---|
| Firewall.DroppedIffDemanded | rustguard-ebpf/src/main.rs:91-106 | in every interleaving, a complete TCP or UDP packet is dropped exactly when, at its lookup, the last request naming its source's dotted text is an unexpired ban, if and only if that history is trusted |
| Firewall.TableVerdicts | rustguard-ebpf/src/main.rs:91-106 | every verdict that needed the table is the one of the requests handled before the packet's own lookup, between its timestamp and its return |
| Firewall.HeaderVerdicts | rustguard-ebpf/src/main.rs:68-89 | every other verdict is settled by the headers, at arrival |
| Firewall.EveryVerdict | rustguard-ebpf/src/main.rs:68-106 | every verdict of every interleaving, needing the table or not, is the program's verdict on the packet with the table of the requests before one event |
| Firewall.AbortedIff | rustguard-ebpf/src/main.rs:47-89 | in every interleaving the packets aborted are those whose bytes are too short for Ethernet, or claim IPv4 and are too short for it, carry neither TCP nor UDP, or are too short for that |
| Xdp.VerdictByBytes | rustguard-ebpf/src/main.rs:47-106 | for any bytes, table and time, offset by offset: exactly which bytes are aborted and which are dropped |
| Xdp.OtherEtherTypesPass | rustguard-ebpf/src/main.rs:69-73 | a complete Ethernet header of any other type passes |
| Firewall.TableFollowsRequests | rustguard/src/main.rs:246-284 | whatever packets do in between, the table is the one the requests alone leave behind |
| Firewall.UnrefusedHistoriesAreTrusted | rustguard/src/main.rs:250-255 | no refused insertion and no overflowing deadline make a history trusted for every source at every time |
| Firewall.SmallHistoriesAreTrusted | rustguard-ebpf/src/main.rs:41-42 | so do at most 1024 banned addresses |
| EndToEnd.BytesToVerdict | rustguard/src/main.rs:221-266 | client frames on connections and a raw frame on a CPU: the frame is dropped exactly when, of the requests served before its lookup, the last one with the dotted text of its source octets demands it, and exactly when one promises it, each under its exact condition |
| EndToEnd.EveryClientIsAnswered | rustguard/src/main.rs:107-140 | when each client sends one framed request, client i reads a response to its own request by the table of the requests before it |
| Promises.DroppedIffPromised | rustguard-ebpf/src/main.rs:91-106 | in every interleaving, a packet is dropped exactly when the last request naming its source is a ban whose promised time to live from its own moment covers the packet's timestamp, if and only if KeptAt holds of that ban's clocks and slot |
| Promises.PromisedStep | rustguard/src/main.rs:50-52 | a ban's time to live in seconds counts from the boot clock at the ban, an unban ends it, other requests leave it |
| Promises.EveryTimestampIff | rustguard-ebpf/src/main.rs:91-94 | after any run, a source's packets meet the promise at every timestamp if and only if its last ban was stored with clocks that keep its time to live |
| Promises.KeptAlwaysIff | rustguard/src/main.rs:250-254 | a history keeps its promise about a source at every instant exactly when the last ban naming it is dependable |
| Promises.TimedBansRunLate | rustguard/src/main.rs:157-160 | in a run whose clocks stay a fixed offset apart, a stored timed ban that fits is enforced exactly until its boot time plus offset plus time to live |
| Requests.BlocksIffDemandedIff | rustguard/src/main.rs:248-266 | the table blocks a source exactly when the request texts demand it, exactly when the history is trusted for it |
| Requests.DemandedStep | rustguard/src/main.rs:248-266 | what one more request makes a history demand for a text: for good, for so many seconds of the wall clock, nothing, or what was demanded before |
| Requests.BanEffect | rustguard/src/main.rs:250-255 | a ban writes 0 or the sum wrapped at 2^64 under the address, unless the table holds 1024 others |
| Requests.UnbanEffect | rustguard/src/main.rs:260-262 | an unban removes its address and no other |
| Requests.OtherRequestsDoNothing | rustguard/src/main.rs:246-284 | a text that is no address's, a listing and a request for figures leave the table alone |
| Requests.BanAnswer | rustguard/src/main.rs:249-266 | a ban or unban is answered Ok exactly when its text is some address's, and "invalid ip" otherwise |
| Requests.ListAnswer | rustguard/src/main.rs:268-274 | a listing holds the text of each address held once, and nothing else |
| Requests.StatsAnswer | rustguard/src/main.rs:276-282 | the figures are the counter in decimal digits without leading zeros, and "No stats" without a counter |
| Requests.StatsTell | rustguard/src/main.rs:276-282 | equal figures mean equal counters |
| Requests.StatsSample | rustguard/src/main.rs:276-282 | a counter of 105 may be answered "Packets dropped: 105" |
| Requests.SlotIs | rustguard/src/main.rs:248-266 | a source's entry is the wrapped deadline of the last ban naming it, unless that ban was lost |
| Requests.WritesSlotIff | rustguard/src/main.rs:248-266 | a request writes a source's entry exactly when it names the source's own dotted text |
| Requests.OtherTextsDoNotMatter | rustguard/src/main.rs:248-266 | a request naming another text changes no verdict about a source |
| Requests.WallDeadlineIff | rustguard/src/main.rs:251 | a timed ban lasts to its wall-clock deadline at every instant exactly when the sum is positive and fits, or wraps to 0 or the maximum |
| Requests.TtlKeptIff | rustguard/src/main.rs:157-160 | the packet clock enforces exactly the promised time to live if and only if KeepsTtl holds of the clocks at the ban |
| Requests.TtlNeedsEqualClocks | rustguard/src/main.rs:157-160 | without overflow that is exactly when the clocks agree |
| Requests.OneMinuteBanOutlivesAYear | rustguard/src/main.rs:250-253 | an instance: a one-minute ban enforced a year later |
| Requests.EnforcementWindow | rustguard/src/main.rs:250-254 | with the wall clock an offset ahead of the boot clock at the ban, the source is blocked, until named again, exactly while at most offset plus time to live has elapsed on the boot clock, if the table had room |
| Requests.ExpiryIsStable | rustguard-ebpf/src/main.rs:92-94 | a source not blocked stays so in every continuation without a new ban for it |
| Requests.ReachableTablesFit | rustguard-ebpf/src/main.rs:41-42 | every reachable table has at most 1024 entries |
| Requests.BanAtCapacity | rustguard/src/main.rs:254-255 | when a history has filled the table, a ban of a new address leaves the table as it was and one of a held address takes the new deadline |
| Counterexamples.BansFillTheTable | rustguard-ebpf/src/main.rs:41-42 | n bans of different addresses leave exactly n entries, up to 1024 |
| Counterexamples.LastThatFits | rustguard-ebpf/src/main.rs:41-42 | the 1024th ban of a new address is stored |
| Counterexamples.LostBan | rustguard/src/main.rs:254-255 | after 1024 bans the next permanent one is demanded for good, lost, and blocked never |
| Counterexamples.LostBanIsAnsweredOk | rustguard/src/main.rs:254-255 | the daemon that served those bans answers the next one Ok and holds no entry for it |
| Counterexamples.BannedPacketPasses | rustguard-ebpf/src/main.rs:91-106 | a run of the whole firewall ends in a packet passing although its source is banned for good |
| Counterexamples.WrappedBan | rustguard/src/main.rs:251 | a ban whose deadline exceeds 64 bits is demanded and not blocked at every instant after its wrapped deadline |
| Counterexamples.OverflowingBan | rustguard/src/main.rs:251 | an instance: 18_000_000_000 seconds from November 2023 |
| Counterexamples.ExpiredBanIsListed | rustguard/src/main.rs:268-274 | a sole ban that has run out is listed and not blocked |
| Requests.BlockedIsListedOnce | rustguard/src/main.rs:268-274 | every blocked source is listed exactly once |
| Requests.ListIsEnforcedIff | rustguard/src/main.rs:268-274 | the listing is the set of blocked sources exactly when no stored deadline has passed |
| Requests.UnbanningTheListEmptiesTheTable | rustguard/src/main.rs:260-274 | unbanning every listed string empties the table, for every history and listing order |
| BanTable.LastWriteWinsIff | rustguard/src/main.rs:254-262 | the table agrees with the last write about an address exactly when it was not refused |
| BanTable.FewAddressesAreNeverRefused | rustguard-ebpf/src/main.rs:41-42 | a log inserting at most 1024 addresses has no refused last write |
| BanTable.CompactKeepsLast | rustguard/src/main.rs:248-266 | the compacted log says of every address what the full one says last |
| BanTable.CompactIsDistinct | rustguard/src/main.rs:248-266 | the compacted log mentions every address at most once |
| BanTable.CompactionIff | rustguard/src/main.rs:248-266 | the compacted log builds the unbounded table, and meets no refusal, exactly when that table fits |
| BanTable.CompactionPreservesTable | rustguard/src/main.rs:248-266 | if no address's last insertion was refused, compaction keeps the table and meets no refusal |
| Dotted.ParseIff | rustguard/src/main.rs:248-266 | a target reads as an address exactly when it is that address's printed text |
| Dotted.TextSample | rustguard/src/main.rs:271 | the first octet is written first |
| Dotted.DecimalSample | rustguard/src/main.rs:271-279 | the most significant digit is written first |
| Machine.FirstByteIsMostSignificant | rustguard-ebpf/src/main.rs:76 | in network order the first byte counts for the most |
| Machine.NetworkOrder | rustguard-ebpf/src/main.rs:76 | the value of four bytes in network order, place by place |
| Machine.ByteOrders | rustguard-ebpf/src/socket.rs:31-36 | the value of two bytes in either native order |
| Machine.KeyRoundTrip | rustguard/src/main.rs:254-271 | octets and map keys determine each other |
| Classifier.WalkRefinesClassify | rustguard-ebpf/src/main.rs:68-89 | the pointer walk gives the declarative verdict on every packet, reading only inside it |
| Classifier.ClassifyFrame | rustguard-ebpf/src/main.rs:69-89 | a frame built from fields is classified by the meaning of those fields |
| Classifier.AskIff | rustguard-ebpf/src/main.rs:69-92 | the table is asked about a source exactly for complete TCP or UDP over IPv4 frames from it |
| Classifier.AskByBytes | rustguard-ebpf/src/main.rs:76-87 | the source asked about and the port logged are bytes 26 to 29 and 34 to 35 |
| Classifier.PtrAtIsBoundsCheck | rustguard-ebpf/src/main.rs:56-66 | without wrap-around a pointer is given exactly when all its bytes are in the packet |
| Classifier.PtrAtOutsideIff | rustguard-ebpf/src/main.rs:56-66 | a pointer is given to bytes outside the packet exactly when their exact end needs more than 64 bits and wraps to at most the packet's end |
| Classifier.TopOfMemoryPacket | rustguard-ebpf/src/main.rs:56-66 | an instance: eight bytes at the top of memory pass the IPv4 header check |
| Classifier.NonInterference | rustguard-ebpf/src/main.rs:68-89 | header length, options, ports and payload cannot influence the classification |
| Xdp.SameVerdict | rustguard-ebpf/src/main.rs:68-106 | equal length, ether type, protocol and source give equal verdicts |
| Xdp.TextMeetsWire | rustguard-ebpf/src/main.rs:76-92 | a request text and a packet meet in the same key exactly when the text is the dotted decimal of the source bytes |
| Xdp.Program.TryRustguard | rustguard-ebpf/src/main.rs:68-107 | the in-place call: verdict by table, counter bumped with wrap-around only on a drop and only if present |
| Xdp.Program.Rustguard | rustguard-ebpf/src/main.rs:47-53 | errors become aborted packets |
| BpfMap.HashMap.Insert | rustguard-ebpf/src/main.rs:41-42 | insertion overwrites, adds while there is room, and otherwise changes nothing |
| Daemon.Server.Handle | rustguard/src/main.rs:246-284 | each request's effect on the table and its answer, with the table tied to the whole history and the figures to entry 0 |
| Daemon.Server.Keys | rustguard/src/main.rs:268-274 | the listing loop yields every key's text exactly once |
| Daemon.Server.Serve | rustguard/src/main.rs:231-301 | one connection: an incomplete request changes nothing and gets no answer, unreadable bytes get an error, a request gets one framed answer |
| Daemon.Server.Run | rustguard/src/main.rs:221-303 | any number of connections leave the history of their complete requests, and each is sent the framed answer of the table left by all before it |
| Daemon.ClientsAreHeard | rustguard/src/main.rs:107-118 | connections that carry one framed request each amount to exactly those requests, in order, each at the moment it was handled |
| Daemon.Stream.ReadExact | rustguard/src/main.rs:239-244 | fills the buffer with the next bytes, or fails if the stream ends first |
| Daemon.FrameRoundTripIff | rustguard/src/main.rs:115-117 | a frame is read back, leaving the rest, exactly when its payload is under 2^32 bytes |
| Daemon.FrameBytes | rustguard/src/main.rs:115-117 | on the wire the length comes first, in network order |
| Counterexamples.HugeFrameReadsEmpty | rustguard/src/main.rs:115-117 | a payload of exactly 2^32 bytes is read as an empty one with all its bytes left over |
| Daemon.ReadIsFramed | rustguard/src/main.rs:231-244 | whatever is read is what its frame was built from |
| Daemon.PartialFrameIsNotRead | rustguard/src/main.rs:231-244 | no strict prefix of a frame is read |
| Daemon.RequestRoundTrip | rustguard/src/main.rs:115-117 | the daemon receives the client's request whole or not at all |
| Daemon.ReplyRoundTrip | rustguard/src/main.rs:120-140 | the client sees the response as sent, or an error |
| Daemon.ClientSees | rustguard/src/main.rs:120-140 | without a complete request the client reads no length, for bytes that are not a request "invalid request", and for a request a response to it |
| DropCounter.CounterNeverExceedsDrops | rustguard-ebpf/src/main.rs:95-100 | below 2^64 drops, counter and loaded values never exceed the drops begun; at rest the counter is exact exactly when no store came between a load and its store |
| DropCounter.CounterGrows | rustguard-ebpf/src/main.rs:95-100 | after any counted drop the counter has grown by at least one, by at least two if the last storing CPU stored twice |
| DropCounter.AllButOneCanBeLost | rustguard-ebpf/src/main.rs:95-100 | any number of drops can end with one counted |
| DropCounter.AllButTwoCanBeLost | rustguard-ebpf/src/main.rs:95-100 | two CPUs with any number of drops each, at least one, can end with two counted |
| DropCounter.UndisturbedCountsModulo | rustguard-ebpf/src/main.rs:95-100 | undisturbed counting is exact modulo 2^64, for any number of drops |
| DropCounter.SerialRunsConserveDrops | rustguard-ebpf/src/main.rs:95-102 | in every serial run at rest the counter is its start plus the drops, modulo 2^64 |
| DropCounter.PresenceKept | rustguard/src/main.rs:276-282 | an absent counter stays absent and Stats answers "No stats"; a present one stays present |
| DropCounter.BegunIsStoredOrPending | rustguard-ebpf/src/main.rs:95-102 | every drop begun is counted by a store or pending on one CPU |
| DropCounter.UninterruptedIsOneCall | rustguard-ebpf/src/main.rs:68-107 | uninterrupted steps are the packet program's single call |
| ProcessCache.RateBound | rustguard/src/monitor.rs:134-150 | however many calls are made, at most W/30s + 1 of those that read /proc for one process fall in a window of width W |
| ProcessCache.ReadsAreSpaced | rustguard/src/monitor.rs:134-150 | of any two calls that read /proc for one process, the later checks thirty seconds or more after the earlier's stamp |
| ProcessCache.ReadIff | rustguard/src/monitor.rs:137-141 | a call reads /proc exactly when no earlier read for the process has a stamp under thirty seconds old |
| ProcessCache.EntryComesFrom | rustguard/src/monitor.rs:143-147 | every entry is what /proc said at the last read for its process, under that read's stamp |
| ProcessCache.AnswerIsRecent | rustguard/src/monitor.rs:134-150 | every answer is the path /proc gave, or "<unknown>" if it gave none, at a read stamped less than thirty seconds before the check |
| ProcessCache.Cache.Exe | rustguard/src/monitor.rs:134-150 | the in-place cache answers with the path /proc gave, or "<unknown>", at this or an earlier read for the process stamped less than thirty seconds before, as the history of calls determines |
| Layout.FieldsAreDisjoint | rustguard-common/src/event.rs:121-148 | in any C structure fields are aligned, ordered and disjoint |
| Layout.FieldIsAtItsOffset | rustguard-common/src/event.rs:121-148 | in any C structure every field is found whole at its offset, whatever padding holds |
| NetEvents.NetEventLayout | rustguard-common/src/event.rs:121-155 | the offsets of the fourteen fields, one padding byte at 79, 88 bytes |
| NetEvents.EventBytes | rustguard-common/src/event.rs:121-148 | which bytes of the record hold which field, and that byte 79 holds padding |
| Layout.GapIsPadding | rustguard-common/src/event.rs:121-148 | in any C structure, nothing but padding lies between fields |
| NetEvents.EventRoundTrip | rustguard/src/monitor.rs:76-80 | casting an event's bytes back gives the event, on either byte order |
| NetEvents.DecodesIff | rustguard-common/src/event.rs:20-118 | 88 bytes are an event exactly when bytes 28, 29 and 30 are codes of the three enumerations |
| NetEvents.DecodedCodes | rustguard-common/src/event.rs:20-118 | which event, protocol and direction those bytes say |
| NetEvents.DecodedByBytes | rustguard-common/src/event.rs:121-148 | which bytes every other field is read from |
| NetEvents.ShownAsIpv4Iff | rustguard/src/monitor.rs:114-126 | exactly the two 16-byte forms of an IPv4 address are shown as it |
| NetEvents.ShownAlikeIff | rustguard/src/monitor.rs:114-126 | two addresses look alike exactly when equal or forms of one IPv4 address |
| NetEvents.Ipv6ShownIff | rustguard-ebpf/src/socket.rs:40-48 | an IPv6 socket address is shown as itself exactly when it is neither form |
| Counterexamples.Ipv6ShownAsIpv4 | rustguard/src/monitor.rs:114-126 | 2001:db8:: is shown as 32.1.13.184 |
| NetEvents.FilledIpv4Shows | rustguard-ebpf/src/socket.rs:23-37 | network-order octets and port in an IPv4 socket's memory are what filling makes visible, on either byte order |
| NetEvents.FilledIpv6Shows | rustguard-ebpf/src/socket.rs:40-54 | an IPv6 socket's own address bytes, local port and remote port are what filling makes visible |
| NetEvents.FillingKeeps | rustguard-ebpf/src/socket.rs:10-54 | filling changes no field but addresses and ports, and nothing for a family other than 2 and 10 |
| NetEvents.MappedFormSample | rustguard/src/monitor.rs:120-123 | the mapped form of 192.0.2.1 is shown as it |
| Monitor.Ipv4ConnectionIsShown | rustguard/src/monitor.rs:89-107 | from an IPv4 socket's memory through filling, layout and cast, the printed line shows the socket's own addresses and ports |
| Monitor.Ipv6ConnectionShownIff | rustguard/src/monitor.rs:89-107 | an IPv6 socket's line shows its own ports, and its own addresses exactly when neither is a form of an IPv4 address |
| NetEvents.EventBuffer.FillSocket | rustguard-ebpf/src/socket.rs:10-20 | which event fields each address family fills, and with what |
| NetEvents.CommToStr | rustguard-ebpf/src/kernel.rs:60-75 | the scan returns the longest prefix without a NUL |
| Monitor.RingRoundTrip | rustguard/src/monitor.rs:73-107 | a ring of encoded events is shown whole and in order, each line field by field the event's own, its name up to the first NUL, and the cache is asked for each event's process |
| Monitor.OneRequestPerLine | rustguard/src/monitor.rs:89-99 | for any ring the cache is asked once for each line, for the process the line names |
| Monitor.StrayRecordIsSkipped | rustguard/src/monitor.rs:76-78 | a record that is not 88 bytes long adds nothing to what is shown, wherever it is |
| Monitor.Drain | rustguard/src/monitor.rs:73-83 | the loop prints one line per record of the right size, in ring order, and makes the matching cache calls |

## Left out

- Loading and attaching the programs, memory limits, loggers, ctrl-c and the build scripts: foreign calls.
- Accepting connections, socket permissions and write failures: only the byte streams are modelled, and a failed write loses an answer without touching the table.
- The JSON text of requests and responses: a codec parameter that decodes what it encodes stands for it.
- Kernel map internals such as preallocation, element reuse and per-CPU free lists: every access but the counter's increment is one step.
- A debug build, where the deadline arithmetic stops the daemon's task instead of wrapping.
- IPv6 text and lossy UTF-8 decoding of process names: the model stops at a V4 or V6 value and at the name's bytes.
- Column layout, arrows, result strings, the time-of-day column and the display names of enumerations.
- Process and thread ids, socket cookies, elapsed times and the direction table: one-line facts.
- Records of the right size that are not an event: the cast is undefined there, so the drain loop requires that none occur.
- The CIDR, ASN and country targets in the help text: only single IPv4 addresses are read.
- Daemon.Server.Run: no packet is dropped between its connections, so the drop counter it reports stands still; Firewall interleaves requests with packets.
- ProcessCache.Cache.Exe: takes the three clock readings of a call as arguments, in order, because the clock is not part of the model.
