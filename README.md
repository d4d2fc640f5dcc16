# A verified model of a small RIPv2 router's packet core

This project models, in Dafny, the packet-level core of a small IPv4 router that
speaks RIPv2 (RFC 2453). It proves properties of that model. The core has five parts:

- **IPv4 header checksum validation** (`checksum.dfy`, module `Checksum`).
  - The 16-bit words of the header are summed, leaving out the stored checksum at offset 10.
  - The sum is folded twice with end-around carry.
  - The stored word is compared with the low 16 bits of the complement.
  - For headers longer than 10 bytes, the model proves that an accepted header sums, checksum word included, to all ones in one's-complement arithmetic (the RFC 1071 receiver test). The converse holds except when the sum of the other words is zero or the stored word is 0xFFFF: the two encodings of zero.
  - The model also proves that flipping any one bit of an accepted header makes validation fail, except the four header-length bits of byte 0.
- **The forwarding header update** (`forwarding.dfy`, module `Forwarding`).
  - It re-validates the checksum.
  - On success, it decrements the TTL in place and rewrites the checksum bytes. On failure, it leaves the packet untouched.
  - The model proves that a forwarded packet validates again.
- **The routing table** (`lookup.dfy`, module `Lookup`). This is a class holding the route vector.
  - `update` erases the first route with the same (address, length) and appends when inserting.
  - `query` is a longest-prefix-match linear scan.
  - The response builder applies split horizon. It derives each mask from the length and adds one hop to the metric in network order.
- **The RIPv2 codec** (`protocol.dfy`, module `Protocol`).
  - `disassemble` checks the header and each 20-byte entry, then loads the fields.
  - `assemble` writes the header and the entries.
  - Round trips are proved in both directions.
- **The main loop's own logic** (`router.dfy`, module `Router`):
  - seeding the direct routes;
  - extracting the source and destination addresses;
  - the "is this packet for me" test;
  - the handler that reconciles a received RIP response with the table.

`bytes.dfy` (module `Bytes`) holds the byte-order conventions.

- **Wire order.** Every "big endian" 32-bit field is the word composed *little-endian* from its wire bytes (`Load32LE`, `b0 + b1<<8 + b2<<16 + b3<<24`). `Le32` is its inverse. So 1.2.3.4 is `0x04030201`.
- **`ntohl`.** This is `Swap32`, a byte reversal.
- **Unsigned arithmetic.** C's unsigned arithmetic is written out explicitly:
  - `% 0x1_0000_0000` for 32-bit wrap-around;
  - `NotU64` for `~` on a 64-bit `unsigned long`;
  - `% 0x100` for the 8-bit TTL decrement.

Two points in `lookup.cpp` are read by intent:

- **`*resp.`** The response builder writes `*resp.field` where `resp->field` is meant. Since `resp` is a `RipPacket *`, `*resp.field` does not compile.
- **The function name.** It is defined as `buidRipPacket` but declared and called as `buildRipPacket`. It is modelled once, as `Lookup.RoutingTable.BuildRipPacket`.

The model follows these quirks of the code, several of which depart from RFC 2453:

- **The reconciler uses `query`.** It is a longest-prefix match on the entry's address, not a lookup of the exact prefix.
- **Withdrawal is not final.** It triggers only for a raw metric strictly above `0x10000000`, and it is followed by the same query and insert as every other entry.
- **Metrics are compared raw.** All metric comparisons use the raw network-order words.
- **The mask check runs on the little-endian-loaded value.** The value must be `2^k - 1`. For non-byte-aligned masks this is not the same as "a left-aligned run of ones in network order".
- **The query result on a hit.** The reported route is the first matching route of strictly greatest length.

## Model

| member | source | states |
|---|---|---|
| Checksum.HeaderLength | Homework/checksum/checksum.cpp:12 | the header length is 4 times the low nibble of byte 0: a multiple of 4, at most 60 |
| Checksum.SumHeaderWords | Homework/checksum/checksum.cpp:15-25 | the loop's sum is the sum of the big-endian words at even offsets below the length, offset 10 excluded; the word at offset 10 is captured as the stored checksum (0 if the header is shorter) |
| Checksum.ValidateIPChecksum | Homework/checksum/checksum.cpp:10-36 | the result is true exactly when the stored word equals the low 16 bits of the complement of the twice-folded sum; the packet is only read |
| Checksum.FoldIsOnesComplementSum | Homework/checksum/checksum.cpp:26-27 | the folded sum, cut to 16 bits, is congruent to the plain sum modulo 0xFFFF and is zero only for a zero sum, so it is the one's-complement sum |
| Checksum.ExpectedIsComplement | Homework/checksum/checksum.cpp:28 | the checksum the header should carry is 0xFFFF minus the folded sum's low 16 bits |
| Checksum.ValidMeansAllOnesSum | Homework/checksum/checksum.cpp:10-36 | for a header longer than 10 bytes, an accepted header has a one's-complement sum, checksum word included, of all ones; the converse holds when the sum of the other words is non-zero and the stored word is not 0xFFFF (the two encodings of zero) |
| Checksum.HeaderSumFrame | Homework/checksum/checksum.cpp:15-25 | the header sum reads only bytes below the header length and never bytes 10 and 11 |
| Checksum.HeaderSumChange | Homework/checksum/checksum.cpp:15-25 | changing byte k changes the header sum by the byte's difference times its weight in the big-endian word (256 at even offsets, 1 at odd ones), and not at all outside the header or at offsets 10 and 11 |
| Checksum.SingleBitFlipDetected | Homework/checksum/checksum.cpp:10-36 | flipping any one bit below the header length of an accepted header, other than bits 0-3 of byte 0 (the length itself), makes validation fail; a flip of the version bits 4-7 keeps the length, and the flipped header is still inside the buffer |
| Forwarding.Forwarded | Homework/forwarding/forwarding.cpp:33-45 | after a successful forward, the TTL is the old TTL minus 1 modulo 256 (no check for 0), and every byte other than 8, 10 and 11 is unchanged |
| Forwarding.Forward | Homework/forwarding/forwarding.cpp:13-52 | returns true exactly when the incoming checksum is valid; then the packet becomes `Forwarded` of the old packet, otherwise every byte is unchanged |
| Forwarding.ForwardedIsValid | Homework/forwarding/forwarding.cpp:34-45 | the rewritten bytes 10-11 hold the recomputed checksum, so a forwarded packet passes validation again |
| Protocol.ParseRip | Homework/protocol/protocol.cpp:47-91 | accepts exactly when the Total Length is within `len`, command is 1 or 2, version is 2, the zero bytes are 0, and every one of the `(len - headlength - 4) / 20` entries (computed with 32-bit wrap-around) is present and passes its checks; the result has that count, at most 25, the command, and each entry loaded little-endian from offset 4*IHL + 8 + 4 + 20i |
| Protocol.ParseEntries | Homework/protocol/protocol.cpp:59-87 | the entries load only when every one is accepted; then there are exactly n of them, each loaded from its 20-byte slot |
| Protocol.CheckEntry | Homework/protocol/protocol.cpp:60-86 | one entry is accepted exactly when the family byte matches the command, the tag bytes are zero, the loaded mask is 2^k - 1 and the swapped metric is in [1,16]; it yields the four loaded words |
| Protocol.CheckEntries | Homework/protocol/protocol.cpp:59-87 | the entry loop fails exactly when some entry it reaches is rejected, and stops there; otherwise all `count` entries are in the buffer and it loads them, as `ParseEntries` |
| Protocol.FirstEntryRejected | Homework/protocol/protocol.cpp:58-62 | a message whose first entry fails its checks is handled and rejected whatever count `len` implies, an oversized or wrapped count included |
| Protocol.MaskIsContiguous | Homework/protocol/protocol.cpp:70-79 | the bit loop accepts a loaded mask exactly when it is 2^k - 1 for some k in 0..32 |
| Protocol.NotLowOnes | Homework/protocol/protocol.cpp:70-79 | a zero bit below a one bit rules out the accepted mask form |
| Protocol.Disassemble | Homework/protocol/protocol.cpp:47-91 | returns exactly `ParseRip`: nothing on any failed check, the loaded message otherwise |
| Protocol.EncodeEntry | Homework/protocol/protocol.cpp:110-129 | an entry takes exactly 20 bytes; its inverse is `EntryRoundTrip` |
| Protocol.EncodeRip | Homework/protocol/protocol.cpp:104-131 | the message takes 4 + 20 * numEntries bytes, the length `assemble` returns; its inverse is `DisassembleAssemble` |
| Protocol.Assemble | Homework/protocol/protocol.cpp:103-132 | writes exactly `EncodeRip` (header [command, 2, 0, 0] and the entries), returns 4 + 20 * numEntries and leaves the rest of the buffer unchanged |
| Protocol.WriteEntry | Homework/protocol/protocol.cpp:110-129 | one loop iteration writes the 20 bytes of one entry and nothing else |
| Protocol.EntryRoundTrip | Homework/protocol/protocol.cpp:66-69 | loading an encoded entry gives it back, and it passes the entry checks when its mask and metric are acceptable |
| Protocol.DisassembleAssemble | Homework/protocol/protocol.cpp:47-132 | a well-formed message, assembled after the IPv4 and UDP headers with a matching `len`, is disassembled into the same message |
| Protocol.AssembleDisassemble | Homework/protocol/protocol.cpp:47-132 | a disassembled message is well formed, and assembling it gives back every received RIP byte except each entry's first family byte, which is never checked |
| Protocol.LoadedWellFormed | Homework/protocol/protocol.cpp:55-82 | what the checks accept is a well-formed message: known command, masks 2^k - 1, host metrics in [1,16] |
| Protocol.EntryCountExact | Homework/protocol/protocol.cpp:58 | the entry count comes from `len` and is n whenever `len` covers exactly n entries plus fewer than 20 bytes |
| Lookup.FindKey | Homework/lookup/lookup.cpp:38-43 | the first position holding a route for the same (addr, len), or none exactly when there is none |
| Lookup.Removed | Homework/lookup/lookup.cpp:38-43 | erasing keeps every route for another prefix, adds nothing, is a no-op for a missing prefix, and with unique keys leaves no route for the prefix |
| Lookup.Updated | Homework/lookup/lookup.cpp:38-45 | after `update`, an inserted route is last; every route comes from the old table or is the inserted one; every route for another prefix survives; the table grows by at most one, and not at all on a delete |
| Lookup.UpdateAppends | Homework/lookup/lookup.cpp:38-45 | inserting a prefix the table does not hold appends the route and changes nothing else |
| Lookup.UpdateInserts | Homework/lookup/lookup.cpp:36-46 | after an insert, e is the last route and the only one for its prefix; keys stay unique; every other route survives and nothing else is added |
| Lookup.UpdateDeletes | Homework/lookup/lookup.cpp:36-46 | after a delete with unique keys, no route for the prefix remains, keys stay unique and every other route survives |
| Lookup.UpdateErasesFirst | Homework/lookup/lookup.cpp:38-45 | update erases exactly the first route for the prefix and keeps the others in order, then appends when inserting |
| Lookup.DeleteMissingIsNoOp | Homework/lookup/lookup.cpp:38-43 | deleting a prefix the table does not hold changes nothing |
| Lookup.LongestSpec | Homework/lookup/lookup.cpp:60-72 | the scan selects nothing exactly when nothing hits, otherwise a hit of greatest length that is the earliest of those |
| Lookup.BestIndexSpec | Homework/lookup/lookup.cpp:55-76 | longest-prefix match on `ntohl(addr) >> (32 - len)`: no route exactly when none matches, otherwise a matching route of greatest length, strictly longer than every earlier match |
| Lookup.RoutingTable.Query | Homework/lookup/lookup.cpp:55-76 | true exactly when some route matches; on a hit next hop, interface and metric of `BestIndex`; on a miss next hop and interface 0, metric left as given |
| Lookup.RoutingTable.Update | Homework/lookup/lookup.cpp:36-46 | the table becomes `Updated` of the old table |
| Lookup.Advertised | Homework/lookup/lookup.cpp:82-95 | at most one entry per route, and one per route when no route uses the interface |
| Lookup.AdvertisedContents | Homework/lookup/lookup.cpp:82-95 | split horizon, both ways: every route not on the interface is advertised, and every advertised entry comes from such a route |
| Lookup.AdvertisedCount | Homework/lookup/lookup.cpp:82-95 | the response has exactly as many entries as the table has routes not on the interface: the table size less the routes split horizon suppresses |
| Lookup.AdvertisedSkips | Homework/lookup/lookup.cpp:83-85 | a route on the interface costs the response one entry |
| Lookup.HostMask | Homework/lookup/lookup.cpp:86 | for lengths 1..31 the shifted mask is (2^len - 1) * 2^(32 - len): len one bits, then zeros, with no bit lost to the 32-bit truncation |
| Lookup.Advertise | Homework/lookup/lookup.cpp:86-92 | the advertised entry keeps the route's address and next hop, carries the length's mask in network order, and has one hop more in host order for host metrics below 255 |
| Lookup.OneHopMore | Homework/lookup/lookup.cpp:91 | adding 0x01000000 to a raw metric adds one hop in host order, for host metrics below 255 |
| Lookup.Response | Homework/lookup/lookup.cpp:78-96 | the response has command 2, the advertised entries, and an entry count equal to their number |
| Lookup.RoutingTable.BuildRipPacket | Homework/lookup/lookup.cpp:78-96 | the builder loop produces `Response` of the table: command 2, the advertised entries in table order, count equal to their number |
| Lookup.ResponseAsWritten | Homework/lookup/lookup.cpp:79-95 | the response as written: command 2, the advertised entries, and an entry count equal to the size of the whole table |
| Lookup.AsWrittenCountWrong | Homework/lookup/lookup.cpp:79 | with the count set to the table size, any route on the interface makes the count exceed the entries filled in |
| Lookup.AsWrittenCountExample | Homework/lookup/lookup.cpp:79-94 | one route on interface 0, response for interface 0: the count says 1, no entry is filled in, and the message is not well formed |
| Router.DirectRoute | Homework/boilerplate/main.cpp:42-48 | a /24 route on the interface's own index, directly connected (next hop 0), metric 0, whose prefix is below 2^24 and differs from the address by a multiple of 2^24 |
| Router.DirectRouteOctets | Homework/boilerplate/main.cpp:42-48 | the direct route's prefix is the interface address with its last octet cleared |
| Router.Seeded | Homework/boilerplate/main.cpp:41-50 | seeding keeps lengths in 1..32, adds at most one route per interface, and leaves the last interface's direct route last |
| Router.SeedDirectRoutes | Homework/boilerplate/main.cpp:41-50 | the seeding loop leaves the table as `Seeded`: `update(true, …)` of each interface's direct route, in order |
| Router.SeededFromEmpty | Homework/boilerplate/main.cpp:41-50 | from an empty table, interfaces on distinct /24 networks give one route each, the direct route of interface i at position i, with unique keys |
| Router.BoardTable | Homework/boilerplate/main.cpp:25-50 | on the board's four addresses, seeding gives the four direct routes in interface order |
| Router.BoardRouting | Homework/boilerplate/main.cpp:41-50 | after seeding, an address on one of the board's networks is routed to that network's interface directly |
| Router.MatchesSlash24 | Homework/lookup/lookup.cpp:63-65 | a /24 route matches exactly the addresses sharing its first three octets |
| Router.OnlyMatchChosen | Homework/lookup/lookup.cpp:62-73 | when exactly one route matches, query reports it |
| Router.SourceAddr | Homework/boilerplate/main.cpp:137-140 | the source address is bytes 12-15 loaded little-endian; its octets are those bytes in order |
| Router.DestAddr | Homework/boilerplate/main.cpp:141-144 | the destination address is bytes 16-19 loaded little-endian |
| Router.DstIsMe | Homework/boilerplate/main.cpp:149-159 | true exactly when the destination equals an interface address or 224.0.0.9 |
| Router.MulticastOctets | Homework/boilerplate/main.cpp:157 | 0x090000e0 is 224.0.0.9 on the wire |
| Router.PrefixLenFrom | Homework/boilerplate/main.cpp:237-242 | the length is 32 minus the lowest set bit at or above j, or 0 when there is none |
| Router.PrefixLenOf | Homework/boilerplate/main.cpp:236-242 | the bit loop computes `PrefixLen` of the mask |
| Router.PrefixLenZero | Homework/boilerplate/main.cpp:236-242 | the derived length is 0 exactly for the zero mask |
| Router.PrefixLenOfHostMask | Homework/boilerplate/main.cpp:236-242 | the mask the builder advertises for a length 1..31 is read back as that length |
| Router.WholeOctetMasksAccepted | Homework/protocol/protocol.cpp:70-79 | the builder's /8, /16 and /24 masks pass the mask check |
| Router.Slash25MaskRejected | Homework/protocol/protocol.cpp:70-79 | the builder's /25 mask is rejected by the mask check, because the check runs on the little-endian-loaded value |
| Router.Slash20MaskRejected | Homework/protocol/protocol.cpp:70-79 | the builder's /20 mask is rejected too |
| Router.MaskCheckByteOrder | Homework/protocol/protocol.cpp:70-79 | 255.0.0.0 passes and 0.0.0.255 fails, so the check is not on the host-order value; the zero mask passes |
| Router.Candidate | Homework/boilerplate/main.cpp:243-249 | the candidate's length is at most 32, and at least 1 exactly when the mask is non-zero |
| Router.ReconcileEntry | Homework/boilerplate/main.cpp:236-259 | handling one entry keeps every length in 1..32 and keeps keys unique |
| Router.Reconcile | Homework/boilerplate/main.cpp:232-260 | handling the entries in order keeps every length in 1..32 and keeps keys unique |
| Router.HandleEntry | Homework/boilerplate/main.cpp:234-259 | the loop body changes the table to `ReconcileEntry` of the old table |
| Router.ProcessResponse | Homework/boilerplate/main.cpp:232-260 | the loop over `numEntries` entries changes the table to `Reconcile` of the old table |
| Router.AcceptedMetricNeverWithdraws | Homework/boilerplate/main.cpp:250-252 | a metric `disassemble` accepts is at most 0x10000000 raw, so the withdrawal branch never runs; host 16 is exactly 0x10000000 |
| Router.RawMetricOrder | Homework/boilerplate/main.cpp:254 | comparing raw metrics agrees with comparing host metrics while both are below 256 |
| Router.NewRouteLearned | Homework/boilerplate/main.cpp:253-259 | an entry whose address no route covers is appended as the candidate |
| Router.BetterRouteAccepted | Homework/boilerplate/main.cpp:253-256 | a raw metric below the covering route's makes the candidate the last route and the only one for its prefix |
| Router.WorseRouteIgnored | Homework/boilerplate/main.cpp:253-256 | a raw metric not below the covering route's leaves the table unchanged |
| Router.WithdrawnRouteReinserted | Homework/boilerplate/main.cpp:250-259 | when nothing covers the address after the withdrawal, the withdrawn candidate is inserted again at once |
| Router.WithdrawIntoEmpty | Homework/boilerplate/main.cpp:250-259 | on an empty table, a withdrawal leaves the table holding the withdrawn route |
| Router.NeighbourRouteLearned | Homework/boilerplate/main.cpp:232-260 | after seeding one interface, an entry for an address outside its /24 network is appended behind the direct route |

## Left out

- Hardware-abstraction calls are left out: initialisation, the clock, receiving, ARP, sending. They are I/O with no visible semantics here. The checked packet, its length, the receiving interface and the interface addresses are parameters instead.
- The periodic 5-second announcement loop is left out. So is the byte-filling of outbound IP/UDP headers, including the outbound checksum. That code is scheduling and packet plumbing.
- `printf` diagnostics and `printRoutingTable` are left out. They are console output.
- Protocol.Disassemble: it returns an optional message. It does not model the partial writes of `output->entries[i]` for the entries accepted before a rejected one.
- Protocol.Disassemble: it requires that the header bytes are present. For a message passing the header checks, it also requires that every entry the loop reaches is inside the buffer, and that no entry past the 25th passes its checks. Otherwise the source reads past the packet or overflows `entries[25]`. A count that is too large or wrapped, but stopped by a rejected entry, is modelled.
- Lookup.RoutingTable.Query: it requires every stored length to be in 1..32. A length of 0 shifts by 32, which is undefined in C.
- Lookup.RoutingTable.Query: `*metric` is only written on a hit. The model passes the caller's value in as `metric0` and returns it unchanged on a miss. The response handler's uninitialised variable is passed as 0 there, and it is only read on a hit.
- Lookup.RoutingTable.BuildRipPacket: it requires every advertised route to have length 1..31 and at most 25 advertised routes. A length of 32 evaluates `1 << 32`, and a longer response overflows `entries[25]`. Length 31 relies on the shift and subtraction wrapping in 32 bits, which the model writes out (`HostMask`).
- Router.ProcessResponse: it requires every handled entry's mask to be non-zero. A zero mask gives a route of length 0, which later queries would shift by 32. `disassemble` accepts the zero mask, so this is a real restriction.
- Router.HandleEntry: it requires the handled entry's mask to be non-zero, for the same reason.
- Router.ReconcileEntry: it requires the entry's mask to be non-zero, for the same reason.
- Router.Reconcile: it requires every entry's mask to be non-zero, for the same reason.
- Checksum.SingleBitFlipDetected: it does not cover bits 0-3 of byte 0. A flip there changes the header length, and so which bytes are summed.
- Forwarding.Forward: it requires at least 12 bytes, because bytes 10 and 11 are written whatever the header length. The `len` parameters of `validateIPChecksum` and `forward` are unused in the source and are not modelled.
- Protocol.AssembleDisassemble: it does not promise to restore byte 0 of each entry. `disassemble` never reads that byte, and `assemble` always writes 0 there.
- Router.SeedDirectRoutes: it requires fewer than 2^32 interfaces, so that each index fits the 32-bit `if_index`. The board has four.

## Findings

| source | as written | input that shows it | evidently intended | confidence | as-written member | corrected member |
|---|---|---|---|---|---|---|
| Homework/lookup/lookup.cpp:79 | `numEntries` is set to the size of the whole routing table (`Lookup.ResponseAsWritten`) | a table holding only 10.0.3.0/24 on interface 0, response built for interface 0: the count is 1 but no entry is filled in | `numEntries` equal to the number of entries emitted (the final `i`) | not executed | Lookup.AsWrittenCountExample | Lookup.RoutingTable.BuildRipPacket |
