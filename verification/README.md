# A verified model of the router's data plane

This project models the stateful core of the router and proves what it promises: the C tables of
the data plane (trie, time wheel, NAT, routing, fragmentation, QoS, IPv6 firewall, LAN rules) and the
Python layer with the same structure (timer, DNS transaction IDs, DNS cache, domain rules).

The layers build on each other. The trie of `map.c` is shown to be a finite map, and the time wheel of
`timer.c` to fire what it was given; NAT, routes, firewall, reassembly and LAN rules use only these
contracts, and whoever waits in a wheel is called back from it (`Waiting`). Objects the
source changes in place are classes whose methods follow the source branch by branch. Most classes
carry a ghost view (`Contents`, `sessions`, `list`, `state`, ...) and a predicate `Valid()`; since every
constructor establishes `Valid()` and every public method keeps it, its clauses hold in every
reachable state, error exits included. Statements over whole runs that one call cannot express (NAT
translation over the life of a session, QoS order, reassembly, timer reports, DNS answers) are lemmas
over sequences of events. The steps of these runs are the same functions and predicates on values that
the methods are proved against; for the NAT, `NatRuns.Run` drives the table through any sequence of
packets and polls and shows that what happens is such a run.

Allocation is a parameter (`grant`, `avail`, `Grants`): it may fail at every point where the source
asks for memory. The clock is a parameter, too, and does not run back. An order in which the source
processes something (free lists, prepended list nodes) is kept. Values the source leaves to chance,
such as what a recycled buffer holds, are arbitrary.

| file | what it models |
|---|---|
| `Bytes.dfy` | bytes, 16-bit words, byte order |
| `Netutils.dfy`, `IpPacket.dfy` | one's-complement checksums, address, port and TTL rewriting |
| `TrieMap.dfy` | the fixed-length byte trie |
| `TimeWheel.dfy`, `Waiting.dfy` | the time wheel and its pool; what a client of a wheel keeps track of |
| `NatIds.dfy`, `Nat.dfy` | NAT ID allocator and session table |
| `NatPackets.dfy`, `NatRuns.dfy` | packet translation, and runs of packets and polls |
| `Ip6Sec.dfy` | the IPv6 firewall |
| `Subnets.dfy`, `Prefixes.dfy`, `Route.dfy` | masks, prefix list, route table and route cache |
| `Fragments.dfy`, `Reassembly.dfy`, `RoundTrip.dfy` | fragmenter, reassembly, and the two together |
| `QosModel.dfy`, `Qos.dfy` | the slot scheduler on values, and on linked queues |
| `SecNet.dfy` | destination rules of a LAN host and their cache |
| `PyTimer.dfy`, `DnsIds.dfy`, `DnsCache.dfy` | timer, DNS ID translator, DNS cache |
| `RuleMatcher.dfy` | the domain rule tree |

## Where the code does less than one would expect

Each of these is stated exactly, by a condition under which the code is right and, where that is not
an equation for all inputs, by a concrete input or run on which it is not.

- The incremental checksum equals a recomputation if and only if the new word sum is not zero
  (`IncreExact`); for a zero sum it writes 0 instead of 0xffff (`IncreZeroCounterexample`). With a
  pseudo header in the sum this never happens; for an ICMP echo message it can (`IdRewriteOfEcho`,
  `EchoCounterexample`).
- The TCP MSS clamp is exact on a word boundary for every non-zero sum, but at an odd offset only if
  the change is a multiple of 257 (`MssPatchAligned`, `MssPatchOdd`; 1460 clamped to 1400 is one that
  is not, `MssOddCounterexample`).
- A failed `map_add` leaves nodes that no key runs through. Deleting the last key above them takes them
  out of the tree but not off the node list (`StrandedAreStubs`, `OrphanWitness`); lookups and
  `map_each` are not affected.
- Entries armed again inside a time-wheel pass are lost if and only if at least as many ticks
  have passed as the wheel has (`TimeWheel.Wheel.Handle`, `LostEntry`).
- `time_wheel_release` walks one step more than its ring has ticks, so no wheel is released without its
  first tick being used after it has been freed, and only in the last step (`Release`).
- `ixc_route_cache_del_cb` looks at the reference count before lowering it, so a route deleted while it
  is cached is never freed (`LeakedRecord`). At shutdown the comment at `route.c:427` counts on the
  cache to free such records; none is. The wheel is not told either: releasing it would call back every
  entry the cache had, all of them freed, so none if and only if the cache was empty (`Uninit`).
- Routes added later do not invalidate cached answers. A cached answer is the longest match exactly
  when no matching route added since is longer (`CachedExact`, `StaleAnswer`). No route is hidden for good:
  every answer is at least as long as each matching route that was in the table for the timeout when
  the wheel last moved (`RouteMatch`, `NotLongStale`).
- A route written with host bits never matches (`MaskedIsSubnet`, `HostBitsNeverMatch`).
- The QoS slot is computed modulo 32768 from a little-endian integer, so it depends on fifteen bits of the
  source address only (`SameSlot`, for all packets).
- The fragmenter fills every piece but the last up to a multiple of eight bytes, so a packet can go out in one
  piece more than needed: exactly if its last two pieces fit the MTU together (`Fewest`, `OnePieceMore`).
- The reassembly adds up the lengths of what arrives, so a fragment that comes twice counts twice in the
  length of the packet (`TailCounts`); a second copy of the first fragment is dropped.
- The reassembled packet keeps the more-fragments flag of its first fragment (`Restored` in
  `Reassembles`, for all packets).
- `del_rule` does not reset the verdict at a node that other rules run through: the deleted rule still
  matches if and only if a live rule extends it (`StaysBehind`, `DelKeepsClean`, `StillMatched`). Labels
  equal to the tree's own dictionary keys are renamed, and the new names can collide (`Collisions`,
  `CollisionExample`).
- A cached LAN verdict is the current one unless it is the default and a rule added since covers the
  address (`StillCurrent`). Unlike a route it can stay stale for any length of time, since every use
  makes it young again (`StaleVerdict`).
- A LAN rule whose prefix is too long for its family is kept with an empty mask: it covers every address
  if its subnet is zero, and none otherwise (`TooLong`).
- A poll of the reassembly's wheel ends every session as soon as a second has passed since the wheel last
  moved, however young it is (`Reassembly.Unfrag.Handle`).

## Model

| member | source | states |
|---|---|---|
| Netutils.CsumCalc | pywind/clib/netutils.c:123-138 | for a buffer of any length the loop and the folding arrive at the one's complement of the residue of its word sum modulo 0xffff, an odd last byte counting as itself |
| Netutils.WordSumFits | pywind/clib/netutils.c:123-138 | the 64-bit accumulator cannot wrap on a buffer below 2^49 bytes |
| Netutils.FoldIs | pywind/clib/netutils.c:123-138 | folding keeps the residue modulo 0xffff and gives zero for zero only |
| Netutils.Verifies | pywind/clib/netutils.c:123-138 | RFC 1071: a buffer that carries its computed checksum at an aligned place sums to 0xffff |
| Netutils.OddByte | pywind/clib/netutils.c:123-138 | an odd last byte counts as if a zero byte followed it |
| Netutils.IncreResidue | pywind/clib/netutils.c:115-121 | what the wrapping 64-bit subtraction and the two folds amount to, for every difference including negative ones |
| Netutils.IncreOnSums | pywind/clib/netutils.c:115-121 | the update of the checksum of a sum is the checksum of the new sum if and only if the new sum is not zero; otherwise it is 0 |
| Netutils.IncreExact | pywind/clib/netutils.c:114-138 | on any buffer and any aligned word the incremental checksum equals the full computation over the changed buffer bit for bit if and only if the changed buffer does not sum to zero |
| Netutils.IncreZeroCounterexample | pywind/clib/netutils.c:114-138 | a two-byte buffer whose updated checksum is 0 where the computation gives 0xffff |
| Netutils.ByteOrderFree | pywind/clib/netutils.c:115-121 | updating in host order and swapping back is the same as updating in network order |
| Netutils.MssPatchAligned | ixc_syscore/router/src/route.c:29-82 | on any segment: where the MSS value lies on a word boundary the clamp's checksum is that of the changed segment if and only if the new sum is not zero |
| Netutils.MssPatchOdd | ixc_syscore/router/src/route.c:29-82 | on any segment: where the MSS value begins at an odd offset the clamp's checksum is that of the changed segment if and only if the change is a multiple of 257 |
| Netutils.SumOddField | ixc_syscore/router/src/route.c:29-82 | storing a value in network order at an odd offset moves the word sum of a buffer by the plain difference of the values |
| Netutils.SumEvenField | ixc_syscore/router/src/route.c:29-82 | storing it at an even offset moves the sum by the difference of the swapped values |
| Netutils.MssOddCounterexample | ixc_syscore/router/src/route.c:29-82 | a segment with an MSS of 1460 at an odd offset whose checksum is wrong after a clamp to 1400 |
| IpPacket.RewriteIpAddr | pywind/clib/netutils.c:304-347 | the in-place rewrite changes words 6 and 7 or 8 and 9, the IP checksum in word 5, and in a first fragment of TCP or UDP the transport checksum, and nothing else |
| IpPacket.RewrittenLayout | pywind/clib/netutils.c:304-347 | the rewritten packet has the new address, and the same header length, protocol and fragment state |
| IpPacket.RewrittenWords | pywind/clib/netutils.c:304-347 | word by word: a source rewrite puts the address in words 6 and 7, a destination rewrite in words 8 and 9; besides word 5 only the checksum of TCP (word 8 of its header) or UDP (word 3) changes, and only where the fragment offset in word 3 is zero; every other word is as it was |
| IpPacket.ExactMeans | pywind/clib/netutils.c:123-138 | RFC 793 section 3.1, RFC 768, in bytes: an exact checksum is what `csum_calc` makes of the IP header, of the pseudo header (addresses, zero, protocol, length) and the segment, or of the ICMP message, with the checksum field zero |
| IpPacket.RewriteKeepsHeader | pywind/clib/netutils.c:304-347 | an IP header whose checksum was exact has an exact one after any address rewrite |
| IpPacket.RewriteKeepsSegment | pywind/clib/netutils.c:304-347 | the same for the TCP or UDP checksum over pseudo header and segment |
| IpPacket.IdRewriteKeepsSegment | ixc_syscore/router/src/nat.c:483-498 | rewriting a port keeps the transport checksum exact, whatever the new port |
| IpPacket.IdRewriteOfEcho | ixc_syscore/router/src/nat.c:483-498 | rewriting an ICMP echo identifier keeps the ICMP checksum exact if and only if the new message does not sum to zero |
| IpPacket.EchoCounterexample | ixc_syscore/router/src/nat.c:483-498 | an echo reply with an exact checksum whose translation has a checksum of 0 instead of 0xffff |
| IpPacket.DecrementTtl | ixc_syscore/router/src/route.c:843-847 | the TTL falls by one and the IP checksum, patched with the bare TTL in host order, stays exact |
| TrieMap.Map.constructor | pywind/clib/map.c:48-74 | a new map is empty and well formed |
| TrieMap.Map.Find | pywind/clib/map.c:262-283 | the byte-by-byte walk answers exactly as the abstract map does, for hits and misses |
| TrieMap.Map.Add | pywind/clib/map.c:120-194 | succeeds if and only if the key is new and pool plus allocator cover the missing nodes; then exactly this key is added; otherwise the abstract map is untouched even though part of the path may have been built; all structural invariants survive both outcomes, and a refused duplicate leaves no stubs either |
| TrieMap.Map.Del | pywind/clib/map.c:197-260 | removes exactly this key, hands out its datum, releases the nodes no key uses, and says which nodes lose their way to the root |
| TrieMap.Map.Each | pywind/clib/map.c:285-294 | the walk over the node list visits every stored datum exactly once and nothing else |
| TrieMap.Map.NodeGet | pywind/clib/map.c:9-28 | a node with every field cleared, from the pool first, then from the allocator; fails exactly when both are empty; the allocation count follows |
| TrieMap.Map.NodePut | pywind/clib/map.c:31-45 | a node goes back to the allocator while more nodes exist than were preallocated, else to the pool; the allocation count follows |
| TrieMap.Map.StrandedAreStubs | pywind/clib/map.c:197-260 | what a deletion leaves on the list outside the tree are exactly the nodes of failed insertions below a prefix no other key uses; none if there were no failed insertions |
| TrieMap.Map.AddLeavesNoStubs | pywind/clib/map.c:120-194 | a successful insertion keeps the property that every node below the root is used by some key |
| TrieMap.Map.DelLeavesNoStubs | pywind/clib/map.c:197-260 | so does every deletion |
| TrieMap.MissingBound | pywind/clib/map.c:120-194 | an insertion never needs more nodes than the key has bytes |
| TrieMap.MissingIs | pywind/clib/map.c:120-194 | the number of nodes an insertion needs is that of the prefixes of the key that are not in the tree |
| TrieMap.OrphanWitness | pywind/clib/map.c:120-260 | a run of two insertions, one of them failing, and one deletion after which the empty map still has a node on its list |
| TimeWheel.Wheel.constructor | pywind/clib/timer.c:78-142 | a new wheel has one tick more than asked for, nothing armed, and exactly the entries asked for in its pool |
| TimeWheel.Wheel.DataGet | pywind/clib/timer.c:9-28 | an entry not in use comes from the pool or the allocator, and the count of entries stays exact |
| TimeWheel.Wheel.DataPut | pywind/clib/timer.c:31-46 | a spent entry goes to the allocator or the pool by the count, and is in no list twice |
| TimeWheel.Wheel.Add | pywind/clib/timer.c:169-194 | an entry for one tick is armed ahead of all others; fails exactly for a negative timeout or lack of memory, and then changes nothing |
| TimeWheel.Wheel.Fire | pywind/clib/timer.c:48-62 | a list taken off its tick calls back exactly its entries that are not deleted, in order, and what the callback arms again stays armed, last one first, and is not fired again |
| TimeWheel.LiveInOrder | pywind/clib/timer.c:48-62 | without deleted entries that is every entry in list order |
| TimeWheel.RearmedReversed | pywind/clib/timer.c:169-194 | and if all are armed again, they wait in the opposite order |
| TimeWheel.Wheel.Handle | pywind/clib/timer.c:196-225 | a poll fires what was armed if a tick has passed, nothing otherwise; what is armed again survives if fewer ticks passed than the wheel has, and all of it is lost otherwise |
| TimeWheel.Wheel.TicksIs | pywind/clib/timer.c:196-225 | a tick has passed as soon as its time has, and a full turn as soon as the time of all ticks has |
| TimeWheel.Wheel.OneTurn | pywind/clib/timer.c:196-225 | within a turn each step of a pass goes to the tick with the next number, and the last one leads back to the first |
| TimeWheel.LostEntry | pywind/clib/timer.c:196-225 | a run in which an entry is called back, arms the wheel again, and is gone |
| TimeWheel.Wheel.Advance | pywind/clib/timer.c:196-225 | within one turn exactly the tick the wheel leaves holds anything |
| TimeWheel.Wheel.TurnsApart | pywind/clib/timer.c:196-225 | two positions of a pass are the same tick exactly one full turn apart, and different ticks less than a turn apart |
| TimeWheel.Wheel.Release | pywind/clib/timer.c:144-166 | the first turn of the walk calls back everything armed and frees every tick once; the step after it, which the loop still takes, comes to a tick that has been freed |
| Waiting.Head | pywind/clib/timer.c:48-62 | the next entry of a list that is being fired is marked, or is that of the client object it holds; then all other clients still wait |
| Waiting.LiveAre | pywind/clib/timer.c:48-62 | a wheel would call back exactly the objects that wait in it |
| NatIds.IdSet.Get | ixc_syscore/router/src/nat.c:148-183 | takes the free ID nearest the head that no port mapping claims, even from mid-list, else a fresh one from the counter, which is not compared with the port map; fails exactly if there is neither, and then changes nothing |
| NatIds.IdSet.Take | ixc_syscore/router/src/nat.c:148-183 | the list search: claimed IDs are skipped and stay, the first other one is unlinked |
| NatIds.IdSet.Put | ixc_syscore/router/src/nat.c:186-202 | the ID is free again, at the head; nothing else changes |
| Nat.Table.constructor | ixc_syscore/router/src/nat.c:592-647 | a new table is valid and without sessions |
| Nat.Table.PortInRange | ixc_syscore/router/src/nat.c:148-183 | in every reachable state the WAN ID of every session is, in host order, in the range its protocol was given |
| Nat.LanKeyInjective | ixc_syscore/router/src/nat.c:355-362 | two LAN endpoints share a LAN key only if address, protocol and ID are equal |
| Nat.WanKeyInjective | ixc_syscore/router/src/nat.c:355-362 | two WAN endpoints share a WAN key only if protocol and ID are equal |
| Nat.Table.DelCb | ixc_syscore/router/src/nat.c:204-240 | only the second call gives the ID back, marks the wheel entry and ends the session |
| Nat.Table.End | ixc_syscore/router/src/nat.c:549-583 | taking a session out of both tries restores the mirror, the partition of the IDs and the agreement with the wheel, with exactly this session gone |
| Nat.Table.Create | ixc_syscore/router/src/nat.c:376-461 | a session is made completely or, at each of the five error exits, not at all; the mirror, the partition of the IDs and the agreement with the wheel hold either way; given memory it is made whenever an ID can be had |
| Nat.Table.Outbound | ixc_syscore/router/src/nat.c:355-496 | a LAN packet finds its session or makes one (TCP only with SYN) and makes it as young as can be; a TCP packet without SYN gives its session the long timeout for good; every other session keeps its endpoint, WAN ID, age and kind of timeout; given memory and an ID it is served |
| Nat.Table.Inbound | ixc_syscore/router/src/nat.c:355-369 | a WAN packet finds exactly the session its protocol and ID belong to, and none if none has them |
| Nat.Table.OneSession | ixc_syscore/router/src/nat.c:355-461 | in every reachable state two live sessions of a protocol share a LAN endpoint only if they are the same, and the same for WAN IDs: the translation is a bijection |
| Nat.Table.WanFree | ixc_syscore/router/src/nat.c:384-437 | an ID that nobody holds is in no WAN key, so the second insertion fails only for lack of memory |
| Nat.Table.Exhausted | ixc_syscore/router/src/nat.c:148-202 | given memory no ID can be had if and only if every ID of the range is the WAN ID of a live session or of one between its two deletions, or is free but port-mapped |
| Nat.Table.TimeoutCb | ixc_syscore/router/src/nat.c:549-583 | an idle session ends, idle meaning ten seconds for the short timeout and 180 otherwise, any other is armed again or, if that fails, ends; the invariants hold with the entries still to be fired taken into account |
| Nat.Table.Handle | ixc_syscore/router/src/nat.c:549-590 | a poll ends no session whose last LAN packet is less than ten seconds old (180 without the short timeout) when its callback comes, unless memory fails; no session with the short timeout that stays is 20 seconds old, and no other 190; every session that stays keeps its endpoint, WAN ID, age and kind of timeout |
| NatPackets.TranslatedFields | ixc_syscore/router/src/nat.c:463-498 | word by word: words 6 and 7 (what leaves) or 8 and 9 (what arrives) are the new address and the others of these four as before; the first word of TCP and UDP (what leaves), the second (what arrives) or the identifier of an ICMP echo is the new port; of the rest only the two checksums change |
| NatPackets.TranslatedChecksums | ixc_syscore/router/src/nat.c:463-498 | after translation the IP checksum and the TCP or UDP checksum of a first fragment still equal a full recomputation, and that of an ICMP echo message does if and only if the new message does not sum to zero |
| NatPackets.NatDo | ixc_syscore/router/src/nat.c:243-501 | one packet is one step of a run, stated by word positions: it leaves under the WAN address and its session's WAN ID or arrives at its session's LAN address and ID, or is dropped unchanged; a packet is dropped only if no session has its source or its ID; no session changes what it translates and only a LAN packet makes one, its own, and a TCP packet only with bit 0x02 of its flags; given memory and an ID every LAN packet that may open a session is served |
| NatPackets.OneWanPort | ixc_syscore/router/src/nat.c:355-498 | RFC 4787 section 4.1, over any run of packets from both sides and polls: as long as the session of a packet that left is in the table, a later LAN packet leaves under the same WAN port if and only if it has the same source, whatever the destinations, and one with the same source does leave |
| NatPackets.ReplyReturns | ixc_syscore/router/src/nat.c:355-498 | over any such run, as long as the session lives, a reply to the WAN port a packet left under is not dropped and reaches exactly the address and port the packet was sent from, its own source kept |
| NatPackets.Survives | ixc_syscore/router/src/nat.c:243-590 | over any run a session outlives every poll whose callback comes, given memory, within ten seconds of the session's last LAN packet, or within 180 if it has the long timeout |
| NatPackets.LongTcp | ixc_syscore/router/src/nat.c:463-496 | a session has the long timeout once a LAN packet of TCP without SYN has used it |
| NatPackets.LongUdp | ixc_syscore/router/src/nat.c:376-461 | over any run from an empty table only ICMP and TCP sessions have the short timeout |
| NatPackets.ReplyInTime | ixc_syscore/router/src/nat.c:243-590 | over any run in which the callbacks come in that time, a reply to a packet that left is not dropped and reaches exactly its sender |
| NatPackets.Idle | ixc_syscore/router/src/nat.c:549-590 | no session outlives a poll that comes 190 seconds or more after its last LAN packet |
| NatPackets.Constant | ixc_syscore/router/src/nat.c:355-590 | a session translates between the same endpoints as long as it lives, over any run |
| NatRuns.Run | ixc_syscore/router/src/nat.c:243-590 | the table, given any sequence of packets and polls, any memory and any delays of callbacks, goes through a run of the kind the two results above speak of, from its sessions before to its sessions after |
| Ip6Sec.Firewall.constructor | ixc_syscore/router/src/ip6sec.c:100-132 | a new firewall is valid, disabled and without records |
| Ip6Sec.Firewall.OnePair | ixc_syscore/router/src/ip6sec.c:155-162 | two packets use one record if and only if they are of one pair of addresses, the same way or one an answer to the other |
| Ip6Sec.Firewall.CheckOk | ixc_syscore/router/src/ip6sec.c:143-188 | from the WAN only packets with a record pass and nothing changes; from the LAN a packet passes unless memory fails, and then its pair has a record as young as can be, and there is no other new record and no other change |
| Ip6Sec.Firewall.AddInfo | ixc_syscore/router/src/ip6sec.c:61-98 | a record enters both the trie and the wheel or neither |
| Ip6Sec.Firewall.TimeoutCb | ixc_syscore/router/src/ip6sec.c:33-54 | an idle record ends, any other is armed again or, if that fails, ends; trie and wheel agree afterwards |
| Ip6Sec.Firewall.Handle | ixc_syscore/router/src/ip6sec.c:22-59 | a poll ends no record whose last LAN packet is within the timeout (unless memory fails) and leaves none that is overdue by a tick or more |
| Subnets.MskCalc | pywind/clib/netutils.c:50-74 | exactly the first bits of the mask are set; a prefix that is too long is refused and nothing is written |
| Subnets.TableIs | pywind/clib/netutils.c:50-74 | entry n of the table is 256 less the power of two of the 8 - n bits that are not set |
| Subnets.BitOfMasked | pywind/clib/netutils.c:86-112 | masking keeps the bits of the prefix and clears the others |
| Subnets.MaskedIsSubnet | pywind/clib/netutils.c:86-112 | the masked address equals a stored subnet if and only if the subnet contains the address and has no host bits |
| Subnets.MatchIsRange | pywind/clib/netutils.c:86-112 | RFC 4632 section 3.1, in numbers: the addresses that match a stored subnet are those from its own number on, as many as two to the power of the host bits, provided its number is a multiple of that |
| Subnets.HostBitsNeverMatch | pywind/clib/netutils.c:86-112 | 10.0.0.1/8 contains 10.0.0.1 and does not match it |
| Prefixes.PrefixList.Add | ixc_syscore/router/src/route.c:115-182 | the list stays strictly descending with one entry per length in use and the number of routes of it; one more route of this length counts, and only lack of memory for a new length fails |
| Prefixes.PrefixList.Del | ixc_syscore/router/src/route.c:184-232 | one route of this length less counts; the last one takes the entry out; the list stays sorted |
| Prefixes.PrefixList.LastLonger | ixc_syscore/router/src/route.c:115-182 | the walk finds the place behind which a new length belongs |
| Route.Table.RouteAdd | ixc_syscore/router/src/route.c:442-531 | the route is in the table with its subnet, length, gateway and interface, and its length counted, or neither; a route that exists is kept, a gateway without an interface is refused; cached answers stay as they are |
| Route.Table.RouteDel | ixc_syscore/router/src/route.c:533-551 | exactly this route goes; its record is freed if the cache does not refer to it and marked otherwise; no record that is no route any more is freed |
| Route.Table.RouteDelCb | ixc_syscore/router/src/route.c:234-243 | the length is counted down, and the record is freed or marked depending on the cache's count |
| Route.Table.CacheDelCb | ixc_syscore/router/src/route.c:245-256 | the count falls by one and the record is not freed, whatever its state, as long as the count was positive |
| Route.Table.Evict | ixc_syscore/router/src/route.c:245-256 | removing a cache entry keeps every record's count equal to the number of cache entries that refer to it, no entry refers to freed memory, and the wheel waits for exactly the entries of the cache |
| Route.Table.CacheTimeout | ixc_syscore/router/src/route.c:335-355 | when the wheel calls it, an entry older than the timeout goes, any other is armed again, or goes if that fails; counts stay exact, and cache and wheel agree |
| Route.Table.Handle | ixc_syscore/router/src/route.c:330-355 | a poll removes no answer younger than the timeout (unless memory fails) and leaves none that is overdue by a tick or more; no route record goes |
| Route.Table.ReleaseRoutes | ixc_syscore/router/src/route.c:425-432 | releasing the routes frees exactly the records no cache entry has referred to, marks the others, and touches none that is freed |
| Route.Table.ReleaseCache | ixc_syscore/router/src/route.c:432-435 | releasing the cache brings all counts to zero and frees no record |
| Route.Table.Uninit | ixc_syscore/router/src/route.c:425-440 | at shutdown no callback touches a freed record or entry; the records never freed are exactly those that were cached or left over; the wheel would still call back exactly the entries the cache had, all freed |
| Route.Table.CacheGet | ixc_syscore/router/src/route.c:308-328 | answers if and only if an entry refers to a record that is still a route; an entry that does not is removed, and its wheel entry is marked |
| Route.Table.CachePut | ixc_syscore/router/src/route.c:258-305 | the entry is in the cache, counted and armed, or nothing of it is; given memory and a count below 65535 it is |
| Route.Table.Probe | ixc_syscore/router/src/route.c:571-585 | one probe of the walk hits if and only if some route of that length matches the address |
| Route.Table.Walk | ixc_syscore/router/src/route.c:553-591 | RFC 1812 section 5.2.4.3: the first hit of the walk is a longest match of all routes, and no hit means that no route matches |
| Route.MatchesIsRange | ixc_syscore/router/src/route.c:571-585 | a route matches the addresses of one range of numbers: it starts at the subnet, is two to the power of the host bits long, and starts at a multiple of its length |
| Route.Table.RouteMatch | ixc_syscore/router/src/route.c:553-591 | the answer is always a live route that matches; from the cache, which answers exactly if its entry's record is still a route, it is no shorter than any matching live route added no later than the cache entry, otherwise no shorter than any matching route, and NULL only if none matches; in any case it is at least as long as every matching route that was in the table for 180 seconds when the wheel last moved |
| Route.Table.CachedExact | ixc_syscore/router/src/route.c:308-328 | a cached answer is the longest match of all if and only if no matching route added after the cache entry is longer |
| Route.Table.NotLongStale | ixc_syscore/router/src/route.c:308-355 | a cached answer hides no matching route longer than the timeout, a tick and the time between two polls |
| Route.StaleAnswer | ixc_syscore/router/src/route.c:442-591 | a run in which the cache answers with a shorter route than the table has |
| Route.LeakedRecord | ixc_syscore/router/src/route.c:234-256 | a run after which a deleted route's memory is referred to by nothing and not freed |
| Fragments.IpfragSend | ixc_syscore/router/src/nat.c:58-145 | a packet within the MTU goes out as it is, any other as its pieces in order, cut short only where the buffer pool is exhausted |
| Fragments.FragHeaderFields | ixc_syscore/router/src/nat.c:58-145 | a fragment's header has its own length, offset and flag and an exact checksum, and is the packet's header otherwise |
| Fragments.PieceFields | ixc_syscore/router/src/nat.c:58-145 | what one piece says about itself is true: length, offset in eights, more-fragments flag, and exactly those bytes of the payload |
| Fragments.PieceAt | ixc_syscore/router/src/nat.c:58-145 | piece number i begins at slice number i, and another follows exactly when its slice ends before the payload does |
| Fragments.PiecesJoin | ixc_syscore/router/src/nat.c:58-145 | the pieces put together are the payload |
| Fragments.PiecesTile | ixc_syscore/router/src/nat.c:58-145 | RFC 791 section 3.2: all pieces fit the MTU and all but the last leave less than eight bytes of it free; these carry a multiple of eight bytes and say that more follow; offsets tile the payload, and each piece is a sound packet |
| Fragments.Fewest | ixc_syscore/router/src/nat.c:58-145 | no cut of the payload that fits the MTU, with offsets in eights, has two pieces fewer, and one has a piece fewer if and only if the last two pieces fit the MTU together |
| Fragments.OnePieceMore | ixc_syscore/router/src/nat.c:58-145 | 2965 bytes and an MTU of 1505 are sent in three pieces where two do |
| Fragments.Layout | ixc_syscore/router/src/ipunfrag.c:87-113 | length, fragment offset and more-fragments flag are the big-endian numbers in bytes 2-3 and 6-7 of the header |
| Fragments.KeyIsIdentity | ixc_syscore/router/src/ipunfrag.c:108-113 | two fragments have the same key if and only if the source addresses (bytes 12-15), the destination addresses (16-19) and the identifications (4-5) are equal |
| Reassembly.Unfrag.Add | ixc_syscore/router/src/ipunfrag.c:87-223 | one arrival on the shared map, buffers and wheel does exactly what the step on values says: which session starts, grows, is dropped or is handed out, with all other sessions untouched; sessions and wheel entries agree afterwards |
| Reassembly.WhenHeld | ixc_syscore/router/src/ipunfrag.c:87-223 | exactly when an arrival begins, keeps or ends its packet's session and exactly when a packet comes out, from offset, flag, memory, the session there and the limit of 256; no other session comes or goes |
| Reassembly.Unfrag.Drop | ixc_syscore/router/src/ipunfrag.c:13-20 | a session whose packet has a fragment beyond the offset limit goes, its wheel entry is marked, and no other session changes |
| Reassembly.Unfrag.KeyFinds | ixc_syscore/router/src/ipunfrag.c:22-37 | the key made from the header in a session's buffer is the one the session is kept under, so the callback of the wheel ends the session it was armed for |
| Reassembly.Unfrag.Handle | ixc_syscore/router/src/ipunfrag.c:22-43 | a poll ends all sessions if a second has passed since the wheel last moved, and none otherwise |
| RoundTrip.FirstEvent | ixc_syscore/router/src/ipunfrag.c:87-223 | the first piece starts a session that holds it, and nothing comes out |
| RoundTrip.Middle | ixc_syscore/router/src/ipunfrag.c:87-223 | over any run in which the middle pieces arrive, each once and in any order, mixed with events about packets of other addresses or identification and with copies of the first piece, the session gathers them and nothing comes out for the packet |
| RoundTrip.LastEvent | ixc_syscore/router/src/ipunfrag.c:87-223 | once all others are there the last piece brings the whole packet out and ends the session |
| RoundTrip.Reassembles | ixc_syscore/router/src/ipunfrag.c:87-223 | feeding the pieces of a packet, the first first, the last last, those between in any order among timeouts and fragments of packets that differ in source, destination or identification, yields the identical payload, length and header apart from length, checksum and the fragment word, only with the last piece |
| RoundTrip.ReassemblesAfter | ixc_syscore/router/src/ipunfrag.c:87-223 | so it does from the start, after any events about other packets that leave fewer than 256 sessions |
| RoundTrip.TailCounts | ixc_syscore/router/src/ipunfrag.c:87-223 | over any run of fragments the length a session is going to give its packet is that of all that have arrived, a piece that comes twice counting twice |
| RoundTrip.FragmenterCuts | ixc_syscore/router/src/nat.c:58-145 | what the fragmenter emits are such pieces, so the two are inverse to each other |
| QosModel.SameSlot | ixc_syscore/router/src/qos.c:24-82 | two packets share a slot if and only if the first source bytes are equal and the second ones agree in seven bits |
| QosModel.PutOk | ixc_syscore/router/src/qos.c:84-105 | after an arrival a slot is in the active list exactly once if its queue is not empty and not at all otherwise |
| QosModel.PopOk | ixc_syscore/router/src/qos.c:243-296 | the same after a pass |
| QosModel.FirstInFirstOut | ixc_syscore/router/src/qos.c:84-296 | over any run of arrivals and passes what a slot sent, followed by what it holds, is what it held followed by what came in: nothing is lost, doubled or overtaken |
| QosModel.InTurn | ixc_syscore/router/src/qos.c:243-296 | the k-th packet of a slot leaves with the k-th pass and not before, whatever the other slots do |
| QosModel.PassSends | ixc_syscore/router/src/qos.c:243-296 | a pass sends the first packet of every slot that has one, and as many packets as there are such slots |
| QosModel.NewestFirst | ixc_syscore/router/src/qos.c:84-105 | a packet for an idle slot is the first one the next pass sends, ahead of all others; a packet for a slot in use changes nothing in what that pass sends |
| QosModel.SameOrder | ixc_syscore/router/src/qos.c:243-296 | the slots a pass leaves active are served in the same order by the next one |
| Qos.Scheduler.constructor | ixc_syscore/router/src/qos.c:178-215 | a new scheduler has empty slots and no active one |
| Qos.Scheduler.Put | ixc_syscore/router/src/qos.c:84-105 | on the linked queues an arrival does what the step on values says; no packet is linked twice |
| Qos.Scheduler.Pop | ixc_syscore/router/src/qos.c:243-296 | the walk that edits the active list under its feet sends exactly one packet from every slot active at entry and leaves the list of those with packets left, in order |
| Qos.Scheduler.Turn | ixc_syscore/router/src/qos.c:249-294 | one turn of the walk sends the head of one slot and keeps the list's parts, walked and unwalked, linked |
| Qos.Scheduler.TakeOut | ixc_syscore/router/src/qos.c:262-291 | unlinking an emptied slot, from the front or from the middle, leaves the other slots linked in order |
| SecNet.SrcRule.HandleRule | ixc_syscore/router/src/sec_net.c:129-229 | without a cache entry the verdict is the default unless some rule's subnet contains the address; with one it is the cached verdict, which had been used within the timeout when the wheel last moved and becomes young; a new verdict is in the cache and armed if memory allows, or neither |
| SecNet.SrcRule.FirstMatch | ixc_syscore/router/src/sec_net.c:179-229 | the first-match walk finds a rule if and only if the address is in the union of the subnets |
| SecNet.CoversIsRange | ixc_syscore/router/src/sec_net.c:179-229 | a rule covers the addresses of one range of numbers, as a route does |
| SecNet.SrcRule.AddDst | ixc_syscore/router/src/sec_net.c:316-368 | a rule that exists is not added again; any other, whatever its prefix, is added at the head, given memory; cached verdicts stay what they were when they were made |
| SecNet.SrcRule.CacheTimeout | ixc_syscore/router/src/sec_net.c:54-78 | when the wheel calls it, an idle cache entry goes, any other is armed again, or goes if that fails; cache and wheel agree |
| SecNet.SrcRule.Handle | ixc_syscore/router/src/sec_net.c:54-83 | a poll removes no verdict used within the timeout (unless memory fails) and leaves none idle for longer by a tick or more |
| SecNet.SrcRule.StillCurrent | ixc_syscore/router/src/sec_net.c:129-229 | a cached verdict is the one of the present rules if and only if it was an exception already or no rule added since covers the address |
| SecNet.StaleVerdict | ixc_syscore/router/src/sec_net.c:129-229 | for any length of time a run in which the cache accepts an address that long after a rule against it was added |
| SecNet.TooLong | ixc_syscore/router/src/sec_net.c:316-368 | a rule with a prefix too long for the family covers everything if its subnet is zero and nothing otherwise |
| SecNet.OrderFree | ixc_syscore/router/src/sec_net.c:179-229 | the verdict does not depend on the order of the rules or on repetitions |
| PyTimer.Timer.SetTimeout | pywind/lib/timer.py:43-60 | a step of a run: the last deadline set for a name is the one that counts, and both dictionaries and the sorted list agree on it; a timeout below one second is ignored |
| PyTimer.Timer.Drop | pywind/lib/timer.py:65-69 | a step of a run: the name is in neither dictionary any more; an unknown name is refused and changes nothing |
| PyTimer.Timer.GetTimeoutNames | pywind/lib/timer.py:16-41 | a step of a run: a poll returns exactly the names whose deadline has come since the last poll, each once |
| PyTimer.ReportedOnce | pywind/lib/timer.py:16-60 | over any run a deadline that stands is reported once, by the first poll at or after it, and never again |
| PyTimer.Superseded | pywind/lib/timer.py:16-60 | a deadline that is set again in time is never reported, only the new one is |
| PyTimer.DroppedNever | pywind/lib/timer.py:16-69 | over any run a dropped name is not reported, whatever deadline it had, as long as it is not set again; nor is an unknown one |
| DnsIds.Translator.GetDnsId | ixc_syscore/DNS/ixc_dns_main.py:432-442 | an ID that is handed out is in range, was not pending and is now; the IDs below the counter are the disjoint union of the duplicate-free list and the pending ones; fails exactly when the list is empty and the counter has passed 0xfffe, and then changes nothing |
| DnsIds.Translator.FromClient | ixc_syscore/DNS/ixc_dns_main.py:527-664 | a query is one step of a run: it goes upstream under an ID nobody waits under, so no record is ever replaced, or is answered from the cache or dropped with no record left behind |
| DnsIds.Translator.FromServer | ixc_syscore/DNS/ixc_dns_main.py:463-525 | an answer is one step of a run: it goes to the client on record with that client's own ID, and the record goes with it; an unknown ID is dropped |
| DnsIds.Translator.AutoClean | ixc_syscore/DNS/ixc_dns_main.py:908-923 | a step of a run: exactly the records of queries five seconds old or older go, and their IDs stay held back |
| DnsIds.Translator.Recycle | ixc_syscore/DNS/ixc_dns_main.py:986-992 | a step of a run: IDs whose time is up go back to the list, each once, and whoever still waited under one is forgotten |
| DnsIds.AnsweredOnce | ixc_syscore/DNS/ixc_dns_main.py:463-664 | over any run from a new translator no query is answered twice and no answer is passed on for two queries, however IDs are used again and however often servers answer |
| DnsIds.RepliesAreAsked | ixc_syscore/DNS/ixc_dns_main.py:463-664 | over any run an answer is passed on if and only if an earlier query went upstream under its ID and its record has been kept since; then it goes to that query's client with that query's own ID |
| DnsIds.Kept | ixc_syscore/DNS/ixc_dns_main.py:463-992 | over any run, whoever else asks, the record of a query that went upstream is kept with its own ID and client exactly until the first event that ends it: an answer under its ID, a clean-up that acts five seconds after it or later, or the return of its ID |
| DnsIds.Relayed | ixc_syscore/DNS/ixc_dns_main.py:463-664 | an answer before that reaches the query's client with the query's own ID |
| DnsIds.NoneOld | ixc_syscore/DNS/ixc_dns_main.py:908-992 | after a clean-up that acts, and after every return of IDs, nobody has waited for five seconds or more |
| DnsIds.WaitsFive | ixc_syscore/DNS/ixc_dns_main.py:432-461 | whoever waits has an ID that is held back until five seconds after the query |
| DnsIds.Origin | ixc_syscore/DNS/ixc_dns_main.py:463-664 | whatever waits under an ID was asked in an earlier query of the run, sent upstream under this ID, and has been kept since |
| DnsIds.FreshId | ixc_syscore/DNS/ixc_dns_main.py:432-442 | the ID a query gets is in range, was not held back and is now, and nobody waits under it |
| DnsIds.Given | ixc_syscore/DNS/ixc_dns_main.py:432-461 | over any run a query gets an ID if and only if one from 1 to 0xfffe is not held back, whatever becomes of the query; it is one of those, and is held back for five seconds |
| DnsIds.FirstBack | ixc_syscore/DNS/ixc_dns_main.py:432-461 | IDs are used again in the order in which they were given back |
| DnsIds.StepSound | ixc_syscore/DNS/ixc_dns_main.py:432-992 | every step keeps the IDs below the counter the disjoint union of the duplicate-free list and the pending ones, and whoever waits has a pending ID |
| DnsCache.TimerNameSplits | ixc_syscore/DNS/pylib/DNSCache.py:59-90 | splitting a timer name at its first underscore gives back type and host, underscores in the host included |
| DnsCache.Cache.SetTimeout | ixc_syscore/DNS/pylib/DNSCache.py:23-31 | only timeouts from 30 seconds to a day are taken; one set while the cache is empty is the one in force for all records, and so is one that is not shorter than the last, if that was in force for all |
| DnsCache.Cache.SetCacheRecord | ixc_syscore/DNS/pylib/DNSCache.py:33-52 | a record is stored under its type and host with a check of it ahead in the timer; an unknown type or an empty field changes nothing |
| DnsCache.Cache.NamesApart | ixc_syscore/DNS/pylib/DNSCache.py:33-52 | no two records share a timer name |
| DnsCache.Cache.ClearAllRecords | ixc_syscore/DNS/pylib/DNSCache.py:54-57 | all records go although the timer is not told |
| DnsCache.Cache.CacheLoop | ixc_syscore/DNS/pylib/DNSCache.py:59-90 | no record younger than the timeout goes; afterwards every record is younger than the longest timeout in force since its last check plus ten seconds, which is the present timeout plus ten if it has not been shortened under a record |
| RuleMatcher.Matcher.Match | ixc_syscore/DNS/pylib/rule.py:25-74 | the recursive lookup ends and returns the exact rule the tree knows, else its `*` rule of the longest suffix |
| RuleMatcher.BestIsLongest | ixc_syscore/DNS/pylib/rule.py:25-74 | that suffix is the longest one with a `*` rule, the host itself included, and nothing is found only if no suffix has one |
| RuleMatcher.Matcher.AddRule | ixc_syscore/DNS/pylib/rule.py:76-97 | a new rule is known and counted along its path, so every node's count is the number of live rules through it; a rule that exists is refused |
| RuleMatcher.Matcher.DelRule | ixc_syscore/DNS/pylib/rule.py:99-132 | counts stay exact; the tree forgets exactly what no live rule runs through any more |
| RuleMatcher.Matcher.Clear | ixc_syscore/DNS/pylib/rule.py:149-154 | an empty tree again |
| RuleMatcher.Matcher.StaysBehind | ixc_syscore/DNS/pylib/rule.py:99-132 | the tree still knows a rule after its deletion if and only if another live rule extends it |
| RuleMatcher.StillMatched | ixc_syscore/DNS/pylib/rule.py:99-132 | a run in which a host is matched by a rule that has been deleted |
| RuleMatcher.AddKeepsClean | ixc_syscore/DNS/pylib/rule.py:76-97 | adding a rule keeps the tree knowing the live rules and nothing else |
| RuleMatcher.DelKeepsClean | ixc_syscore/DNS/pylib/rule.py:99-132 | deleting a rule keeps it so if and only if no other live rule extends the deleted one |
| RuleMatcher.CleanVerdict | ixc_syscore/DNS/pylib/rule.py:25-74 | then a host gets its exact live rule, else the live `*` rule of its longest suffix, else none |
| RuleMatcher.Collisions | ixc_syscore/DNS/pylib/rule.py:19-23 | two different labels are kept under one key if and only if one is a dictionary key of the tree and the other its replacement |
| RuleMatcher.Keywords | ixc_syscore/DNS/pylib/rule.py:19-23 | exactly the four dictionary keys of the tree are renamed, by two leading underscores |
| RuleMatcher.CollisionExample | ixc_syscore/DNS/pylib/rule.py:19-23 | two different labels kept under one key |

## Left out

Contracts that are deliberately narrower than the source:

- TimeWheel.Wheel.Add: takes timeouts below two ticks only; every caller arms exactly one, and beyond that the source does not wrap its index.
- TimeWheel.Wheel.Advance: takes polls within one turn only; `Handle` covers later ones.
- Nat.Table.Handle: assumes a poll within one turn of the wheel (370 seconds).
- Nat.Table.constructor: assumes an ID range with an upper end below 65535 (60000 by default), so that the counter does not wrap; changing the range at run time is not modelled.
- Ip6Sec.Firewall.Handle: assumes a poll within one turn of the wheel (610 seconds).
- Route.Table.Handle: assumes a poll within one turn of the wheel (370 seconds).
- SecNet.SrcRule.Handle: assumes a poll within one turn of the wheel (250 seconds).
- Reassembly.Unfrag.Handle: assumes a poll within one turn of the wheel (61 seconds).
- NatRuns.Run: assumes polls close enough for a turn of the wheel, as `Nat.Table.Handle` does.
- NatPackets.NatDo: does not model ICMP errors from the WAN, whose embedded packet the source translates as well.
- NatPackets.TranslatedChecksums: does not cover UDP-Lite, UDP without checksum, or later fragments, whose transport checksum the source does not know or treats as if it were there.
- Fragments.IpfragSend: assumes an MTU with room for eight data bytes behind the header; with less the source's loop does not advance.
- Reassembly.Unfrag.Add: assumes fragments whose total length is right and which fit the buffer behind the greatest offset allowed, as link sizes make them.
- RoundTrip.FragmenterCuts: needs the last piece to start within the 0xff00 offset limit of the reassembly.
- Route.Table.RouteAdd: takes prefixes within the address width; for a longer one the source looks up with a mask it has not written.
- Prefixes.PrefixList.Add: takes prefixes within the address width, as `Route.Table.RouteAdd` does.
- Route.Table.constructor: takes address lengths whose keys fit the trie's length byte; the source has 4 and 16.
- RuleMatcher.Matcher.AddRule: takes rules without empty labels and with `*` only as the whole leftmost label, the form the source documents.

Not modelled:

- Allocation failure inside `map_new` and `time_wheel_new`; `map_pre_alloc`, and the freeing of a map's own nodes in `map_release`. Of `time_wheel_release` everything up to the first use of a freed tick.
- The array of 256 children of a trie node is a map from bytes; tick lists and the wheel's pool are sequences.
- The trie the reassembly keeps its sessions in is a Dafny map; whether an insertion finds memory is a parameter. Tables that share a wheel in the source (the two address families of the route cache; all hosts of the LAN rules) have one each.
- The port map of the NAT, which is an arbitrary predicate on IDs.
- `ixc_route_get`, forwarding, ARP and local delivery around the route lookup; IPv4 and IPv6 tables are two instances of one class.
- 4in6 tunnelling, which enters the QoS queue again from within a pass, and the first-host and tunnel priorities before the slots.
- The table of LAN hosts by hardware address around the rules of one host.
- DNS message parsing, sockets, forwarding to the proxy; the outcome of parsing and matching a query is a parameter. Times of the DNS timer are whole seconds, as the source rounds them.
- Splitting and lower-casing of host names: hosts and rules are lists of labels from the top level down.
- SIMD forms of the mask operation are a bytewise AND; a little-endian host is assumed where words are loaded.
- PPPoE, DHCP, ARP, ICMPv6, VLAN and passthrough handling; RPC, web interface and configuration.
