# Router and controller proofs

A Dafny model of the algorithms in this repository whose correctness is not visible from one
function: all-pairs routing in the L2 controller, the RIP router as a network of routers, the
streaming SHA-1, the ARP request queue between two threads, and several places where an
incremental or re-entrant form stands in for a simple one. `dafny verify dfyconfig.toml` checks
everything.

| module | what it models |
|---|---|
| Walks, L2Paths, L2Multi | walks in a graph; Floyd-Warshall with stored intermediates; the controller's adjacency index, path cache and learned addresses, driven by the discovery component |
| RipTable, RipRouter | one router's table rules as functions; the C loops that compute them |
| RipNetwork, RipBounds, RipLoopFree, RipStuck | any number of routers joined by lossy links: never under-estimating, tables staying maps, loop freedom, and two runs that never converge |
| PrefixMatch | the forwarding lookup and what byte order does to it |
| Words, Bytes | machine words by their bits; byte fields in network order |
| Sha1Spec, Sha1 | FIPS PUB 180-1 on whole octets; the buffered C implementation |
| ArpQueue | the ARP cache and its request queue, stepped by the packet thread and the timer thread |
| Checksum | the Internet checksum and IP header rewriting |
| HwInfo | the hardware-information message, printed in Python and read in C |
| Framing | length-and-type framing over a byte stream |
| EpollSelect | select on top of incremental epoll registration |
| Waiters | components, waiting callbacks and re-entrant registration |
| Reindent | the comment-aware reindenter |
| Options, Sets | a value or nothing; the members of a list |

Where the code and its comments disagree, the model follows the code:

- an entry in the routing table expires after more than 20 seconds, not at 20
  (lab4/router/sr_rt.c:231-232);
- a finite metric heard on the interface an entry already uses is ignored, better or worse
  (lab4/router/sr_rt.c:475-486); `RipStuck.NeverConverges` and `RipStuck.StaleMetricStays` show what follows
  from it;
- the sweep's one-second test compares inside the call and is always true, a request is counted
  once per interface, and the ICMP code sent is port unreachable, not host unreachable
  (lab4/router/sr_arpcache.c:44, lab4/router/sr_arpcache.c:65, lab4/router/sr_arpcache.c:76-83);
- the lookup among ARP entries returns the last valid slot, and insertion does not replace an
  entry for the same address (lab4/router/sr_arpcache.c:104-108, lab4/router/sr_arpcache.c:204-215);
- counting leading ones in a raw network-order word is longest-prefix match only where masks
  are loaded most significant byte first (lab4/router/sr_router.c:422-427);
- the epoll wrapper says it returns the object that belongs to a descriptor; it returns the last
  one seen with that descriptor (lab4/pox/pox/lib/epoll_select.py:21, lab4/pox/pox/lib/epoll_select.py:37),
  which need not be on either list; `EpollSelect.ReturnsOwnExactly` says exactly when it is;
- an interface name that fills its 32-byte array has no terminator, and the status look-up reads
  on into the status word (lab4/router/sr_if.h:49-52, lab4/router/sr_if.c:97).

## Model

| member | source | states |
|---|---|---|
| L2Multi.Controller.GetPath | lab4/pox/pox/forwarding/l2_multi.py:113-131 | None exactly when no walk joins the two switches; otherwise a shortest, repeat-free walk from src to (dst, final port) whose inner hops leave through the adjacency's ports, so the closing assertion never fails |
| L2Multi.Controller.CalcPaths | lab4/pox/pox/forwarding/l2_multi.py:49-80 | after the triple loop every known pair's distance is that of a shortest walk over non-None adjacency and None exactly when there is no walk, for any graph, and every stored intermediate splits its pair into two strictly different, together no longer, halves |
| L2Multi.Controller.RelaxThrough | lab4/pox/pox/forwarding/l2_multi.py:71-80 | one outer round, updating the table in place while reading it, equals relaxing a copy |
| L2Multi.Controller.StartPaths | lab4/pox/pox/forwarding/l2_multi.py:53-59 | the first loop leaves one hop per port, zero on the diagonal, nothing elsewhere |
| L2Multi.Controller.GetRawPath | lab4/pox/pox/forwarding/l2_multi.py:91-103 | fills an emptied cache first, then unrolls the intermediates of a table that is exact for the current adjacency |
| L2Multi.Controller.Cook | lab4/pox/pox/forwarding/l2_multi.py:122-131 | the looked-up ports are adjacency's, hop by hop, and pass the path check |
| L2Multi.RawPathMeaning | lab4/pox/pox/forwarding/l2_multi.py:91-103 | what unrolling an exact table yields, also for a switch that joined after the table was filled: None means unreachable, else a shortest simple walk |
| L2Paths.StageComplete | lab4/pox/pox/forwarding/l2_multi.py:71-80 | after trying k as intermediate no walk through the tried switches beats the table, for walks of any length with any repetitions |
| L2Paths.StageSound | lab4/pox/pox/forwarding/l2_multi.py:71-80 | every recorded distance is realised by a walk |
| L2Paths.StageVia | lab4/pox/pox/forwarding/l2_multi.py:71-80 | relaxing keeps every stored intermediate different from both ends and its halves within the distance |
| L2Paths.StagesDone | lab4/pox/pox/forwarding/l2_multi.py:71-80 | once every switch has been tried the table is exact |
| L2Paths.InitialInv | lab4/pox/pox/forwarding/l2_multi.py:53-59 | the first loop's table is exact for walks without intermediates |
| L2Paths.RawPath | lab4/pox/pox/forwarding/l2_multi.py:91-103 | unrolling terminates on every pair and gives a path exactly when the distance is known |
| L2Paths.RawPathIsWalk | lab4/pox/pox/forwarding/l2_multi.py:91-103 | the unrolled path is a walk no longer than the recorded distance |
| L2Paths.RawPathIsShortest | lab4/pox/pox/forwarding/l2_multi.py:113-131 | with exact distances it has exactly distance + 1 switches, none twice |
| Walks.SplitAt | lab4/pox/pox/forwarding/l2_multi.py:71-80 | any walk through allowed switches and k, however often it meets k, splits at k into two walks through allowed ones that are together no longer |
| Walks.ShortestIsSimple | lab4/pox/pox/forwarding/l2_multi.py:113-131 | a shortest walk never repeats a switch |
| L2Multi.Controller.LinkEvent | lab4/pox/pox/forwarding/l2_multi.py:317-376 | after a link comes or goes the adjacency is again an exact symmetric index of the links live both ways, the cache is empty, and only addresses learned on the new link's ends are forgotten |
| L2Multi.Controller.AddLink | lab4/pox/pox/forwarding/l2_multi.py:350-360 | an added link keeps the index exact in all three branches |
| L2Multi.Controller.RemoveLink | lab4/pox/pox/forwarding/l2_multi.py:336-349 | after removal another link that still joins the pair both ways is found whenever there is one |
| L2Multi.Controller.Unlearn | lab4/pox/pox/forwarding/l2_multi.py:362-376 | exactly the addresses learned on either end of the link are forgotten |
| L2Multi.Controller.ConnectionUp | lab4/pox/pox/forwarding/l2_multi.py:378-386 | a joining switch keeps index and cache agreement |
| L2Multi.Controller.LinkSeen | lab4/pox/pox/openflow/discovery.py:339-382 | a probe refreshes its link's time stamp, raises an event only for a new link, is ignored from departed switches and its own port; the whole invariant is kept |
| L2Multi.Controller.DeleteLinks | lab4/pox/pox/openflow/discovery.py:384-387 | each deletion in the loop restores the exact index before the next |
| L2Multi.Controller.ExpireLinks | lab4/pox/pox/openflow/discovery.py:246-262 | exactly the links unseen for more than the timeout are dropped, invariant kept |
| L2Multi.Controller.ConnectionDown | lab4/pox/pox/openflow/discovery.py:218-230 | exactly the links of the departing switch are dropped, invariant kept |
| L2Multi.HandleEvents | lab4/pox/pox/forwarding/l2_multi.py:113-386 | over every run of switches joining and leaving, probes, expiries and path requests: the adjacency is an exact index of the links those events leave, and a path asked for then is a shortest simple one over it, or none exists |
| L2Multi.LinksExactly | lab4/pox/pox/openflow/discovery.py:218-382 | a link is known after a run exactly when some probe that counted showed it, and since the last such probe neither of its switches left and no timer ran more than 10 s after it; its time stamp is that probe's |
| L2Multi.OnlineExactly | lab4/pox/pox/openflow/discovery.py:205-230 | a switch is connected exactly when it joined and has not left since |
| L2Multi.Unlearned | lab4/pox/pox/forwarding/l2_multi.py:362-376 | an address survives exactly when it was learned on neither end of the link |
| L2Multi.IndexSet | lab4/pox/pox/forwarding/l2_multi.py:342-360 | recording the ports of a two-way link restores exactness for every pair of switches |
| L2Multi.IndexCleared | lab4/pox/pox/forwarding/l2_multi.py:336-348 | recording nothing is exact when no two-way link joins the pair |
| L2Multi.IndexKept | lab4/pox/pox/forwarding/l2_multi.py:350-354 | a second link between joined switches may be ignored |
| L2Multi.IndexSymmetric | lab4/pox/pox/forwarding/l2_multi.py:346-360 | adjacency is joined in both directions or in neither |
| RipNetwork.NeverUnderestimates | lab4/router/sr_rt.c:228-286 | over every run of the network, with loss, reordering, expiry and interfaces going up and down, every metric in a table or in flight is at most 16 and, below 16, at least the hop distance in the full topology |
| RipNetwork.HonestUpdate | lab4/router/sr_rt.c:460-532 | absorbing an honest response keeps a table honest |
| RipNetwork.HonestTick | lab4/router/sr_rt.c:239-286 | so does the interface pass, whatever is up |
| RipNetwork.HonestNext | lab4/router/sr_rt.c:448-541 | so does every step of the network |
| RipLoopFree.NoForwardingLoop | lab4/router/sr_rt.c:448-541 | while links deliver in order (possibly losing) and nothing goes down or expires, a packet following gateways never returns to a router it has passed, over every such run |
| RipLoopFree.GatewaysAreCloser | lab4/router/sr_rt.c:460-519 | every live entry is direct, or its gateway is the address of the neighbour's interface at the link's far end, and that neighbour holds a live entry for the network with a strictly smaller metric |
| RipLoopFree.PeerAddress | lab4/router/sr_rt.c:399-516 | the source address of a peer's responses, which becomes the gateway, is the address of the peer's interface on that link |
| RipNetwork.IpNamedIs | lab4/router/sr_rt.c:399 | a response carries the address of the interface it is sent from |
| RipNetwork.DeliverExactly | lab4/router/sr_rt.c:448-541 | a delivery changes the receiver's table only, and the receiver answers with its new table, towards every neighbour, exactly when some network's metric, gateway or interface differs from before |
| RipNetwork.PassExactly | lab4/router/sr_rt.c:228-292 | a periodic pass changes one table and always sends |
| RipBounds.SendIsBroadcast | lab4/router/sr_rt.c:369-442 | what the network queues towards each neighbour is what the packet the C loops send out of that link's interface decodes to, from that interface's address |
| RipLoopFree.GatewaysReachNetwork | lab4/router/sr_rt.c:460-519 | following gateways from any router with a live entry reaches an attached router in at most that many hops |
| RipLoopFree.CoreNext | lab4/router/sr_rt.c:448-541 | every calm step keeps the invariant that routes are backed by what the gateway holds and has in flight |
| RipLoopFree.AbsorbCore | lab4/router/sr_rt.c:460-532 | absorbing the oldest response in flight keeps it |
| RipLoopFree.SweepCore | lab4/router/sr_rt.c:228-286 | a periodic pass with nothing down or expired keeps it |
| RipLoopFree.SendCore | lab4/router/sr_rt.c:419-445 | sending the split-horizon responses keeps it |
| RipBounds.TablesStayMaps | lab4/router/sr_rt.c:419-432 | over every run each network has one entry, a table never outgrows the set of networks, and with at most 25 networks every response fits its packet and is read back whole |
| RipBounds.GoodNext | lab4/router/sr_rt.c:448-541 | every step keeps networks distinct and drawn from the interfaces' subnets, masks included |
| RipTable.TickPost | lab4/router/sr_rt.c:228-286 | after a pass, whatever the order of the interface list: entries through a down interface are at 16, every up interface's subnet has a live direct entry through it, and whatever is over 20 s old is at 16 |
| RipTable.TickKeeps | lab4/router/sr_rt.c:228-286 | the pass changes an entry in no other way |
| RipTable.TickDistinct | lab4/router/sr_rt.c:239-286 | the pass never makes two entries for one network |
| RipTable.UpdateAllDistinct | lab4/router/sr_rt.c:460-532 | neither does any response |
| RipTable.UpdateOneFind | lab4/router/sr_rt.c:470-529 | a received route changes the entry of its own masked network and no other |
| RipTable.DeadStaysDead | lab4/router/sr_rt.c:475-485 | an entry that died stays dead as long as all it hears comes through its own interface, whatever finite metrics arrive |
| RipTable.RevivesExactly | lab4/router/sr_rt.c:463-530 | a response makes a dead entry live again if and only if it comes through another interface, offers the network at a metric below 16 after the hop, and does not withdraw it after the first offer |
| RipTable.RevivesOnce | lab4/router/sr_rt.c:463-530 | for a response that names networks once: if and only if it comes through another interface and offers the network |
| RipTable.NoWorseExactly | lab4/router/sr_rt.c:470-503 | after a response that names networks once, an entry is no worse than what was offered if and only if it was no worse before or uses another interface |
| RipTable.StaleMetricKept | lab4/router/sr_rt.c:475-485 | an entry at 6 keeps 6 when its own interface offers 2 |
| RipTable.TickFind | lab4/router/sr_rt.c:228-286 | what a pass does to the entry of one network, seen by looking that network up |
| RipStuck.NeverConverges | lab4/router/sr_rt.c:475-485 | a run after which, over every further run, a router keeps a network at 16 although its interface is up; unless the neighbour finds that network's own interface down, every response the neighbour has for the router offers it at metric 0, whatever is delivered, lost or expires meanwhile |
| RipStuck.StaleMetricStays | lab4/router/sr_rt.c:475-485 | a run after which a router one hop from a network has it at 2 and over every further run never gets anything better, under the same standing offer at metric 0 |
| RipStuck.PinnedForever | lab4/router/sr_rt.c:475-485 | no run ever gives a router with one interface another metric for another network's entry, short of killing it; a dead one stays dead |
| RipStuck.OfferingRun | lab4/router/sr_rt.c:254-272 | a router keeps its direct entry at 0 over every run that never finds that interface down, if the interface has no router beyond it |
| RipStuck.FlapCuts | lab4/router/sr_rt.c:228-286 | the state the first run reaches: dead entry, live direct entry for the link, neighbour directly attached |
| RipStuck.DetourEnds | lab4/router/sr_rt.c:463-530 | the state the second run reaches: the metric heard through the detour, neighbour directly attached again |
| RipStuck.PairExists | lab4/router/sr_rt.c:95-111 | addresses and masks for the first run |
| RipStuck.RowExists | lab4/router/sr_rt.c:95-111 | addresses and masks for the second |
| RipTable.Heard | lab4/router/sr_rt.c:465 | the 32-bit sum capped at 16 is min(metric + 1, 16), except that the largest metric wraps to 0 |
| RipTable.BuildDistinct | lab4/router/sr_rt.c:95-111 | the initial table has one live direct entry per interface subnet, stamped now |
| RipTable.ResponseMember | lab4/router/sr_rt.c:422-432 | a response advertises exactly the entries that leave through another interface |
| RipTable.ResponseDistinct | lab4/router/sr_rt.c:422-432 | a response never advertises a network twice |
| RipTable.WireRoundTrip | lab4/router/sr_rt.c:419-463 | the receiver's nonzero-family scan sees exactly the sender's list, in order |
| RipRouter.Router.UpdateRouteTable | lab4/router/sr_rt.c:448-541 | the loops compute the update rule entry by entry and send one response per interface when the change flag ends up set; TriggersExactly says when that is |
| RipTable.TriggersExactly | lab4/router/sr_rt.c:457-537 | any response sets the change flag if and only if it leaves some network with another metric, gateway or interface than before, or with its first entry |
| RipTable.ChangeLasts | lab4/router/sr_rt.c:480-517 | no change a response makes is undone by the rest of that response |
| RipTable.RouteTaken | lab4/router/sr_rt.c:470-517 | field by field what a route leaves: a new or better one is the route's own with the sender as gateway, one through the interface in use is refreshed or killed, any other is left alone |
| RipTable.HeardStamps | lab4/router/sr_rt.c:475-517 | an entry left on the response's interface carries the time it was heard, any other is untouched |
| RipTable.HeardOutlives | lab4/router/sr_rt.c:228-236 | an entry just heard survives every pass of the next 20 seconds and none later, unless an interface claims it or goes down |
| RipRouter.Router.TimeoutPass | lab4/router/sr_rt.c:228-288 | the loops compute the expiry and interface pass and then send |
| RipRouter.Router.FillEntries | lab4/router/sr_rt.c:419-432 | filling the zeroed array with a running index writes exactly the split-horizon list, in bounds |
| RipRouter.Router.SendRipResponse | lab4/router/sr_rt.c:419-442 | one packet per interface, in list order; BroadcastSplits says what each holds |
| RipRouter.BroadcastSplits | lab4/router/sr_rt.c:375-439 | packet i goes out of interface i under its address, and the receiver reads from it exactly the entries that leave through another interface, field by field |
| RipTable.ResponseInOrder | lab4/router/sr_rt.c:419-432 | entries are listed in the table's order, each by itself |
| RipRouter.Router.BuildRt | lab4/router/sr_rt.c:95-111 | one direct entry per interface is appended |
| PrefixMatch.PrefixMatch | lab4/router/sr_router.c:413-436 | the earliest of the live matching entries whose masks have the most leading ones, and null exactly when no live entry matches |
| PrefixMatch.CountLeading | lab4/router/sr_router.c:422-427 | the bit loop counts the leading ones of a 32-bit mask and its 8-bit counter cannot wrap |
| PrefixMatch.BestIsUnique | lab4/router/sr_router.c:413-436 | that description names one entry |
| PrefixMatch.FindsExactly | lab4/router/sr_router.c:418-435 | something is found exactly when an entry of metric at most 15 agrees with the address under its mask, and what is found is such an entry |
| PrefixMatch.LongestPrefix | lab4/router/sr_router.c:413-436 | with masks read most significant bit first this is longest-prefix match, and whatever else matches covers all the chosen entry covers |
| PrefixMatch.MatchIsPrefix | lab4/router/sr_router.c:419-421 | masked equality is agreement on the first n bits |
| PrefixMatch.LittleLength | lab4/router/sr_router.c:422-427 | on a little-endian machine masks of up to 24 bits all count as zero leading ones |
| PrefixMatch.LittleEndianLookup | lab4/router/sr_router.c:413-436 | there the lookup finds a longest match if and only if some match has more than 24 bits or the first match is a longest one |
| PrefixMatch.OrderedTablesWork | lab4/router/sr_router.c:413-436 | there a table that lists no live prefix of up to 24 bits after a shorter live one covering it is looked up correctly for every address |
| PrefixMatch.ShortPrefixWins | lab4/router/sr_router.c:413-436 | a concrete table, for any address, on which it does not |
| Sha1.HashPieces | lab4/router/sha1.c:71-185 | for any message cut into any pieces, the digest is that of FIPS PUB 180-1 for the whole message, and the call fails exactly when the message has 2^64 bits or more |
| Sha1.Context.Input | lab4/router/sha1.c:143-185 | input extends the message; once it reaches 2^64 bits, or after a result, the context is corrupted |
| Sha1.Context.Result | lab4/router/sha1.c:104-119 | a result is the digest of everything input, and asking again changes nothing |
| Sha1.Context.PadMessage | lab4/router/sha1.c:326-371 | both padding branches complete the message exactly as section 4 of FIPS PUB 180-1 pads it |
| Sha1.Context.PadLong | lab4/router/sha1.c:334-348 | the branch that needs a second block |
| Sha1.Context.PadShort | lab4/router/sha1.c:349-356 | the branch that does not |
| Sha1.Context.StoreLength | lab4/router/sha1.c:361-368 | the eight length bytes are the 64-bit message length in network order |
| Sha1.Context.CountByte | lab4/router/sha1.c:163-176 | the two 32-bit length words count bits exactly up to 2^64 |
| Sha1.Context.ProcessMessageBlock | lab4/router/sha1.c:207-301 | the in-place rounds compute one step of the section 7 recurrence |
| Sha1.Context.FillSchedule | lab4/router/sha1.c:221-235 | the shift-and-or loop and the expansion loop fill the word schedule of the standard |
| Sha1.Context.AllRounds | lab4/router/sha1.c:243-287 | the four round loops are the eighty rounds of the standard |
| Sha1.Context.CircularShift | lab4/router/sha1.c:46-48 | two shifts and an or are a rotation, bit by bit |
| Sha1.Context.Reset | lab4/router/sha1.c:71-85 | a reset context holds the empty message |
| Sha1Spec.ScheduleUnique | lab4/router/sha1.c:224-235 | the standard's recurrence determines the word schedule |
| Sha1Spec.PaddingIsShortest | lab4/router/sha1.c:334-356 | no shorter run of zero bytes would complete a block |
| Sha1Spec.PaddingOctets | lab4/router/sha1.c:334-368 | the octets of the padding: 0x80, zeros, and eight that read as the length in bits |
| Sha1Spec.ConstantsAreRoots | lab4/router/sha1.c:209-215 | the four constants are 2^30 times the square roots of 2, 3, 5 and 10, rounded down |
| Sha1Spec.StartCounts | lab4/router/sha1.c:77-81 | the starting words, lowest octet first, count 01 23 45 up, FE DC BA down, F0 E1 D2 down |
| Sha1Spec.FBits | lab4/router/sha1.c:243-282 | bit by bit the round functions are choice, parity, majority and parity |
| Sha1Spec.HashBlocksStep | lab4/router/sha1.c:289-298 | hashing one more block is one compression of the hash so far |
| Reindent.Idempotent | lab4/pox/tools/reindent-pox.py:29-30 | a rewritten file is a fixed point: read back in with marks on the same lines at the same levels, it is rewritten to itself |
| Reindent.RunTwice | lab4/pox/tools/reindent-pox.py:176-243 | running, reading the output back and running again reports no change |
| Reindent.OnlyIndentation | lab4/pox/tools/reindent-pox.py:220-242 | every output line is its input line with only leading spaces changed, blank lines stay blank, and none is added or lost |
| Reindent.StatementsEndSet | lab4/pox/tools/reindent-pox.py:220-242 | every statement ends at twice its level or stays at the margin it was at |
| Reindent.StatementIndent | lab4/pox/tools/reindent-pox.py:187-231 | every statement ends at exactly twice its level, unless it was at the margin, where it stays |
| Reindent.CommentsFollow | lab4/pox/tools/reindent-pox.py:188-218 | an indented comment ends where the last line with its indentation did, or else lines up with the next statement as before, or else moves as far as the last statement, or stays |
| Reindent.LinesMoveTogether | lab4/pox/tools/reindent-pox.py:220-231 | every line up to the next mark moves as far as its mark's line does, but not past the margin |
| Reindent.MemoRemembers | lab4/pox/tools/reindent-pox.py:178-219 | the memo table holds what the last mark with that indentation wanted |
| Reindent.EndsWhereWanted | lab4/pox/tools/reindent-pox.py:219-231 | a mark's line ends where the loop wants it, or stays at the margin |
| Reindent.Reindenter.Run | lab4/pox/tools/reindent-pox.py:176-243 | the loops with their memo table compute the line-by-line rewriting, and the result says whether it differs from the file as read |
| Reindent.Reindenter.DoMark | lab4/pox/tools/reindent-pox.py:184-231 | the loop body is one step of that rewriting |
| Reindent.Reindenter.WantedIndent | lab4/pox/tools/reindent-pox.py:187-218 | the decision for one mark; it is never negative, and the lookup in the rewritten lines stays in range |
| Reindent.Reindenter.NextLoop | lab4/pox/tools/reindent-pox.py:196-202 | the forward search stops at the first statement |
| Reindent.Reindenter.HangLoop | lab4/pox/tools/reindent-pox.py:203-212 | the backward search stops at the last statement and applies its shift |
| Reindent.Reindenter.Append | lab4/pox/tools/reindent-pox.py:220-231 | the governed lines are copied or moved by the same number of columns |
| Reindent.ShiftMoves | lab4/pox/tools/reindent-pox.py:224-231 | moving a line keeps its text and moves it by exactly the difference, or to the margin if that is nearer |
| Reindent.OutputReadsBack | lab4/pox/tools/reindent-pox.py:160-166 | stripping and expanding a rewritten file changes nothing and no trailing blank line appears |
| Reindent.NormalIsNormal | lab4/pox/tools/reindent-pox.py:160-166 | a line as read has no tab and ends in a visible character and a newline, or is just a newline |
| Reindent.KeepsWhatShows | lab4/pox/tools/reindent-pox.py:176-243 | against the raw file: every output line keeps every character of its raw line but spaces, tabs and newlines, in order, and the lines dropped at the end showed nothing |
| Reindent.KeepsText | lab4/pox/tools/reindent-pox.py:160-243 | a raw line's text without tabs, from its first visible character to its last, comes out unchanged, inner spaces included |
| Reindent.NormalVisible | lab4/pox/tools/reindent-pox.py:164-166 | stripping and tab expansion change nothing that shows |
| Reindent.RstripCuts | lab4/pox/tools/reindent-pox.py:140-151 | what is stripped is a tail of spaces, tabs and newlines, and what is left ends in none of them |
| Reindent.TabStops | lab4/pox/tools/reindent-pox.py:165 | a tab becomes one to eight spaces ending at the next multiple of eight columns, counted from the last line break; every other character is copied |
| Reindent.RunsInPlace | lab4/pox/tools/reindent-pox.py:176-243 | in a file whose statements are set, every mark wants the indentation it has, whatever the memo holds |
| Reindent.RstripLoop | lab4/pox/tools/reindent-pox.py:140-151 | strips exactly the trailing spaces, tabs and newlines |
| Reindent.GetLspace | lab4/pox/tools/reindent-pox.py:297-301 | counts the leading spaces |
| Reindent.Reindenter.constructor | lab4/pox/tools/reindent-pox.py:155-168 | the lines are the stripped, tab-expanded ones behind a dummy |
| ArpQueue.PacketsConserved | lab4/router/sr_arpcache.c:56-260 | over every interleaving of the two threads: request addresses stay distinct, and the packets accepted for an address are, in order of arrival, those answered, those in the packet thread's hand and those queued, each exactly once |
| ArpQueue.NoPacketWaitsForever | lab4/router/sr_arpcache.c:56-92 | with n interfaces every packet accepted has been handled after k sweeps once (k - 1) n >= 5, whatever else happens meanwhile |
| ArpQueue.UnansweredRequest | lab4/router/sr_arpcache.c:64-92 | a request nobody answers outlives k sweeps exactly when it had been sent fewer than five times before the last of them; then it still holds its packets, else all were answered unreachable, in order |
| ArpQueue.TimesSentIs | lab4/router/sr_arpcache.c:74-83 | k sweeps over n interfaces add k n to the number of times sent |
| ArpQueue.NoInterfacesNoAnswer | lab4/router/sr_arpcache.c:74-83 | without interfaces a request is never given up |
| ArpQueue.InvNext | lab4/router/sr_arpcache.c:56-260 | every step of either thread keeps conservation and distinctness |
| ArpQueue.QueueAdds | lab4/router/sr_arpcache.c:137-170 | a packet is queued behind the others for its address; a new address opens one request, no other is touched |
| ArpQueue.DetachRemoves | lab4/router/sr_arpcache.c:187-202 | detaching removes the request of that address and no other |
| ArpQueue.SweepRetries | lab4/router/sr_arpcache.c:64-90 | a sweep destroys exactly the requests sent five times or more and counts one request per interface for each of the others |
| ArpQueue.SweepAnswers | lab4/router/sr_arpcache.c:37-47 | a sweep answers exactly the packets of the requests it destroys, in order |
| ArpQueue.AnswersAll | lab4/router/sr_router.c:650-670 | uninterrupted, the packet thread's steps do what its loop does at once |
| ArpQueue.ArpCache.QueueReq | lab4/router/sr_arpcache.c:128-175 | the list walk computes the queueing rule; a null or empty packet only opens the request |
| ArpQueue.ArpCache.Insert | lab4/router/sr_arpcache.c:181-220 | the request is spliced out and returned, and the mapping goes to the first free slot, if any |
| ArpQueue.ArpCache.SweepReqs | lab4/router/sr_arpcache.c:56-92 | walking the list while splicing it visits every request once; SweepRetries, SweepAnswers and SweepAsks say what that does |
| ArpQueue.SweepAsks | lab4/router/sr_arpcache.c:67-83 | a sweep sends an ARP request for an address out of every interface once, in order, if its request was sent fewer than five times, and none otherwise |
| ArpQueue.SweepCounts | lab4/router/sr_arpcache.c:74-83 | a surviving request keeps its packets, and is counted once more per interface |
| ArpQueue.AsksAsked | lab4/router/sr_arpcache.c:75-83 | the requests sent for one entry are one per interface, for its address only |
| ArpQueue.ArpCache.SweepOne | lab4/router/sr_arpcache.c:65-85 | the loop body; the time test is always true |
| ArpQueue.ArpCache.AskAll | lab4/router/sr_arpcache.c:75-83 | one ARP request per interface, each counted; AsksAsked says they are those interfaces, in order |
| ArpQueue.ArpCache.SendUnreachable | lab4/router/sr_arpcache.c:37-47 | one port-unreachable answer per packet, in order |
| ArpQueue.ArpCache.Lookup | lab4/router/sr_arpcache.c:98-120 | a copy of the last valid slot for the address, null exactly when there is none |
| ArpQueue.ArpCache.Timeout | lab4/router/sr_arpcache.c:308-321 | expires slots over 15 s old, then sweeps |
| ArpQueue.ArpCache.HandleArp | lab4/router/sr_router.c:626-670 | whatever waited for the sender goes out in order through the port the message came in by |
| ArpQueue.InsertThenLookup | lab4/router/sr_arpcache.c:204-215 | a new mapping is the one found exactly when there is a free slot and no valid entry for the address above it; other addresses keep theirs |
| ArpQueue.NewestMappingCanBeHidden | lab4/router/sr_arpcache.c:98-107 | a table of 100 slots, filled, expired and filled again by the functions themselves, where the newest mapping is not the one found |
| ArpQueue.HiddenMapping | lab4/router/sr_arpcache.c:98-120 | the same by calling them in order: three answers, one expiry round, one lookup |
| ArpQueue.LookupsAreFresh | lab4/router/sr_arpcache.c:310-317 | after the expiry pass a lookup succeeds exactly when an entry at most 15 s old exists, and reads such a one |
| Waiters.MakeCalls | lab5/pox/pox/core.py:419-515 | after any sequence of registrations and waits, with callbacks registering more: what is registered is the least closure, every waiter fired once or still waits, none left is ready |
| Waiters.CallOrderIrrelevant | lab5/pox/pox/core.py:419-515 | the same calls in any order leave the same components |
| Waiters.Core.Register | lab5/pox/pox/core.py:434-438 | terminates; fires each waiter at most once, only when its components are there, leaves none ready, and registers nothing the waiters do not force |
| Waiters.Core.CallWhenReady | lab5/pox/pox/core.py:471-473 | an added waiter fires at once if it can; a quiet state stays quiet |
| Waiters.Core.TryWaiters | lab5/pox/pox/core.py:505-515 | the while-changed loop over a stale copy ends with no ready waiter |
| Waiters.Core.OnePass | lab5/pox/pox/core.py:512-515 | a round in which nothing fired saw every current waiter blocked |
| Waiters.Core.TryWaiter | lab5/pox/pox/core.py:475-503 | fires exactly when the entry is still waiting and all its components are there |
| Waiters.Core.RunCallback | lab5/pox/pox/core.py:490-503 | a callback that registers names, re-entrantly |
| Waiters.ClosureIsLeast | lab5/pox/pox/core.py:505-515 | firing rules one at a time computes the least closed set |
| Waiters.OrderIrrelevant | lab5/pox/pox/core.py:505-515 | in whatever order the rules are tried |
| Framing.Receive | ltprotocol/ltprotocol/ltprotocol.py:94-118 | the messages delivered depend only on the concatenation of the chunks, up to and including the first malformed frame, and no complete frame is left buffered |
| Framing.SendAndReceive | ltprotocol/ltprotocol/ltprotocol.py:56-118 | any list of packed messages of known types, cut anywhere, comes back as the same list with an empty buffer |
| Framing.Receiver.DataReceived | ltprotocol/ltprotocol/ltprotocol.py:94-118 | the buffer length is tracked exactly; every complete frame is delivered, None for an unknown type; it fails exactly on a frame too small for its header |
| Framing.Receiver.TakeFrame | ltprotocol/ltprotocol/ltprotocol.py:107-115 | one frame is cut off and delivered |
| Framing.ParseMore | ltprotocol/ltprotocol/ltprotocol.py:104-118 | bytes that arrive later never change what was delivered before |
| Framing.NothingLeft | ltprotocol/ltprotocol/ltprotocol.py:104-118 | what stays buffered holds no complete frame |
| Framing.ParsePacked | ltprotocol/ltprotocol/ltprotocol.py:56-63 | packing then parsing gives the messages back, whatever follows |
| Framing.PackParsed | ltprotocol/ltprotocol/ltprotocol.py:56-63 | parsing then packing gives the bytes back: a frame has one spelling |
| Framing.PackedLayout | ltprotocol/ltprotocol/ltprotocol.py:56-63 | the bytes of a packed message: its whole length, then its type, then its body; refused exactly when a field cannot hold its value |
| Framing.FailsForGood | ltprotocol/ltprotocol/ltprotocol.py:113 | a malformed frame ends the stream whatever follows |
| Bytes.FieldValue | ltprotocol/ltprotocol/ltprotocol.py:61-63 | an unsigned big-endian field reads back as the number packed, when it fits |
| Bytes.ValueField | ltprotocol/ltprotocol/ltprotocol.py:105 | every field is the packing of the number it reads as |
| EpollSelect.Selector.Select | lab4/pox/pox/lib/epoll_select.py:17-99 | after every call the kernel polls exactly the union of the current lists' masks, and the three results are the objects of the events |
| EpollSelect.Selector.Update | lab4/pox/pox/lib/epoll_select.py:55-82 | the registered table is exactly the current lists' interest, and the kernel is called once for each changed descriptor and for no other |
| EpollSelect.IncrementalIsDirect | lab4/pox/pox/lib/epoll_select.py:28-82 | the scheduled differences applied to the old interest give the new one, and a new descriptor is never scheduled for neither, so the AssertionError is unreachable |
| EpollSelect.SchedulesTheDifference | lab4/pox/pox/lib/epoll_select.py:40-51 | the two list differences schedule exactly the descriptors whose interest changed, with their final masks, also where both lists change |
| EpollSelect.AppliedAll | lab4/pox/pox/lib/epoll_select.py:69-82 | the order of the dictionary does not matter |
| EpollSelect.Selector.Apply | lab4/pox/pox/lib/epoll_select.py:69-82 | no kernel call is made that the kernel would refuse |
| EpollSelect.Selector.ModifyTable | lab4/pox/pox/lib/epoll_select.py:28-53 | the new descriptor set, the schedule and the object table |
| EpollSelect.ReturnsOwnExactly | lab4/pox/pox/lib/epoll_select.py:35-38 | a call returns, whatever the kernel reports, only objects of the lists they are returned for, if and only if before the call every descriptor of each list meets its condition on the two lists, the last two lists and the table |
| EpollSelect.ReturnedInOrder | lab4/pox/pox/lib/epoll_select.py:87-97 | poll results are answered in their order, each by itself |
| EpollSelect.ReadableAlways | lab4/pox/pox/lib/epoll_select.py:92-93 | the same for the readable result alone: if the write list changed and ends on an object for the descriptor, that object is on the read list; else the read list changed or the remembered object is on it |
| EpollSelect.WritableAlways | lab4/pox/pox/lib/epoll_select.py:94-95 | the mirror condition for the writable result, the write list being walked last |
| EpollSelect.FailedAlways | lab4/pox/pox/lib/epoll_select.py:96-97 | and for the failed result on either list |
| EpollSelect.ReadableExactly | lab4/pox/pox/lib/epoll_select.py:92-93 | for one poll result: exactly when the readable descriptors in it meet their condition |
| EpollSelect.MappedLast | lab4/pox/pox/lib/epoll_select.py:34-38 | after a list is walked the table holds its last object for a descriptor, or what it held before |
| EpollSelect.SelectOwn | lab4/pox/pox/lib/epoll_select.py:17-99 | a call made under the condition returns only what was asked for |
| EpollSelect.SelectOwned | lab4/pox/pox/lib/epoll_select.py:91-99 | which holds when a descriptor belongs to one object only |
| EpollSelect.StaleObject | lab4/pox/pox/lib/epoll_select.py:35-38 | three calls that end by returning an object on neither list |
| Checksum.Cksum | lab4/router/sr_utils.c:8-20 | for up to 131074 bytes: the complement of the one's-complement sum in network order, 0 sent as 0xffff |
| Checksum.AddWords | lab4/router/sr_utils.c:12-15 | the 32-bit sum never overflows |
| Checksum.Fold | lab4/router/sr_utils.c:16-17 | folding ends and gives the one number up to 0xffff that is congruent modulo 0xffff and zero only for zero |
| Checksum.LongerOverflows | lab4/router/sr_utils.c:12-15 | one word more and a carry is lost: the bound is sharp |
| Checksum.StampedSumsToOnes | lab4/router/sr_router.c:227-230 | storing the checksum in a zeroed aligned field makes the whole sum 0xffff, for every buffer and either byte order |
| Checksum.ChecksumsAgree | lab4/router/sr_utils.c:8-20 | two buffers get the same checksum exactly when their sums agree modulo 0xffff |
| Checksum.OneWordChanged | lab4/router/sr_router.c:118-126 | changing one aligned word goes unnoticed only between 0 and 0xffff |
| Checksum.AcceptedIsStandard | lab4/router/sr_router.c:119-126 | the router accepts exactly the headers section 2 of RFC 1071 accepts whose checksum field is not zero |
| Checksum.Verify | lab4/router/sr_router.c:119-126 | zeroing, recomputing and comparing decides acceptance and restores the header |
| Checksum.Forward | lab4/router/sr_router.c:227-230 | the TTL drops by one, nothing else but the checksum changes, and the next hop accepts the header |
| Checksum.ForwardedChecksum | lab4/router/sr_router.c:227-230 | the rewrite moves the checksum by 0x0100 modulo 0xffff |
| Checksum.ChecksumIs | lab4/router/sr_utils.c:8-20 | of the numbers 1 to 0xffff, the one that brings the buffer, padded to even length with a zero byte and read as one big-endian number, to a multiple of 0xffff |
| HwInfo.PrintAndRead | lab4/router/sr_vns_comm.c:177-235 | unless a constructor refuses one, any list of interfaces that fits a message is rebuilt in order with hardware address, IP, mask and status up, and its name as a string exactly when that has no NUL and is shorter than 32 bytes; then its status is found |
| HwInfo.CopiedName | lab4/router/sr_if.c:77-79 | what strncpy leaves of a printed name: a terminated string equal to it exactly when it has no NUL and is shorter than 32 bytes, an unterminated array exactly when its first 32 bytes have none |
| HwInfo.NameSurvives | lab4/router/sr_if.c:94-101 | strcmp sees a printed name at its node exactly when it has no NUL and is shorter than 32 bytes, or the bytes the string runs into happen to be its rest |
| HwInfo.LongNamesAreLost | lab4/router/sr_if.c:204-213 | on a little-endian machine, for names of visible characters and a node that is up, the exact bound is 31 bytes |
| HwInfo.LongNameReadsDown | lab4/router/sr_if.c:204-213 | a 32-byte name whose only node is up reads as down |
| HwInfo.PackedIsSpelled | lab5/pox_module/pwospf/VNSProtocol.py:149-159 | the struct format is six 36-byte entries |
| HwInfo.PackedLayout | lab5/pox_module/pwospf/VNSProtocol.py:142-159 | the offset, key and value of each of the six entries, with the static flag lowest byte first |
| HwInfo.SentHeader | lab5/pox_module/pwospf/VNSProtocol.py:201-214 | the header gives the length of the whole message and type 16 |
| HwInfo.EntriesReadBack | lab4/router/sr_vns_comm.c:186-192 | the reader's 36-byte stride sees exactly the printer's entries |
| HwInfo.HandleAll | lab4/router/sr_vns_comm.c:190-230 | setting the last interface's fields entry by entry rebuilds the printed list behind whatever was there |
| HwInfo.Router.HandleHwInfo | lab4/router/sr_vns_comm.c:177-235 | the loop runs the entries in order, and aborts exactly when a setter comes before any interface |
| HwInfo.Router.HandleEntry | lab4/router/sr_vns_comm.c:192-229 | the switch |
| HwInfo.Router.SetAddr | lab4/router/sr_if.c:145-159 | sets the last interface's hardware address and nothing else |
| HwInfo.Router.SetIp | lab4/router/sr_if.c:169-183 | sets the last interface's IP address and nothing else |
| HwInfo.Router.SetMask | lab4/router/sr_if.c:186-200 | sets the last interface's mask and nothing else |
| HwInfo.UpdateThenObtain | lab4/router/sr_if.c:94-103 | a status update is seen at its node by the next look-up exactly when the array is terminated or the new status leaves the string behind it as it was; then no other name changes, and an unknown name changes nothing |
| HwInfo.Router.UpdateStatus | lab4/router/sr_if.c:94-103 | the walk updates the first node whose string, read on past an unterminated array, is the name |
| HwInfo.Router.ObtainStatus | lab4/router/sr_if.c:204-213 | the walk finds the first such node's status, 0 if none |
| HwInfo.MakeInfo | lab5/pox_module/pwospf/VNSProtocol.py:127-140 | the three checks one after the other refuse exactly the arguments of a wrong length, and otherwise keep all five |
| HwInfo.MakeAll | lab5/pox_module/pwospf/VNSProtocol.py:127-140 | a list is made exactly when no constructor refuses |

## Left out

- C linked lists are sequences held in a field; allocation, freeing and aliasing of list nodes are not modelled.
- Each section under a lock is one atomic step; lock acquisition, deadlock and pthread creation are not modelled.
- Clocks, sockets, Twisted, Mininet and the kernel are parameters (times, poll results, chunks); a pass reads the clock once.
- Ethernet, IP, ICMP, ARP and RIP header filling is straight-line copying; a send is an entry in an output log.
- RIP convergence to shortest routes: false of the code, as the runs in `RipStuck.NeverConverges` (a dead entry) and `RipStuck.StaleMetricStays` (a live one) show; `RipTable.RevivesExactly` says when a dead entry comes back and `RipTable.NoWorseExactly` when any entry takes up a better offer.
- RIP requests: answering one is the step that sends a response; sending one changes no state.
- The network model assumes responses fit their 25 slots; `RipBounds.TablesStayMaps` says when they do.
- Loop freedom is stated for runs in which no interface goes down and no entry expires, the runs distance-vector routing promises it for; the other RIP results hold on every run.
- A switch is known by its datapath number and every known switch keeps a connection object, so a link event always runs to its end (lab4/pox/pox/forwarding/l2_multi.py:332-333); the re-entrant disconnect a socket error can cause is not modelled.
- Keys a defaultdict gains by being read: they read as None before and after.
- Flow installation, flooding, LLDP parsing and the address-learning half of l2_multi are event glue.
- SHA-1 on messages that are not whole octets: the source does not take them either.
- The tokenizer behind the reindenter: its statement and comment marks are an input, and a second run is given marks on the same lines at the same levels.
- Reading and writing files, backups and command-line options of the reindenter.
- The clock the ARP sweep reads is past second 1; the unsigned 32-bit count of requests cannot wrap, since it stays below 5 plus the number of interfaces.
- The rewriting of a pending packet's Ethernet header before it is sent.
- ArpQueue.ArpCache.HandleArp: the reply sent to a request is not logged.
- Waiting callbacks that add waiters, or components taken away: a callback only registers names.
- The ComponentRegistered event's own listeners and the flag hasComponent sets for the openflow component.
- Message bodies: framing delivers type and body; unpacking them is left to the message classes.
- Lists changed in place by the caller between two select calls: the wrapper compares a list with itself and sees no change.
- Descriptors the kernel forgets when they are closed.
- The reader closes the connection on a message over 10000 bytes (lab4/router/sr_vns_comm.c:375), which is 46 interfaces; `HwInfo.PrintAndRead` covers every message whose length fits its 32-bit field.
- What lies in memory behind a status node is any bytes; the name passed to a status look-up is a terminated string.
- HwInfo: interface speed, the messages other than hardware information, and the printing of lists.
- A packet whose TTL is 0 on arrival: only a TTL of 1 is caught (lab4/router/sr_router.c:204), so the 8-bit decrement wraps to 255 as `Checksum.Forward` models; the forwarding policy around it is left out.
- Learning switches, host tracking, messenger, logging, GUI and boot code: thin event handlers.
- Address conversions, Nicira switch roles, banner splitting and the other VNS messages: only easy members.
