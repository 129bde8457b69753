# Verified models of the packet tables, reassemblers and limiters

This project models the stateful cores of the packet tool in Dafny and proves what they keep over
whole runs. Each core is a class whose fields are the fields the C code updates and whose methods
follow the C functions branch by branch. A method is proved against functions that give the new
contents from the old. Those functions are then the subject of the theorems: about every reachable
state, every order of arrival, every interleaving of flows and every clock that does not go back.
Table sizes are parameters, so the theorems hold for every positive capacity.

`dafny verify dfyconfig.toml` checks the whole project. Every lemma carries `{:induction false}`:
all inductions are written out.

## What is modelled

**Connection table** (`Conntrack`, `ConntrackRuns`, `ConntrackTotals`). An open-addressed table with
linear probing, in which closed slots are reused while a lookup only skips slots that never were in
use. After a sweep a key can therefore own two live slots (`DuplicatesAfterSweep`). `OneLiveIff` says
exactly when an update keeps one live slot per key, from what can be seen in the table before it:
unless a closed slot stands before a live record of its key in the key's probe order. `OneLiveRunIff`
says so of whole runs. What holds in every reachable table, duplicates or not, is an order along the
probe path: of two records of one key the one met first is at least as fresh, and closed only if both
are; and no never-used slot interrupts the way to a record. From it follow what a lookup can promise, what an update followed by a lookup
returns and when an update is refused. `ClosedIffIdle` times a connection over whole runs: a sweep closes it
if and only if its timeout has passed since the connection's last packet. The accounting theorems relate the live counter, the bytes in the slots,
the bytes of overwritten records and the bytes of all accepted packets. Until a sweep closes
something the table is exactly a map from connections to their traffic. Counters have the widths of
the program: 64-bit bytes, 32-bit packets. The home slot depends on an arbitrary mixing function of
the key in the run theorems; `Mix` is the program's.

**IP reassembly** (`SwapTable`, `IpDefrag`, `IpDefragRuns`). Buffers in arrays that grow by
reallocation (the bytes gained are arbitrary) in a table compacted by moving the last entry. The code
decides completeness by counting bytes. `CountIsCoverage` and `CompleteIff` say what the count
amounts to for all fragments of one datagram, overlapping or not; `CompleteIffCovered` is the
promise of section 3.2 of RFC 791 for pieces that do not overlap; `OverlapCompletesEarly` is a
concrete overlap for which the promise fails. A test is named "get returns err when incomplete", but
the get function asks only for a last fragment, which that test leaves out: `GetIsSureIffWhole` says
exactly when what it hands out is sure to be the datagram, and `GetBeforeComplete` gives an input
where it is not. `GetReplies` and `Fetch` say exactly when a get succeeds and that it otherwise changes nothing.
`FlowsAreIsolated` compares any interleaving of calls with one flow's calls alone.

**Fragment bookkeeping** (`FragTrack`, `FragTrackRuns`). A second table with swap-compacting
eviction and 16-bit sums. The sweep is proved to keep exactly the young entries; `ActiveIff` says over
every run exactly which keys are active, from the calls alone; every run conserves
created = active + removed + evicted, and evicted = expired + evicted complete; and, fed the same
fragments, this tracker and the IP reassembler agree about when a datagram is complete. It counts a datagram again exactly when a piece
arrives after it was complete (`CountedAgainIff`), as when a datagram is delivered twice (`CountedTwice`).

**TCP reassembly** (`TcpReasm`, `TcpReasmRuns`). Streams with singly linked lists on the heap, sorted
insertion, freeing, and a find-or-allocate stream table. The class invariant says that all lists are
acyclic, sorted, counted, disjoint and made of exactly the segments allocated and not freed; that no
two streams in use share a 4-tuple; and that created = in use + expired. `ExpiryByAge` says exactly which
streams an expiry frees, through the wrap-around of its 32-bit clock. `AddSegment` keeps it exactly
when the stream still is in use, which the program does not ask. The code compares sequence numbers
plainly, so the segments of one stream are in stream order, in whatever order they arrived, if and
only if the last of them starts before the numbers begin again (`AnyOrderReassembles`); `WrapsRound`
is a stream that is read back the wrong way round. A read returns the longest prefix of whole segments
that fits.

**Rate control** (`RateLimit`, `Throttle`, `ThrottleRuns`). The token bucket, over real numbers, holds
at every check exactly the least allowance over all earlier instants, so a packet is dropped if and
only if letting it through would break the bound for some start. The window limiter measures time
with a division that truncates toward zero, so windows can be almost a millisecond short. The bound
of one window's limit for every 99 ms begun holds when measured from the start of a window
(`RunBound`), and with one limit more when measured from an arbitrary check (`StretchBound`).
`StretchNeedsTwoWindows` is a run that needs the one more, and `TightIff` says exactly when no stretch
from a given check can need it, for packets and for bytes: if that check opens a window, or the window
has nothing left to admit, or the next window cannot open less than 99 ms later. The last is seen from
two clock readings (`OpensSoonIff`). `AdmittedIff`, `KthCheck` and `RateBound` state the limits as the rates
per second they are configured with.

**Packet ring** (`Ring`), **hex printer** (`HexDump`) and **header parsers** (`Dissect`, `Decode`,
`ParserAgreement`). The ring holds the last accepted packets in order; a parser undoes the printer;
the two independent header parsers agree wherever both apply; and dissecting an encoded frame gives
back all fields and the payload. One parser shifts and ors promoted bytes, the other also loads words
and converts them from network order: both are modelled on bit vectors, and `ByteOrder` proves that
they give the same numbers on a host of either byte order. The data offset of TCP is never checked:
`PayloadInsideIff` says exactly when the reported payload is inside the packet, and `PayloadOutside` is
a frame whose payload is not.

`Bytes`, `Circular`, `Clock` and `Widths` hold what the others share. The number of segments in a list
and of pieces in an entry, 16 in the program, are constants without a value: the results hold for every
positive one.

## Model

| member | source | states |
|---|---|---|
| `Conntrack.First` | src/conntrack.c:45-71 | a probe stops at the first slot, in probe order, that satisfies its goal, and passes over none that does |
| `Conntrack.ConnTable.constructor` | src/conntrack.c:25-34 | a new table has the asked size, or 1024 for a size that is not positive, and only zero slots |
| `Widths.CountOn64` | src/conntrack.c:65-66 | a byte counter that wraps around as it goes ends at the total modulo 2^64 |
| `Widths.CountOn16` | src/fragtrack.c:55-57 | likewise the sum of sizes, modulo 2^16 |
| `Widths.CountOn32` | src/conntrack.c:65-66 | likewise a packet counter, modulo 2^32 |
| `Conntrack.ConnTable.Claim` | src/conntrack.c:49-62 | the branch that takes over a slot: a fresh record with one packet in its direction, count one more, nothing else changed |
| `Conntrack.ConnTable.Bump` | src/conntrack.c:63-69 | the branch that adds to a record: its counters in their widths, its time and its state; nothing else changed |
| `Conntrack.ConnTable.Update` | src/conntrack.c:42-73 | the whole probing loop: -1 and no change if the probe finds nothing, else exactly the first free or matching slot is written; it ends after at most one turn |
| `Conntrack.ConnTable.Lookup` | src/conntrack.c:75-85 | the first used slot with the key along the probe order, or nothing |
| `Conntrack.ConnTable.Expire` | src/conntrack.c:87-102 | closes exactly the live records whose time has come, lowers the count by their number and returns it |
| `Conntrack.SweepIs` | src/conntrack.c:91-99 | a sweep closes exactly the used slots that are not closed and were last seen at least the timeout ago, changes nothing else, and counts them |
| `Circular.NextSlot` | src/conntrack.c:70 | the wrap-around step leads to the next slot of the circle |
| `Circular.AheadIs` | src/ring.c:41-52 | so after any number of steps up to the whole circle |
| `ConntrackRuns.UpdateKeepsInv` | src/conntrack.c:42-73 | an accepted update keeps the order of equal keys and the gap-free probe paths, whichever slot it reuses |
| `ConntrackRuns.SweepKeepsInv` | src/conntrack.c:87-102 | a sweep keeps both, because what it closes is no fresher than what precedes it |
| `ConntrackRuns.ReachableInv` | src/conntrack.c:42-102 | every reachable table has both, for every size and every run with a positive clock that does not go back |
| `ConntrackRuns.LookupIsFreshest` | src/conntrack.c:75-85 | a lookup returns the freshest record of its key, and a closed one or none only if no live slot holds the key |
| `ConntrackRuns.StopAtGap` | src/conntrack.c:79-83 | giving up at the first never-used slot would give the same answers as the full circle |
| `ConntrackRuns.RefusedWhenFull` | src/conntrack.c:47-72 | an update is refused if and only if every slot is live and none holds the key |
| `ConntrackRuns.UpdateThenLookup` | src/conntrack.c:42-85 | in every reachable table: refused as above and unchanged, or the next lookup returns exactly the slot just written, live, last seen now, and first seen now unless it was live before |
| `ConntrackRuns.ClosedIffIdle` | src/conntrack.c:64-95 | after an accepted packet, then calls without a packet of its key or a sweep due for it, then a sweep, the lookup finds that packet's record, closed if and only if the timeout has passed since the packet |
| `ConntrackRuns.OneLiveIff` | src/conntrack.c:47-69 | an accepted update of a table with one live slot per key keeps that if and only if no closed slot stands before a live record of its key in the key's probe order |
| `ConntrackRuns.SweepKeepsOneLive` | src/conntrack.c:87-102 | a sweep always keeps one live slot per key |
| `ConntrackRuns.OneLiveStep` | src/conntrack.c:42-102 | the same condition for the next call in every reachable table, refused updates included |
| `ConntrackRuns.OneLiveRunIff` | src/conntrack.c:42-102 | through a whole run every key has at most one live slot if and only if no packet of the run finds a closed slot before a live record of its key |
| `ConntrackRuns.DuplicatesAfterSweep` | src/conntrack.c:49-60 | a run after which one key owns two live slots: an input for which the condition of OneLiveIff fails |
| `ConntrackTotals.SweepTotals` | src/conntrack.c:87-102 | a sweep returns exactly the drop in live slots, moves no bytes, and changes nothing if it returns 0 |
| `ConntrackTotals.WrittenBytes` | src/conntrack.c:56-66 | a packet adds its length to the bytes of a record, less 2^64 exactly when a counter overflows |
| `ConntrackTotals.Accounting` | src/conntrack.c:42-102 | over every run the count is the number of live slots, and bytes in slots plus bytes overwritten (plus 2^64 for each overflow) are the bytes of all accepted packets |
| `ConntrackTotals.ClaimsForNewKey` | src/conntrack.c:49-63 | with nothing closed, an update claims a slot if and only if no slot holds its key |
| `ConntrackTotals.UpdateKeepsExact` | src/conntrack.c:42-73 | with nothing closed, an accepted update keeps one slot per key with the key's exact sums |
| `ConntrackTotals.ExactRun` | src/conntrack.c:42-102 | until a sweep closes something, every used slot is its key's only one and holds the key's exact sums |
| `ConntrackTotals.TableIsMap` | src/conntrack.c:42-85 | until then, a lookup finds a key if and only if a packet of it was accepted, and finds its exact traffic and the times of its first and last packet, established if and only if there were at least two packets |
| `SwapTable.Removed` | src/ipdefrag.c:38-41 | moving the last entry into the removed one's place removes exactly its key from the map the table stands for |
| `SwapTable.MapOf` | src/ipdefrag.c:15-24 | a table with one entry per key is a map of the same size with exactly its keys and values |
| `IpDefrag.Defragmenter.constructor` | src/ipdefrag.c:10-13 | a new table is the empty map |
| `IpDefrag.Defragmenter.TableIs` | src/ipdefrag.c:15-72 | what every operation keeps, written out: one entry per flow with its counts, and every covered byte in a buffer of its own as long as the flow reaches |
| `IpDefrag.Defragmenter.FindEntry` | src/ipdefrag.c:15-24 | finds the entry of a flow that is in the map, and -1 for any other |
| `IpDefrag.Defragmenter.AllocEntry` | src/ipdefrag.c:26-34 | adds an empty flow at the end, or refuses and changes nothing if and only if the table is full |
| `IpDefrag.Defragmenter.FreeEntry` | src/ipdefrag.c:36-42 | removes exactly that flow; all others keep their contents in buffers of their own |
| `IpDefrag.Realloc` | src/ipdefrag.c:54 | a larger block with the old bytes in front and anything behind |
| `IpDefrag.CopyFitsIff` | src/ipdefrag.c:52-60 | after growing to the 16-bit end the buffer has room for the copy if and only if the fragment ends within 65535 bytes |
| `IpDefrag.Put` | src/ipdefrag.c:52-66 | the buffer then holds the payload at its offset and the bytes written before elsewhere, and the counts follow |
| `IpDefrag.Defragmenter.AddAt` | src/ipdefrag.c:52-71 | one flow's contents change as the fragment says, all others stay, and the status is that of the flow |
| `IpDefrag.Defragmenter.Add` | src/ipdefrag.c:44-72 | the map with that flow extended and its status, or an error and no change if the flow is new and the table full |
| `IpDefrag.Defragmenter.Get` | src/ipdefrag.c:74-83 | hands out total length and every covered byte and removes the flow, or errs and changes nothing if no last fragment was seen or there is no room |
| `IpDefrag.Defragmenter.Flush` | src/ipdefrag.c:85-90 | empties the map |
| `IpDefragRuns.CountIsCoverage` | src/ipdefrag.c:61 | the bytes counted are the bytes covered plus the bytes that came again |
| `IpDefragRuns.ReachIsLargest` | src/ipdefrag.c:52-58 | a buffer is as long as the fragments reach, and no longer |
| `IpDefragRuns.CompleteIff` | src/ipdefrag.c:61-71 | pieces of a datagram, overlapping or not, are reported complete if and only if a last one was seen and no more bytes are missing than came again |
| `IpDefragRuns.CompleteIffCovered` | src/ipdefrag.c:44-72 | pieces that do not overlap, in any order and number, are reported complete if and only if a last one was seen and every byte is covered |
| `IpDefragRuns.OverlapCompletesEarly` | src/ipdefrag.c:61-69 | an overlap reported complete while a byte is missing |
| `IpDefragRuns.CoveredIsOriginal` | src/ipdefrag.c:74-83 | what is handed out for a covered datagram, even of overlapping pieces, is the datagram |
| `IpDefragRuns.GetIsSureIffWhole` | src/ipdefrag.c:77-82 | once a last fragment was seen, what a get hands out is sure to be the datagram if and only if it is covered |
| `IpDefragRuns.GetBeforeComplete` | src/ipdefrag.c:77-79 | a flow reported as pending from which a get succeeds |
| `IpDefragRuns.GetReplies` | src/ipdefrag.c:76-82 | a get of pieces of a datagram succeeds and removes the flow if and only if a last fragment was seen and there is room; otherwise it errs and changes nothing |
| `IpDefragRuns.GetNeedsLast` | src/ipdefrag.c:77 | whatever the fragments, a flow without a last one cannot be got, nor can an unknown flow |
| `IpDefragRuns.GetWithoutLast` | src/ipdefrag.c:77 | as when the only fragment is one byte that more follow |
| `IpDefragRuns.RepliesTell` | src/ipdefrag.c:68-71 | each status in a sequence of additions tells whether the datagram is whole at that point |
| `IpDefragRuns.Feed` | src/ipdefrag.c:44-72 | adding all fragments of a flow in order leaves the table with exactly that flow added and reports those statuses |
| `IpDefragRuns.Reassemble` | src/ipdefrag.c:44-83 | disjoint or overlapping pieces that cover a datagram, added in any order and then got, give back the datagram and leave the table as it was |
| `IpDefragRuns.Fetch` | src/ipdefrag.c:74-83 | the same of the program, for known and unknown flows; a successful get hands out every covered byte, a failed one leaves table and buffer alone |
| `IpDefragRuns.AloneAfter` | src/ipdefrag.c:15-90 | in a run that never fills the table, each flow's contents are those after its own calls alone |
| `IpDefragRuns.FlowsAreIsolated` | src/ipdefrag.c:15-90 | in any such interleaving every call gets the reply it would get if its flow's calls were made alone |
| `FragTrack.FragTracker.constructor` | src/fragtrack.c:16-18 | a new tracker is empty with all counters zero |
| `FragTrack.FragTracker.TableIs` | src/fragtrack.c:5-94 | what every operation keeps, written out: one entry per key, filed under it, and the counters |
| `FragTrack.FragTracker.FindEntry` | src/fragtrack.c:5-14 | finds the entry of a key that is in the table, and -1 for any other |
| `FragTrack.FragTracker.TakeOut` | src/fragtrack.c:77 | the last entry takes the removed one's place |
| `FragTrack.SweepKeepsFresh` | src/fragtrack.c:72-82 | the swap-compacting sweep keeps exactly the entries within the timeout, unchanged, and counts exactly the incomplete ones among the others |
| `FragTrack.FragTracker.Expire` | src/fragtrack.c:72-82 | so does the loop, which ends; no other statistic changes |
| `FragTrack.FragTracker.Remove` | src/fragtrack.c:84-94 | the map without the key and the removed counter up by one if it was there; no other statistic changes |
| `FragTrack.FragTracker.IsComplete` | src/fragtrack.c:66-70 | true if and only if the key has an entry and it is marked complete |
| `FragTrack.SumSizes` | src/fragtrack.c:55-57 | the sum of the sizes in 16 bits |
| `FragTrack.CoveredIsSum` | src/fragtrack.c:55-57 | that sum is the whole sum's remainder modulo 2^16 |
| `FragTrack.Record` | src/fragtrack.c:46-63 | appends the piece, sets time and total, and marks the entry complete, for good, if its sizes reach a positive total |
| `FragTrack.FragTracker.AllocEntry` | src/fragtrack.c:28-38 | a fresh entry under the key, or -1 and no change if the table is full |
| `FragTrack.FragTracker.Note` | src/fragtrack.c:41-63 | the entry with the piece noted and one more reassembled if it completes, or one more dropped if it is full |
| `FragTrack.FragTracker.Add` | src/fragtrack.c:20-64 | eviction, then the piece in the found or made entry; -1 and one more dropped if there is no room |
| `FragTrackRuns.AddTouchesOnlyItsFlow` | src/fragtrack.c:20-64 | exactly when an addition is refused, that every refusal is counted, and that other keys' entries are only subject to eviction |
| `FragTrackRuns.AddedIs` | src/fragtrack.c:32-62 | every field of the entry of an accepted addition, in 16 bits where the program has them, when it is complete, and when the counter of reassembled datagrams rises |
| `FragTrackRuns.EvictionIs` | src/fragtrack.c:72-82 | eviction removes exactly what was last seen more than 30 seconds ago and counts the incomplete ones |
| `FragTrackRuns.ActiveIff` | src/fragtrack.c:5-94 | over every run a key is active if and only if an addition of it was accepted and since the last of those it was not removed and no addition or expiry came more than 30 seconds later |
| `FragTrackRuns.ActiveHasReason` | src/fragtrack.c:5-94 | its entry was then last seen at that addition |
| `FragTrackRuns.KeptSize` | src/fragtrack.c:74-77 | what age evicts is exactly what is counted as expired and what was complete |
| `FragTrackRuns.ExpiryConserves` | src/fragtrack.c:72-82 | eviction keeps created = active + removed + evicted, evicted = expired + evicted complete, and the capacity |
| `FragTrackRuns.AddConserves` | src/fragtrack.c:20-64 | so does an addition, with the limit of pieces per entry |
| `FragTrackRuns.RemovalConserves` | src/fragtrack.c:84-94 | so does a removal |
| `FragTrackRuns.RunConserves` | src/fragtrack.c:5-94 | so does every run, so over any run the expired counter has exactly the entries evicted incomplete |
| `FragTrackRuns.FollowStep` | src/fragtrack.c:46-62 | an entry goes along with the IP reassembler's flow, fragment by fragment |
| `FragTrackRuns.FeedFollows` | src/fragtrack.c:20-64 | over a whole timely sequence of fragments, whatever else is in the table; the counter of reassembled datagrams counts the flow's completions |
| `FragTrackRuns.TrackersAgree` | src/fragtrack.c:41-70 | the tracker calls a datagram complete if and only if the IP reassembler has reported it complete by then |
| `FragTrackRuns.CompletesOnce` | src/ipdefrag.c:61-71 | disjoint non-empty pieces of a datagram are reported complete once if they cover it, never otherwise |
| `FragTrackRuns.ReassembledOnce` | src/fragtrack.c:54-62 | the tracker counts such a datagram exactly once |
| `FragTrackRuns.CountedAgainIff` | src/fragtrack.c:54-62 | pieces of a datagram are reported complete more than once if and only if one arrives after completion |
| `FragTrackRuns.CountedTwice` | src/fragtrack.c:54-62 | a datagram of one byte, delivered twice, raises the counter by two |
| `TcpReasm.InsertSorts` | src/tcpreasm.c:51-56 | inserting before the first segment that does not precede keeps a list sorted |
| `TcpReasm.Stream.Seek` | src/tcpreasm.c:52-54 | the walk ends at the link before the first segment that does not precede |
| `TcpReasm.Stream.Splice` | src/tcpreasm.c:55-56 | redirecting that one link puts the new segment into the chain and keeps the rest |
| `TcpReasm.Stream.Link` | src/tcpreasm.c:45-57 | the list with the segment inserted, still acyclic, sorted, counted and within its limit |
| `TcpReasm.Stream.GetData` | src/tcpreasm.c:61-74 | the buffer starts with the data of as many leading segments as fit whole and is otherwise unchanged; -1 if that is nothing |
| `TcpReasm.Stream.Free` | src/tcpreasm.c:76-86 | every segment of the list is freed once and the stream is out of use |
| `TcpReasm.Stream.Claim` | src/tcpreasm.c:24-29 | the stream has the key, is in use and is otherwise cleared |
| `TcpReasm.Reassembler.constructor` | src/tcpreasm.c:5-7 | a new table has only free streams and zero counters |
| `TcpReasm.Reassembler.BooksAre` | src/tcpreasm.c:9-98 | what every operation keeps, written out: the counts of streams, unique keys, and sorted, counted lists that share no segment and leak none |
| `TcpReasm.Reassembler.GetStream` | src/tcpreasm.c:9-34 | the stream in use for the key, else the first free one put into use for it, else null; no other stream changes |
| `TcpReasm.Reassembler.Open` | src/tcpreasm.c:22-32 | putting a free stream into use keeps keys unique, lists disjoint and counts right |
| `TcpReasm.Reassembler.AddSegment` | src/tcpreasm.c:36-59 | refuses empty data, counts and refuses when the list is full, else inserts the payload cut to 1500 bytes; no other stream changes; the table's invariant is kept if and only if the stream is in use or the segment refused |
| `TcpReasm.Reassembler.Expire` | src/tcpreasm.c:88-98 | every stream becomes what `AfterExpiry` makes of it, and the expired counter rises by the number freed |
| `TcpReasm.ExpiryByAge` | src/tcpreasm.c:91-96 | a stream in use is freed if and only if it was last seen at least 30 seconds ago, for every age below 2^32 and across the wrap-around; it is otherwise unchanged |
| `TcpReasm.FreedAreIdle` | src/tcpreasm.c:88-97 | the number freed is the number of streams in use that old, and exactly those are freed |
| `TcpReasm.Reassembler.Retire` | src/tcpreasm.c:92-96 | frees exactly one stream's segments and keeps the books |
| `TcpReasmRuns.SortedIsUnique` | src/tcpreasm.c:51-56 | of all lists with the same segments only one is sorted, if no two have the same number |
| `TcpReasmRuns.AdditionsCommuteIff` | src/tcpreasm.c:51-56 | two additions commute if and only if the segments have different numbers or are the same |
| `TcpReasmRuns.AddedAt` | src/tcpreasm.c:40-58 | exactly when an addition is refused; otherwise the first 1500 bytes go behind all smaller numbers and before all others, equal ones too |
| `TcpReasmRuns.AddAllSorts` | src/tcpreasm.c:36-59 | as many additions as the list can hold all succeed and leave it sorted and made of exactly those segments |
| `TcpReasmRuns.AnyOrderReassembles` | src/tcpreasm.c:36-59 | the segments a stream is cut into, numbered modulo 2^32, are in the list in stream order, whatever order they came in, if and only if the last one starts below 2^32 |
| `TcpReasmRuns.WrapsRound` | src/tcpreasm.c:53 | a stream of two bytes across 2^32 that is read back the wrong way round |
| `TcpReasmRuns.FitIsLongest` | src/tcpreasm.c:67-72 | what a read copies fits, and with one more segment it would not |
| `TcpReasmRuns.ReadIsLongestPrefix` | src/tcpreasm.c:61-74 | a read of a list in stream order is the longest prefix of whole segments that fits, all of it if there is room |
| `TcpReasmRuns.ReadsTheStream` | src/tcpreasm.c:36-74 | both together, whenever the last segment starts below 2^32: any order of arrival, then a read |
| `RateLimit.DiffOfInstants` | src/ratelimit.c:5-9 | the difference in seconds is the difference of two instants |
| `RateLimit.InstantIs` | src/ratelimit.c:7-8 | a second more is one later, and 10^9 nanoseconds are one second |
| `RateLimit.RefillIsLeastAllowance` | src/ratelimit.c:24-35 | the tokens after a refill are the least, over all starts, of burst plus rate times time less packets let through since |
| `RateLimit.EnoughTokensIffAdmissible` | src/ratelimit.c:37-44 | there is a token if and only if one more packet keeps the bound for every start |
| `RateLimit.AdmissibleIff` | src/ratelimit.c:29-44 | what admissible means, written out for the origin, every check and now |
| `RateLimit.IntervalBound` | src/ratelimit.c:24-45 | no interval admits more than the burst plus the rate times its length |
| `RateLimit.Limiter.Init` | src/ratelimit.c:11-22 | -EINVAL and no change for a rate or burst that is not positive, else a full bucket with an empty history |
| `RateLimit.Limiter.CheckPacket` | src/ratelimit.c:24-45 | lets the packet through if and only if that is admissible, and both counters follow the history |
| `RateLimit.Limiter.Reset` | src/ratelimit.c:47-54 | a full bucket with an empty history and the same rate and burst |
| `Throttle.ElapsedIsRounded` | src/throttle.c:6-11 | elapsed milliseconds are the true ones rounded down, or up when the nanoseconds fell |
| `Throttle.WindowTiming` | src/throttle.c:45-50 | a window is left only after more than 99 ms and kept only for less than 100 ms |
| `Throttle.Limiter.constructor` | src/throttle.c:13-22 | the limits, zero counts and a window that starts now |
| `Throttle.Limiter.Reset` | src/throttle.c:24-31 | zero counts and a window that starts now; limits and dropped stay |
| `Throttle.Limiter.CheckPacket` | src/throttle.c:33-67 | a new window if the time has come, then one more packet and its bytes, or one more dropped |
| `ThrottleRuns.WindowsAreApart` | src/throttle.c:44-50 | in every run, windows opened one after the other start more than 99 ms apart |
| `ThrottleRuns.CheckCounts` | src/throttle.c:52-66 | a check keeps both counts within the window's limits and counts exactly what it admits |
| `ThrottleRuns.AdmittedIff` | src/throttle.c:44-62 | a check admits if and only if ten times the packets, and ten times the bytes, then counted in its window are within the limits per second; a limit of 0 admits all short of the counter's end |
| `ThrottleRuns.KthCheck` | src/throttle.c:52-66 | in an empty window without a byte limit the k-th check admits if and only if 10 k is at most the limit per second |
| `ThrottleRuns.RateBound` | src/throttle.c:33-67 | from the start of a window, ten times what a run admits, in packets and in bytes, is at most the limit per second for every 99 ms begun |
| `ThrottleRuns.DropsAreCounted` | src/throttle.c:58-62 | the dropped counter counts, in 32 bits, exactly the checks that admitted nothing |
| `ThrottleRuns.PacketsPerWindow` | src/throttle.c:33-67 | a run admits at most the packet limit per window opened, plus what the current one holds |
| `ThrottleRuns.BytesPerWindow` | src/throttle.c:33-67 | likewise the byte limit |
| `ThrottleRuns.RunBound` | src/throttle.c:33-67 | from the start of a window, a run without reset admits at most one limit of packets and of bytes for every 99 ms begun |
| `ThrottleRuns.StretchBound` | src/throttle.c:33-67 | from any check on, at most one limit more |
| `ThrottleRuns.TightIff` | src/throttle.c:33-67 | every stretch from a check at t0 is within one limit for every 99 ms begun, in packets or in bytes, if and only if that check opens a window, or the window has nothing left to admit, or no reading less than 99 ms after t0 opens the next |
| `ThrottleRuns.OpensSoonIff` | src/throttle.c:6-11 | the next window can open so soon if and only if the last instant within 99 ms would open it |
| `ThrottleRuns.ElapsedGrows` | src/throttle.c:6-11 | measured milliseconds never go back, although rounded now down and now up |
| `ThrottleRuns.StretchNeedsTwoWindows` | src/throttle.c:44-50 | a run that needs the one limit more: an input for which the condition of TightIff fails |
| `Ring.RingBuf.constructor` | src/ring.c:6-26 | an empty ring of the asked capacity, or of 64 |
| `Ring.RingBuf.HeldAre` | src/ring.c:35-72 | what every operation keeps, written out: head = (tail + count) mod capacity, accepted = popped + dropped + held, and the held packets are the last accepted ones in order |
| `Ring.RingBuf.Push` | src/ring.c:35-54 | refuses empty and oversized packets without change; else the ring holds the last accepted packets with this one at the end, at the cost of the oldest, counted as dropped, if it was full |
| `Ring.RingBuf.Pop` | src/ring.c:56-66 | returns accepted packet number pops + dropped, or 1 if the ring is empty |
| `Ring.RingBuf.Peek` | src/ring.c:68-72 | shows that same packet and changes nothing |
| `HexDump.HexdumpBuf` | src/hexdump.c:38-54 | a non-empty buffer gets the text of as many bytes as there are with four characters left for each, and a NUL inside it; what lies beyond stays |
| `HexDump.ParseUndoesText` | src/hexdump.c:46-52 | a hex parser applied to the text gives the bytes back |
| `HexDump.TextIs` | src/hexdump.c:47-49 | each byte is two lower-case digits and a newline after every sixteenth byte, a space after all others |
| `HexDump.NewlineEveryRow` | src/hexdump.c:47-49 | the text has newlines exactly after every sixteenth byte |
| `ByteOrder.Shifted16Is` | src/dissect.c:27 | promoted bytes shifted and ored in 32 bits are the number in network order |
| `ByteOrder.Shifted32Is` | src/decode.c:46-47 | so are four bytes, and so is the word loaded by a host of either byte order and converted |
| `ByteOrder.NibblesAre` | src/decode.c:40-41 | the masked and the shifted half of a byte are its remainder and quotient by 16 |
| `Dissect.ParseEthernet` | src/dissect.c:20-30 | refuses short frames without change, else fills the Ethernet part and nothing else |
| `Dissect.ParseIpv4` | src/dissect.c:32-47 | refuses packets shorter than 20 bytes or than their header length, else fills the IPv4 part and returns that length |
| `Dissect.ParseTransport` | src/dissect.c:49-76 | fills the transport part, payload and top protocol for TCP and UDP, only the top protocol otherwise |
| `Dissect.DissectPacket` | src/dissect.c:78-104 | refuses exactly the packets too short for their headers, and says what is left in the result then; else all layers |
| `Dissect.RefusedIff` | src/dissect.c:34-39 | exactly which lengths are refused |
| `Dissect.TopProtoIs` | src/dissect.c:49-101 | the protocol on top for every dissected frame, from its ethertype, its protocol field and what is left of it |
| `Dissect.NothingElse` | src/dissect.c:83-101 | without TCP or UDP no transport field and no payload is reported, without IPv4 no IPv4 field |
| `Dissect.PayloadInsideIff` | src/dissect.c:60-62 | the payload reported for TCP is inside the packet if and only if the data offset does not pass its end, then reaches to the end, and is behind the fixed header if and only if the data offset is legal |
| `Dissect.UdpPayloadInside` | src/dissect.c:68-69 | the payload reported for UDP is what follows its header |
| `Dissect.PayloadOutside` | src/dissect.c:60-62 | a frame whose payload is reported 40 bytes past its end |
| `Decode.DecodeResult.AddField` | src/decode.c:6-22 | appends the field cut to its width, unless 32 are there already |
| `Decode.CutIs` | src/decode.c:14-16 | a value in the width of its type is kept, of any other the low bits |
| `Decode.DecodeEthernet` | src/decode.c:24-33 | -1 and no change for short buffers, else exactly the three fields |
| `Decode.DecodeIpv4` | src/decode.c:35-49 | -1 and no change for short buffers, else exactly the eight fields |
| `Decode.DecodeTcp` | src/decode.c:51-63 | -1 and no change for short buffers, else exactly the six fields |
| `Decode.DecodeUdp` | src/decode.c:65-75 | -1 and no change for short buffers, else exactly the four fields |
| `ParserAgreement.AssemblyAgrees` | src/decode.c:56-59 | the numbers one parser shifts together from the packet are those the other shifts together, or loads and converts, from its tail |
| `ParserAgreement.EthernetAgrees` | src/decode.c:24-33 | on every dissected frame the Ethernet decoder succeeds with the dissector's fields |
| `ParserAgreement.Ipv4Agrees` | src/decode.c:35-49 | so does the IPv4 decoder, up to the byte order of addresses, with the header length the dissector advances by |
| `ParserAgreement.TransportAgrees` | src/decode.c:51-75 | so does the transport decoder at that place whenever the dissector reports TCP or UDP |
| `ParserAgreement.EthReadsBack` | src/dissect.c:25-28 | an encoded Ethernet header reads back |
| `ParserAgreement.IpReadsBack` | src/dissect.c:37-46 | an encoded IPv4 header with any legal length reads back |
| `ParserAgreement.TransportReadsBack` | src/dissect.c:49-71 | an encoded TCP or UDP header with any legal length, followed by a payload, reads back |
| `ParserAgreement.EthFieldsReadBack` | src/decode.c:29-31 | the decoder gives all three fields of an encoded Ethernet header, by name |
| `ParserAgreement.IpFieldsReadBack` | src/decode.c:40-47 | all eight of an encoded IPv4 header, the version and type of service among them |
| `ParserAgreement.TransportFieldsReadBack` | src/decode.c:56-73 | all six of an encoded TCP header, the window among them, and all four of a UDP header, the checksum among them |
| `ParserAgreement.DissectUndoesEncode` | src/dissect.c:78-104 | dissecting an encoded Ethernet, IPv4 and TCP or UDP frame gives back every field and the payload |

## Left out

- Failing allocation, null arguments and the free functions of whole tables: allocation succeeds and references are never null.
- Floating-point rounding in the token bucket: tokens are real numbers, and both comparisons are exact.
- The clock: every reading is a parameter. The run theorems about the connection table need it positive and never going back, those about the limiters never going back.
- Printing, logging, sockets, capture, the command line and the pcap writer.
- src/session.c, src/filter.c and the plain linear tables (src/mactrack.c, src/flowtrack.c, src/portmap.c, src/dnstrack.c, src/ttltrack.c): their headers disagree with the code, or they would repeat invariants proved here.
- src/alarm.c, src/stats.c, src/snaplen.c and src/truncate.c add to counters, compare a value with a threshold or cut a length; src/proto.c, src/ethtype.c and src/timestamp.c look names up or call the calendar library. No property is stated of them: it would only repeat one function's body.
- The getters for statistics return a field each, and `ratelimit_drop_ratio` divides a field by the sum of two.
- src/ipdefrag.h declares another interface than src/ipdefrag.c and tests/test_ipdefrag.c use, and not the entry struct; the model follows the code and the tests.
- IpDefrag.Defragmenter.Add: requires the fragment to end within 65535 bytes, as do Put, AddAt and Feed; past that the copy always runs over its buffer (`CopyFitsIff`), which has no meaning in C. The field `received`, whose declaration is missing, is unbounded; for pieces that do not overlap it never passes 65535.
- IpDefragRuns.FlowsAreIsolated: assumes that the table never fills, as a flow refused for want of room does depend on the others.
- TcpReasm.Reassembler.AddSegment: what becomes of a table after a segment was added to a stream no longer in use is not followed further; the unused payload bytes of a segment are not modelled, and the pointer to the link is the node that holds it.
- TcpReasmRuns.ReadsTheStream: for streams whose last segment starts below 2^32, since the code does not compare sequence numbers as section 3.4 of RFC 9293 does.
- ThrottleRuns.TightIff: for bytes, with a byte limit; without one the 64-bit byte counter wraps around and bounds nothing.
- `tcpreasm_free_stream` called from outside the table, which would leave the stream count behind.
- FragTrackRuns.TrackersAgree: for at most as many fragments as an entry can hold, of non-empty datagrams that count at most 65535 bytes and do not leave the entry idle past its timeout; beyond that the two files limit things differently. The reassembler's key does not have the protocol that the tracker's key has.
- Throttle.ElapsedIsRounded: for clock readings whose milliseconds fit a signed 64-bit integer. `throttle_set_limits` is not part of this model: it is declared and has no definition.
- The 64-bit statistics of src/ring.c, src/ratelimit.c, src/tcpreasm.c and src/fragtrack.c are unbounded.
- Dissect.DissectPacket: IP addresses are given as their four bytes, the payload pointer as an offset. `decode_find_field` is not part of this model: it is declared and has no definition.
- Padding inside the connection key: keys are equal when their fields are. Callers are assumed not to write through the record a lookup returns.
