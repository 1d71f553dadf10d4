# A verified model of a Kademlia node

The project models the routing, lookup, contact, storage and messaging layers of a Kademlia node
(Maymounkov and Mazières, "Kademlia: A Peer-to-peer Information System Based on the XOR Metric",
sections 2.1 to 2.4) and proves properties of the model for all inputs, all peer answers and all runs.

| file | what it holds |
|---|---|
| `ByteBits.dfy`, `BitStrings.dfy`, `NodeIds.dfy` | 160-bit identifiers: bytes, bits and numbers; XOR distance; bucket indices; the byte and bit loops |
| `Contacts.dfy` | contacts, last-seen times, response statistics, the activity and reliability tests |
| `Ranking.dfy` | stable sorting by a rank and the k lowest-ranked elements |
| `Buckets.dfy`, `BucketPolicy.dfy`, `Replacements.dfy` | k-buckets with eviction and replacement cache, what the policy guarantees, and who is promoted |
| `RoutingTables.dfy`, `TableRuns.dfy` | the routing table with its recursive split, and what every reachable table satisfies |
| `ContactProtocol.dfy`, `PingOutcomes.dfy` | recording a contact: update, health-check ping, then keep or evict; who leaves, and the bucket after each outcome |
| `NodeLookup.dfy`, `LookupProperties.dfy` | the iterative node lookup and its guarantees, whatever peers answer |
| `LookupAnswers.dfy` | what a lookup takes in from the answers, and when another round follows |
| `LookupFailures.dfy` | which contacts a failed call removes from the list of a lookup |
| `NearestNodes.dfy`, `StaticNetworks.dfy` | the K nearest nodes of a network, and what a lookup in a static network finds |
| `ValueLookup.dfy`, `ValueProperties.dfy` | the iterative value lookup and its guarantees |
| `Storage.dfy` | storage with time to live, alone and mirrored into a shared map |
| `RateLimiter.dfy` | the fixed-window rate limiter |
| `Nodes.dfy` | one honest node: request handlers and waiting for responses; lookups among such nodes |
| `Network.dfy` | any number of honest nodes exchanging messages, as a system of steps |

Code that changes state is written as classes and methods with loops. Each such method is proved equal
to a function of the old state, and the guarantees are lemmas about those functions and about runs of them.

## Main results

* **The lookup finds the nearest node, and exactly when the K nearest.** In a static network of honest
  nodes whose tables know somebody (other than the searching node) in every bucket that is not empty,
  `find_node` returns the network's nearest node at the head of its list (`LookupFindsNearest`). The whole
  list is the network's K nearest nodes if and only if the lookup heard of all of them, which it does
  whenever the nearest node's table holds the others (`LookupFindsAllNearest`). In other such networks it
  can miss one (`OnlyTheHeadIsGuaranteed`). The handlers of a node answer honestly in this sense
  (`FindNodeIsHonest`), so the same holds of a network of such nodes (`LookupAmongHandlers`).
* **The lookup is safe whatever peers answer.** It ends, after at most one round more than the new ids it
  heard of; its list stays sorted, short, free of the local node, taken from answers, and distinct when
  the table is (`FindNodeResult`). Without failures it is exactly the K nearest of the contacts known at
  the start and everyone named by anyone asked (`FindNodeExact`, `FindNodeNearest`), and a further round
  follows exactly when somebody new and nearer than the head was named (`ImprovedExactly`).
* **A failure may drop the wrong contact.** The first failure of a round removes the contact that failed
  exactly when no earlier answer of the round named an unseen nearer one (`FirstFailureRemovesItself`);
  when everyone asked in a round fails, every second contact goes, asked or not, and the search ends
  (`FailedRoundDropsEven`, `FailedRoundEnds`).
* **Every reachable table is well placed.** Under any operations and whatever the clock reads, each bucket
  holds and caches only contacts of its own index, within capacity; hence the split branch and its
  recursion are never taken (`ReachableOk`, `SplitNeverTaken`). While the clock does not run backwards
  buckets are also in time order (`ReachableInOrder`).
* **Contacts leave only for a reason.** Over every run of the protocol a contact leaves the table only by
  eviction from its own bucket, or as the front whose health check was not answered (`LeavesOverRuns`);
  an eviction hits only contacts that failed more often than they answered or were not seen for more than
  900 seconds (`LeavesUnhealthy`). The table after each outcome of a ping is known exactly
  (`AnsweredPingMovesFront`, `UnansweredPingReplacesFront`), and whoever waits is promoted in the order of
  waiting (`PromotedInOrder`, `EarlierPromotedFirst`).
* **Values keep their keys.** In every run of any number of honest nodes, with messages lost, delayed and
  repeated, whatever is stored, sent or returned under a key was put under that key by a client
  (`Provenance`), and a node holds exactly what was last written there (`HeldExactly`).
* **Storage forgets on time.** A key is held exactly when its last event stored it and every clean-up since
  came before its time to live ran out (`Storage.HeldExactly`); the mirrored storage does the same with a
  time to live that a read of an expired entry begins anew (`DualHeldExactly`, `PurgeThenGet`).
* **The rate limit lets through at most n + 1 windows less one request** in any span of n >= 1 window
  lengths (`SpanBound`), and for every n from 1 up to the number of nanoseconds in a window some trace
  reaches that bound (`BoundReached`). A request is accepted exactly when it opens a window or fewer than a
  window's requests were sent since the last one opened (`AcceptedExactly`).

Where the code falls short of what its names or documentation suggest, the model follows the code:

* Recording a success or a failure only refreshes the contact; no counter in the table changes, so a
  failure makes a contact more recent (`RecordsOnlyRecency`).
* Removing a contact can put a cached contact into a bucket twice, or leave the removed id in it; the
  lemmas say exactly when, with runs that do it (`RemoveKeepsDistinctExactly`, `RemoveCanDuplicate`;
  `RemoveRemovesExactly`, `RemoveCanLeaveTheRemoved`).
* The mirrored storage revives expired entries; its lookup honours the time to live exactly when the entry
  has not expired (`DualGetIgnoresTtl`, `DualRevivesExpired`).
* The value lookup, called exhaustive in its messages, can end with contacts on its list unasked: exactly
  when its last round named nobody new and its batch did not cover the unasked, or that round was the
  tenth and somebody unasked stayed among the K nearest (`UnaskedExactly`, `StopsWithUnaskedLeft`). It may
  ask one contact twice in a round: exactly when the contact recurs among the unasked with fewer than
  ALPHA - 1 of them before its first copy (`RecursExactly`, `AsksTwiceInARound`).
* The reliability test compares a rate built on a 32-bit sum: besides the contacts whose failures do not
  outnumber their successes it passes those whose counters overflow (`ReliableExactly`; in a build with
  overflow checks the code stops there instead).

Modelling choices. Peer answers are arbitrary functions of round, position and contact asked. Clock
readings, random bits, ping outcomes and the iteration order of hash maps are parameters. Times are
unbounded numbers. Bucket capacity is at least one, since a full bucket of capacity zero stops the code.
Sorting is the stable sort the standard library documents; its comparison of distances, byte by byte, is
proved to be the numeric one (`OrderIsNumeric`).

## Model

| member | source | states |
|---|---|---|
| NodeIds.ComputeDistance | src/node_id.rs:71-77 | the byte loop computes the XOR distance |
| NodeIds.CountLeadingZeros | src/node_id.rs:92-103 | the nested loops count the bits before the first set one, 160 for zero |
| NodeIds.FindBucketIndex | src/node_id.rs:111-137 | the byte and bit scan yields the bucket index, none for the zero distance |
| NodeIds.RandomInBucket | src/node_id.rs:140-165 | for every outcome of the random bits: none from index 160 on, otherwise the base's prefix, the flipped bit, the coins, and bucket index exactly as asked |
| NodeIds.EveryMemberIsDrawn | src/node_id.rs:140-165 | every member of the bucket arises from some outcome of the random bits |
| NodeIds.CoinsFixTheDraw | src/node_id.rs:152-162 | the random bits determine the identifier |
| NodeIds.FirstDifference | src/node_id.rs:80-108 | distinct ids first differ at their common prefix length, and that bit decides byte order and numeric order |
| NodeIds.OrderIsNumeric | src/node_id.rs:174-178 | byte-wise comparison is comparison of the 160-bit numbers |
| NodeIds.DistanceIsMetric | README.md:69-74 | distance is zero only to itself, symmetric, and obeys the triangle inequality |
| NodeIds.DistanceInjective | src/node_id.rs:71-77 | the distance to a fixed target tells ids apart |
| NodeIds.PrefixUltrametric | src/node_id.rs:106-108 | common prefix length is an ultrametric |
| NodeIds.BucketIndexNone | src/node_id.rs:111-117 | no bucket index exactly for equal ids |
| NodeIds.BucketIndexMeaning | src/node_id.rs:111-137 | the index is the common prefix length, the first differing bit position, and the power-of-two range of the distance; it is symmetric |
| NodeIds.DeeperIsNearer | src/node_id.rs:111-137 | contacts in deeper buckets are strictly nearer the local node |
| NodeIds.NearerBucket | src/routing/routing_table.rs:12-14 | if a node is nearer the target, so is everyone in the bucket it falls into |
| Contacts.ReliableExactly | src/node.rs:46-58 | the reliability test holds exactly when failures do not outnumber successes or the counters overflow |
| Contacts.ActiveExactly | src/node.rs:135-156 | active means seen no more than 900 seconds ago, also when the clock stepped back; never seen is not active |
| Contacts.CountersExactly | src/node.rs:60-68 | over any series of calls the counters count, up to the largest 32-bit number |
| Contacts.RecordingReliability | src/node.rs:44-68 | a success never makes a reliable contact unreliable; exactly when a failure makes an unreliable one pass |
| Ranking.TopKIsNearest | src/routing/routing_table.rs:190-198 | sort and truncate yield, in order, the k elements nobody left out outranks |
| Ranking.TopKIncremental | src/protocol/operation.rs:402-411 | truncating before adding more makes no difference to the k kept |
| Ranking.SortStable | src/routing/routing_table.rs:190-194 | the sort keeps the order of equal distances |
| Ranking.SortOrderFree | src/routing/routing_table.rs:181-199 | the sorted list depends only on the order within each distance |
| Buckets.KBucket.constructor | src/routing/k_bucket.rs:40-48 | a new bucket is empty |
| Buckets.KBucket.Contains | src/routing/k_bucket.rs:71-73 | whether some member has the id |
| Buckets.KBucket.Get | src/routing/k_bucket.rs:76-78 | the first member with the id |
| Buckets.KBucket.Update | src/routing/k_bucket.rs:81-141 | the new queue and cache and the answer are those of the bucket policy |
| Buckets.KBucket.Remove | src/routing/k_bucket.rs:144-156 | drops the first member with the id and promotes the head of the cache |
| Buckets.KBucket.Splits | src/routing/k_bucket.rs:176-187 | whether the bucket is full and its members disagree on the split bit |
| Buckets.KBucket.Split | src/routing/k_bucket.rs:192-206 | the two halves re-enter the members one by one by their bit |
| BucketPolicy.UpdateKeepsOk | src/routing/k_bucket.rs:81-141 | an update keeps capacity, placement and a duplicate-free cache |
| BucketPolicy.UpdateKeepsOrder | src/routing/k_bucket.rs:81-141 | while the clock does not step back an update keeps the queue in time order |
| BucketPolicy.RemoveKeepsOk | src/routing/k_bucket.rs:144-156 | a removal keeps capacity, placement and a duplicate-free cache |
| BucketPolicy.RemoveKeepsOrder | src/routing/k_bucket.rs:144-156 | while the clock does not step back a removal keeps the queue in time order |
| BucketPolicy.UpdateShape | src/routing/k_bucket.rs:88-139 | every update answered as updated drops one position or none and puts the same id last; any other leaves the queue alone |
| BucketPolicy.FrontDecidesInactivity | src/routing/k_bucket.rs:120-127 | the front is inactive exactly when some member is |
| BucketPolicy.UpdateOutcome | src/routing/k_bucket.rs:88-140 | updated exactly when the contact is known, there is room, or some member failed more often than it answered or was not seen for 900 seconds; otherwise a ping of the front is pending |
| BucketPolicy.LeavesUnhealthy | src/routing/k_bucket.rs:104-127 | a member that leaves on an update is such a member, and the bucket was full |
| BucketPolicy.SplitParts | src/routing/k_bucket.rs:192-206 | each half of a split gets the members of its bit in their order, and an empty cache |
| BucketPolicy.SplitsExactly | src/routing/k_bucket.rs:176-187 | a bucket is to be split exactly when it is full and both halves would get members |
| BucketPolicy.UpdateEvicts | src/routing/k_bucket.rs:94-127 | a member leaves only as the first unreliable one or as the inactive front; with distinct ids, exactly then |
| BucketPolicy.UpdateAdmits | src/routing/k_bucket.rs:88-127 | only the updated contact enters, exactly when the answer says updated |
| BucketPolicy.RemoveMembers | src/routing/k_bucket.rs:144-156 | exactly who is a member after a removal |
| BucketPolicy.UpdateKeepsDistinct | src/routing/k_bucket.rs:88-138 | an update puts no id twice into a bucket or its cache |
| BucketPolicy.RemoveKeepsDistinctExactly | src/routing/k_bucket.rs:149-153 | a removal keeps ids distinct exactly when the promoted contact is no member |
| BucketPolicy.RemoveRemovesExactly | src/routing/k_bucket.rs:144-156 | the removed id is gone exactly when its own cached copy is not promoted |
| BucketPolicy.RemoveCanLeaveTheRemoved | src/routing/k_bucket.rs:104-153 | a run from the empty bucket after which removing a member leaves it a member |
| BucketPolicy.RemoveCanDuplicate | src/routing/k_bucket.rs:104-153 | a run from the empty bucket that ends with one id twice |
| Replacements.UpdateCaches | src/routing/k_bucket.rs:128-139 | a newcomer that has to wait goes last in the cache, the others keep their order; no other update touches the cache |
| Replacements.RemovePromotes | src/routing/k_bucket.rs:144-156 | a removal promotes who waited longest, who then waits no longer, and leaves the rest waiting in order |
| Replacements.PromotedInOrder | src/routing/k_bucket.rs:144-156 | over any series of removals those waiting are promoted one after another |
| Replacements.EarlierPromotedFirst | src/routing/k_bucket.rs:128-156 | of two newcomers that wait the earlier one is promoted first |
| RoutingTables.RoutingTable.constructor | src/routing/routing_table.rs:37-43 | a new table has no buckets |
| RoutingTables.RoutingTable.Update | src/routing/routing_table.rs:77-106 | the new table and the status are those of the update with its split branch and recursion |
| RoutingTables.RoutingTable.GetOrCreateBucket | src/routing/routing_table.rs:68-74 | returns the bucket at the index, a new empty one if there was none |
| RoutingTables.RoutingTable.Seen | src/routing/routing_table.rs:109-122 | a stored contact is updated with a fresh time |
| RoutingTables.RoutingTable.RecordSuccess | src/routing/routing_table.rs:125-139 | a stored contact is updated with a copy that counts a success |
| RoutingTables.RoutingTable.RecordFailure | src/routing/routing_table.rs:142-154 | a stored contact is updated with a copy that counts a failure |
| RoutingTables.RoutingTable.Remove | src/routing/routing_table.rs:157-161 | removes from the one bucket of the id |
| RoutingTables.RoutingTable.Contains | src/routing/routing_table.rs:164-171 | looks in the one bucket of the id |
| RoutingTables.RoutingTable.Get | src/routing/routing_table.rs:174-178 | the contact from the one bucket of the id |
| RoutingTables.RoutingTable.AllNodes | src/routing/routing_table.rs:202-212 | the members of all buckets, bucket by bucket in the map's order |
| RoutingTables.RoutingTable.NodeCount | src/routing/routing_table.rs:58-60 | the length of the scan of all contacts |
| RoutingTables.RoutingTable.GetClosest | src/routing/routing_table.rs:181-199 | the sorted and truncated scan |
| TableRuns.NeverSplits | src/routing/k_bucket.rs:176-187 | no bucket of a reachable table is ever to be split |
| TableRuns.UpdateIsPlain | src/routing/routing_table.rs:77-106 | on every reachable table the update is that of one bucket, without split or recursion; it never fails and keeps the table invariant |
| TableRuns.ReachableOk | src/routing/routing_table.rs:77-161 | placement, capacity and duplicate-free caches over every run of operations, whatever the clock reads |
| TableRuns.ReachableInOrder | src/routing/routing_table.rs:77-161 | buckets in time order over every run under a clock that does not run backwards |
| TableRuns.SplitNeverTaken | src/routing/routing_table.rs:90-97 | no update of any run splits a bucket or recurses |
| TableRuns.LocalNowhere | src/routing/routing_table.rs:77-85 | every contact and cached contact has exactly its bucket's index and is not the local node |
| TableRuns.RecordsOnlyRecency | src/routing/routing_table.rs:125-154 | recording success or failure is the same as noting the contact as seen |
| TableRuns.TouchRefreshes | src/routing/routing_table.rs:109-122 | the contact goes last with the current time and its old statistics, all else stays |
| TableRuns.LeavesOnlyBy | src/routing/routing_table.rs:77-161 | the only ways in which a contact leaves a bucket |
| TableRuns.LeavesOnlyByOverRuns | src/routing/routing_table.rs:77-161 | the same at any step of any run from the empty table |
| TableRuns.TouchKeepsMembers | src/routing/routing_table.rs:109-154 | noting a contact as seen, with success or failure changes no membership |
| TableRuns.PendingPingKeepsMembers | src/routing/k_bucket.rs:128-139 | a pending ping leaves membership unchanged and names a member |
| TableRuns.ScanAgrees | src/routing/routing_table.rs:157-178 | looking up, testing and removing through one bucket agree with a scan of all contacts in any order |
| TableRuns.ClosestOrderFree | src/routing/routing_table.rs:181-199 | the closest contacts do not depend on the map's iteration order |
| TableRuns.ClosestAreNearest | src/routing/routing_table.rs:181-199 | they are the nearest of all contacts, in order; none only in an empty table |
| ContactProtocol.Protocol.CheckHealth | src/protocol/operation.rs:878-934 | the table accesses of a health check for each way it can end |
| ContactProtocol.Protocol.RecordContact | src/protocol/operation.rs:842-876 | the new table and the result are those of update, ping, then keep or evict |
| ContactProtocol.InsertedMeansNew | src/protocol/operation.rs:842-876 | true exactly when the contact was absent before and is present after, for every ping outcome and every cache |
| ContactProtocol.LeavesOnlyOnEvictionOrFailedPing | src/protocol/operation.rs:842-876 | a contact leaves only evicted from its own bucket by the update, or after a ping not answered: as the front that was pinged, or evicted from its own bucket by the second try |
| ContactProtocol.LeavesOverRuns | src/protocol/operation.rs:842-876 | the same at every step of every run of the protocol from the empty table; noting contacts as seen, with success or failure makes nobody leave |
| ContactProtocol.ActsKeepOk | src/protocol/operation.rs:842-876 | every run of the protocol keeps the table invariant, whatever the clock reads |
| ContactProtocol.ContactStaysInOrder | src/protocol/operation.rs:842-876 | while the clock does not step back recording a contact keeps buckets in time order |
| PingOutcomes.WaitsExactly | src/protocol/operation.rs:847-854 | exactly when a ping is needed; without one the contact is last in its bucket with the current time and reported as new unless known |
| PingOutcomes.HealthCheckRefreshes | src/protocol/operation.rs:904-934 | an answer or a timeout moves the contact to the end with the time of the check, a broken-off check changes nothing |
| PingOutcomes.AnsweredPingMovesFront | src/protocol/operation.rs:856-861 | the whole table after an answered ping: front last with its new time, others in order, newcomer waiting last |
| PingOutcomes.NextPingIsForTheSecond | src/protocol/operation.rs:856-861 | the next newcomer then asks about the contact that was second |
| PingOutcomes.UnansweredPingReplacesFront | src/protocol/operation.rs:862-873 | the whole table after a ping not answered: front gone, next in line entered, newcomer tried once more |
| PingOutcomes.NewcomerTakesThePlace | src/protocol/operation.rs:862-873 | with nobody else waiting the newcomer has the place, and the cache is empty |
| PingOutcomes.PingDecides | src/protocol/operation.rs:856-873 | answered: front kept, newcomer out; not answered: front out unless its own cached copy is next, newcomer in when nobody else waits |
| NodeLookup.FindNode | src/protocol/operation.rs:341-432 | the loop returns the list and round count of the round-by-round search |
| NodeLookup.AskRound | src/protocol/operation.rs:362-425 | one pass asks up to ALPHA contacts and takes their replies in turn |
| NodeLookup.PushUnseen | src/protocol/operation.rs:394-399 | pushes each contact not seen before, once |
| NodeLookup.RoundGrows | src/protocol/operation.rs:379-425 | a round that asks for another has seen a new id |
| NodeLookup.Rounds | src/protocol/operation.rs:362-431 | the search ends, after at most one round more than the ids newly seen |
| NodeLookup.FreshAreNew | src/protocol/operation.rs:393-399 | who is added: the ids named and not seen, each once |
| NodeLookup.FreshAreFirst | src/protocol/operation.rs:393-399 | of several contacts named with one id the first is added |
| LookupAnswers.HearsTaken | src/protocol/operation.rs:379-417 | after any replies the search has heard exactly what those whose position was on the list named |
| LookupAnswers.RoundHears | src/protocol/operation.rs:379-417 | whoever a contact asked names is seen, if its position was still on the list |
| LookupAnswers.RoundHearsAll | src/protocol/operation.rs:379-417 | in a round without failures all answers of all contacts asked are heard |
| LookupAnswers.ImprovedExactly | src/protocol/operation.rs:413-416 | another round follows exactly when somebody not seen before and nearer than the head was named |
| LookupProperties.SearchKeeps | src/protocol/operation.rs:348-431 | sorted, at most K, within what was seen, not local, from the start or an answer, and distinct if the start was, for any mix of answers and failures |
| LookupProperties.SearchExact | src/protocol/operation.rs:384-417 | without failures what is heard is what everyone asked has named, and the list is the K nearest of it |
| LookupProperties.FindNodeResult | src/protocol/operation.rs:341-432 | the invariants and the bound on rounds from any reachable table, and no id twice if no bucket has one twice |
| LookupProperties.FindNodeExact | src/protocol/operation.rs:341-432 | from any reachable table, when every call succeeds, the K nearest of the starting list and everyone named by anyone asked |
| LookupFailures.FirstFailureRemovesItself | src/protocol/operation.rs:418-423 | exactly when the first failure of a round removes the contact that failed |
| LookupFailures.FailedRoundDropsEven | src/protocol/operation.rs:379-423 | what any number of failures in a row leaves of a list of any length |
| LookupFailures.FailedRoundEnds | src/protocol/operation.rs:362-431 | a round in which everyone asked fails is the last, and what it returns |
| NearestNodes.KeptNearest | src/protocol/operation.rs:402-411 | the contacts kept are those heard with fewer than K heard ones nearer |
| NearestNodes.FindNodeNearest | src/protocol/operation.rs:341-432 | the same as sets of ids: the K nearest of all ids known or named, the local one apart |
| NearestNodes.NearestHeardExactly | src/protocol/operation.rs:340-432 | the K nearest heard are the K nearest of all exactly when all of these were heard |
| StaticNetworks.LookupFindsNearest | src/protocol/operation.rs:340-432 | the nearest node of a static honest network comes first |
| StaticNetworks.LookupFindsAllNearest | src/protocol/operation.rs:340-432 | the list is the K nearest nodes of the network exactly when all were heard of, and whenever the nearest node's table holds the others |
| StaticNetworks.OnlyTheHeadIsGuaranteed | src/protocol/operation.rs:413-416 | an honest, covered network in which a search misses one of the K nearest nodes |
| StaticNetworks.SuchNodesExist | src/node_id.rs:111-137 | identifiers for that network |
| ValueLookup.FindValue | src/protocol/operation.rs:507-675 | the local value if held, else the value of the search, which is then stored under the key |
| ValueLookup.StartList | src/protocol/operation.rs:526-543 | falling back to all contacts adds nobody |
| ValueLookup.AskInRounds | src/protocol/operation.rs:550-674 | the loop computes the round-by-round search |
| ValueLookup.FirstUnvisited | src/protocol/operation.rs:565-570 | the first ALPHA contacts not visited |
| ValueLookup.AwaitReplies | src/protocol/operation.rs:614-645 | the first value answered, else the unvisited contacts named |
| ValueProperties.FindValueResult | src/protocol/operation.rs:550-674 | at most fifty queries to disjoint sets of ids, never the local one; every list, the last one included, is the K nearest of what was named; the value is the first one answered, and none was answered when none is returned |
| ValueProperties.SearchTrace | src/protocol/operation.rs:557-670 | the same from any state of the search, and why it ends without a value |
| ValueProperties.BatchesDisjoint | src/protocol/operation.rs:565-580 | rounds ask disjoint sets of ids, at most ALPHA each |
| ValueProperties.BatchIsNearest | src/protocol/operation.rs:565-570 | a batch holds the nearest contacts not asked before |
| ValueProperties.NamedMeans | src/protocol/operation.rs:638-642 | exactly which named contacts are added |
| ValueProperties.PoolMeans | src/protocol/operation.rs:614-664 | what a list is the nearest of: the start and everyone named by anyone asked before and not asked then |
| ValueProperties.AskedOnceWhenNamedOnce | src/protocol/operation.rs:565-570 | no id recurs in a batch when none recurs among the start and what was named before |
| ValueProperties.RecursExactly | src/protocol/operation.rs:565-570 | exactly when an id recurs in a batch |
| ValueProperties.SilentRoundEnds | src/protocol/operation.rs:665-669 | a round without value and new names ends the search, at any iteration; exactly when it leaves somebody on the list unasked |
| ValueProperties.TenthRoundEnds | src/protocol/operation.rs:555-664 | so does the tenth round even with new names; exactly when it leaves somebody unasked |
| ValueProperties.UnaskedExactly | src/protocol/operation.rs:557-674 | exactly when a whole search without a value leaves somebody on its list unasked |
| ValueProperties.StopsWithUnaskedLeft | src/protocol/operation.rs:665-669 | contacts behind the first ALPHA that are never asked |
| ValueProperties.AsksTwiceInARound | src/protocol/operation.rs:638-642 | a contact named twice is asked twice in one round |
| Storage.MemoryStorage.StoreWithTtl | src/storage.rs:140-149 | the entry with value, time and time to live |
| Storage.MemoryStorage.Store | src/storage.rs:172-192 | the same with the default time to live |
| Storage.MemoryStorage.Get | src/storage.rs:194-227 | the value of an entry that has not expired |
| Storage.MemoryStorage.Remove | src/storage.rs:229-235 | drops the entry; fails exactly when there was none |
| Storage.MemoryStorage.Cleanup | src/storage.rs:134-137 | keeps exactly the entries that have not expired |
| Storage.HeldExactly | src/storage.rs:134-235 | whatever the clock did, a key is held exactly when its last event stored it and every clean-up since came before its time to live ran out |
| Storage.CleanupDropsExpired | src/storage.rs:134-137 | right after a clean-up exactly the keys are held whose last event stored them and whose time to live has not run out |
| Storage.FetchExactly | src/storage.rs:134-227 | a lookup returns a value exactly when the last event about the key stored it and it has not expired, however clean-ups are interleaved |
| Storage.DualStorage.Store | src/storage.rs:279-290 | both maps take the value |
| Storage.DualStorage.Get | src/storage.rs:292-319 | the memory's value, else the shared one, which is written back |
| Storage.DualStorage.Remove | src/storage.rs:321-331 | both maps drop the key |
| Storage.DualStorage.Cleanup | src/storage.rs:337-344 | the shared map keeps exactly the keys left in memory |
| Storage.DualRunMirrored | src/storage.rs:278-345 | the maps stay equal in keys and values over every run, and hold for a key the value last put |
| Storage.DualHeldExactly | src/storage.rs:278-345 | over every run, what is held for a key, and since when its time to live counts, told from the events alone |
| Storage.PurgeThenGet | src/storage.rs:292-344 | a lookup after a clean-up returns a value exactly when it had not expired at the clean-up |
| Storage.ReadingRevives | src/storage.rs:303-314 | reading an expired entry lets it survive a clean-up that would have dropped it |
| Storage.DualGetIgnoresTtl | src/storage.rs:292-319 | a lookup returns what is held, expired or not; exactly when it honours the time to live |
| Storage.DualRevivesExpired | src/storage.rs:303-314 | an expired value that is returned |
| RateLimiter.RateLimitTable.CheckRateLimit | src/network/udp.rs:87-111 | the answer and the new entry of the fixed-window rule |
| RateLimiter.EntryIsLastWindow | src/network/udp.rs:87-111 | the entry of an address is its last window with the number of requests sent since, up to the limit |
| RateLimiter.AcceptedExactly | src/network/udp.rs:87-111 | exactly which requests are accepted |
| RateLimiter.SpanBound | src/network/udp.rs:87-111 | at most n + 1 full windows, less one request when n >= 1, in any span of n window lengths |
| RateLimiter.BoundReached | src/network/udp.rs:95-101 | for every n from 1 to the window length in nanoseconds a trace that reaches the bound for n window lengths |
| RateLimiter.RefusedOnlyWhenFull | src/network/udp.rs:102-106 | a refusal means 100 accepted within the window length before |
| RateLimiter.AddressesIndependent | src/network/udp.rs:90-93 | requests of other addresses do not matter |
| Nodes.Node.HandleRequest | src/protocol/operation.rs:115-203 | the answer and the new store for each kind of request, with the contacts taken from the table |
| Nodes.Node.BeginWait | src/network/mock.rs:122-128 | registers a waiter for the message id |
| Nodes.Node.DeliverResponse | src/network/mock.rs:27-34 | takes the waiter out; tells whether there was one |
| Nodes.Node.TimeOut | src/network/mock.rs:133-137 | takes the waiter out |
| Nodes.FindNodeIsHonest | src/protocol/operation.rs:153-167 | the answer names, in order, the K nearest contacts of the table |
| Nodes.FindValueIsHonest | src/protocol/operation.rs:170-203 | the value if held; otherwise the K nearest contacts of the table |
| Nodes.StoreThenFind | src/protocol/operation.rs:126-203 | a STORE is confirmed and a later FIND_VALUE returns the value; other keys are unaffected, and no other request changes the store |
| Nodes.DeliveredOnce | src/network/mock.rs:27-34 | a second response with the same id is not taken; other waiters are unaffected |
| Nodes.LookupAmongHandlers | src/protocol/operation.rs:340-432 | a lookup among nodes that answer by their handlers returns the nearest first, and all K nearest whenever the nearest node's table holds the others |
| Network.RunKeepsInv | src/protocol/operation.rs:126-203 | the invariant of values, messages, calls and waiters in every run |
| Network.Provenance | src/protocol/operation.rs:507-840 | every value stored, sent or returned under a key was put under it by a client |
| Network.ResponsesHaveTheExpectedType | src/protocol/operation.rs:709-734 | the branches for unexpected responses are never taken |
| Network.AnswersAreFinal | src/network/mock.rs:27-34 | late and repeated responses change nothing |
| Network.StepKeepsPending | src/network/mock.rs:118-139 | nobody waits for a call of another node or for one that has been answered |
| Network.HeldExactly | src/protocol/operation.rs:126-203 | in every run a node holds exactly the value last written under the key |
| Network.GivenUpForGood | src/network/mock.rs:133-137 | a call that timed out or was abandoned is never answered |
| Network.LostRequestsStayLost | src/network/udp.rs:226-238 | a lost request does not come back |
| Network.OwnValueIsReturned | src/protocol/operation.rs:507-524 | a lookup returns at once what its own node holds |
| Network.HeldValueCanBeReplicated | src/protocol/operation.rs:811-840 | a node can replicate a value it holds to another node |
| Network.HeldValueCanBeFetched | src/protocol/operation.rs:576-630 | a lookup can fetch a held value and keeps a copy |

## Left out

- Sockets, tasks, channels, send retries, framing and serialisation: messages in flight are a set, and any may be lost, delayed or repeated.
- The in-memory address registry and its destructor: weak references, not protocol logic.
- The pending-request map of the protocol object: it is written and cleared but never read.
- Response-time averages and adaptive timeouts: any call may time out in the model, and stored statistics never change.
- Hex, hashing of addresses, padding of keys and log output.
- Refresh, republish and expiration timers: they are further calls of modelled operations; republishing is the steps TakeUp, StoreAgain and SendStore.
- The nearest-contacts query of a single bucket (src/routing/k_bucket.rs:159-172): the same sort and truncation as in the table.
- FindNode: the calls it makes also record contacts in the table; the lookup reads the table once, before any call, so the model leaves these effects to RecordContact.
- FindValue: the effects of its calls on the table are left out in the same way; how a response or a timeout becomes an answer of a peer is described where the answers are declared.
- RecordContact: runs without other table accesses between its own.
- Buckets.KBucket.Split: one clock reading stands for the readings of the members it re-enters; no run reaches a split.
- LookupFindsAllNearest: assumes that tables do not change during the lookup and that no call fails; with failures the invariants, what is heard and which contact goes are claimed, not that the list is the nearest. That the nearest node's table holds the others is sufficient, not necessary: further nodes may be named by others.
- BoundReached: beyond as many windows as a window has nanoseconds the bound is not claimed to be reached.
- LookupAmongHandlers: the same assumptions, and answers taken from tables as they were when the lookup began.
- Nodes.Node.HandleRequest: recording the sender of a request and replicating values to a new contact are separate steps (RecordContact, TakeUp, SendStore).
- Provenance: routing tables of the nodes are left out, any node may call any other, and an expired value is one that has been dropped.
- SuccessRate: the quotient is an exact real; for 32-bit counters rounding cannot move it across one half.
- FetchExactly: times are unbounded, so the overflow of a clock reading plus a time to live is not modelled.
