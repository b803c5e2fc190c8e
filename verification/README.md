# Verified core of a Kafka client

Models, in Dafny, of the parts of the client whose correctness is least visible
from reading one function:

* **Classic-group assignors and cooperative rebalancing**
  (`crates/kafka-consume/src/classic.rs`). The three assignors are methods with the
  source's loops (`RangeAssignor`, `RoundRobinAssignor`, `StickyAssignor`), each proved
  equal to a specification by position; `MemberOrder` restates the shares by member id.
  The theorems are about the specifications (`Sticky*`, `RoundRobinWrap`), and
  `Rebalance` is the group protocol as a step system: joins, departures, claims, rounds
  computed some time after the claims, and every member adopting its assignment when it
  gets to it.
* **The connection actor** (`crates/kafka-conn/src/conn.rs`). `Pending` is the
  correlation map and the wrapping id counter; `Connection` interleaves callers, the
  writer, the reader, the re-authentication task and an arbitrary broker, one step per
  stretch between two await points. `ConnectionSafety`, `ConnectionDelivery`,
  `ConnectionGate` hold over whole runs; `ConnectionWrap` shows that the 2^31 bound of
  the delivery theorem is exact.
* **Per-item conservation in the admin layer** (`crates/kafka-admin/src`). `Reask` is
  the narrowing re-ask loop over an arbitrary sequence of rounds, `Offsets` the
  leader-grouped ListOffsets round, `ListedOffsets` their composition; `Pages` merges
  cursor-delivered pages; `Sizes` folds log-directory entries into topic sizes, and
  `SizesReported` says what they mean in terms of what was reported.
* **SASL framing and the SCRAM exchange** (`crates/kafka-conn/src`). `Framing` prints
  and parses the three mechanisms' messages, `Scram` is the client, with HMAC, H, Hi,
  base64 and SASLprep as function parameters, and `ScramAgreement` runs it against an
  honest server and against an arbitrary one.

Choices that shape the statements:

* A `BTreeMap` of partition counts is the strictly increasing sequence of its entries;
  member ids are distinct, as the coordinator issues them.
* The search in `imbalance` is abandoned by its `?` at the first pair it does not
  skip, which is always the fullest and the emptiest member. "Within one of level" is
  therefore proved for uniform subscriptions; for arbitrary ones `Sticky.ImbalanceWidest`
  says exactly when the search stops, and `StickyLimits.MixedStaysUneven` is a group it
  leaves two apart although a move was possible. The comment at lines 433-434 of
  `classic.rs` (move to "one at least two behind it that is allowed to take it")
  promises more than the code does.
* Exclusive ownership needs members to claim only topics they subscribe to:
  `Rebalance.RoundOverlapIff` is the exact condition and
  `StickyLimits.StrayClaimOverlaps` a group outside it. Subscriptions are fixed when a
  member is built, so every run from a proper start stays inside it.
* The round-robin cursor is a 64-bit number that wraps. Exclusivity and "only to
  subscribers" hold across the wrap; coverage and independence from unwanted topics do
  not, and `RoundRobinWrap` says exactly when they do. Likewise `RangeAssignor` falls
  back to one member when there are more than an i32 counts; `RangeCoversIff` is exact.
* The network, the clock and metadata are parameters: a round of the re-ask loop is any
  function of its number and of what it was asked; the time budget is the number of
  re-asks it admits; a hash map is iterated in any order that meets each key once.
* A request that names one partition twice in `list_offsets_with` cannot be answered
  twice: `OffsetsFacts.AllAnsweredIffDistinct` states that every item gets its reply if
  and only if partitions are distinct within a leader's group. The number of answers is
  right in either case.

## Model

| member | source | states |
|---|---|---|
| StickyMinimal.MinimalMovement | crates/kafka-consume/src/classic.rs:302-392 | Under uniform subscriptions the number of partitions withheld is the least number of owner losses over all complete assignments within one of level, and the target attains it |
| StickyMinimal.TargetSparing | crates/kafka-consume/src/classic.rs:364-372 | Through fill and balance no member both receives and donates |
| StickyMinimal.WithheldIsLost | crates/kafka-consume/src/classic.rs:374-381 | The withheld partitions are counted by what resolved owners lose to the target |
| StickyMinimal.LossesAtLeastShorts | crates/kafka-consume/src/classic.rs:362-372 | No assignment loses less than its sizes force, and one where nobody both receives and donates loses exactly that |
| StickyConverge.Converges | crates/kafka-consume/src/classic.rs:36-54 | From any first-round claims, round two is complete, exclusive, level and withholds nothing, and every later round repeats it |
| StickyConverge.SecondRound | crates/kafka-consume/src/classic.rs:317-392 | If every member claims what round one gave it, round two keeps all of that and settles the group |
| StickyConverge.FixedPoint | crates/kafka-consume/src/classic.rs:317-392 | A complete assignment within one of level is returned unchanged, whatever the subscriptions and generations |
| Rebalance.NeverHeldTwice | crates/kafka-consume/src/classic.rs:51-54 | In every run of claims, rounds, joins, departures, adoptions and partitions given up, in any order and also between a claim and its round, no partition is held by two members |
| Rebalance.StepKeeps | crates/kafka-consume/src/classic.rs:309-313 | Every protocol step keeps the invariant behind exclusive ownership |
| Rebalance.AdoptsItsShare | crates/kafka-consume/src/classic.rs:41-49 | In every run a member that switches to a round's assignment then holds exactly its entry of the round |
| Rebalance.RoundOverlapIff | crates/kafka-consume/src/classic.rs:374-381 | A round over disjoint claims gives nobody what another still holds if and only if every claim it hands out is on a subscribed topic |
| Rebalance.ClaimIsHolding | crates/kafka-consume/src/classic.rs:939-1018 | What the leader decodes of a subscription is exactly what the member claimed |
| Rebalance.ReadIsGiven | crates/kafka-consume/src/classic.rs:1020-1061 | What a member decodes of its assignment is exactly what the round gave it |
| StickyBalance.CapNeverBinds | crates/kafka-consume/src/classic.rs:412-431 | Within twice the total moves the search has run dry, and any larger cap gives the same holdings |
| StickyBalance.MoveLowersDeviation | crates/kafka-consume/src/classic.rs:418-431 | A move between members two or more apart lowers the deviation from q or q+1 by at least one |
| StickyBalance.DeviationBound | crates/kafka-consume/src/classic.rs:419-420 | The deviation is at most twice the total |
| StickyBalance.EveryMoveLevels | crates/kafka-consume/src/classic.rs:435-461 | Every move strictly lowers the sum of squared sizes, whatever the subscriptions |
| StickyBalance.TargetLevel | crates/kafka-consume/src/classic.rs:362-372 | Under uniform subscriptions the target is a complete partition within one of level |
| StickyBalance.TargetLevelIff | crates/kafka-consume/src/classic.rs:362-372 | For any subscriptions the target is complete and settled, and within one of level iff its widest pair has something to move or does not exist |
| Sticky.ImbalanceWidest | crates/kafka-consume/src/classic.rs:435-461 | Three exact cases on the tie-broken widest pair: it runs through iff the group is within one, gives up iff that pair has nothing to move, and otherwise moves its first key |
| Sticky.OwnerUpTo | crates/kafka-consume/src/classic.rs:334-350 | The resolved owner is a valid claimant of the highest generation, ties to the smallest id; there is none only if nobody validly claims |
| Sticky.EmptiestUpTo | crates/kafka-consume/src/classic.rs:395-410 | The chosen member subscribes and holds least, ties to the smallest id; none only if nobody subscribes |
| StickyFill.FilledToEmptiest | crates/kafka-consume/src/classic.rs:362-370 | Every unclaimed partition, in key order, fills a subscriber that holds least at that moment, ties to the first in id order |
| MemberOrder.OwnerById | crates/kafka-consume/src/classic.rs:334-350 | By id: of the valid claimants the highest generation owns, and of several of it the one whose id comes first |
| MemberOrder.EmptiestById | crates/kafka-consume/src/classic.rs:395-410 | By id: of the subscribers the one holding least, and of several the one whose id comes first |
| MemberOrder.StickyLists | crates/kafka-consume/src/classic.rs:383-392 | What a member is handed of a topic is ascending and exactly its part of the round |
| StickyExact.TargetPartition | crates/kafka-consume/src/classic.rs:327-372 | Before withholding every subscribed partition has exactly one holder, a subscriber |
| StickyExact.RoundExact | crates/kafka-consume/src/classic.rs:327-381 | A round hands out nothing twice and only to subscribers; the keys left out are exactly those whose resolved owner lost them |
| StickyAssignor.ResolveOwners | crates/kafka-consume/src/classic.rs:337-350 | The loop's map is the resolved owner of every key |
| StickyAssignor.CurrentHoldings | crates/kafka-consume/src/classic.rs:352-360 | Members start from what they own |
| StickyAssignor.FillUp | crates/kafka-consume/src/classic.rs:362-370 | Free keys in key order each go to the then emptiest subscriber |
| StickyAssignor.BalanceHoldings | crates/kafka-consume/src/classic.rs:412-431 | The in-place loop makes the specified moves |
| StickyAssignor.Retain | crates/kafka-consume/src/classic.rs:374-381 | Exactly the keys owned by somebody else are dropped |
| StickyAssignor.EncodeHoldings | crates/kafka-consume/src/classic.rs:383-392 | Sets become topics with their partitions in order |
| StickyAssignor.AssignCooperativeSticky | crates/kafka-consume/src/classic.rs:317-392 | The whole assignor returns the round, keyed by member id, for members in any order |
| StickyLimits.MixedStaysUneven | crates/kafka-consume/src/classic.rs:450-456 | A mixed group left uneven although an allowed move existed |
| StickyLimits.StrayClaimOverlaps | crates/kafka-consume/src/classic.rs:340-342 | A claim on an unsubscribed topic lets its partition go to another member at once |
| Assignment.WireRoundTrip | crates/kafka-consume/src/classic.rs:1020-1061 | Grouping keys by topic and flattening them back gives the same keys, in whatever order the wire lists the topics |
| RangeAssignor.TilesIff | crates/kafka-consume/src/classic.rs:233-245 | The blocks tile a topic if and only if the member count fits an i32 or nothing or one saturating block is dealt |
| RangeAssignor.RangeBlock | crates/kafka-consume/src/classic.rs:233-250 | Member i gets the contiguous block starting at i*per + min(i, extra) |
| MemberOrder.RangeClosedForm | crates/kafka-consume/src/classic.rs:214-254 | With n subscribers, i of them with ids before the member's own, it gets the count/n consecutive partitions, one more if i < count%n, from i*(count/n) + min(i, count%n) on |
| RangeAssignor.RangeExact | crates/kafka-consume/src/classic.rs:214-254 | Nothing goes to two members or to a non-subscriber, for any number of members; every partition of a subscribed topic and nothing else is handed out for every topic whose blocks come out right |
| RangeAssignor.RangeCoversIff | crates/kafka-consume/src/classic.rs:214-254 | The call hands out exactly a wanted topic's partitions iff its subscribers fit an i32, or nothing or one saturating block is dealt |
| RangeAssignor.RangePermuted | crates/kafka-consume/src/classic.rs:224-231 | The order of the member list does not matter |
| RangeAssignor.DealTopic | crates/kafka-consume/src/classic.rs:233-251 | The inner loop gives each subscriber its block and touches no other topic or member |
| RangeAssignor.AssignRange | crates/kafka-consume/src/classic.rs:214-254 | The assignor returns every member's blocks |
| RoundRobinAssignor.ScanExact | crates/kafka-consume/src/classic.rs:279-296 | From any cursor the scan stops at the first subscriber it meets, or looks once per member, and the cursor advances by the looks made, wrapping |
| RoundRobinAssignor.TakerExact | crates/kafka-consume/src/classic.rs:277-296 | A partition is only taken by a subscriber, and is taken if there is one whenever its scan is complete, as in every deal that fits before the wrap or wraps evenly |
| RoundRobinAssignor.UniformRotation | crates/kafka-consume/src/classic.rs:276-298 | Under uniform subscriptions the j-th partition overall goes to member j mod n, counting from zero again at the wrap |
| MemberOrder.RoundRobinClosedForm | crates/kafka-consume/src/classic.rs:261-300 | When all subscribe to all, partition p of the t-th topic goes to the member with (partitions of earlier topics + p) mod n ids before its own |
| MemberOrder.RoundRobinLists | crates/kafka-consume/src/classic.rs:289-293 | What a member is dealt of a topic is ascending and exactly what the deal gives it |
| RoundRobinAssignor.RoundRobinExact | crates/kafka-consume/src/classic.rs:261-300 | Nothing goes to two members, to a non-subscriber or from outside the counts; every partition of a subscribed topic goes to somebody in a deal that fits |
| RoundRobinAssignor.UnwantedTopic | crates/kafka-consume/src/classic.rs:279-296 | A topic nobody subscribes to leaves every member's assignment as without it, short of the wrap or when the wrap is a whole number of rotations |
| RoundRobinWrap.ScanCompleteIff | crates/kafka-consume/src/classic.rs:276-296 | A scan finds a subscriber whatever the subscriptions iff it stops short of the wrap or the members divide 2^64 |
| RoundRobinWrap.DealCompleteIff | crates/kafka-consume/src/classic.rs:276-298 | A deal reaches every wanted partition whatever the subscriptions iff partitions times members fit 2^64 or the members divide it |
| RoundRobinWrap.NeverShiftsIff | crates/kafka-consume/src/classic.rs:276-298 | Unwanted partitions never shift a deal, however many, iff the members divide 2^64 |
| RoundRobinWrap.ScanMissesLast | crates/kafka-consume/src/classic.rs:286-286 | Three members and a cursor at its end: the only subscriber is missed |
| RoundRobinAssignor.DealOne | crates/kafka-consume/src/classic.rs:281-296 | The while loop deals one partition as the scan says |
| RoundRobinAssignor.AssignRoundRobin | crates/kafka-consume/src/classic.rs:261-300 | The assignor returns the deal, keyed by member id |
| Group.SortPermuted | crates/kafka-consume/src/classic.rs:270-271 | Members with distinct ids sort to one list however they arrived |
| Order.StrLessExact | crates/kafka-consume/src/classic.rs:231-231 | Ids and topics are ordered by the first code point in which they differ, a prefix first |
| Order.KeyLessExact | crates/kafka-consume/src/classic.rs:328-332 | Keys are ordered by topic and then by number |
| MemberOrder.RankIn | crates/kafka-consume/src/classic.rs:321-322 | Sorting puts every member at the number of ids before its own |
| Assignors.Assign | crates/kafka-consume/src/classic.rs:463-479 | `roundrobin` and `cooperative-sticky` answer by name; any other name means range |
| Assignors.MemberOrderIrrelevant | crates/kafka-consume/src/classic.rs:214-323 | All three assignors are invariant under permutation of the members |
| Pending.Table.Register | crates/kafka-conn/src/conn.rs:75-87 | A waiter is added under its id, or refused once the table is dead |
| Pending.Table.Take | crates/kafka-conn/src/conn.rs:88-91 | The waiter under an id is handed out and gone |
| Pending.Table.Close | crates/kafka-conn/src/conn.rs:94-110 | Every waiter is handed back and the table is dead for good |
| Pending.Table.IsClosed | crates/kafka-conn/src/conn.rs:112-114 | The table reports dead exactly when it is |
| Pending.IdsConsecutive | crates/kafka-conn/src/conn.rs:296-296 | Ids are consecutive modulo 2^31 across the wrap of the 32-bit counter |
| Pending.DistinctWithinCycle | crates/kafka-conn/src/conn.rs:296-296 | Two allocations less than 2^31 apart never share an id |
| Pending.SameAfterCycle | crates/kafka-conn/src/conn.rs:296-296 | Allocations 2^31 apart always share one |
| ConnectionSafety.StepMapped | crates/kafka-conn/src/conn.rs:62-115 | Every step keeps: a oneshot is open exactly while the table lists its sender under the call's id |
| ConnectionSafety.InFlightBounded | crates/kafka-conn/src/conn.rs:316-340 | In every run live callers past the permit plus free permits are max_in_flight |
| ConnectionSafety.ResolvedForever | crates/kafka-conn/src/conn.rs:325-359 | In every run a waiter is resolved at most once and death is permanent |
| ConnectionSafety.NobodyStranded | crates/kafka-conn/src/conn.rs:325-359 | In every run a waiting caller is registered under its own id or has its result to pick up |
| ConnectionSafety.NothingLeftBehind | crates/kafka-conn/src/conn.rs:327-359 | In every run a call that returned leaves no waiter in the table |
| ConnectionSafety.DeadForever | crates/kafka-conn/src/conn.rs:94-114 | From a close on no waiter remains and none can be added, and every waiting caller can finish |
| ConnectionSafety.DeadTaskKills | crates/kafka-conn/src/conn.rs:574-575 | In every run the connection is dead once the writer or the reader is gone |
| ConnectionSafety.CloseTellsEverybody | crates/kafka-conn/src/conn.rs:94-110 | In every run a close leaves the news of it with every caller whose answer is outstanding |
| ConnectionSafety.CallEnds | crates/kafka-conn/src/conn.rs:316-359 | In every run what each act of a call leads to, and that receiving returns what the oneshot brought |
| ConnectionSafety.ChannelBounded | crates/kafka-conn/src/conn.rs:545-545 | In every run the command channel holds at most max_in_flight frames |
| ConnectionDelivery.OutstandingIds | crates/kafka-conn/src/conn.rs:296-296 | Outstanding calls never share an id while fewer than 2^31 are issued |
| ConnectionDelivery.StepKeeps | crates/kafka-conn/src/conn.rs:288-360 | Every step keeps: the table never lists somebody else under an outstanding call's id |
| ConnectionDelivery.FramesReachTheirOwn | crates/kafka-conn/src/conn.rs:595-610 | In every run within the bound a frame is returned only by the call it answers, also after cancellation or timeout of others |
| ConnectionDelivery.HonestBrokerExact | crates/kafka-conn/src/conn.rs:595-610 | If the broker only answers what it was asked, a caller returns its own answer or the news of the close |
| ConnectionDelivery.AnswersArrive | crates/kafka-conn/src/conn.rs:595-610 | The answer to a call still registered is handed to that call |
| ConnectionDelivery.AnswersReturned | crates/kafka-conn/src/conn.rs:325-359 | In every run within the bound a registered caller whose answer is read returns that answer when it receives |
| ConnectionWrap.OneTooManyMisdelivers | crates/kafka-conn/src/conn.rs:296-296 | With one request more than the bound some run returns call 0's answer to another caller |
| ConnectionGate.NeverInterleaves | crates/kafka-conn/src/conn.rs:434-478 | In every run the wire has no other request between two of one re-authentication, whatever was cancelled after queueing |
| ConnectionGate.StepGatekept | crates/kafka-conn/src/conn.rs:260-263 | Every step keeps: while re-authentication holds the gate only its own calls are live |
| ConnectionGate.OthersAreDone | crates/kafka-conn/src/conn.rs:448-450 | In every run, while re-authentication holds the gate, every other call has returned or was dropped |
| ConnectionGate.StepLogged | crates/kafka-conn/src/conn.rs:552-577 | Every step keeps: the writer's output is a prefix of the channel's history, contiguous per re-authentication |
| Reask.SortOut | crates/kafka-admin/src/reask.rs:112-136 | The pass over one round's outcomes splits them into final and open ones, in order |
| Reask.PerItemRetrying | crates/kafka-admin/src/reask.rs:91-179 | The loop returns what the recursion over rounds says, or fails as a whole with a round |
| ReaskFacts.Conserved | crates/kafka-admin/src/reask.rs:104-179 | If rounds answer exactly what they were asked, the result's keys are the items, with multiplicity |
| ReaskFacts.SplitInOrder | crates/kafka-admin/src/reask.rs:112-136 | Outcomes are sorted out piece by piece, keeping their order |
| ReaskFacts.SplitOne | crates/kafka-admin/src/reask.rs:62-70 | A single outcome is kept exactly for a retriable code, or a refresh code with the allowance unspent |
| ReaskFacts.PendingShrinks | crates/kafka-admin/src/reask.rs:106-137 | What a round was asked is what it settles plus what the next is asked |
| ReaskFacts.PendingPlusSettled | crates/kafka-admin/src/reask.rs:104-137 | At every round pending plus settled is the input |
| ReaskFacts.AskedAgainIff | crates/kafka-admin/src/reask.rs:62-70 | An item is asked again if and only if its code is retriable, or refresh-only with the allowance unspent |
| ReaskFacts.AllowanceOnce | crates/kafka-admin/src/reask.rs:137-139 | At most one round of a call re-asks on the stale-view allowance |
| ReaskFacts.AskedAtMostTwice | crates/kafka-admin/src/reask.rs:22-36 | An item that always answers with a refresh-only code is asked at most twice |
| ReaskFacts.FromLastRound | crates/kafka-admin/src/reask.rs:104-152 | An item requested once gets the outcome of the last round that asked it |
| ReaskFacts.AnswerIsSettlements | crates/kafka-admin/src/reask.rs:104-153 | The result, duplicates included, is what each round settled, in order, and then what the last one left open |
| ReaskFacts.EntryFromSomeRound | crates/kafka-admin/src/reask.rs:104-153 | Every entry is an outcome some round gave, final there or from the last round |
| ReaskFacts.RetriableOnlyWhenExhausted | crates/kafka-admin/src/reask.rs:141-153 | A retriable outcome is returned only when the budget ran out |
| Offsets.MatchReplies | crates/kafka-admin/src/offsets.rs:141-175 | The first item of a partition gets the last reply's error, or its partition, offset, timestamp and epoch where not negative; without a reply, and for twins, the final error -1 |
| Offsets.Route | crates/kafka-admin/src/offsets.rs:97-107 | Items are grouped by the leader found for them, in order, and the others fail |
| Offsets.AskRound | crates/kafka-admin/src/offsets.rs:96-186 | The round asks each leader once about its own group |
| Offsets.MatchedAt | crates/kafka-admin/src/offsets.rs:151-175 | Closed form: the first item of a partition takes the reply, any twin is told it was not mentioned |
| OffsetsFacts.AllAnsweredIffDistinct | crates/kafka-admin/src/offsets.rs:151-160 | With every partition answered, every item gets its reply if and only if partitions are distinct |
| Offsets.ByKeyIsLast | crates/kafka-admin/src/offsets.rs:141-150 | Of several replies about a partition the last one counts |
| OffsetsFacts.RoundConserves | crates/kafka-admin/src/offsets.rs:96-186 | Whatever brokers answer, omit or add, a round gives one outcome per item asked |
| ListedOffsets.OneAnswerPerRequest | crates/kafka-admin/src/offsets.rs:56-196 | The keys returned are the keys requested, as multisets |
| ListedOffsets.EveryEntryExplained | crates/kafka-admin/src/offsets.rs:56-196 | Each value is an outcome of the last round that asked the item: what the leader then found replied to the very request that round sent it, with the item's own timestamp; unsupported specs are refused |
| ListedOffsets.EveryEntrySourced | crates/kafka-admin/src/offsets.rs:56-196 | Also for partitions requested twice, each entry is an outcome of a round that asked it, final there or from the last round, and what the item heard in that round |
| ListedOffsets.RoundTells | crates/kafka-admin/src/offsets.rs:96-186 | In one round an item gets an outcome iff it is its leader's last reply about its partition to the request the round sends, that leader's failure, or the lack of a leader |
| ListedOffsets.RoundHears | crates/kafka-admin/src/offsets.rs:96-186 | The same for twins: the first of a partition in its leader's group hears the reply, the others that it was not mentioned |
| ListedOffsets.RequestExact | crates/kafka-admin/src/offsets.rs:109-131 | The request a leader gets asks about exactly the items it was found for, with the sentinel or time of each spec |
| ListedOffsets.SentIff | crates/kafka-admin/src/offsets.rs:71-87 | An item is asked at all exactly when the negotiated version can express its spec |
| ListedOffsets.ListOffsetsWith | crates/kafka-admin/src/offsets.rs:56-196 | One answer per request, and every value of a partition requested once explained by the last round that asked it |
| Pages.AbsorbPage | crates/kafka-admin/src/topics.rs:400-440 | One page's entries are absorbed into partial, order and merged |
| Pages.DescribePaginated | crates/kafka-admin/src/topics.rs:373-469 | The cursor is followed to the end, whatever the n-th request is answered with, and the result is the merge of all pages; a failing request fails the call |
| Pages.EmitAll | crates/kafka-admin/src/topics.rs:460-468 | The final pass emits topics in order of first mention, errors found by name and swap-removed |
| Pages.SwapRemoved | crates/kafka-admin/src/topics.rs:464-466 | Removing by swap loses that element and no other |
| PageCuts.CutsDoNotMatter | crates/kafka-admin/src/topics.rs:373-469 | For every cut of distinct topics into entries and pages the merged result is the list nobody cut, every topic and partition with its own fields |
| PageCuts.DescribeTopics | crates/kafka-admin/src/topics.rs:373-469 | End to end: the caller gets the uncut list, each partition with its number, epoch, replicas, in-sync and offline replicas, error, and leader unless negative; or nothing when a request fails |
| PageNames.MergedOf | crates/kafka-admin/src/topics.rs:400-468 | For any entries at all: a name gets its description, pieces in order of arrival, then an error only if one came before it; without a description one of its errors, however many |
| PageCuts.AbsorbPieces | crates/kafka-admin/src/topics.rs:424-440 | The pieces of one topic end up as that topic, every partition once and in order |
| PageCuts.EmitAllTopics | crates/kafka-admin/src/topics.rs:460-468 | Every topic is emitted as it is, in order, whatever order removals left the errors in |
| Sizes.Sizes.Add | crates/kafka-admin/src/cluster_info.rs:299-334 | One entry is accounted for |
| Sizes.Sizes.Finish | crates/kafka-admin/src/cluster_info.rs:337-353 | Rows are a stably sorted permutation, figures ascend and are exactly the accumulator's, and the two totals are the sums of the figures' two columns |
| Sizes.Fold | crates/kafka-admin/src/cluster_info.rs:275-296 | The triple loop gives every topic met its own accumulator of its rows |
| Sizes.SizeFromFold | crates/kafka-admin/src/cluster_info.rs:188-199 | A topic's size is that of its own rows; a topic nobody reported has none |
| SizesFacts.ReplicatedIsSum | crates/kafka-admin/src/cluster_info.rs:299-353 | A topic's replicated bytes are the sum of its entries that are not future replicas |
| SizesReported.LogicalIsSum | crates/kafka-admin/src/cluster_info.rs:318-350 | A topic's logical bytes are the sum over the partitions present of what each one's leader last reported |
| SizesReported.ReplicatedAsReported | crates/kafka-admin/src/cluster_info.rs:275-353 | Its replicated bytes are those of all its replicas in all directories of all brokers that are not future ones |
| SizesReported.RowsAsReported | crates/kafka-admin/src/cluster_info.rs:275-311 | Its rows are exactly the entries reported of it, marked as the leader's exactly when the metadata names that broker |
| SizesReported.RowsInOrder | crates/kafka-admin/src/cluster_info.rs:340-344 | Rows come by partition, then broker, then directory |
| SizesReported.LeadsExact | crates/kafka-admin/src/cluster_info.rs:256-268 | A broker leads a partition exactly when the last entry of the metadata that gives it a leader says so |
| SizesFacts.TallyFigures | crates/kafka-admin/src/cluster_info.rs:299-334 | Per partition: bytes of all its own replicas, and the leader's last figure |
| SizesFacts.PartitionsExact | crates/kafka-admin/src/cluster_info.rs:337-339 | Partitions ascend, one per partition with an own replica, with both figures |
| SizesFacts.RowsSorted | crates/kafka-admin/src/cluster_info.rs:340-344 | Rows are a permutation of the entries, ordered by partition, broker, directory |
| SizesInvariance.BrokerOrderIrrelevant | crates/kafka-admin/src/cluster_info.rs:275-296 | Permuting brokers with distinct ids changes nothing |
| SizesInvariance.OneTopicSuffices | crates/kafka-admin/src/cluster_info.rs:216-252 | Folding one topic's entries with that topic's leaders gives the size the whole fold gives it |
| SizesInvariance.LeadersOfOne | crates/kafka-admin/src/cluster_info.rs:256-268 | The leader map holds each topic's own leaders |
| Framing.UnescapeEscaped | crates/kafka-conn/src/scram.rs:387-391 | Unescaping recovers the username, and escaping leaves no comma |
| Framing.ScramExtensionExact | crates/kafka-conn/src/scram.rs:405-428 | Accepted iff the key is ASCII letters and no reserved letter in either case, and the value is not empty and free of commas and control characters |
| Framing.OauthExtensionExact | crates/kafka-conn/src/oauth.rs:169-192 | Accepted iff the key is ASCII letters and not auth in any case, and the value is printable ASCII, blanks and tabs |
| Framing.TokenExact | crates/kafka-conn/src/oauth.rs:147-162 | Accepted iff not empty and of letters, digits and the seven signs |
| Framing.ClientFirstBare | crates/kafka-conn/src/scram.rs:131-145 | The message is built exactly for a comma-free nonce and accepted extensions |
| Framing.BareText | crates/kafka-conn/src/scram.rs:138-138 | The text of a login without extensions |
| Framing.BareRoundTrip | crates/kafka-conn/src/scram.rs:131-145 | Splitting and unescaping recovers username, nonce and extensions |
| Framing.BareInjective | crates/kafka-conn/src/scram.rs:131-145 | No two logins are framed alike |
| Framing.InitialClientResponse | crates/kafka-conn/src/oauth.rs:117-138 | The response is built exactly for an accepted token and accepted extensions |
| Framing.OauthRoundTrip | crates/kafka-conn/src/oauth.rs:108-192 | Splitting on 0x01 recovers token and extensions |
| Framing.OauthInjective | crates/kafka-conn/src/oauth.rs:108-192 | No two responses are framed alike |
| Framing.PlainToken | crates/kafka-conn/src/sasl.rs:314-335 | A token is built exactly for NUL-free fields and splits back into them |
| Framing.PlainNeedsRefusal | crates/kafka-conn/src/sasl.rs:315-327 | The split gives the two fields back if and only if neither holds a NUL |
| Text.ParsePrinted | crates/kafka-conn/src/scram.rs:203-208 | Every 32-bit iteration count parses back from its decimal form |
| Text.ParseExact | crates/kafka-conn/src/scram.rs:203-208 | What parses is an optional plus and digits of a value a u32 holds |
| Text.JoinSplit | crates/kafka-conn/src/scram.rs:169-169 | Splitting loses nothing and leaves no separator in a field |
| Scram.Start | crates/kafka-conn/src/scram.rs:124-153 | A conversation starts exactly for preparable credentials and an accepted bare message |
| Scram.ScramClient.ClientFinal | crates/kafka-conn/src/scram.rs:161-243 | A reply exists exactly if the message settles terms: no rejection, the last nonce strictly extends ours, the last salt decodes, the last count is 4096 to 1000000; only then the expected signature is set |
| Scram.AgreedExact | crates/kafka-conn/src/scram.rs:165-222 | The client agrees to exactly the terms the message settles |
| Scram.HeaderIsText | crates/kafka-conn/src/scram.rs:52-52 | The channel binding is the header that starts the client's first message |
| ScramAgreement.ForeignNonceRefused | crates/kafka-conn/src/scram.rs:188-197 | A nonce that does not start with the client's, or adds nothing, is refused |
| Scram.ScramClient.VerifyServerFinal | crates/kafka-conn/src/scram.rs:245-283 | The client accepts as the first verdict in the message says |
| Scram.Exchange | crates/kafka-conn/src/sasl.rs:337-375 | The driver runs the two round trips and returns the lifetime only after verification |
| ScramAgreement.HonestTerms | crates/kafka-conn/src/scram.rs:161-222 | The client reads an honest server's nonce, salt and iteration count as sent |
| ScramAgreement.ServerAcceptsClient | crates/kafka-conn/src/scram.rs:224-243 | The server holding the matching stored key accepts the client's proof |
| ScramAgreement.ClientAcceptsExactly | crates/kafka-conn/src/scram.rs:260-275 | The client accepts exactly the signature it expects |
| ScramAgreement.VerdictExact | crates/kafka-conn/src/scram.rs:254-283 | Of any final message the client accepts exactly those whose first verdict verifies |
| ScramAgreement.Agreement | crates/kafka-conn/src/sasl.rs:337-375 | Every accepted login succeeds against the server holding its keys |
| ScramAgreement.PeerKnowsTheKey | crates/kafka-conn/src/sasl.rs:337-375 | Against any broker, success means it settled terms whose nonce extends ours, and its verifier is the signature made with this password's server key over this exchange |

## Left out

- RoundRobinAssignor.UnwantedTopic: asks that the deal stay short of the wrap or that the members divide 2^64, because beyond that it is false; RoundRobinWrap.NeverShiftsIff is exact.
- RangeAssignor.RangeExact: coverage asks that the topic's blocks come out right, because otherwise it is false; RangeAssignor.RangeCoversIff is exact.
- StickyBalance.TargetLevel: uniform subscriptions are sufficient, not necessary; StickyBalance.TargetLevelIff is exact for any group but speaks of the target it reaches.
- Rebalance.NeverHeldTwice: a member that leaves lets go of its partitions at that moment; an evicted member that goes on consuming until it notices is not modelled.
- ListedOffsets.EveryEntryExplained: stated for a partition requested once; ListedOffsets.EveryEntrySourced covers the others.
- ReaskFacts.FromLastRound: stated for an item requested once; ReaskFacts.EntryFromSomeRound covers the others.
- Pages.DescribePaginated: takes brokers that at some point send no further cursor or fail; brokers that never stop make the source loop for ever.
- Framing.ClientFirstBare: text is modelled as characters, not UTF-8 bytes; a message that is not UTF-8 reaches Scram.ScramClient.ClientFinal as no text.
- Sizes.Fold: sums are unbounded integers; overflow of an i64 total is not modelled.
- Eager rebalancing under range and roundrobin, the coordinator's side of the join protocol, and ClassicMembership's heartbeats.
- The byte layout of requests, responses, subscriptions and assignments, and the framing codec: messages are values.
- TCP, TLS, HTTP, OIDC token fetching and the token cache.
- Internals of hashes, HMAC, PBKDF2, base64 and SASLprep; the constant-time property of the signature comparison.
- Dropping the caller's future before the gate is acquired, which has no effect on the connection's state.
- The order in which a ListOffsets request lists its topics, metrics, logging and error texts.
- The SaslHandshake step of `authenticate`, the mechanism it names, and PLAIN's refusal of extensions: a branch each.
- Metadata and coordinator caches: refreshing them is folded into the arbitrary next round.
- Which broker errors `topic_size` reports when no broker answers, and one-shot admin calls: a branch each.
- Rounds of other admin calls that build results from the response alone do not promise one answer per request, and nothing is claimed of them.
