/** `list_offsets_with`: one round of ListOffsets, grouped by leader, and the call
    that re-asks it. */
module Offsets {
  import opened Options
  import opened Counting
  import opened Order
  import opened Reask

  datatype OffsetSpec =
    | Latest | Earliest | MaxTimestamp
    | EarliestLocalTimestamp | LatestTieredTimestamp | EarliestPendingUploadTimestamp
    | Timestamp(ms: int)

  function WireTimestamp(spec: OffsetSpec): int {
    match spec
    case Latest => -1
    case Earliest => -2
    case MaxTimestamp => -3
    case EarliestLocalTimestamp => -4
    case LatestTieredTimestamp => -5
    case EarliestPendingUploadTimestamp => -6
    case Timestamp(ms) => ms
  }

  function MinVersion(spec: OffsetSpec): int {
    match spec
    case MaxTimestamp => 7
    case EarliestLocalTimestamp => 8
    case LatestTieredTimestamp => 9
    case EarliestPendingUploadTimestamp => 11
    case _ => 1
  }

  /** The timestamp a spec is asked with, sentinel by sentinel. */
  ghost predicate Stamps(spec: OffsetSpec, timestamp: int) {
    && (spec.Latest? ==> timestamp == -1)
    && (spec.Earliest? ==> timestamp == -2)
    && (spec.MaxTimestamp? ==> timestamp == -3)
    && (spec.EarliestLocalTimestamp? ==> timestamp == -4)
    && (spec.LatestTieredTimestamp? ==> timestamp == -5)
    && (spec.EarliestPendingUploadTimestamp? ==> timestamp == -6)
    && (spec.Timestamp? ==> timestamp == spec.ms)
  }

  /** The negotiated version, if one is known, is recent enough for the spec. */
  ghost predicate Expressible(spec: OffsetSpec, negotiated: Option<int>) {
    negotiated.Some? ==>
      && negotiated.value >= 1
      && (spec.MaxTimestamp? ==> negotiated.value >= 7)
      && (spec.EarliestLocalTimestamp? ==> negotiated.value >= 8)
      && (spec.LatestTieredTimestamp? ==> negotiated.value >= 9)
      && (spec.EarliestPendingUploadTimestamp? ==> negotiated.value >= 11)
  }

  datatype Item = Item(key: Key, spec: OffsetSpec)

  /** One partition of a request, and of a response. */
  datatype Ask = Ask(key: Key, timestamp: int)
  datatype Reply = Reply(key: Key, error: Option<Code>, offset: int, timestamp: int, epoch: int)

  datatype ListedOffset = ListedOffset(partition: int, offset: Option<int>, timestamp: Option<int>, epoch: Option<int>)

  datatype Fallible<T> = Good(value: T) | Bad(error: Error)

  const UNKNOWN_SERVER_ERROR := Code(-1, false, false)

  /** The cluster as the n-th round finds it. Resolving a leader may go differently
      each time it is asked; a hash map's groups come out in any order. */
  datatype Cluster = Cluster(
    leaderFor: (nat, nat, Key) -> Fallible<int>,
    send: (nat, int, seq<Ask>) -> Fallible<seq<Reply>>,
    order: (nat, seq<int>) -> seq<int>
  )

  /** Iterating a hash map meets every key once. */
  ghost predicate Iterates(c: Cluster) {
    forall n, leaders :: multiset(c.order(n, leaders)) == multiset(leaders)
  }

  // ------------------------------------------------------------------ matching answers

  function NonNegative(x: int): Option<int> {
    if x >= 0 then Some(x) else None
  }

  function Converted(a: Reply): Outcome<ListedOffset> {
    if a.error.Some? then Err(Coded(a.error.value))
    else Ok(ListedOffset(a.key.partition, NonNegative(a.offset), NonNegative(a.timestamp), NonNegative(a.epoch)))
  }

  const NOT_MENTIONED: Outcome<ListedOffset> := Err(Coded(UNKNOWN_SERVER_ERROR))

  /** The replies by partition; of two for one partition the later stands. */
  function ByKey(replies: seq<Reply>): map<Key, Reply> {
    if replies == [] then map[]
    else
      var last := replies[|replies| - 1];
      ByKey(replies[..|replies| - 1])[last.key := last]
  }

  /** Each item takes its partition's reply, which is then gone. */
  function Matched(group: seq<Item>, answered: map<Key, Reply>): (r: PerItem<Item, ListedOffset>)
    ensures |r| == |group|
  {
    if group == [] then []
    else
      var item := group[0];
      [(item, if item.key in answered then Converted(answered[item.key]) else NOT_MENTIONED)]
      + Matched(group[1..], answered - {item.key})
  }

  /** No earlier item of the group asks about the same partition. */
  ghost predicate FirstOfKey(group: seq<Item>, j: nat)
    requires j < |group|
  {
    forall i | 0 <= i < j :: group[i].key != group[j].key
  }

  /** The first item of a partition takes the reply; any twin of it is told the
      response did not mention the partition. */
  lemma {:induction false} MatchedAt(group: seq<Item>, answered: map<Key, Reply>, j: nat)
    requires j < |group|
    ensures Matched(group, answered)[j].0 == group[j]
    ensures Matched(group, answered)[j].1
         == if group[j].key in answered && FirstOfKey(group, j) then Converted(answered[group[j].key]) else NOT_MENTIONED
  {
    if j > 0 {
      var rest, left := group[1..], answered - {group[0].key};
      MatchedAt(rest, left, j - 1);
      assert rest[j - 1] == group[j];
      assert FirstOfKey(group, j) <==> FirstOfKey(rest, j - 1) && group[0].key != group[j].key by {
        assert forall i | 0 <= i < j - 1 :: rest[i] == group[i + 1];
        assert forall i | 0 < i < j :: group[i] == rest[i - 1];
      }
    }
  }

  /** The reply that counts for a partition: the last one naming it. */
  ghost predicate LastNaming(replies: seq<Reply>, key: Key, i: nat) {
    i < |replies| && replies[i].key == key && forall j | i < j < |replies| :: replies[j].key != key
  }

  lemma {:induction false} ByKeyIsLast(replies: seq<Reply>, key: Key)
    ensures key !in ByKey(replies) ==> forall a <- replies :: a.key != key
    ensures key in ByKey(replies) ==> exists i: nat :: LastNaming(replies, key, i) && ByKey(replies)[key] == replies[i]
  {
    if replies != [] {
      var last := |replies| - 1;
      ByKeyIsLast(replies[..last], key);
      if replies[last].key == key {
        assert LastNaming(replies, key, last);
      } else if key in ByKey(replies) {
        var i: nat :| LastNaming(replies[..last], key, i) && ByKey(replies[..last])[key] == replies[..last][i];
        assert LastNaming(replies, key, i);
      }
    }
  }

  /** What a reply tells the caller: its error, or its own partition, offset, timestamp
      and leader epoch, each of the three only if it is not negative. */
  ghost predicate Says(a: Reply, o: Outcome<ListedOffset>) {
    if a.error.Some? then o == Err(Coded(a.error.value))
    else
      && o.Ok? && o.value.partition == a.key.partition
      && (if a.offset >= 0 then o.value.offset == Some(a.offset) else o.value.offset == None)
      && (if a.timestamp >= 0 then o.value.timestamp == Some(a.timestamp) else o.value.timestamp == None)
      && (if a.epoch >= 0 then o.value.epoch == Some(a.epoch) else o.value.epoch == None)
  }

  /** The last reply naming the partition decides; without one, the outcome is the
      unknown server error, code -1, which is final. */
  ghost predicate ReplyDecides(replies: seq<Reply>, key: Key, o: Outcome<ListedOffset>) {
    || (exists i: nat :: LastNaming(replies, key, i) && Says(replies[i], o))
    || ((forall a <- replies :: a.key != key) && o == Err(Coded(Code(-1, false, false))))
  }

  /** What matching a group against a leader's replies gives the j-th item. */
  lemma MatchedDecides(group: seq<Item>, replies: seq<Reply>, j: nat)
    requires j < |group|
    ensures Matched(group, ByKey(replies))[j].0 == group[j]
    ensures if FirstOfKey(group, j) then ReplyDecides(replies, group[j].key, Matched(group, ByKey(replies))[j].1)
            else Matched(group, ByKey(replies))[j].1 == Err(Coded(Code(-1, false, false)))
  {
    hide Matched;
    hide ByKey;
    MatchedAt(group, ByKey(replies), j);
    ByKeyIsLast(replies, group[j].key);
  }

  // ----------------------------------------------------------------------- one round

  /** An item and the leader found for it. */
  type Routed = (Item, Fallible<int>)

  function Resolved(c: Cluster, n: nat, subset: seq<Item>): (r: seq<Routed>)
    ensures |r| == |subset|
  {
    seq(|subset|, i requires 0 <= i < |subset| => (subset[i], c.leaderFor(n, i, subset[i].key)))
  }

  /** The items no leader was found for. */
  function Unrouted(routed: seq<Routed>): PerItem<Item, ListedOffset> {
    if routed == [] then []
    else
      var (item, leader) := routed[|routed| - 1];
      Unrouted(routed[..|routed| - 1]) + if leader.Bad? then [(item, Err(leader.error))] else []
  }

  function GroupOf(routed: seq<Routed>, leader: int): seq<Item> {
    if routed == [] then []
    else
      var (item, found) := routed[|routed| - 1];
      GroupOf(routed[..|routed| - 1], leader) + if found == Good(leader) then [item] else []
  }

  /** The leaders found, each once, in the order they were first found. */
  function Leaders(routed: seq<Routed>): seq<int> {
    if routed == [] then []
    else
      var found := routed[|routed| - 1].1;
      var front := Leaders(routed[..|routed| - 1]);
      front + if found.Good? && found.value !in front then [found.value] else []
  }

  function Asks(group: seq<Item>): seq<Ask> {
    seq(|group|, i requires 0 <= i < |group| => Ask(group[i].key, WireTimestamp(group[i].spec)))
  }

  function Failing(group: seq<Item>, error: Error): (r: PerItem<Item, ListedOffset>)
    ensures |r| == |group|
  {
    seq(|group|, i requires 0 <= i < |group| => (group[i], Err(error)))
  }

  function GroupOutcomes(c: Cluster, n: nat, leader: int, group: seq<Item>): PerItem<Item, ListedOffset> {
    match c.send(n, leader, Asks(group))
    case Good(replies) => Matched(group, ByKey(replies))
    case Bad(error) => Failing(group, error)
  }

  function AllGroups(c: Cluster, n: nat, routed: seq<Routed>, leaders: seq<int>): PerItem<Item, ListedOffset> {
    if leaders == [] then []
    else
      var last := leaders[|leaders| - 1];
      AllGroups(c, n, routed, leaders[..|leaders| - 1]) + GroupOutcomes(c, n, last, GroupOf(routed, last))
  }

  /** The round's outcomes. */
  function RoundOutcomes(c: Cluster, n: nat, subset: seq<Item>): PerItem<Item, ListedOffset> {
    var routed := Resolved(c, n, subset);
    Unrouted(routed) + AllGroups(c, n, routed, c.order(n, Leaders(routed)))
  }

  // ------------------------------------------------------------------- the whole call

  /** The round as the re-ask loop calls it. */
  function Closure(c: Cluster): World<Item, ListedOffset> {
    (n: nat, subset: seq<Item>) => Some(RoundOutcomes(c, n, subset))
  }

  /** A spec the negotiated version cannot express is not sent. */
  predicate Askable(item: Item, negotiated: Option<int>) {
    negotiated.None? || MinVersion(item.spec) <= negotiated.value
  }

  lemma AskableExact(item: Item, negotiated: Option<int>)
    ensures Askable(item, negotiated) <==> Expressible(item.spec, negotiated)
  {
  }

  function Askables(requests: seq<Item>, negotiated: Option<int>): seq<Item> {
    if requests == [] then []
    else
      var last := requests[|requests| - 1];
      Askables(requests[..|requests| - 1], negotiated) + if Askable(last, negotiated) then [last] else []
  }

  const UNSUPPORTED: Outcome<ListedOffset> := Err(Uncoded("unsupported"))

  function Refusals(requests: seq<Item>, negotiated: Option<int>): PerItem<Key, ListedOffset> {
    if requests == [] then []
    else
      var last := requests[|requests| - 1];
      Refusals(requests[..|requests| - 1], negotiated) + if Askable(last, negotiated) then [] else [(last.key, UNSUPPORTED)]
  }

  function Rekeyed(s: PerItem<Item, ListedOffset>): (r: PerItem<Key, ListedOffset>)
    ensures |r| == |s|
  {
    seq(|s|, i requires 0 <= i < |s| => (s[i].0.key, s[i].1))
  }

  function KeysOf(items: seq<Item>): (r: seq<Key>)
    ensures |r| == |items|
  {
    seq(|items|, i requires 0 <= i < |items| => items[i].key)
  }

  // ------------------------------------------------------------------------ the loops

  /** The replies by partition, and the loop that takes them out item by item. */
  method TakeReplies(group: seq<Item>, replies: seq<Reply>) returns (round: PerItem<Item, ListedOffset>)
    ensures round == Matched(group, ByKey(replies))
  {
    var answered: map<Key, Reply> := map[];
    for i := 0 to |replies|
      invariant answered == ByKey(replies[..i])
    {
      assert replies[..i + 1][..i] == replies[..i];
      answered := answered[replies[i].key := replies[i]];
    }
    assert replies[..|replies|] == replies;
    round := [];
    for i := 0 to |group|
      invariant round + Matched(group[i..], answered) == Matched(group, ByKey(replies))
    {
      var item := group[i];
      assert group[i..][1..] == group[i + 1..];
      var outcome := if item.key in answered then Converted(answered[item.key]) else NOT_MENTIONED;
      Associates(round, [(item, outcome)], Matched(group[i + 1..], answered - {item.key}));
      answered := answered - {item.key};
      round := round + [(item, outcome)];
    }
  }

  /** Every item of the group, in order, with what the replies decide for it: the first
      of a partition what they say of it, its twins that it was not mentioned. */
  ghost predicate Decided(group: seq<Item>, replies: seq<Reply>, round: PerItem<Item, ListedOffset>) {
    && |round| == |group|
    && forall j | 0 <= j < |group| ::
         && round[j].0 == group[j]
         && (if FirstOfKey(group, j) then ReplyDecides(replies, group[j].key, round[j].1)
             else round[j].1 == Err(Coded(Code(-1, false, false))))
  }

  /** One leader's response against the items asked of it. */
  method MatchReplies(group: seq<Item>, replies: seq<Reply>) returns (round: PerItem<Item, ListedOffset>)
    ensures Decided(group, replies, round)
    ensures round == Matched(group, ByKey(replies))
  {
    hide Matched;
    hide ByKey;
    hide ReplyDecides;
    hide FirstOfKey;
    round := TakeReplies(group, replies);
    forall j | 0 <= j < |group|
      ensures round[j].0 == group[j]
      ensures if FirstOfKey(group, j) then ReplyDecides(replies, group[j].key, round[j].1)
              else round[j].1 == Err(Coded(Code(-1, false, false)))
    {
      MatchedDecides(group, replies, j);
    }
  }

  /** Every leader found, and the items it leads in order. */
  ghost predicate GroupsBy(byLeader: map<int, seq<Item>>, leaders: seq<int>, routed: seq<Routed>) {
    && leaders == Leaders(routed)
    && (forall l :: l in leaders <==> l in byLeader)
    && (forall l :: GroupOf(routed, l) == if l in byLeader then byLeader[l] else [])
  }

  lemma RouteNothing()
    ensures GroupsBy(map[], [], [])
  {
  }

  lemma RouteOne(byLeader: map<int, seq<Item>>, leaders: seq<int>, routed: seq<Routed>, item: Item, leader: int)
    requires GroupsBy(byLeader, leaders, routed)
    ensures GroupsBy(byLeader[leader := (if leader in byLeader then byLeader[leader] else []) + [item]],
                     if leader in byLeader then leaders else leaders + [leader],
                     routed + [(item, Good(leader))])
  {
    hide GroupOf;
    hide Leaders;
    OneMoreRouted(routed, item, Good(leader));
  }

  lemma RouteNone(byLeader: map<int, seq<Item>>, leaders: seq<int>, routed: seq<Routed>, item: Item, error: Error)
    requires GroupsBy(byLeader, leaders, routed)
    ensures GroupsBy(byLeader, leaders, routed + [(item, Bad(error))])
  {
    hide GroupOf;
    hide Leaders;
    OneMoreRouted(routed, item, Bad(error));
  }

  lemma OneMoreRouted(routed: seq<Routed>, item: Item, found: Fallible<int>)
    ensures Leaders(routed + [(item, found)])
         == Leaders(routed) + if found.Good? && found.value !in Leaders(routed) then [found.value] else []
    ensures forall l :: GroupOf(routed + [(item, found)], l) == GroupOf(routed, l) + if found == Good(l) then [item] else []
    ensures Unrouted(routed + [(item, found)]) == Unrouted(routed) + if found.Bad? then [(item, Err(found.error))] else []
  {
    assert (routed + [(item, found)])[..|routed|] == routed;
  }

  method Route(c: Cluster, n: nat, subset: seq<Item>)
    returns (round: PerItem<Item, ListedOffset>, byLeader: map<int, seq<Item>>, leaders: seq<int>)
    ensures round == Unrouted(Resolved(c, n, subset))
    ensures GroupsBy(byLeader, leaders, Resolved(c, n, subset)) && leaders == Leaders(Resolved(c, n, subset))
  {
    hide GroupsBy;
    ghost var routed := Resolved(c, n, subset);
    round, byLeader, leaders := [], map[], [];
    RouteNothing();
    for i := 0 to |subset|
      invariant round == Unrouted(routed[..i])
      invariant GroupsBy(byLeader, leaders, routed[..i])
    {
      assert routed[..i + 1] == routed[..i] + [routed[i]];
      assert routed[..i + 1][..i] == routed[..i];
      var item := subset[i];
      match c.leaderFor(n, i, item.key)
      case Good(leader) =>
        RouteOne(byLeader, leaders, routed[..i], item, leader);
        if leader !in byLeader {
          leaders := leaders + [leader];
        }
        byLeader := byLeader[leader := (if leader in byLeader then byLeader[leader] else []) + [item]];
      case Bad(error) =>
        RouteNone(byLeader, leaders, routed[..i], item, error);
        round := round + [(item, Err(error))];
    }
    assert routed[..|subset|] == routed;
    LeadersFound(byLeader, leaders, routed);
  }

  lemma LeadersFound(byLeader: map<int, seq<Item>>, leaders: seq<int>, routed: seq<Routed>)
    requires GroupsBy(byLeader, leaders, routed)
    ensures leaders == Leaders(routed)
  {
  }

  method AskLeader(c: Cluster, n: nat, leader: int, group: seq<Item>) returns (outcomes: PerItem<Item, ListedOffset>)
    ensures outcomes == GroupOutcomes(c, n, leader, group)
  {
    match c.send(n, leader, Asks(group))
    case Good(replies) => outcomes := MatchReplies(group, replies);
    case Bad(error) => outcomes := Failing(group, error);
  }

  /** The round closure: resolve leaders, group by them, ask each. */
  method AskRound(c: Cluster, n: nat, subset: seq<Item>) returns (round: PerItem<Item, ListedOffset>)
    requires Iterates(c)
    ensures round == RoundOutcomes(c, n, subset)
  {
    hide GroupsBy;
    hide AllGroups;
    hide Unrouted;
    hide GroupOutcomes;
    NoGroups(c, n, Resolved(c, n, subset));
    var byLeader, leaders;
    round, byLeader, leaders := Route(c, n, subset);
    ghost var routed := Resolved(c, n, subset);
    var iterated := c.order(n, leaders);
    for i := 0 to |iterated|
      invariant round == Unrouted(routed) + AllGroups(c, n, routed, iterated[..i])
    {
      assert iterated[..i + 1] == iterated[..i] + [iterated[i]];
      Visited(c, n, leaders, iterated[i]);
      GroupFound(byLeader, leaders, routed, iterated[i]);
      OneMoreGroup(c, n, routed, iterated[..i], iterated[i]);
      var outcomes := AskLeader(c, n, iterated[i], byLeader[iterated[i]]);
      Associates(Unrouted(routed), AllGroups(c, n, routed, iterated[..i]), outcomes);
      round := round + outcomes;
    }
    assert iterated[..|iterated|] == iterated;
  }

  lemma GroupFound(byLeader: map<int, seq<Item>>, leaders: seq<int>, routed: seq<Routed>, leader: int)
    requires GroupsBy(byLeader, leaders, routed) && leader in leaders
    ensures leader in byLeader && byLeader[leader] == GroupOf(routed, leader)
  {
    assert GroupOf(routed, leader) == byLeader[leader];
  }

  lemma NoGroups(c: Cluster, n: nat, routed: seq<Routed>)
    ensures AllGroups(c, n, routed, []) == []
  {
  }

  lemma OneMoreGroup(c: Cluster, n: nat, routed: seq<Routed>, leaders: seq<int>, leader: int)
    ensures AllGroups(c, n, routed, leaders + [leader])
         == AllGroups(c, n, routed, leaders) + GroupOutcomes(c, n, leader, GroupOf(routed, leader))
  {
    assert (leaders + [leader])[..|leaders|] == leaders;
  }

  lemma Visited(c: Cluster, n: nat, leaders: seq<int>, leader: int)
    requires Iterates(c)
    ensures leader in c.order(n, leaders) <==> leader in leaders
  {
    assert leader in multiset(c.order(n, leaders)) <==> leader in multiset(leaders);
  }
}
