/** One answer per requested partition, and whose answer it is. */
module OffsetsFacts {
  import opened Order
  import opened Counting
  import opened Reask
  import opened ReaskFacts
  import opened Offsets

  // --------------------------------------------------------------- matching, in closed form

  ghost predicate DistinctKeys(group: seq<Item>) {
    forall i, j | 0 <= i < j < |group| :: group[i].key != group[j].key
  }

  /** When the leader answers every partition of the group, every item gets its
      partition's reply if and only if no partition is asked about twice. */
  lemma AllAnsweredIffDistinct(group: seq<Item>, answered: map<Key, Reply>)
    requires forall item <- group :: item.key in answered && Converted(answered[item.key]) != NOT_MENTIONED
    ensures (forall j | 0 <= j < |group| :: Matched(group, answered)[j].1 == Converted(answered[group[j].key])) <==> DistinctKeys(group)
  {
    forall j | 0 <= j < |group|
      ensures group[j] in group
      ensures Matched(group, answered)[j].1 == Converted(answered[group[j].key]) <==> FirstOfKey(group, j)
    {
      MatchedAt(group, answered, j);
    }
    if forall j | 0 <= j < |group| :: FirstOfKey(group, j) {
      forall i, j | 0 <= i < j < |group|
        ensures group[i].key != group[j].key
      {
        assert FirstOfKey(group, j);
      }
    }
  }

  // ------------------------------------------------------------ one outcome per item asked

  lemma MatchedKeys(group: seq<Item>, answered: map<Key, Reply>)
    ensures Keys(Matched(group, answered)) == group
  {
    forall j | 0 <= j < |group| ensures Keys(Matched(group, answered))[j] == group[j] {
      MatchedAt(group, answered, j);
    }
  }

  lemma GroupKeys(c: Cluster, n: nat, leader: int, group: seq<Item>)
    ensures Keys(GroupOutcomes(c, n, leader, group)) == group
  {
    match c.send(n, leader, Asks(group))
    case Good(replies) => MatchedKeys(group, ByKey(replies));
    case Bad(error) => assert Keys(Failing(group, error)) == group;
  }

  /** The groups of the given leaders, one after the other. */
  ghost function Gathered(routed: seq<Routed>, leaders: seq<int>): seq<Item> {
    if leaders == [] then []
    else Gathered(routed, leaders[..|leaders| - 1]) + GroupOf(routed, leaders[|leaders| - 1])
  }

  lemma {:induction false} AllGroupsKeys(c: Cluster, n: nat, routed: seq<Routed>, leaders: seq<int>)
    ensures Keys(AllGroups(c, n, routed, leaders)) == Gathered(routed, leaders)
  {
    if leaders != [] {
      var init, last := leaders[..|leaders| - 1], leaders[|leaders| - 1];
      AllGroupsKeys(c, n, routed, init);
      GroupKeys(c, n, last, GroupOf(routed, last));
      KeysAppend(AllGroups(c, n, routed, init), GroupOutcomes(c, n, last, GroupOf(routed, last)));
    }
  }

  lemma {:induction false} GatherNone(leaders: seq<int>)
    ensures Gathered([], leaders) == []
  {
    if leaders != [] {
      GatherNone(leaders[..|leaders| - 1]);
    }
  }

  /** One more routed item joins the groups as often as its leader is listed. */
  lemma {:induction false} GatherOne(routed: seq<Routed>, item: Item, found: Fallible<int>, leaders: seq<int>, x: Item)
    ensures multiset(Gathered(routed + [(item, found)], leaders))[x]
         == multiset(Gathered(routed, leaders))[x] + if x == item && found.Good? then multiset(leaders)[found.value] else 0
  {
    hide GroupOf;
    hide Gathered;
    if leaders == [] {
      GatherNobody(routed);
      GatherNobody(routed + [(item, found)]);
    } else {
      var init, last := leaders[..|leaders| - 1], leaders[|leaders| - 1];
      GatherOne(routed, item, found, init, x);
      GatherLast(routed, leaders, x);
      GatherLast(routed + [(item, found)], leaders, x);
      GroupOne(routed, item, found, last, x);
      if found.Good? {
        CountLast(leaders, found.value);
      }
    }
  }

  lemma GroupOne(routed: seq<Routed>, item: Item, found: Fallible<int>, leader: int, x: Item)
    ensures multiset(GroupOf(routed + [(item, found)], leader))[x]
         == multiset(GroupOf(routed, leader))[x] + if x == item && found == Good(leader) then 1 else 0
  {
    hide GroupOf;
    OneMoreRouted(routed, item, found);
    CountAppend(GroupOf(routed, leader), if found == Good(leader) then [item] else [], x);
  }

  lemma GatherNobody(routed: seq<Routed>)
    ensures Gathered(routed, []) == []
  {
  }

  lemma GatherLast(routed: seq<Routed>, leaders: seq<int>, x: Item)
    requires leaders != []
    ensures multiset(Gathered(routed, leaders))[x]
         == multiset(Gathered(routed, leaders[..|leaders| - 1]))[x] + multiset(GroupOf(routed, leaders[|leaders| - 1]))[x]
  {
    CountAppend(Gathered(routed, leaders[..|leaders| - 1]), GroupOf(routed, leaders[|leaders| - 1]), x);
  }

  ghost function ItemsOf(routed: seq<Routed>): (r: seq<Item>)
    ensures |r| == |routed|
  {
    seq(|routed|, i requires 0 <= i < |routed| => routed[i].0)
  }

  lemma UnroutedOne(routed: seq<Routed>, item: Item, found: Fallible<int>, x: Item)
    ensures multiset(Keys(Unrouted(routed + [(item, found)])))[x]
         == multiset(Keys(Unrouted(routed)))[x] + if x == item && found.Bad? then 1 else 0
  {
    hide Unrouted;
    OneMoreRouted(routed, item, found);
    var more: PerItem<Item, ListedOffset> := if found.Bad? then [(item, Err(found.error))] else [];
    KeysAppend(Unrouted(routed), more);
    CountAppend(Keys(Unrouted(routed)), Keys(more), x);
    assert Keys(more) == if found.Bad? then [item] else [];
  }

  lemma ItemsOne(routed: seq<Routed>, item: Item, found: Fallible<int>, x: Item)
    ensures multiset(ItemsOf(routed + [(item, found)]))[x] == multiset(ItemsOf(routed))[x] + if x == item then 1 else 0
  {
    assert ItemsOf(routed + [(item, found)]) == ItemsOf(routed) + [item];
    CountAppend(ItemsOf(routed), [item], x);
  }

  /** Every item is either unrouted or in exactly one group. */
  lemma {:induction false} RoutedConserved(routed: seq<Routed>, leaders: seq<int>, x: Item)
    requires forall r <- routed | r.1.Good? :: multiset(leaders)[r.1.value] == 1
    ensures multiset(Keys(Unrouted(routed)))[x] + multiset(Gathered(routed, leaders))[x] == multiset(ItemsOf(routed))[x]
  {
    hide GroupOf;
    hide Gathered;
    if routed == [] {
      GatherNone(leaders);
    } else {
      var init, last := routed[..|routed| - 1], routed[|routed| - 1];
      assert routed == init + [(last.0, last.1)];
      RoutedConserved(init, leaders, x);
      GatherOne(init, last.0, last.1, leaders, x);
      UnroutedOne(init, last.0, last.1, x);
      ItemsOne(init, last.0, last.1, x);
    }
  }

  lemma {:induction false} LeaderAtMostOnce(routed: seq<Routed>, l: int)
    ensures multiset(Leaders(routed))[l] == if l in Leaders(routed) then 1 else 0
  {
    if routed != [] {
      var front, found := Leaders(routed[..|routed| - 1]), routed[|routed| - 1].1;
      LeaderAtMostOnce(routed[..|routed| - 1], l);
      CountAppend(front, if found.Good? && found.value !in front then [found.value] else [], l);
    }
  }

  lemma {:induction false} LeaderListed(routed: seq<Routed>, i: nat)
    requires i < |routed| && routed[i].1.Good?
    ensures routed[i].1.value in Leaders(routed)
  {
    if i < |routed| - 1 {
      LeaderListed(routed[..|routed| - 1], i);
    }
  }

  /** Whatever each broker answers, omits or adds, a round gives one outcome to
      each item it was asked about. */
  lemma RoundConserves(c: Cluster, n: nat, subset: seq<Item>)
    requires Iterates(c)
    ensures multiset(Keys(RoundOutcomes(c, n, subset))) == multiset(subset)
  {
    hide Leaders;
    hide Unrouted;
    hide AllGroups;
    var routed := Resolved(c, n, subset);
    var leaders := c.order(n, Leaders(routed));
    assert multiset(leaders) == multiset(Leaders(routed));
    forall r <- routed | r.1.Good? ensures multiset(leaders)[r.1.value] == 1 {
      var i :| 0 <= i < |routed| && routed[i] == r;
      LeaderListed(routed, i);
      LeaderAtMostOnce(routed, r.1.value);
    }
    AllGroupsKeys(c, n, routed, leaders);
    var a, b := Unrouted(routed), AllGroups(c, n, routed, leaders);
    KeysAppend(a, b);
    assert ItemsOf(routed) == subset;
    forall x ensures multiset(Keys(a + b))[x] == multiset(subset)[x] {
      RoutedConserved(routed, leaders, x);
      CountAppend(Keys(a), Keys(b), x);
    }
  }
}
