/** The whole ListOffsets call: every requested partition answered once, by the
    last round that asked about it. */
module ListedOffsets {
  import opened Options
  import opened Counting
  import opened Order
  import opened Reask
  import opened ReaskFacts
  import opened Offsets
  import opened OffsetsFacts

  // -------------------------------------------------------------------- counting keys

  /** Taking one item out takes its key out. */
  lemma Without(b: seq<Item>, p: nat, k: Key)
    requires p < |b|
    ensures multiset(b) == multiset(b[..p] + b[p + 1..]) + multiset{b[p]}
    ensures multiset(KeysOf(b))[k] == multiset(KeysOf(b[..p] + b[p + 1..]))[k] + if b[p].key == k then 1 else 0
  {
    var front, back := b[..p], b[p + 1..];
    assert b == front + ([b[p]] + back);
    assert KeysOf(b) == KeysOf(front) + ([b[p].key] + KeysOf(back));
    assert KeysOf(front + back) == KeysOf(front) + KeysOf(back);
    CountAppend(KeysOf(front), [b[p].key] + KeysOf(back), k);
    CountAppend([b[p].key], KeysOf(back), k);
    CountAppend(KeysOf(front), KeysOf(back), k);
  }

  lemma {:induction false} KeyCountMonotone(a: seq<Item>, b: seq<Item>, k: Key)
    requires multiset(a) <= multiset(b)
    ensures multiset(KeysOf(a))[k] <= multiset(KeysOf(b))[k]
  {
    hide KeysOf;
    if a == [] {
      NoKeys(k);
    } else {
      assert a[0] in multiset(a) && a[0] in multiset(b);
      var p := Found(b, a[0]);
      var fewer, rest := a[..0] + a[1..], b[..p] + b[p + 1..];
      Without(a, 0, k);
      Without(b, p, k);
      Cancel(multiset(fewer), multiset(rest), a[0]);
      KeyCountMonotone(fewer, rest, k);
    }
  }

  lemma NoKeys(k: Key)
    ensures multiset(KeysOf([]))[k] == 0
  {
  }

  lemma Found<E>(s: seq<E>, x: E) returns (p: nat)
    requires x in s
    ensures p < |s| && s[p] == x
  {
    p :| 0 <= p < |s| && s[p] == x;
  }

  // -------------------------------------------------------------- what a round tells an item

  /** The item at `at` is told what its leader, found in this very round, replies
      last about its partition to the one request the round sends it, which asks with
      the item's own timestamp. */
  ghost predicate Told(c: Cluster, n: nat, subset: seq<Item>, at: nat, o: Outcome<ListedOffset>)
    requires at < |subset|
  {
    var item := subset[at];
    match c.leaderFor(n, at, item.key)
    case Bad(error) => o == Err(error)
    case Good(leader) =>
      var asks := Asks(GroupOf(Resolved(c, n, subset), leader));
      && (exists stamp :: Ask(item.key, stamp) in asks && Stamps(item.spec, stamp))
      && match c.send(n, leader, asks)
         case Bad(error) => o == Err(error)
         case Good(replies) => ReplyDecides(replies, item.key, o)
  }

  lemma {:induction false} UnroutedMember(routed: seq<Routed>, e: (Item, Outcome<ListedOffset>)) returns (i: nat)
    requires e in Unrouted(routed)
    ensures i < |routed| && routed[i].0 == e.0 && routed[i].1.Bad? && e.1 == Err(routed[i].1.error)
  {
    var last := routed[|routed| - 1];
    if last.1.Bad? && e == (last.0, Err(last.1.error)) {
      i := |routed| - 1;
    } else {
      i := UnroutedMember(routed[..|routed| - 1], e);
    }
  }

  lemma {:induction false} AllGroupsMember(c: Cluster, n: nat, routed: seq<Routed>, leaders: seq<int>, e: (Item, Outcome<ListedOffset>))
    returns (leader: int)
    requires e in AllGroups(c, n, routed, leaders)
    ensures e in GroupOutcomes(c, n, leader, GroupOf(routed, leader))
  {
    var last := leaders[|leaders| - 1];
    if e in GroupOutcomes(c, n, last, GroupOf(routed, last)) {
      leader := last;
    } else {
      leader := AllGroupsMember(c, n, routed, leaders[..|leaders| - 1], e);
    }
  }

  lemma {:induction false} GroupMember(routed: seq<Routed>, leader: int, item: Item) returns (i: nat)
    requires item in GroupOf(routed, leader)
    ensures i < |routed| && routed[i] == (item, Good(leader))
  {
    var last := routed[|routed| - 1];
    if last == (item, Good(leader)) {
      i := |routed| - 1;
    } else {
      i := GroupMember(routed[..|routed| - 1], leader, item);
    }
  }

  lemma {:induction false} GroupWithin(routed: seq<Routed>, leader: int)
    ensures multiset(GroupOf(routed, leader)) <= multiset(ItemsOf(routed))
  {
    if routed != [] {
      var init, last := routed[..|routed| - 1], routed[|routed| - 1];
      GroupWithin(init, leader);
      assert ItemsOf(routed) == ItemsOf(init) + [last.0];
    }
  }

  /** What the j-th item of a leader's group is told: the first one of a partition
      what the leader replies, any twin that it was not mentioned. */
  ghost predicate GroupSays(c: Cluster, n: nat, leader: int, group: seq<Item>, j: nat, o: Outcome<ListedOffset>)
    requires j < |group|
  {
    match c.send(n, leader, Asks(group))
    case Bad(error) => o == Err(error)
    case Good(replies) =>
      if FirstOfKey(group, j) then ReplyDecides(replies, group[j].key, o) else o == Err(Coded(Code(-1, false, false)))
  }

  lemma GroupTells(c: Cluster, n: nat, leader: int, group: seq<Item>, item: Item, o: Outcome<ListedOffset>) returns (j: nat)
    requires (item, o) in GroupOutcomes(c, n, leader, group)
    ensures j < |group| && group[j] == item && GroupSays(c, n, leader, group, j, o)
  {
    GroupKeys(c, n, leader, group);
    var outcomes := GroupOutcomes(c, n, leader, group);
    j := Found(outcomes, (item, o));
    assert Keys(outcomes)[j] == item && group[j] == item;
    if c.send(n, leader, Asks(group)).Good? {
      var replies := c.send(n, leader, Asks(group)).value;
      MatchedDecides(group, replies, j);
    }
  }

  /** An item is told that it has no leader, or what its leader's group says of one of
      its places there. */
  ghost predicate Heard(c: Cluster, n: nat, subset: seq<Item>, item: Item, o: Outcome<ListedOffset>) {
    exists at: nat :: at < |subset| && subset[at] == item
      && match c.leaderFor(n, at, item.key)
         case Bad(error) => o == Err(error)
         case Good(leader) =>
           var group := GroupOf(Resolved(c, n, subset), leader);
           exists j: nat :: j < |group| && group[j] == item && GroupSays(c, n, leader, group, j, o)
  }

  /** Every outcome of a round, twins included, is what the item heard. */
  lemma RoundHears(c: Cluster, n: nat, subset: seq<Item>, item: Item, o: Outcome<ListedOffset>)
    requires (item, o) in RoundOutcomes(c, n, subset)
    ensures Heard(c, n, subset, item, o)
  {
    hide Unrouted;
    hide AllGroups;
    hide GroupOutcomes;
    hide GroupOf;
    hide GroupSays;
    var routed := Resolved(c, n, subset);
    if (item, o) in Unrouted(routed) {
      var at := UnroutedMember(routed, (item, o));
      assert subset[at] == item && c.leaderFor(n, at, item.key) == routed[at].1;
    } else {
      var leader := AllGroupsMember(c, n, routed, c.order(n, Leaders(routed)), (item, o));
      var j := GroupTells(c, n, leader, GroupOf(routed, leader), item, o);
      var at := GroupMember(routed, leader, item);
      assert subset[at] == item && c.leaderFor(n, at, item.key) == Good(leader);
    }
  }

  lemma OnlyIsFirst(group: seq<Item>, j: nat)
    requires j < |group| && multiset(KeysOf(group))[group[j].key] <= 1
    ensures FirstOfKey(group, j)
  {
    forall i | 0 <= i < j ensures group[i].key != group[j].key {
      if group[i].key == group[j].key {
        CountedTwice(KeysOf(group), i, j);
      }
    }
  }

  lemma HeardIsTold(c: Cluster, n: nat, subset: seq<Item>, at: nat, o: Outcome<ListedOffset>)
    requires at < |subset| && multiset(KeysOf(subset))[subset[at].key] <= 1
    requires Heard(c, n, subset, subset[at], o)
    ensures Told(c, n, subset, at, o)
  {
    hide GroupOf;
    hide ReplyDecides;
    hide KeysOf;
    var routed, item := Resolved(c, n, subset), subset[at];
    var i: nat :| i < |subset| && subset[i] == item
      && match c.leaderFor(n, i, item.key)
         case Bad(error) => o == Err(error)
         case Good(leader) =>
           var group := GroupOf(routed, leader);
           exists j: nat :: j < |group| && group[j] == item && GroupSays(c, n, leader, group, j, o);
    OnlyAt(subset, at, i);
    if c.leaderFor(n, at, item.key).Good? {
      var leader := c.leaderFor(n, at, item.key).value;
      var group := GroupOf(routed, leader);
      var j: nat :| j < |group| && group[j] == item && GroupSays(c, n, leader, group, j, o);
      GroupWithin(routed, leader);
      assert ItemsOf(routed) == subset;
      KeyCountMonotone(group, subset, item.key);
      OnlyIsFirst(group, j);
      assert Asks(group)[j] == Ask(item.key, WireTimestamp(item.spec));
    }
  }

  lemma DecidesOnce(replies: seq<Reply>, key: Key, a: Outcome<ListedOffset>, b: Outcome<ListedOffset>)
    requires ReplyDecides(replies, key, a) && ReplyDecides(replies, key, b)
    ensures a == b
  {
    forall i: nat, j: nat | LastNaming(replies, key, i) && LastNaming(replies, key, j) ensures i == j {
    }
    forall r: Reply | Says(r, a) && Says(r, b) ensures a == b {
    }
  }

  /** In a round asked once about a partition, the outcome its item gets is the one
      `Told` describes, and no other. */
  lemma RoundTells(c: Cluster, n: nat, subset: seq<Item>, at: nat, o: Outcome<ListedOffset>)
    requires Iterates(c) && at < |subset| && multiset(KeysOf(subset))[subset[at].key] <= 1
    ensures (subset[at], o) in RoundOutcomes(c, n, subset) <==> Told(c, n, subset, at, o)
  {
    hide RoundOutcomes;
    hide ReplyDecides;
    hide Heard;
    hide KeysOf;
    hide GroupOf;
    hide Iterates;
    var item, outcomes := subset[at], RoundOutcomes(c, n, subset);
    RoundConserves(c, n, subset);
    assert item in multiset(Keys(outcomes));
    KeyOf(outcomes, item);
    var given :| (item, given) in outcomes;
    RoundHears(c, n, subset, item, given);
    HeardIsTold(c, n, subset, at, given);
    if (item, o) in outcomes {
      RoundHears(c, n, subset, item, o);
      HeardIsTold(c, n, subset, at, o);
    }
    if Told(c, n, subset, at, o) {
      ToldOnce(c, n, subset, at, o, given);
    }
  }

  lemma ToldOnce(c: Cluster, n: nat, subset: seq<Item>, at: nat, a: Outcome<ListedOffset>, b: Outcome<ListedOffset>)
    requires at < |subset| && Told(c, n, subset, at, a) && Told(c, n, subset, at, b)
    ensures a == b
  {
    hide GroupOf;
    hide ReplyDecides;
    var item := subset[at];
    if c.leaderFor(n, at, item.key).Good? {
      var leader := c.leaderFor(n, at, item.key).value;
      var reply := c.send(n, leader, Asks(GroupOf(Resolved(c, n, subset), leader)));
      if reply.Good? {
        DecidesOnce(reply.value, item.key, a, b);
      }
    }
  }

  lemma OnlyAt(subset: seq<Item>, at: nat, i: nat)
    requires at < |subset| && i < |subset| && subset[i] == subset[at]
    requires multiset(KeysOf(subset))[subset[at].key] <= 1
    ensures i == at
  {
    if i != at {
      CountedTwice(KeysOf(subset), if i < at then i else at, if i < at then at else i);
    }
  }

  /** The request a round sends a leader: about exactly the items that leader was found
      for, each with its own timestamp. */
  lemma RequestExact(c: Cluster, n: nat, subset: seq<Item>, leader: int, key: Key, stamp: int)
    ensures Ask(key, stamp) in Asks(GroupOf(Resolved(c, n, subset), leader)) <==>
            exists at: nat :: at < |subset| && subset[at].key == key && Stamps(subset[at].spec, stamp)
              && c.leaderFor(n, at, key) == Good(leader)
  {
    hide GroupOf;
    var routed := Resolved(c, n, subset);
    var group := GroupOf(routed, leader);
    if Ask(key, stamp) in Asks(group) {
      var j :| 0 <= j < |group| && Asks(group)[j] == Ask(key, stamp);
      var at := GroupMember(routed, leader, group[j]);
      assert subset[at] == group[j] && c.leaderFor(n, at, key) == Good(leader);
    }
    if at: nat :| at < |subset| && subset[at].key == key && Stamps(subset[at].spec, stamp) && c.leaderFor(n, at, key) == Good(leader) {
      InItsGroup(routed, leader, at);
      var j :| 0 <= j < |group| && group[j] == subset[at];
      assert Asks(group)[j] == Ask(key, stamp);
    }
  }

  lemma {:induction false} InItsGroup(routed: seq<Routed>, leader: int, at: nat)
    requires at < |routed| && routed[at].1 == Good(leader)
    ensures routed[at].0 in GroupOf(routed, leader)
  {
    if at < |routed| - 1 {
      InItsGroup(routed[..|routed| - 1], leader, at);
    }
  }

  // ------------------------------------------------------------------------ the whole call

  /** What the call returns. */
  ghost function Listed(c: Cluster, requests: seq<Item>, negotiated: Option<int>, patience: nat): PerItem<Key, ListedOffset> {
    match Answer(Closure(c), Askables(requests, negotiated), false, 0, patience)
    case None => []
    case Some(asked) => Refusals(requests, negotiated) + Rekeyed(asked)
  }

  ghost function AskedRounds(c: Cluster, requests: seq<Item>, negotiated: Option<int>, patience: nat): seq<Round<Item, ListedOffset>> {
    Rounds(Closure(c), Askables(requests, negotiated), false, 0, patience)
  }

  lemma RoundsExact(c: Cluster, requests: seq<Item>, negotiated: Option<int>, patience: nat)
    requires Iterates(c)
    ensures AllExact(AskedRounds(c, requests, negotiated, patience))
  {
    hide Rounds;
    hide RoundOutcomes;
    hide Iterates;
    var rounds := AskedRounds(c, requests, negotiated, patience);
    forall i | 0 <= i < |rounds| ensures Exact(rounds[i]) {
      Chained<Item, ListedOffset>(Closure(c), Askables(requests, negotiated), false, 0, patience, i);
      RoundConserves(c, i, rounds[i].asked);
    }
  }

  lemma {:induction false} NeverFails(c: Cluster, asked: seq<Item>, spent: bool, n: nat, patience: nat)
    ensures Answer(Closure(c), asked, spent, n, patience).Some?
    decreases patience - n
  {
    hide RoundOutcomes;
    var outcomes := RoundOutcomes(c, n, asked);
    var kept := Kept(outcomes, spent);
    if kept != [] && n < patience {
      NeverFails(c, Keys(kept), spent || Spends(outcomes, spent), n + 1, patience);
    }
  }

  lemma RekeyedKeys(s: PerItem<Item, ListedOffset>)
    ensures Keys(Rekeyed(s)) == KeysOf(Keys(s))
  {
  }

  lemma {:induction false} RequestsSplit(requests: seq<Item>, negotiated: Option<int>, k: Key)
    ensures multiset(Keys(Refusals(requests, negotiated)))[k] + multiset(KeysOf(Askables(requests, negotiated)))[k]
         == multiset(KeysOf(requests))[k]
  {
    if requests != [] {
      var init, last := requests[..|requests| - 1], requests[|requests| - 1];
      RequestsSplit(init, negotiated, k);
      assert KeysOf(requests) == KeysOf(init) + [last.key];
      CountAppend(KeysOf(init), [last.key], k);
      if Askable(last, negotiated) {
        assert Refusals(requests, negotiated) == Refusals(init, negotiated);
        assert KeysOf(Askables(requests, negotiated)) == KeysOf(Askables(init, negotiated)) + [last.key];
        CountAppend(KeysOf(Askables(init, negotiated)), [last.key], k);
      } else {
        assert Askables(requests, negotiated) == Askables(init, negotiated);
        KeysAppend(Refusals(init, negotiated), [(last.key, UNSUPPORTED)]);
        assert Keys([(last.key, UNSUPPORTED)]) == [last.key];
        CountAppend(Keys(Refusals(init, negotiated)), [last.key], k);
      }
    }
  }

  /** One answer per request: the keys returned are the keys requested, each as
      often, whatever brokers answer and wherever leaders move. */
  lemma OneAnswerPerRequest(c: Cluster, requests: seq<Item>, negotiated: Option<int>, patience: nat)
    requires Iterates(c)
    ensures multiset(Keys(Listed(c, requests, negotiated, patience))) == multiset(KeysOf(requests))
  {
    hide Rounds;
    hide Answer;
    hide Iterates;
    var askables := Askables(requests, negotiated);
    RoundsExact(c, requests, negotiated, patience);
    NeverFails(c, askables, false, 0, patience);
    Conserved<Item, ListedOffset>(Closure(c), askables, false, 0, patience);
    var asked := Answer<Item, ListedOffset>(Closure(c), askables, false, 0, patience).value;
    var refused := Refusals(requests, negotiated);
    RekeyedKeys(asked);
    KeysAppend(refused, Rekeyed(asked));
    forall k ensures multiset(Keys(refused + Rekeyed(asked)))[k] == multiset(KeysOf(requests))[k] {
      CountAppend(Keys(refused), Keys(Rekeyed(asked)), k);
      RequestsSplit(requests, negotiated, k);
      KeyCountMonotone(Keys(asked), askables, k);
      KeyCountMonotone(askables, Keys(asked), k);
    }
  }

  /** What an entry of the result means: for a request the only one of its
      partition, either its spec is beyond the negotiated version, or the outcome
      is what the last round that asked it was told. */
  ghost predicate Explained(c: Cluster, requests: seq<Item>, negotiated: Option<int>, patience: nat, item: Item, o: Outcome<ListedOffset>) {
    var rounds := AskedRounds(c, requests, negotiated, patience);
    if !Expressible(item.spec, negotiated) then o == Err(Uncoded("unsupported"))
    else
      exists i: nat, at: nat ::
        && LastAsks(rounds, item, i) && i < |rounds| && (item, o) in rounds[i].outcomes
        && rounds[i].outcomes == RoundOutcomes(c, i, rounds[i].asked)
        && at < |rounds[i].asked| && rounds[i].asked[at] == item && Told(c, i, rounds[i].asked, at, o)
  }

  lemma {:induction false} AskableCount(requests: seq<Item>, negotiated: Option<int>, item: Item)
    ensures multiset(Askables(requests, negotiated))[item] == if Askable(item, negotiated) then multiset(requests)[item] else 0
  {
    hide Askable;
    if requests != [] {
      var init, last := requests[..|requests| - 1], requests[|requests| - 1];
      AskableCount(init, negotiated, item);
      CountLast(requests, item);
      CountAppend(Askables(init, negotiated), if Askable(last, negotiated) then [last] else [], item);
    }
  }

  lemma AskablesWithin(requests: seq<Item>, negotiated: Option<int>)
    ensures multiset(Askables(requests, negotiated)) <= multiset(requests)
    ensures forall item :: item in Askables(requests, negotiated) <==> item in requests && Askable(item, negotiated)
  {
    hide Askables;
    hide Askable;
    forall item
      ensures multiset(Askables(requests, negotiated))[item] <= multiset(requests)[item]
      ensures item in Askables(requests, negotiated) <==> item in requests && Askable(item, negotiated)
    {
      AskableCount(requests, negotiated, item);
      assert item in requests <==> item in multiset(requests);
      assert item in Askables(requests, negotiated) <==> item in multiset(Askables(requests, negotiated));
    }
  }

  lemma {:induction false} RefusedMember(requests: seq<Item>, negotiated: Option<int>, e: (Key, Outcome<ListedOffset>)) returns (item: Item)
    requires e in Refusals(requests, negotiated)
    ensures item in requests && item.key == e.0 && e.1 == UNSUPPORTED && !Askable(item, negotiated)
  {
    var last := requests[|requests| - 1];
    if !Askable(last, negotiated) && e == (last.key, UNSUPPORTED) {
      item := last;
    } else {
      item := RefusedMember(requests[..|requests| - 1], negotiated, e);
    }
  }

  lemma SameItem(requests: seq<Item>, a: Item, b: Item)
    requires a in requests && b in requests && a.key == b.key && multiset(KeysOf(requests))[a.key] <= 1
    ensures a == b
  {
    var i :| 0 <= i < |requests| && requests[i] == a;
    var j :| 0 <= j < |requests| && requests[j] == b;
    if i != j {
      CountedTwice(KeysOf(requests), if i < j then i else j, if i < j then j else i);
    }
  }

  /** An outcome of the re-asked part is what the last round that asked was told. */
  lemma AskedExplained(c: Cluster, requests: seq<Item>, negotiated: Option<int>, patience: nat, item: Item, o: Outcome<ListedOffset>)
    requires Iterates(c) && multiset(KeysOf(requests))[item.key] <= 1
    requires Answer<Item, ListedOffset>(Closure(c), Askables(requests, negotiated), false, 0, patience).Some?
    requires (item, o) in Answer<Item, ListedOffset>(Closure(c), Askables(requests, negotiated), false, 0, patience).value
    ensures item in requests && Askable(item, negotiated) && Explained(c, requests, negotiated, patience, item, o)
  {
    hide *;
    var askables := Askables(requests, negotiated);
    RoundsExact(c, requests, negotiated, patience);
    AnsweredAskable(c, requests, negotiated, patience, item, o);
    AskablesWithin(requests, negotiated);
    OnceEach(askables, requests, item);
    var i := LastRoundTells(c, requests, negotiated, patience, item, o);
    var at := RoundPosition(c, requests, negotiated, patience, item, o, i);
    ExplainedBy(c, requests, negotiated, patience, item, o, i, at);
  }

  lemma AnsweredAskable(c: Cluster, requests: seq<Item>, negotiated: Option<int>, patience: nat, item: Item, o: Outcome<ListedOffset>)
    requires AllExact(AskedRounds(c, requests, negotiated, patience))
    requires Answer<Item, ListedOffset>(Closure(c), Askables(requests, negotiated), false, 0, patience).Some?
    requires (item, o) in Answer<Item, ListedOffset>(Closure(c), Askables(requests, negotiated), false, 0, patience).value
    ensures item in Askables(requests, negotiated)
  {
    hide Rounds;
    hide Answer;
    hide Askables;
    hide AllExact;
    Conserved<Item, ListedOffset>(Closure(c), Askables(requests, negotiated), false, 0, patience);
    KeyIn(Answer<Item, ListedOffset>(Closure(c), Askables(requests, negotiated), false, 0, patience).value, item, o);
    assert item in multiset(Askables(requests, negotiated));
  }

  lemma LastRoundTells(c: Cluster, requests: seq<Item>, negotiated: Option<int>, patience: nat, item: Item, o: Outcome<ListedOffset>)
    returns (i: nat)
    requires AllExact(AskedRounds(c, requests, negotiated, patience))
    requires multiset(Askables(requests, negotiated))[item] == 1
    requires Answer<Item, ListedOffset>(Closure(c), Askables(requests, negotiated), false, 0, patience).Some?
    requires (item, o) in Answer<Item, ListedOffset>(Closure(c), Askables(requests, negotiated), false, 0, patience).value
    ensures var rounds := AskedRounds(c, requests, negotiated, patience);
            LastAsks(rounds, item, i) && i < |rounds| && (item, o) in rounds[i].outcomes
  {
    hide Rounds;
    hide Answer;
    hide Askables;
    hide AllExact;
    i := FromLastRound<Item, ListedOffset>(Closure(c), Askables(requests, negotiated), false, 0, patience, item, o);
  }

  lemma RoundPosition(c: Cluster, requests: seq<Item>, negotiated: Option<int>, patience: nat, item: Item, o: Outcome<ListedOffset>, i: nat)
    returns (at: nat)
    requires Iterates(c) && AllExact(AskedRounds(c, requests, negotiated, patience))
    requires multiset(KeysOf(requests))[item.key] <= 1
    requires var rounds := AskedRounds(c, requests, negotiated, patience);
             LastAsks(rounds, item, i) && i < |rounds| && (item, o) in rounds[i].outcomes
    ensures var rounds := AskedRounds(c, requests, negotiated, patience);
            && i < |rounds| && rounds[i].outcomes == RoundOutcomes(c, i, rounds[i].asked)
            && at < |rounds[i].asked| && rounds[i].asked[at] == item && Told(c, i, rounds[i].asked, at, o)
  {
    hide Rounds;
    hide Iterates;
    hide Askables;
    hide AllExact;
    hide Told;
    hide RoundOutcomes;
    hide SettledBefore;
    hide KeysOf;
    hide Keys;
    var askables := Askables(requests, negotiated);
    var rounds := AskedRounds(c, requests, negotiated, patience);
    Chained<Item, ListedOffset>(Closure(c), askables, false, 0, patience, i);
    PendingPlusSettled<Item, ListedOffset>(Closure(c), askables, patience, i);
    assert multiset(rounds[i].asked) <= multiset(askables);
    AskablesWithin(requests, negotiated);
    OnceEach(rounds[i].asked, requests, item);
    at :| 0 <= at < |rounds[i].asked| && rounds[i].asked[at] == item;
    RoundTells(c, i, rounds[i].asked, at, o);
  }

  lemma ExplainedBy(c: Cluster, requests: seq<Item>, negotiated: Option<int>, patience: nat, item: Item, o: Outcome<ListedOffset>, i: nat, at: nat)
    requires Askable(item, negotiated)
    requires var rounds := AskedRounds(c, requests, negotiated, patience);
             && LastAsks(rounds, item, i) && i < |rounds| && (item, o) in rounds[i].outcomes
             && rounds[i].outcomes == RoundOutcomes(c, i, rounds[i].asked)
             && at < |rounds[i].asked| && rounds[i].asked[at] == item && Told(c, i, rounds[i].asked, at, o)
    ensures Explained(c, requests, negotiated, patience, item, o)
  {
    hide Told;
  }

  lemma KeyAmong(s: seq<Item>, item: Item)
    ensures item in s ==> multiset(KeysOf(s))[item.key] >= 1
  {
    if item in s {
      var j :| 0 <= j < |s| && s[j] == item;
      assert KeysOf(s)[j] == item.key;
    }
  }

  lemma OnceEach(a: seq<Item>, b: seq<Item>, item: Item)
    requires multiset(a) <= multiset(b) && multiset(KeysOf(b))[item.key] <= 1
    ensures multiset(KeysOf(a))[item.key] <= 1
    ensures item in a ==> multiset(a)[item] == 1
  {
    KeyCountMonotone(a, b, item.key);
    if item in a {
      var i :| 0 <= i < |a| && a[i] == item;
      var rest := a[..i] + a[i + 1..];
      Without(a, i, item.key);
      KeyAmong(rest, item);
      assert item !in multiset(rest);
    }
  }

  /** Each value comes from the last round that asked that item. */
  lemma EveryEntryExplained(c: Cluster, requests: seq<Item>, negotiated: Option<int>, patience: nat, item: Item, o: Outcome<ListedOffset>)
    requires Iterates(c) && item in requests && multiset(KeysOf(requests))[item.key] == 1
    requires (item.key, o) in Listed(c, requests, negotiated, patience)
    ensures Explained(c, requests, negotiated, patience, item, o)
  {
    hide Rounds;
    hide Answer;
    hide Iterates;
    hide Explained;
    NeverFails(c, Askables(requests, negotiated), false, 0, patience);
    var asked := Answer<Item, ListedOffset>(Closure(c), Askables(requests, negotiated), false, 0, patience).value;
    if (item.key, o) in Refusals(requests, negotiated) {
      var refused := RefusedMember(requests, negotiated, (item.key, o));
      SameItem(requests, item, refused);
      RefusedExplained(c, requests, negotiated, patience, item);
    } else {
      var j :| 0 <= j < |asked| && Rekeyed(asked)[j] == (item.key, o);
      assert asked[j] in asked && asked[j] == (asked[j].0, o);
      AskedExplained(c, requests, negotiated, patience, asked[j].0, o);
      SameItem(requests, item, asked[j].0);
    }
  }

  lemma RefusedExplained(c: Cluster, requests: seq<Item>, negotiated: Option<int>, patience: nat, item: Item)
    requires !Askable(item, negotiated)
    ensures Explained(c, requests, negotiated, patience, item, UNSUPPORTED)
  {
  }

  /** What any entry means, whatever is requested twice: some request of that
      partition is beyond the negotiated version, or some round that asked one of them
      gave this outcome, finally or as the last round of the call, and it is what that
      item heard. */
  ghost predicate Sourced(c: Cluster, requests: seq<Item>, negotiated: Option<int>, patience: nat, key: Key, o: Outcome<ListedOffset>) {
    var rounds := AskedRounds(c, requests, negotiated, patience);
    || (o == Err(Uncoded("unsupported")) && exists item <- requests :: item.key == key && !Expressible(item.spec, negotiated))
    || exists item, i: nat ::
         && item in requests && item.key == key && Expressible(item.spec, negotiated)
         && i < |rounds| && item in rounds[i].asked && (item, o) in rounds[i].outcomes
         && (DisposedOutcome(o, rounds[i].spent).Settle? || i == |rounds| - 1)
         && Heard(c, i, rounds[i].asked, item, o)
  }

  lemma AskedSourced(c: Cluster, requests: seq<Item>, negotiated: Option<int>, patience: nat, item: Item, o: Outcome<ListedOffset>)
    requires Iterates(c)
    requires Answer<Item, ListedOffset>(Closure(c), Askables(requests, negotiated), false, 0, patience).Some?
    requires (item, o) in Answer<Item, ListedOffset>(Closure(c), Askables(requests, negotiated), false, 0, patience).value
    ensures Sourced(c, requests, negotiated, patience, item.key, o)
  {
    hide Rounds;
    hide Answer;
    hide Askables;
    hide Heard;
    hide RoundOutcomes;
    hide Iterates;
    hide AllExact;
    var askables, rounds := Askables(requests, negotiated), AskedRounds(c, requests, negotiated, patience);
    RoundsExact(c, requests, negotiated, patience);
    AnsweredAskable(c, requests, negotiated, patience, item, o);
    AskablesWithin(requests, negotiated);
    var i := EntryFromSomeRound<Item, ListedOffset>(Closure(c), askables, patience, (item, o));
    Chained<Item, ListedOffset>(Closure(c), askables, false, 0, patience, i);
    RoundConserves(c, i, rounds[i].asked);
    KeyIn(rounds[i].outcomes, item, o);
    assert item in multiset(rounds[i].asked);
    RoundHears(c, i, rounds[i].asked, item, o);
  }

  /** Every entry returned has its source, also for a partition requested twice. */
  lemma EveryEntrySourced(c: Cluster, requests: seq<Item>, negotiated: Option<int>, patience: nat, key: Key, o: Outcome<ListedOffset>)
    requires Iterates(c) && (key, o) in Listed(c, requests, negotiated, patience)
    ensures Sourced(c, requests, negotiated, patience, key, o)
  {
    hide Rounds;
    hide Answer;
    hide Iterates;
    hide Heard;
    NeverFails(c, Askables(requests, negotiated), false, 0, patience);
    var asked := Answer<Item, ListedOffset>(Closure(c), Askables(requests, negotiated), false, 0, patience).value;
    if (key, o) in Refusals(requests, negotiated) {
      var refused := RefusedMember(requests, negotiated, (key, o));
    } else {
      var j := Found(Rekeyed(asked), (key, o));
      assert asked[j] in asked && asked[j] == (asked[j].0, o);
      AskedSourced(c, requests, negotiated, patience, asked[j].0, o);
    }
  }

  /** An item is sent at all exactly when its spec can be expressed: then the first round
      asks it, and otherwise none does. */
  lemma SentIff(c: Cluster, requests: seq<Item>, negotiated: Option<int>, patience: nat, item: Item, i: nat)
    requires Iterates(c) && item in requests
    requires i < |AskedRounds(c, requests, negotiated, patience)|
    ensures var rounds := AskedRounds(c, requests, negotiated, patience);
            && (Expressible(item.spec, negotiated) <==> item in rounds[0].asked)
            && (!Expressible(item.spec, negotiated) ==> item !in rounds[i].asked)
  {
    hide Rounds;
    hide Iterates;
    hide Askables;
    hide AllExact;
    hide Expressible;
    hide SettledBefore;
    var askables, rounds := Askables(requests, negotiated), AskedRounds(c, requests, negotiated, patience);
    AskableExact(item, negotiated);
    AskablesWithin(requests, negotiated);
    RoundsExact(c, requests, negotiated, patience);
    Chained<Item, ListedOffset>(Closure(c), askables, false, 0, patience, i);
    PendingPlusSettled<Item, ListedOffset>(Closure(c), askables, patience, i);
    assert multiset(rounds[i].asked) <= multiset(askables);
    assert item in rounds[i].asked ==> item in multiset(rounds[i].asked) && item in multiset(askables);
  }

  // ------------------------------------------------------------------------ the method

  /** `list_offsets_with`. */
  method ListOffsetsWith(c: Cluster, requests: seq<Item>, negotiated: Option<int>, patience: nat)
    returns (results: PerItem<Key, ListedOffset>)
    requires Iterates(c)
    ensures results == Listed(c, requests, negotiated, patience)
    ensures multiset(Keys(results)) == multiset(KeysOf(requests))
    ensures forall item, o | item in requests && multiset(KeysOf(requests))[item.key] == 1 && (item.key, o) in results ::
              Explained(c, requests, negotiated, patience, item, o)
  {
    hide Explained;
    hide Listed;
    hide Iterates;
    results := [];
    var askable: seq<Item> := [];
    for i := 0 to |requests|
      invariant results == Refusals(requests[..i], negotiated)
      invariant askable == Askables(requests[..i], negotiated)
    {
      assert requests[..i + 1][..i] == requests[..i];
      var item := requests[i];
      if negotiated.Some? && MinVersion(item.spec) > negotiated.value {
        results := results + [(item.key, UNSUPPORTED)];
      } else {
        askable := askable + [item];
      }
    }
    assert requests[..|requests|] == requests;
    NeverFails(c, askable, false, 0, patience);
    var asked := PerItemRetrying(Closure(c), askable, patience);
    results := results + Rekeyed(asked.value);
    ListedIs(c, requests, negotiated, patience, asked.value);
    OneAnswerPerRequest(c, requests, negotiated, patience);
    forall item, o | item in requests && multiset(KeysOf(requests))[item.key] == 1 && (item.key, o) in results
      ensures Explained(c, requests, negotiated, patience, item, o)
    {
      EveryEntryExplained(c, requests, negotiated, patience, item, o);
    }
  }

  lemma ListedIs(c: Cluster, requests: seq<Item>, negotiated: Option<int>, patience: nat, asked: PerItem<Item, ListedOffset>)
    requires Answer(Closure(c), Askables(requests, negotiated), false, 0, patience) == Some(asked)
    ensures Listed(c, requests, negotiated, patience) == Refusals(requests, negotiated) + Rekeyed(asked)
  {
  }
}
