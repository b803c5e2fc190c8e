/** What the assignors promise member by member id, with the order of ids and every
    share spelled out. */
module MemberOrder {
  import opened Order
  import opened Group
  import opened Assignment
  import opened Modulo
  import Range = RangeAssignor
  import RoundRobin = RoundRobinAssignor
  import Sticky
  import StickyAssignor

  // ---------------------------------------------------------------------------- ranks

  /** The members whose id comes before `id`. */
  ghost function Ahead(ms: seq<Member>, id: string): set<Member> {
    set m | m in ms && Before(m.id, id)
  }

  lemma {:induction false} ElementsCount(ms: seq<Member>)
    requires DistinctIds(ms)
    ensures |set m | m in ms| == |ms|
  {
    if ms != [] {
      ElementsCount(ms[1..]);
      assert ms[0] !in ms[1..];
      assert (set m | m in ms) == (set m | m in ms[1..]) + {ms[0]};
    }
  }

  lemma NeverBoth(a: string, b: string)
    ensures StrLess(a, b) ==> a != b && !StrLess(b, a)
  {
    if StrLess(a, b) {
      StrAsymmetric(a, b);
    }
  }

  lemma SortedBefore(ms: seq<Member>, i: nat, j: nat)
    requires SortedById(ms) && i < |ms| && j < |ms|
    ensures Before(ms[i].id, ms[j].id) <==> i < j
  {
    StrLessExact(ms[i].id, ms[j].id);
    NeverBoth(ms[i].id, ms[j].id);
  }

  /** The place of a member in id order is the number of ids before its own. */
  lemma Rank(ms: seq<Member>, i: nat)
    requires SortedById(ms) && DistinctIds(ms) && i < |ms|
    ensures |Ahead(ms, ms[i].id)| == i
  {
    hide Before;
    forall j | 0 <= j < |ms| ensures Before(ms[j].id, ms[i].id) <==> j < i {
      SortedBefore(ms, j, i);
    }
    assert Ahead(ms, ms[i].id) == set m | m in ms[..i];
    ElementsCount(ms[..i]);
  }

  lemma SortedMembers(members: seq<Member>)
    requires DistinctIds(members)
    ensures var ms := SortById(members);
            && |ms| == |members| && SortedById(ms) && DistinctIds(ms)
            && forall m :: m in ms <==> m in members
  {
    SortByIdSorted(members);
    SameElements(members, SortById(members));
    DistinctByMultiset(members, SortById(members));
  }

  /** Sorting puts every member at the number of ids before its own. */
  lemma RankIn(members: seq<Member>, m: Member)
    requires DistinctIds(members) && m in members
    ensures |Ahead(members, m.id)| < |members|
    ensures SortById(members)[|Ahead(members, m.id)|] == m
  {
    hide Before;
    hide SortById;
    var ms := SortById(members);
    SortedMembers(members);
    var i :| 0 <= i < |ms| && ms[i] == m;
    Rank(ms, i);
    assert Ahead(ms, m.id) == Ahead(members, m.id);
  }

  // ---------------------------------------------------------------------------- range

  ghost function Subscribed(ms: seq<Member>, topic: string): set<Member> {
    set m | m in ms && topic in m.topics
  }

  /** What `range` gives a member of a topic it subscribes to: with `n` subscribers, of
      whom `i` have ids before its own, the consecutive partitions from
      `i * (count / n) + min(i, count % n)` on, `count / n` of them and one more for the
      first `count % n` members. */
  lemma RangeClosedForm(ms: seq<Member>, counts: Counts, j: nat, m: Member)
    requires DistinctIds(ms) && ValidCounts(counts) && j < |counts| && m in ms && counts[j].0 in m.topics
    requires |Subscribed(ms, counts[j].0)| <= 0x7fff_ffff
    ensures var topic, count := counts[j].0, counts[j].1;
            var n := |Subscribed(ms, topic)|;
            var i := |set x | x in Subscribed(ms, topic) && Before(x.id, m.id)|;
            var given := Partitions(Range.RangeFor(ms, counts, m.id), topic);
            && i < n
            && (count <= 0 ==> given == [])
            && (count > 0 ==>
                  && |given| == count / n + (if i < count % n then 1 else 0)
                  && forall p | 0 <= p < |given| ::
                       given[p] == i * (count / n) + (if i < count % n then i else count % n) + p)
  {
    hide Before;
    hide Range.RangeFor;
    hide Range.Subscribers;
    var topic, count := counts[j].0, counts[j].1;
    var subscribed := Range.Subscribers(ms, topic);
    Range.SubscribersDistinct(ms, topic);
    assert m in subscribed;
    var i :| 0 <= i < |subscribed| && subscribed[i] == m;
    Range.PositionAt(subscribed, i);
    Rank(subscribed, i);
    ElementsCount(subscribed);
    assert (set x | x in subscribed) == Subscribed(ms, topic);
    assert Ahead(subscribed, m.id) == set x | x in Subscribed(ms, topic) && Before(x.id, m.id);
    Range.RangeBlock(ms, counts, m.id, j);
    ShareIs(count, |subscribed|, i);
  }

  lemma ShareIs(count: int, n: nat, i: nat)
    requires i < n <= 0x7fff_ffff
    ensures count <= 0 ==> Range.Share(count, n, i) == []
    ensures count > 0 ==>
              && |Range.Share(count, n, i)| == count / n + (if i < count % n then 1 else 0)
              && forall p | 0 <= p < |Range.Share(count, n, i)| ::
                   Range.Share(count, n, i)[p] == i * (count / n) + (if i < count % n then i else count % n) + p
  {
    if count > 0 {
      Divided(count, n);
      Distributes(i, 1, count / n);
      Range.QuotientFacts(count, n);
      assert count / n >= 0;
    }
  }

  // ---------------------------------------------------------------------- round robin

  /** How many partitions the topics before the t-th have. */
  ghost function PartitionsBefore(counts: Counts, t: nat): nat
    requires t <= |counts|
  {
    if t == 0 then 0 else PartitionsBefore(counts, t - 1) + if counts[t - 1].1 > 0 then counts[t - 1].1 else 0
  }

  lemma {:induction false} LaidAt(counts: Counts, t: nat, p: nat)
    requires t < |counts| && p < counts[t].1
    ensures PartitionsBefore(counts, t) + p < |RoundRobin.Laid(counts)|
    ensures RoundRobin.Laid(counts)[PartitionsBefore(counts, t) + p] == Key(counts[t].0, p)
    ensures |RoundRobin.Laid(counts)| == PartitionsBefore(counts, |counts|)
    decreases |counts|
  {
    var n := |counts| - 1;
    LaidCount(counts);
    LaidCount(counts[..n]);
    PrefixCount(counts, n, t);
    PrefixCount(counts, n, n);
    if t < n {
      LaidAt(counts[..n], t, p);
    } else {
      TopicKeysAt(counts[n].0, counts[n].1, p);
    }
  }

  lemma TopicKeysAt(topic: string, count: int, p: nat)
    requires p < count
    ensures TopicKeys(topic, count)[p] == Key(topic, p)
  {
  }

  lemma {:induction false} LaidCount(counts: Counts)
    ensures |RoundRobin.Laid(counts)| == PartitionsBefore(counts, |counts|)
  {
    if counts != [] {
      LaidCount(counts[..|counts| - 1]);
      PrefixCount(counts, |counts| - 1, |counts| - 1);
    }
  }

  lemma {:induction false} PrefixCount(counts: Counts, n: nat, t: nat)
    requires t <= n <= |counts|
    ensures PartitionsBefore(counts[..n], t) == PartitionsBefore(counts, t)
  {
    if t > 0 {
      PrefixCount(counts, n, t - 1);
    }
  }

  /** When everybody subscribes to everything, partition `p` of the t-th topic is dealt to
      the member with as many ids before its own as the partition's place in the deal,
      counted over all topics, leaves modulo the number of members. */
  lemma {:induction false} RoundRobinClosedForm(members: seq<Member>, counts: Counts, t: nat, p: nat, m: Member)
    requires DistinctIds(members) && ValidCounts(counts) && t < |counts| && p < counts[t].1 && m in members
    requires forall x, c | x in members && c in counts :: c.0 in x.topics
    requires PartitionsBefore(counts, |counts|) < 0x1_0000_0000_0000_0000
    ensures var i := |Ahead(members, m.id)|;
            Lists(RoundRobin.Dealt(SortById(members), RoundRobin.Laid(counts), i), Key(counts[t].0, p))
            <==> i == (PartitionsBefore(counts, t) + p) % |members|
  {
    hide Before;
    hide SortById;
    hide RoundRobin.Laid;
    hide RoundRobin.Takers;
    hide RoundRobin.Turned;
    hide RoundRobin.Dealt;
    var ms, keys := SortById(members), RoundRobin.Laid(counts);
    var i, at := |Ahead(members, m.id)|, PartitionsBefore(counts, t) + p;
    SortedMembers(members);
    RankIn(members, m);
    LaidAt(counts, t, p);
    forall x, j | 0 <= x < |ms| && 0 <= j < |keys| ensures ms[x].SubscribesTo(keys[j].topic) {
      assert ms[x] in members && keys[j] in keys;
      RoundRobin.LaidExact(counts, keys[j]);
      var e :| 0 <= e < |counts| && counts[e].0 == keys[j].topic && 0 <= keys[j].partition < counts[e].1;
      assert counts[e] in counts;
    }
    RoundRobin.UniformRotation(ms, keys);
    RoundRobin.GetsAt(ms, counts, at, i);
  }

  // --------------------------------------------------------------- cooperative-sticky

  /** The resolved owner, by id: of the members that claim an existing partition of a
      topic they subscribe to, the one of the highest generation, and of several of that
      generation the one whose id comes first. */
  lemma OwnerById(members: seq<Member>, all: seq<Key>, k: Key, m: Member)
    requires DistinctIds(members) && k in all
    requires m in members && k in m.owned && k.topic in m.topics
    ensures var ms := SortById(members);
            var o := Sticky.Owner(ms, all, k);
            && o >= 0 && ms[o] in members && k in ms[o].owned && k.topic in ms[o].topics
            && (ms[o] == m || m.generation < ms[o].generation
                || (m.generation == ms[o].generation && Before(ms[o].id, m.id)))
  {
    hide Before;
    hide SortById;
    var ms := SortById(members);
    SortedMembers(members);
    var o := Sticky.OwnerUpTo(ms, all, |ms|, k);
    var i :| 0 <= i < |ms| && ms[i] == m;
    assert Sticky.Claims(ms[i], all, k);
    assert ms[o] in ms;
    SortedBefore(ms, o, i);
  }

  /** Who a free partition goes to, by id: of the subscribers the one holding least, and
      of several holding as little the one whose id comes first. */
  lemma EmptiestById(ms: seq<Member>, h: Sticky.Held, topic: string, i: nat)
    requires SortedById(ms) && |ms| == |h| && i < |ms| && topic in ms[i].topics
    ensures var e := Sticky.Emptiest(ms, h, topic);
            && 0 <= e < |ms| && topic in ms[e].topics
            && (e == i || |h[e]| < |h[i]| || (|h[e]| == |h[i]| && Before(ms[e].id, ms[i].id)))
  {
    hide Before;
    var e := Sticky.EmptiestUpTo(ms, h, topic, |ms|);
    SortedBefore(ms, e, i);
  }

  // ------------------------------------------------------------------ lists in order

  /** What cooperative-sticky hands a member of a topic is listed in ascending order, and
      is exactly what the round gives it of that topic. */
  lemma StickyLists(h: Sticky.Held, i: nat, t: string)
    requires i < |h|
    ensures var list := Partitions(StickyAssignor.Topics(h)[i], t);
            && (forall x, y | 0 <= x < y < |list| :: list[x] < list[y])
            && forall p :: p in list <==> Key(t, p) in h[i]
  {
    InKeyOrderAscends(h[i]);
    GroupedAscends(InKeyOrder(h[i]), t);
  }

  lemma {:induction false} LaidAscends(counts: Counts)
    requires ValidCounts(counts)
    ensures Ascending(RoundRobin.Laid(counts))
  {
    hide StrLess;
    if counts != [] {
      var n := |counts| - 1;
      var front, last := RoundRobin.Laid(counts[..n]), TopicKeys(counts[n].0, counts[n].1);
      LaidAscends(counts[..n]);
      forall k <- front ensures k.topic != counts[n].0 {
        RoundRobin.LaidExact(counts[..n], k);
        var i :| 0 <= i < n && counts[..n][i].0 == k.topic && 0 <= k.partition < counts[..n][i].1;
        NeverBoth(counts[i].0, counts[n].0);
      }
      forall p: nat | p < |last| ensures last[p] == Key(counts[n].0, p) {
        TopicKeysAt(counts[n].0, counts[n].1, p);
      }
    }
  }

  lemma {:induction false} PickedAscends(keys: seq<Key>, takers: seq<int>, i: int)
    requires |keys| == |takers| && Ascending(keys)
    ensures Ascending(RoundRobin.Picked(keys, takers, i))
  {
    if keys != [] {
      var n := |keys| - 1;
      PickedAscends(keys[..n], takers[..n], i);
      var front := RoundRobin.Picked(keys[..n], takers[..n], i);
      forall k <- front ensures k.topic == keys[n].topic ==> k.partition < keys[n].partition {
        var j :| 0 <= j < n && keys[..n][j] == k;
        assert keys[j] == k;
      }
    }
  }

  /** What round-robin deals a member of a topic is listed in ascending order. */
  lemma RoundRobinLists(ms: seq<Member>, counts: Counts, i: nat, t: string)
    requires ms != [] && ValidCounts(counts) && i < |ms|
    ensures var list := Partitions(RoundRobin.Dealt(ms, RoundRobin.Laid(counts), i), t);
            && (forall x, y | 0 <= x < y < |list| :: list[x] < list[y])
            && forall p :: p in list <==> RoundRobin.Gets(ms, counts, i, Key(t, p))
  {
    hide RoundRobin.Laid;
    hide RoundRobin.Takers;
    hide RoundRobin.Picked;
    hide Grouped;
    var keys := RoundRobin.Laid(counts);
    var picked := RoundRobin.Picked(keys, RoundRobin.Takers(ms, 0, keys), i);
    LaidAscends(counts);
    PickedAscends(keys, RoundRobin.Takers(ms, 0, keys), i);
    GroupedAscends(picked, t);
    forall p ensures p in Partitions(Grouped(picked), t) <==> Lists(Grouped(picked), Key(t, p)) {
      GroupedLists(picked, Key(t, p));
    }
  }
}
