/** `assign_range`: contiguous blocks per topic, the remainder to the earliest
    members. */
module RangeAssignor {
  import opened Order
  import opened Group
  import opened Assignment

  const I32_MAX: int := 0x7fff_ffff

  /** `i32::try_from(n).unwrap_or(fallback)`. */
  function ToI32(n: nat, fallback: int): int {
    if n <= I32_MAX then n else fallback
  }

  /** Division and remainder as `i32` computes them, towards zero. */
  function Quotient(a: int, b: int): int
    requires b > 0
  {
    if a >= 0 then a / b else -((-a) / b)
  }

  function Remainder(a: int, b: int): int
    requires b > 0
  {
    a - b * Quotient(a, b)
  }

  function SaturatingAdd(a: int, b: int): int {
    if a + b > I32_MAX then I32_MAX else a + b
  }

  /** `(from..to).collect()`. */
  function Span(from: int, to: int): (r: seq<int>)
    ensures |r| == if from < to then to - from else 0
    ensures forall j | 0 <= j < |r| :: r[j] == from + j
    ensures forall p :: p in r <==> from <= p < to
  {
    var r := seq(if from < to then to - from else 0, j => from + j);
    assert forall p | from <= p < to :: p in r by {
      forall p | from <= p < to ensures p in r {
        assert r[p - from] == p;
      }
    }
    r
  }

  function Min(a: int, b: int): int {
    if a < b then a else b
  }

  // ------------------------------------------------------------------- one topic

  /** Where the block of the i-th of `n` subscribers starts: every earlier member
      took the quotient, and the first `count % n` of them one more. */
  function Start(count: int, n: nat, i: nat): int
    requires n > 0
  {
    if count <= 0 then 0
    else if n <= I32_MAX then i * Quotient(count, n) + Min(i, Remainder(count, n))
    else Min(i * count, I32_MAX)
  }

  /** The block itself. */
  function Share(count: int, n: nat, i: nat): seq<int>
    requires n > 0
  {
    Span(Start(count, n, i), Start(count, n, i + 1))
  }

  /** How many the member at `i` takes. */
  function Take(count: int, n: nat, i: nat): int
    requires n > 0
  {
    Quotient(count, ToI32(n, 1)) + if ToI32(i, 0) < Remainder(count, ToI32(n, 1)) then 1 else 0
  }

  lemma QuotientFacts(count: int, n: int)
    requires 0 <= count && 0 < n
    ensures Quotient(count, n) == count / n && Remainder(count, n) == count % n
    ensures 0 <= Quotient(count, n) && 0 <= Remainder(count, n) < n
  {
  }

  lemma TakeFits(count: int, n: nat, i: nat)
    requires i < n <= I32_MAX && 0 < count <= I32_MAX
    ensures Take(count, n, i) == Start(count, n, i + 1) - Start(count, n, i)
    ensures 0 <= Start(count, n, i) && Start(count, n, i + 1) <= count
  {
    QuotientFacts(count, n);
    BlockArithmetic(count, n, Quotient(count, n), Remainder(count, n), i);
  }

  lemma BlockArithmetic(count: int, n: nat, per: int, extra: int, i: nat)
    requires count == n * per + extra && 0 <= extra < n && 0 <= per && i < n
    ensures 0 <= i * per + Min(i, extra)
    ensures (i + 1) * per + Min(i + 1, extra) == i * per + Min(i, extra) + per + if i < extra then 1 else 0
    ensures (i + 1) * per + Min(i + 1, extra) <= count
  {
    MulMonotone(i + 1, n, per);
    MulMonotone(0, i, per);
    assert (i + 1) * per == i * per + per;
  }

  lemma TakeFallsBack(count: int, n: nat, i: nat)
    requires i < n && n > I32_MAX && 0 < count <= I32_MAX
    ensures Take(count, n, i) == count
    ensures Start(count, n, i + 1) == SaturatingAdd(Start(count, n, i), count)
  {
    assert Quotient(count, 1) == count && Remainder(count, 1) == 0;
    assert (i + 1) * count == i * count + count;
  }

  /** One turn of the member loop: the next block and where the one after starts. */
  lemma TakeStep(count: int, n: nat, i: nat)
    requires i < n && count <= I32_MAX
    ensures var take := Take(count, n, i);
            && (take <= 0 ==> Start(count, n, i + 1) <= Start(count, n, i))
            && (take > 0 ==> Start(count, n, i + 1) == SaturatingAdd(Start(count, n, i), take))
            && Start(count, n, i) <= Start(count, n, i + 1)
  {
    if count <= 0 {
      NoShare(count, ToI32(n, 1));
    } else if n <= I32_MAX {
      TakeFits(count, n, i);
    } else {
      TakeFallsBack(count, n, i);
      MulMonotone(i, i + 1, count);
    }
    StartMonotone(count, n, i, i + 1);
  }

  /** What one turn of the member loop deals, and where the next block starts. */
  lemma TurnTakes(count: int, n: nat, i: nat)
    requires i < n && count <= I32_MAX
    ensures var take, start := Take(count, n, i), Start(count, n, i);
            if take > 0 then
              && Share(count, n, i) == Span(start, SaturatingAdd(start, take))
              && Start(count, n, i + 1) == SaturatingAdd(start, take)
            else Share(count, n, i) == [] && Start(count, n, i + 1) == start
  {
    hide Start;
    hide Take;
    TakeStep(count, n, i);
  }

  lemma NoShare(count: int, n: int)
    requires count <= 0 < n
    ensures Quotient(count, n) <= 0 && Remainder(count, n) <= 0
  {
    assert (-count) / n >= 0;
    assert n * ((-count) / n) <= -count;
  }

  lemma MulMonotone(a: int, b: int, c: int)
    requires a <= b && c >= 0
    ensures a * c <= b * c
  {
  }

  lemma {:induction false} StartMonotone(count: int, n: nat, i: nat, j: nat)
    requires n > 0 && i <= j
    ensures Start(count, n, i) <= Start(count, n, j)
  {
    if count > 0 {
      QuotientFacts(count, n);
      MulMonotone(i, j, count);
      MulMonotone(i, j, Quotient(count, n));
    }
  }

  /** Blocks of different members never meet. */
  lemma SharesDisjoint(count: int, n: nat, i: nat, j: nat, p: int)
    requires n > 0 && p in Share(count, n, i) && p in Share(count, n, j)
    ensures i == j
  {
    if i < j {
      StartMonotone(count, n, i + 1, j);
    } else if j < i {
      StartMonotone(count, n, j + 1, i);
    }
  }

  lemma {:induction false} ShareFinds(count: int, n: nat, upTo: nat, p: int)
    requires n > 0 && 0 <= p < Start(count, n, upTo)
    ensures exists i :: 0 <= i < upTo && p in Share(count, n, i)
  {
    if upTo > 0 {
      if p < Start(count, n, upTo - 1) {
        ShareFinds(count, n, upTo - 1, p);
      } else {
        assert p in Share(count, n, upTo - 1);
      }
    }
  }

  ghost predicate Given(count: int, n: nat, p: int)
    requires n > 0
  {
    exists i :: 0 <= i < n && p in Share(count, n, i)
  }

  ghost predicate Tiles(count: int, n: nat)
    requires n > 0
  {
    forall p :: Given(count, n, p) <==> 0 <= p < count
  }

  /** The blocks tile the topic exactly when the member count fits an `i32`, or
      there is nothing to hand out, or a single block already saturates. */
  lemma TilesIff(count: int, n: nat)
    requires n > 0 && count <= I32_MAX
    ensures Tiles(count, n) <==> n <= I32_MAX || count <= 0 || count == I32_MAX
  {
    if n <= I32_MAX || count <= 0 || count == I32_MAX {
      EndsAtCount(count, n);
      forall p ensures Given(count, n, p) <==> 0 <= p < count {
        if 0 <= p < count {
          ShareFinds(count, n, n, p);
        }
        if i :| 0 <= i < n && p in Share(count, n, i) {
          StartMonotone(count, n, 0, i);
          StartMonotone(count, n, i + 1, n);
        }
      }
    } else {
      assert 1 * count == count && 2 * count == count + count;
      assert count in Share(count, n, 1);
      assert Given(count, n, count);
    }
  }

  lemma EndsAtCount(count: int, n: nat)
    requires n > 0 && (n <= I32_MAX || count <= 0 || count == I32_MAX)
    ensures Start(count, n, 0) == 0 && (count >= 0 ==> Start(count, n, n) == count)
    ensures count < 0 ==> Start(count, n, n) == 0
  {
    if count > 0 {
      QuotientFacts(count, n);
      MulMonotone(1, n, count);
    }
  }

  // ---------------------------------------------------------------- the whole call

  function Wanting(ms: seq<Member>, topic: string): (r: seq<Member>)
    ensures forall m :: m in r <==> m in ms && m.SubscribesTo(topic)
  {
    if ms == [] then []
    else (if ms[0].SubscribesTo(topic) then [ms[0]] else []) + Wanting(ms[1..], topic)
  }

  /** The topic's subscribers in id order. */
  function Subscribers(ms: seq<Member>, topic: string): seq<Member> {
    SortById(Wanting(ms, topic))
  }

  /** The position of `id`, or -1. */
  function Position(ms: seq<Member>, id: string): (r: int)
    ensures -1 <= r < |ms|
    ensures r >= 0 ==> ms[r].id == id
    ensures r < 0 ==> forall i | 0 <= i < |ms| :: ms[i].id != id
  {
    if ms == [] then -1
    else if ms[|ms| - 1].id == id then |ms| - 1
    else Position(ms[..|ms| - 1], id)
  }

  /** One topic's share added to a member's topics, when there is one. */
  function WithShare(m: ByTopic, ms: seq<Member>, topic: string, count: int, id: string): ByTopic {
    var subscribed := Subscribers(ms, topic);
    var i := Position(subscribed, id);
    if i < 0 || Share(count, |subscribed|, i) == [] then m
    else m[topic := Share(count, |subscribed|, i)]
  }

  /** Everything `range` gives the member `id`. */
  function RangeFor(ms: seq<Member>, counts: Counts, id: string): ByTopic {
    if counts == [] then map[]
    else
      var n := |counts| - 1;
      WithShare(RangeFor(ms, counts[..n], id), ms, counts[n].0, counts[n].1, id)
  }

  ghost predicate FitsI32(counts: Counts) {
    forall i | 0 <= i < |counts| :: counts[i].1 <= I32_MAX
  }

  /** A member's topics once the first `n` subscribers of `topic` had their turn. */
  ghost function Partway(m: ByTopic, subscribed: seq<Member>, topic: string, count: int, id: string, n: nat): ByTopic {
    var i := Position(subscribed, id);
    if i < 0 || i >= n || Share(count, |subscribed|, i) == [] then m
    else m[topic := Share(count, |subscribed|, i)]
  }

  lemma PartwayStep(m: ByTopic, subscribed: seq<Member>, topic: string, count: int, id: string, n: nat)
    requires n < |subscribed| && DistinctIds(subscribed)
    ensures Partway(m, subscribed, topic, count, id, n + 1) ==
            if id == subscribed[n].id && Share(count, |subscribed|, n) != []
            then Partway(m, subscribed, topic, count, id, n)[topic := Share(count, |subscribed|, n)]
            else Partway(m, subscribed, topic, count, id, n)
  {
    PositionAt(subscribed, n);
  }

  /** Every member's topics once the first `n` subscribers had their turn. */
  ghost predicate DealtUpTo(out: Assignments, out0: Assignments, subscribed: seq<Member>, topic: string, count: int, n: nat) {
    out.Keys == out0.Keys && forall id <- out0 :: out[id] == Partway(out0[id], subscribed, topic, count, id, n)
  }

  lemma DealtNext(out: Assignments, out0: Assignments, subscribed: seq<Member>, topic: string, count: int, n: nat)
    requires DealtUpTo(out, out0, subscribed, topic, count, n) && n < |subscribed| && DistinctIds(subscribed)
    requires subscribed[n].id in out0
    ensures var id, block := subscribed[n].id, Share(count, |subscribed|, n);
            && id in out
            && DealtUpTo(if block == [] then out else out[id := out[id][topic := block]], out0, subscribed, topic, count, n + 1)
  {
    hide Partway;
    hide Share;
    forall id <- out0
      ensures Partway(out0[id], subscribed, topic, count, id, n + 1) ==
              if id == subscribed[n].id && Share(count, |subscribed|, n) != []
              then out[id][topic := Share(count, |subscribed|, n)] else out[id]
    {
      PartwayStep(out0[id], subscribed, topic, count, id, n);
    }
  }

  /** The inner loop: one topic dealt out in blocks. */
  method DealTopic(subscribed: seq<Member>, topic: string, count: int, out0: Assignments) returns (out: Assignments)
    requires subscribed != [] && DistinctIds(subscribed) && count <= I32_MAX
    requires forall i | 0 <= i < |subscribed| :: subscribed[i].id in out0
    ensures out.Keys == out0.Keys
    ensures forall id <- out0 :: out[id] == Partway(out0[id], subscribed, topic, count, id, |subscribed|)
  {
    hide Partway;
    hide Start;
    hide Share;
    out := out0;
    var membersCount := ToI32(|subscribed|, 1);
    var perMember := Quotient(count, membersCount);
    var withExtra := Remainder(count, membersCount);
    var next := 0;
    var index := 0;
    PartwayStart(subscribed, topic, count);
    while index < |subscribed|
      invariant index <= |subscribed| && next == Start(count, |subscribed|, index)
      invariant DealtUpTo(out, out0, subscribed, topic, count, index)
    {
      var take := perMember + if ToI32(index, 0) < withExtra then 1 else 0;
      assert take == Take(count, |subscribed|, index);
      TurnTakes(count, |subscribed|, index);
      DealtNext(out, out0, subscribed, topic, count, index);
      if take > 0 {
        var block := Span(next, SaturatingAdd(next, take));
        next := SaturatingAdd(next, take);
        if block != [] {
          var id := subscribed[index].id;
          out := out[id := out[id][topic := block]];
        }
      }
      index := index + 1;
    }
  }

  lemma PartwayStart(subscribed: seq<Member>, topic: string, count: int)
    requires subscribed != []
    ensures Start(count, |subscribed|, 0) == 0
    ensures forall m: ByTopic, id :: Partway(m, subscribed, topic, count, id, 0) == m
  {
  }

  lemma {:induction false} PositionAt(ms: seq<Member>, i: nat)
    requires DistinctIds(ms) && i < |ms|
    ensures Position(ms, ms[i].id) == i
    ensures forall id | id != ms[i].id :: Position(ms, id) != i
  {
  }

  ghost function Ids(ms: seq<Member>): (r: set<string>)
    ensures forall m <- ms :: m.id in r
  {
    set m <- ms :: m.id
  }

  ghost predicate RangeUpTo(out: Assignments, ms: seq<Member>, counts: Counts, t: nat)
    requires t <= |counts|
  {
    out.Keys == Ids(ms) && forall id <- out :: out[id] == RangeFor(ms, counts[..t], id)
  }

  lemma RangeStep(out: Assignments, next: Assignments, ms: seq<Member>, counts: Counts, t: nat)
    requires t < |counts| && RangeUpTo(out, ms, counts, t) && next.Keys == out.Keys
    requires forall id <- out :: next[id] == WithShare(out[id], ms, counts[t].0, counts[t].1, id)
    ensures RangeUpTo(next, ms, counts, t + 1)
  {
    assert counts[..t + 1][..t] == counts[..t];
  }

  lemma DealtIsShare(out: Assignments, next: Assignments, ms: seq<Member>, topic: string, count: int)
    requires next.Keys == out.Keys
    requires Wanting(ms, topic) == [] ==> next == out
    requires var subscribed := Subscribers(ms, topic);
             Wanting(ms, topic) != [] ==>
               forall id <- out :: next[id] == Partway(out[id], subscribed, topic, count, id, |subscribed|)
    ensures forall id <- out :: next[id] == WithShare(out[id], ms, topic, count, id)
  {
  }

  method AssignRange(members: seq<Member>, counts: Counts) returns (out: Assignments)
    requires DistinctIds(members) && FitsI32(counts)
    ensures out.Keys == Ids(members)
    ensures forall id <- out :: out[id] == RangeFor(members, counts, id)
  {
    hide RangeUpTo;
    hide RangeFor;
    hide Ids;
    hide Partway;
    hide WithShare;
    hide Subscribers;
    hide Wanting;
    out := map m <- members :: m.id := map[];
    RangeNothing(out, members, counts);
    var t := 0;
    while t < |counts|
      invariant t <= |counts| && out.Keys == Ids(members)
      invariant RangeUpTo(out, members, counts, t)
    {
      var topic, count := counts[t].0, counts[t].1;
      ghost var before := out;
      if Wanting(members, topic) != [] {
        var subscribed := Subscribers(members, topic);
        SubscribersListed(members, topic);
        out := DealTopic(subscribed, topic, count, out);
      }
      DealtIsShare(before, out, members, topic, count);
      RangeStep(before, out, members, counts, t);
      t := t + 1;
    }
    RangeDone(out, members, counts);
  }

  lemma RangeNothing(out: Assignments, ms: seq<Member>, counts: Counts)
    requires forall id :: id in out <==> exists m <- ms :: m.id == id
    requires forall id <- out :: out[id] == map[]
    ensures out.Keys == Ids(ms) && RangeUpTo(out, ms, counts, 0)
  {
  }

  lemma RangeDone(out: Assignments, ms: seq<Member>, counts: Counts)
    requires RangeUpTo(out, ms, counts, |counts|)
    ensures forall id <- out :: out[id] == RangeFor(ms, counts, id)
  {
    assert counts[..|counts|] == counts;
  }

  lemma {:induction false} WantingDistinct(ms: seq<Member>, topic: string)
    requires DistinctIds(ms)
    ensures DistinctIds(Wanting(ms, topic))
  {
    if ms != [] {
      var rest := Wanting(ms[1..], topic);
      WantingDistinct(ms[1..], topic);
      forall i | 0 <= i < |rest| ensures rest[i].id != ms[0].id {
        assert rest[i] in ms[1..];
      }
    }
  }

  lemma SubscribersListed(ms: seq<Member>, topic: string)
    requires DistinctIds(ms)
    ensures DistinctIds(Subscribers(ms, topic))
    ensures Wanting(ms, topic) != [] ==> Subscribers(ms, topic) != []
    ensures forall i | 0 <= i < |Subscribers(ms, topic)| :: Subscribers(ms, topic)[i].id in Ids(ms)
  {
    SubscribersDistinct(ms, topic);
    var subscribed := Subscribers(ms, topic);
    forall i | 0 <= i < |subscribed| ensures subscribed[i].id in Ids(ms) {
      assert subscribed[i] in subscribed;
    }
  }

  lemma SubscribersDistinct(ms: seq<Member>, topic: string)
    requires DistinctIds(ms)
    ensures SortedById(Subscribers(ms, topic)) && DistinctIds(Subscribers(ms, topic))
    ensures forall m :: m in Subscribers(ms, topic) <==> m in ms && m.SubscribesTo(topic)
  {
    var wanting := Wanting(ms, topic);
    WantingDistinct(ms, topic);
    SortByIdSorted(wanting);
    SameElements(wanting, SortById(wanting));
    DistinctByMultiset(wanting, SortById(wanting));
  }

  // ------------------------------------------------------------------ what it means

  lemma {:induction false} RangeOther(ms: seq<Member>, counts: Counts, id: string, topic: string)
    requires forall j | 0 <= j < |counts| :: counts[j].0 != topic
    ensures topic !in RangeFor(ms, counts, id)
  {
    if counts != [] {
      RangeOther(ms, counts[..|counts| - 1], id, topic);
    }
  }

  /** What adding one topic's share does to the lists of each topic. */
  lemma SharePartitions(m: ByTopic, ms: seq<Member>, topic: string, count: int, id: string, t: string)
    ensures t != topic ==> Partitions(WithShare(m, ms, topic, count, id), t) == Partitions(m, t)
    ensures var subscribed := Subscribers(ms, topic); var i := Position(subscribed, id);
            Partitions(m, topic) == [] ==>
              Partitions(WithShare(m, ms, topic, count, id), topic) == if i < 0 then [] else Share(count, |subscribed|, i)
  {
    hide Subscribers;
    hide Position;
    hide Share;
  }

  /** The block `range` gives a member: the closed form, topic by topic. */
  lemma {:induction false} RangeBlock(ms: seq<Member>, counts: Counts, id: string, j: nat)
    requires ValidCounts(counts) && j < |counts|
    ensures var subscribed := Subscribers(ms, counts[j].0); var i := Position(subscribed, id);
            Partitions(RangeFor(ms, counts, id), counts[j].0) ==
            if i < 0 then [] else Share(counts[j].1, |subscribed|, i)
  {
    hide WithShare;
    hide Subscribers;
    hide Position;
    hide Share;
    hide StrLess;
    var n := |counts| - 1;
    var topic := counts[j].0;
    SharePartitions(RangeFor(ms, counts[..n], id), ms, counts[n].0, counts[n].1, id, topic);
    if j == n {
      forall x | 0 <= x < n ensures counts[x].0 != topic {
        StrAsymmetric(counts[x].0, counts[n].0);
      }
      RangeOther(ms, counts[..n], id, topic);
    } else {
      StrAsymmetric(topic, counts[n].0);
      RangeBlock(ms, counts[..n], id, j);
      assert counts[..n][j] == counts[j];
    }
  }

  /** The j-th topic lists `k`, if any does. */
  lemma RangeLists(ms: seq<Member>, counts: Counts, id: string, k: Key, j: nat)
    requires ValidCounts(counts) && j < |counts| && counts[j].0 == k.topic
    ensures var subscribed := Subscribers(ms, k.topic); var i := Position(subscribed, id);
            Lists(RangeFor(ms, counts, id), k) <==> i >= 0 && k.partition in Share(counts[j].1, |subscribed|, i)
  {
    RangeBlock(ms, counts, id, j);
    var m := RangeFor(ms, counts, id);
    assert Lists(m, k) <==> k.partition in Partitions(m, k.topic);
  }

  ghost predicate Gets(ms: seq<Member>, counts: Counts, i: int, k: Key) {
    0 <= i < |ms| && Lists(RangeFor(ms, counts, ms[i].id), k)
  }

  lemma RangeGets(ms: seq<Member>, counts: Counts, i: int, k: Key)
    requires DistinctIds(ms) && ValidCounts(counts) && Gets(ms, counts, i, k)
    ensures ms[i].SubscribesTo(k.topic)
    ensures exists j :: 0 <= j < |counts| && counts[j].0 == k.topic
  {
    hide Subscribers;
    hide RangeFor;
    hide Share;
    if forall j | 0 <= j < |counts| :: counts[j].0 != k.topic {
      RangeOther(ms, counts, ms[i].id, k.topic);
    } else {
      var j :| 0 <= j < |counts| && counts[j].0 == k.topic;
      RangeLists(ms, counts, ms[i].id, k, j);
      var subscribed := Subscribers(ms, k.topic);
      var p := Position(subscribed, ms[i].id);
      SubscribersDistinct(ms, k.topic);
      assert subscribed[p] in subscribed;
      var w :| 0 <= w < |ms| && ms[w] == subscribed[p];
      assert w == i;
    }
  }

  /** Two members never get the same partition. */
  lemma RangeExclusive(ms: seq<Member>, counts: Counts, a: int, b: int, k: Key)
    requires DistinctIds(ms) && ValidCounts(counts) && Gets(ms, counts, a, k) && Gets(ms, counts, b, k)
    ensures a == b
  {
    RangeGets(ms, counts, a, k);
    var j :| 0 <= j < |counts| && counts[j].0 == k.topic;
    RangeLists(ms, counts, ms[a].id, k, j);
    RangeLists(ms, counts, ms[b].id, k, j);
    var subscribed := Subscribers(ms, k.topic);
    SharesDisjoint(counts[j].1, |subscribed|, Position(subscribed, ms[a].id), Position(subscribed, ms[b].id), k.partition);
  }

  /** The topic's blocks come out right: its subscribers can be counted in an `i32`,
      or it has nothing to hand out, or one block saturates. */
  predicate Tileable(ms: seq<Member>, counts: Counts, topic: string) {
    forall j | 0 <= j < |counts| && counts[j].0 == topic ::
      |Subscribers(ms, topic)| <= I32_MAX || counts[j].1 <= 0 || counts[j].1 == I32_MAX
  }

  /** Nothing goes to two members, or to one that does not subscribe; and every
      partition of a wanted topic goes to somebody, and no other number does, for
      every topic whose blocks come out right. */
  lemma RangeExact(ms: seq<Member>, counts: Counts, k: Key)
    requires DistinctIds(ms) && ValidCounts(counts) && FitsI32(counts)
    ensures forall a, b | Gets(ms, counts, a, k) && Gets(ms, counts, b, k) :: a == b
    ensures forall a | Gets(ms, counts, a, k) :: ms[a].SubscribesTo(k.topic)
    ensures Tileable(ms, counts, k.topic) ==>
              ((exists i :: Gets(ms, counts, i, k)) <==> InCounts(counts, k) && AnySubscribes(ms, k.topic))
    ensures |ms| <= I32_MAX ==> Tileable(ms, counts, k.topic)
  {
    hide InCounts;
    hide AnySubscribes;
    forall a, b | Gets(ms, counts, a, k) && Gets(ms, counts, b, k) ensures a == b {
      RangeExclusive(ms, counts, a, b, k);
    }
    forall a | Gets(ms, counts, a, k) ensures ms[a].SubscribesTo(k.topic) {
      RangeGets(ms, counts, a, k);
    }
    SubscribersFit(ms, k.topic);
    if Tileable(ms, counts, k.topic) {
      RangeCovers(ms, counts, k);
    }
  }

  lemma RangeCovers(ms: seq<Member>, counts: Counts, k: Key)
    requires DistinctIds(ms) && ValidCounts(counts) && FitsI32(counts) && Tileable(ms, counts, k.topic)
    ensures (exists i :: Gets(ms, counts, i, k)) <==> InCounts(counts, k) && AnySubscribes(ms, k.topic)
  {
    if i :| Gets(ms, counts, i, k) {
      RangeSound(ms, counts, i, k);
    }
    if InCounts(counts, k) && AnySubscribes(ms, k.topic) {
      RangeComplete(ms, counts, k);
    }
  }

  lemma SubscribersFit(ms: seq<Member>, topic: string)
    ensures |Subscribers(ms, topic)| <= |ms|
  {
    WantingShorter(ms, topic);
  }

  lemma {:induction false} WantingShorter(ms: seq<Member>, topic: string)
    ensures |Wanting(ms, topic)| <= |ms|
  {
    if ms != [] {
      WantingShorter(ms[1..], topic);
    }
  }

  /** A partition number is handed out exactly when some block holds it. */
  lemma GivenToSomebody(ms: seq<Member>, counts: Counts, j: nat, p: int)
    requires DistinctIds(ms) && ValidCounts(counts) && FitsI32(counts)
    requires j < |counts| && AnySubscribes(ms, counts[j].0)
    ensures var n := |Subscribers(ms, counts[j].0)|;
            n > 0 && ((exists i :: Gets(ms, counts, i, Key(counts[j].0, p))) <==> Given(counts[j].1, n, p))
  {
    var topic, count := counts[j].0, counts[j].1;
    var k, subscribed := Key(topic, p), Subscribers(ms, topic);
    SubscribersDistinct(ms, topic);
    var m :| m in ms && m.SubscribesTo(topic);
    assert m in subscribed;
    if i :| Gets(ms, counts, i, k) {
      RangeGets(ms, counts, i, k);
      RangeLists(ms, counts, ms[i].id, k, j);
      assert Given(count, |subscribed|, p);
    }
    if Given(count, |subscribed|, p) {
      var at :| 0 <= at < |subscribed| && p in Share(count, |subscribed|, at);
      PositionAt(subscribed, at);
      assert subscribed[at] in subscribed;
      var i :| 0 <= i < |ms| && ms[i] == subscribed[at];
      RangeLists(ms, counts, ms[i].id, k, j);
      assert Gets(ms, counts, i, k);
    }
  }

  lemma RangeSound(ms: seq<Member>, counts: Counts, i: int, k: Key)
    requires DistinctIds(ms) && ValidCounts(counts) && FitsI32(counts) && Tileable(ms, counts, k.topic)
    requires Gets(ms, counts, i, k)
    ensures InCounts(counts, k) && AnySubscribes(ms, k.topic)
  {
    hide Given;
    RangeGets(ms, counts, i, k);
    assert ms[i] in ms;
    var j :| 0 <= j < |counts| && counts[j].0 == k.topic;
    GivenToSomebody(ms, counts, j, k.partition);
    TilesIff(counts[j].1, |Subscribers(ms, k.topic)|);
  }

  lemma RangeComplete(ms: seq<Member>, counts: Counts, k: Key)
    requires DistinctIds(ms) && ValidCounts(counts) && FitsI32(counts) && Tileable(ms, counts, k.topic)
    requires InCounts(counts, k) && AnySubscribes(ms, k.topic)
    ensures exists i :: Gets(ms, counts, i, k)
  {
    hide Given;
    hide Gets;
    var j :| 0 <= j < |counts| && counts[j].0 == k.topic && 0 <= k.partition < counts[j].1;
    GivenToSomebody(ms, counts, j, k.partition);
    TilesIff(counts[j].1, |Subscribers(ms, k.topic)|);
  }

  ghost predicate Handed(ms: seq<Member>, counts: Counts, k: Key) {
    exists i :: Gets(ms, counts, i, k)
  }

  /** The whole call hands out exactly a wanted topic's partitions if and only if its
      blocks come out right. */
  lemma RangeCoversIff(ms: seq<Member>, counts: Counts, j: nat)
    requires DistinctIds(ms) && ValidCounts(counts) && FitsI32(counts)
    requires j < |counts| && AnySubscribes(ms, counts[j].0)
    ensures (forall p :: Handed(ms, counts, Key(counts[j].0, p)) <==> 0 <= p < counts[j].1)
       <==> |Subscribers(ms, counts[j].0)| <= 0x7fff_ffff || counts[j].1 <= 0 || counts[j].1 == 0x7fff_ffff
  {
    hide Given;
    hide Gets;
    var n := |Subscribers(ms, counts[j].0)|;
    GivenToSomebody(ms, counts, j, 0);
    forall p
      ensures Handed(ms, counts, Key(counts[j].0, p)) <==> Given(counts[j].1, n, p)
      ensures Given(counts[j].1, n, p) <==> Handed(ms, counts, Key(counts[j].0, p))
    {
      GivenToSomebody(ms, counts, j, p);
    }
    TilesIff(counts[j].1, n);
    if forall p :: Handed(ms, counts, Key(counts[j].0, p)) <==> 0 <= p < counts[j].1 {
      forall p ensures Given(counts[j].1, n, p) <==> 0 <= p < counts[j].1 {
        assert Handed(ms, counts, Key(counts[j].0, p)) <==> 0 <= p < counts[j].1;
      }
    }
  }

  // ------------------------------------------------------------------- member order

  lemma {:induction false} WantingCount(ms: seq<Member>, topic: string, m: Member)
    ensures multiset(Wanting(ms, topic))[m] == if m.SubscribesTo(topic) then multiset(ms)[m] else 0
  {
    if ms != [] {
      WantingCount(ms[1..], topic, m);
      assert ms == [ms[0]] + ms[1..];
    }
  }

  lemma SubscribersPermuted(a: seq<Member>, b: seq<Member>, topic: string)
    requires DistinctIds(a) && multiset(a) == multiset(b)
    ensures Subscribers(a, topic) == Subscribers(b, topic)
  {
    forall m ensures multiset(Wanting(a, topic))[m] == multiset(Wanting(b, topic))[m] {
      WantingCount(a, topic, m);
      WantingCount(b, topic, m);
    }
    assert multiset(Wanting(a, topic)) == multiset(Wanting(b, topic));
    WantingDistinct(a, topic);
    SortPermuted(Wanting(a, topic), Wanting(b, topic));
  }

  /** The order in which members arrive does not matter. */
  lemma {:induction false} RangePermuted(a: seq<Member>, b: seq<Member>, counts: Counts, id: string)
    requires DistinctIds(a) && multiset(a) == multiset(b)
    ensures RangeFor(a, counts, id) == RangeFor(b, counts, id)
  {
    if counts != [] {
      var n := |counts| - 1;
      RangePermuted(a, b, counts[..n], id);
      SubscribersPermuted(a, b, counts[n].0);
    }
  }
}
