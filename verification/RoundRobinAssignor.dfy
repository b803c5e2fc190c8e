/** `assign_round_robin`: every partition dealt in rotation, skipping members that
    do not subscribe. */
module RoundRobinAssignor {
  import opened Order
  import opened Group
  import opened Assignment
  import opened Modulo

  /** `usize` on a 64-bit target; the cursor advances with `wrapping_add`. */
  const USIZE: int := 0x1_0000_0000_0000_0000

  function Wrapped(x: nat): nat {
    x % USIZE
  }

  function Next(cursor: nat): nat {
    Wrapped(cursor + 1)
  }

  /** Every partition of every topic, in the order the loops visit them. */
  function Laid(counts: Counts): seq<Key> {
    if counts == [] then []
    else Laid(counts[..|counts| - 1]) + TopicKeys(counts[|counts| - 1].0, counts[|counts| - 1].1)
  }

  /** The inner loop: who takes a partition of `topic`, or -1, and where the
      cursor stops; `looked` members have been passed over already. */
  function Scan(ms: seq<Member>, cursor: nat, topic: string, looked: nat): (r: (int, nat))
    requires looked <= |ms| && ms != []
    ensures -1 <= r.0 < |ms|
    ensures r.0 >= 0 ==> ms[r.0].SubscribesTo(topic)
    decreases |ms| - looked
  {
    if looked == |ms| then (-1, cursor)
    else if ms[cursor % |ms|].SubscribesTo(topic) then (cursor % |ms|, Next(cursor))
    else Scan(ms, Next(cursor), topic, looked + 1)
  }

  /** The cursor after dealing `keys`. */
  function Turned(ms: seq<Member>, cursor: nat, keys: seq<Key>): nat
    requires ms != []
  {
    if keys == [] then cursor
    else Scan(ms, Turned(ms, cursor, keys[..|keys| - 1]), keys[|keys| - 1].topic, 0).1
  }

  /** Who takes each of `keys`. */
  function Takers(ms: seq<Member>, cursor: nat, keys: seq<Key>): (r: seq<int>)
    requires ms != []
    ensures |r| == |keys|
  {
    if keys == [] then []
    else
      var front := keys[..|keys| - 1];
      Takers(ms, cursor, front) + [Scan(ms, Turned(ms, cursor, front), keys[|keys| - 1].topic, 0).0]
  }

  /** The keys member `i` took, in order. */
  function Picked(keys: seq<Key>, takers: seq<int>, i: int): (r: seq<Key>)
    requires |keys| == |takers|
    ensures forall k :: k in r <==> exists j :: 0 <= j < |keys| && keys[j] == k && takers[j] == i
  {
    if keys == [] then []
    else
      var n := |keys| - 1;
      var front := Picked(keys[..n], takers[..n], i);
      if takers[n] == i then front + [keys[n]] else front
  }

  function Dealt(ms: seq<Member>, keys: seq<Key>, i: int): ByTopic
    requires ms != []
  {
    Grouped(Picked(keys, Takers(ms, 0, keys), i))
  }

  ghost function DealtAll(ms: seq<Member>, keys: seq<Key>): (r: seq<ByTopic>)
    requires ms != []
    ensures |r| == |ms| && forall i | 0 <= i < |ms| :: r[i] == Dealt(ms, keys, i)
  {
    seq(|ms|, i => Dealt(ms, keys, i))
  }

  lemma DealtStep(ms: seq<Member>, keys: seq<Key>, k: Key, i: int)
    requires ms != []
    ensures Dealt(ms, keys + [k], i) ==
            if Scan(ms, Turned(ms, 0, keys), k.topic, 0).0 == i then Push(Dealt(ms, keys, i), k) else Dealt(ms, keys, i)
    ensures Turned(ms, 0, keys + [k]) == Scan(ms, Turned(ms, 0, keys), k.topic, 0).1
  {
    var all := keys + [k];
    assert all[..|keys|] == keys;
    var takers := Takers(ms, 0, all);
    assert takers[..|keys|] == Takers(ms, 0, keys);
    GroupedPush(Picked(keys, Takers(ms, 0, keys), i), k);
  }

  /** One partition dealt: pushed to whoever the scan finds, if anybody. */
  function DealtOne(ms: seq<Member>, cursor: nat, key: Key, out: Assignments): (nat, Assignments)
    requires ms != [] && forall i | 0 <= i < |ms| :: ms[i].id in out
  {
    var (taker, next) := Scan(ms, cursor, key.topic, 0);
    (next, if taker < 0 then out else out[ms[taker].id := Push(out[ms[taker].id], key)])
  }

  /** The `while looked < sorted.len()` loop. */
  method DealOne(ms: seq<Member>, cursor0: nat, key: Key, out0: Assignments)
    returns (cursor: nat, out: Assignments)
    requires ms != [] && forall i | 0 <= i < |ms| :: ms[i].id in out0
    ensures (cursor, out) == DealtOne(ms, cursor0, key, out0)
  {
    cursor, out := cursor0, out0;
    var looked := 0;
    while looked < |ms|
      invariant looked <= |ms| && out == out0
      invariant Scan(ms, cursor0, key.topic, 0) == Scan(ms, cursor, key.topic, looked)
    {
      var i := cursor % |ms|;
      cursor := Next(cursor);
      looked := looked + 1;
      if ms[i].SubscribesTo(key.topic) {
        out := out[ms[i].id := Push(out[ms[i].id], key)];
        return;
      }
    }
  }

  /** The loops' state once `keys` are dealt. */
  ghost predicate Dealing(out: Assignments, cursor: nat, ms: seq<Member>, keys: seq<Key>) {
    ms != [] && DistinctIds(ms) && Keyed(out, ms, DealtAll(ms, keys)) && cursor == Turned(ms, 0, keys)
  }

  method AssignRoundRobin(members: seq<Member>, counts: Counts) returns (out: Assignments)
    requires DistinctIds(members)
    ensures members == [] ==> out == map[]
    ensures members != [] ==> Keyed(out, SortById(members), DealtAll(SortById(members), Laid(counts)))
  {
    hide Keyed;
    hide DealtAll;
    var sorted := SortById(members);
    out := NoTopics(members, sorted);
    if sorted == [] {
      return;
    }
    var cursor := 0;
    var t := 0;
    DistinctByMultiset(members, sorted);
    DealingStart(out, sorted);
    hide Dealing;
    assert Laid(counts[..0]) == [];
    while t < |counts|
      invariant t <= |counts| && Dealing(out, cursor, sorted, Laid(counts[..t]))
    {
      cursor, out := DealTopic(sorted, cursor, counts, t, out);
      t := t + 1;
    }
    assert counts[..t] == counts;
    DealingDone(out, cursor, sorted, Laid(counts));
  }

  lemma DealingDone(out: Assignments, cursor: nat, ms: seq<Member>, keys: seq<Key>)
    requires Dealing(out, cursor, ms, keys)
    ensures ms != [] && Keyed(out, ms, DealtAll(ms, keys))
  {
  }

  method NoTopics(ghost members: seq<Member>, sorted: seq<Member>) returns (out: Assignments)
    requires DistinctIds(members) && sorted == SortById(members)
    ensures forall id :: id in out <==> exists i :: 0 <= i < |sorted| && sorted[i].id == id
    ensures forall id <- out :: out[id] == map[]
    ensures sorted == [] ==> out == map[]
  {
    out := map i | 0 <= i < |sorted| :: sorted[i].id := map[];
  }

  lemma DealingStart(out: Assignments, ms: seq<Member>)
    requires ms != [] && DistinctIds(ms)
    requires forall id :: id in out <==> exists i :: 0 <= i < |ms| && ms[i].id == id
    requires forall id <- out :: out[id] == map[]
    ensures Dealing(out, 0, ms, [])
  {
    forall i | 0 <= i < |ms| ensures DealtAll(ms, [])[i] == map[] {
    }
  }

  /** The keys laid before partition `p` of the t-th topic. */
  ghost function LaidTo(counts: Counts, t: nat, p: nat): seq<Key>
    requires t < |counts| && p <= |TopicKeys(counts[t].0, counts[t].1)|
  {
    Laid(counts[..t]) + TopicKeys(counts[t].0, counts[t].1)[..p]
  }

  lemma LaidEnds(counts: Counts, t: nat)
    requires t < |counts|
    ensures LaidTo(counts, t, 0) == Laid(counts[..t])
    ensures LaidTo(counts, t, |TopicKeys(counts[t].0, counts[t].1)|) == Laid(counts[..t + 1])
  {
    var keys := TopicKeys(counts[t].0, counts[t].1);
    assert keys[..|keys|] == keys;
    assert counts[..t + 1][..t] == counts[..t];
  }

  lemma LaidStep(counts: Counts, t: nat, p: nat)
    requires t < |counts| && p < counts[t].1
    ensures LaidTo(counts, t, p + 1) == LaidTo(counts, t, p) + [Key(counts[t].0, p)]
  {
    var keys := TopicKeys(counts[t].0, counts[t].1);
    assert keys[..p + 1] == keys[..p] + [keys[p]];
  }

  method DealTopic(ms: seq<Member>, cursor0: nat, counts: Counts, t: nat, out0: Assignments)
    returns (cursor: nat, out: Assignments)
    requires t < |counts| && Dealing(out0, cursor0, ms, Laid(counts[..t]))
    ensures Dealing(out, cursor, ms, Laid(counts[..t + 1]))
  {
    hide Dealing;
    hide LaidTo;
    hide Laid;
    hide DealtOne;
    cursor, out := cursor0, out0;
    var topic, count := counts[t].0, counts[t].1;
    LaidEnds(counts, t);
    var p := 0;
    while p < count
      invariant 0 <= p <= |TopicKeys(topic, count)|
      invariant Dealing(out, cursor, ms, LaidTo(counts, t, p))
    {
      LaidStep(counts, t, p);
      DealtKeyed(out, cursor, ms, LaidTo(counts, t, p), Key(topic, p));
      cursor, out := DealOne(ms, cursor, Key(topic, p), out);
      p := p + 1;
    }
  }

  lemma DealtAllStep(ms: seq<Member>, keys: seq<Key>, k: Key)
    requires ms != []
    ensures var taker := Scan(ms, Turned(ms, 0, keys), k.topic, 0).0; var before := DealtAll(ms, keys);
            DealtAll(ms, keys + [k]) == if taker < 0 then before else before[taker := Push(before[taker], k)]
  {
    hide Dealt;
    hide Scan;
    hide Turned;
    hide Push;
    var taker := Scan(ms, Turned(ms, 0, keys), k.topic, 0).0;
    var before, after := DealtAll(ms, keys), DealtAll(ms, keys + [k]);
    forall i | 0 <= i < |ms| ensures after[i] == if taker == i then Push(before[i], k) else before[i] {
      DealtStep(ms, keys, k, i);
    }
  }

  lemma DealtKeyed(out: Assignments, cursor: nat, ms: seq<Member>, keys: seq<Key>, k: Key)
    requires Dealing(out, cursor, ms, keys)
    ensures ms != [] && forall i | 0 <= i < |ms| :: ms[i].id in out
    ensures var (next, pushed) := DealtOne(ms, cursor, k, out); Dealing(pushed, next, ms, keys + [k])
  {
    hide Keyed;
    hide DealtAll;
    hide Scan;
    hide Push;
    var taker, before := Scan(ms, Turned(ms, 0, keys), k.topic, 0).0, DealtAll(ms, keys);
    KeyedValues(out, ms, before);
    DealtStep(ms, keys, k, 0);
    DealtAllStep(ms, keys, k);
    if taker >= 0 {
      KeyedUpdate(out, ms, before, taker, Push(before[taker], k));
    }
  }

  // --------------------------------------------------------------- what a scan finds

  /** Who the scan meets at its t-th look, the cursor wrapping at `w`. */
  function Met(w: nat, n: nat, cursor: nat, t: nat): (i: nat)
    requires w > 0 && n > 0
    ensures i < n
  {
    ((cursor + t) % w) % n
  }

  /** The t-th look is the first to meet a subscriber. */
  ghost predicate FirstMet(ms: seq<Member>, cursor: nat, topic: string, t: nat)
    requires ms != []
  {
    && ms[Met(USIZE, |ms|, cursor, t)].SubscribesTo(topic)
    && forall u: nat | u < t :: !ms[Met(USIZE, |ms|, cursor, u)].SubscribesTo(topic)
  }

  /** `r` is what at most `looks` looks from `cursor` find and where they leave the
      cursor: the first subscriber met, or nobody after all of them. */
  ghost predicate Finds(ms: seq<Member>, cursor: nat, topic: string, looks: nat, r: (int, nat))
    requires ms != []
  {
    if r.0 < 0 then
      && r.1 == Wrapped(cursor + looks)
      && forall t: nat | t < looks :: !ms[Met(USIZE, |ms|, cursor, t)].SubscribesTo(topic)
    else
      exists t: nat ::
        && t < looks && FirstMet(ms, cursor, topic, t)
        && r.0 == Met(USIZE, |ms|, cursor, t) && r.1 == Wrapped(cursor + t + 1)
  }

  /** Looking on from the next cursor is looking one further from this. */
  lemma MetNext(w: nat, n: nat, cursor: nat, t: nat)
    requires w > 0 && n > 0
    ensures Met(w, n, (cursor + 1) % w, t) == Met(w, n, cursor, t + 1)
  {
    Shift(cursor + 1, t, w);
    assert cursor + 1 + t == cursor + (t + 1);
  }

  lemma MetNow(ms: seq<Member>, cursor: nat)
    requires ms != [] && cursor < USIZE
    ensures Met(USIZE, |ms|, cursor, 0) == cursor % |ms|
  {
  }

  lemma WrappedOn(x: nat, t: nat)
    ensures Wrapped(Wrapped(x) + t) == Wrapped(x + t)
  {
    Shift(x, t, USIZE);
  }

  lemma MetOn(n: nat, cursor: nat)
    requires n > 0
    ensures forall t: nat :: Met(USIZE, n, Next(cursor), t) == Met(USIZE, n, cursor, t + 1)
    ensures forall u: nat | u > 0 :: Met(USIZE, n, cursor, u) == Met(USIZE, n, Next(cursor), u - 1)
  {
    forall t: nat ensures Met(USIZE, n, Next(cursor), t) == Met(USIZE, n, cursor, t + 1) {
      MetNext(USIZE, n, cursor, t);
    }
    forall u: nat | u > 0 ensures Met(USIZE, n, cursor, u) == Met(USIZE, n, Next(cursor), u - 1) {
      MetNext(USIZE, n, cursor, u - 1);
    }
  }

  /** What the looks after the first find, counted from the first. */
  lemma FindsOn(ms: seq<Member>, cursor: nat, topic: string, looks: nat, r: (int, nat))
    requires ms != [] && Finds(ms, Next(cursor), topic, looks, r) && !ms[Met(USIZE, |ms|, cursor, 0)].SubscribesTo(topic)
    ensures Finds(ms, cursor, topic, looks + 1, r)
  {
    hide Met;
    hide Wrapped;
    MetOn(|ms|, cursor);
    if r.0 >= 0 {
      var t: nat :| t < looks && FirstMet(ms, Next(cursor), topic, t)
        && r.0 == Met(USIZE, |ms|, Next(cursor), t) && r.1 == Wrapped(Next(cursor) + t + 1);
      WrappedOn(cursor + 1, t + 1);
      assert FirstMet(ms, cursor, topic, t + 1);
    } else {
      WrappedOn(cursor + 1, looks);
    }
  }

  /** The scan stops at the first subscriber it meets, and looks once per member when
      it meets none, wherever the cursor wraps. */
  lemma {:induction false} ScanExact(ms: seq<Member>, cursor: nat, topic: string, looked: nat)
    requires looked <= |ms| && ms != [] && cursor < USIZE
    ensures Finds(ms, cursor, topic, |ms| - looked, Scan(ms, cursor, topic, looked))
    decreases |ms| - looked
  {
    hide Met;
    if looked < |ms| {
      MetNow(ms, cursor);
      if ms[cursor % |ms|].SubscribesTo(topic) {
        assert FirstMet(ms, cursor, topic, 0);
      } else {
        ScanExact(ms, Next(cursor), topic, looked + 1);
        FindsOn(ms, cursor, topic, |ms| - looked - 1, Scan(ms, Next(cursor), topic, looked + 1));
      }
    }
  }

  /** A scan of `n` looks from here meets everybody. */
  predicate CompleteScan(n: nat, cursor: nat)
    requires n > 0
  {
    cursor + n <= USIZE || USIZE % n == 0
  }

  lemma MeetsAll(w: nat, n: nat, cursor: nat, i: nat) returns (t: nat)
    requires w > 0 && i < n && (cursor + n <= w || w % n == 0)
    ensures t < n && Met(w, n, cursor, t) == i
  {
    var c := Rotation(cursor, n, i);
    t := c - cursor;
    assert cursor + t == c;
    if w % n == 0 {
      Divides(c, n, w);
    } else {
      Small(c, w);
    }
  }

  /** A complete scan finds a taker exactly when somebody subscribes. */
  lemma ScanFinds(ms: seq<Member>, cursor: nat, topic: string)
    requires ms != [] && cursor < USIZE && CompleteScan(|ms|, cursor)
    ensures Scan(ms, cursor, topic, 0).0 >= 0 <==> AnySubscribes(ms, topic)
  {
    hide Met;
    ScanExact(ms, cursor, topic, 0);
    var taker := Scan(ms, cursor, topic, 0).0;
    if taker >= 0 {
      assert ms[taker] in ms;
    } else if AnySubscribes(ms, topic) {
      var m :| m in ms && m.SubscribesTo(topic);
      var i :| 0 <= i < |ms| && ms[i] == m;
      var t := MeetsAll(USIZE, |ms|, cursor, i);
    }
  }

  lemma ScanCursor(ms: seq<Member>, cursor: nat, topic: string)
    requires ms != [] && cursor < USIZE
    ensures Scan(ms, cursor, topic, 0).1 < USIZE && Scan(ms, cursor, topic, 0).1 <= cursor + |ms|
  {
    hide Scan;
    ScanExact(ms, cursor, topic, 0);
  }

  /** No more than one rotation per partition. */
  lemma {:induction false} TurnedBound(ms: seq<Member>, keys: seq<Key>)
    requires ms != []
    ensures Turned(ms, 0, keys) < USIZE && Turned(ms, 0, keys) <= |keys| * |ms|
  {
    hide Scan;
    if keys != [] {
      var front := keys[..|keys| - 1];
      assert |keys| * |ms| == |front| * |ms| + |ms|;
      TurnedBound(ms, front);
      ScanCursor(ms, Turned(ms, 0, front), keys[|keys| - 1].topic);
    }
  }

  /** Every scan of the deal is complete. */
  predicate Fits(n: nat, partitions: nat)
    requires n > 0
  {
    partitions * n <= USIZE || USIZE % n == 0
  }

  lemma FitsComplete(ms: seq<Member>, keys: seq<Key>, j: nat)
    requires ms != [] && j < |keys| && Fits(|ms|, |keys|)
    ensures CompleteScan(|ms|, Turned(ms, 0, keys[..j]))
  {
    hide Turned;
    TurnedBound(ms, keys[..j]);
    Distributes(j, 1, |ms|);
    Grows(j + 1, |keys|, |ms|);
  }

  lemma {:induction false} TakerAt(ms: seq<Member>, cursor: nat, keys: seq<Key>, j: nat)
    requires ms != [] && j < |keys|
    ensures Takers(ms, cursor, keys)[j] == Scan(ms, Turned(ms, cursor, keys[..j]), keys[j].topic, 0).0
  {
    hide Scan;
    var n := |keys| - 1;
    if j < n {
      TakerAt(ms, cursor, keys[..n], j);
      assert keys[..n][..j] == keys[..j];
    }
  }

  /** The j-th partition is only ever taken by a subscriber, and it is taken if there
      is one, provided its scan is complete, as all are in a deal that fits. */
  lemma TakerExact(ms: seq<Member>, keys: seq<Key>, j: nat)
    requires ms != [] && j < |keys|
    ensures var taker := Takers(ms, 0, keys)[j];
            && -1 <= taker < |ms|
            && (taker >= 0 ==> ms[taker].SubscribesTo(keys[j].topic) && AnySubscribes(ms, keys[j].topic))
            && (CompleteScan(|ms|, Turned(ms, 0, keys[..j])) ==> (taker >= 0 <==> AnySubscribes(ms, keys[j].topic)))
            && (Fits(|ms|, |keys|) ==> (taker >= 0 <==> AnySubscribes(ms, keys[j].topic)))
  {
    hide CompleteScan;
    var cursor := Turned(ms, 0, keys[..j]);
    TakerAt(ms, 0, keys, j);
    TurnedBound(ms, keys[..j]);
    if Fits(|ms|, |keys|) {
      FitsComplete(ms, keys, j);
    }
    if CompleteScan(|ms|, cursor) {
      ScanFinds(ms, cursor, keys[j].topic);
    }
    var taker := Takers(ms, 0, keys)[j];
    assert taker >= 0 ==> ms[taker] in ms;
  }

  /** Uniform subscriptions: the j-th partition overall goes to member j mod n, the
      count starting over at the wrap. */
  lemma {:induction false} UniformRotation(ms: seq<Member>, keys: seq<Key>)
    requires ms != []
    requires forall i, j | 0 <= i < |ms| && 0 <= j < |keys| :: ms[i].SubscribesTo(keys[j].topic)
    ensures Turned(ms, 0, keys) == Wrapped(|keys|)
    ensures forall j | 0 <= j < |keys| :: Takers(ms, 0, keys)[j] == Wrapped(j) % |ms|
    ensures forall j | 0 <= j < |keys| && j < 0x1_0000_0000_0000_0000 :: Takers(ms, 0, keys)[j] == j % |ms|
  {
    hide Wrapped;
    if keys == [] {
      WrappedSmall(0);
    } else {
      var n := |keys| - 1;
      UniformRotation(ms, keys[..n]);
      assert ms[Wrapped(n) % |ms|].SubscribesTo(keys[n].topic);
      WrappedOn(n, 1);
    }
    forall j | 0 <= j < |keys| && j < USIZE ensures Takers(ms, 0, keys)[j] == j % |ms| {
      WrappedSmall(j);
    }
  }

  lemma WrappedSmall(x: nat)
    requires x < USIZE
    ensures Wrapped(x) == x
  {
    Small(x, USIZE);
  }

  // ------------------------------------------------------------------ coverage

  lemma {:induction false} LaidExact(counts: Counts, k: Key)
    ensures k in Laid(counts) <==> InCounts(counts, k)
  {
    if counts != [] {
      var n := |counts| - 1;
      LaidExact(counts[..n], k);
      if InCounts(counts, k) {
        var i :| 0 <= i < |counts| && counts[i].0 == k.topic && 0 <= k.partition < counts[i].1;
        assert i == n || counts[..n][i] == counts[i];
      }
      if InCounts(counts[..n], k) {
        var i :| 0 <= i < n && counts[..n][i].0 == k.topic && 0 <= k.partition < counts[..n][i].1;
        assert counts[i].0 == k.topic;
      }
    }
  }

  lemma {:induction false} LaidDistinct(counts: Counts)
    requires ValidCounts(counts)
    ensures forall i, j | 0 <= i < j < |Laid(counts)| :: Laid(counts)[i] != Laid(counts)[j]
  {
    if counts != [] {
      var n := |counts| - 1;
      var front, last := Laid(counts[..n]), TopicKeys(counts[n].0, counts[n].1);
      LaidDistinct(counts[..n]);
      forall k <- front ensures k !in last {
        LaidExact(counts[..n], k);
        var i :| 0 <= i < n && counts[..n][i].0 == k.topic && 0 <= k.partition < counts[..n][i].1;
        StrAsymmetric(counts[i].0, counts[n].0);
      }
    }
  }

  ghost predicate Gets(ms: seq<Member>, counts: Counts, i: int, k: Key)
    requires ms != []
  {
    0 <= i < |ms| && Lists(Dealt(ms, Laid(counts), i), k)
  }

  /** `k` is one of the keys dealt to `i`. */
  ghost predicate Takes(keys: seq<Key>, takers: seq<int>, i: int, k: Key)
    requires |keys| == |takers|
  {
    exists j :: 0 <= j < |keys| && keys[j] == k && takers[j] == i
  }

  lemma PickedIff(keys: seq<Key>, takers: seq<int>, i: int, k: Key)
    requires |keys| == |takers|
    ensures k in Picked(keys, takers, i) <==> Takes(keys, takers, i, k)
  {
    hide Picked;
  }

  lemma GetsIsTaker(ms: seq<Member>, counts: Counts, i: int, k: Key)
    requires ms != []
    ensures Gets(ms, counts, i, k) <==> 0 <= i < |ms| && Takes(Laid(counts), Takers(ms, 0, Laid(counts)), i, k)
  {
    hide Takers;
    hide Laid;
    hide Takes;
    var keys := Laid(counts);
    var takers := Takers(ms, 0, keys);
    PickedIff(keys, takers, i, k);
    GroupedLists(Picked(keys, takers, i), k);
  }

  lemma GetsAt(ms: seq<Member>, counts: Counts, j: nat, a: int)
    requires ms != [] && ValidCounts(counts) && j < |Laid(counts)|
    ensures Gets(ms, counts, a, Laid(counts)[j]) <==> 0 <= a < |ms| && Takers(ms, 0, Laid(counts))[j] == a
  {
    hide Takers;
    hide Laid;
    hide Gets;
    LaidDistinct(counts);
    GetsIsTaker(ms, counts, a, Laid(counts)[j]);
  }

  /** Nothing goes to two members, to a member that does not subscribe, or to anybody
      from outside the counts; and every partition of a wanted topic goes to somebody
      in a deal that fits. */
  lemma RoundRobinExact(ms: seq<Member>, counts: Counts, k: Key)
    requires ValidCounts(counts) && ms != []
    ensures forall a, b | Gets(ms, counts, a, k) && Gets(ms, counts, b, k) :: a == b
    ensures forall a | Gets(ms, counts, a, k) :: ms[a].SubscribesTo(k.topic)
    ensures (exists i :: Gets(ms, counts, i, k)) ==> InCounts(counts, k) && AnySubscribes(ms, k.topic)
    ensures Fits(|ms|, |Laid(counts)|) ==>
              ((exists i :: Gets(ms, counts, i, k)) <==> InCounts(counts, k) && AnySubscribes(ms, k.topic))
  {
    hide Takers;
    hide Laid;
    hide AnySubscribes;
    hide Gets;
    hide InCounts;
    hide Fits;
    hide CompleteScan;
    var keys := Laid(counts);
    LaidExact(counts, k);
    if k in keys {
      var j :| 0 <= j < |keys| && keys[j] == k;
      TakerExact(ms, keys, j);
      var taker := Takers(ms, 0, keys)[j];
      forall a ensures Gets(ms, counts, a, k) <==> 0 <= a < |ms| && taker == a {
        GetsAt(ms, counts, j, a);
      }
      assert taker >= 0 ==> Gets(ms, counts, taker, k);
    } else {
      forall a ensures !Gets(ms, counts, a, k) {
        GetsIsTaker(ms, counts, a, k);
      }
    }
  }

  // ---------------------------------------------------- a topic nobody subscribes to

  lemma {:induction false} TurnedConcat(ms: seq<Member>, c: nat, a: seq<Key>, b: seq<Key>)
    requires ms != []
    ensures Turned(ms, c, a + b) == Turned(ms, Turned(ms, c, a), b)
    ensures Takers(ms, c, a + b) == Takers(ms, c, a) + Takers(ms, Turned(ms, c, a), b)
  {
    hide Scan;
    if b == [] {
      assert a + b == a;
    } else {
      var n, whole := |b| - 1, a + b;
      TurnedConcat(ms, c, a, b[..n]);
      assert whole[..|whole| - 1] == a + b[..n] && whole[|whole| - 1] == b[n];
    }
  }

  lemma {:induction false} PickedConcat(a: seq<Key>, s: seq<int>, b: seq<Key>, t: seq<int>, i: int)
    requires |a| == |s| && |b| == |t|
    ensures Picked(a + b, s + t, i) == Picked(a, s, i) + Picked(b, t, i)
  {
    if b == [] {
      assert a + b == a && s + t == s;
    } else {
      var n := |b| - 1;
      PickedConcat(a, s, b[..n], t[..n], i);
      assert (a + b)[..|a| + n] == a + b[..n] && (s + t)[..|a| + n] == s + t[..n];
    }
  }

  /** Nothing on the way from `cursor` disturbs the rotation: it stops short of the
      wrap, or the wrap is a whole number of rotations. */
  predicate Smooth(n: nat, cursor: nat, looks: nat)
    requires n > 0
  {
    cursor + looks < USIZE || USIZE % n == 0
  }

  lemma NextCongruent(c: nat, d: nat, n: nat)
    requires n > 0 && c % n == d % n && Smooth(n, c, 1) && Smooth(n, d, 1)
    ensures Next(c) % n == Next(d) % n
  {
    SuccessorCongruent(c, d, n);
    if USIZE % n == 0 {
      Divides(c + 1, n, USIZE);
      Divides(d + 1, n, USIZE);
    } else {
      Small(c + 1, USIZE);
      Small(d + 1, USIZE);
    }
  }

  lemma SmoothOn(n: nat, cursor: nat, looks: nat)
    requires n > 0 && looks > 0 && Smooth(n, cursor, looks)
    ensures Smooth(n, cursor, 1) && Smooth(n, Next(cursor), looks - 1)
  {
    if cursor + looks < USIZE {
      Small(cursor + 1, USIZE);
    }
  }

  /** Congruent cursors deal alike. */
  lemma {:induction false} ScanCongruent(ms: seq<Member>, c: nat, d: nat, topic: string, looked: nat)
    requires looked <= |ms| && ms != [] && c % |ms| == d % |ms|
    requires Smooth(|ms|, c, |ms| - looked) && Smooth(|ms|, d, |ms| - looked)
    ensures Scan(ms, c, topic, looked).0 == Scan(ms, d, topic, looked).0
    ensures Scan(ms, c, topic, looked).1 % |ms| == Scan(ms, d, topic, looked).1 % |ms|
    decreases |ms| - looked
  {
    hide Smooth;
    hide Next;
    if looked < |ms| {
      SmoothOn(|ms|, c, |ms| - looked);
      SmoothOn(|ms|, d, |ms| - looked);
      NextCongruent(c, d, |ms|);
      if !ms[c % |ms|].SubscribesTo(topic) {
        ScanCongruent(ms, Next(c), Next(d), topic, looked + 1);
      }
    }
  }

  lemma {:induction false} TurnedFrom(ms: seq<Member>, c: nat, keys: seq<Key>)
    requires ms != [] && c < USIZE
    ensures Turned(ms, c, keys) < USIZE && Turned(ms, c, keys) <= c + |keys| * |ms|
  {
    hide Scan;
    if keys != [] {
      var front := keys[..|keys| - 1];
      assert |keys| * |ms| == |front| * |ms| + |ms|;
      TurnedFrom(ms, c, front);
      ScanCursor(ms, Turned(ms, c, front), keys[|keys| - 1].topic);
    }
  }

  lemma {:induction false} TakersCongruent(ms: seq<Member>, c: nat, d: nat, keys: seq<Key>)
    requires ms != [] && c < USIZE && d < USIZE && c % |ms| == d % |ms|
    requires Smooth(|ms|, c, |keys| * |ms|) && Smooth(|ms|, d, |keys| * |ms|)
    ensures Takers(ms, c, keys) == Takers(ms, d, keys)
    ensures Turned(ms, c, keys) % |ms| == Turned(ms, d, keys) % |ms|
  {
    hide Scan;
    if keys != [] {
      var front := keys[..|keys| - 1];
      assert |keys| * |ms| == |front| * |ms| + |ms|;
      TakersCongruent(ms, c, d, front);
      TurnedFrom(ms, c, front);
      TurnedFrom(ms, d, front);
      ScanCongruent(ms, Turned(ms, c, front), Turned(ms, d, front), keys[|keys| - 1].topic, 0);
    }
  }

  /** Keys nobody wants turn the cursor one rotation each. */
  lemma {:induction false} UnwantedTurn(ms: seq<Member>, c: nat, keys: seq<Key>)
    requires ms != [] && c < USIZE && forall k <- keys :: !AnySubscribes(ms, k.topic)
    ensures Turned(ms, c, keys) == Wrapped(c + |keys| * |ms|)
    ensures forall j | 0 <= j < |keys| :: Takers(ms, c, keys)[j] == -1
  {
    hide Scan;
    if keys != [] {
      var front, last := keys[..|keys| - 1], keys[|keys| - 1];
      assert |keys| * |ms| == |front| * |ms| + |ms|;
      assert last in keys;
      UnwantedTurn(ms, c, front);
      UnwantedScan(ms, Turned(ms, c, front), last.topic);
      Shift(c + |front| * |ms|, |ms|, USIZE);
    }
  }

  lemma UnwantedScan(ms: seq<Member>, cursor: nat, topic: string)
    requires ms != [] && cursor < USIZE && !AnySubscribes(ms, topic)
    ensures Scan(ms, cursor, topic, 0) == (-1, (cursor + |ms|) % USIZE)
  {
    hide Scan;
    TakerSubscribes(ms, cursor, topic);
    ScanExact(ms, cursor, topic, 0);
  }

  lemma TakerSubscribes(ms: seq<Member>, cursor: nat, topic: string)
    requires ms != []
    ensures Scan(ms, cursor, topic, 0).0 >= 0 ==> AnySubscribes(ms, topic)
  {
    var taker := Scan(ms, cursor, topic, 0).0;
    if taker >= 0 {
      assert ms[taker] in ms;
    }
  }

  lemma {:induction false} PickedNone(keys: seq<Key>, takers: seq<int>, i: int)
    requires |keys| == |takers| && forall j | 0 <= j < |takers| :: takers[j] != i
    ensures Picked(keys, takers, i) == []
  {
    if keys != [] {
      PickedNone(keys[..|keys| - 1], takers[..|keys| - 1], i);
    }
  }

  /** The cursor after keys nobody wants deals the rest as if they were not there. */
  lemma UnwantedCursor(ms: seq<Member>, a: seq<Key>, unwanted: seq<Key>, b: seq<Key>)
    requires ms != [] && Smooth(|ms|, 0, |a + unwanted + b| * |ms|)
    requires forall k <- unwanted :: !AnySubscribes(ms, k.topic)
    ensures var mid := Turned(ms, 0, a);
            && Takers(ms, Turned(ms, mid, unwanted), b) == Takers(ms, mid, b)
            && forall j | 0 <= j < |unwanted| :: Takers(ms, mid, unwanted)[j] == -1
  {
    hide Turned;
    hide Takers;
    hide Smooth;
    hide AnySubscribes;
    var mid := Turned(ms, 0, a);
    TurnedFrom(ms, 0, a);
    TurnedFrom(ms, mid, unwanted);
    UnwantedTurn(ms, mid, unwanted);
    CursorRoom(|ms|, |a|, |unwanted|, |b|, mid, Turned(ms, mid, unwanted));
    WholeRotations(mid, |unwanted|, |ms|);
    TakersCongruent(ms, mid, Turned(ms, mid, unwanted), b);
  }

  lemma WholeRotations(c: nat, turns: nat, n: nat)
    requires n > 0 && Smooth(n, c, turns * n)
    ensures ((c + turns * n) % USIZE) % n == c % n
  {
    Rotations(c, turns, n);
    if USIZE % n == 0 {
      Divides(c + turns * n, n, USIZE);
    } else {
      Small(c + turns * n, USIZE);
    }
  }

  /** Dropping keys nobody wants, anywhere in the deal, changes nothing for anybody. */
  lemma UnwantedKeys(ms: seq<Member>, a: seq<Key>, unwanted: seq<Key>, b: seq<Key>, i: nat)
    requires ms != [] && Smooth(|ms|, 0, |a + unwanted + b| * |ms|)
    requires forall k <- unwanted :: !AnySubscribes(ms, k.topic)
    ensures Dealt(ms, a + unwanted + b, i) == Dealt(ms, a + b, i)
  {
    hide Turned;
    hide Takers;
    hide Picked;
    hide Grouped;
    hide AnySubscribes;
    var mid := Turned(ms, 0, a);
    var after := Turned(ms, mid, unwanted);
    UnwantedCursor(ms, a, unwanted, b);
    TurnedConcat(ms, 0, a, unwanted);
    TurnedConcat(ms, 0, a + unwanted, b);
    TurnedConcat(ms, 0, a, b);
    PickedConcat(a, Takers(ms, 0, a), unwanted, Takers(ms, mid, unwanted), i);
    PickedConcat(a + unwanted, Takers(ms, 0, a + unwanted), b, Takers(ms, after, b), i);
    PickedConcat(a, Takers(ms, 0, a), b, Takers(ms, mid, b), i);
    PickedNone(unwanted, Takers(ms, mid, unwanted), i);
    var first, rest := Picked(a, Takers(ms, 0, a), i), Picked(b, Takers(ms, mid, b), i);
    assert first + [] + rest == first + rest;
  }

  /** A deal that is smooth as a whole is smooth part by part. */
  lemma CursorRoom(n: nat, a: nat, unwanted: nat, b: nat, mid: nat, after: nat)
    requires n > 0 && Smooth(n, 0, (a + unwanted + b) * n) && mid <= a * n && after <= mid + unwanted * n
    ensures Smooth(n, mid, unwanted * n) && Smooth(n, mid, b * n) && Smooth(n, after, b * n)
  {
    Distributes(a + unwanted, b, n);
    Distributes(a, unwanted, n);
    Grows(0, b, n);
    Grows(0, unwanted, n);
  }

  lemma {:induction false} LaidConcat(a: Counts, b: Counts)
    ensures Laid(a + b) == Laid(a) + Laid(b)
  {
    hide TopicKeys;
    if b == [] {
      assert a + b == a;
    } else {
      var n := |b| - 1;
      LaidConcat(a, b[..n]);
      var whole, last := a + b, TopicKeys(b[n].0, b[n].1);
      assert whole[..|whole| - 1] == a + b[..n] && whole[|whole| - 1] == b[n];
      assert Laid(whole) == Laid(a) + Laid(b[..n]) + last;
    }
  }

  lemma LaidOne(entry: (string, int))
    ensures Laid([entry]) == TopicKeys(entry.0, entry.1)
  {
    assert [entry][..0] == [];
  }

  /** A topic nobody subscribes to leaves every assignment as it would be without it. */
  lemma UnwantedTopic(ms: seq<Member>, counts: Counts, e: nat, i: nat)
    requires e < |counts| && ms != [] && Smooth(|ms|, 0, |Laid(counts)| * |ms|) && !AnySubscribes(ms, counts[e].0)
    ensures Dealt(ms, Laid(counts), i) == Dealt(ms, Laid(counts[..e] + counts[e + 1..]), i)
  {
    hide Dealt;
    hide Laid;
    hide AnySubscribes;
    var a, b := counts[..e], counts[e + 1..];
    assert counts == a + [counts[e]] + b;
    LaidConcat(a + [counts[e]], b);
    LaidConcat(a, [counts[e]]);
    LaidConcat(a, b);
    var unwanted := Laid([counts[e]]);
    LaidOne(counts[e]);
    UnwantedKeys(ms, Laid(a), unwanted, Laid(b), i);
  }
}
