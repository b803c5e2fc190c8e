/** What the cooperative assignor hands out, whatever the subscriptions: an
    exact partition before withholding, and exactly the moved keys withheld. */
module StickyExact {
  import opened Order
  import opened Sums
  import opened Group
  import opened Sticky

  ghost predicate HeldAt(h: Held, i: int, k: Key) {
    0 <= i < |h| && k in h[i]
  }

  /** No key is held twice. */
  ghost predicate Exclusive(h: Held) {
    forall i, j, k :: HeldAt(h, i, k) && HeldAt(h, j, k) ==> i == j
  }

  /** Only keys of `keys`, and only with subscribers. */
  ghost predicate Allowed(ms: seq<Member>, keys: set<Key>, h: Held)
    requires |ms| == |h|
  {
    forall i, k | HeldAt(h, i, k) :: k in keys && ms[i].SubscribesTo(k.topic)
  }

  ghost predicate Covers(keys: set<Key>, h: Held) {
    forall k <- keys :: exists i :: HeldAt(h, i, k)
  }

  /** Every key of `keys` is held exactly once, by a subscriber, and nothing else is. */
  ghost predicate Partition(ms: seq<Member>, keys: set<Key>, h: Held) {
    |ms| == |h| && Exclusive(h) && Allowed(ms, keys, h) && Covers(keys, h)
  }

  ghost function KeySet(keys: seq<Key>): set<Key> {
    set k | k in keys
  }

  ghost predicate Distinct(keys: seq<Key>) {
    forall i, j | 0 <= i < j < |keys| :: keys[i] != keys[j]
  }

  /** `all` as the assignor builds it: no repeats, every topic wanted by somebody. */
  ghost predicate Wanted(ms: seq<Member>, all: seq<Key>) {
    Distinct(all) && forall k <- all :: AnySubscribes(ms, k.topic)
  }

  lemma AllKeysWanted(ms: seq<Member>, counts: Counts)
    requires ValidCounts(counts)
    ensures Wanted(ms, AllKeys(ms, counts))
  {
    AllKeysIncreasing(ms, counts);
    IncreasingDistinct(AllKeys(ms, counts));
    forall k <- AllKeys(ms, counts) ensures AnySubscribes(ms, k.topic) {
      AllKeysExact(ms, counts, k);
    }
  }

  // ------------------------------------------------------------------- phases

  ghost function Claimed(ms: seq<Member>, all: seq<Key>): set<Key> {
    set k | k in all && Owner(ms, all, k) >= 0
  }

  lemma OwnedPartition(ms: seq<Member>, all: seq<Key>)
    ensures Partition(ms, Claimed(ms, all), Owned(ms, all))
  {
    var h := Owned(ms, all);
    forall k | k in all && Owner(ms, all, k) >= 0 ensures exists i :: HeldAt(h, i, k) {
      assert HeldAt(h, Owner(ms, all, k), k);
    }
  }

  lemma SubscriberExists(ms: seq<Member>, h: Held, topic: string)
    requires |ms| == |h| && AnySubscribes(ms, topic)
    ensures Emptiest(ms, h, topic) >= 0
  {
    var m :| m in ms && m.SubscribesTo(topic);
    var w :| 0 <= w < |ms| && ms[w] == m;
  }

  lemma FillOneHolders(ms: seq<Member>, h: Held, k: Key)
    requires |ms| == |h| && AnySubscribes(ms, k.topic)
    ensures var e := Emptiest(ms, h, k.topic);
            && e >= 0
            && forall i, x :: HeldAt(FillOne(ms, h, k), i, x) <==> HeldAt(h, i, x) || (i == e && x == k)
  {
    SubscriberExists(ms, h, k.topic);
  }

  lemma FillOnePartition(ms: seq<Member>, keys: set<Key>, h: Held, k: Key)
    requires Partition(ms, keys, h) && k !in keys && AnySubscribes(ms, k.topic)
    ensures Partition(ms, keys + {k}, FillOne(ms, h, k))
  {
    FillOneHolders(ms, h, k);
    var e, r := Emptiest(ms, h, k.topic), FillOne(ms, h, k);
    assert ms[e].SubscribesTo(k.topic);
    assert Allowed(ms, keys + {k}, r);
    assert Exclusive(r);
    forall x <- keys + {k} ensures exists i :: HeldAt(r, i, x) {
      if x == k {
        assert HeldAt(r, e, x);
      } else {
        var i :| HeldAt(h, i, x);
        assert HeldAt(r, i, x);
      }
    }
  }

  lemma WantedTail(ms: seq<Member>, keys: seq<Key>)
    requires Wanted(ms, keys) && keys != []
    ensures Wanted(ms, keys[1..]) && keys[0] !in KeySet(keys[1..])
    ensures KeySet(keys) == {keys[0]} + KeySet(keys[1..])
  {
    assert keys == [keys[0]] + keys[1..];
  }

  lemma {:induction false} FillPartition(ms: seq<Member>, done: set<Key>, h: Held, keys: seq<Key>)
    requires Partition(ms, done, h) && Wanted(ms, keys) && KeySet(keys) !! done
    ensures Partition(ms, done + KeySet(keys), Fill(ms, h, keys))
    decreases |keys|
  {
    hide Exclusive;
    hide Allowed;
    hide Covers;
    if keys == [] {
      assert done + KeySet(keys) == done;
    } else {
      WantedTail(ms, keys);
      assert keys[0] in keys;
      FillOnePartition(ms, done, h, keys[0]);
      FillPartition(ms, done + {keys[0]}, FillOne(ms, h, keys[0]), keys[1..]);
      assert done + KeySet(keys) == done + {keys[0]} + KeySet(keys[1..]);
    }
  }

  lemma {:induction false} FreeDistinct(ms: seq<Member>, all: seq<Key>, keys: seq<Key>)
    requires Distinct(keys)
    ensures Distinct(Free(ms, all, keys))
  {
    if keys != [] {
      FreeDistinct(ms, all, keys[1..]);
    }
  }

  lemma FilledPartition(ms: seq<Member>, all: seq<Key>)
    requires Wanted(ms, all)
    ensures Partition(ms, KeySet(all), Filled(ms, all))
  {
    OwnedPartition(ms, all);
    FreeDistinct(ms, all, all);
    var claimed := Claimed(ms, all);
    FillPartition(ms, claimed, Owned(ms, all), Free(ms, all, all));
    assert claimed + KeySet(Free(ms, all, all)) == KeySet(all);
  }

  lemma ApplyHolders(ms: seq<Member>, h: Held, m: Search, i: int, k: Key)
    requires |ms| == |h| && Exclusive(h) && IsWidest(ms, h, m)
    ensures HeldAt(Apply(h, m), i, k) <==> if k == m.key then i == m.to else HeldAt(h, i, k)
  {
    assert HeldAt(h, m.from, m.key);
    if k == m.key && HeldAt(h, i, k) {
      assert i == m.from;
    }
  }

  lemma ApplyPartition(ms: seq<Member>, keys: set<Key>, h: Held, m: Search)
    requires Partition(ms, keys, h) && IsWidest(ms, h, m)
    ensures Partition(ms, keys, Apply(h, m))
  {
    var r := Apply(h, m);
    forall i, k ensures HeldAt(r, i, k) <==> if k == m.key then i == m.to else HeldAt(h, i, k) {
      ApplyHolders(ms, h, m, i, k);
    }
    assert HeldAt(h, m.from, m.key);
    assert Allowed(ms, keys, r);
    assert Exclusive(r);
    forall k <- keys ensures exists i :: HeldAt(r, i, k) {
      var i :| HeldAt(h, i, k);
      assert HeldAt(r, if k == m.key then m.to else i, k);
    }
  }

  lemma {:induction false} BalancePartition(ms: seq<Member>, keys: set<Key>, h: Held, steps: nat)
    requires Partition(ms, keys, h)
    ensures Partition(ms, keys, Balance(ms, h, steps))
    decreases steps
  {
    if steps > 0 {
      ImbalanceWidest(ms, h);
      var m := Imbalance(ms, h);
      if m.Move? {
        ApplyPartition(ms, keys, h, m);
        BalancePartition(ms, keys, Apply(h, m), steps - 1);
      }
    }
  }

  /** Before withholding, every wanted partition has exactly one holder, and it
      is a subscriber. */
  lemma TargetPartition(ms: seq<Member>, all: seq<Key>)
    requires Wanted(ms, all)
    ensures Partition(ms, KeySet(all), Target(ms, all))
  {
    FilledPartition(ms, all);
    var filled := Filled(ms, all);
    BalancePartition(ms, KeySet(all), filled, if Total(filled) < 0 then 0 else 2 * Total(filled));
  }

  ghost predicate Assigned(h: Held, k: Key) {
    exists i :: HeldAt(h, i, k)
  }

  /** A key is left out of a round exactly when its resolved owner lost it. */
  lemma WithheldExact(ms: seq<Member>, all: seq<Key>, t: Held, k: Key)
    requires Partition(ms, KeySet(all), t) && k in all
    ensures !Assigned(Withhold(ms, all, t), k) <==>
              Owner(ms, all, k) >= 0 && k !in t[Owner(ms, all, k)]
  {
    var o := Owner(ms, all, k);
    var r := Withhold(ms, all, t);
    assert k in KeySet(all);
    var i :| HeldAt(t, i, k);
    forall j | HeldAt(r, j, k) ensures j == i {
      assert HeldAt(t, j, k);
    }
    assert HeldAt(r, i, k) <==> o < 0 || o == i;
    if o >= 0 && o != i {
      assert !HeldAt(t, o, k);
    }
  }

  lemma WithholdKeeps(ms: seq<Member>, all: seq<Key>, keys: set<Key>, t: Held)
    requires Partition(ms, keys, t)
    ensures Exclusive(Withhold(ms, all, t)) && Allowed(ms, keys, Withhold(ms, all, t))
  {
    var r := Withhold(ms, all, t);
    assert forall i, k :: HeldAt(r, i, k) ==> HeldAt(t, i, k);
  }

  /** What a round hands out: nothing twice, only to subscribers, and the keys
      left out are exactly those whose resolved owner lost them. A partition
      nobody validly claims is therefore always assigned. */
  lemma RoundExact(ms: seq<Member>, counts: Counts)
    requires ValidCounts(counts)
    ensures var all := AllKeys(ms, counts); var r := Round(ms, counts);
            && Exclusive(r) && Allowed(ms, KeySet(all), r)
            && (forall k <- all :: !Assigned(r, k) <==>
                  Owner(ms, all, k) >= 0 && k !in Target(ms, all)[Owner(ms, all, k)])
            && (forall k <- all | Owner(ms, all, k) < 0 :: Assigned(r, k))
  {
    var all := AllKeys(ms, counts);
    AllKeysWanted(ms, counts);
    TargetPartition(ms, all);
    WithholdKeeps(ms, all, KeySet(all), Target(ms, all));
    forall k <- all
      ensures !Assigned(Round(ms, counts), k) <==>
                Owner(ms, all, k) >= 0 && k !in Target(ms, all)[Owner(ms, all, k)]
    {
      WithheldExact(ms, all, Target(ms, all), k);
    }
  }

  // --------------------------------------------------------------- cardinality

  ghost function UnionOf(h: Held, n: nat): set<Key>
    requires n <= |h|
  {
    if n == 0 then {} else UnionOf(h, n - 1) + h[n - 1]
  }

  lemma {:induction false} UnionMember(h: Held, n: nat, k: Key)
    requires n <= |h|
    ensures k in UnionOf(h, n) <==> exists i :: i < n && HeldAt(h, i, k)
  {
    if n > 0 {
      UnionMember(h, n - 1, k);
      if k in h[n - 1] {
        assert HeldAt(h, n - 1, k);
      }
    }
  }

  lemma {:induction false} UnionSize(h: Held, n: nat)
    requires n <= |h| && Exclusive(h)
    ensures |UnionOf(h, n)| == Sum(Sizes(h)[..n])
  {
    if n > 0 {
      UnionSize(h, n - 1);
      var u := UnionOf(h, n - 1);
      assert u !! h[n - 1] by {
        if k :| k in u && k in h[n - 1] {
          UnionMember(h, n - 1, k);
          var i :| i < n - 1 && HeldAt(h, i, k);
          assert HeldAt(h, n - 1, k);
        }
      }
      assert Sizes(h)[..n] == Sizes(h)[..n - 1] + [|h[n - 1]|];
      SumAppend(Sizes(h)[..n - 1], [|h[n - 1]|]);
      assert Sum([|h[n - 1]|]) == |h[n - 1]|;
    }
  }

  /** Disjoint holdings add up to the size of their union. */
  lemma TotalIsUnion(h: Held, keys: set<Key>)
    requires Exclusive(h) && forall k :: k in keys <==> Assigned(h, k)
    ensures Total(h) == |keys|
  {
    UnionSize(h, |h|);
    assert Sizes(h)[..|h|] == Sizes(h);
    forall k ensures k in UnionOf(h, |h|) <==> k in keys {
      UnionMember(h, |h|, k);
    }
    assert UnionOf(h, |h|) == keys;
  }

  lemma PartitionTotal(ms: seq<Member>, keys: set<Key>, h: Held)
    requires Partition(ms, keys, h)
    ensures Total(h) == |keys|
  {
    TotalIsUnion(h, keys);
  }
}
