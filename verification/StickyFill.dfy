/** Who fills up, key by key: every free partition goes, in key order, to a subscriber
    that holds least when its turn comes. */
module StickyFill {
  import opened Order
  import opened Group
  import opened Sticky
  import opened StickyExact

  lemma {:induction false} FillSplit(ms: seq<Member>, h: Held, keys: seq<Key>, j: nat)
    requires |ms| == |h| && j <= |keys|
    ensures Fill(ms, h, keys) == Fill(ms, Fill(ms, h, keys[..j]), keys[j..])
    decreases j
  {
    hide FillOne;
    if j == 0 {
      assert keys[..0] == [] && keys[0..] == keys;
    } else {
      FillSplit(ms, FillOne(ms, h, keys[0]), keys[1..], j - 1);
      assert keys[..j][1..] == keys[1..][..j - 1] && keys[..j][0] == keys[0];
      assert keys[j..] == keys[1..][j - 1..];
    }
  }

  /** Filling adds to a set only keys it was given, and takes none away. */
  lemma {:induction false} FillAdds(ms: seq<Member>, h: Held, keys: seq<Key>, x: nat)
    requires |ms| == |h| && x < |h|
    ensures h[x] <= Fill(ms, h, keys)[x] <= h[x] + KeySet(keys)
    decreases |keys|
  {
    if keys != [] {
      FillAdds(ms, FillOne(ms, h, keys[0]), keys[1..], x);
      assert keys == [keys[0]] + keys[1..];
    }
  }

  /** What a member held when the j-th key's turn came: all it ends up with, less the
      keys from the j-th on. */
  lemma HeldThen(ms: seq<Member>, h: Held, keys: seq<Key>, j: nat, x: nat)
    requires |ms| == |h| && j <= |keys| && x < |h| && Distinct(keys) && KeySet(keys) !! h[x]
    ensures Fill(ms, h, keys[..j])[x] == Fill(ms, h, keys)[x] - KeySet(keys[j..])
  {
    hide Fill;
    hide KeySet;
    hide Distinct;
    FillSplit(ms, h, keys, j);
    var held := Fill(ms, h, keys[..j]);
    FillAdds(ms, h, keys[..j], x);
    FillAdds(ms, held, keys[j..], x);
    SplitKeys(keys, j);
    SetsThen(h[x], held[x], Fill(ms, h, keys)[x], KeySet(keys[..j]), KeySet(keys[j..]));
  }

  lemma SplitKeys(keys: seq<Key>, j: nat)
    requires j <= |keys| && Distinct(keys)
    ensures KeySet(keys) == KeySet(keys[..j]) + KeySet(keys[j..]) && KeySet(keys[..j]) !! KeySet(keys[j..])
  {
    assert keys == keys[..j] + keys[j..];
  }

  lemma SetsThen(own: set<Key>, held: set<Key>, filled: set<Key>, front: set<Key>, back: set<Key>)
    requires held <= own + front && held <= filled <= held + back && own !! back && front !! back
    ensures held == filled - back
  {
  }

  /** The j-th key goes to the emptiest subscriber of the moment. */
  lemma JthReceiver(ms: seq<Member>, h: Held, keys: seq<Key>, j: nat)
    requires |ms| == |h| && j < |keys|
    ensures var e := Emptiest(ms, Fill(ms, h, keys[..j]), keys[j].topic);
            e >= 0 ==> keys[j] in Fill(ms, h, keys)[e]
  {
    FillSplit(ms, h, keys, j);
    var held := Fill(ms, h, keys[..j]);
    var e := Emptiest(ms, held, keys[j].topic);
    if e >= 0 {
      FillAdds(ms, FillOne(ms, held, keys[j]), keys[j..][1..], e);
    }
  }

  lemma {:induction false} FreeIncreasing(ms: seq<Member>, all: seq<Key>, keys: seq<Key>)
    requires Increasing(keys)
    ensures Increasing(Free(ms, all, keys))
  {
    hide Owner;
    hide KeyLess;
    if keys != [] {
      FreeIncreasing(ms, all, keys[1..]);
      var rest := Free(ms, all, keys[1..]);
      forall k <- rest ensures KeyLess(keys[0], k) {
        assert k in keys[1..];
      }
    }
  }

  /** The keys from the j-th on are those not before it. */
  lemma FromOn(keys: seq<Key>, j: nat, y: Key)
    requires Increasing(keys) && j < |keys| && y in keys
    ensures y in keys[j..] <==> !KeyLess(y, keys[j])
  {
    hide KeyLess;
    var i :| 0 <= i < |keys| && keys[i] == y;
    IncreasingDistinct(keys);
    OneWayOnly(keys[i], keys[j]);
    OneWayOnly(keys[j], keys[i]);
    assert i >= j ==> keys[j..][i - j] == y;
  }

  lemma OneWayOnly(a: Key, b: Key)
    ensures KeyLess(a, b) ==> a != b && !KeyLess(b, a)
  {
    if KeyLess(a, b) {
      KeyAsymmetric(a, b);
    }
  }

  /** What member `x` holds when the turn of the free key `k` comes, out of what it ends
      up filled with: its own keys and the free ones before `k`. */
  ghost function Load(ms: seq<Member>, all: seq<Key>, filled: Held, k: Key, x: nat): set<Key>
    requires x < |filled|
  {
    set y | y in filled[x] && (Owner(ms, all, y) >= 0 || Before(y.topic, k.topic) || (y.topic == k.topic && y.partition < k.partition))
  }

  lemma LoadIsHeld(ms: seq<Member>, all: seq<Key>, j: nat, x: nat)
    requires Wanted(ms, all) && Increasing(all) && j < |Free(ms, all, all)| && x < |ms|
    ensures var keys := Free(ms, all, all);
            Load(ms, all, Filled(ms, all), keys[j], x) == Fill(ms, Owned(ms, all), keys[..j])[x]
  {
    hide Fill;
    hide Owner;
    hide Free;
    hide Owned;
    hide Before;
    hide KeyLess;
    var keys, own, filled := Free(ms, all, all), Owned(ms, all), Filled(ms, all);
    FreeIncreasing(ms, all, all);
    FreeDistinct(ms, all, all);
    FilledPartition(ms, all);
    OwnedApart(ms, all, x);
    HeldThen(ms, own, keys, j, x);
    forall y | y in filled[x]
      ensures y in keys[j..] <==> !(Owner(ms, all, y) >= 0 || Before(y.topic, keys[j].topic) || (y.topic == keys[j].topic && y.partition < keys[j].partition))
    {
      assert HeldAt(filled, x, y);
      KeyLessExact(y, keys[j]);
      if Owner(ms, all, y) < 0 {
        FromOn(keys, j, y);
      } else {
        assert y !in keys;
      }
    }
  }

  lemma OwnedApart(ms: seq<Member>, all: seq<Key>, x: nat)
    requires x < |ms|
    ensures KeySet(Free(ms, all, all)) !! Owned(ms, all)[x]
  {
    hide Owner;
  }

  /** Every partition nobody validly claims is filled into the set of a subscriber that
      holds least when its turn in key order comes, and of several holding as little
      into that of the first in id order. */
  lemma FilledToEmptiest(ms: seq<Member>, all: seq<Key>, k: Key, i: nat, x: nat)
    requires Wanted(ms, all) && Increasing(all) && k in all && Owner(ms, all, k) < 0
    requires i < |ms| && k in Filled(ms, all)[i]
    requires x < |ms| && k.topic in ms[x].topics
    ensures k.topic in ms[i].topics
    ensures |Load(ms, all, Filled(ms, all), k, i)| < |Load(ms, all, Filled(ms, all), k, x)|
         || (|Load(ms, all, Filled(ms, all), k, i)| == |Load(ms, all, Filled(ms, all), k, x)| && i <= x)
  {
    hide Fill;
    hide Owner;
    hide Load;
    hide Free;
    hide Owned;
    var keys, own, filled := Free(ms, all, all), Owned(ms, all), Filled(ms, all);
    var j :| 0 <= j < |keys| && keys[j] == k;
    var held := Fill(ms, own, keys[..j]);
    var e := EmptiestUpTo(ms, held, k.topic, |ms|);
    assert ms[x].SubscribesTo(k.topic);
    JthReceiver(ms, own, keys, j);
    FilledPartition(ms, all);
    assert HeldAt(filled, i, k) && HeldAt(filled, e, k);
    LoadIsHeld(ms, all, j, i);
    LoadIsHeld(ms, all, j, x);
  }
}
