/** Where the assignor's promises stop: concrete groups just outside the
    conditions of the theorems. */
module StickyLimits {
  import opened Order
  import opened Group
  import opened Sticky
  import opened StickyExact
  import opened StickyConverge
  import opened Rebalance

  /** `a` holds four partitions of `x`; `b` wants `x` too; `c` wants only `y`. */
  function Uneven(): seq<Member> {
    [Member("a", ["x"], [Key("x", 0), Key("x", 1), Key("x", 2), Key("x", 3)], 1),
     Member("b", ["x"], [], 1),
     Member("c", ["y"], [], 1)]
  }

  function FourOfX(): Counts {
    [("x", 4)]
  }

  lemma UnevenOwned()
    ensures var all := AllKeys(Uneven(), FourOfX());
            && all == TopicKeys("x", 4)
            && Owned(Uneven(), all) == [KeySet(all), {}, {}] && Free(Uneven(), all, all) == []
  {
    var ms, all := Uneven(), AllKeys(Uneven(), FourOfX());
    var keys := TopicKeys("x", 4);
    assert keys == [Key("x", 0), Key("x", 1), Key("x", 2), Key("x", 3)];
    assert ms[0] in ms && ms[0].SubscribesTo("x");
    assert AllKeys(ms, FourOfX()[1..]) == [];
    assert all == keys + [];
    var h: Held := [KeySet(all), {}, {}];
    assert Claiming(ms, h, ms);
    assert Allowed(ms, KeySet(all), h) by {
      forall i, k | HeldAt(h, i, k) ensures k in KeySet(all) && ms[i].SubscribesTo(k.topic) {
        assert i == 0;
      }
    }
    OwnedIsClaimed(ms, all, h, ms);
    forall k <- all ensures Owner(ms, all, k) >= 0 {
      assert HeldAt(h, 0, k);
    }
    NothingFree(ms, all, all);
  }

  /** A group whose widest pair cannot be moved is left alone. */
  lemma WidestStuck(ms: seq<Member>, h: Held, from: nat, to: nat, steps: nat)
    requires |ms| == |h| && from < |h| && to < |h| && |h[from]| >= |h[to]| + 2
    requires forall i | 0 <= i < |h| && i != from :: |h[i]| < |h[from]|
    requires forall i | 0 <= i < |h| && i != to :: |h[to]| < |h[i]| || (|h[to]| == |h[i]| && i < to)
    requires Movable(ms, h, from, to) == {}
    ensures Balance(ms, h, steps) == h
  {
    FirstPairDecides(ms, h);
    BySizeEnds(h, from);
    BySizeEnds(h, to);
  }

  lemma UnevenSizes(all: seq<Key>)
    requires all == TopicKeys("x", 4)
    ensures |KeySet(all)| == 4 && Key("x", 0) in KeySet(all) && forall k <- KeySet(all) :: k.topic == "x"
  {
    assert KeySet(all) == {Key("x", 0), Key("x", 1), Key("x", 2), Key("x", 3)};
    assert all[0] == Key("x", 0);
  }

  lemma UnevenTopics()
    ensures |Uneven()| == 3 && Uneven()[1].SubscribesTo("x") && !Uneven()[2].SubscribesTo("x")
  {
    assert "x"[0] != "y"[0];
  }

  lemma TargetStuck(ms: seq<Member>, all: seq<Key>, h: Held)
    requires |ms| == 3 && h == [KeySet(all), {}, {}] && |KeySet(all)| >= 2
    requires Owned(ms, all) == h && Free(ms, all, all) == []
    requires forall k <- KeySet(all) :: !ms[2].SubscribesTo(k.topic)
    ensures Target(ms, all) == h
  {
    assert Filled(ms, all) == h;
    assert Movable(ms, h, 0, 2) == {};
    WidestStuck(ms, h, 0, 2, if Total(h) < 0 then 0 else 2 * Total(h));
  }

  /** Mixed subscriptions: the search gives up on the widest pair, whose emptier
      member may take nothing, although another member at least two behind the
      fullest could. The group stays uneven. */
  lemma MixedStaysUneven(ms: seq<Member>, all: seq<Key>)
    requires ms == Uneven() && all == AllKeys(ms, FourOfX())
    ensures var t := Target(ms, all); |t[0]| >= |t[1]| + 2 && Movable(ms, t, 0, 1) != {}
  {
    hide Target;
    hide AllKeys;
    hide Uneven;
    hide Owned;
    hide Free;
    hide KeySet;
    UnevenOwned();
    UnevenSizes(all);
    UnevenTopics();
    var h: Held := [KeySet(all), {}, {}];
    TargetStuck(ms, all, h);
    assert Key("x", 0) in Movable(ms, h, 0, 1);
  }

  /** A member still holding a topic it does not subscribe to. */
  function Stray(): seq<Member> {
    [Member("a", ["y"], [Key("x", 0)], 1), Member("b", ["x"], [], 1)]
  }

  /** The claim is discarded, so the partition counts as free and goes to `b`
      while `a` still holds it. */
  lemma StrayClaimOverlaps()
    ensures Exclusive(ClaimsOf(Stray())) && !NoOverlap(Stray(), Round(Stray(), [("x", 1)]))
  {
    var ms, counts, k := Stray(), [("x", 1)], Key("x", 0);
    assert ms[1] in ms && ms[1].SubscribesTo("x");
    AllKeysExact(ms, counts, k);
    assert InCounts(counts, k) by { assert counts[0].0 == k.topic; }
    assert HeldAt(ClaimsOf(ms), 0, k);
    assert !ms[0].SubscribesTo("x") by { assert "x"[0] != "y"[0]; }
    RoundOverlapIff(ms, counts);
  }
}
