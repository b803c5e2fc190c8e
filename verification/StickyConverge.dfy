/** Two-round convergence: from any claims, the second cooperative round
    withholds nothing, and every later one repeats it. */
module StickyConverge {
  import opened Order
  import opened Sums
  import opened Group
  import opened Sticky
  import opened StickyExact
  import opened StickyBalance
  import opened StickyMinimal

  /** `next` is the same group, each member claiming exactly its entry of `h`;
      generations are whatever they are. */
  ghost predicate Claiming(ms: seq<Member>, h: Held, next: seq<Member>) {
    && |ms| == |h| == |next|
    && forall i | 0 <= i < |ms| ::
         && next[i].id == ms[i].id && next[i].topics == ms[i].topics
         && forall k :: k in next[i].owned <==> k in h[i]
  }

  // ------------------------------------------------------------- the next round's input

  lemma SubscribersSame(ms: seq<Member>, next: seq<Member>, topic: string)
    requires |ms| == |next| && forall i | 0 <= i < |ms| :: next[i].topics == ms[i].topics
    ensures AnySubscribes(ms, topic) ==> AnySubscribes(next, topic)
  {
    if AnySubscribes(ms, topic) {
      var m :| m in ms && m.SubscribesTo(topic);
      var i :| 0 <= i < |ms| && ms[i] == m;
      assert next[i] in next && next[i].SubscribesTo(topic);
    }
  }

  lemma {:induction false} AllKeysSame(ms: seq<Member>, next: seq<Member>, counts: Counts)
    requires |ms| == |next| && forall i | 0 <= i < |ms| :: next[i].topics == ms[i].topics
    ensures AllKeys(next, counts) == AllKeys(ms, counts)
  {
    if counts != [] {
      SubscribersSame(ms, next, counts[0].0);
      SubscribersSame(next, ms, counts[0].0);
      AllKeysSame(ms, next, counts[1..]);
    }
  }

  /** Claims that do not overlap resolve to themselves, whatever the generations. */
  lemma OwnedIsClaimed(ms: seq<Member>, all: seq<Key>, h: Held, next: seq<Member>)
    requires Claiming(ms, h, next) && Exclusive(h) && Allowed(ms, KeySet(all), h)
    ensures Owned(next, all) == h
    ensures forall i, k :: HeldAt(h, i, k) ==> Owner(next, all, k) == i
  {
    forall i, k ensures HeldAt(h, i, k) ==> Owner(next, all, k) == i {
      if HeldAt(h, i, k) {
        assert Claims(next[i], all, k);
        var o := Owner(next, all, k);
        assert HeldAt(h, o, k);
      }
    }
    forall i | 0 <= i < |h| ensures Owned(next, all)[i] == h[i] {
      forall k ensures k in Owned(next, all)[i] <==> k in h[i] {
        if k in h[i] {
          assert HeldAt(h, i, k);
        }
      }
    }
  }

  // ---------------------------------------------------------------- filling to level

  function Over(x: int, q: int): int {
    if x > q then x - q else 0
  }

  function Overs(s: seq<int>, q: int): (r: seq<int>)
    ensures |r| == |s| && forall i | 0 <= i < |s| :: r[i] == Over(s[i], q)
  {
    seq(|s|, i requires 0 <= i < |s| => Over(s[i], q))
  }

  /** Nobody is past `q + 1`, and no more than `total` can afford are past `q`
      while anybody is below it. */
  ghost predicate Levelling(s: seq<int>, q: int, total: int) {
    && (forall i | 0 <= i < |s| :: s[i] <= q + 1)
    && (Sum(Overs(s, q)) <= total - |s| * q || forall i | 0 <= i < |s| :: s[i] >= q)
  }

  lemma LevellingStep(s: seq<int>, q: int, total: int, e: nat)
    requires Levelling(s, q, total) && e < |s| && s[e] <= q
    requires forall i | 0 <= i < |s| :: s[e] <= s[i]
    ensures Levelling(s[e := s[e] + 1], q, total)
  {
    var r := s[e := s[e] + 1];
    if s[e] < q {
      assert Overs(r, q) == Overs(s, q);
    } else {
      assert forall i | 0 <= i < |r| :: r[i] >= q;
    }
  }

  lemma LevellingDone(s: seq<int>, q: int)
    requires Levelling(s, q, Sum(s))
    ensures LevelAt(s, q)
  {
    if Sum(Overs(s, q)) <= Sum(s) - |s| * q {
      var level := Constant(|s|, q);
      SumConstant(level, q);
      SumCombine(Plus(Overs(s, q), level), Overs(s, q), level);
      SumMonotone(s, Plus(Overs(s, q), level));
    }
  }

  lemma FillOneLevels(ms: seq<Member>, h: Held, k: Key, q: int, total: int)
    requires |ms| == |h| > 0 && (forall i | 0 <= i < |ms| :: ms[i].SubscribesTo(k.topic))
    requires forall i | 0 <= i < |h| :: k !in h[i]
    requires Total(h) < total < |h| * (q + 1) && Levelling(Sizes(h), q, total)
    ensures var r := FillOne(ms, h, k);
            && Total(r) == Total(h) + 1 && Levelling(Sizes(r), q, total)
            && forall i, x :: HeldAt(r, i, x) ==> HeldAt(h, i, x) || x == k
  {
    EmptiestBelow(ms, h, k, q);
    var e := Emptiest(ms, h, k.topic);
    AddTotal(h, e, k);
    LevellingStep(Sizes(h), q, total, e);
    assert Sizes(FillOne(ms, h, k)) == Sizes(h)[e := |h[e]| + 1];
  }

  /** Filling to the emptiest reaches level without help from the balancer. */
  lemma {:induction false} FillLevels(ms: seq<Member>, h: Held, keys: seq<Key>, q: int, total: int)
    requires |ms| == |h| > 0 && Uniform(ms, keys) && Distinct(keys)
    requires forall i, k | HeldAt(h, i, k) :: k !in keys
    requires Total(h) + |keys| == total < |h| * (q + 1) && Levelling(Sizes(h), q, total)
    ensures LevelAt(Sizes(Fill(ms, h, keys)), q)
    decreases |keys|
  {
    if keys == [] {
      LevellingDone(Sizes(h), q);
    } else {
      hide Levelling;
      hide LevelAt;
      assert keys[0] in keys;
      forall i | 0 <= i < |h| ensures keys[0] !in h[i] {
        assert HeldAt(h, i, keys[0]) <==> keys[0] in h[i];
      }
      FillOneLevels(ms, h, keys[0], q, total);
      FillLevels(ms, FillOne(ms, h, keys[0]), keys[1..], q, total);
    }
  }

  lemma {:induction false} FillKeeps(ms: seq<Member>, h: Held, keys: seq<Key>)
    requires |ms| == |h|
    ensures forall i | 0 <= i < |h| :: h[i] <= Fill(ms, h, keys)[i]
    decreases |keys|
  {
    if keys != [] {
      FillKeeps(ms, FillOne(ms, h, keys[0]), keys[1..]);
    }
  }

  /** Below a level assignment entry by entry: a start from which filling levels. */
  lemma BelowLevelling(s: seq<int>, t: seq<int>, q: int)
    requires |s| == |t| && LevelAt(t, q) && forall i | 0 <= i < |s| :: s[i] <= t[i]
    ensures Levelling(s, q, Sum(t))
  {
    var level := Constant(|t|, q);
    SumConstant(level, q);
    SumCombine(t, Overs(t, q), level);
    SumMonotone(Overs(s, q), Overs(t, q));
  }

  // ---------------------------------------------------------------------- second round

  /** Nothing is left for the balancer, and nothing is withheld: the fill is the
      answer. */
  lemma LevelFillIsRound(ms: seq<Member>, counts: Counts, q: int)
    requires ValidCounts(counts) && LevelAt(Sizes(Filled(ms, AllKeys(ms, counts))), q)
    ensures Round(ms, counts) == Filled(ms, AllKeys(ms, counts))
  {
    var all := AllKeys(ms, counts);
    var filled := Filled(ms, all);
    LevelWithinOne(filled, q);
    ImbalanceWidest(ms, filled);
    assert Target(ms, all) == filled;
    AllKeysWanted(ms, counts);
    FilledPartition(ms, all);
    FillKeeps(ms, Owned(ms, all), Free(ms, all, all));
    WithholdNothing(ms, all, filled);
  }

  lemma WithholdNothing(ms: seq<Member>, all: seq<Key>, h: Held)
    requires Partition(ms, KeySet(all), h) && forall i | 0 <= i < |h| :: Owned(ms, all)[i] <= h[i]
    ensures Withhold(ms, all, h) == h
  {
    forall i | 0 <= i < |h| ensures Withhold(ms, all, h)[i] == h[i] {
      forall k <- h[i] ensures k in Withhold(ms, all, h)[i] {
        var o := Owner(ms, all, k);
        assert HeldAt(h, i, k);
        if o >= 0 {
          assert k in Owned(ms, all)[o];
          assert HeldAt(h, o, k);
        }
      }
    }
  }

  lemma RoundBelowTarget(ms: seq<Member>, counts: Counts, i: nat)
    requires i < |ms|
    ensures |Round(ms, counts)[i]| <= |Target(ms, AllKeys(ms, counts))[i]|
  {
    var all := AllKeys(ms, counts);
    assert Round(ms, counts)[i] <= Target(ms, all)[i];
    SubsetSize(Round(ms, counts)[i], Target(ms, all)[i]);
  }

  lemma UniformSame(ms: seq<Member>, h: Held, next: seq<Member>, counts: Counts)
    requires UniformCounts(ms, counts) && Claiming(ms, h, next)
    ensures UniformCounts(next, counts) && AllKeys(next, counts) == AllKeys(ms, counts)
  {
    AllKeysSame(ms, next, counts);
    forall i, j | 0 <= i < |next| && 0 <= j < |counts| ensures next[i].SubscribesTo(counts[j].0) {
      assert ms[i].SubscribesTo(counts[j].0);
    }
  }

  lemma RoundLevelling(ms: seq<Member>, counts: Counts)
    requires ms != [] && ValidCounts(counts) && UniformCounts(ms, counts)
    ensures var all := AllKeys(ms, counts);
            Levelling(Sizes(Round(ms, counts)), Level(ms, all), |all|)
  {
    var all, r := AllKeys(ms, counts), Round(ms, counts);
    var t, q := Target(ms, all), Level(ms, all);
    AllKeysWanted(ms, counts);
    UniformKeys(ms, counts);
    TargetLevel(ms, all);
    LevelAverage(ms, all, t);
    WithinOneLevel(t, q);
    PartitionTotal(ms, KeySet(all), t);
    DistinctSize(all);
    forall i | 0 <= i < |r| ensures Sizes(r)[i] <= Sizes(t)[i] {
      RoundBelowTarget(ms, counts, i);
    }
    BelowLevelling(Sizes(r), Sizes(t), q);
  }

  /** The second round's fill reaches the level of the first round's target. */
  lemma SecondFillLevel(ms: seq<Member>, next: seq<Member>, counts: Counts)
    requires ms != [] && ValidCounts(counts) && UniformCounts(ms, counts)
    requires Claiming(ms, Round(ms, counts), next)
    ensures LevelAt(Sizes(Filled(next, AllKeys(next, counts))), Level(ms, AllKeys(ms, counts)))
    ensures Owned(next, AllKeys(next, counts)) == Round(ms, counts)
  {
    var all, r := AllKeys(ms, counts), Round(ms, counts);
    RoundLevelling(ms, counts);
    RoundExact(ms, counts);
    UniformSame(ms, r, next, counts);
    OwnedIsClaimed(ms, all, r, next);
    hide Levelling;
    hide Owned;
    UniformKeys(next, counts);
    AllKeysWanted(ms, counts);
    LevelBound(ms, all);
    SecondFill(next, all, r, Level(ms, all));
  }

  lemma SecondFill(next: seq<Member>, all: seq<Key>, r: Held, q: int)
    requires next != [] && Distinct(all) && Uniform(next, all) && Owned(next, all) == r
    requires |all| < |next| * (q + 1) && Levelling(Sizes(r), q, |all|)
    ensures LevelAt(Sizes(Filled(next, all)), q)
  {
    OwnedAndFree(next, all);
    FreeDistinct(next, all, all);
    var free := Free(next, all, all);
    assert Uniform(next, free);
    FillLevels(next, r, free, q, |all|);
  }

  /** A round is settled: complete, exclusive, within one of level, nothing withheld. */
  ghost predicate SettledRound(ms: seq<Member>, counts: Counts) {
    && Partition(ms, KeySet(AllKeys(ms, counts)), Round(ms, counts))
    && WithinOne(Round(ms, counts))
    && WithheldKeys(ms, counts) == {}
  }

  lemma CompleteWithholdsNothing(ms: seq<Member>, counts: Counts)
    requires Partition(ms, KeySet(AllKeys(ms, counts)), Round(ms, counts))
    ensures WithheldKeys(ms, counts) == {}
  {
    forall k | k in AllKeys(ms, counts) ensures Assigned(Round(ms, counts), k) {
      assert k in KeySet(AllKeys(ms, counts));
    }
  }

  lemma LevelWithinOne(h: Held, q: int)
    requires LevelAt(Sizes(h), q)
    ensures WithinOne(h)
  {
    forall i, j | 0 <= i < |h| && 0 <= j < |h| ensures |h[i]| <= |h[j]| + 1 {
      assert Sizes(h)[i] <= q + 1 && q <= Sizes(h)[j];
    }
  }

  /** Round two, from whatever round one was told: everybody keeps what round one
      gave, the rest is handed out, nothing is withheld, and the group is level. */
  lemma SecondRound(ms: seq<Member>, next: seq<Member>, counts: Counts)
    requires ms != [] && ValidCounts(counts) && UniformCounts(ms, counts)
    requires Claiming(ms, Round(ms, counts), next)
    ensures SettledRound(next, counts)
    ensures forall i | 0 <= i < |ms| :: Round(ms, counts)[i] <= Round(next, counts)[i]
  {
    var all := AllKeys(next, counts);
    SecondFillLevel(ms, next, counts);
    LevelFillIsRound(next, counts, Level(ms, AllKeys(ms, counts)));
    LevelWithinOne(Filled(next, all), Level(ms, AllKeys(ms, counts)));
    FillKeeps(next, Owned(next, all), Free(next, all, all));
    AllKeysWanted(next, counts);
    FilledPartition(next, all);
    CompleteWithholdsNothing(next, counts);
  }

  lemma {:induction false} NothingFree(ms: seq<Member>, all: seq<Key>, keys: seq<Key>)
    requires forall k <- keys :: Owner(ms, all, k) >= 0
    ensures Free(ms, all, keys) == []
  {
    if keys != [] {
      NothingFree(ms, all, keys[1..]);
    }
  }

  /** A complete assignment within one of level is a fixed point, whatever the
      subscriptions and generations. */
  lemma FixedPoint(ms: seq<Member>, h: Held, next: seq<Member>, counts: Counts)
    requires ValidCounts(counts) && Claiming(ms, h, next)
    requires Partition(ms, KeySet(AllKeys(ms, counts)), h) && WithinOne(h)
    ensures Round(next, counts) == h
  {
    var all := AllKeys(ms, counts);
    AllKeysSame(ms, next, counts);
    OwnedIsClaimed(ms, all, h, next);
    forall k <- all ensures Owner(next, all, k) >= 0 {
      assert k in KeySet(all);
      var i :| HeldAt(h, i, k);
    }
    NothingFree(next, all, all);
    assert Filled(next, all) == h;
    ImbalanceWidest(next, h);
    assert Target(next, all) == h;
    AllKeysWanted(next, counts);
    TargetPartition(next, all);
    WithholdNothing(next, all, h);
  }

  /** A run of rebalances in which every member claims what it was last given. */
  ghost predicate Rebalances(run: seq<seq<Member>>, counts: Counts) {
    forall r | 0 <= r < |run| - 1 :: Claiming(run[r], Round(run[r], counts), run[r + 1])
  }

  lemma {:induction false} StaysSettled(run: seq<seq<Member>>, counts: Counts, r: nat)
    requires ValidCounts(counts) && Rebalances(run, counts) && 1 <= r < |run|
    requires SettledRound(run[1], counts)
    ensures Round(run[r], counts) == Round(run[1], counts) && SettledRound(run[r], counts)
    ensures AllKeys(run[r], counts) == AllKeys(run[1], counts)
  {
    if r > 1 {
      StaysSettled(run, counts, r - 1);
      assert Claiming(run[r - 1], Round(run[r - 1], counts), run[r]);
      SettledAgain(run[r - 1], run[r], counts);
    }
  }

  lemma SettledAgain(ms: seq<Member>, next: seq<Member>, counts: Counts)
    requires ValidCounts(counts) && SettledRound(ms, counts) && Claiming(ms, Round(ms, counts), next)
    ensures Round(next, counts) == Round(ms, counts) && SettledRound(next, counts)
    ensures AllKeys(next, counts) == AllKeys(ms, counts)
  {
    var h := Round(ms, counts);
    FixedPoint(ms, h, next, counts);
    AllKeysSame(ms, next, counts);
    assert Allowed(next, KeySet(AllKeys(next, counts)), h) by {
      forall i, k | HeldAt(h, i, k)
        ensures k in KeySet(AllKeys(next, counts)) && next[i].SubscribesTo(k.topic)
      {
        assert ms[i].SubscribesTo(k.topic);
      }
    }
    CompleteWithholdsNothing(next, counts);
  }

  /** Convergence in two rounds, and stability ever after. The claims of the
      first round are arbitrary: stale, doubled, or on partitions that are gone. */
  lemma Converges(run: seq<seq<Member>>, counts: Counts)
    requires |run| >= 2 && run[0] != [] && ValidCounts(counts) && UniformCounts(run[0], counts)
    requires Rebalances(run, counts)
    ensures forall r | 1 <= r < |run| ::
              SettledRound(run[r], counts) && Round(run[r], counts) == Round(run[1], counts)
  {
    SecondRound(run[0], run[1], counts);
    forall r | 1 <= r < |run|
      ensures SettledRound(run[r], counts) && Round(run[r], counts) == Round(run[1], counts)
    {
      StaysSettled(run, counts, r);
    }
  }
}
