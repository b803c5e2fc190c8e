/** Minimal movement: under uniform subscriptions no complete, level assignment
    takes fewer partitions from their owners than cooperative-sticky does. */
module StickyMinimal {
  import opened Order
  import opened Sums
  import opened Group
  import opened Sticky
  import opened StickyExact
  import opened StickyBalance

  /** The member got something it did not own. */
  ghost predicate Received(own: Held, h: Held, i: nat)
    requires i < |own| == |h|
  {
    own[i] < h[i]
  }

  /** The member gave up something it owned. */
  ghost predicate Donated(own: Held, h: Held, i: nat)
    requires i < |own| == |h|
  {
    h[i] < own[i]
  }

  /** What fill and balance keep, `q` being the level they work towards. No
      member both receives and donates; a member is filled to `q + 1` only once
      nobody is below `q`, and drained to `q` only once nobody is above `q + 1`,
      and those two never both happen. */
  ghost predicate Sparing(own: Held, h: Held, q: int) {
    && |own| == |h|
    && (forall i | 0 <= i < |h| :: own[i] <= h[i] || h[i] <= own[i])
    && (forall i | 0 <= i < |h| && Received(own, h, i) :: |h[i]| <= q + 1)
    && (forall i | 0 <= i < |h| && Donated(own, h, i) :: |h[i]| >= q)
    && (forall i, j | 0 <= i < |h| && 0 <= j < |h| && Received(own, h, i) && |h[i]| == q + 1 :: |h[j]| >= q)
    && (forall i, j | 0 <= i < |h| && 0 <= j < |h| && Donated(own, h, i) && |h[i]| == q :: |h[j]| <= q + 1)
    && !(FilledPast(own, h, q) && DrainedTo(own, h, q))
  }

  ghost predicate FilledPast(own: Held, h: Held, q: int)
    requires |own| == |h|
  {
    exists i :: 0 <= i < |h| && Received(own, h, i) && |h[i]| == q + 1
  }

  ghost predicate DrainedTo(own: Held, h: Held, q: int)
    requires |own| == |h|
  {
    exists i :: 0 <= i < |h| && Donated(own, h, i) && |h[i]| == q
  }

  lemma SubsetSize<T>(a: set<T>, b: set<T>)
    requires a <= b
    ensures |a| <= |b|
    ensures a < b ==> |a| < |b|
  {
    assert b == a + (b - a);
    assert |b| == |a| + |b - a|;
    if a < b {
      var x :| x in b - a;
      assert |b - a| > 0;
    }
  }

  // --------------------------------------------------------------- fill and balance

  /** While keys remain to be placed, the emptiest member holds no more than `q`. */
  lemma EmptiestBelow(ms: seq<Member>, h: Held, k: Key, q: int)
    requires |ms| == |h| > 0 && (forall i | 0 <= i < |ms| :: ms[i].SubscribesTo(k.topic))
    requires Total(h) < |h| * (q + 1)
    ensures var e := Emptiest(ms, h, k.topic);
            e >= 0 && |h[e]| <= q && forall i | 0 <= i < |h| :: |h[e]| <= |h[i]|
  {
    assert ms[0].SubscribesTo(k.topic);
    var e := Emptiest(ms, h, k.topic);
    if |h[e]| > q {
      SumAtLeast(Sizes(h), q + 1);
    }
  }

  /** Adding to an emptiest member that holds no more than `q`. */
  lemma AddSparing(own: Held, h: Held, e: nat, k: Key, q: int)
    requires Sparing(own, h, q) && e < |h| && k !in h[e] && |h[e]| <= q
    requires forall i | 0 <= i < |h| :: own[i] <= h[i] && |h[e]| <= |h[i]|
    ensures Sparing(own, h[e := h[e] + {k}], q)
  {
    var r := h[e := h[e] + {k}];
    assert |r[e]| == |h[e]| + 1;
    forall i | 0 <= i < |h| ensures own[i] <= r[i] && |h[i]| <= |r[i]| && !Donated(own, r, i) {
    }
    forall i, j | 0 <= i < |h| && 0 <= j < |h| && Received(own, r, i) && |r[i]| == q + 1
      ensures |r[j]| >= q
    {
      assert i == e || Received(own, h, i);
    }
  }

  lemma AddTotal(h: Held, e: nat, k: Key)
    requires e < |h| && k !in h[e]
    ensures Total(h[e := h[e] + {k}]) == Total(h) + 1
  {
    assert Sizes(h[e := h[e] + {k}]) == Sizes(h)[e := |h[e]| + 1];
    SumUpdate(Sizes(h), e, |h[e]| + 1);
  }

  /** Filling only ever adds, and only to a member holding no more than `q`. */
  lemma FillOneSparing(ms: seq<Member>, own: Held, h: Held, k: Key, q: int)
    requires |ms| == |h| == |own| > 0 && (forall i | 0 <= i < |ms| :: ms[i].SubscribesTo(k.topic))
    requires Sparing(own, h, q) && (forall i | 0 <= i < |h| :: own[i] <= h[i] && k !in h[i])
    requires Total(h) < |h| * (q + 1)
    ensures var r := FillOne(ms, h, k);
            && Sparing(own, r, q) && (forall i | 0 <= i < |h| :: own[i] <= r[i])
            && Total(r) == Total(h) + 1
            && forall i, x :: HeldAt(r, i, x) ==> HeldAt(h, i, x) || x == k
  {
    EmptiestBelow(ms, h, k, q);
    AddSparing(own, h, Emptiest(ms, h, k.topic), k, q);
    AddTotal(h, Emptiest(ms, h, k.topic), k);
  }

  lemma {:induction false} FillSparing(ms: seq<Member>, own: Held, h: Held, keys: seq<Key>, q: int)
    requires |ms| == |h| == |own| > 0 && Uniform(ms, keys) && Distinct(keys)
    requires Sparing(own, h, q) && (forall i | 0 <= i < |h| :: own[i] <= h[i])
    requires forall i, k | HeldAt(h, i, k) :: k !in keys
    requires Total(h) + |keys| < |h| * (q + 1)
    ensures Sparing(own, Fill(ms, h, keys), q)
    decreases |keys|
  {
    if keys != [] {
      assert keys[0] in keys;
      forall i | 0 <= i < |h| ensures keys[0] !in h[i] {
        assert HeldAt(h, i, keys[0]) <==> keys[0] in h[i];
      }
      hide Sparing;
      FillOneSparing(ms, own, h, keys[0], q);
      FillSparing(ms, own, FillOne(ms, h, keys[0]), keys[1..], q);
    }
  }

  lemma SparingPair(own: Held, h: Held, q: int, i: nat, j: nat)
    requires Sparing(own, h, q) && i < |h| && j < |h|
    ensures h[i] <= own[i] || (own[i] <= h[i] && |h[i]| <= q + 1 && (|h[i]| == q + 1 ==> |h[j]| >= q))
    ensures own[i] <= h[i] || (h[i] <= own[i] && |h[i]| >= q && (|h[i]| == q ==> |h[j]| <= q + 1))
  {
    assert own[i] <= h[i] || Donated(own, h, i);
    assert h[i] <= own[i] || Received(own, h, i);
  }

  /** A move drains a member that has only ever given, and fills one that has
      only ever been given. */
  lemma MoveSparing(ms: seq<Member>, own: Held, h: Held, m: Search, q: int)
    requires |ms| == |h| && Exclusive(h) && Sparing(own, h, q) && Average(Sizes(h), q) && IsWidest(ms, h, m)
    ensures h[m.from] <= own[m.from] && own[m.to] <= h[m.to]
    ensures |h[m.to]| <= q && q + 1 <= |h[m.from]|
  {
    AverageBetween(Sizes(h), q, m.from, m.to);
    SparingPair(own, h, q, m.from, m.to);
    SparingPair(own, h, q, m.to, m.from);
  }

  /** Draining a fullest member into an emptiest one, each only ever moved
      that way, spares the owners. */
  lemma ShiftSparing(own: Held, h: Held, r: Held, from: nat, to: nat, q: int)
    requires Sparing(own, h, q) && |r| == |h| && from < |h| && to < |h| && from != to
    requires forall i | 0 <= i < |h| :: |h[to]| <= |h[i]| <= |h[from]|
    requires |h[to]| <= q && q + 1 <= |h[from]| && |h[to]| + 2 <= |h[from]|
    requires r[from] < own[from] && |r[from]| == |h[from]| - 1
    requires own[to] < r[to] && |r[to]| == |h[to]| + 1
    requires forall i | 0 <= i < |h| && i != from && i != to :: r[i] == h[i]
    ensures Sparing(own, r, q)
  {
    assert FilledPast(own, r, q) ==> FilledPast(own, h, q) || |h[to]| == q;
    assert DrainedTo(own, r, q) ==> DrainedTo(own, h, q) || |h[from]| == q + 1;
  }

  lemma ApplySparing(ms: seq<Member>, own: Held, h: Held, m: Search, q: int)
    requires |ms| == |h| && Exclusive(h) && Sparing(own, h, q) && Average(Sizes(h), q) && IsWidest(ms, h, m)
    requires m.key !in own[m.to]
    ensures Sparing(own, Apply(h, m), q)
  {
    MoveSparing(ms, own, h, m, q);
    assert HeldAt(h, m.from, m.key) && !HeldAt(h, m.to, m.key);
    ShiftSparing(own, h, Apply(h, m), m.from, m.to, q);
  }

  lemma StepSparing(ms: seq<Member>, own: Held, h: Held, m: Search, q: int)
    requires |ms| == |h| && Exclusive(h) && Exclusive(own)
    requires Sparing(own, h, q) && Average(Sizes(h), q) && IsWidest(ms, h, m)
    ensures Sparing(own, Apply(h, m), q) && Average(Sizes(Apply(h, m)), q)
  {
    MoveSparing(ms, own, h, m, q);
    assert HeldAt(own, m.from, m.key);
    assert m.key in own[m.to] ==> HeldAt(own, m.to, m.key);
    ApplySparing(ms, own, h, m, q);
    ApplySizes(ms, h, m);
    ShiftKeepsSum(Sizes(h), m.from, m.to);
  }

  lemma {:induction false} BalanceSparing(ms: seq<Member>, keys: set<Key>, own: Held, h: Held, q: int, steps: nat)
    requires Partition(ms, keys, h) && Exclusive(own) && Sparing(own, h, q) && Average(Sizes(h), q)
    ensures Sparing(own, Balance(ms, h, steps), q)
    decreases steps
  {
    hide Sparing;
    hide Average;
    hide Exclusive;
    hide Allowed;
    hide Covers;
    if steps > 0 && Imbalance(ms, h).Move? {
      ImbalanceWidest(ms, h);
      StepSparing(ms, own, h, Imbalance(ms, h), q);
      ApplyPartition(ms, keys, h, Imbalance(ms, h));
      BalanceSparing(ms, keys, own, Apply(h, Imbalance(ms, h)), q, steps - 1);
    }
  }

  lemma SparingStart(own: Held, q: int)
    ensures Sparing(own, own, q)
  {
  }

  lemma FreeSize(ms: seq<Member>, all: seq<Key>, keys: seq<Key>)
    requires Distinct(keys)
    ensures |Free(ms, all, keys)| == |KeySet(Free(ms, all, keys))|
  {
    FreeDistinct(ms, all, keys);
    DistinctSize(Free(ms, all, keys));
  }

  lemma {:induction false} DistinctSize(keys: seq<Key>)
    requires Distinct(keys)
    ensures |KeySet(keys)| == |keys|
  {
    if keys != [] {
      DistinctSize(keys[1..]);
      assert KeySet(keys) == {keys[0]} + KeySet(keys[1..]);
      assert keys[0] !in KeySet(keys[1..]);
    }
  }

  /** The group's level: partitions per member, rounded down. */
  ghost function Level(ms: seq<Member>, all: seq<Key>): int
    requires |ms| > 0
  {
    |all| / |ms|
  }

  lemma LevelAverage(ms: seq<Member>, all: seq<Key>, h: Held)
    requires |ms| > 0 && Distinct(all) && Partition(ms, KeySet(all), h)
    ensures Average(Sizes(h), Level(ms, all))
  {
    PartitionTotal(ms, KeySet(all), h);
    DistinctSize(all);
    AverageOf(Sizes(h));
  }

  /** Owned and free keys together are all of them. */
  lemma OwnedAndFree(ms: seq<Member>, all: seq<Key>)
    requires Distinct(all)
    ensures Total(Owned(ms, all)) + |Free(ms, all, all)| == |all|
  {
    OwnedPartition(ms, all);
    PartitionTotal(ms, Claimed(ms, all), Owned(ms, all));
    FreeSize(ms, all, all);
    DistinctSize(all);
    assert KeySet(all) == Claimed(ms, all) + KeySet(Free(ms, all, all));
    assert Claimed(ms, all) !! KeySet(Free(ms, all, all));
  }

  lemma LevelBound(ms: seq<Member>, all: seq<Key>)
    requires |ms| > 0
    ensures |all| < |ms| * (Level(ms, all) + 1)
  {
  }

  lemma FilledSparing(ms: seq<Member>, all: seq<Key>)
    requires |ms| > 0 && Wanted(ms, all) && Uniform(ms, all)
    ensures Sparing(Owned(ms, all), Filled(ms, all), Level(ms, all))
  {
    var own, free, q := Owned(ms, all), Free(ms, all, all), Level(ms, all);
    SparingStart(own, q);
    OwnedAndFree(ms, all);
    LevelBound(ms, all);
    FreeDistinct(ms, all, all);
    assert Uniform(ms, free);
    FillSparing(ms, own, own, free, q);
  }

  /** What the target did to the owners' holdings. */
  lemma TargetSparing(ms: seq<Member>, all: seq<Key>)
    requires |ms| > 0 && Wanted(ms, all) && Uniform(ms, all)
    ensures Sparing(Owned(ms, all), Target(ms, all), Level(ms, all))
  {
    var filled := Filled(ms, all);
    FilledSparing(ms, all);
    FilledPartition(ms, all);
    LevelAverage(ms, all, filled);
    OwnedPartition(ms, all);
    BalanceSparing(ms, KeySet(all), Owned(ms, all), filled, Level(ms, all),
                   if Total(filled) < 0 then 0 else 2 * Total(filled));
  }

  // ------------------------------------------------------------------ counting losses

  /** How many of its own keys each member no longer has. */
  function Losses(own: Held, h: Held): (r: seq<int>)
    requires |own| == |h|
    ensures |r| == |h| && forall i | 0 <= i < |h| :: r[i] == |own[i] - h[i]|
  {
    seq(|h|, i requires 0 <= i < |h| => |own[i] - h[i]|)
  }

  function Lost(own: Held, h: Held): int
    requires |own| == |h|
  {
    Sum(Losses(own, h))
  }

  /** How far `a` falls short of `c`. */
  function Short(c: int, a: int): int {
    if a < c then c - a else 0
  }

  function Shorts(c: seq<int>, a: seq<int>): (r: seq<int>)
    requires |c| == |a|
    ensures |r| == |c| && forall i | 0 <= i < |c| :: r[i] == Short(c[i], a[i])
  {
    seq(|c|, i requires 0 <= i < |c| => Short(c[i], a[i]))
  }

  lemma DifferenceSize(a: set<Key>, b: set<Key>)
    ensures |a - b| >= Short(|a|, |b|)
    ensures a <= b || b <= a ==> |a - b| == Short(|a|, |b|)
  {
    assert a == (a - b) + (a * b);
    SubsetSize(a * b, b);
    if a <= b {
      assert a - b == {};
      SubsetSize(a, b);
    } else if b <= a {
      assert a * b == b;
    }
  }

  /** No assignment loses less than its sizes force, and one in which nobody
      both receives and donates loses exactly that. */
  lemma LossesAtLeastShorts(own: Held, h: Held)
    requires |own| == |h|
    ensures Sum(Shorts(Sizes(own), Sizes(h))) <= Lost(own, h)
    ensures (forall i | 0 <= i < |h| :: own[i] <= h[i] || h[i] <= own[i]) ==>
              Sum(Shorts(Sizes(own), Sizes(h))) == Lost(own, h)
  {
    forall i | 0 <= i < |h|
      ensures Short(|own[i]|, |h[i]|) <= |own[i] - h[i]|
      ensures own[i] <= h[i] || h[i] <= own[i] ==> Short(|own[i]|, |h[i]|) == |own[i] - h[i]|
    {
      DifferenceSize(own[i], h[i]);
    }
    SumMonotone(Shorts(Sizes(own), Sizes(h)), Losses(own, h));
    if forall i | 0 <= i < |h| :: own[i] <= h[i] || h[i] <= own[i] {
      assert Shorts(Sizes(own), Sizes(h)) == Losses(own, h);
    }
  }

  ghost predicate LevelAt(s: seq<int>, q: int) {
    forall i | 0 <= i < |s| :: q <= s[i] <= q + 1
  }

  lemma WithinOneLevel(h: Held, q: int)
    requires WithinOne(h) && Average(Sizes(h), q)
    ensures LevelAt(Sizes(h), q)
  {
    var s := Sizes(h);
    forall i | 0 <= i < |s| ensures q <= s[i] <= q + 1 {
      if s[i] < q {
        SumAtMost(s, q);
      } else if s[i] > q + 1 {
        SumAtLeast(s, q + 1);
      }
    }
  }

  /** Nobody who was drained to `q`: every term is as small as it can be. */
  lemma ShortsPointwise(c: seq<int>, a: seq<int>, b: seq<int>, q: int)
    requires |c| == |a| == |b| && LevelAt(a, q) && LevelAt(b, q)
    requires forall i | 0 <= i < |c| && c[i] > q :: a[i] == q + 1
    ensures Sum(Shorts(c, a)) <= Sum(Shorts(c, b))
  {
    SumMonotone(Shorts(c, a), Shorts(c, b));
  }

  /** Nobody was filled past `q`: the spare places all went to their owners. */
  lemma ShortsByTotal(c: seq<int>, a: seq<int>, b: seq<int>, q: int)
    requires |c| == |a| == |b| && LevelAt(a, q) && LevelAt(b, q) && Sum(a) == Sum(b)
    requires forall i | 0 <= i < |c| && a[i] == q + 1 :: c[i] > q
    ensures Sum(Shorts(c, a)) <= Sum(Shorts(c, b))
  {
    SumCombine(Plus(Shorts(c, a), a), Shorts(c, a), a);
    SumCombine(Plus(Shorts(c, b), b), Shorts(c, b), b);
    SumMonotone(Plus(Shorts(c, a), a), Plus(Shorts(c, b), b));
  }

  function Plus(a: seq<int>, b: seq<int>): (r: seq<int>)
    requires |a| == |b|
    ensures |r| == |a| && forall i | 0 <= i < |a| :: r[i] == a[i] + b[i]
  {
    seq(|a|, i requires 0 <= i < |a| => a[i] + b[i])
  }

  /** A sparing level assignment falls short of the owners' holdings by no more
      than any other level assignment of the same total. */
  lemma SparingShortest(own: Held, h: Held, b: seq<int>, q: int)
    requires Sparing(own, h, q) && |b| == |h|
    requires LevelAt(Sizes(h), q) && LevelAt(b, q) && Sum(Sizes(h)) == Sum(b)
    ensures Sum(Shorts(Sizes(own), Sizes(h))) <= Sum(Shorts(Sizes(own), b))
  {
    var c, a := Sizes(own), Sizes(h);
    if DrainedTo(own, h, q) {
      forall i | 0 <= i < |c| && a[i] == q + 1 ensures c[i] > q {
        assert !Received(own, h, i);
        SubsetSize(h[i], own[i]);
      }
      ShortsByTotal(c, a, b, q);
    } else {
      forall i | 0 <= i < |c| && c[i] > q ensures a[i] == q + 1 {
        assert Donated(own, h, i) ==> |h[i]| != q;
        if own[i] <= h[i] {
          SubsetSize(own[i], h[i]);
        }
      }
      ShortsPointwise(c, a, b, q);
    }
  }

  // ------------------------------------------------------------------------ the theorem

  ghost function WithheldKeys(ms: seq<Member>, counts: Counts): set<Key> {
    set k | k in AllKeys(ms, counts) && !Assigned(Round(ms, counts), k)
  }

  /** What each member owned and the target took from it. */
  ghost function Gone(own: Held, t: Held): (r: Held)
    requires |own| == |t|
    ensures |r| == |own| && forall i | 0 <= i < |own| :: r[i] == own[i] - t[i]
  {
    seq(|own|, i requires 0 <= i < |own| => own[i] - t[i])
  }

  lemma GoneIsWithheld(ms: seq<Member>, counts: Counts, k: Key)
    requires ValidCounts(counts)
    ensures var all := AllKeys(ms, counts);
            k in WithheldKeys(ms, counts) <==> Assigned(Gone(Owned(ms, all), Target(ms, all)), k)
  {
    var all := AllKeys(ms, counts);
    var gone := Gone(Owned(ms, all), Target(ms, all));
    RoundExact(ms, counts);
    hide Exclusive;
    hide Allowed;
    hide Target;
    hide Round;
    hide AllKeys;
    if k in WithheldKeys(ms, counts) {
      assert HeldAt(gone, Owner(ms, all, k), k);
    }
    if Assigned(gone, k) {
      var i :| HeldAt(gone, i, k);
      assert Owner(ms, all, k) == i;
    }
  }

  /** What a round withholds is what the owners lost to the target. */
  lemma WithheldIsLost(ms: seq<Member>, counts: Counts)
    requires ValidCounts(counts)
    ensures var all := AllKeys(ms, counts);
            |WithheldKeys(ms, counts)| == Lost(Owned(ms, all), Target(ms, all))
  {
    var all := AllKeys(ms, counts);
    var own, t := Owned(ms, all), Target(ms, all);
    OwnedPartition(ms, all);
    assert forall i, k :: HeldAt(Gone(own, t), i, k) ==> HeldAt(own, i, k);
    forall k ensures k in WithheldKeys(ms, counts) <==> Assigned(Gone(own, t), k) {
      GoneIsWithheld(ms, counts, k);
    }
    TotalIsUnion(Gone(own, t), WithheldKeys(ms, counts));
    assert Sizes(Gone(own, t)) == Losses(own, t);
  }

  /** Every member subscribes to every topic with a count. */
  ghost predicate UniformCounts(ms: seq<Member>, counts: Counts) {
    forall i, j | 0 <= i < |ms| && 0 <= j < |counts| :: ms[i].SubscribesTo(counts[j].0)
  }

  lemma UniformKeys(ms: seq<Member>, counts: Counts)
    requires UniformCounts(ms, counts)
    ensures Uniform(ms, AllKeys(ms, counts))
  {
    forall i, k | 0 <= i < |ms| && k in AllKeys(ms, counts) ensures ms[i].SubscribesTo(k.topic) {
      AllKeysExact(ms, counts, k);
    }
  }

  lemma LevelShorts(ms: seq<Member>, all: seq<Key>, other: Held)
    requires |ms| > 0 && Wanted(ms, all) && Uniform(ms, all)
    requires Partition(ms, KeySet(all), other) && WithinOne(other)
    ensures Lost(Owned(ms, all), Target(ms, all)) <= Lost(Owned(ms, all), other)
  {
    var own, t, q := Owned(ms, all), Target(ms, all), Level(ms, all);
    TargetLevel(ms, all);
    TargetSparing(ms, all);
    LevelAverage(ms, all, t);
    LevelAverage(ms, all, other);
    WithinOneLevel(t, q);
    WithinOneLevel(other, q);
    PartitionTotal(ms, KeySet(all), t);
    PartitionTotal(ms, KeySet(all), other);
    SparingShortest(own, t, Sizes(other), q);
    LossesAtLeastShorts(own, t);
    LossesAtLeastShorts(own, other);
  }

  /** Minimal movement. The target is itself complete and level, and the number
      of partitions the round withholds is the least number of owner losses any
      complete assignment within one of level can have. */
  lemma MinimalMovement(ms: seq<Member>, counts: Counts)
    requires ms != [] && ValidCounts(counts) && UniformCounts(ms, counts)
    ensures var all := AllKeys(ms, counts); var own := Owned(ms, all);
            && Partition(ms, KeySet(all), Target(ms, all)) && WithinOne(Target(ms, all))
            && |WithheldKeys(ms, counts)| == Lost(own, Target(ms, all))
            && forall other: Held | Partition(ms, KeySet(all), other) && WithinOne(other) ::
                 |WithheldKeys(ms, counts)| <= Lost(own, other)
  {
    var all := AllKeys(ms, counts);
    AllKeysWanted(ms, counts);
    UniformKeys(ms, counts);
    TargetLevel(ms, all);
    WithheldIsLost(ms, counts);
    forall other: Held | Partition(ms, KeySet(all), other) && WithinOne(other)
      ensures |WithheldKeys(ms, counts)| <= Lost(Owned(ms, all), other)
    {
      LevelShorts(ms, all, other);
    }
  }
}
