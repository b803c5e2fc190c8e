/** The balancing loop: how far each move gets, why its cap never binds, and
    where it stops. */
module StickyBalance {
  import opened Order
  import opened Sums
  import opened Group
  import opened Sticky
  import opened StickyExact

  /** How far a size is from being `q` or `q + 1`. */
  function Off(x: int, q: int): (d: int)
    ensures d >= 0 && (d == 0 <==> q <= x <= q + 1)
  {
    if x < q then q - x else if x > q + 1 then x - q - 1 else 0
  }

  function Offs(s: seq<int>, q: int): (r: seq<int>)
    ensures |r| == |s| && forall i | 0 <= i < |s| :: r[i] == Off(s[i], q)
  {
    seq(|s|, i requires 0 <= i < |s| => Off(s[i], q))
  }

  function Deviation(s: seq<int>, q: int): int {
    Sum(Offs(s, q))
  }

  function Squares(s: seq<int>): (r: seq<int>)
    ensures |r| == |s| && forall i | 0 <= i < |s| :: r[i] == s[i] * s[i]
  {
    seq(|s|, i requires 0 <= i < |s| => s[i] * s[i])
  }

  function Constant(n: nat, c: int): (r: seq<int>)
    ensures |r| == n && forall i | 0 <= i < n :: r[i] == c
  {
    seq(n, i => c)
  }

  /** `q` is the sizes' average rounded down. */
  ghost predicate Average(s: seq<int>, q: int) {
    |s| * q <= Sum(s) < |s| * (q + 1)
  }

  lemma AverageOf(s: seq<int>)
    requires |s| > 0
    ensures Average(s, Sum(s) / |s|)
  {
  }

  lemma SumAtLeast(s: seq<int>, c: int)
    requires forall i | 0 <= i < |s| :: c <= s[i]
    ensures |s| * c <= Sum(s)
  {
    SumConstant(Constant(|s|, c), c);
    SumMonotone(Constant(|s|, c), s);
  }

  lemma SumAtMost(s: seq<int>, c: int)
    requires forall i | 0 <= i < |s| :: s[i] <= c
    ensures Sum(s) <= |s| * c
    ensures Sum(s) == |s| * c ==> forall i | 0 <= i < |s| :: s[i] == c
  {
    SumConstant(Constant(|s|, c), c);
    SumMonotone(s, Constant(|s|, c));
  }

  /** A donor above and a receiver below: the average lies between them. */
  lemma AverageBetween(s: seq<int>, q: int, from: nat, to: nat)
    requires Average(s, q) && from < |s| && to < |s| && s[from] >= s[to] + 2
    requires forall i | 0 <= i < |s| :: s[to] <= s[i] <= s[from]
    ensures s[to] <= q && q + 1 <= s[from]
  {
    if s[from] <= q {
      SumAtMost(s, q);
    }
    if s[to] >= q + 1 {
      SumAtLeast(s, q + 1);
    }
  }

  function Shift(s: seq<int>, from: nat, to: nat): (r: seq<int>)
    requires from < |s| && to < |s| && from != to
    ensures |r| == |s|
  {
    s[from := s[from] - 1][to := s[to] + 1]
  }

  lemma ShiftKeepsSum(s: seq<int>, from: nat, to: nat)
    requires from < |s| && to < |s| && from != to
    ensures Sum(Shift(s, from, to)) == Sum(s)
  {
    SumUpdate(s, from, s[from] - 1);
    SumUpdate(s[from := s[from] - 1], to, s[to] + 1);
  }

  lemma ApplySizes(ms: seq<Member>, h: Held, m: Search)
    requires |ms| == |h| && Exclusive(h) && IsWidest(ms, h, m)
    ensures Sizes(Apply(h, m)) == Shift(Sizes(h), m.from, m.to)
  {
    assert HeldAt(h, m.from, m.key) && !HeldAt(h, m.to, m.key);
  }

  /** Each move brings the sizes at least one closer to level. */
  lemma MoveLowersDeviation(s: seq<int>, q: int, from: nat, to: nat)
    requires Average(s, q) && from < |s| && to < |s| && s[from] >= s[to] + 2
    requires forall i | 0 <= i < |s| :: s[to] <= s[i] <= s[from]
    ensures Average(Shift(s, from, to), q)
    ensures Deviation(Shift(s, from, to), q) <= Deviation(s, q) - 1
  {
    AverageBetween(s, q, from, to);
    ShiftKeepsSum(s, from, to);
    var r := Shift(s, from, to);
    var mid := Offs(s, q)[from := Off(s[from] - 1, q)];
    assert Offs(r, q) == mid[to := Off(s[to] + 1, q)];
    SumUpdate(Offs(s, q), from, Off(s[from] - 1, q));
    SumUpdate(mid, to, Off(s[to] + 1, q));
  }

  lemma MoveLowersSquares(s: seq<int>, from: nat, to: nat)
    requires from < |s| && to < |s| && s[from] >= s[to] + 2
    ensures Sum(Squares(Shift(s, from, to))) <= Sum(Squares(s)) - 2
  {
    var r := Shift(s, from, to);
    var a, b := s[from], s[to];
    var less, more := (a - 1) * (a - 1), (b + 1) * (b + 1);
    assert less == a * a - 2 * a + 1 && more == b * b + 2 * b + 1;
    var mid := Squares(s)[from := less];
    assert Squares(r) == mid[to := more];
    SumUpdate(Squares(s), from, less);
    SumUpdate(mid, to, more);
  }

  /** Every move the balancer makes strictly lowers the sum of squared sizes,
      whatever the subscriptions. */
  lemma EveryMoveLevels(ms: seq<Member>, h: Held)
    requires |ms| == |h| && Exclusive(h) && Imbalance(ms, h).Move?
    ensures IsWidest(ms, h, Imbalance(ms, h))
    ensures Sum(Squares(Sizes(Apply(h, Imbalance(ms, h))))) < Sum(Squares(Sizes(h)))
  {
    ImbalanceWidest(ms, h);
    var m := Imbalance(ms, h);
    ApplySizes(ms, h, m);
    MoveLowersSquares(Sizes(h), m.from, m.to);
  }

  lemma DeviationBound(s: seq<int>, q: int)
    requires Average(s, q) && q >= 0 && forall i | 0 <= i < |s| :: s[i] >= 0
    ensures 0 <= Deviation(s, q) <= 2 * Sum(s)
  {
    var c := Constant(|s|, q);
    var both := seq(|s|, i requires 0 <= i < |s| => s[i] + c[i]);
    SumCombine(both, s, c);
    SumConstant(c, q);
    SumMonotone(Offs(s, q), both);
    SumAtLeast(Offs(s, q), 0);
  }

  lemma LevelIffNoDeviation(s: seq<int>, q: int)
    requires Deviation(s, q) <= 0
    ensures forall i | 0 <= i < |s| :: q <= s[i] <= q + 1
  {
    var zero := Constant(|s|, 0);
    SumConstant(zero, 0);
    SumMonotone(zero, Offs(s, q));
  }

  /** No pair is left that the search would move. */
  ghost predicate Settled(ms: seq<Member>, h: Held)
    requires |ms| == |h|
  {
    !Imbalance(ms, h).Move?
  }

  /** As many steps as the deviation are enough for the search to run dry. */
  lemma {:induction false} BalanceSettles(ms: seq<Member>, keys: set<Key>, h: Held, q: int, steps: nat)
    requires Partition(ms, keys, h) && Average(Sizes(h), q) && Deviation(Sizes(h), q) <= steps
    ensures Settled(ms, Balance(ms, h, steps))
    decreases steps
  {
    hide Imbalance;
    hide Balance;
    hide Deviation;
    hide Average;
    if steps == 0 {
      BalanceNothing(ms, h);
      NoDeviationSettled(ms, h, q);
    } else {
      BalanceTurn(ms, h, steps);
      if Imbalance(ms, h).Move? {
        MoveProgress(ms, keys, h, q);
        BalanceSettles(ms, keys, Apply(h, Imbalance(ms, h)), q, steps - 1);
      }
    }
  }

  lemma NoDeviationSettled(ms: seq<Member>, h: Held, q: int)
    requires |ms| == |h| && Deviation(Sizes(h), q) <= 0
    ensures Settled(ms, h)
  {
    hide Imbalance;
    ImbalanceWidest(ms, h);
    LevelIffNoDeviation(Sizes(h), q);
  }

  lemma MoveProgress(ms: seq<Member>, keys: set<Key>, h: Held, q: int)
    requires Partition(ms, keys, h) && Average(Sizes(h), q) && Imbalance(ms, h).Move?
    ensures var m := Imbalance(ms, h);
            && m.from < |h| && m.to < |h|
            && Partition(ms, keys, Apply(h, m)) && Average(Sizes(Apply(h, m)), q)
            && Deviation(Sizes(Apply(h, m)), q) <= Deviation(Sizes(h), q) - 1
  {
    hide Imbalance;
    hide Deviation;
    hide Average;
    var m := Imbalance(ms, h);
    ImbalanceWidest(ms, h);
    ApplyPartition(ms, keys, h, m);
    ApplySizes(ms, h, m);
    MoveLowersDeviation(Sizes(h), q, m.from, m.to);
  }

  lemma {:induction false} BalanceStable(ms: seq<Member>, h: Held, steps: nat, more: nat)
    requires |ms| == |h| && Settled(ms, Balance(ms, h, steps)) && steps <= more
    ensures Balance(ms, h, more) == Balance(ms, h, steps)
    decreases steps
  {
    hide Imbalance;
    if steps > 0 && Imbalance(ms, h).Move? {
      ImbalanceWidest(ms, h);
      hide IsWidest;
      hide WithinOne;
      BalanceStable(ms, Apply(h, Imbalance(ms, h)), steps - 1, more - 1);
    }
  }

  /** The cap of twice the total is never what stops the loop: the search has
      run dry by then, and any larger cap gives the same holdings. Subscriptions
      are arbitrary. */
  lemma CapNeverBinds(ms: seq<Member>, keys: set<Key>, h: Held)
    requires Partition(ms, keys, h)
    ensures Total(h) == |keys|
    ensures Settled(ms, Balance(ms, h, 2 * |keys|))
    ensures forall more: nat | more >= 2 * |keys| :: Balance(ms, h, more) == Balance(ms, h, 2 * |keys|)
  {
    PartitionTotal(ms, keys, h);
    if |h| == 0 {
      ImbalanceWidest(ms, h);
    } else {
      var q := Total(h) / |h|;
      AverageOf(Sizes(h));
      DeviationBound(Sizes(h), q);
      BalanceSettles(ms, keys, h, q, 2 * |keys|);
    }
    forall more: nat | more >= 2 * |keys| ensures Balance(ms, h, more) == Balance(ms, h, 2 * |keys|) {
      BalanceStable(ms, h, 2 * |keys|, more);
    }
  }

  // --------------------------------------------------------- uniform subscriptions

  /** Every member subscribes to every listed topic. */
  ghost predicate Uniform(ms: seq<Member>, all: seq<Key>) {
    forall i, k | 0 <= i < |ms| && k in all :: ms[i].SubscribesTo(k.topic)
  }

  lemma UniformMovable(ms: seq<Member>, all: seq<Key>, h: Held, from: nat, to: nat)
    requires Partition(ms, KeySet(all), h) && Uniform(ms, all)
    requires from < |h| && to < |h| && |h[from]| > 0
    ensures Movable(ms, h, from, to) != {}
  {
    var k :| k in h[from];
    assert HeldAt(h, from, k);
    assert k in Movable(ms, h, from, to);
  }

  /** Under uniform subscriptions the widest pair can always be moved, so a
      group the search has given up on is within one of level. */
  lemma SettledIsLevel(ms: seq<Member>, all: seq<Key>, h: Held)
    requires Partition(ms, KeySet(all), h) && Uniform(ms, all) && Settled(ms, h)
    ensures WithinOne(h)
  {
    ImbalanceWidest(ms, h);
    if Imbalance(ms, h).Abandoned? {
      var from, to :| 0 <= from < |h| && 0 <= to < |h| && |h[from]| >= |h[to]| + 2 && Movable(ms, h, from, to) == {};
      UniformMovable(ms, all, h, from, to);
      assert false;
    }
  }

  /** Any group: the target is complete and exclusive, nothing more can be moved in it,
      and it is within one of level exactly when it is not the case that
      its emptiest member could take nothing from its fullest. */
  lemma TargetLevelIff(ms: seq<Member>, all: seq<Key>)
    requires Wanted(ms, all)
    ensures var t := Target(ms, all);
            && Partition(ms, KeySet(all), t) && Settled(ms, t)
            && (WithinOne(t) <==> !exists from: nat, to: nat :: WidestPair(t, from, to) && Movable(ms, t, from, to) == {})
  {
    hide Imbalance;
    hide Balance;
    hide Partition;
    TargetPartition(ms, all);
    FilledPartition(ms, all);
    CapNeverBinds(ms, KeySet(all), Filled(ms, all));
    ImbalanceWidest(ms, Target(ms, all));
  }

  /** The balanced target of a uniform group: complete, exclusive, within one. */
  lemma TargetLevel(ms: seq<Member>, all: seq<Key>)
    requires Wanted(ms, all) && Uniform(ms, all)
    ensures Partition(ms, KeySet(all), Target(ms, all)) && WithinOne(Target(ms, all))
  {
    TargetPartition(ms, all);
    FilledPartition(ms, all);
    CapNeverBinds(ms, KeySet(all), Filled(ms, all));
    SettledIsLevel(ms, all, Target(ms, all));
  }
}
