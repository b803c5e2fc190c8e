/** The `cooperative-sticky` assignor (KIP-429), phase by phase.

    Specifications are by position: entry `i` of a `Held` belongs to the i-th
    member in id order, which is the order a `BTreeMap` keyed by member id
    yields. The methods keep the maps keyed by id. */
module Sticky {
  import opened Order
  import opened Sums
  import opened Group

  type Held = seq<set<Key>>

  // -------------------------------------------------- phase one: who holds what

  /** A claim counts when the partition exists and the claimant still subscribes. */
  predicate Claims(m: Member, all: seq<Key>, k: Key) {
    k in m.owned && k in all && m.SubscribesTo(k.topic)
  }

  /** The resolved owner of `k` among the first `n` members, or -1: the highest
      generation wins, and a tie goes to the smallest member id. */
  function OwnerUpTo(ms: seq<Member>, all: seq<Key>, n: nat, k: Key): (r: int)
    requires n <= |ms|
    ensures -1 <= r < n
    ensures r < 0 ==> forall i | 0 <= i < n :: !Claims(ms[i], all, k)
    ensures r >= 0 ==> Claims(ms[r], all, k)
    ensures r >= 0 ==> forall i | 0 <= i < n && Claims(ms[i], all, k) ::
              ms[i].generation < ms[r].generation || (ms[i].generation == ms[r].generation && r <= i)
  {
    if n == 0 then -1
    else
      var before := OwnerUpTo(ms, all, n - 1, k);
      if Claims(ms[n - 1], all, k) && (before < 0 || ms[before].generation < ms[n - 1].generation)
      then n - 1
      else before
  }

  function Owner(ms: seq<Member>, all: seq<Key>, k: Key): (r: int)
    ensures -1 <= r < |ms|
  {
    OwnerUpTo(ms, all, |ms|, k)
  }

  function OwnedBy(ms: seq<Member>, all: seq<Key>, i: nat): (s: set<Key>)
    ensures forall k :: k in s <==> k in all && Owner(ms, all, k) == i
  {
    set k | k in all && Owner(ms, all, k) == i
  }

  function Owned(ms: seq<Member>, all: seq<Key>): (h: Held)
    ensures |h| == |ms| && forall i | 0 <= i < |ms| :: h[i] == OwnedBy(ms, all, i)
  {
    seq(|ms|, i requires 0 <= i => OwnedBy(ms, all, i))
  }

  // ------------------------------------------------------ phase two: fill up

  /** The first of the first `n` members that subscribes to `topic` and holds
      least, or -1. */
  function EmptiestUpTo(ms: seq<Member>, h: Held, topic: string, n: nat): (r: int)
    requires n <= |ms| == |h|
    ensures -1 <= r < n
    ensures r < 0 ==> forall i | 0 <= i < n :: !ms[i].SubscribesTo(topic)
    ensures r >= 0 ==> ms[r].SubscribesTo(topic)
    ensures r >= 0 ==> forall i | 0 <= i < n && ms[i].SubscribesTo(topic) ::
              |h[r]| < |h[i]| || (|h[r]| == |h[i]| && r <= i)
  {
    if n == 0 then -1
    else
      var before := EmptiestUpTo(ms, h, topic, n - 1);
      if ms[n - 1].SubscribesTo(topic) && (before < 0 || |h[n - 1]| < |h[before]|) then n - 1 else before
  }

  function Emptiest(ms: seq<Member>, h: Held, topic: string): (r: int)
    requires |ms| == |h|
    ensures -1 <= r < |ms|
  {
    EmptiestUpTo(ms, h, topic, |ms|)
  }

  function FillOne(ms: seq<Member>, h: Held, k: Key): (r: Held)
    requires |ms| == |h|
    ensures |r| == |h|
  {
    var e := Emptiest(ms, h, k.topic);
    if e < 0 then h else h[e := h[e] + {k}]
  }

  /** Hand each of `keys`, in order, to whoever then has the least. */
  function Fill(ms: seq<Member>, h: Held, keys: seq<Key>): (r: Held)
    requires |ms| == |h|
    ensures |r| == |h|
    decreases |keys|
  {
    if keys == [] then h else Fill(ms, FillOne(ms, h, keys[0]), keys[1..])
  }

  /** The keys of `keys` nobody validly claims, in order. */
  function Free(ms: seq<Member>, all: seq<Key>, keys: seq<Key>): (r: seq<Key>)
    ensures forall k :: k in r <==> k in keys && Owner(ms, all, k) < 0
  {
    if keys == [] then []
    else (if Owner(ms, all, keys[0]) < 0 then [keys[0]] else []) + Free(ms, all, keys[1..])
  }

  // ------------------------------------------------------- phase three: balance

  /** `by_size` order: larger first, ties to the smaller id. */
  predicate Precedes(h: Held, a: nat, b: nat)
    requires a < |h| && b < |h|
  {
    |h[a]| > |h[b]| || (|h[a]| == |h[b]| && a < b)
  }

  ghost predicate InRange(s: seq<nat>, n: nat) {
    forall i | 0 <= i < |s| :: s[i] < n
  }

  function InsertBySize(h: Held, x: nat, s: seq<nat>): (r: seq<nat>)
    requires x < |h| && InRange(s, x)
    ensures |r| == |s| + 1 && forall y: nat :: y in r <==> y == x || y in s
    ensures InRange(r, x + 1)
  {
    if s == [] then [x]
    else if Precedes(h, x, s[0]) then [x] + s
    else
      var r := [s[0]] + InsertBySize(h, x, s[1..]);
      assert forall y: nat :: y in s <==> y == s[0] || y in s[1..];
      r
  }

  /** The positions from `n` down to 0, in `by_size` order. */
  function BySize(h: Held, n: nat): (r: seq<nat>)
    requires n <= |h|
    ensures |r| == n && InRange(r, n) && forall y: nat :: y in r <==> y < n
  {
    if n == 0 then [] else InsertBySize(h, n - 1, BySize(h, n - 1))
  }

  /** How the search over pairs ended: every pair examined, abandoned by the
      `?` at a pair with nothing to move, or with a move. */
  datatype Search = Exhausted | Abandoned | Move(from: nat, to: nat, key: Key)

  /** The keys of `from` that `to` may take. */
  function Movable(ms: seq<Member>, h: Held, from: nat, to: nat): set<Key>
    requires |ms| == |h| && from < |h| && to < |h|
  {
    set k <- h[from] | ms[to].SubscribesTo(k.topic)
  }

  /** The inner loop: partners for `from` among the first `n` of `order`,
      emptiest first, that is from the back. */
  function Partner(ms: seq<Member>, h: Held, order: seq<nat>, from: nat, n: nat): (r: Search)
    requires |ms| == |h| && n <= |order| && from < |h| && InRange(order, |h|)
  {
    if n == 0 then Exhausted
    else
      var to := order[n - 1];
      if |h[from]| <= |h[to]| + 1 then Partner(ms, h, order, from, n - 1)
      else if Movable(ms, h, from, to) == {} then Abandoned
      else Move(from, to, First(Movable(ms, h, from, to)))
  }

  /** The outer loop: donors from position `n` of `order` on, fullest first. */
  function Donor(ms: seq<Member>, h: Held, order: seq<nat>, n: nat): (r: Search)
    requires |ms| == |h| && n <= |order| && InRange(order, |h|)
    decreases |order| - n
  {
    if n == |order| then Exhausted
    else
      var r := Partner(ms, h, order, order[n], |order|);
      if r.Exhausted? then Donor(ms, h, order, n + 1) else r
  }

  function Imbalance(ms: seq<Member>, h: Held): Search
    requires |ms| == |h|
  {
    Donor(ms, h, BySize(h, |h|), 0)
  }

  function Apply(h: Held, m: Search): (r: Held)
    requires m.Move? && m.from < |h| && m.to < |h|
    ensures |r| == |h|
  {
    var taken := h[m.from := h[m.from] - {m.key}];
    taken[m.to := taken[m.to] + {m.key}]
  }

  function Sizes(h: Held): (s: seq<int>)
    ensures |s| == |h| && forall i | 0 <= i < |h| :: s[i] == |h[i]|
  {
    seq(|h|, i requires 0 <= i < |h| => |h[i]|)
  }

  function Total(h: Held): int {
    Sum(Sizes(h))
  }

  /** The fullest member and the emptiest, more than one apart: of several equally
      full the one with the smallest id, of several equally empty the one with the
      largest. There is at most one such pair. */
  ghost predicate WidestPair(h: Held, from: nat, to: nat) {
    && from < |h| && to < |h|
    && |h[from]| >= |h[to]| + 2
    && (forall i | 0 <= i < |h| :: |h[to]| <= |h[i]| <= |h[from]|)
    && (forall i | 0 <= i < |h| && |h[i]| == |h[from]| :: from <= i)
    && (forall i | 0 <= i < |h| && |h[i]| == |h[to]| :: i <= to)
  }

  /** A move names the widest pair, and the first of the donor's keys the receiver may
      take. */
  ghost predicate IsWidest(ms: seq<Member>, h: Held, m: Search)
    requires |ms| == |h|
  {
    && m.Move? && WidestPair(h, m.from, m.to)
    && m.key in h[m.from] && ms[m.to].SubscribesTo(m.key.topic)
    && IsFirst(Movable(ms, h, m.from, m.to), m.key)
  }

  ghost predicate WithinOne(h: Held) {
    forall i, j | 0 <= i < |h| && 0 <= j < |h| :: |h[i]| <= |h[j]| + 1
  }

  ghost predicate InOrder(h: Held, s: seq<nat>)
    requires InRange(s, |h|)
  {
    forall i, j | 0 <= i < j < |s| :: Precedes(h, s[i], s[j])
  }

  lemma {:induction false} InsertBySizeSorted(h: Held, x: nat, s: seq<nat>)
    requires x < |h| && InRange(s, x) && InOrder(h, s)
    ensures InOrder(h, InsertBySize(h, x, s))
  {
    if s != [] && Precedes(h, x, s[0]) {
      forall i | 0 <= i < |s| ensures Precedes(h, x, s[i]) {
        assert i == 0 || Precedes(h, s[0], s[i]);
      }
    } else if s != [] {
      InsertBySizeSorted(h, x, s[1..]);
      var r := InsertBySize(h, x, s[1..]);
      forall i | 0 <= i < |r| ensures Precedes(h, s[0], r[i]) {
        assert r[i] in r;
        if r[i] != x {
          var j :| 0 <= j < |s| - 1 && s[1..][j] == r[i];
        }
      }
    }
  }

  lemma {:induction false} BySizeSorted(h: Held, n: nat)
    requires n <= |h|
    ensures InOrder(h, BySize(h, n))
  {
    if n > 0 {
      BySizeSorted(h, n - 1);
      InsertBySizeSorted(h, n - 1, BySize(h, n - 1));
    }
  }

  lemma {:induction false} PartnerExhausted(ms: seq<Member>, h: Held, order: seq<nat>, from: nat, n: nat)
    requires |ms| == |h| && n <= |order| && from < |h| && InRange(order, |h|)
    requires forall i | 0 <= i < n :: |h[from]| <= |h[order[i]]| + 1
    ensures Partner(ms, h, order, from, n) == Exhausted
  {
    if n > 0 {
      PartnerExhausted(ms, h, order, from, n - 1);
    }
  }

  lemma {:induction false} DonorExhausted(ms: seq<Member>, h: Held, order: seq<nat>, n: nat)
    requires |ms| == |h| && n <= |order| && InRange(order, |h|)
    requires WithinOne(h)
    ensures Donor(ms, h, order, n) == Exhausted
    decreases |order| - n
  {
    if n < |order| {
      PartnerExhausted(ms, h, order, order[n], |order|);
      DonorExhausted(ms, h, order, n + 1);
    }
  }

  /** First and last in `by_size` order: the fullest member with the smallest
      id, and the emptiest with the largest. */
  lemma BySizeEnds(h: Held, i: nat)
    requires i < |h|
    ensures var order := BySize(h, |h|);
            && |order| == |h|
            && |h[order[|h| - 1]]| <= |h[i]| <= |h[order[0]]|
            && (|h[i]| == |h[order[0]]| ==> order[0] <= i)
            && (|h[i]| == |h[order[|h| - 1]]| ==> i <= order[|h| - 1])
  {
    BySizeSorted(h, |h|);
    var order := BySize(h, |h|);
    assert i in order;
    var p :| 0 <= p < |order| && order[p] == i;
    assert p == 0 || Precedes(h, order[0], order[p]);
    assert p == |h| - 1 || Precedes(h, order[p], order[|h| - 1]);
  }

  /** The first pair the nested search does not skip is the widest one, and it
      decides there. */
  lemma FirstPairDecides(ms: seq<Member>, h: Held)
    requires |ms| == |h| && !WithinOne(h)
    ensures var order := BySize(h, |h|);
            && |order| == |h| > 0
            && |h[order[0]]| >= |h[order[|h| - 1]]| + 2
            && Imbalance(ms, h) ==
               var movable := Movable(ms, h, order[0], order[|h| - 1]);
               if movable == {} then Abandoned else Move(order[0], order[|h| - 1], First(movable))
  {
    var i, j :| 0 <= i < |h| && 0 <= j < |h| && |h[i]| > |h[j]| + 1;
    BySizeEnds(h, i);
    BySizeEnds(h, j);
  }

  /** How the search ends, exactly: it runs through when the group is within one of
      level, gives up when the emptiest member may take nothing from the fullest, and
      otherwise moves the first key between those two. */
  lemma ImbalanceWidest(ms: seq<Member>, h: Held)
    requires |ms| == |h|
    ensures Imbalance(ms, h).Exhausted? <==> WithinOne(h)
    ensures Imbalance(ms, h).Move? ==> IsWidest(ms, h, Imbalance(ms, h))
    ensures Imbalance(ms, h).Abandoned? <==>
              exists from: nat, to: nat :: WidestPair(h, from, to) && Movable(ms, h, from, to) == {}
    ensures Imbalance(ms, h).Move? <==>
              exists from: nat, to: nat :: WidestPair(h, from, to) && Movable(ms, h, from, to) != {}
  {
    if WithinOne(h) {
      DonorExhausted(ms, h, BySize(h, |h|), 0);
    } else {
      FirstPairDecides(ms, h);
      var from, to := BySize(h, |h|)[0], BySize(h, |h|)[|h| - 1];
      forall i | 0 <= i < |h|
        ensures |h[to]| <= |h[i]| <= |h[from]|
        ensures |h[i]| == |h[from]| ==> from <= i
        ensures |h[i]| == |h[to]| ==> i <= to
      {
        BySizeEnds(h, i);
      }
      assert WidestPair(h, from, to);
      forall f: nat, t: nat | WidestPair(h, f, t) ensures f == from && t == to {
        assert |h[f]| == |h[from]| && |h[t]| == |h[to]|;
      }
    }
  }

  /** At most `steps` moves. */
  function Balance(ms: seq<Member>, h: Held, steps: nat): (r: Held)
    requires |ms| == |h|
    ensures |r| == |h|
    decreases steps
  {
    if steps == 0 then h
    else
      var m := Imbalance(ms, h);
      ImbalanceWidest(ms, h);
      if m.Move? then Balance(ms, Apply(h, m), steps - 1) else h
  }

  /** One turn of the loop, and where it stops. */
  lemma BalanceTurn(ms: seq<Member>, h: Held, steps: nat)
    requires |ms| == |h| && steps > 0
    ensures !Imbalance(ms, h).Move? ==> Balance(ms, h, steps) == h
    ensures Imbalance(ms, h).Move? ==>
              && Imbalance(ms, h).from < |h| && Imbalance(ms, h).to < |h|
              && Balance(ms, h, steps) == Balance(ms, Apply(h, Imbalance(ms, h)), steps - 1)
  {
    hide Imbalance;
    ImbalanceWidest(ms, h);
  }

  lemma BalanceNothing(ms: seq<Member>, h: Held)
    requires |ms| == |h|
    ensures Balance(ms, h, 0) == h
  {
  }

  // ---------------------------------------------------- phase four: withhold

  /** Drop every key whose resolved owner is somebody else. */
  function Withhold(ms: seq<Member>, all: seq<Key>, h: Held): (r: Held)
    ensures |r| == |h|
    ensures forall i, k | 0 <= i < |h| ::
              k in r[i] <==> k in h[i] && (Owner(ms, all, k) < 0 || Owner(ms, all, k) == i)
  {
    seq(|h|, i requires 0 <= i < |h| => set k <- h[i] | Owner(ms, all, k) < 0 || Owner(ms, all, k) == i)
  }

  function Filled(ms: seq<Member>, all: seq<Key>): (h: Held)
    ensures |h| == |ms|
  {
    Fill(ms, Owned(ms, all), Free(ms, all, all))
  }

  /** The balanced target, before anything is withheld. */
  function Target(ms: seq<Member>, all: seq<Key>): (h: Held)
    ensures |h| == |ms|
  {
    var filled := Filled(ms, all);
    Balance(ms, filled, if Total(filled) < 0 then 0 else 2 * Total(filled))
  }

  /** What a round hands out, members in id order. */
  function Round(ms: seq<Member>, counts: Counts): (h: Held)
    ensures |h| == |ms|
  {
    var all := AllKeys(ms, counts);
    Withhold(ms, all, Target(ms, all))
  }
}
