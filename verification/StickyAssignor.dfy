/** `assign_cooperative_sticky` as the leader runs it: maps keyed by member id,
    updated loop by loop, each loop proved against its phase. */
module StickyAssignor {
  import opened Order
  import opened Group
  import opened Assignment
  import opened Sticky

  // ------------------------------------------------------------------ claims

  /** The owner known after the first `n` members and the first `p` claims of
      the next one, or -1. */
  ghost function KnownOwner(ms: seq<Member>, all: seq<Key>, n: nat, p: nat, k: Key): (r: int)
    requires n <= |ms| && (n < |ms| ==> p <= |ms[n].owned|)
    ensures -1 <= r < |ms|
  {
    if n < |ms| && k in ms[n].owned[..p] then OwnerUpTo(ms, all, n + 1, k) else OwnerUpTo(ms, all, n, k)
  }

  ghost predicate Resolved(owner: map<Key, (string, int)>, ms: seq<Member>, all: seq<Key>, n: nat, p: nat) {
    && n <= |ms| && (n < |ms| ==> p <= |ms[n].owned|)
    && forall k ::
         && (k in owner <==> KnownOwner(ms, all, n, p, k) >= 0)
         && (k in owner ==> var r := KnownOwner(ms, all, n, p, k); owner[k] == (ms[r].id, ms[r].generation))
  }

  /** One more claim only changes what is known of the key it names. */
  lemma KnownStep(ms: seq<Member>, all: seq<Key>, n: nat, p: nat, k: Key)
    requires n < |ms| && p < |ms[n].owned|
    ensures var key := ms[n].owned[p];
            KnownOwner(ms, all, n, p + 1, k) ==
            if k != key then KnownOwner(ms, all, n, p, k)
            else
              var o := KnownOwner(ms, all, n, p, key);
              if key in all && ms[n].SubscribesTo(key.topic) && !(o >= 0 && ms[o].generation >= ms[n].generation) then n
              else o
  {
    assert ms[n].owned[..p + 1] == ms[n].owned[..p] + [ms[n].owned[p]];
  }

  /** The match on `owner.get(key)` for one claim. */
  function Claim(owner: map<Key, (string, int)>, all: seq<Key>, member: Member, key: Key): map<Key, (string, int)> {
    if key !in all || !member.SubscribesTo(key.topic) then owner
    else if key in owner && owner[key].1 >= member.generation then owner
    else owner[key := (member.id, member.generation)]
  }

  lemma ClaimResolves(owner: map<Key, (string, int)>, ms: seq<Member>, all: seq<Key>, n: nat, p: nat)
    requires n < |ms| && p < |ms[n].owned| && Resolved(owner, ms, all, n, p)
    ensures Resolved(Claim(owner, all, ms[n], ms[n].owned[p]), ms, all, n, p + 1)
  {
    var next := Claim(owner, all, ms[n], ms[n].owned[p]);
    forall k
      ensures k in next <==> KnownOwner(ms, all, n, p + 1, k) >= 0
      ensures k in next ==> var r := KnownOwner(ms, all, n, p + 1, k); next[k] == (ms[r].id, ms[r].generation)
    {
      KnownStep(ms, all, n, p, k);
    }
  }

  method ResolveOwners(ms: seq<Member>, all: seq<Key>) returns (owner: map<Key, (string, int)>)
    ensures forall k :: k in owner <==> Owner(ms, all, k) >= 0
    ensures forall k <- owner :: owner[k] == (ms[Owner(ms, all, k)].id, ms[Owner(ms, all, k)].generation)
  {
    owner := map[];
    var n := 0;
    ResolvedStart(ms, all);
    hide Resolved;
    while n < |ms|
      invariant n <= |ms| && Resolved(owner, ms, all, n, 0)
    {
      var p := 0;
      while p < |ms[n].owned|
        invariant p <= |ms[n].owned| && Resolved(owner, ms, all, n, p)
      {
        ClaimResolves(owner, ms, all, n, p);
        owner := Claim(owner, all, ms[n], ms[n].owned[p]);
        p := p + 1;
      }
      MemberDone(owner, ms, all, n);
      n := n + 1;
    }
    ResolvedAll(owner, ms, all);
  }

  lemma ResolvedStart(ms: seq<Member>, all: seq<Key>)
    ensures Resolved(map[], ms, all, 0, 0)
  {
  }

  lemma ResolvedAll(owner: map<Key, (string, int)>, ms: seq<Member>, all: seq<Key>)
    requires Resolved(owner, ms, all, |ms|, 0)
    ensures forall k :: k in owner <==> Owner(ms, all, k) >= 0
    ensures forall k <- owner :: owner[k] == (ms[Owner(ms, all, k)].id, ms[Owner(ms, all, k)].generation)
  {
    forall k
      ensures k in owner <==> Owner(ms, all, k) >= 0
      ensures k in owner ==> owner[k] == (ms[Owner(ms, all, k)].id, ms[Owner(ms, all, k)].generation)
    {
      assert KnownOwner(ms, all, |ms|, 0, k) == Owner(ms, all, k);
    }
  }

  lemma MemberDone(owner: map<Key, (string, int)>, ms: seq<Member>, all: seq<Key>, n: nat)
    requires n < |ms| && Resolved(owner, ms, all, n, |ms[n].owned|)
    ensures Resolved(owner, ms, all, n + 1, 0)
  {
    assert ms[n].owned[..|ms[n].owned|] == ms[n].owned;
    forall k ensures KnownOwner(ms, all, n + 1, 0, k) == KnownOwner(ms, all, n, |ms[n].owned|, k) {
    }
  }

  // -------------------------------------------------------------- current holdings

  /** What the keys of `done` amount to, each with its resolved owner. */
  ghost function Holdings(ms: seq<Member>, all: seq<Key>, done: set<Key>): (h: Held)
    ensures |h| == |ms| && forall i | 0 <= i < |ms| :: h[i] == Holding(ms, all, done, i)
  {
    seq(|ms|, i => Holding(ms, all, done, i))
  }

  ghost function Holding(ms: seq<Member>, all: seq<Key>, done: set<Key>, i: int): set<Key> {
    set k <- done | Owner(ms, all, k) == i
  }

  lemma HoldingsStep(ms: seq<Member>, all: seq<Key>, done: set<Key>, k: Key)
    requires Owner(ms, all, k) >= 0
    ensures var o := Owner(ms, all, k);
            Holdings(ms, all, done + {k}) == Holdings(ms, all, done)[o := Holdings(ms, all, done)[o] + {k}]
  {
    hide Owner;
    var o, before, after := Owner(ms, all, k), Holdings(ms, all, done), Holdings(ms, all, done + {k});
    forall i | 0 <= i < |ms| ensures after[i] == before[o := before[o] + {k}][i] {
    }
  }

  lemma HoldingsAll(ms: seq<Member>, all: seq<Key>, claimed: set<Key>)
    requires forall k :: k in claimed <==> Owner(ms, all, k) >= 0
    ensures Holdings(ms, all, claimed) == Owned(ms, all)
  {
    forall i | 0 <= i < |ms| ensures Holdings(ms, all, claimed)[i] == Owned(ms, all)[i] {
      forall k ensures Owner(ms, all, k) == i ==> k in all {
        if Owner(ms, all, k) == i {
          assert Claims(ms[i], all, k);
        }
      }
    }
  }

  method EmptyHoldings(ms: seq<Member>, ghost all: seq<Key>) returns (held: map<string, set<Key>>)
    requires DistinctIds(ms)
    ensures Keyed(held, ms, Holdings(ms, all, {}))
  {
    held := map i | 0 <= i < |ms| :: ms[i].id := {};
    forall i | 0 <= i < |ms| ensures Holdings(ms, all, {})[i] == {} {
    }
  }

  /** One more key goes to its resolved owner's set. */
  lemma HoldingsGive(ms: seq<Member>, all: seq<Key>, held: map<string, set<Key>>, done: set<Key>, key: Key)
    requires DistinctIds(ms) && Owner(ms, all, key) >= 0 && Keyed(held, ms, Holdings(ms, all, done))
    ensures var id := ms[Owner(ms, all, key)].id;
            id in held && Keyed(held[id := held[id] + {key}], ms, Holdings(ms, all, done + {key}))
  {
    hide Keyed;
    hide Holding;
    hide Owner;
    var o, h := Owner(ms, all, key), Holdings(ms, all, done);
    KeyedAt(held, ms, h, o);
    KeyedUpdate(held, ms, h, o, held[ms[o].id] + {key});
    HoldingsStep(ms, all, done, key);
  }

  /** Every member's set, and the resolved owners' keys put into them. */
  method CurrentHoldings(ms: seq<Member>, ghost all: seq<Key>, owner: map<Key, (string, int)>)
    returns (held: map<string, set<Key>>)
    requires DistinctIds(ms)
    requires forall k :: k in owner <==> Owner(ms, all, k) >= 0
    requires forall k <- owner :: owner[k].0 == ms[Owner(ms, all, k)].id
    ensures Keyed(held, ms, Owned(ms, all))
  {
    hide Keyed;
    hide Holdings;
    hide Owner;
    hide Owned;
    hide IsFirst;
    held := EmptyHoldings(ms, all);
    var todo := owner.Keys;
    ghost var done: set<Key> := {};
    while todo != {}
      invariant todo <= owner.Keys && done == owner.Keys - todo
      invariant Keyed(held, ms, Holdings(ms, all, done))
      decreases todo
    {
      var key := NextKey(todo);
      HoldingsGive(ms, all, held, done, key);
      var id := owner[key].0;
      held := held[id := held[id] + {key}];
      todo := todo - {key};
      done := done + {key};
    }
    assert done == owner.Keys;
    HoldingsAll(ms, all, done);
  }

  /** The next key a `BTreeMap` yields. */
  function NextKey(todo: set<Key>): (key: Key)
    requires todo != {}
    ensures key in todo
  {
    First(todo)
  }

  lemma SortedDistinct(ms: seq<Member>)
    requires SortedById(ms)
    ensures DistinctIds(ms)
  {
    forall i, j | 0 <= i < j < |ms| ensures ms[i].id != ms[j].id {
      StrAsymmetric(ms[i].id, ms[j].id);
    }
  }

  // ----------------------------------------------------------------- fill and balance

  /** What is left of the fill after the first `i` keys. */
  ghost function FillFrom(ms: seq<Member>, all: seq<Key>, h: Held, i: nat): Held
    requires i <= |all| && |h| == |ms|
  {
    Fill(ms, h, Free(ms, all, all[i..]))
  }

  lemma FillFromStep(ms: seq<Member>, all: seq<Key>, h: Held, i: nat)
    requires i < |all| && |h| == |ms|
    ensures FillFrom(ms, all, h, i) ==
            FillFrom(ms, all, if Owner(ms, all, all[i]) < 0 then FillOne(ms, h, all[i]) else h, i + 1)
  {
    assert all[i..][1..] == all[i + 1..];
    var free := Free(ms, all, all[i..]);
    if Owner(ms, all, all[i]) < 0 {
      assert free == [all[i]] + Free(ms, all, all[i + 1..]);
      assert free[1..] == Free(ms, all, all[i + 1..]);
    } else {
      assert free == Free(ms, all, all[i + 1..]);
    }
  }

  lemma FillFromEnds(ms: seq<Member>, all: seq<Key>, h: Held)
    requires |h| == |ms|
    ensures FillFrom(ms, all, h, |all|) == h && FillFrom(ms, all, h, 0) == Fill(ms, h, Free(ms, all, all))
  {
    assert all[|all|..] == [] && all[0..] == all;
  }

  /** Insert `key` into the set of the member `emptiest` named, if it named one. */
  function Give(ms: seq<Member>, held: map<string, set<Key>>, e: int, key: Key): map<string, set<Key>>
    requires e < |ms| && (e >= 0 ==> ms[e].id in held)
  {
    if e < 0 then held else held[ms[e].id := held[ms[e].id] + {key}]
  }

  lemma GiveFills(ms: seq<Member>, held: map<string, set<Key>>, h: Held, key: Key)
    requires DistinctIds(ms) && |h| == |ms| && Keyed(held, ms, h)
    ensures var e := Emptiest(ms, h, key.topic);
            (e >= 0 ==> ms[e].id in held) && Keyed(Give(ms, held, e, key), ms, FillOne(ms, h, key))
  {
    var e := Emptiest(ms, h, key.topic);
    if e >= 0 {
      KeyedUpdate(held, ms, h, e, h[e] + {key});
    }
  }

  method FillUp(ms: seq<Member>, all: seq<Key>, owner: map<Key, (string, int)>, held0: map<string, set<Key>>)
    returns (held: map<string, set<Key>>)
    requires DistinctIds(ms) && Keyed(held0, ms, Owned(ms, all))
    requires forall k :: k in owner <==> Owner(ms, all, k) >= 0
    ensures Keyed(held, ms, Filled(ms, all))
  {
    hide Keyed;
    hide FillFrom;
    hide Emptiest;
    hide FillOne;
    hide Give;
    held := held0;
    ghost var h := Owned(ms, all);
    FillFromEnds(ms, all, h);
    var i := 0;
    while i < |all|
      invariant i <= |all| && |h| == |ms| && Keyed(held, ms, h)
      invariant Filled(ms, all) == FillFrom(ms, all, h, i)
    {
      var key := all[i];
      FillFromStep(ms, all, h, i);
      if key !in owner {
        KeyedValues(held, ms, h);
        GiveFills(ms, held, h, key);
        held := Give(ms, held, Emptiest(ms, Values(held, ms), key.topic), key);
        h := FillOne(ms, h, key);
      }
      i := i + 1;
    }
    FillFromEnds(ms, all, h);
  }

  /** Both sets change as the move says. */
  lemma MoveKeyed(ms: seq<Member>, held: map<string, set<Key>>, h: Held, m: Search)
    requires DistinctIds(ms) && |ms| == |h| && Keyed(held, ms, h) && m.Move? && m.from < |h| && m.to < |h|
    ensures ms[m.from].id in held
    ensures var taken := held[ms[m.from].id := held[ms[m.from].id] - {m.key}];
            && ms[m.to].id in taken
            && Keyed(taken[ms[m.to].id := taken[ms[m.to].id] + {m.key}], ms, Apply(h, m))
  {
    hide Keyed;
    KeyedAt(held, ms, h, m.from);
    var fewer := h[m.from := h[m.from] - {m.key}];
    var taken := held[ms[m.from].id := held[ms[m.from].id] - {m.key}];
    KeyedUpdate(held, ms, h, m.from, h[m.from] - {m.key});
    KeyedAt(taken, ms, fewer, m.to);
    KeyedUpdate(taken, ms, fewer, m.to, fewer[m.to] + {m.key});
  }

  method BalanceHoldings(ms: seq<Member>, held0: map<string, set<Key>>, ghost h0: Held)
    returns (held: map<string, set<Key>>)
    requires DistinctIds(ms) && Keyed(held0, ms, h0)
    ensures Keyed(held, ms, Balance(ms, h0, if Total(h0) < 0 then 0 else 2 * Total(h0)))
  {
    hide Keyed;
    hide Imbalance;
    hide Balance;
    hide Total;
    hide Values;
    held := held0;
    KeyedValues(held, ms, h0);
    var total := Total(Values(held, ms));
    var cap := if total < 0 then 0 else 2 * total;
    ghost var h := h0;
    var step := 0;
    while step < cap
      invariant step <= cap && |h| == |ms| && Keyed(held, ms, h)
      invariant Balance(ms, h0, cap) == Balance(ms, h, cap - step)
    {
      KeyedValues(held, ms, h);
      BalanceTurn(ms, h, cap - step);
      var m := Imbalance(ms, Values(held, ms));
      if !m.Move? {
        return;
      }
      MoveKeyed(ms, held, h, m);
      var from, to := ms[m.from].id, ms[m.to].id;
      held := held[from := held[from] - {m.key}];
      held := held[to := held[to] + {m.key}];
      h := Apply(h, m);
      step := step + 1;
    }
    BalanceNothing(ms, h);
  }

  // ------------------------------------------------------------- withhold and encode

  lemma KeptAre(ms: seq<Member>, all: seq<Key>, owner: map<Key, (string, int)>, h: Held, i: nat, kept: set<Key>)
    requires DistinctIds(ms) && i < |ms| == |h|
    requires forall k :: k in owner <==> Owner(ms, all, k) >= 0
    requires forall k <- owner :: owner[k].0 == ms[Owner(ms, all, k)].id
    requires forall k :: k in kept <==> k in h[i] && (k in owner ==> owner[k].0 == ms[i].id)
    ensures kept == Withhold(ms, all, h)[i]
  {
    hide Owner;
    var w := Withhold(ms, all, h)[i];
    forall k ensures k in kept <==> k in w {
    }
  }

  method Retain(ms: seq<Member>, all: seq<Key>, owner: map<Key, (string, int)>, held0: map<string, set<Key>>, ghost h0: Held)
    returns (held: map<string, set<Key>>)
    requires DistinctIds(ms) && |h0| == |ms| && Keyed(held0, ms, h0)
    requires forall k :: k in owner <==> Owner(ms, all, k) >= 0
    requires forall k <- owner :: owner[k].0 == ms[Owner(ms, all, k)].id
    ensures Keyed(held, ms, Withhold(ms, all, h0))
  {
    hide Keyed;
    held := held0;
    ghost var h, w := h0, Withhold(ms, all, h0);
    var i := 0;
    while i < |ms|
      invariant i <= |ms| == |h| && Keyed(held, ms, h)
      invariant forall j | 0 <= j < |ms| :: h[j] == if j < i then w[j] else h0[j]
    {
      var id := ms[i].id;
      KeyedAt(held, ms, h, i);
      var kept := set k <- held[id] | k !in owner || owner[k].0 == id;
      KeptAre(ms, all, owner, h0, i, kept);
      KeyedUpdate(held, ms, h, i, kept);
      h := h[i := kept];
      held := held[id := kept];
      i := i + 1;
    }
    assert h == w;
  }

  /** One member's set as topics, filled in key order. */
  method GroupKeys(s: set<Key>) returns (topics: ByTopic)
    ensures topics == Grouped(InKeyOrder(s))
  {
    hide InKeyOrder;
    hide Grouped;
    topics := map[];
    ghost var done: seq<Key> := [];
    var todo := s;
    GroupedEmpty();
    while todo != {}
      invariant todo <= s && InKeyOrder(s) == done + InKeyOrder(todo) && topics == Grouped(done)
      decreases todo
    {
      var key := First(todo);
      InKeyOrderStep(todo);
      GroupedPush(done, key);
      assert done + InKeyOrder(todo) == done + [key] + InKeyOrder(todo - {key});
      topics := Push(topics, key);
      done := done + [key];
      todo := todo - {key};
    }
    assert done + [] == done;
  }

  lemma GroupedEmpty()
    ensures Grouped([]) == map[] && InKeyOrder({}) == []
  {
  }

  ghost function Topics(h: Held): (r: seq<ByTopic>)
    ensures |r| == |h| && forall i | 0 <= i < |h| :: r[i] == Grouped(InKeyOrder(h[i]))
  {
    seq(|h|, i requires 0 <= i < |h| => Grouped(InKeyOrder(h[i])))
  }

  method EncodeHoldings(ms: seq<Member>, held: map<string, set<Key>>, ghost h: Held) returns (out: Assignments)
    requires DistinctIds(ms) && |h| == |ms| && Keyed(held, ms, h)
    ensures Keyed(out, ms, Topics(h))
  {
    out := map[];
    var i := 0;
    assert Keyed(out, ms[..0], Topics(h)[..0]);
    hide Keyed;
    while i < |ms|
      invariant i <= |ms| && Keyed(out, ms[..i], Topics(h)[..i])
    {
      KeyedAt(held, ms, h, i);
      var topics := GroupKeys(held[ms[i].id]);
      KeyedExtend(out, ms, Topics(h), i);
      out := out[ms[i].id := topics];
      i := i + 1;
    }
    assert ms[..i] == ms && Topics(h)[..i] == Topics(h);
  }

  /** The assignor. Its answer is the round the phases define, for the members in
      id order. */
  method AssignCooperativeSticky(members: seq<Member>, counts: Counts) returns (out: Assignments)
    requires DistinctIds(members)
    ensures members == [] ==> out == map[]
    ensures Keyed(out, SortById(members), Topics(Round(SortById(members), counts)))
  {
    var sorted := SortById(members);
    SortByIdSorted(members);
    SortedDistinct(sorted);
    if sorted == [] {
      return map[];
    }
    var all := AllKeys(sorted, counts);
    var owner := ResolveOwners(sorted, all);
    var held := CurrentHoldings(sorted, all, owner);
    held := FillUp(sorted, all, owner, held);
    held := BalanceHoldings(sorted, held, Filled(sorted, all));
    held := Retain(sorted, all, owner, held, Target(sorted, all));
    out := EncodeHoldings(sorted, held, Round(sorted, counts));
  }
}
