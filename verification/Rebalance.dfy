/** The cooperative rebalance protocol, step by step: members join, leave, claim
    what they hold, and adopt what a round gave them whenever they get to it.
    In every run nothing is ever held twice. */
module Rebalance {
  import opened Order
  import opened Group
  import opened Assignment
  import opened Sticky
  import opened StickyExact
  import StickyAssignor

  /** A live member: its fixed subscription and what it holds right now. */
  datatype Peer = Peer(topics: seq<string>, holding: set<Key>)

  /** The group; the claims the coordinator has collected for the next round; and what
      the last round gave to members that have not switched to it yet. */
  datatype State = State(peers: map<string, Peer>, claims: map<string, set<Key>>, pending: map<string, set<Key>>)

  /** A member's claim is recorded when it joins the round, and the round is computed
      some time later. In between, and at any other time, members join, leave, give up
      partitions of their own accord, and switch to what the last round gave them. */
  datatype Step =
    | Join(id: string, topics: seq<string>)
    | Leave(id: string)
    | Claim(id: string)
    | Compute(members: seq<Member>, counts: Counts, out: Assignments)
    | Adopt(id: string)
    | Drop(id: string, keys: set<Key>)

  // ------------------------------------------------------------------------- steps

  /** What the leader decodes is some wire form of what was claimed. The generation is
      unconstrained. */
  ghost predicate Claimed(m: Member, topics: seq<string>, claim: set<Key>) {
    && m.topics == topics
    && exists keys, wire ::
         && Encodes(wire, Grouped(keys)) && m.owned == Decoded(wire)
         && forall k :: k in keys <==> k in claim
  }

  /** The leader's view: every member that claimed once, with its claim. */
  ghost predicate Sees(s: State, members: seq<Member>) {
    && DistinctIds(members)
    && (forall i | 0 <= i < |members| ::
          && members[i].id in s.claims && members[i].id in s.peers
          && Claimed(members[i], s.peers[members[i].id].topics, s.claims[members[i].id]))
    && (forall id <- s.claims :: exists i :: 0 <= i < |members| && members[i].id == id)
  }

  /** The coordinator has waited for everybody it knows: who has not claimed is new to
      the group, holds nothing and awaits nothing. */
  ghost predicate AllIn(s: State) {
    forall id <- s.peers | id !in s.claims :: s.peers[id].holding == {} && id !in s.pending
  }

  /** What a member reads out of its share of the assignment. */
  ghost predicate Reads(given: ByTopic, keys: set<Key>) {
    exists wire :: Encodes(wire, given) && keys == KeySet(Decoded(wire))
  }

  ghost predicate Next(s: State, step: Step, s': State) {
    match step
    case Join(id, topics) =>
      id !in s.peers && s' == s.(peers := s.peers[id := Peer(topics, {})])
    case Leave(id) =>
      id in s.peers && s' == State(s.peers - {id}, s.claims - {id}, s.pending - {id})
    case Claim(id) =>
      // an assignment not yet switched to is void once the member joins the next round
      id in s.peers && s' == s.(claims := s.claims[id := s.peers[id].holding], pending := s.pending - {id})
    case Compute(members, counts, out) =>
      && members != [] && ValidCounts(counts) && Sees(s, members) && AllIn(s)
      && Keyed(out, SortById(members), StickyAssignor.Topics(Round(SortById(members), counts)))
      && s'.peers == s.peers && s'.claims == map[] && s'.pending.Keys == s.claims.Keys
      && forall id <- s.claims :: id in out && Reads(out[id], s'.pending[id])
    case Adopt(id) =>
      && id in s.pending && id in s.peers
      && s' == s.(peers := s.peers[id := s.peers[id].(holding := s.pending[id])], pending := s.pending - {id})
    case Drop(id, keys) =>
      id in s.peers && s' == s.(peers := s.peers[id := s.peers[id].(holding := s.peers[id].holding - keys)])
  }

  // -------------------------------------------------------------------- the invariant

  /** No partition is held by two members. */
  ghost predicate ExclusiveState(s: State) {
    forall a, b | a in s.peers && b in s.peers && a != b :: s.peers[a].holding !! s.peers[b].holding
  }

  ghost predicate OnTopic(topics: seq<string>, keys: set<Key>) {
    forall k <- keys :: k.topic in topics
  }

  /** No two entries overlap. */
  ghost predicate Apart(m: map<string, set<Key>>) {
    forall a, b | a in m && b in m && a != b :: m[a] !! m[b]
  }

  /** No entry overlaps what another member holds. */
  ghost predicate ApartFromHoldings(m: map<string, set<Key>>, peers: map<string, Peer>) {
    forall a, b | a in m && b in peers && a != b :: m[a] !! peers[b].holding
  }

  /** What keeps it so: what a member has claimed, or may still switch to, overlaps
      neither what another holds nor what another claimed or may switch to; a claim
      still covers what its member holds; and nobody is ever given a topic it does not
      subscribe to. */
  ghost predicate Inv(s: State) {
    && s.pending.Keys <= s.peers.Keys && s.claims.Keys <= s.peers.Keys && s.pending.Keys !! s.claims.Keys
    && ExclusiveState(s)
    && (forall a <- s.peers :: OnTopic(s.peers[a].topics, s.peers[a].holding))
    && (forall a <- s.pending :: OnTopic(s.peers[a].topics, s.pending[a]))
    && (forall a <- s.claims :: OnTopic(s.peers[a].topics, s.claims[a]) && s.peers[a].holding <= s.claims[a])
    && Apart(s.pending) && Apart(s.claims)
    && ApartFromHoldings(s.pending, s.peers) && ApartFromHoldings(s.claims, s.peers)
    && (forall a, b | a in s.pending && b in s.claims :: s.pending[a] !! s.claims[b])
  }

  // ------------------------------------------------------------------------- one round

  /** The claims a leader sees, as holdings by position. */
  ghost function ClaimsOf(ms: seq<Member>): (h: Held)
    ensures |h| == |ms| && forall i | 0 <= i < |ms| :: h[i] == KeySet(ms[i].owned)
  {
    seq(|ms|, i requires 0 <= i < |ms| => KeySet(ms[i].owned))
  }

  /** No member is given what another one still claims. */
  ghost predicate NoOverlap(ms: seq<Member>, r: Held)
    requires |ms| == |r|
  {
    forall i, j, k | HeldAt(r, i, k) && HeldAt(ClaimsOf(ms), j, k) :: i == j
  }

  /** Every claimed partition that is handed out this round is on a topic its
      claimant subscribes to. */
  ghost predicate ClaimsSubscribed(ms: seq<Member>, all: seq<Key>) {
    forall i, k | HeldAt(ClaimsOf(ms), i, k) && k in all :: ms[i].SubscribesTo(k.topic)
  }

  lemma DisjointClaimsOwn(ms: seq<Member>, all: seq<Key>, j: int, k: Key)
    requires Exclusive(ClaimsOf(ms)) && HeldAt(ClaimsOf(ms), j, k) && k in all
    ensures Owner(ms, all, k) == if ms[j].SubscribesTo(k.topic) then j else -1
  {
    var o := OwnerUpTo(ms, all, |ms|, k);
    if o >= 0 {
      assert Claims(ms[o], all, k);
      assert HeldAt(ClaimsOf(ms), o, k);
    } else {
      assert !Claims(ms[j], all, k);
    }
  }

  /** A round over disjoint claims hands nobody a partition another member still
      holds exactly when every claim it hands out is on a subscribed topic. */
  lemma RoundOverlapIff(ms: seq<Member>, counts: Counts)
    requires ValidCounts(counts) && Exclusive(ClaimsOf(ms))
    ensures NoOverlap(ms, Round(ms, counts)) <==> ClaimsSubscribed(ms, AllKeys(ms, counts))
  {
    var all, r := AllKeys(ms, counts), Round(ms, counts);
    RoundExact(ms, counts);
    if ClaimsSubscribed(ms, all) {
      forall i, j, k | HeldAt(r, i, k) && HeldAt(ClaimsOf(ms), j, k) ensures i == j {
        DisjointClaimsOwn(ms, all, j, k);
      }
    }
    if NoOverlap(ms, r) {
      forall i, k | HeldAt(ClaimsOf(ms), i, k) && k in all ensures ms[i].SubscribesTo(k.topic) {
        DisjointClaimsOwn(ms, all, i, k);
      }
    }
  }

  // ------------------------------------------------------------------- steps keep it

  /** The claim a leader decodes is exactly what the member claimed. */
  lemma ClaimIsHolding(m: Member, topics: seq<string>, claim: set<Key>)
    requires Claimed(m, topics, claim)
    ensures KeySet(m.owned) == claim
  {
    var keys, wire :| Encodes(wire, Grouped(keys)) && m.owned == Decoded(wire)
                      && forall k :: k in keys <==> k in claim;
    WireRoundTrip(keys, wire);
  }

  /** What a member reads is exactly what the round gave it. */
  lemma ReadIsGiven(given: set<Key>, keys: set<Key>)
    requires Reads(Grouped(InKeyOrder(given)), keys)
    ensures keys == given
  {
    var wire :| Encodes(wire, Grouped(InKeyOrder(given))) && keys == KeySet(Decoded(wire));
    WireRoundTrip(InKeyOrder(given), wire);
  }

  lemma SeesSorted(s: State, members: seq<Member>)
    requires Sees(s, members)
    ensures Sees(s, SortById(members)) && SortedById(SortById(members))
  {
    hide Claimed;
    hide SortById;
    var sorted := SortById(members);
    SortByIdSorted(members);
    SameElements(members, sorted);
    StickyAssignor.SortedDistinct(sorted);
    forall i | 0 <= i < |sorted|
      ensures sorted[i].id in s.claims && sorted[i].id in s.peers
      ensures Claimed(sorted[i], s.peers[sorted[i].id].topics, s.claims[sorted[i].id])
    {
      assert sorted[i] in members;
    }
    forall id <- s.claims ensures exists i :: 0 <= i < |sorted| && sorted[i].id == id {
      var i :| 0 <= i < |members| && members[i].id == id;
      assert members[i] in sorted;
    }
  }

  /** A computed round, position by position. */
  ghost predicate Computed(s: State, ms: seq<Member>, r: Held, s': State) {
    && |ms| == |r| && Sees(s, ms) && AllIn(s)
    && s'.peers == s.peers && s'.claims == map[] && s'.pending.Keys == s.claims.Keys
    && (forall i | 0 <= i < |ms| :: s'.pending[ms[i].id] == r[i])
  }

  lemma ComputeIsComputed(s: State, step: Step, s': State)
    requires step.Compute? && Next(s, step, s')
    ensures Computed(s, SortById(step.members), Round(SortById(step.members), step.counts), s')
  {
    hide Keyed;
    hide Claimed;
    hide Reads;
    hide SortById;
    hide Round;
    hide AllIn;
    var ms := SortById(step.members);
    var r := Round(ms, step.counts);
    SeesSorted(s, step.members);
    forall i | 0 <= i < |ms| ensures s'.pending[ms[i].id] == r[i] {
      KeyedAt(step.out, ms, StickyAssignor.Topics(r), i);
      ReadIsGiven(r[i], s'.pending[ms[i].id]);
    }
  }

  /** Where a member that claimed sits, and what it claims there. */
  lemma Seat(s: State, ms: seq<Member>, id: string) returns (i: nat)
    requires Sees(s, ms) && id in s.claims
    ensures i < |ms| && ms[i].id == id && id in s.peers && ms[i].topics == s.peers[id].topics
    ensures ClaimsOf(ms)[i] == s.claims[id]
  {
    var w :| 0 <= w < |ms| && ms[w].id == id;
    ClaimIsHolding(ms[w], s.peers[id].topics, s.claims[id]);
    i := w;
  }

  lemma ClaimsExclusive(s: State, ms: seq<Member>)
    requires Inv(s) && Sees(s, ms)
    ensures Exclusive(ClaimsOf(ms))
    ensures forall i, k | HeldAt(ClaimsOf(ms), i, k) :: ms[i].SubscribesTo(k.topic)
  {
    var h := ClaimsOf(ms);
    forall i | 0 <= i < |ms| ensures h[i] == s.claims[ms[i].id] {
      ClaimIsHolding(ms[i], s.peers[ms[i].id].topics, s.claims[ms[i].id]);
    }
    forall i, j, k | HeldAt(h, i, k) && HeldAt(h, j, k) ensures i == j {
    }
  }

  /** What a round over disjoint claims may and may not give. */
  lemma RoundSafe(s: State, ms: seq<Member>, counts: Counts)
    requires Inv(s) && Sees(s, ms) && ValidCounts(counts)
    ensures var r := Round(ms, counts);
            && Exclusive(r) && NoOverlap(ms, r)
            && forall i, k | HeldAt(r, i, k) :: ms[i].SubscribesTo(k.topic)
  {
    ClaimsExclusive(s, ms);
    RoundOverlapIff(ms, counts);
    RoundExact(ms, counts);
  }

  /** What a round gives one member overlaps neither another's share nor its claim. */
  lemma SharesApart(s: State, ms: seq<Member>, r: Held, s': State, a: string, b: string)
    requires Computed(s, ms, r, s') && Exclusive(r) && NoOverlap(ms, r)
    requires a in s.claims && b in s.claims && a != b
    ensures s'.pending[a] !! s'.pending[b] && s'.pending[a] !! s.claims[b]
  {
    var i := Seat(s, ms, a);
    var j := Seat(s, ms, b);
    forall k <- s'.pending[a] ensures k !in s.claims[b] && k !in s'.pending[b] {
      assert HeldAt(r, i, k);
      assert k in s.claims[b] ==> HeldAt(ClaimsOf(ms), j, k);
      assert k in s'.pending[b] ==> HeldAt(r, j, k);
    }
  }

  lemma ComputeKeeps(s: State, ms: seq<Member>, r: Held, s': State)
    requires Inv(s) && Computed(s, ms, r, s')
    requires Exclusive(r) && NoOverlap(ms, r) && forall i, k | HeldAt(r, i, k) :: ms[i].SubscribesTo(k.topic)
    ensures Inv(s')
  {
    hide Sees;
    forall a <- s'.pending ensures OnTopic(s'.peers[a].topics, s'.pending[a]) {
      var i := Seat(s, ms, a);
      forall k <- s'.pending[a] ensures k.topic in s'.peers[a].topics {
        assert HeldAt(r, i, k);
      }
    }
    forall a, b | a in s'.pending && b in s'.pending && a != b ensures s'.pending[a] !! s'.pending[b] {
      SharesApart(s, ms, r, s', a, b);
    }
    forall a, b | a in s'.pending && b in s'.peers && a != b ensures s'.pending[a] !! s'.peers[b].holding {
      if b in s.claims {
        SharesApart(s, ms, r, s', a, b);
      }
    }
  }

  /** Every step keeps the invariant. */
  lemma StepKeeps(s: State, step: Step, s': State)
    requires Inv(s) && Next(s, step, s')
    ensures Inv(s')
  {
    hide Inv;
    hide Sees;
    if step.Compute? {
      var ms := SortById(step.members);
      SeesSorted(s, step.members);
      RoundSafe(s, ms, step.counts);
      ComputeIsComputed(s, step, s');
      ComputeKeeps(s, ms, Round(ms, step.counts), s');
    } else {
      LocalStepKeeps(s, step, s');
    }
  }

  lemma LocalStepKeeps(s: State, step: Step, s': State)
    requires Inv(s) && Next(s, step, s') && !step.Compute?
    ensures Inv(s')
  {
    hide Inv;
    match step
    case Join(id, topics) => JoinKeeps(s, id, topics);
    case Leave(id) => LeaveKeeps(s, id);
    case Claim(id) => ClaimKeeps(s, id);
    case Adopt(id) => AdoptKeeps(s, id);
    case Drop(id, keys) => DropKeeps(s, id, keys);
  }

  lemma JoinKeeps(s: State, id: string, topics: seq<string>)
    requires Inv(s) && id !in s.peers
    ensures Inv(s.(peers := s.peers[id := Peer(topics, {})]))
  {
  }

  lemma LeaveKeeps(s: State, id: string)
    requires Inv(s) && id in s.peers
    ensures Inv(State(s.peers - {id}, s.claims - {id}, s.pending - {id}))
  {
    hide OnTopic;
  }

  lemma ClaimKeeps(s: State, id: string)
    requires Inv(s) && id in s.peers
    ensures Inv(s.(claims := s.claims[id := s.peers[id].holding], pending := s.pending - {id}))
  {
    hide OnTopic;
  }

  lemma AdoptKeeps(s: State, id: string)
    requires Inv(s) && id in s.peers && id in s.pending
    ensures Inv(s.(peers := s.peers[id := s.peers[id].(holding := s.pending[id])], pending := s.pending - {id}))
  {
    hide OnTopic;
  }

  lemma DropKeeps(s: State, id: string, keys: set<Key>)
    requires Inv(s) && id in s.peers
    ensures Inv(s.(peers := s.peers[id := s.peers[id].(holding := s.peers[id].holding - keys)]))
  {
    hide OnTopic;
    hide Apart;
    hide ApartFromHoldings;
    var s' := s.(peers := s.peers[id := s.peers[id].(holding := s.peers[id].holding - keys)]);
    Fewer(s.peers[id].topics, s.peers[id].holding, keys);
    FewerApart(s.pending, s.peers, s'.peers);
    FewerApart(s.claims, s.peers, s'.peers);
  }

  lemma FewerApart(m: map<string, set<Key>>, peers: map<string, Peer>, fewer: map<string, Peer>)
    requires ApartFromHoldings(m, peers) && fewer.Keys == peers.Keys
    requires forall id <- peers :: fewer[id].holding <= peers[id].holding
    ensures ApartFromHoldings(m, fewer)
  {
  }

  lemma Fewer(topics: seq<string>, holding: set<Key>, keys: set<Key>)
    requires OnTopic(topics, holding)
    ensures OnTopic(topics, holding - keys) && holding - keys <= holding
  {
  }

  // ---------------------------------------------------------------------- whole runs

  ghost predicate Run(states: seq<State>, steps: seq<Step>) {
    && |states| == |steps| + 1
    && forall n | 0 <= n < |steps| :: Next(states[n], steps[n], states[n + 1])
  }

  /** A group to start from: disjoint holdings on subscribed topics, no round
      outstanding. */
  ghost predicate Init(s: State) {
    && ExclusiveState(s) && s.pending == map[] && s.claims == map[]
    && forall a <- s.peers :: OnTopic(s.peers[a].topics, s.peers[a].holding)
  }

  lemma {:induction false} RunKeeps(states: seq<State>, steps: seq<Step>, n: nat)
    requires Run(states, steps) && Init(states[0]) && n < |states|
    ensures Inv(states[n])
  {
    if n > 0 {
      RunKeeps(states, steps, n - 1);
      StepKeeps(states[n - 1], steps[n - 1], states[n]);
    }
  }

  /** Exclusive ownership: through any number of rounds, with joins, departures, claims
      and partitions given up at any point between a claim and its round or elsewhere,
      and members switching to their new assignments in any order or not at all before
      the next round, no partition is ever held twice. */
  lemma NeverHeldTwice(states: seq<State>, steps: seq<Step>)
    requires Run(states, steps) && Init(states[0])
    ensures forall n | 0 <= n < |states| :: ExclusiveState(states[n])
  {
    forall n | 0 <= n < |states| ensures ExclusiveState(states[n]) {
      RunKeeps(states, steps, n);
    }
  }

  // --------------------------------------------------------- what a member ends up with

  /** The step touches neither what this member awaits nor the round it awaits it from. */
  predicate LeavesWaiting(step: Step, id: string) {
    !step.Compute? && step != Claim(id) && step != Leave(id) && step != Adopt(id)
  }

  lemma {:induction false} StillWaiting(states: seq<State>, steps: seq<Step>, n: nat, m: nat, id: string)
    requires Run(states, steps) && n <= m < |states| && id in states[n].pending
    requires forall x | n <= x < m :: LeavesWaiting(steps[x], id)
    ensures id in states[m].pending && states[m].pending[id] == states[n].pending[id]
  {
    hide Next;
    hide LeavesWaiting;
    if n < m {
      StillWaiting(states, steps, n, m - 1, id);
      StepStillWaiting(states[m - 1], steps[m - 1], states[m], id);
    }
  }

  lemma StepStillWaiting(s: State, step: Step, s': State, id: string)
    requires Next(s, step, s') && LeavesWaiting(step, id) && id in s.pending
    ensures id in s'.pending && s'.pending[id] == s.pending[id]
  {
  }

  /** In every run, a member that switches to a round's assignment then holds exactly what
      the round gave it, however much of the group's other business comes in between. */
  lemma AdoptsItsShare(states: seq<State>, steps: seq<Step>, n: nat, m: nat, i: nat)
    requires Run(states, steps) && n < m < |steps| && steps[n].Compute?
    requires i < |SortById(steps[n].members)| == |Round(SortById(steps[n].members), steps[n].counts)|
    requires steps[m] == Adopt(SortById(steps[n].members)[i].id)
    requires forall x | n < x < m :: LeavesWaiting(steps[x], SortById(steps[n].members)[i].id)
    ensures var ms := SortById(steps[n].members);
            && ms[i].id in states[m + 1].peers
            && states[m + 1].peers[ms[i].id].holding == Round(ms, steps[n].counts)[i]
  {
    hide SortById;
    hide Round;
    hide Sees;
    hide Keyed;
    hide Reads;
    var ms := SortById(steps[n].members);
    assert Next(states[n], steps[n], states[n + 1]);
    ComputeIsComputed(states[n], steps[n], states[n + 1]);
    SeatedClaims(states[n], ms, i);
    StillWaiting(states, steps, n + 1, m, ms[i].id);
    assert Next(states[m], steps[m], states[m + 1]);
  }

  lemma SeatedClaims(s: State, ms: seq<Member>, i: nat)
    requires Sees(s, ms) && i < |ms|
    ensures ms[i].id in s.claims
  {
  }
}
