/** What holds of every call of the re-ask loop. */
module ReaskFacts {
  import opened Options
  import opened Counting
  import opened Reask

  // --------------------------------------------------------------- one round's outcomes

  lemma {:induction false} KeysAppend<K, T>(a: PerItem<K, T>, b: PerItem<K, T>)
    ensures Keys(a + b) == Keys(a) + Keys(b)
  {
  }

  /** Sorting the outcomes out loses none. */
  lemma {:induction false} SplitKeys<K, T>(s: PerItem<K, T>, spent: bool)
    ensures multiset(Keys(s)) == multiset(Keys(Settled(s, spent))) + multiset(Keys(Kept(s, spent)))
  {
    if s != [] {
      var init, last := s[..|s| - 1], s[|s| - 1];
      SplitKeys(init, spent);
      assert s == init + [last];
      KeysAppend(init, [last]);
      KeysAppend(Settled(init, spent), if DisposedOutcome(last.1, spent).Settle? then [last] else []);
      KeysAppend(Kept(init, spent), if DisposedOutcome(last.1, spent).Settle? then [] else [last]);
    }
  }

  /** Sorting out keeps the order: it can be done piece by piece, and a single outcome is
      final unless it has a code that is retriable, or asks for a refresh that is still
      allowed. */
  lemma {:induction false} SplitInOrder<K, T>(a: PerItem<K, T>, b: PerItem<K, T>, spent: bool)
    ensures Settled(a + b, spent) == Settled(a, spent) + Settled(b, spent)
    ensures Kept(a + b, spent) == Kept(a, spent) + Kept(b, spent)
  {
    if b == [] {
      assert a + b == a;
    } else {
      var n := |b| - 1;
      assert (a + b)[..|a| + n] == a + b[..n];
      SplitInOrder(a, b[..n], spent);
    }
  }

  lemma SplitOne<K, T>(e: (K, Outcome<T>), spent: bool)
    ensures var again := e.1.Err? && e.1.error.Coded? && (e.1.error.code.retriable || (e.1.error.code.refreshes && !spent));
            && Settled([e], spent) == (if again then [] else [e])
            && Kept([e], spent) == (if again then [e] else [])
  {
    assert [e][..0] == [];
  }

  lemma {:induction false} SplitMembers<K, T>(s: PerItem<K, T>, spent: bool, e: (K, Outcome<T>))
    ensures e in Settled(s, spent) <==> e in s && DisposedOutcome(e.1, spent).Settle?
    ensures e in Kept(s, spent) <==> e in s && !DisposedOutcome(e.1, spent).Settle?
  {
    if s != [] {
      var init, last := s[..|s| - 1], s[|s| - 1];
      SplitMembers(init, spent, e);
      assert s == init + [last];
    }
  }

  lemma KeyOf<K, T>(s: PerItem<K, T>, k: K)
    ensures k in Keys(s) <==> exists o :: (k, o) in s
  {
    if k in Keys(s) {
      var i :| 0 <= i < |s| && Keys(s)[i] == k;
      assert (k, s[i].1) in s;
    }
    if o :| (k, o) in s {
      var i :| 0 <= i < |s| && s[i] == (k, o);
      assert Keys(s)[i] == k;
    }
  }

  // ------------------------------------------------------------------- the rounds of a call

  /** The round answered exactly what it was asked. */
  ghost predicate Exact<K, T>(r: Round<K, T>) {
    multiset(Keys(r.outcomes)) == multiset(r.asked)
  }

  ghost predicate AllExact<K, T>(rounds: seq<Round<K, T>>) {
    forall i | 0 <= i < |rounds| :: Exact(rounds[i])
  }

  ghost function Final<K, T>(r: Round<K, T>): PerItem<K, T> {
    Settled(r.outcomes, r.spent)
  }

  ghost function Open<K, T>(r: Round<K, T>): PerItem<K, T> {
    Kept(r.outcomes, r.spent)
  }

  /** The first round, and the rounds after it. */
  lemma RoundsAre<K, T>(world: World, asked: seq<K>, spent: bool, n: nat, patience: nat)
    requires Rounds<K, T>(world, asked, spent, n, patience) != []
    ensures world(n, asked).Some?
    ensures var outcomes: PerItem<K, T> := world(n, asked).value;
            var kept := Kept(outcomes, spent);
            Rounds<K, T>(world, asked, spent, n, patience) == [Round(asked, outcomes, spent)]
              + if kept == [] || n >= patience then []
                else Rounds(world, Keys(kept), spent || Spends(outcomes, spent), n + 1, patience)
  {
  }

  /** Each round asks exactly what the one before it left open. */
  lemma {:induction false} Chained<K, T>(world: World, asked: seq<K>, spent: bool, n: nat, patience: nat, i: nat)
    requires var rounds: seq<Round<K, T>> := Rounds(world, asked, spent, n, patience); i < |rounds|
    ensures var rounds: seq<Round<K, T>> := Rounds(world, asked, spent, n, patience);
            && rounds[0].asked == asked && rounds[0].spent == spent
            && world(n + i, rounds[i].asked) == Some(rounds[i].outcomes)
            && (i + 1 < |rounds| ==>
                  && rounds[i + 1].asked == Keys(Open(rounds[i])) && Open(rounds[i]) != []
                  && rounds[i + 1].spent == (rounds[i].spent || Spends(rounds[i].outcomes, rounds[i].spent)))
    decreases i
  {
    hide Rounds;
    hide Kept;
    hide Keys;
    hide Spends;
    RoundsAre<K, T>(world, asked, spent, n, patience);
    var outcomes: PerItem<K, T> := world(n, asked).value;
    var kept := Kept(outcomes, spent);
    if kept != [] && n < patience {
      var later := spent || Spends(outcomes, spent);
      var rest: seq<Round<K, T>> := Rounds(world, Keys(kept), later, n + 1, patience);
      if i > 0 {
        Chained<K, T>(world, Keys(kept), later, n + 1, patience, i - 1);
      } else if rest != [] {
        RoundsAre<K, T>(world, Keys(kept), later, n + 1, patience);
      }
    }
  }

  /** The pending items only ever shrink: a round's items are those it settles and
      those the next round asks. */
  lemma PendingShrinks<K, T>(world: World, items: seq<K>, patience: nat, i: nat)
    requires var rounds: seq<Round<K, T>> := Rounds(world, items, false, 0, patience); i + 1 < |rounds| && Exact(rounds[i])
    ensures var rounds: seq<Round<K, T>> := Rounds(world, items, false, 0, patience);
            multiset(rounds[i].asked) == multiset(Keys(Final(rounds[i]))) + multiset(rounds[i + 1].asked)
  {
    var rounds: seq<Round<K, T>> := Rounds(world, items, false, 0, patience);
    Chained<K, T>(world, items, false, 0, patience, i);
    SplitKeys(rounds[i].outcomes, rounds[i].spent);
  }

  /** Everything settled before the i-th round, in order. */
  ghost function SettledBefore<K, T>(rounds: seq<Round<K, T>>, i: nat): PerItem<K, T>
    requires i <= |rounds|
  {
    if i == 0 then [] else SettledBefore(rounds, i - 1) + Final(rounds[i - 1])
  }

  /** At every round, pending plus settled is the input. */
  lemma {:induction false} PendingPlusSettled<K, T>(world: World, items: seq<K>, patience: nat, i: nat)
    requires var rounds: seq<Round<K, T>> := Rounds(world, items, false, 0, patience); i < |rounds| && AllExact(rounds)
    ensures var rounds: seq<Round<K, T>> := Rounds(world, items, false, 0, patience);
            multiset(Keys(SettledBefore(rounds, i))) + multiset(rounds[i].asked) == multiset(items)
  {
    hide Rounds;
    hide Keys;
    hide Exact;
    hide Final;
    var rounds: seq<Round<K, T>> := Rounds(world, items, false, 0, patience);
    if i == 0 {
      assert SettledBefore(rounds, 0) == [];
      assert Keys(SettledBefore(rounds, 0)) == [];
      Chained<K, T>(world, items, false, 0, patience, 0);
    } else {
      PendingPlusSettled<K, T>(world, items, patience, i - 1);
      PendingShrinks<K, T>(world, items, patience, i - 1);
      KeysAppend(SettledBefore(rounds, i - 1), Final(rounds[i - 1]));
    }
  }

  /** One answer per item, with its multiplicity. */
  lemma {:induction false} Conserved<K, T>(world: World, asked: seq<K>, spent: bool, n: nat, patience: nat)
    requires AllExact<K, T>(Rounds(world, asked, spent, n, patience))
    requires Answer<K, T>(world, asked, spent, n, patience).Some?
    ensures multiset(Keys<K, T>(Answer(world, asked, spent, n, patience).value)) == multiset(asked)
    decreases patience - n
  {
    var rounds: seq<Round<K, T>> := Rounds(world, asked, spent, n, patience);
    var outcomes: PerItem<K, T> := world(n, asked).value;
    var kept := Kept(outcomes, spent);
    assert Exact(rounds[0]);
    SplitKeys(outcomes, spent);
    if kept == [] || n >= patience {
      KeysAppend(Settled(outcomes, spent), kept);
    } else {
      var later := spent || Spends(outcomes, spent);
      assert rounds[1..] == Rounds<K, T>(world, Keys(kept), later, n + 1, patience);
      Conserved<K, T>(world, Keys(kept), later, n + 1, patience);
      KeysAppend(Settled(outcomes, spent), Answer<K, T>(world, Keys(kept), later, n + 1, patience).value);
    }
  }

  /** At most one round of a call asks again on the stale-view allowance. */
  lemma {:induction false} AllowanceOnce<K, T>(world: World, items: seq<K>, patience: nat, i: nat, j: nat)
    requires var rounds: seq<Round<K, T>> := Rounds(world, items, false, 0, patience); i < j < |rounds|
    ensures var rounds: seq<Round<K, T>> := Rounds(world, items, false, 0, patience);
            Spends(rounds[i].outcomes, rounds[i].spent) ==> rounds[j].spent && !Spends(rounds[j].outcomes, rounds[j].spent)
  {
    hide Rounds;
    Chained<K, T>(world, items, false, 0, patience, j - 1);
    if i < j - 1 {
      AllowanceOnce<K, T>(world, items, patience, i, j - 1);
    }
  }

  // ------------------------------------------------------------------------ single items

  /** The answer is not worth asking about again, except once after a refresh. */
  predicate RefreshOnly<T>(o: Outcome<T>) {
    o.Err? && o.error.Coded? && !o.error.code.retriable && o.error.code.refreshes
  }

  /** An item a later round asks was answered, not finally, by the one before. */
  lemma AskedAgain<K, T>(world: World, items: seq<K>, patience: nat, i: nat, k: K) returns (o: Outcome<T>)
    requires var rounds: seq<Round<K, T>> := Rounds(world, items, false, 0, patience); i + 1 < |rounds| && k in rounds[i + 1].asked
    ensures var rounds: seq<Round<K, T>> := Rounds(world, items, false, 0, patience);
            && (k, o) in rounds[i].outcomes
            && !DisposedOutcome(o, rounds[i].spent).Settle?
            && k in Keys(rounds[i].outcomes)
  {
    hide Rounds;
    var rounds: seq<Round<K, T>> := Rounds(world, items, false, 0, patience);
    Chained<K, T>(world, items, false, 0, patience, i);
    KeyOf(Open(rounds[i]), k);
    o :| (k, o) in Open(rounds[i]);
    SplitMembers(rounds[i].outcomes, rounds[i].spent, (k, o));
    KeyOf(rounds[i].outcomes, k);
  }

  lemma OneOutcome<K, T>(s: PerItem<K, T>, k: K, a: Outcome<T>, b: Outcome<T>)
    requires multiset(Keys(s))[k] == 1 && (k, a) in s && (k, b) in s
    ensures a == b
  {
    var i :| 0 <= i < |s| && s[i] == (k, a);
    var j :| 0 <= j < |s| && s[j] == (k, b);
    if i < j {
      CountedTwice(Keys(s), i, j);
    } else if j < i {
      CountedTwice(Keys(s), j, i);
    }
  }

  /** With budget left, an item is asked again exactly when its code is retriable for
      a named resource, or asks for a refresh and the allowance is unspent; a success,
      a terminal code and a failure without a code are final. */
  lemma AskedAgainIff<K, T>(world: World, items: seq<K>, patience: nat, i: nat, k: K, o: Outcome<T>)
    requires var rounds: seq<Round<K, T>> := Rounds(world, items, false, 0, patience);
             i + 1 < |rounds| && (k, o) in rounds[i].outcomes && multiset(Keys(rounds[i].outcomes))[k] == 1
    ensures var rounds: seq<Round<K, T>> := Rounds(world, items, false, 0, patience);
            k in rounds[i + 1].asked <==>
              o.Err? && o.error.Coded? && (o.error.code.retriable || (o.error.code.refreshes && !rounds[i].spent))
  {
    hide Rounds;
    var rounds: seq<Round<K, T>> := Rounds(world, items, false, 0, patience);
    Chained<K, T>(world, items, false, 0, patience, i);
    SplitMembers(rounds[i].outcomes, rounds[i].spent, (k, o));
    KeyOf(Open(rounds[i]), k);
    if k in rounds[i + 1].asked {
      var again := AskedAgain<K, T>(world, items, patience, i, k);
      OneOutcome(rounds[i].outcomes, k, o, again);
    }
  }

  /** An item that always answers with a refresh-only code is asked at most twice. */
  lemma {:induction false} AskedAtMostTwice<K, T>(world: World, items: seq<K>, patience: nat, k: K, i: nat)
    requires var rounds: seq<Round<K, T>> := Rounds(world, items, false, 0, patience);
             && 2 <= i < |rounds| && AllExact(rounds)
             && forall j, o: Outcome<T> | 0 <= j < |rounds| && (k, o) in rounds[j].outcomes :: RefreshOnly(o)
    ensures k !in Rounds<K, T>(world, items, false, 0, patience)[i].asked
  {
    hide Rounds;
    var rounds: seq<Round<K, T>> := Rounds(world, items, false, 0, patience);
    if k in rounds[i].asked {
      var last := AskedAgain<K, T>(world, items, patience, i - 1, k);
      assert Exact(rounds[i - 1]);
      assert k in multiset(Keys(rounds[i - 1].outcomes));
      assert k in rounds[i - 1].asked;
      var first := AskedAgain<K, T>(world, items, patience, i - 2, k);
      var at :| 0 <= at < |rounds[i - 2].outcomes| && rounds[i - 2].outcomes[at] == (k, first);
      assert DisposedOutcome(rounds[i - 2].outcomes[at].1, rounds[i - 2].spent).RefreshOnce?;
      AllowanceOnce<K, T>(world, items, patience, i - 2, i - 1);
      assert false;
    }
  }

  /** The i-th round is the last to ask `k`. */
  ghost predicate LastAsks<K, T>(rounds: seq<Round<K, T>>, k: K, i: nat) {
    && i < |rounds| && k in rounds[i].asked
    && forall j | i < j < |rounds| :: k !in rounds[j].asked
  }

  lemma {:induction false} NotAskedAgain<K, T>(world: World, asked: seq<K>, spent: bool, n: nat, patience: nat, k: K)
    requires AllExact<K, T>(Rounds(world, asked, spent, n, patience)) && k !in asked
    ensures forall r <- Rounds<K, T>(world, asked, spent, n, patience) :: k !in r.asked
    decreases patience - n
  {
    var rounds: seq<Round<K, T>> := Rounds(world, asked, spent, n, patience);
    if rounds != [] {
      var outcomes := rounds[0].outcomes;
      var kept := Kept(outcomes, spent);
      if kept != [] && n < patience {
        SplitKeys(outcomes, spent);
        assert Exact(rounds[0]);
        assert k !in multiset(asked);
        assert k !in multiset(Keys(kept));
        var later := spent || Spends(outcomes, spent);
        var rest: seq<Round<K, T>> := Rounds(world, Keys(kept), later, n + 1, patience);
        assert rounds == [rounds[0]] + rest && rest == rounds[1..];
        NotAskedAgain<K, T>(world, Keys(kept), later, n + 1, patience, k);
      }
    }
  }

  /** The first round, and what follows it. */
  lemma Unfolded<K, T>(world: World, asked: seq<K>, spent: bool, n: nat, patience: nat)
    requires Answer<K, T>(world, asked, spent, n, patience).Some?
    ensures world(n, asked).Some?
    ensures var outcomes: PerItem<K, T> := world(n, asked).value;
            var kept, later := Kept(outcomes, spent), spent || Spends(outcomes, spent);
            var rounds: seq<Round<K, T>> := Rounds(world, asked, spent, n, patience);
            var answer := Answer(world, asked, spent, n, patience).value;
            if kept == [] || n >= patience then
              rounds == [Round(asked, outcomes, spent)] && answer == Settled(outcomes, spent) + kept
            else
              && rounds == [Round(asked, outcomes, spent)] + Rounds(world, Keys(kept), later, n + 1, patience)
              && Answer<K, T>(world, Keys(kept), later, n + 1, patience).Some?
              && answer == Settled(outcomes, spent) + Answer<K, T>(world, Keys(kept), later, n + 1, patience).value
  {
  }

  lemma AllExactTail<K, T>(first: Round<K, T>, rest: seq<Round<K, T>>)
    requires AllExact([first] + rest)
    ensures Exact(first) && AllExact(rest)
  {
    var all := [first] + rest;
    assert all[0] == first && forall i | 0 <= i < |rest| :: rest[i] == all[i + 1];
  }

  lemma LastAsksFirst<K, T>(first: Round<K, T>, rest: seq<Round<K, T>>, k: K)
    requires k in first.asked && forall r <- rest :: k !in r.asked
    ensures LastAsks([first] + rest, k, 0)
  {
  }

  lemma LastAsksLater<K, T>(first: Round<K, T>, rest: seq<Round<K, T>>, k: K, i: nat)
    requires LastAsks(rest, k, i)
    ensures LastAsks([first] + rest, k, i + 1) && ([first] + rest)[i + 1] == rest[i]
  {
    assert forall j | i + 1 < j < |[first] + rest| :: ([first] + rest)[j] == rest[j - 1];
  }

  /** An item requested once gets the outcome of the last round that asked it. */
  lemma {:induction false} FromLastRound<K, T>(world: World, asked: seq<K>, spent: bool, n: nat, patience: nat, k: K, o: Outcome<T>)
    returns (i: nat)
    requires AllExact<K, T>(Rounds(world, asked, spent, n, patience)) && multiset(asked)[k] == 1
    requires Answer<K, T>(world, asked, spent, n, patience).Some?
    requires (k, o) in Answer<K, T>(world, asked, spent, n, patience).value
    ensures var rounds: seq<Round<K, T>> := Rounds(world, asked, spent, n, patience);
            LastAsks(rounds, k, i) && i < |rounds| && (k, o) in rounds[i].outcomes
    decreases patience - n
  {
    hide Settled;
    hide Kept;
    hide Spends;
    hide Keys;
    hide Rounds;
    hide Answer;
    hide AllExact;
    hide LastAsks;
    Unfolded<K, T>(world, asked, spent, n, patience);
    var outcomes: PerItem<K, T> := world(n, asked).value;
    var first, kept := Round(asked, outcomes, spent), Kept(outcomes, spent);
    assert k in multiset(asked);
    SplitMembers(outcomes, spent, (k, o));
    if kept == [] || n >= patience {
      assert [first] + [] == [first];
      LastAsksFirst(first, [], k);
      i := 0;
    } else {
      var later := spent || Spends(outcomes, spent);
      var rest: seq<Round<K, T>> := Rounds(world, Keys(kept), later, n + 1, patience);
      AllExactTail(first, rest);
      OnceSplits(outcomes, spent, k, o);
      if (k, o) in Settled(outcomes, spent) {
        NotAskedAgain<K, T>(world, Keys(kept), later, n + 1, patience, k);
        LastAsksFirst(first, rest, k);
        i := 0;
      } else {
        Conserved<K, T>(world, Keys(kept), later, n + 1, patience);
        KeyIn(Answer<K, T>(world, Keys(kept), later, n + 1, patience).value, k, o);
        var at := FromLastRound<K, T>(world, Keys(kept), later, n + 1, patience, k, o);
        LastAsksLater(first, rest, k, at);
        i := at + 1;
      }
    }
  }

  lemma {:induction false} SettledBeforeShift<K, T>(first: Round<K, T>, rest: seq<Round<K, T>>, i: nat)
    requires i <= |rest|
    ensures SettledBefore([first] + rest, i + 1) == Final(first) + SettledBefore(rest, i)
  {
    hide Final;
    var all := [first] + rest;
    if i == 0 {
      assert SettledBefore(all, 0) == [] && SettledBefore(rest, 0) == [];
      assert [] + Final(all[0]) == Final(first) + [];
    } else {
      SettledBeforeShift(first, rest, i - 1);
      assert all[i] == rest[i - 1];
      Associates(Final(first), SettledBefore(rest, i - 1), Final(rest[i - 1]));
    }
  }

  /** The result, duplicates and all: what each round settled, in order, and then
      what the last one left open. */
  lemma {:induction false} AnswerIsSettlements<K, T>(world: World, asked: seq<K>, spent: bool, n: nat, patience: nat)
    requires Answer<K, T>(world, asked, spent, n, patience).Some?
    ensures var rounds: seq<Round<K, T>> := Rounds(world, asked, spent, n, patience);
            && rounds != []
            && Answer<K, T>(world, asked, spent, n, patience).value
               == SettledBefore(rounds, |rounds|) + Open(rounds[|rounds| - 1])
    decreases patience - n
  {
    hide Settled;
    hide Kept;
    hide Spends;
    hide Keys;
    hide Rounds;
    hide Answer;
    hide SettledBefore;
    Unfolded<K, T>(world, asked, spent, n, patience);
    var outcomes: PerItem<K, T> := world(n, asked).value;
    var first, kept := Round(asked, outcomes, spent), Kept(outcomes, spent);
    if kept == [] || n >= patience {
      assert [first] + [] == [first];
      SettledBeforeShift(first, [], 0);
      NothingBefore<K, T>([]);
    } else {
      var later := spent || Spends(outcomes, spent);
      var rest: seq<Round<K, T>> := Rounds(world, Keys(kept), later, n + 1, patience);
      AnswerIsSettlements<K, T>(world, Keys(kept), later, n + 1, patience);
      SettledBeforeShift(first, rest, |rest|);
      Associates(Final(first), SettledBefore(rest, |rest|), Open(rest[|rest| - 1]));
    }
  }

  lemma NothingBefore<K, T>(rounds: seq<Round<K, T>>)
    ensures SettledBefore(rounds, 0) == []
  {
  }

  lemma {:induction false} SettledIn<K, T>(rounds: seq<Round<K, T>>, n: nat, e: (K, Outcome<T>)) returns (i: nat)
    requires n <= |rounds| && e in SettledBefore(rounds, n)
    ensures i < n && e in Final(rounds[i])
  {
    hide Final;
    if e in Final(rounds[n - 1]) {
      i := n - 1;
    } else {
      i := SettledIn(rounds, n - 1, e);
    }
  }

  /** Every entry returned, also of an item requested more than once, is an outcome
      some round gave: final there, or from the last round. */
  lemma EntryFromSomeRound<K, T>(world: World, items: seq<K>, patience: nat, e: (K, Outcome<T>)) returns (i: nat)
    requires Answer<K, T>(world, items, false, 0, patience).Some?
    requires e in Answer<K, T>(world, items, false, 0, patience).value
    ensures var rounds: seq<Round<K, T>> := Rounds(world, items, false, 0, patience);
            && i < |rounds| && e in rounds[i].outcomes
            && (DisposedOutcome(e.1, rounds[i].spent).Settle? || i == |rounds| - 1)
  {
    hide Rounds;
    hide Answer;
    hide SettledBefore;
    var rounds: seq<Round<K, T>> := Rounds(world, items, false, 0, patience);
    AnswerIsSettlements<K, T>(world, items, false, 0, patience);
    if e in SettledBefore(rounds, |rounds|) {
      i := SettledIn(rounds, |rounds|, e);
    } else {
      i := |rounds| - 1;
    }
    SplitMembers(rounds[i].outcomes, rounds[i].spent, e);
  }

  lemma KeyIn<K, T>(s: PerItem<K, T>, k: K, o: Outcome<T>)
    requires (k, o) in s
    ensures k in multiset(Keys(s)) && k in Keys(s)
  {
    KeyOf(s, k);
  }

  /** An item answered once is either settled or asked again, not both. */
  lemma OnceSplits<K, T>(s: PerItem<K, T>, spent: bool, k: K, o: Outcome<T>)
    requires multiset(Keys(s))[k] == 1
    ensures multiset(Keys(Kept(s, spent)))[k] <= 1
    ensures (k, o) in Settled(s, spent) ==> k !in Keys(Kept(s, spent))
  {
    SplitKeys(s, spent);
    if (k, o) in Settled(s, spent) {
      KeyIn(Settled(s, spent), k, o);
      assert multiset(Keys(Kept(s, spent)))[k] == 0;
    }
  }

  /** A retriable outcome is returned only when the budget is exhausted. */
  lemma {:induction false} RetriableOnlyWhenExhausted<K, T>(world: World, asked: seq<K>, spent: bool, n: nat, patience: nat, e: (K, Outcome<T>))
    requires n <= patience && Answer<K, T>(world, asked, spent, n, patience).Some?
    requires e in Answer<K, T>(world, asked, spent, n, patience).value
    requires e.1.Err? && e.1.error.Coded? && e.1.error.code.retriable
    ensures |Rounds<K, T>(world, asked, spent, n, patience)| == patience - n + 1
    decreases patience - n
  {
    var outcomes: PerItem<K, T> := world(n, asked).value;
    var kept := Kept(outcomes, spent);
    SplitMembers(outcomes, spent, e);
    if kept != [] && n < patience {
      RetriableOnlyWhenExhausted<K, T>(world, Keys(kept), spent || Spends(outcomes, spent), n + 1, patience, e);
    }
  }
}
