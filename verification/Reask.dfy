/** Re-asking the retriable slice of a per-item result. */
module Reask {
  import opened Options

  /** A broker's error code, as the loop judges it: retriable for a resource the
      caller named, and asking for fresh metadata. */
  datatype Code = Code(number: int, retriable: bool, refreshes: bool)

  datatype Error = Coded(code: Code) | Uncoded(what: string)

  datatype Outcome<T> = Ok(value: T) | Err(error: Error)

  type PerItem<K, T> = seq<(K, Outcome<T>)>

  datatype Disposition = Settle | ReaskItem | RefreshOnce

  function Disposed(code: Code, spent: bool): Disposition {
    if code.retriable then ReaskItem
    else if code.refreshes && !spent then RefreshOnce
    else Settle
  }

  function DisposedOutcome<T>(outcome: Outcome<T>, spent: bool): Disposition {
    if outcome.Err? && outcome.error.Coded? then Disposed(outcome.error.code, spent) else Settle
  }

  /** What one round over `asked` was told, and whether the allowance was gone by then. */
  datatype Round<K, T> = Round(asked: seq<K>, outcomes: PerItem<K, T>, spent: bool)

  /** The cluster: what the n-th round over a subset answers, or nothing when the
      round as a whole fails. */
  type World<!K, T> = (nat, seq<K>) -> Option<PerItem<K, T>>

  function Keys<K, T>(s: PerItem<K, T>): (r: seq<K>)
    ensures |r| == |s|
  {
    seq(|s|, i requires 0 <= i < |s| => s[i].0)
  }

  /** The outcomes that are final, in order. */
  function Settled<K, T>(s: PerItem<K, T>, spent: bool): PerItem<K, T> {
    if s == [] then []
    else
      var last := s[|s| - 1];
      Settled(s[..|s| - 1], spent) + if DisposedOutcome(last.1, spent).Settle? then [last] else []
  }

  /** The outcomes to ask about again, in order. */
  function Kept<K, T>(s: PerItem<K, T>, spent: bool): PerItem<K, T> {
    if s == [] then []
    else
      var last := s[|s| - 1];
      Kept(s[..|s| - 1], spent) + if DisposedOutcome(last.1, spent).Settle? then [] else [last]
  }

  /** Some item is asked again on the stale-view allowance. */
  predicate Spends<K, T>(s: PerItem<K, T>, spent: bool) {
    exists i | 0 <= i < |s| :: DisposedOutcome(s[i].1, spent).RefreshOnce?
  }

  /** The rounds of a call, `n` of them behind it. The budget admits `patience`
      rounds after the first. */
  ghost function Rounds<K, T>(world: World, asked: seq<K>, spent: bool, n: nat, patience: nat): (r: seq<Round<K, T>>)
    decreases patience - n
  {
    match world(n, asked)
    case None => []
    case Some(outcomes) =>
      var kept := Kept(outcomes, spent);
      [Round(asked, outcomes, spent)]
      + if kept == [] || n >= patience then []
        else Rounds(world, Keys(kept), spent || Spends(outcomes, spent), n + 1, patience)
  }

  /** What the call returns, in order of settlement; nothing when a round fails. */
  ghost function Answer<K, T>(world: World, asked: seq<K>, spent: bool, n: nat, patience: nat): Option<PerItem<K, T>>
    decreases patience - n
  {
    match world(n, asked)
    case None => None
    case Some(outcomes) =>
      var kept := Kept(outcomes, spent);
      if kept == [] || n >= patience then Some(Settled(outcomes, spent) + kept)
      else Prefixed(Settled(outcomes, spent), Answer(world, Keys(kept), spent || Spends(outcomes, spent), n + 1, patience))
  }

  // ------------------------------------------------------------------------ the loop

  /** The pass over one round's outcomes. */
  method SortOut<K, T>(outcomes: PerItem<K, T>, spent: bool)
    returns (settled: PerItem<K, T>, latest: PerItem<K, T>, pending: seq<K>, spending: bool)
    ensures settled == Settled(outcomes, spent)
    ensures latest == Kept(outcomes, spent)
    ensures pending == Keys(latest)
    ensures spending == Spends(outcomes, spent)
  {
    settled, latest, pending, spending := [], [], [], false;
    for i := 0 to |outcomes|
      invariant settled == Settled(outcomes[..i], spent)
      invariant latest == Kept(outcomes[..i], spent)
      invariant pending == Keys(latest)
      invariant spending == exists k | 0 <= k < i :: DisposedOutcome(outcomes[k].1, spent).RefreshOnce?
    {
      var entry := outcomes[i];
      assert outcomes[..i + 1][..i] == outcomes[..i];
      var disposition := DisposedOutcome(entry.1, spent);
      if disposition.Settle? {
        settled := settled + [entry];
      } else {
        spending := spending || disposition.RefreshOnce?;
        pending := pending + [entry.0];
        latest := latest + [entry];
      }
    }
    assert outcomes[..|outcomes|] == outcomes;
  }

  /** `per_item_retrying`. */
  method PerItemRetrying<K, T>(world: World, items: seq<K>, patience: nat) returns (result: Option<PerItem<K, T>>)
    ensures result == Answer(world, items, false, 0, patience)
  {
    var settled: PerItem<K, T> := [];
    var pending := items;
    var attempt: nat := 0;
    var spent := false;
    PrefixedByNothing(Answer(world, items, false, 0, patience));
    while true
      invariant attempt <= patience
      invariant Answer(world, items, false, 0, patience)
             == Prefixed(settled, Answer(world, pending, spent, attempt, patience))
      decreases patience - attempt
    {
      var outcomes := world(attempt, pending);
      if outcomes.None? {
        return None;
      }
      var final, latest, narrowed, spending := SortOut(outcomes.value, spent);
      PrefixedTwice(settled, final, Answer(world, narrowed, spent || spending, attempt + 1, patience));
      PrefixedTwice(settled, final, Some(latest));
      settled := settled + final;
      pending := narrowed;
      if pending == [] {
        assert latest == [] && final + latest == final;
        return Some(settled);
      }
      if attempt >= patience {
        return Some(settled + latest);
      }
      spent := spent || spending;
      attempt := attempt + 1;
    }
  }

  ghost function Prefixed<K, T>(front: PerItem<K, T>, rest: Option<PerItem<K, T>>): Option<PerItem<K, T>> {
    match rest
    case None => None
    case Some(s) => Some(front + s)
  }

  lemma PrefixedByNothing<K, T>(rest: Option<PerItem<K, T>>)
    ensures Prefixed([], rest) == rest
  {
    if rest.Some? {
      assert [] + rest.value == rest.value;
    }
  }

  lemma PrefixedTwice<K, T>(a: PerItem<K, T>, b: PerItem<K, T>, rest: Option<PerItem<K, T>>)
    ensures Prefixed(a, Prefixed(b, rest)) == Prefixed(a + b, rest)
  {
    if rest.Some? {
      assert a + (b + rest.value) == a + b + rest.value;
    }
  }
}
