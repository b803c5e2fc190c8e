/** What the wrap of the round-robin cursor does: exactly when a scan can miss its
    only subscriber, and exactly when an unwanted topic can shift the deal. */
module RoundRobinWrap {
  import opened Order
  import opened Group
  import opened Assignment
  import opened Modulo
  import opened RoundRobinAssignor

  // -------------------------------------------------------------- what a scan can miss

  /** Nobody at this place is met by a scan from `cursor`. */
  ghost predicate Missed(w: nat, n: nat, cursor: nat, i: nat)
    requires w > 0 && n > 0
  {
    i < n && forall t: nat | t < n :: Met(w, n, cursor, t) != i
  }

  /** The place a scan across the wrap misses: `left` looks are made before it, and
      `rest` is what the last rotation before it lacks. */
  function MissedPlace(n: nat, left: int, rest: int): int {
    if rest >= left then n - 1 else if n - left >= rest then n - left else rest
  }

  lemma BeforeWrap(w: nat, n: nat, cursor: nat, t: nat)
    requires 0 < n < w && cursor < w && cursor + t < w && w - cursor < n
    ensures var r, a := w % n, w - cursor;
            Met(w, n, cursor, t) == if r - a + t >= 0 then r - a + t else r - a + t + n
  {
    var q, r, a := w / n, w % n, w - cursor;
    Divided(w, n);
    Small(cursor + t, w);
    if r - a + t >= 0 {
      Remainder(cursor + t, q, n, r - a + t);
    } else {
      Distributes(q, -1, n);
      Remainder(cursor + t, q - 1, n, r - a + t + n);
    }
  }

  lemma AfterWrap(w: nat, n: nat, cursor: nat, t: nat)
    requires 0 < n < w && cursor < w <= cursor + t && t < n
    ensures Met(w, n, cursor, t) == t - (w - cursor)
  {
    var v := cursor + t - w;
    Remainder(cursor + t, 1, w, v);
    Small(v, n);
  }

  /** More members than the cursor can count: the last is never met. */
  lemma NeverThatFar(w: nat, n: nat, cursor: nat, t: nat)
    requires 0 < w < n
    ensures Met(w, n, cursor, t) != n - 1
  {
    Small((cursor + t) % w, n);
  }

  lemma MissesOne(w: nat, n: nat, cursor: nat) returns (i: nat)
    requires n > 0 && cursor < w < cursor + n && w % n != 0
    ensures Missed(w, n, cursor, i)
  {
    hide Met;
    if n > w {
      i := n - 1;
      forall t: nat | t < n ensures Met(w, n, cursor, t) != i {
        NeverThatFar(w, n, cursor, t);
      }
    } else {
      DividesItself(w, n);
      i := MissedPlace(n, w - cursor, w % n);
      forall t: nat | t < n ensures Met(w, n, cursor, t) != i {
        if cursor + t < w {
          BeforeWrap(w, n, cursor, t);
        } else {
          AfterWrap(w, n, cursor, t);
        }
      }
    }
  }

  lemma DividesItself(w: nat, n: nat)
    requires 0 < n <= w && w % n != 0
    ensures n < w && 0 < w % n < n
  {
  }

  // ------------------------------------------------------------------------- witnesses

  function Named(j: nat): string {
    if j == 0 then "" else "a" + Named(j - 1)
  }

  lemma {:induction false} NamedLess(i: nat, j: nat)
    requires i < j
    ensures StrLess(Named(i), Named(j))
  {
    if i > 0 {
      NamedLess(i - 1, j - 1);
      assert Named(i)[1..] == Named(i - 1) && Named(j)[1..] == Named(j - 1);
    }
  }

  /** `n` members in id order; only the one at `only` subscribes to `t`, or everybody. */
  function Crowd(n: nat, only: int): (ms: seq<Member>)
    ensures |ms| == n
    ensures forall i | 0 <= i < n :: ms[i].id == Named(i) && ms[i].topics == if only < 0 || i == only then ["t"] else []
  {
    seq(n, i requires 0 <= i < n => Member(Named(i), if only < 0 || i == only then ["t"] else [], [], 0))
  }

  lemma CrowdSorted(n: nat, only: int)
    ensures SortedById(Crowd(n, only))
    ensures !AnySubscribes(Crowd(n, only), "u")
    ensures only < n && n > 0 ==> AnySubscribes(Crowd(n, only), "t")
  {
    var ms := Crowd(n, only);
    forall i, j | 0 <= i < j < n ensures StrLess(ms[i].id, ms[j].id) {
      NamedLess(i, j);
    }
    if only < n && n > 0 {
      assert ms[if only < 0 then 0 else only] in ms;
    }
  }

  lemma LoneMissed(n: nat, only: nat, cursor: nat)
    requires n > 0 && cursor < USIZE && Missed(USIZE, n, cursor, only)
    ensures Scan(Crowd(n, only), cursor, "t", 0).0 < 0
  {
    hide Met;
    hide Scan;
    ScanExact(Crowd(n, only), cursor, "t", 0);
  }

  // ----------------------------------------------------------------- exactly when

  ghost predicate AlwaysFinds(n: nat, cursor: nat)
    requires n > 0
  {
    forall ms, topic | |ms| == n && SortedById(ms) :: Scan(ms, cursor, topic, 0).0 >= 0 <==> AnySubscribes(ms, topic)
  }

  /** A scan finds a subscriber if there is one, whatever the subscriptions, exactly
      when it stops short of the wrap or the wrap is a whole number of rotations. */
  lemma ScanCompleteIff(n: nat, cursor: nat)
    requires n > 0 && cursor < USIZE
    ensures AlwaysFinds(n, cursor) <==> CompleteScan(n, cursor)
  {
    hide Scan;
    hide AnySubscribes;
    hide Met;
    if CompleteScan(n, cursor) {
      forall ms, topic | |ms| == n && SortedById(ms)
        ensures Scan(ms, cursor, topic, 0).0 >= 0 <==> AnySubscribes(ms, topic)
      {
        ScanFinds(ms, cursor, topic);
      }
    } else {
      var i := MissesOne(USIZE, n, cursor);
      LoneMissed(n, i, cursor);
      CrowdSorted(n, i);
      assert !(Scan(Crowd(n, i), cursor, "t", 0).0 >= 0 <==> AnySubscribes(Crowd(n, i), "t"));
    }
  }

  /** Three members, of whom only the last subscribes, and a cursor at its end. */
  lemma ScanMissesLast()
    ensures Scan(Crowd(3, 2), USIZE - 1, "t", 0).0 < 0 && AnySubscribes(Crowd(3, 2), "t")
  {
    var ms := Crowd(3, 2);
    assert ms[2] in ms;
    assert (USIZE - 1) % 3 == 0 && Next(USIZE - 1) == 0 && Next(0) == 1;
    assert Scan(ms, 1, "t", 2).0 == -1;
    assert Scan(ms, 0, "t", 1).0 == -1;
  }

  ghost predicate AlwaysDeals(n: nat, partitions: nat)
    requires n > 0
  {
    forall ms: seq<Member>, keys: seq<Key>, j | |ms| == n && SortedById(ms) && |keys| == partitions && 0 <= j < partitions ::
      Takers(ms, 0, keys)[j] >= 0 <==> AnySubscribes(ms, keys[j].topic)
  }

  /** A deal of so many partitions among so many members reaches every partition
      somebody wants, whatever the subscriptions, exactly when it fits. */
  lemma DealCompleteIff(n: nat, partitions: nat)
    requires n > 0
    ensures AlwaysDeals(n, partitions) <==> Fits(n, partitions)
  {
    hide Takers;
    hide AnySubscribes;
    if Fits(n, partitions) {
      forall ms: seq<Member>, keys: seq<Key>, j | |ms| == n && SortedById(ms) && |keys| == partitions && 0 <= j < partitions
        ensures Takers(ms, 0, keys)[j] >= 0 <==> AnySubscribes(ms, keys[j].topic)
      {
        TakerExact(ms, keys, j);
      }
    } else {
      var only, q := LastRotation(n, partitions);
      var ms, keys := Crowd(n, only), Delayed(q, partitions);
      CrowdSorted(n, only);
      DelayedMissed(n, only, q, partitions);
      assert keys[q].topic == "t";
      assert !(Takers(ms, 0, keys)[q] >= 0 <==> AnySubscribes(ms, keys[q].topic));
    }
  }

  /** So many rotations fit before the wrap, and the next one misses somebody. */
  lemma LastRotation(n: nat, partitions: nat) returns (only: nat, q: nat)
    requires n > 0 && !Fits(n, partitions)
    ensures q < partitions && q * n < USIZE && Missed(USIZE, n, q * n, only)
  {
    q := USIZE / n;
    Divided(USIZE, n);
    Distributes(q, 1, n);
    if partitions <= q {
      Grows(partitions, q, n);
    }
    only := MissesOne(USIZE, n, q * n);
  }

  /** `q` partitions nobody wants, and then ones somebody does. */
  function Delayed(q: nat, partitions: nat): (keys: seq<Key>)
    requires q <= partitions
    ensures |keys| == partitions
    ensures forall j | 0 <= j < partitions :: keys[j].topic == if j < q then "u" else "t"
  {
    seq(partitions, j requires 0 <= j < partitions => Key(if j < q then "u" else "t", j))
  }

  lemma DelayedMissed(n: nat, only: nat, q: nat, partitions: nat)
    requires n > 0 && q < partitions && q * n < USIZE && Missed(USIZE, n, q * n, only)
    ensures Takers(Crowd(n, only), 0, Delayed(q, partitions))[q] < 0
  {
    hide Takers;
    hide Turned;
    hide Missed;
    hide Scan;
    hide AnySubscribes;
    var ms, keys := Crowd(n, only), Delayed(q, partitions);
    CrowdSorted(n, only);
    TakerAt(ms, 0, keys, q);
    UnwantedTurn(ms, 0, keys[..q]);
    Small(q * n, USIZE);
    LoneMissed(n, only, q * n);
  }

  // ------------------------------------------------------------------- shifted deals

  ghost predicate NeverShifts(n: nat)
    requires n > 0
  {
    forall ms, a, unwanted, b, i: nat | |ms| == n && SortedById(ms) && Unwanted(ms, unwanted) ::
      SameDeal(ms, a, unwanted, b, i)
  }

  ghost predicate Unwanted(ms: seq<Member>, keys: seq<Key>) {
    forall k <- keys :: !AnySubscribes(ms, k.topic)
  }

  /** Member `i` is dealt the same with and without the keys in the middle. */
  ghost predicate SameDeal(ms: seq<Member>, a: seq<Key>, unwanted: seq<Key>, b: seq<Key>, i: nat)
    requires ms != []
  {
    Dealt(ms, a + unwanted + b, i) == Dealt(ms, a + b, i)
  }

  /** Partitions nobody wants leave every deal as it would be without them, however
      many there are, exactly when the wrap is a whole number of rotations. */
  lemma NeverShiftsIff(n: nat)
    requires 0 < n < USIZE
    ensures NeverShifts(n) <==> USIZE % n == 0
  {
    hide Dealt;
    hide AnySubscribes;
    if USIZE % n == 0 {
      forall ms, a, unwanted, b, i: nat | |ms| == n && SortedById(ms) && Unwanted(ms, unwanted)
        ensures SameDeal(ms, a, unwanted, b, i)
      {
        UnwantedKeys(ms, a, unwanted, b, i);
      }
    } else {
      var ms, unwanted, b := Crowd(n, -1), Delayed(USIZE / n + 1, USIZE / n + 1), [Key("t", 0)];
      CrowdSorted(n, -1);
      Shifted(n);
      assert Unwanted(ms, unwanted) && !SameDeal(ms, [], unwanted, b, 0);
    }
  }

  lemma Shifted(n: nat)
    requires 0 < n < USIZE && USIZE % n != 0
    ensures var ms, unwanted, b := Crowd(n, -1), Delayed(USIZE / n + 1, USIZE / n + 1), [Key("t", 0)];
            Dealt(ms, [] + unwanted + b, 0) != Dealt(ms, [] + b, 0)
  {
    hide Turned;
    hide Takers;
    hide Picked;
    hide Grouped;
    hide AnySubscribes;
    var ms, unwanted, b := Crowd(n, -1), Delayed(USIZE / n + 1, USIZE / n + 1), [Key("t", 0)];
    CrowdSorted(n, -1);
    var turned := Turned(ms, 0, unwanted);
    UnwantedTurn(ms, 0, unwanted);
    OverTheWrap(n);
    FirstTaker(n, turned);
    FirstTaker(n, 0);
    TurnedConcat(ms, 0, unwanted, b);
    assert [] + unwanted + b == unwanted + b && [] + b == b;
    LastPicked(unwanted, Takers(ms, 0, unwanted), b[0], turned);
    LastPicked([], [], b[0], 0);
    assert [] + [0] == [0];
    GroupedLists(Picked(b, [0], 0), b[0]);
    GroupedLists(Picked(unwanted + b, Takers(ms, 0, unwanted + b), 0), b[0]);
  }

  lemma LastPicked(keys: seq<Key>, takers: seq<int>, k: Key, taker: int)
    requires |keys| == |takers| && k !in keys
    ensures k in Picked(keys + [k], takers + [taker], 0) <==> taker == 0
  {
    hide Picked;
    var all, takes := keys + [k], takers + [taker];
    assert all[|keys|] == k && takes[|keys|] == taker;
  }

  lemma OverTheWrap(n: nat)
    requires 0 < n < USIZE && USIZE % n != 0
    ensures ((USIZE / n + 1) * n) % USIZE == n - USIZE % n
  {
    var q, r := USIZE / n, USIZE % n;
    Divided(USIZE, n);
    Distributes(q, 1, n);
    Remainder((q + 1) * n, 1, USIZE, n - r);
  }

  /** When everybody subscribes, the member under the cursor takes. */
  lemma FirstTaker(n: nat, cursor: nat)
    requires 0 < n && cursor < n
    ensures Takers(Crowd(n, -1), cursor, [Key("t", 0)]) == [cursor]
  {
    var keys := [Key("t", 0)];
    assert keys[..0] == [];
    assert cursor % n == cursor;
  }
}
