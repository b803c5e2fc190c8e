/** What the leader of a classic group sees: member subscriptions and the
    partition count of every topic. */
module Group {
  import opened Order
  import opened Counting

  /** One member's subscription, as the leader decodes it. */
  datatype Member = Member(id: string, topics: seq<string>, owned: seq<Key>, generation: int) {
    predicate SubscribesTo(topic: string) {
      topic in topics
    }
  }

  /** `BTreeMap<String, i32>`, as the entries it yields in order. */
  type Counts = seq<(string, int)>

  ghost predicate ValidCounts(counts: Counts) {
    forall i, j | 0 <= i < j < |counts| :: StrLess(counts[i].0, counts[j].0)
  }

  ghost predicate DistinctIds(ms: seq<Member>) {
    forall i, j | 0 <= i < j < |ms| :: ms[i].id != ms[j].id
  }

  ghost predicate SortedById(ms: seq<Member>) {
    forall i, j | 0 <= i < j < |ms| :: StrLess(ms[i].id, ms[j].id)
  }

  /** Place `m` before the first member with a larger id. */
  function Insert(m: Member, s: seq<Member>): (r: seq<Member>)
    ensures multiset(r) == multiset(s) + multiset{m}
  {
    if s == [] then [m]
    else if StrLess(m.id, s[0].id) then [m] + s
    else
      assert s == [s[0]] + s[1..];
      [s[0]] + Insert(m, s[1..])
  }

  /** `sort_by` on the member id: stable, so insertion sort from the back. */
  function SortById(s: seq<Member>): (r: seq<Member>)
    ensures multiset(r) == multiset(s)
    ensures |r| == |s|
  {
    if s == [] then []
    else
      assert s == [s[0]] + s[1..];
      var r := Insert(s[0], SortById(s[1..]));
      assert |multiset(r)| == |r| && |multiset(s)| == |s|;
      r
  }

  lemma SameElements(a: seq<Member>, b: seq<Member>)
    requires multiset(a) == multiset(b)
    ensures |a| == |b|
    ensures forall m :: m in a <==> m in b
  {
    assert |multiset(a)| == |a| && |multiset(b)| == |b|;
    forall m ensures m in a <==> m in b {
      assert m in a <==> m in multiset(a);
      assert m in b <==> m in multiset(b);
    }
  }

  lemma SortedPrepend(m: Member, s: seq<Member>)
    requires SortedById(s) && forall x <- s :: StrLess(m.id, x.id)
    ensures SortedById([m] + s)
  {
    hide StrLess;
  }

  lemma {:induction false} InsertSorted(m: Member, s: seq<Member>)
    requires SortedById(s) && forall x <- s :: x.id != m.id
    ensures SortedById(Insert(m, s))
  {
    hide StrLess;
    if s != [] {
      if StrLess(m.id, s[0].id) {
        forall x <- s ensures StrLess(m.id, x.id) {
          if x != s[0] {
            StrTransitive(m.id, s[0].id, x.id);
          }
        }
        SortedPrepend(m, s);
      } else {
        StrTotal(m.id, s[0].id);
        InsertSorted(m, s[1..]);
        var r := Insert(m, s[1..]);
        forall x <- r ensures StrLess(s[0].id, x.id) {
          assert x in multiset(r);
        }
        SortedPrepend(s[0], r);
      }
    }
  }

  /** Sorting members with distinct ids orders them strictly. */
  lemma {:induction false} SortByIdSorted(s: seq<Member>)
    requires DistinctIds(s)
    ensures SortedById(SortById(s))
  {
    if s != [] {
      SortByIdSorted(s[1..]);
      SameElements(s[1..], SortById(s[1..]));
      InsertSorted(s[0], SortById(s[1..]));
    }
  }

  lemma TailMultiset(s: seq<Member>)
    requires s != []
    ensures multiset(s[1..]) == multiset(s) - multiset{s[0]}
  {
    assert s == [s[0]] + s[1..];
  }

  lemma HeadsAgree(a: seq<Member>, b: seq<Member>)
    requires SortedById(a) && SortedById(b) && a != [] && b != [] && a[0] in b && b[0] in a
    ensures a[0] == b[0]
  {
    hide StrLess;
    if a[0] != b[0] {
      StrAsymmetric(a[0].id, b[0].id);
    }
  }

  /** A strictly ordered list is determined by its elements. */
  lemma {:induction false} SortedUnique(a: seq<Member>, b: seq<Member>)
    requires SortedById(a) && SortedById(b) && multiset(a) == multiset(b)
    ensures a == b
  {
    hide StrLess;
    SameElements(a, b);
    if a != [] {
      HeadsAgree(a, b);
      TailMultiset(a);
      TailMultiset(b);
      SortedUnique(a[1..], b[1..]);
      assert a == [a[0]] + a[1..] && b == [b[0]] + b[1..];
    }
  }

  lemma {:induction false} DistinctCount(a: seq<Member>, m: Member)
    requires DistinctIds(a)
    ensures multiset(a)[m] <= 1
  {
    if a != [] {
      DistinctCount(a[1..], m);
      assert a == [a[0]] + a[1..];
      if m == a[0] {
        assert m !in a[1..];
      }
    }
  }

  lemma DistinctByMultiset(a: seq<Member>, b: seq<Member>)
    requires DistinctIds(a) && multiset(a) == multiset(b)
    ensures DistinctIds(b)
  {
    SameElements(a, b);
    forall i, j | 0 <= i < j < |b| ensures b[i].id != b[j].id {
      assert b[i] in b && b[j] in b;
      if b[i] == b[j] {
        CountedTwice(b, i, j);
        DistinctCount(a, b[i]);
      }
    }
  }

  /** Members with distinct ids sort to one list, however they arrived. */
  lemma SortPermuted(a: seq<Member>, b: seq<Member>)
    requires DistinctIds(a) && multiset(a) == multiset(b)
    ensures SortById(a) == SortById(b)
  {
    DistinctByMultiset(a, b);
    SortByIdSorted(a);
    SortByIdSorted(b);
    SortedUnique(SortById(a), SortById(b));
  }

  // ---------------------------------------------------------------- partitions

  /** Every partition of one topic; a negative count has none. */
  function TopicKeys(topic: string, count: int): (keys: seq<Key>)
    ensures |keys| == if count < 0 then 0 else count
    ensures forall k :: k in keys <==> k.topic == topic && 0 <= k.partition < count
  {
    var keys := seq(if count < 0 then 0 else count, p => Key(topic, p));
    assert forall k: Key :: k.topic == topic && 0 <= k.partition < count ==> keys[k.partition] == k;
    keys
  }

  predicate AnySubscribes(ms: seq<Member>, topic: string) {
    exists m <- ms :: m.SubscribesTo(topic)
  }

  /** Every partition of every topic somebody subscribes to, in key order. */
  function AllKeys(ms: seq<Member>, counts: Counts): seq<Key> {
    if counts == [] then []
    else (if AnySubscribes(ms, counts[0].0) then TopicKeys(counts[0].0, counts[0].1) else [])
         + AllKeys(ms, counts[1..])
  }

  ghost predicate Increasing(keys: seq<Key>) {
    forall i, j | 0 <= i < j < |keys| :: KeyLess(keys[i], keys[j])
  }

  /** `(topic, count)` lists this partition. */
  predicate InCounts(counts: Counts, k: Key) {
    exists i | 0 <= i < |counts| :: counts[i].0 == k.topic && 0 <= k.partition < counts[i].1
  }

  lemma {:induction false} AllKeysExact(ms: seq<Member>, counts: Counts, k: Key)
    ensures k in AllKeys(ms, counts) <==> InCounts(counts, k) && AnySubscribes(ms, k.topic)
  {
    if counts != [] {
      AllKeysExact(ms, counts[1..], k);
      if InCounts(counts, k) {
        var i :| 0 <= i < |counts| && counts[i].0 == k.topic && 0 <= k.partition < counts[i].1;
        if i > 0 {
          assert counts[1..][i - 1].0 == k.topic;
        }
      }
      if InCounts(counts[1..], k) {
        var i :| 0 <= i < |counts| - 1 && counts[1..][i].0 == k.topic && 0 <= k.partition < counts[1..][i].1;
        assert counts[i + 1].0 == k.topic;
      }
    }
  }

  lemma {:induction false} AllKeysIncreasing(ms: seq<Member>, counts: Counts)
    requires ValidCounts(counts)
    ensures Increasing(AllKeys(ms, counts))
  {
    if counts != [] {
      AllKeysIncreasing(ms, counts[1..]);
      var rest := AllKeys(ms, counts[1..]);
      forall k <- rest ensures StrLess(counts[0].0, k.topic) {
        AllKeysExact(ms, counts[1..], k);
      }
    }
  }

  lemma IncreasingDistinct(keys: seq<Key>)
    requires Increasing(keys)
    ensures forall i, j | 0 <= i < j < |keys| :: keys[i] != keys[j]
  {
    forall i, j | 0 <= i < j < |keys| ensures keys[i] != keys[j] {
      KeyAsymmetric(keys[i], keys[j]);
    }
  }
}
