/** The assignment a leader sends: for each member, the partitions of each topic,
    and how lists of keys are grouped into one and read back out of one. */
module Assignment {
  import opened Order
  import opened Group

  /** `BTreeMap<String, Vec<i32>>`: the partitions of each topic. */
  type ByTopic = map<string, seq<int>>

  /** Partitions of every member, keyed by member id. */
  type Assignments = map<string, ByTopic>

  function Partitions(m: ByTopic, topic: string): seq<int> {
    if topic in m then m[topic] else []
  }

  /** `entry(topic).or_default().push(partition)`. */
  function Push(m: ByTopic, k: Key): (r: ByTopic)
    ensures forall t :: Partitions(r, t) == Partitions(m, t) + if t == k.topic then [k.partition] else []
    ensures r.Keys == m.Keys + {k.topic}
  {
    m[k.topic := Partitions(m, k.topic) + [k.partition]]
  }

  /** Group keys by topic, keeping their order within each. */
  function Grouped(keys: seq<Key>): ByTopic {
    if keys == [] then map[] else Push(Grouped(keys[..|keys| - 1]), keys[|keys| - 1])
  }

  /** The keys a topic map lists. */
  predicate Lists(m: ByTopic, k: Key) {
    k.topic in m && k.partition in m[k.topic]
  }

  lemma ListsPush(m: ByTopic, k: Key, x: Key)
    ensures Lists(Push(m, k), x) <==> Lists(m, x) || x == k
  {
    hide Push;
    assert Lists(m, x) <==> x.partition in Partitions(m, x.topic);
    assert Lists(Push(m, k), x) <==> x.partition in Partitions(Push(m, k), x.topic);
  }

  lemma {:induction false} GroupedLists(keys: seq<Key>, k: Key)
    ensures Lists(Grouped(keys), k) <==> k in keys
  {
    hide Push;
    if keys != [] {
      var front, last := keys[..|keys| - 1], keys[|keys| - 1];
      GroupedLists(front, k);
      ListsPush(Grouped(front), last, k);
      assert keys == front + [last];
    }
  }

  // ------------------------------------------------------------------- on the wire

  /** The wire carries a list of (topic, partitions) pairs; any list of a map's
      entries that leaves none out is an encoding of it. */
  ghost predicate Encodes(wire: seq<(string, seq<int>)>, m: ByTopic) {
    && (forall i | 0 <= i < |wire| :: wire[i].0 in m && m[wire[i].0] == wire[i].1)
    && (forall t <- m :: exists i :: 0 <= i < |wire| && wire[i].0 == t)
  }

  function OnePair(topic: string, partitions: seq<int>): (keys: seq<Key>)
    ensures |keys| == |partitions| && forall i | 0 <= i < |keys| :: keys[i] == Key(topic, partitions[i])
  {
    seq(|partitions|, i requires 0 <= i < |partitions| => Key(topic, partitions[i]))
  }

  /** The `flat_map` of the decoders. */
  function Decoded(wire: seq<(string, seq<int>)>): seq<Key> {
    if wire == [] then [] else OnePair(wire[0].0, wire[0].1) + Decoded(wire[1..])
  }

  lemma {:induction false} DecodedLists(wire: seq<(string, seq<int>)>, k: Key)
    ensures k in Decoded(wire) <==> exists i :: 0 <= i < |wire| && wire[i].0 == k.topic && k.partition in wire[i].1
  {
    if wire != [] {
      DecodedLists(wire[1..], k);
      assert k in OnePair(wire[0].0, wire[0].1) <==> wire[0].0 == k.topic && k.partition in wire[0].1 by {
        if wire[0].0 == k.topic && k.partition in wire[0].1 {
          var p :| 0 <= p < |wire[0].1| && wire[0].1[p] == k.partition;
          assert OnePair(wire[0].0, wire[0].1)[p] == k;
        }
      }
      if i :| 0 <= i < |wire| && wire[i].0 == k.topic && k.partition in wire[i].1 {
        assert i == 0 || (wire[1..][i - 1].0 == k.topic && k.partition in wire[1..][i - 1].1);
      }
      if i :| 0 <= i < |wire| - 1 && wire[1..][i].0 == k.topic && k.partition in wire[1..][i].1 {
        assert wire[i + 1].0 == k.topic;
      }
    }
  }

  /** Whatever order the wire lists the topics in, the reader gets exactly the
      keys that were grouped: what a member holds is what the leader sees, and
      what the leader hands out is what the member holds. */
  lemma WireRoundTrip(keys: seq<Key>, wire: seq<(string, seq<int>)>)
    requires Encodes(wire, Grouped(keys))
    ensures forall k :: k in Decoded(wire) <==> k in keys
  {
    var m := Grouped(keys);
    forall k ensures k in Decoded(wire) <==> k in keys {
      GroupedLists(keys, k);
      DecodedLists(wire, k);
      if Lists(m, k) {
        var i :| 0 <= i < |wire| && wire[i].0 == k.topic;
        assert k.partition in wire[i].1;
      }
    }
  }

  // ----------------------------------------------------------------- ordered sets

  /** A `BTreeSet`, in iteration order. */
  function InKeyOrder(s: set<Key>): (r: seq<Key>)
    ensures forall k :: k in r <==> k in s
  {
    if s == {} then [] else
      var first := First(s);
      [first] + InKeyOrder(s - {first})
  }

  lemma {:induction false} InKeyOrderIncreasing(s: set<Key>)
    ensures Increasing(InKeyOrder(s))
  {
    if s != {} {
      InKeyOrderIncreasing(s - {First(s)});
    }
  }

  // -------------------------------------------------------------- keyed by member id

  ghost predicate Keyed<T>(m: map<string, T>, ms: seq<Member>, values: seq<T>) {
    && |ms| == |values|
    && (forall i | 0 <= i < |ms| :: ms[i].id in m && m[ms[i].id] == values[i])
    && (forall id <- m :: exists i :: 0 <= i < |ms| && ms[i].id == id)
  }

  /** A map is determined by its entries. */
  lemma KeyedUnique<T>(a: map<string, T>, b: map<string, T>, ms: seq<Member>, values: seq<T>)
    requires Keyed(a, ms, values) && Keyed(b, ms, values)
    ensures a == b
  {
  }

  lemma KeyedUpdate<T>(m: map<string, T>, ms: seq<Member>, values: seq<T>, i: nat, v: T)
    requires Keyed(m, ms, values) && DistinctIds(ms) && i < |ms|
    ensures Keyed(m[ms[i].id := v], ms, values[i := v])
  {
  }

  lemma KeyedAt<T>(m: map<string, T>, ms: seq<Member>, values: seq<T>, i: nat)
    requires Keyed(m, ms, values) && i < |ms|
    ensures i < |values| && ms[i].id in m && m[ms[i].id] == values[i]
  {
  }

  lemma KeyedExtend<T>(m: map<string, T>, ms: seq<Member>, values: seq<T>, i: nat)
    requires |ms| == |values| && i < |ms| && DistinctIds(ms) && Keyed(m, ms[..i], values[..i])
    ensures Keyed(m[ms[i].id := values[i]], ms[..i + 1], values[..i + 1])
  {
    var next := m[ms[i].id := values[i]];
    var upTo := ms[..i + 1];
    forall id <- next ensures exists j :: 0 <= j < |upTo| && upTo[j].id == id {
      if id == ms[i].id {
        assert upTo[i].id == id;
      } else {
        var j :| 0 <= j < i && ms[..i][j].id == id;
        assert upTo[j].id == id;
      }
    }
    forall j | 0 <= j < i + 1 ensures ms[j].id in next && next[ms[j].id] == values[j] {
      if j < i {
        assert ms[..i][j].id in m && m[ms[..i][j].id] == values[..i][j];
      }
    }
  }

  /** The values of such a map, in id order. */
  function Values<T>(m: map<string, T>, ms: seq<Member>): (r: seq<T>)
    requires forall i | 0 <= i < |ms| :: ms[i].id in m
    ensures |r| == |ms| && forall i | 0 <= i < |ms| :: r[i] == m[ms[i].id]
  {
    seq(|ms|, i requires 0 <= i < |ms| => m[ms[i].id])
  }

  lemma KeyedValues<T>(m: map<string, T>, ms: seq<Member>, values: seq<T>)
    requires Keyed(m, ms, values)
    ensures |values| == |ms| && (forall i | 0 <= i < |ms| :: ms[i].id in m) && Values(m, ms) == values
  {
  }

  // --------------------------------------------------------------- unfolding one step

  lemma InKeyOrderStep(s: set<Key>)
    requires s != {}
    ensures InKeyOrder(s) == [First(s)] + InKeyOrder(s - {First(s)})
  {
  }

  lemma GroupedPush(keys: seq<Key>, k: Key)
    ensures Grouped(keys + [k]) == Push(Grouped(keys), k)
  {
    assert (keys + [k])[..|keys|] == keys;
  }

  // -------------------------------------------------------------- lists in order

  /** Within each topic the numbers go up. */
  ghost predicate Ascending(keys: seq<Key>) {
    forall i, j | 0 <= i < j < |keys| && keys[i].topic == keys[j].topic :: keys[i].partition < keys[j].partition
  }

  /** Grouping lists each topic's partitions once and in ascending order, if they came
      that way. */
  lemma {:induction false} GroupedAscends(keys: seq<Key>, t: string)
    requires Ascending(keys)
    ensures forall i, j | 0 <= i < j < |Partitions(Grouped(keys), t)| :: Partitions(Grouped(keys), t)[i] < Partitions(Grouped(keys), t)[j]
    ensures forall p :: p in Partitions(Grouped(keys), t) <==> Key(t, p) in keys
  {
    hide Push;
    hide Lists;
    if keys != [] {
      var front, last := keys[..|keys| - 1], keys[|keys| - 1];
      GroupedAscends(front, t);
      assert keys == front + [last];
      var list := Partitions(Grouped(front), t);
      if last.topic == t {
        forall x | 0 <= x < |list| ensures list[x] < last.partition {
          var p := list[x];
          assert p in list;
          var i :| 0 <= i < |front| && front[i] == Key(t, p);
          assert keys[i] == Key(t, p);
        }
        AppendAscends(list, last.partition);
        assert Partitions(Grouped(keys), t) == list + [last.partition];
      } else {
        assert Partitions(Grouped(keys), t) == list;
      }
    }
  }

  lemma AppendAscends(list: seq<int>, x: int)
    requires forall i, j | 0 <= i < j < |list| :: list[i] < list[j]
    requires forall i | 0 <= i < |list| :: list[i] < x
    ensures forall i, j | 0 <= i < j < |list + [x]| :: (list + [x])[i] < (list + [x])[j]
  {
  }

  lemma InKeyOrderAscends(s: set<Key>)
    ensures Ascending(InKeyOrder(s))
  {
    hide InKeyOrder;
    InKeyOrderIncreasing(s);
    var keys := InKeyOrder(s);
    forall i, j | 0 <= i < j < |keys| && keys[i].topic == keys[j].topic ensures keys[i].partition < keys[j].partition {
      Irreflexive(keys[i].topic);
    }
  }

  lemma Irreflexive(a: string)
    ensures !StrLess(a, a)
  {
    if StrLess(a, a) {
      StrAsymmetric(a, a);
    }
  }
}
