/** Topic sizes on disk: every broker's log-directory entries joined with the
    leader of each partition. */
module Sizes {
  import opened Options
  import opened SizeRows
  import opened Sums

  datatype Replica = Replica(topic: string, partition: int, size: int, lag: int, future: bool)

  datatype LogDir = LogDir(path: string, replicas: seq<Replica>)

  /** One log-directory entry, with where it was found. */
  datatype Entry = Entry(node: int, dir: string, replica: Replica)

  datatype PartitionSize = PartitionSize(partition: int, logical: int, replicated: int)

  datatype TopicSize = TopicSize(topic: string, logical: int, replicated: int, partitions: seq<PartitionSize>, rows: seq<Row>)

  /** Topic to partition to leader. */
  type Leaders = map<string, map<int, int>>

  // ------------------------------------------------------------------------- leaders

  datatype TopicMeta = TopicMeta(name: string, partitions: seq<(int, Option<int>)>)

  function LeadersOf(partitions: seq<(int, Option<int>)>): map<int, int> {
    if partitions == [] then map[]
    else
      var (p, leader) := partitions[|partitions| - 1];
      var front := LeadersOf(partitions[..|partitions| - 1]);
      if leader.Some? then front[p := leader.value] else front
  }

  function LeaderMap(topics: seq<TopicMeta>): Leaders {
    if topics == [] then map[]
    else
      var last := topics[|topics| - 1];
      LeaderMap(topics[..|topics| - 1])[last.name := LeadersOf(last.partitions)]
  }

  predicate Leads(leaders: Leaders, topic: string, partition: int, node: int) {
    topic in leaders && partition in leaders[topic] && leaders[topic][partition] == node
  }

  // ---------------------------------------------------------------------- one topic's tally

  datatype Tally = Tally(partitions: map<int, PartitionSize>, rows: seq<Row>)

  const EMPTY := Tally(map[], [])

  function Added(t: Tally, row: Row): Tally {
    var listed := t.(rows := t.rows + [row]);
    if row.future then listed
    else
      var was := if row.partition in t.partitions then t.partitions[row.partition] else PartitionSize(row.partition, 0, 0);
      listed.(partitions := t.partitions[row.partition :=
        was.(replicated := was.replicated + row.size, logical := if row.leader then row.size else was.logical)])
  }

  function Tallied(rows: seq<Row>): Tally {
    if rows == [] then EMPTY else Added(Tallied(rows[..|rows| - 1]), rows[|rows| - 1])
  }

  predicate IsLeast(s: set<int>, x: int) {
    x in s && forall y <- s :: x <= y
  }

  function Least(s: set<int>): (x: int)
    requires s != {}
    ensures IsLeast(s, x)
  {
    LeastExists(s);
    var x :| IsLeast(s, x);
    x
  }

  lemma Member<T>(s: set<T>) returns (x: T)
    requires s != {}
    ensures x in s
  {
    x :| x in s;
  }

  lemma {:induction false} LeastExists(s: set<int>)
    requires s != {}
    ensures exists x :: IsLeast(s, x)
  {
    var x := Member(s);
    if s == {x} {
      assert IsLeast(s, x);
    } else {
      LeastExists(s - {x});
      var y :| IsLeast(s - {x}, y);
      forall z <- s ensures (if x < y then x else y) <= z {
        assert z == x || z in s - {x};
      }
      assert IsLeast(s, if x < y then x else y);
    }
  }

  /** The figures in partition order. */
  function InOrder(m: map<int, PartitionSize>): seq<PartitionSize> {
    if m == map[] then []
    else
      var p := Least(m.Keys);
      [m[p]] + InOrder(m - {p})
  }

  lemma {:induction false} InOrderMembers(m: map<int, PartitionSize>, x: PartitionSize)
    requires forall p <- m :: m[p].partition == p
    ensures x in InOrder(m) <==> x.partition in m && m[x.partition] == x
    decreases |m|
  {
    if m != map[] {
      var p := Least(m.Keys);
      InOrderMembers(m - {p}, x);
      assert InOrder(m) == [m[p]] + InOrder(m - {p});
    }
  }

  lemma {:induction false} InOrderAscends(m: map<int, PartitionSize>)
    requires forall p <- m :: m[p].partition == p
    ensures forall i, j | 0 <= i < j < |InOrder(m)| :: InOrder(m)[i].partition < InOrder(m)[j].partition
    decreases |m|
  {
    if m != map[] {
      var p := Least(m.Keys);
      var rest := InOrder(m - {p});
      InOrderAscends(m - {p});
      forall x <- rest ensures p < x.partition {
        InOrderMembers(m - {p}, x);
        assert x.partition in m.Keys;
      }
      Prepended(m[p], rest);
    }
  }

  lemma Prepended(x: PartitionSize, rest: seq<PartitionSize>)
    requires forall i, j | 0 <= i < j < |rest| :: rest[i].partition < rest[j].partition
    requires forall y <- rest :: x.partition < y.partition
    ensures forall i, j | 0 <= i < j < |[x] + rest| :: ([x] + rest)[i].partition < ([x] + rest)[j].partition
  {
  }

  function LogicalTotal(ps: seq<PartitionSize>): int {
    if ps == [] then 0 else ps[0].logical + LogicalTotal(ps[1..])
  }

  function ReplicatedTotal(ps: seq<PartitionSize>): int {
    if ps == [] then 0 else ps[0].replicated + ReplicatedTotal(ps[1..])
  }

  ghost function Logicals(ps: seq<PartitionSize>): (r: seq<int>)
    ensures |r| == |ps| && forall i | 0 <= i < |ps| :: r[i] == ps[i].logical
  {
    seq(|ps|, i requires 0 <= i < |ps| => ps[i].logical)
  }

  ghost function Replicateds(ps: seq<PartitionSize>): (r: seq<int>)
    ensures |r| == |ps| && forall i | 0 <= i < |ps| :: r[i] == ps[i].replicated
  {
    seq(|ps|, i requires 0 <= i < |ps| => ps[i].replicated)
  }

  lemma {:induction false} TotalsAreSums(ps: seq<PartitionSize>)
    ensures LogicalTotal(ps) == Sum(Logicals(ps)) && ReplicatedTotal(ps) == Sum(Replicateds(ps))
  {
    if ps != [] {
      TotalsAreSums(ps[1..]);
      assert Logicals(ps)[1..] == Logicals(ps[1..]) && Replicateds(ps)[1..] == Replicateds(ps[1..]);
    }
  }

  function Finished(topic: string, t: Tally): TopicSize {
    var ps := InOrder(t.partitions);
    TopicSize(topic, LogicalTotal(ps), ReplicatedTotal(ps), ps, StableSorted(t.rows))
  }

  /** `struct Sizes`. */
  class Sizes {
    var partitions: map<int, PartitionSize>
    var replicas: seq<Row>

    /** Every figure is filed under its own partition. */
    ghost predicate Valid()
      reads this
    {
      forall p <- partitions :: partitions[p].partition == p
    }

    constructor ()
      ensures Valid() && Value() == EMPTY
    {
      partitions, replicas := map[], [];
    }

    ghost function Value(): Tally
      reads this
    {
      Tally(partitions, replicas)
    }

    /** Account for one log-dir entry. */
    method Add(node: int, dir: string, replica: Replica, leader: bool)
      requires Valid()
      modifies this
      ensures Valid()
      ensures Value() == Added(old(Value()), Row(node, replica.partition, dir, replica.size, replica.lag, replica.future, leader))
    {
      replicas := replicas + [Row(node, replica.partition, dir, replica.size, replica.lag, replica.future, leader)];
      if replica.future {
        return;
      }
      var partition := if replica.partition in partitions then partitions[replica.partition] else PartitionSize(replica.partition, 0, 0);
      partition := partition.(replicated := partition.replicated + replica.size);
      if leader {
        partition := partition.(logical := replica.size);
      }
      partitions := partitions[replica.partition := partition];
    }

    /** Order the rows and total them up: the rows sorted, entries of one broker's
        directory in the order they came; the figures by ascending partition; and the
        totals of those figures. */
    method Finish(topic: string) returns (size: TopicSize)
      requires Valid()
      modifies this
      ensures size.topic == topic
      ensures SortedRows(size.rows) && multiset(size.rows) == multiset(old(replicas))
      ensures forall k :: OfKey(size.rows, k) == OfKey(old(replicas), k)
      ensures forall i, j | 0 <= i < j < |size.partitions| :: size.partitions[i].partition < size.partitions[j].partition
      ensures forall x :: x in size.partitions <==> x.partition in old(partitions) && old(partitions)[x.partition] == x
      ensures size.logical == Sum(Logicals(size.partitions)) && size.replicated == Sum(Replicateds(size.partitions))
      ensures size == Finished(topic, old(Value()))
    {
      hide InOrder;
      hide StableSorted;
      hide OfKey;
      hide SortedRows;
      var ps := InOrder(partitions);
      InOrderAscends(partitions);
      forall x ensures x in ps <==> x.partition in partitions && partitions[x.partition] == x {
        InOrderMembers(partitions, x);
      }
      StableSortedSorts(replicas);
      forall k ensures OfKey(StableSorted(replicas), k) == OfKey(replicas, k) {
        StableSortedStable(replicas, k);
      }
      replicas := StableSorted(replicas);
      TotalsAreSums(ps);
      size := TopicSize(topic, LogicalTotal(ps), ReplicatedTotal(ps), ps, replicas);
    }
  }

  // -------------------------------------------------------------------------- the fold

  /** One broker's answer. */
  type Report = (int, seq<LogDir>)

  function DirEntries(node: int, dir: LogDir): (r: seq<Entry>)
    ensures |r| == |dir.replicas|
  {
    seq(|dir.replicas|, i requires 0 <= i < |dir.replicas| => Entry(node, dir.path, dir.replicas[i]))
  }

  function DirsEntries(node: int, dirs: seq<LogDir>): seq<Entry> {
    if dirs == [] then [] else DirsEntries(node, dirs[..|dirs| - 1]) + DirEntries(node, dirs[|dirs| - 1])
  }

  /** Every entry of every broker, in the order the fold meets them. */
  function Entries(reports: seq<Report>): seq<Entry> {
    if reports == [] then []
    else Entries(reports[..|reports| - 1]) + DirsEntries(reports[|reports| - 1].0, reports[|reports| - 1].1)
  }

  function RowOf(e: Entry, leaders: Leaders): Row {
    var r := e.replica;
    Row(e.node, r.partition, e.dir, r.size, r.lag, r.future, Leads(leaders, r.topic, r.partition, e.node))
  }

  /** The rows of one topic, in order. */
  function RowsOf(entries: seq<Entry>, leaders: Leaders, topic: string): seq<Row> {
    if entries == [] then []
    else
      var last := entries[|entries| - 1];
      RowsOf(entries[..|entries| - 1], leaders, topic) + if last.replica.topic == topic then [RowOf(last, leaders)] else []
  }

  ghost predicate Mentions(entries: seq<Entry>, leaders: Leaders, topic: string) {
    RowsOf(entries, leaders, topic) != []
  }

  ghost function TallyOf(entries: seq<Entry>, leaders: Leaders, topic: string): Tally {
    Tallied(RowsOf(entries, leaders, topic))
  }

  /** Every topic met has its own accumulator, and it has tallied that topic's rows. */
  ghost predicate Folded(folded: map<string, Sizes>, entries: seq<Entry>, leaders: Leaders)
    reads set t | t in folded :: folded[t]
  {
    && (forall t, u | t in folded && u in folded && t != u :: folded[t] != folded[u])
    && (forall t :: t in folded <==> Mentions(entries, leaders, t))
    && (forall t <- folded :: folded[t].Valid() && folded[t].Value() == TallyOf(entries, leaders, t))
  }

  lemma OneMoreRow(entries: seq<Entry>, e: Entry, leaders: Leaders, t: string)
    ensures e.replica.topic == t ==> RowsOf(entries + [e], leaders, t) == RowsOf(entries, leaders, t) + [RowOf(e, leaders)]
    ensures e.replica.topic != t ==> RowsOf(entries + [e], leaders, t) == RowsOf(entries, leaders, t)
  {
    assert (entries + [e])[..|entries|] == entries;
  }

  lemma OneMoreEntry(entries: seq<Entry>, e: Entry, leaders: Leaders)
    ensures forall t | t != e.replica.topic ::
              && (Mentions(entries + [e], leaders, t) <==> Mentions(entries, leaders, t))
              && TallyOf(entries + [e], leaders, t) == TallyOf(entries, leaders, t)
    ensures Mentions(entries + [e], leaders, e.replica.topic)
    ensures TallyOf(entries + [e], leaders, e.replica.topic) == Added(TallyOf(entries, leaders, e.replica.topic), RowOf(e, leaders))
    ensures !Mentions(entries, leaders, e.replica.topic) ==> TallyOf(entries, leaders, e.replica.topic) == EMPTY
  {
    hide RowsOf;
    hide Added;
    forall t ensures t != e.replica.topic ==> RowsOf(entries + [e], leaders, t) == RowsOf(entries, leaders, t) {
      OneMoreRow(entries, e, leaders, t);
    }
    OneMoreRow(entries, e, leaders, e.replica.topic);
    var rows := RowsOf(entries, leaders, e.replica.topic);
    assert (rows + [RowOf(e, leaders)])[..|rows|] == rows;
  }

  lemma NoRows()
    ensures Tallied([]) == EMPTY
  {
  }

  /** One turn of the innermost loop. */
  method FoldEntry(folded: map<string, Sizes>, ghost entries: seq<Entry>, leaders: Leaders, e: Entry) returns (r: map<string, Sizes>)
    requires Folded(folded, entries, leaders)
    modifies set t | t in folded :: folded[t]
    ensures Folded(r, entries + [e], leaders)
    ensures forall t <- r :: (t in folded && r[t] == folded[t]) || fresh(r[t])
  {
    hide Mentions;
    hide TallyOf;
    hide Added;
    hide Leads;
    r := folded;
    var topic := e.replica.topic;
    OneMoreEntry(entries, e, leaders);
    if topic !in r {
      var sizes := new Sizes();
      r := r[topic := sizes];
    }
    assert r[topic].Value() == TallyOf(entries, leaders, topic) && r[topic].Valid();
    label ready:
    r[topic].Add(e.node, e.dir, e.replica, Leads(leaders, topic, e.replica.partition, e.node));
    forall t <- r | t != topic
      ensures r[t].Valid() && r[t].Value() == TallyOf(entries + [e], leaders, t)
    {
      assert r[t] != r[topic] && unchanged@ready(r[t]);
    }
  }

  /** The loop over one directory's replicas. */
  method FoldDir(folded0: map<string, Sizes>, ghost entries: seq<Entry>, leaders: Leaders, node: int, dir: LogDir)
    returns (folded: map<string, Sizes>)
    requires Folded(folded0, entries, leaders)
    modifies set t | t in folded0 :: folded0[t]
    ensures Folded(folded, entries + DirEntries(node, dir), leaders)
    ensures forall t <- folded :: (t in folded0 && folded[t] == folded0[t]) || fresh(folded[t])
  {
    hide Folded;
    folded := folded0;
    ghost var own := DirEntries(node, dir);
    assert entries + own[..0] == entries;
    for k := 0 to |dir.replicas|
      invariant forall t <- folded :: (t in folded0 && folded[t] == folded0[t]) || fresh(folded[t])
      invariant Folded(folded, entries + own[..k], leaders)
    {
      assert entries + own[..k + 1] == entries + own[..k] + [own[k]];
      folded := FoldEntry(folded, entries + own[..k], leaders, Entry(node, dir.path, dir.replicas[k]));
    }
    assert own[..|dir.replicas|] == own;
  }

  /** The loop over one broker's directories. */
  method FoldBroker(folded0: map<string, Sizes>, ghost entries: seq<Entry>, leaders: Leaders, node: int, dirs: seq<LogDir>)
    returns (folded: map<string, Sizes>)
    requires Folded(folded0, entries, leaders)
    modifies set t | t in folded0 :: folded0[t]
    ensures Folded(folded, entries + DirsEntries(node, dirs), leaders)
    ensures forall t <- folded :: (t in folded0 && folded[t] == folded0[t]) || fresh(folded[t])
  {
    hide Folded;
    hide DirEntries;
    folded := folded0;
    assert entries + DirsEntries(node, dirs[..0]) == entries;
    for j := 0 to |dirs|
      invariant forall t <- folded :: (t in folded0 && folded[t] == folded0[t]) || fresh(folded[t])
      invariant Folded(folded, entries + DirsEntries(node, dirs[..j]), leaders)
    {
      assert dirs[..j + 1][..j] == dirs[..j];
      folded := FoldDir(folded, entries + DirsEntries(node, dirs[..j]), leaders, node, dirs[j]);
      assert entries + DirsEntries(node, dirs[..j]) + DirEntries(node, dirs[j]) == entries + DirsEntries(node, dirs[..j + 1]);
    }
    assert dirs[..|dirs|] == dirs;
  }

  method Fold(reports: seq<Report>, leaders: Leaders) returns (folded: map<string, Sizes>)
    ensures Folded(folded, Entries(reports), leaders)
    ensures forall t <- folded :: fresh(folded[t])
  {
    hide Folded;
    hide DirsEntries;
    folded := map[];
    FoldedNothing(leaders);
    for i := 0 to |reports|
      invariant forall t <- folded :: fresh(folded[t])
      invariant Folded(folded, Entries(reports[..i]), leaders)
    {
      assert reports[..i + 1][..i] == reports[..i];
      folded := FoldBroker(folded, Entries(reports[..i]), leaders, reports[i].0, reports[i].1);
    }
    assert reports[..|reports|] == reports;
  }

  lemma FoldedNothing(leaders: Leaders)
    ensures Folded(map[], [], leaders)
  {
  }

  // ------------------------------------------------------------------------- the callers

  /** A topic's size, from what the brokers reported. */
  ghost function SizeOf(reports: seq<Report>, leaders: Leaders, topic: string): TopicSize {
    Finished(topic, Tallied(RowsOf(Entries(reports), leaders, topic)))
  }

  /** The join both size calls make for one topic; a topic nobody reported has no
      bytes. */
  method SizeFromFold(folded: map<string, Sizes>, ghost reports: seq<Report>, leaders: Leaders, topic: string) returns (size: TopicSize)
    requires Folded(folded, Entries(reports), leaders)
    modifies set t | t in folded :: folded[t]
    ensures size == SizeOf(reports, leaders, topic)
    ensures forall t <- folded | t != topic :: folded[t].Value() == old(folded[t].Value())
  {
    hide RowsOf;
    hide Tallied;
    hide Finished;
    NoRows();
    if topic in folded {
      size := folded[topic].Finish(topic);
    } else {
      var none := new Sizes();
      size := none.Finish(topic);
    }
  }
}
