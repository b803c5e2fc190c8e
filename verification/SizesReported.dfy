/** A topic's size in terms of what the brokers reported and the metadata said. */
module SizesReported {
  import opened Order
  import opened Options
  import opened Sums
  import opened SizeRows
  import opened Sizes
  import opened SizesFacts
  import opened SizesInvariance

  // ------------------------------------------------------------------- logical bytes

  ghost predicate Unrepeated(ps: seq<int>) {
    forall i, j | 0 <= i < j < |ps| :: ps[i] != ps[j]
  }

  ghost function LogicalOf(m: map<int, PartitionSize>, p: int): int {
    if p in m then m[p].logical else 0
  }

  ghost function LogicalFigures(m: map<int, PartitionSize>, ps: seq<int>): (r: seq<int>)
    ensures |r| == |ps| && forall i | 0 <= i < |ps| :: r[i] == LogicalOf(m, ps[i])
  {
    seq(|ps|, i requires 0 <= i < |ps| => LogicalOf(m, ps[i]))
  }

  lemma FiguresWithout(m: map<int, PartitionSize>, ps: seq<int>, i: nat)
    requires i < |ps| && Unrepeated(ps)
    ensures LogicalFigures(m - {ps[i]}, ps[..i] + ps[i + 1..]) == LogicalFigures(m, ps)[..i] + LogicalFigures(m, ps)[i + 1..]
  {
    var rest, figures := ps[..i] + ps[i + 1..], LogicalFigures(m, ps);
    forall j | 0 <= j < |rest| ensures LogicalOf(m - {ps[i]}, rest[j]) == (figures[..i] + figures[i + 1..])[j] {
      assert rest[j] == ps[if j < i then j else j + 1];
    }
  }

  lemma LogicalHead(m: map<int, PartitionSize>)
    requires m != map[]
    ensures LogicalTotal(InOrder(m)) == m[Least(m.Keys)].logical + LogicalTotal(InOrder(m - {Least(m.Keys)}))
  {
    var p := Least(m.Keys);
    assert ([m[p]] + InOrder(m - {p}))[1..] == InOrder(m - {p});
  }

  lemma HeadListed(ps: seq<int>)
    ensures ps != [] ==> exists p: int :: p in ps
  {
    if ps != [] {
      var p := ps[0];
      assert p in ps;
    }
  }

  lemma SumWithout(s: seq<int>, i: nat)
    requires i < |s|
    ensures Sum(s) == Sum(s[..i] + s[i + 1..]) + s[i]
  {
    assert s == s[..i] + ([s[i]] + s[i + 1..]);
    SumAppend(s[..i], [s[i]] + s[i + 1..]);
    SumAppend([s[i]], s[i + 1..]);
    SumAppend(s[..i], s[i + 1..]);
    assert Sum([s[i]]) == s[i] by {
      assert [s[i]][1..] == [];
    }
  }

  /** The total does not depend on the order the figures are taken in. */
  lemma {:induction false} TotalOf(m: map<int, PartitionSize>, ps: seq<int>)
    requires Unrepeated(ps) && forall p :: p in ps <==> p in m
    ensures LogicalTotal(InOrder(m)) == Sum(LogicalFigures(m, ps))
    decreases |m|
  {
    hide InOrder;
    hide LogicalTotal;
    hide Unrepeated;
    hide Sum;
    if m == map[] {
      HeadListed(ps);
      NoFiguresSum();
      assert LogicalFigures(m, ps) == [];
    } else {
      var p := Least(m.Keys);
      assert p in ps;
      var i :| 0 <= i < |ps| && ps[i] == p;
      Removed(ps, i);
      TotalOf(m - {p}, ps[..i] + ps[i + 1..]);
      FiguresWithout(m, ps, i);
      SumWithout(LogicalFigures(m, ps), i);
      LogicalHead(m);
    }
  }

  lemma NoFiguresSum()
    ensures LogicalTotal(InOrder(map[])) == 0 && Sum([]) == 0
  {
  }

  lemma Removed(ps: seq<int>, i: nat)
    requires Unrepeated(ps) && i < |ps|
    ensures Unrepeated(ps[..i] + ps[i + 1..])
    ensures forall q :: q in ps[..i] + ps[i + 1..] <==> q in ps && q != ps[i]
  {
    var rest := ps[..i] + ps[i + 1..];
    forall j | 0 <= j < |rest| ensures rest[j] == ps[if j < i then j else j + 1] {
    }
    forall q | q in ps && q != ps[i] ensures q in rest {
      var j :| 0 <= j < |ps| && ps[j] == q;
      assert rest[if j < i then j else j - 1] == q;
    }
  }

  /** The i-th row is the last one in which the partition's leader reports a copy that is
      not in the making. */
  ghost predicate LastLed(rows: seq<Row>, p: int, i: nat) {
    && i < |rows| && rows[i].partition == p && rows[i].leader && !rows[i].future
    && forall j | i < j < |rows| :: !(rows[j].partition == p && rows[j].leader && !rows[j].future)
  }

  lemma {:induction false} LogicalIsLast(rows: seq<Row>, p: int)
    ensures (exists i: nat :: LastLed(rows, p, i) && Logical(rows, p) == rows[i].size)
         || ((forall row <- rows :: !(row.partition == p && row.leader && !row.future)) && Logical(rows, p) == 0)
  {
    if rows != [] {
      var n := |rows| - 1;
      LogicalIsLast(rows[..n], p);
      assert rows == rows[..n] + [rows[n]];
      if rows[n].partition == p && rows[n].leader && !rows[n].future {
        assert LastLed(rows, p, n);
      } else if i: nat :| LastLed(rows[..n], p, i) && Logical(rows[..n], p) == rows[..n][i].size {
        assert LastLed(rows, p, i);
      }
    }
  }

  /** A topic's logical bytes: over the partitions present in its rows, however they are
      listed, the sum of what each one's leader last reported. */
  lemma LogicalIsSum(reports: seq<Report>, leaders: Leaders, topic: string, ps: seq<int>, sizes: seq<int>)
    requires var rows := RowsOf(Entries(reports), leaders, topic);
             && Unrepeated(ps) && |sizes| == |ps|
             && (forall p :: p in ps <==> exists i :: 0 <= i < |rows| && rows[i].partition == p && !rows[i].future)
             && forall j | 0 <= j < |ps| ::
                  || (exists i: nat :: LastLed(rows, ps[j], i) && sizes[j] == rows[i].size)
                  || ((forall row <- rows :: !(row.partition == ps[j] && row.leader && !row.future)) && sizes[j] == 0)
    ensures SizeOf(reports, leaders, topic).logical == Sum(sizes)
  {
    hide RowsOf;
    hide Tallied;
    hide InOrder;
    hide LogicalTotal;
    hide StableSorted;
    hide Entries;
    var rows := RowsOf(Entries(reports), leaders, topic);
    var m := Tallied(rows).partitions;
    TallyFigures(rows);
    forall p ensures p in ps <==> p in m {
      assert Present(rows, p) <==> p in m;
    }
    forall j | 0 <= j < |ps| ensures LogicalFigures(m, ps)[j] == sizes[j] {
      assert ps[j] in ps && ps[j] in m;
      assert m[ps[j]].logical == Logical(rows, ps[j]);
      OneFigure(rows, ps[j], sizes[j]);
    }
    assert LogicalFigures(m, ps) == sizes;
    TotalOf(m, ps);
  }

  lemma OneFigure(rows: seq<Row>, p: int, size: int)
    requires || (exists i: nat :: LastLed(rows, p, i) && size == rows[i].size)
             || ((forall row <- rows :: !(row.partition == p && row.leader && !row.future)) && size == 0)
    ensures size == Logical(rows, p)
  {
    hide Logical;
    LogicalIsLast(rows, p);
    forall i: nat, j: nat | LastLed(rows, p, i) && LastLed(rows, p, j) ensures i == j {
    }
  }

  // --------------------------------------------------------------- replicated bytes

  ghost function ReplicaBytes(replicas: seq<Replica>, topic: string): int {
    if replicas == [] then 0
    else ReplicaBytes(replicas[1..], topic) + if replicas[0].topic == topic && !replicas[0].future then replicas[0].size else 0
  }

  ghost function DirBytes(dirs: seq<LogDir>, topic: string): int {
    if dirs == [] then 0 else ReplicaBytes(dirs[0].replicas, topic) + DirBytes(dirs[1..], topic)
  }

  ghost function ReportBytes(reports: seq<Report>, topic: string): int {
    if reports == [] then 0 else DirBytes(reports[0].1, topic) + ReportBytes(reports[1..], topic)
  }

  lemma {:induction false} BytesAppend(a: seq<Row>, b: seq<Row>)
    ensures Bytes(a + b) == Bytes(a) + Bytes(b)
  {
    if b == [] {
      assert a + b == a;
    } else {
      assert (a + b)[..|a + b| - 1] == a + b[..|b| - 1];
      BytesAppend(a, b[..|b| - 1]);
    }
  }

  lemma {:induction false} ReplicaRows(node: int, dir: LogDir, leaders: Leaders, topic: string)
    ensures Bytes(RowsOf(DirEntries(node, dir), leaders, topic)) == ReplicaBytes(dir.replicas, topic)
    decreases |dir.replicas|
  {
    if dir.replicas != [] {
      var first, rest := Entry(node, dir.path, dir.replicas[0]), dir.(replicas := dir.replicas[1..]);
      ReplicaRows(node, rest, leaders, topic);
      assert DirEntries(node, dir) == [first] + DirEntries(node, rest);
      RowsAppend([first], DirEntries(node, rest), leaders, topic);
      BytesAppend(RowsOf([first], leaders, topic), RowsOf(DirEntries(node, rest), leaders, topic));
      OneEntry(first, leaders, topic);
    }
  }

  lemma OneEntry(e: Entry, leaders: Leaders, topic: string)
    ensures RowsOf([e], leaders, topic) == if e.replica.topic == topic then [RowOf(e, leaders)] else []
    ensures Bytes(RowsOf([e], leaders, topic)) == if e.replica.topic == topic && !e.replica.future then e.replica.size else 0
  {
    hide Leads;
    assert [e][..0] == [] && RowsOf([], leaders, topic) == [];
    OneRow(RowOf(e, leaders));
  }

  lemma OneRow(row: Row)
    ensures Bytes([row]) == if row.future then 0 else row.size
    ensures Bytes([]) == 0
  {
    assert [row][..0] == [];
  }

  lemma {:induction false} DirsFirst(node: int, dirs: seq<LogDir>)
    requires dirs != []
    ensures DirsEntries(node, dirs) == DirEntries(node, dirs[0]) + DirsEntries(node, dirs[1..])
  {
    var n := |dirs| - 1;
    if n > 0 {
      DirsFirst(node, dirs[..n]);
      assert dirs[..n][1..] == dirs[1..][..n - 1] && dirs[1..][n - 1] == dirs[n];
    } else {
      assert dirs[..0] == [] && dirs[1..] == [];
    }
  }

  lemma {:induction false} EntriesFirst(reports: seq<Report>)
    requires reports != []
    ensures Entries(reports) == DirsEntries(reports[0].0, reports[0].1) + Entries(reports[1..])
  {
    hide DirsEntries;
    var n := |reports| - 1;
    if n > 0 {
      EntriesFirst(reports[..n]);
      assert reports[..n][1..] == reports[1..][..n - 1] && reports[1..][n - 1] == reports[n];
    } else {
      assert reports[..0] == [] && reports[1..] == [];
    }
  }

  lemma {:induction false} DirRows(node: int, dirs: seq<LogDir>, leaders: Leaders, topic: string)
    ensures Bytes(RowsOf(DirsEntries(node, dirs), leaders, topic)) == DirBytes(dirs, topic)
    decreases |dirs|
  {
    if dirs != [] {
      DirRows(node, dirs[1..], leaders, topic);
      DirsFirst(node, dirs);
      ReplicaRows(node, dirs[0], leaders, topic);
      RowsAppend(DirEntries(node, dirs[0]), DirsEntries(node, dirs[1..]), leaders, topic);
      BytesAppend(RowsOf(DirEntries(node, dirs[0]), leaders, topic), RowsOf(DirsEntries(node, dirs[1..]), leaders, topic));
    }
  }

  lemma {:induction false} ReportRows(reports: seq<Report>, leaders: Leaders, topic: string)
    ensures Bytes(RowsOf(Entries(reports), leaders, topic)) == ReportBytes(reports, topic)
    decreases |reports|
  {
    if reports != [] {
      var first, rest := DirsEntries(reports[0].0, reports[0].1), Entries(reports[1..]);
      ReportRows(reports[1..], leaders, topic);
      EntriesFirst(reports);
      DirRows(reports[0].0, reports[0].1, leaders, topic);
      RowsAppend(first, rest, leaders, topic);
      BytesAppend(RowsOf(first, leaders, topic), RowsOf(rest, leaders, topic));
    }
  }

  /** A topic's replicated bytes are the sizes of all its replicas in all directories of
      all brokers, copies in the making left out. */
  lemma ReplicatedAsReported(reports: seq<Report>, leaders: Leaders, topic: string)
    ensures SizeOf(reports, leaders, topic).replicated == ReportBytes(reports, topic)
  {
    hide Tallied;
    hide Finished;
    ReplicatedIsSum(topic, RowsOf(Entries(reports), leaders, topic));
    ReportRows(reports, leaders, topic);
  }

  // ------------------------------------------------------------------------- the rows

  /** The metadata names `node` as the partition's leader: the last entry of that topic
      does, in the last place it gives that partition a leader. */
  ghost predicate Named(topics: seq<TopicMeta>, topic: string, partition: int, node: int) {
    exists a: nat :: NamedAt(topics, topic, partition, node, a)
  }

  ghost predicate NamedAt(topics: seq<TopicMeta>, topic: string, partition: int, node: int, a: nat) {
    && a < |topics| && topics[a].name == topic
    && (forall x | a < x < |topics| :: topics[x].name != topic)
    && NamedIn(topics[a].partitions, partition, node)
  }

  ghost predicate NamedIn(partitions: seq<(int, Option<int>)>, partition: int, node: int) {
    exists b: nat :: b < |partitions| && partitions[b] == (partition, Some(node))
      && forall x | b < x < |partitions| :: partitions[x].0 != partition || partitions[x].1.None?
  }

  lemma {:induction false} LeadersOfExact(partitions: seq<(int, Option<int>)>, partition: int, node: int)
    ensures NamedIn(partitions, partition, node) <==> partition in LeadersOf(partitions) && LeadersOf(partitions)[partition] == node
  {
    if partitions != [] {
      var n := |partitions| - 1;
      var init, last := partitions[..n], partitions[n];
      LeadersOfExact(init, partition, node);
      if last.0 == partition && last.1.Some? {
        assert last == (partition, Some(last.1.value));
        if last.1.value == node {
          assert partitions[n] == (partition, Some(node));
        }
      } else {
        if NamedIn(init, partition, node) {
          var b: nat :| b < n && init[b] == (partition, Some(node)) && forall x | b < x < n :: init[x].0 != partition || init[x].1.None?;
          assert partitions[b] == (partition, Some(node));
        }
        if NamedIn(partitions, partition, node) {
          var b: nat :| b < |partitions| && partitions[b] == (partition, Some(node))
            && forall x | b < x < |partitions| :: partitions[x].0 != partition || partitions[x].1.None?;
          assert b < n && init[b] == (partition, Some(node));
        }
      }
    }
  }

  lemma NamedLast(topics: seq<TopicMeta>, topic: string, partition: int, node: int)
    requires topics != []
    ensures var last := topics[|topics| - 1];
            Named(topics, topic, partition, node) <==>
            if last.name == topic then NamedIn(last.partitions, partition, node) else Named(topics[..|topics| - 1], topic, partition, node)
  {
    hide NamedAt;
    var n := |topics| - 1;
    var init, last := topics[..n], topics[n];
    forall a: nat
      ensures last.name == topic ==> (NamedAt(topics, topic, partition, node, a) <==> a == n && NamedIn(last.partitions, partition, node))
      ensures last.name != topic ==> (NamedAt(topics, topic, partition, node, a) <==> NamedAt(init, topic, partition, node, a))
    {
      NamedAtLast(topics, topic, partition, node, a);
    }
    if last.name == topic && NamedIn(last.partitions, partition, node) {
      assert NamedAt(topics, topic, partition, node, n);
    }
  }

  lemma NamedAtLast(topics: seq<TopicMeta>, topic: string, partition: int, node: int, a: nat)
    requires topics != []
    ensures var n := |topics| - 1;
            && (topics[n].name == topic ==> (NamedAt(topics, topic, partition, node, a) <==> a == n && NamedIn(topics[n].partitions, partition, node)))
            && (topics[n].name != topic ==> (NamedAt(topics, topic, partition, node, a) <==> NamedAt(topics[..n], topic, partition, node, a)))
  {
    hide NamedIn;
    var n := |topics| - 1;
    assert forall x | 0 <= x < n :: topics[..n][x] == topics[x];
  }

  /** A broker leads a partition exactly when the metadata names it. */
  lemma {:induction false} LeadsExact(topics: seq<TopicMeta>, topic: string, partition: int, node: int)
    ensures Leads(LeaderMap(topics), topic, partition, node) <==> Named(topics, topic, partition, node)
  {
    hide Named;
    hide NamedIn;
    hide LeadersOf;
    if topics == [] {
      NobodyNamed(topic, partition, node);
    } else {
      var n := |topics| - 1;
      NamedLast(topics, topic, partition, node);
      LeadersOfExact(topics[n].partitions, partition, node);
      LeadsExact(topics[..n], topic, partition, node);
    }
  }

  lemma NobodyNamed(topic: string, partition: int, node: int)
    ensures !Named([], topic, partition, node)
  {
  }

  lemma {:induction false} RowsMember(entries: seq<Entry>, leaders: Leaders, topic: string, x: Row)
    ensures x in RowsOf(entries, leaders, topic) <==> exists e :: e in entries && e.replica.topic == topic && RowOf(e, leaders) == x
  {
    hide RowOf;
    if entries != [] {
      var init, last := entries[..|entries| - 1], entries[|entries| - 1];
      RowsMember(init, leaders, topic, x);
      assert entries == init + [last];
    }
  }

  lemma {:induction false} DirsMember(node: int, dirs: seq<LogDir>, e: Entry)
    ensures e in DirsEntries(node, dirs) <==>
            exists j: nat, k: nat :: j < |dirs| && k < |dirs[j].replicas| && e == Entry(node, dirs[j].path, dirs[j].replicas[k])
  {
    if dirs != [] {
      var n := |dirs| - 1;
      var init, last := dirs[..n], dirs[n];
      DirsMember(node, init, e);
      assert dirs == init + [last];
      if e in DirEntries(node, last) {
        var k :| 0 <= k < |last.replicas| && DirEntries(node, last)[k] == e;
        assert e == Entry(node, dirs[n].path, dirs[n].replicas[k]);
      }
      if e in DirsEntries(node, init) {
        var j: nat, k: nat :| j < n && k < |init[j].replicas| && e == Entry(node, init[j].path, init[j].replicas[k]);
        assert dirs[j] == init[j];
      }
      if j: nat, k: nat :| j < |dirs| && k < |dirs[j].replicas| && e == Entry(node, dirs[j].path, dirs[j].replicas[k]) {
        if j < n {
          assert init[j] == dirs[j];
        } else {
          assert DirEntries(node, last)[k] == e;
        }
      }
    }
  }

  ghost predicate Listed(reports: seq<Report>, e: Entry) {
    exists i: nat :: i < |reports| && e in DirsEntries(reports[i].0, reports[i].1)
  }

  lemma {:induction false} EntriesMember(reports: seq<Report>, e: Entry)
    ensures e in Entries(reports) <==> Listed(reports, e)
  {
    hide DirsEntries;
    if reports != [] {
      var n := |reports| - 1;
      var init, last := reports[..n], reports[n];
      EntriesMember(init, e);
      if Listed(init, e) {
        var i: nat :| i < n && e in DirsEntries(init[i].0, init[i].1);
        assert reports[i] == init[i];
      }
      if Listed(reports, e) && e !in DirsEntries(last.0, last.1) {
        var i: nat :| i < |reports| && e in DirsEntries(reports[i].0, reports[i].1);
        assert init[i] == reports[i];
      }
    }
  }

  /** Some directory of some broker lists this row's replica of the topic, and the row is
      marked as the leader's exactly when the metadata names that broker. */
  ghost predicate Reported(reports: seq<Report>, topics: seq<TopicMeta>, topic: string, x: Row) {
    exists i: nat, j: nat, k: nat ::
      && i < |reports| && j < |reports[i].1| && k < |reports[i].1[j].replicas|
      && var r := reports[i].1[j].replicas[k];
         && r.topic == topic && x.partition == r.partition && x.size == r.size && x.lag == r.lag && x.future == r.future
         && x.node == reports[i].0 && x.dir == reports[i].1[j].path
         && (x.leader <==> Named(topics, topic, r.partition, reports[i].0))
  }

  /** The rows of a topic's size are exactly the entries reported of it. */
  lemma RowsAsReported(reports: seq<Report>, topics: seq<TopicMeta>, topic: string, x: Row)
    ensures x in SizeOf(reports, LeaderMap(topics), topic).rows <==> Reported(reports, topics, topic, x)
  {
    hide Tallied;
    hide StableSorted;
    hide RowsOf;
    hide Entries;
    hide DirsEntries;
    hide Named;
    hide Leads;
    hide LeaderMap;
    var leaders, entries := LeaderMap(topics), Entries(reports);
    var rows := RowsOf(entries, leaders, topic);
    RowsSorted(topic, rows);
    assert x in SizeOf(reports, leaders, topic).rows <==> x in multiset(rows);
    RowsMember(entries, leaders, topic, x);
    if x in rows {
      var e :| e in entries && e.replica.topic == topic && RowOf(e, leaders) == x;
      EntriesMember(reports, e);
      var i: nat :| i < |reports| && e in DirsEntries(reports[i].0, reports[i].1);
      DirsMember(reports[i].0, reports[i].1, e);
      var j: nat, k: nat :| j < |reports[i].1| && k < |reports[i].1[j].replicas| && e == Entry(reports[i].0, reports[i].1[j].path, reports[i].1[j].replicas[k]);
      LeadsExact(topics, topic, e.replica.partition, e.node);
      assert Reported(reports, topics, topic, x);
    }
    if Reported(reports, topics, topic, x) {
      var i: nat, j: nat, k: nat :|
        && i < |reports| && j < |reports[i].1| && k < |reports[i].1[j].replicas|
        && var r := reports[i].1[j].replicas[k];
           && r.topic == topic && x.partition == r.partition && x.size == r.size && x.lag == r.lag && x.future == r.future
           && x.node == reports[i].0 && x.dir == reports[i].1[j].path
           && (x.leader <==> Named(topics, topic, r.partition, reports[i].0));
      var e := Entry(reports[i].0, reports[i].1[j].path, reports[i].1[j].replicas[k]);
      DirsMember(reports[i].0, reports[i].1, e);
      EntriesMember(reports, e);
      LeadsExact(topics, topic, e.replica.partition, e.node);
      assert RowOf(e, leaders) == x;
    }
  }

  /** They come by partition, then broker, then directory. */
  lemma RowsInOrder(reports: seq<Report>, leaders: Leaders, topic: string, i: nat, j: nat)
    requires i < j < |SizeOf(reports, leaders, topic).rows|
    ensures var a, b := SizeOf(reports, leaders, topic).rows[i], SizeOf(reports, leaders, topic).rows[j];
            || a.partition < b.partition
            || (a.partition == b.partition && a.node < b.node)
            || (a.partition == b.partition && a.node == b.node && (a.dir == b.dir || Before(a.dir, b.dir)))
  {
    hide Tallied;
    hide StableSorted;
    var rows := SizeOf(reports, leaders, topic).rows;
    RowsSorted(topic, RowsOf(Entries(reports), leaders, topic));
    assert !RowLess(rows[j], rows[i]);
    RowLessTotal(rows[i], rows[j]);
    StrLessExact(rows[i].dir, rows[j].dir);
  }
}
