/** A topic's size does not depend on the order brokers answer in, nor on what
    other topics they report. */
module SizesInvariance {
  import opened SizeRows
  import opened Sizes
  import opened SizesFacts

  // ----------------------------------------------------------- figures of agreeing rows

  lemma {:induction false} InsertedReplicated(s: seq<Row>, x: Row, p: int)
    ensures Replicated(Inserted(s, x), p) == Replicated(s, p) + if x.partition == p && !x.future then x.size else 0
  {
    if s == [] || !RowLess(x, s[|s| - 1]) {
      assert (s + [x])[..|s|] == s;
    } else {
      var init, last := s[..|s| - 1], s[|s| - 1];
      InsertedReplicated(init, x, p);
      assert (Inserted(init, x) + [last])[..|s|] == Inserted(init, x);
    }
  }

  lemma {:induction false} SortedReplicated(s: seq<Row>, p: int)
    ensures Replicated(StableSorted(s), p) == Replicated(s, p)
  {
    if s != [] {
      SortedReplicated(s[..|s| - 1], p);
      InsertedReplicated(StableSorted(s[..|s| - 1]), s[|s| - 1], p);
    }
  }

  lemma AgreePresent(a: seq<Row>, b: seq<Row>, p: int)
    requires Agree(a, b) && Present(a, p)
    ensures Present(b, p)
  {
    var i :| 0 <= i < |a| && a[i].partition == p && !a[i].future;
    AgreeMembers(a, b, a[i]);
    var j :| 0 <= j < |b| && b[j] == a[i];
  }

  /** A size is settled by the rows key by key, and the leaders' last figures. */
  lemma SameSize(topic: string, a: seq<Row>, b: seq<Row>)
    requires Agree(a, b) && forall p :: Logical(a, p) == Logical(b, p)
    ensures Finished(topic, Tallied(a)) == Finished(topic, Tallied(b))
  {
    hide Tallied;
    hide Logical;
    hide Present;
    SameSort(a, b);
    TallyFigures(a);
    TallyFigures(b);
    TallyRows(a);
    TallyRows(b);
    var m, n := Tallied(a).partitions, Tallied(b).partitions;
    forall p
      ensures p in m <==> p in n
      ensures p in m ==> m[p] == n[p]
    {
      SortedReplicated(a, p);
      SortedReplicated(b, p);
      if Present(a, p) {
        AgreePresent(a, b, p);
      }
      if Present(b, p) {
        AgreePresent(b, a, p);
      }
      assert Logical(a, p) == Logical(b, p);
    }
    assert m == n;
  }

  // --------------------------------------------------------------------- broker by broker

  ghost function OfNode(entries: seq<Entry>, n: int): seq<Entry> {
    if entries == [] then []
    else OfNode(entries[..|entries| - 1], n) + if entries[|entries| - 1].node == n then [entries[|entries| - 1]] else []
  }

  lemma RowsLast(entries: seq<Entry>, e: Entry, leaders: Leaders, t: string)
    ensures e.replica.topic == t ==> RowsOf(entries + [e], leaders, t) == RowsOf(entries, leaders, t) + [RowOf(e, leaders)]
    ensures e.replica.topic != t ==> RowsOf(entries + [e], leaders, t) == RowsOf(entries, leaders, t)
  {
    OneMoreRow(entries, e, leaders, t);
  }

  /** Rows of one key come from one broker. */
  lemma {:induction false} KeyRowsLocal(entries: seq<Entry>, leaders: Leaders, t: string, k: Row)
    ensures OfKey(RowsOf(entries, leaders, t), k) == OfKey(RowsOf(OfNode(entries, k.node), leaders, t), k)
  {
    if entries != [] {
      var init, last := entries[..|entries| - 1], entries[|entries| - 1];
      KeyRowsLocal(init, leaders, t, k);
      var row, own := RowOf(last, leaders), OfNode(init, k.node);
      assert entries == init + [last];
      RowsLast(init, last, leaders, t);
      OfKeyAppend(RowsOf(init, leaders, t), row, k);
      if last.node == k.node {
        RowsLast(own, last, leaders, t);
        OfKeyAppend(RowsOf(own, leaders, t), row, k);
      } else {
        assert OfNode(entries, k.node) == own;
      }
    }
  }

  lemma LogicalLast(rows: seq<Row>, x: Row, p: int)
    ensures Logical(rows + [x], p) == if x.partition == p && !x.future && x.leader then x.size else Logical(rows, p)
  {
    assert (rows + [x])[..|rows|] == rows;
  }

  /** A partition's logical bytes come from its leader. */
  lemma {:induction false} LogicalLocal(entries: seq<Entry>, leaders: Leaders, t: string, p: int, n: int)
    requires forall m :: Leads(leaders, t, p, m) ==> m == n
    ensures Logical(RowsOf(entries, leaders, t), p) == Logical(RowsOf(OfNode(entries, n), leaders, t), p)
  {
    hide Leads;
    if entries != [] {
      var init, last := entries[..|entries| - 1], entries[|entries| - 1];
      LogicalLocal(init, leaders, t, p, n);
      var row, own := RowOf(last, leaders), OfNode(init, n);
      assert entries == init + [last];
      RowsLast(init, last, leaders, t);
      LogicalLast(RowsOf(init, leaders, t), row, p);
      if last.node == n {
        RowsLast(own, last, leaders, t);
        LogicalLast(RowsOf(own, leaders, t), row, p);
      } else {
        assert OfNode(entries, n) == own;
      }
    }
  }

  lemma {:induction false} OfNodeAppend(a: seq<Entry>, b: seq<Entry>, n: int)
    ensures OfNode(a + b, n) == OfNode(a, n) + OfNode(b, n)
  {
    if b == [] {
      assert a + b == a;
    } else {
      assert (a + b)[..|a + b| - 1] == a + b[..|b| - 1];
      OfNodeAppend(a, b[..|b| - 1], n);
    }
  }

  lemma {:induction false} AllOfNode(entries: seq<Entry>, node: int, n: int)
    requires forall e <- entries :: e.node == node
    ensures OfNode(entries, n) == if n == node then entries else []
  {
    if entries != [] {
      AllOfNode(entries[..|entries| - 1], node, n);
    }
  }

  lemma {:induction false} DirsOfNode(node: int, dirs: seq<LogDir>)
    ensures forall e <- DirsEntries(node, dirs) :: e.node == node
  {
    if dirs != [] {
      DirsOfNode(node, dirs[..|dirs| - 1]);
    }
  }

  ghost predicate DistinctNodes(reports: seq<Report>) {
    forall i, j | 0 <= i < j < |reports| :: reports[i].0 != reports[j].0
  }

  lemma {:induction false} AbsentNode(reports: seq<Report>, n: int)
    requires forall r <- reports :: r.0 != n
    ensures OfNode(Entries(reports), n) == []
  {
    if reports != [] {
      var init, last := reports[..|reports| - 1], reports[|reports| - 1];
      AbsentNode(init, n);
      OfNodeAppend(Entries(init), DirsEntries(last.0, last.1), n);
      DirsOfNode(last.0, last.1);
      AllOfNode(DirsEntries(last.0, last.1), last.0, n);
    }
  }

  lemma {:induction false} NodeEntries(reports: seq<Report>, i: nat)
    requires DistinctNodes(reports) && i < |reports|
    ensures OfNode(Entries(reports), reports[i].0) == DirsEntries(reports[i].0, reports[i].1)
  {
    var init, last := reports[..|reports| - 1], reports[|reports| - 1];
    var n := reports[i].0;
    OfNodeAppend(Entries(init), DirsEntries(last.0, last.1), n);
    DirsOfNode(last.0, last.1);
    AllOfNode(DirsEntries(last.0, last.1), last.0, n);
    if i == |reports| - 1 {
      AbsentNode(init, n);
    } else {
      NodeEntries(init, i);
    }
  }

  lemma SameNodes(a: seq<Report>, b: seq<Report>, n: int)
    requires DistinctNodes(a) && DistinctNodes(b) && multiset(a) == multiset(b)
    ensures OfNode(Entries(a), n) == OfNode(Entries(b), n)
  {
    if i :| 0 <= i < |a| && a[i].0 == n {
      assert a[i] in multiset(b);
      var j :| 0 <= j < |b| && b[j] == a[i];
      NodeEntries(a, i);
      NodeEntries(b, j);
    } else {
      forall r <- b ensures r.0 != n {
        assert r in multiset(a);
      }
      AbsentNode(a, n);
      AbsentNode(b, n);
    }
  }

  /** Permuting brokers with distinct ids changes nothing. */
  lemma BrokerOrderIrrelevant(a: seq<Report>, b: seq<Report>, leaders: Leaders, topic: string)
    requires DistinctNodes(a) && DistinctNodes(b) && multiset(a) == multiset(b)
    ensures SizeOf(a, leaders, topic) == SizeOf(b, leaders, topic)
  {
    var x, y := RowsOf(Entries(a), leaders, topic), RowsOf(Entries(b), leaders, topic);
    forall k ensures OfKey(x, k) == OfKey(y, k) {
      SameNodes(a, b, k.node);
      KeyRowsLocal(Entries(a), leaders, topic, k);
      KeyRowsLocal(Entries(b), leaders, topic, k);
    }
    forall p ensures Logical(x, p) == Logical(y, p) {
      var n := if topic in leaders && p in leaders[topic] then leaders[topic][p] else 0;
      SameNodes(a, b, n);
      LogicalLocal(Entries(a), leaders, topic, p, n);
      LogicalLocal(Entries(b), leaders, topic, p, n);
    }
    SameSize(topic, x, y);
  }

  // ---------------------------------------------------------------------- topic by topic

  function ScopedReplicas(replicas: seq<Replica>, topic: string): seq<Replica> {
    if replicas == [] then []
    else
      var last := replicas[|replicas| - 1];
      ScopedReplicas(replicas[..|replicas| - 1], topic) + if last.topic == topic then [last] else []
  }

  function ScopedDirs(dirs: seq<LogDir>, topic: string): (r: seq<LogDir>)
    ensures |r| == |dirs|
  {
    seq(|dirs|, i requires 0 <= i < |dirs| => dirs[i].(replicas := ScopedReplicas(dirs[i].replicas, topic)))
  }

  /** What brokers asked about one topic only report. */
  function Scoped(reports: seq<Report>, topic: string): (r: seq<Report>)
    ensures |r| == |reports|
  {
    seq(|reports|, i requires 0 <= i < |reports| => (reports[i].0, ScopedDirs(reports[i].1, topic)))
  }

  lemma {:induction false} RowsAppend(a: seq<Entry>, b: seq<Entry>, leaders: Leaders, t: string)
    ensures RowsOf(a + b, leaders, t) == RowsOf(a, leaders, t) + RowsOf(b, leaders, t)
  {
    if b == [] {
      assert a + b == a;
    } else {
      assert (a + b)[..|a + b| - 1] == a + b[..|b| - 1];
      RowsAppend(a, b[..|b| - 1], leaders, t);
    }
  }

  ghost predicate AgreeOn(a: Leaders, b: Leaders, topic: string) {
    (topic in a <==> topic in b) && (topic in a ==> a[topic] == b[topic])
  }

  lemma {:induction false} ScopedDir(node: int, dir: LogDir, a: Leaders, b: Leaders, t: string)
    requires AgreeOn(a, b, t)
    ensures RowsOf(DirEntries(node, dir.(replicas := ScopedReplicas(dir.replicas, t))), a, t) == RowsOf(DirEntries(node, dir), b, t)
    decreases |dir.replicas|
  {
    if dir.replicas != [] {
      var last := dir.replicas[|dir.replicas| - 1];
      var shorter := dir.(replicas := dir.replicas[..|dir.replicas| - 1]);
      ScopedDir(node, shorter, a, b, t);
      var e := Entry(node, dir.path, last);
      assert DirEntries(node, dir) == DirEntries(node, shorter) + [e];
      RowsLast(DirEntries(node, shorter), e, b, t);
      var kept := dir.(replicas := ScopedReplicas(shorter.replicas, t));
      if last.topic != t {
        assert dir.(replicas := ScopedReplicas(dir.replicas, t)) == kept;
        assert RowsOf(DirEntries(node, dir), b, t) == RowsOf(DirEntries(node, shorter), b, t);
      } else {
        assert DirEntries(node, dir.(replicas := ScopedReplicas(dir.replicas, t))) == DirEntries(node, kept) + [e];
        RowsLast(DirEntries(node, kept), e, a, t);
      }
    }
  }

  lemma {:induction false} ScopedDirsRows(node: int, dirs: seq<LogDir>, a: Leaders, b: Leaders, t: string)
    requires AgreeOn(a, b, t)
    ensures RowsOf(DirsEntries(node, ScopedDirs(dirs, t)), a, t) == RowsOf(DirsEntries(node, dirs), b, t)
  {
    if dirs != [] {
      var init, last := dirs[..|dirs| - 1], dirs[|dirs| - 1];
      ScopedDirsRows(node, init, a, b, t);
      ScopedDir(node, last, a, b, t);
      assert ScopedDirs(dirs, t) == ScopedDirs(init, t) + [last.(replicas := ScopedReplicas(last.replicas, t))];
      RowsAppend(DirsEntries(node, ScopedDirs(init, t)), DirEntries(node, last.(replicas := ScopedReplicas(last.replicas, t))), a, t);
      RowsAppend(DirsEntries(node, init), DirEntries(node, last), b, t);
    }
  }

  lemma {:induction false} ScopedRows(reports: seq<Report>, a: Leaders, b: Leaders, t: string)
    requires AgreeOn(a, b, t)
    ensures RowsOf(Entries(Scoped(reports, t)), a, t) == RowsOf(Entries(reports), b, t)
  {
    if reports != [] {
      var init, last := reports[..|reports| - 1], reports[|reports| - 1];
      ScopedRows(init, a, b, t);
      ScopedDirsRows(last.0, last.1, a, b, t);
      assert Scoped(reports, t) == Scoped(init, t) + [(last.0, ScopedDirs(last.1, t))];
      RowsAppend(Entries(Scoped(init, t)), DirsEntries(last.0, ScopedDirs(last.1, t)), a, t);
      RowsAppend(Entries(init), DirsEntries(last.0, last.1), b, t);
    }
  }

  lemma {:induction false} LeadersOfOne(topics: seq<TopicMeta>, i: nat)
    requires i < |topics| && forall j, k | 0 <= j < k < |topics| :: topics[j].name != topics[k].name
    ensures topics[i].name in LeaderMap(topics) && LeaderMap(topics)[topics[i].name] == LeadersOf(topics[i].partitions)
  {
    if i < |topics| - 1 {
      LeadersOfOne(topics[..|topics| - 1], i);
    }
  }

  /** Asking about one topic, of every broker and of the metadata, gives the size
      the whole cluster's fold gives that topic. */
  lemma OneTopicSuffices(reports: seq<Report>, topics: seq<TopicMeta>, i: nat)
    requires i < |topics| && forall j, k | 0 <= j < k < |topics| :: topics[j].name != topics[k].name
    ensures var t := topics[i].name;
            SizeOf(Scoped(reports, t), LeaderMap([topics[i]]), t) == SizeOf(reports, LeaderMap(topics), t)
  {
    var t := topics[i].name;
    LeadersOfOne(topics, i);
    LeadersOfOne([topics[i]], 0);
    ScopedRows(reports, LeaderMap([topics[i]]), LeaderMap(topics), t);
  }
}
