/** What a topic's size means, and what it does not depend on. */
module SizesFacts {
  import opened SizeRows
  import opened Sizes

  // --------------------------------------------------------------------- the figures

  /** Bytes of a partition's own replicas. */
  ghost function Replicated(rows: seq<Row>, p: int): int {
    if rows == [] then 0
    else
      var last := rows[|rows| - 1];
      Replicated(rows[..|rows| - 1], p) + if last.partition == p && !last.future then last.size else 0
  }

  /** The size its leader last reported. */
  ghost function Logical(rows: seq<Row>, p: int): int {
    if rows == [] then 0
    else
      var last := rows[|rows| - 1];
      if last.partition == p && !last.future && last.leader then last.size else Logical(rows[..|rows| - 1], p)
  }

  /** Some row is not a copy in the making. */
  ghost predicate Present(rows: seq<Row>, p: int) {
    exists i :: 0 <= i < |rows| && rows[i].partition == p && !rows[i].future
  }

  ghost predicate Figures(rows: seq<Row>, m: map<int, PartitionSize>) {
    forall p ::
      && (p in m <==> Present(rows, p))
      && (p in m ==> m[p] == PartitionSize(p, Logical(rows, p), Replicated(rows, p)))
  }

  lemma {:induction false} AbsentZero(rows: seq<Row>, p: int)
    requires !Present(rows, p)
    ensures Logical(rows, p) == 0 && Replicated(rows, p) == 0
  {
    if rows != [] {
      assert forall i | 0 <= i < |rows| - 1 :: rows[..|rows| - 1][i] == rows[i];
      AbsentZero(rows[..|rows| - 1], p);
    }
  }

  lemma FigureLast(rows: seq<Row>, p: int)
    requires rows != []
    ensures var init, last := rows[..|rows| - 1], rows[|rows| - 1];
            var counts := last.partition == p && !last.future;
            && (Present(rows, p) <==> Present(init, p) || counts)
            && Logical(rows, p) == (if counts && last.leader then last.size else Logical(init, p))
            && Replicated(rows, p) == Replicated(init, p) + (if counts then last.size else 0)
            && (!Present(init, p) ==> Logical(init, p) == 0 && Replicated(init, p) == 0)
  {
    var init := rows[..|rows| - 1];
    if i :| 0 <= i < |init| && init[i].partition == p && !init[i].future {
      assert rows[i] == init[i];
    }
    if i :| 0 <= i < |rows| && rows[i].partition == p && !rows[i].future {
      if i < |init| {
        assert init[i] == rows[i];
      }
    }
    if !Present(init, p) {
      AbsentZero(init, p);
    }
  }

  /** The accumulator holds, per partition, the bytes of all its replicas and the
      last figure its leader reported. */
  lemma {:induction false} TallyFigures(rows: seq<Row>)
    ensures Figures(rows, Tallied(rows).partitions)
  {
    hide Figures;
    hide Added;
    if rows == [] {
      NoFigures();
    } else {
      var init, last := rows[..|rows| - 1], rows[|rows| - 1];
      TallyFigures(init);
      AddedFigures(init, last, Tallied(init));
      assert init + [last] == rows;
    }
  }

  lemma AddedRows(t: Tally, row: Row)
    ensures Added(t, row).rows == t.rows + [row]
  {
  }

  lemma {:induction false} TallyRows(rows: seq<Row>)
    ensures Tallied(rows).rows == rows
  {
    hide Added;
    if rows != [] {
      AddedRows(Tallied(rows[..|rows| - 1]), rows[|rows| - 1]);
      TallyRows(rows[..|rows| - 1]);
      assert rows == rows[..|rows| - 1] + [rows[|rows| - 1]];
    }
  }

  lemma NoFigures()
    ensures Figures([], map[])
  {
  }

  lemma AddedFigures(init: seq<Row>, last: Row, t: Tally)
    requires Figures(init, t.partitions)
    ensures Figures(init + [last], Added(t, last).partitions)
  {
    hide Present;
    hide Logical;
    hide Replicated;
    var rows := init + [last];
    assert rows[..|rows| - 1] == init;
    var m := Added(t, last).partitions;
    forall p
      ensures p in m <==> Present(rows, p)
      ensures p in m ==> m[p] == PartitionSize(p, Logical(rows, p), Replicated(rows, p))
    {
      FigureLast(rows, p);
      assert p in t.partitions <==> Present(init, p);
    }
  }

  lemma LeastIs(s: set<int>, x: int)
    requires IsLeast(s, x)
    ensures Least(s) == x
  {
  }

  lemma {:induction false} TotalsUpdate(m: map<int, PartitionSize>, p: int, v: PartitionSize)
    ensures ReplicatedTotal(InOrder(m[p := v])) == ReplicatedTotal(InOrder(m)) + v.replicated - (if p in m then m[p].replicated else 0)
    decreases |m|
  {
    var n := m[p := v];
    assert n.Keys == m.Keys + {p};
    var least := Least(n.Keys);
    TotalHead(n);
    if least == p {
      assert n - {p} == m - {p};
      if p in m {
        assert n.Keys == m.Keys;
        TotalHead(m);
      } else {
        assert m - {p} == m;
      }
    } else {
      assert least in m;
      LeastIs(m.Keys, least);
      TotalHead(m);
      assert n - {least} == (m - {least})[p := v];
      TotalsUpdate(m - {least}, p, v);
    }
  }

  lemma TotalHead(m: map<int, PartitionSize>)
    requires m != map[]
    ensures ReplicatedTotal(InOrder(m)) == m[Least(m.Keys)].replicated + ReplicatedTotal(InOrder(m - {Least(m.Keys)}))
  {
    var p := Least(m.Keys);
    assert ([m[p]] + InOrder(m - {p}))[1..] == InOrder(m - {p});
  }

  /** Bytes of all own replicas. */
  ghost function Bytes(rows: seq<Row>): int {
    if rows == [] then 0
    else Bytes(rows[..|rows| - 1]) + if rows[|rows| - 1].future then 0 else rows[|rows| - 1].size
  }

  /** One more row adds its bytes to one figure, or to none. */
  lemma AddedTotal(t: Tally, row: Row)
    ensures ReplicatedTotal(InOrder(Added(t, row).partitions)) == ReplicatedTotal(InOrder(t.partitions)) + if row.future then 0 else row.size
  {
    hide InOrder;
    hide ReplicatedTotal;
    if !row.future {
      TotalsUpdate(t.partitions, row.partition, Added(t, row).partitions[row.partition]);
    }
  }

  /** A topic's replicated bytes are those of its entries, copies in the making left
      out. */
  lemma {:induction false} ReplicatedIsSum(topic: string, rows: seq<Row>)
    ensures Finished(topic, Tallied(rows)).replicated == Bytes(rows)
  {
    hide InOrder;
    hide ReplicatedTotal;
    hide LogicalTotal;
    hide StableSorted;
    hide Added;
    if rows == [] {
      NoTotal();
    } else {
      var init, last := rows[..|rows| - 1], rows[|rows| - 1];
      ReplicatedIsSum(topic, init);
      AddedTotal(Tallied(init), last);
    }
  }

  lemma NoTotal()
    ensures ReplicatedTotal(InOrder(map[])) == 0
  {
  }

  /** The partitions of a size: ascending, one per partition some broker holds an
      own replica of, each with its two figures. */
  lemma PartitionsExact(topic: string, rows: seq<Row>)
    ensures var ps := Finished(topic, Tallied(rows)).partitions;
            && (forall i, j | 0 <= i < j < |ps| :: ps[i].partition < ps[j].partition)
            && (forall x :: x in ps <==> Present(rows, x.partition) && x == PartitionSize(x.partition, Logical(rows, x.partition), Replicated(rows, x.partition)))
  {
    hide Tallied;
    hide InOrder;
    hide Present;
    hide Logical;
    hide Replicated;
    TallyFigures(rows);
    var m := Tallied(rows).partitions;
    InOrderAscends(m);
    forall x ensures x in InOrder(m) <==> x.partition in m && m[x.partition] == x {
      InOrderMembers(m, x);
    }
  }

  /** A size's rows are its entries, every one of them, ordered. */
  lemma RowsSorted(topic: string, rows: seq<Row>)
    ensures var sorted := Finished(topic, Tallied(rows)).rows;
            SortedRows(sorted) && multiset(sorted) == multiset(rows)
  {
    TallyRows(rows);
    StableSortedSorts(rows);
  }
}
