/** The rows of a topic's size and the stable sort that orders them. */
module SizeRows {
  import opened Order

  datatype Row = Row(node: int, partition: int, dir: string, size: int, lag: int, future: bool, leader: bool)

  /** By partition, then broker, then directory. */
  predicate RowLess(a: Row, b: Row) {
    || a.partition < b.partition
    || (a.partition == b.partition && a.node < b.node)
    || (a.partition == b.partition && a.node == b.node && StrLess(a.dir, b.dir))
  }

  /** `x` after everything it does not precede. */
  function Inserted(s: seq<Row>, x: Row): (r: seq<Row>)
    ensures |r| == |s| + 1
  {
    if s == [] || !RowLess(x, s[|s| - 1]) then s + [x]
    else Inserted(s[..|s| - 1], x) + [s[|s| - 1]]
  }

  /** `sort_by`, which is stable. */
  function StableSorted(s: seq<Row>): (r: seq<Row>)
    ensures |r| == |s|
  {
    if s == [] then [] else Inserted(StableSorted(s[..|s| - 1]), s[|s| - 1])
  }

  lemma RowLessTransitive(a: Row, b: Row, c: Row)
    ensures RowLess(a, b) && RowLess(b, c) ==> RowLess(a, c)
  {
    if StrLess(a.dir, b.dir) && StrLess(b.dir, c.dir) {
      StrTransitive(a.dir, b.dir, c.dir);
    }
  }

  lemma RowLessTotal(a: Row, b: Row)
    ensures RowLess(a, b) || RowLess(b, a) || SameKey(a, b)
    ensures RowLess(a, b) ==> !RowLess(b, a)
    ensures SameKey(a, b) ==> !RowLess(a, b)
  {
    StrTotal(a.dir, b.dir);
    if StrLess(a.dir, b.dir) {
      StrAsymmetric(a.dir, b.dir);
    }
    if StrLess(b.dir, a.dir) {
      StrAsymmetric(b.dir, a.dir);
    }
  }

  ghost predicate SameKey(a: Row, b: Row) {
    a.partition == b.partition && a.node == b.node && a.dir == b.dir
  }

  ghost predicate SortedRows(s: seq<Row>) {
    forall i, j | 0 <= i < j < |s| :: !RowLess(s[j], s[i])
  }

  /** A row that precedes no last row precedes none. */
  lemma AppendSorted(s: seq<Row>, x: Row)
    requires SortedRows(s) && (s == [] || !RowLess(x, s[|s| - 1]))
    ensures SortedRows(s + [x])
  {
    hide RowLess;
    forall i | 0 <= i < |s| ensures !RowLess(x, s[i]) {
      NoneAbove(s, s[i]);
      NotBetween(x, s[i], s[|s| - 1]);
    }
  }

  lemma NotBetween(x: Row, y: Row, last: Row)
    requires !RowLess(last, y) && !RowLess(x, last)
    ensures !RowLess(x, y)
  {
    RowLessTotal(y, last);
    RowLessTransitive(x, y, last);
    SameRank(x, y, last);
  }

  lemma {:induction false} InsertedMultiset(s: seq<Row>, x: Row)
    ensures multiset(Inserted(s, x)) == multiset(s) + multiset{x}
  {
    hide RowLess;
    if s != [] && RowLess(x, s[|s| - 1]) {
      InsertedMultiset(s[..|s| - 1], x);
      assert s == s[..|s| - 1] + [s[|s| - 1]];
    }
  }

  lemma {:induction false} InsertedSorted(s: seq<Row>, x: Row)
    requires SortedRows(s)
    ensures SortedRows(Inserted(s, x))
  {
    hide RowLess;
    if s == [] || !RowLess(x, s[|s| - 1]) {
      AppendSorted(s, x);
    } else {
      var init, last := s[..|s| - 1], s[|s| - 1];
      InsertedSorted(init, x);
      InsertedMultiset(init, x);
      RowLessTotal(x, last);
      var r := Inserted(init, x);
      var top := r[|r| - 1];
      assert top in multiset(r);
      assert top == x || top in init;
      AppendSorted(r, last);
    }
  }

  lemma NoneAbove(s: seq<Row>, y: Row)
    requires SortedRows(s) && y in s
    ensures !RowLess(s[|s| - 1], y)
  {
    RowLessTotal(y, y);
  }

  lemma SameRank(x: Row, y: Row, z: Row)
    ensures RowLess(x, y) && SameKey(y, z) ==> RowLess(x, z)
  {
  }

  lemma {:induction false} StableSortedSorts(s: seq<Row>)
    ensures SortedRows(StableSorted(s)) && multiset(StableSorted(s)) == multiset(s)
  {
    if s != [] {
      StableSortedSorts(s[..|s| - 1]);
      InsertedSorted(StableSorted(s[..|s| - 1]), s[|s| - 1]);
      InsertedMultiset(StableSorted(s[..|s| - 1]), s[|s| - 1]);
      assert s == s[..|s| - 1] + [s[|s| - 1]];
    }
  }

  ghost function OfKey(s: seq<Row>, k: Row): seq<Row> {
    if s == [] then []
    else OfKey(s[..|s| - 1], k) + IfKey(s[|s| - 1], k)
  }

  lemma OfKeyAppend(s: seq<Row>, x: Row, k: Row)
    ensures OfKey(s + [x], k) == OfKey(s, k) + IfKey(x, k)
  {
    assert (s + [x])[..|s|] == s;
  }

  ghost function IfKey(x: Row, k: Row): seq<Row> {
    if SameKey(x, k) then [x] else []
  }

  lemma {:induction false} InsertedStable(s: seq<Row>, x: Row, k: Row)
    ensures OfKey(Inserted(s, x), k) == OfKey(s, k) + IfKey(x, k)
  {
    hide RowLess;
    hide OfKey;
    if s == [] || !RowLess(x, s[|s| - 1]) {
      OfKeyAppend(s, x, k);
    } else {
      var init, last := s[..|s| - 1], s[|s| - 1];
      assert s == init + [last];
      InsertedStable(init, x, k);
      OfKeyAppend(init, last, k);
      OfKeyAppend(Inserted(init, x), last, k);
      KeysApart(x, last, k);
      EitherWay(OfKey(init, k), IfKey(x, k), IfKey(last, k));
    }
  }

  lemma KeysApart(x: Row, y: Row, k: Row)
    requires RowLess(x, y)
    ensures IfKey(x, k) == [] || IfKey(y, k) == []
  {
    RowLessTotal(x, y);
  }

  lemma EitherWay(a: seq<Row>, b: seq<Row>, c: seq<Row>)
    requires b == [] || c == []
    ensures a + b + c == a + c + b
  {
    assert a + [] == a;
  }

  lemma {:induction false} StableSortedStable(s: seq<Row>, k: Row)
    ensures OfKey(StableSorted(s), k) == OfKey(s, k)
  {
    if s != [] {
      var init, last := s[..|s| - 1], s[|s| - 1];
      StableSortedStable(init, k);
      InsertedStable(StableSorted(init), last, k);
      OfKeyAppend(StableSorted(init), last, k);
    }
  }

  lemma {:induction false} OfKeyMembers(s: seq<Row>, k: Row, x: Row)
    ensures x in OfKey(s, k) <==> x in s && SameKey(x, k)
  {
    if s != [] {
      OfKeyMembers(s[..|s| - 1], k, x);
      assert s == s[..|s| - 1] + [s[|s| - 1]];
    }
  }

  ghost predicate Agree(a: seq<Row>, b: seq<Row>) {
    forall k :: OfKey(a, k) == OfKey(b, k)
  }

  lemma AgreeMembers(a: seq<Row>, b: seq<Row>, x: Row)
    requires Agree(a, b)
    ensures x in a <==> x in b
  {
    OfKeyMembers(a, x, x);
    OfKeyMembers(b, x, x);
    assert OfKey(a, x) == OfKey(b, x);
  }

  lemma LastsAgree(a: seq<Row>, b: seq<Row>)
    requires SortedRows(a) && SortedRows(b) && Agree(a, b) && a != []
    ensures b != [] && a[|a| - 1] == b[|b| - 1]
    ensures Agree(a[..|a| - 1], b[..|b| - 1])
  {
    var x := a[|a| - 1];
    AgreeMembers(a, b, x);
    var y := b[|b| - 1];
    AgreeMembers(a, b, y);
    NoneAbove(a, y);
    NoneAbove(b, x);
    RowLessTotal(x, y);
    assert OfKey(a, x) == OfKey(b, x);
    assert OfKey(a, x)[|OfKey(a, x)| - 1] == x && OfKey(b, x)[|OfKey(b, x)| - 1] == y;
    var c, d := a[..|a| - 1], b[..|b| - 1];
    forall k ensures OfKey(c, k) == OfKey(d, k) {
      assert OfKey(a, k) == OfKey(b, k);
      DropLast(a, b, k);
    }
  }

  lemma DropLast(a: seq<Row>, b: seq<Row>, k: Row)
    requires a != [] && b != [] && OfKey(a, k) == OfKey(b, k) && SameKey(a[|a| - 1], b[|b| - 1])
    ensures OfKey(a[..|a| - 1], k) == OfKey(b[..|b| - 1], k)
  {
    var p, q := OfKey(a[..|a| - 1], k), OfKey(b[..|b| - 1], k);
    if SameKey(a[|a| - 1], k) {
      assert (p + [a[|a| - 1]])[..|p|] == p;
      assert (q + [b[|b| - 1]])[..|q|] == q;
    }
  }

  /** Sorted sequences that agree key by key are equal. */
  lemma {:induction false} SortedUnique(a: seq<Row>, b: seq<Row>)
    requires SortedRows(a) && SortedRows(b) && Agree(a, b)
    ensures a == b
  {
    if a == [] {
      if b != [] {
        AgreeMembers(a, b, b[0]);
      }
    } else {
      LastsAgree(a, b);
      SortedUnique(a[..|a| - 1], b[..|b| - 1]);
      assert a == a[..|a| - 1] + [a[|a| - 1]] && b == b[..|b| - 1] + [b[|b| - 1]];
    }
  }

  lemma SameSort(a: seq<Row>, b: seq<Row>)
    requires Agree(a, b)
    ensures StableSorted(a) == StableSorted(b) && multiset(a) == multiset(b)
  {
    StableSortedSorts(a);
    StableSortedSorts(b);
    forall k ensures OfKey(StableSorted(a), k) == OfKey(StableSorted(b), k) {
      StableSortedStable(a, k);
      StableSortedStable(b, k);
      assert OfKey(a, k) == OfKey(b, k);
    }
    SortedUnique(StableSorted(a), StableSorted(b));
  }
}
