/** The orders the client sorts by: strings as Rust compares them, and the
    `(topic, partition)` keys built from them. */
module Order {

  /** Strings in code-point order, which is the byte order of their UTF-8 form. */
  predicate StrLess(a: string, b: string) {
    b != [] && (a == [] || a[0] < b[0] || (a[0] == b[0] && StrLess(a[1..], b[1..])))
  }

  lemma {:induction false} StrTotal(a: string, b: string)
    ensures StrLess(a, b) || a == b || StrLess(b, a)
  {
    if a != [] && b != [] && a[0] == b[0] {
      StrTotal(a[1..], b[1..]);
      if a[1..] == b[1..] {
        assert a == [a[0]] + a[1..] == [b[0]] + b[1..] == b;
      }
    }
  }

  lemma {:induction false} StrAsymmetric(a: string, b: string)
    requires StrLess(a, b)
    ensures a != b && !StrLess(b, a)
  {
    if a != [] && a[0] == b[0] {
      StrAsymmetric(a[1..], b[1..]);
    }
  }

  lemma {:induction false} StrTransitive(a: string, b: string, c: string)
    requires StrLess(a, b) && StrLess(b, c)
    ensures StrLess(a, c)
  {
    if a != [] && a[0] == b[0] && b[0] == c[0] {
      StrTransitive(a[1..], b[1..], c[1..]);
    }
  }

  /** The order spelled out: one string is a proper prefix of the other, or at the first
      place where they differ its code point is the smaller. */
  ghost predicate Before(a: string, b: string) {
    exists i :: 0 <= i <= |a| && i < |b| && a[..i] == b[..i] && (i == |a| || a[i] < b[i])
  }

  /** Comparing from the front is that order. */
  lemma {:induction false} StrLessExact(a: string, b: string)
    ensures StrLess(a, b) <==>
            exists i :: 0 <= i <= |a| && i < |b| && a[..i] == b[..i] && (i == |a| || a[i] < b[i])
  {
    if a != [] && b != [] && a[0] == b[0] {
      StrLessExact(a[1..], b[1..]);
      if i :| 0 <= i <= |a| - 1 && i < |b| - 1 && a[1..][..i] == b[1..][..i] && (i == |a| - 1 || a[1..][i] < b[1..][i]) {
        assert a[..i + 1] == [a[0]] + a[1..][..i] == [b[0]] + b[1..][..i] == b[..i + 1];
        assert i + 1 == |a| || a[i + 1] < b[i + 1];
      }
      if i :| 0 <= i <= |a| && i < |b| && a[..i] == b[..i] && (i == |a| || a[i] < b[i]) {
        assert i > 0;
        assert a[1..][..i - 1] == a[..i][1..] == b[..i][1..] == b[1..][..i - 1];
        assert i - 1 == |a| - 1 || a[1..][i - 1] < b[1..][i - 1];
      }
    } else if StrLess(a, b) {
      assert a[..0] == b[..0];
    } else if i :| 0 <= i <= |a| && i < |b| && a[..i] == b[..i] && (i == |a| || a[i] < b[i]) {
      assert i > 0 ==> a[..i][0] == b[..i][0];
    }
  }

  /** One partition of one topic. */
  datatype Key = Key(topic: string, partition: int)

  predicate KeyLess(a: Key, b: Key) {
    StrLess(a.topic, b.topic) || (a.topic == b.topic && a.partition < b.partition)
  }

  /** Keys are ordered by topic, and within a topic by number. */
  lemma KeyLessExact(a: Key, b: Key)
    ensures KeyLess(a, b) <==> Before(a.topic, b.topic) || (a.topic == b.topic && a.partition < b.partition)
  {
    StrLessExact(a.topic, b.topic);
  }

  lemma KeyTotal(a: Key, b: Key)
    ensures KeyLess(a, b) || a == b || KeyLess(b, a)
  {
    StrTotal(a.topic, b.topic);
  }

  lemma KeyAsymmetric(a: Key, b: Key)
    requires KeyLess(a, b)
    ensures a != b && !KeyLess(b, a)
  {
    if StrLess(a.topic, b.topic) {
      StrAsymmetric(a.topic, b.topic);
    } else if StrLess(b.topic, a.topic) {
      StrAsymmetric(b.topic, a.topic);
    }
  }

  lemma KeyTransitive(a: Key, b: Key, c: Key)
    requires KeyLess(a, b) && KeyLess(b, c)
    ensures KeyLess(a, c)
  {
    if StrLess(a.topic, b.topic) && StrLess(b.topic, c.topic) {
      StrTransitive(a.topic, b.topic, c.topic);
    }
  }

  predicate IsFirst(s: set<Key>, least: Key) {
    least in s && forall k <- s :: k == least || KeyLess(least, k)
  }

  /** Every non-empty set of keys has a first element. */
  lemma {:induction false} FirstExists(s: set<Key>)
    requires s != {}
    ensures exists least :: IsFirst(s, least)
  {
    var x :| x in s;
    if s == {x} {
      assert IsFirst(s, x);
    } else {
      FirstExists(s - {x});
      var y :| IsFirst(s - {x}, y);
      KeyTotal(x, y);
      if KeyLess(x, y) {
        forall k <- s | k != x && k != y ensures KeyLess(x, k) {
          KeyTransitive(x, y, k);
        }
        assert IsFirst(s, x);
      } else {
        assert IsFirst(s, y);
      }
    }
  }

  lemma FirstUnique(s: set<Key>)
    ensures forall a, b | IsFirst(s, a) && IsFirst(s, b) :: a == b
  {
    forall a, b | IsFirst(s, a) && IsFirst(s, b) ensures a == b {
      if KeyLess(a, b) {
        KeyAsymmetric(a, b);
      }
    }
  }

  /** The first element a `BTreeSet` of keys yields. */
  function First(s: set<Key>): (least: Key)
    requires s != {}
    ensures IsFirst(s, least)
  {
    FirstExists(s);
    FirstUnique(s);
    var least :| IsFirst(s, least);
    least
  }
}
