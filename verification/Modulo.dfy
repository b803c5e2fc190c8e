/** Quotients and remainders, step by step. */
module Modulo {

  lemma Divided(x: int, n: int)
    requires n > 0
    ensures x == (x / n) * n + x % n && 0 <= x % n < n
  {
  }

  lemma Distributes(a: int, b: int, n: int)
    ensures (a + b) * n == a * n + b * n
  {
  }

  lemma Multiples(d: int, n: int)
    requires d >= 1 && n >= 0
    ensures d * n >= n
  {
    Distributes(d - 1, 1, n);
    assert (d - 1) * n >= 0;
  }

  lemma Grows(a: nat, b: nat, n: nat)
    requires a <= b
    ensures a * n <= b * n
  {
    Distributes(a, b - a, n);
  }

  /** Two quotients and remainders of one number are the same. */
  lemma OneWay(q: int, i: int, p: int, j: int, n: int)
    requires q * n + i == p * n + j && 0 <= i < n && 0 <= j < n
    ensures q == p && i == j
  {
    Distributes(q, -p, n);
    Distributes(p, -q, n);
    if q > p {
      Multiples(q - p, n);
    } else if p > q {
      Multiples(p - q, n);
    }
  }

  /** Whatever has this form has this remainder. */
  lemma Remainder(x: int, q: int, n: int, i: int)
    requires 0 <= i < n && x == q * n + i
    ensures x % n == i
  {
    Divided(x, n);
    OneWay(q, i, x / n, x % n, n);
  }

  lemma Small(c: nat, w: nat)
    requires c < w
    ensures c % w == c
  {
    Remainder(c, 0, w, c);
  }

  /** Numbers whole rotations apart have one remainder. */
  lemma Congruent(x: int, y: int, q: int, n: int)
    requires n > 0 && x == y + q * n
    ensures x % n == y % n
  {
    Divided(y, n);
    Distributes(y / n, q, n);
    Remainder(x, y / n + q, n, y % n);
  }

  lemma Rotations(c: nat, turns: nat, n: nat)
    requires n > 0
    ensures (c + turns * n) % n == c % n
  {
    Congruent(c + turns * n, c, turns, n);
  }

  lemma Shift(x: nat, t: nat, w: nat)
    requires w > 0
    ensures (x % w + t) % w == (x + t) % w
  {
    Divided(x, w);
    Congruent(x + t, x % w + t, x / w, w);
  }

  lemma Reassociates(q: int, m: int, n: int, w: int)
    requires w == m * n
    ensures q * w == (q * m) * n
  {
  }

  lemma DividesWith(c: int, n: int, w: int, q: int, m: int, a: int)
    requires n > 0 && c == q * w + a && w == m * n
    ensures c % n == a % n
  {
    Reassociates(q, m, n, w);
    Congruent(c, a, q * m, n);
  }

  lemma Divides(c: nat, n: nat, w: nat)
    requires n > 0 && w > 0 && w % n == 0
    ensures (c % w) % n == c % n
  {
    Divided(c, w);
    Divided(w, n);
    DividesWith(c, n, w, c / w, w / n, c % w);
  }

  lemma Successor(c: nat, n: nat)
    requires n > 0
    ensures (c + 1) % n == if c % n + 1 == n then 0 else c % n + 1
  {
    var q, r := c / n, c % n;
    Divided(c, n);
    if r + 1 == n {
      Distributes(q, 1, n);
      Remainder(c + 1, q + 1, n, 0);
    } else {
      Remainder(c + 1, q, n, r + 1);
    }
  }

  lemma SuccessorCongruent(c: nat, d: nat, n: nat)
    requires n > 0 && c % n == d % n
    ensures (c + 1) % n == (d + 1) % n
  {
    Successor(c, n);
    Successor(d, n);
  }

  /** Numbers with one remainder are equal or at least `n` apart. */
  lemma AtLeastApart(a: int, b: int, n: int, p: int, q: int, i: int)
    requires n > 0 && a == p * n + i && b == q * n + i
    ensures a >= b || b >= a + n
  {
    if p < q {
      Distributes(p, q - p, n);
      Multiples(q - p, n);
    } else {
      Distributes(q, p - q, n);
      assert (p - q) * n >= 0;
    }
  }

  lemma Apart(a: nat, b: nat, n: nat)
    requires a < b < a + n
    ensures a % n != b % n
  {
    Divided(a, n);
    Divided(b, n);
    if a % n == b % n {
      AtLeastApart(a, b, n, a / n, b / n, a % n);
    }
  }

  /** Every remainder comes up within one rotation. */
  lemma Rotation(cursor: nat, n: nat, i: nat) returns (c: nat)
    requires i < n
    ensures cursor <= c < cursor + n && c % n == i
  {
    var q, r := cursor / n, cursor % n;
    Divided(cursor, n);
    if i >= r {
      c := cursor + (i - r);
      Remainder(c, q, n, i);
    } else {
      c := cursor + (n + i - r);
      Distributes(q, 1, n);
      Remainder(c, q + 1, n, i);
    }
  }
}
