/** Separated text, as the SASL messages use it. */
module Text {
  import opened Options

  /** `str::split` on one character. */
  function Split(s: string, sep: char): (r: seq<string>)
    ensures |r| >= 1
  {
    if s == [] then [""]
    else
      var rest := Split(s[1..], sep);
      if s[0] == sep then [""] + rest else [[s[0]] + rest[0]] + rest[1..]
  }

  function Join(fields: seq<string>, sep: char): string
    requires fields != []
  {
    if |fields| == 1 then fields[0] else fields[0] + [sep] + Join(fields[1..], sep)
  }

  predicate Free(s: string, c: char) {
    c !in s
  }

  lemma {:induction false} SplitWhole(s: string, sep: char)
    requires Free(s, sep)
    ensures Split(s, sep) == [s]
  {
    if s != [] {
      SplitWhole(s[1..], sep);
      assert s == [s[0]] + s[1..];
    }
  }

  lemma {:induction false} SplitFirst(a: string, rest: string, sep: char)
    requires Free(a, sep)
    ensures Split(a + [sep] + rest, sep) == [a] + Split(rest, sep)
  {
    var s := a + [sep] + rest;
    if a == [] {
      assert s[1..] == rest;
    } else {
      SplitFirst(a[1..], rest, sep);
      assert s[1..] == a[1..] + [sep] + rest;
      assert a == [a[0]] + a[1..];
    }
  }

  /** Splitting recovers the fields that were joined. */
  lemma {:induction false} SplitJoin(fields: seq<string>, sep: char)
    requires fields != [] && forall f <- fields :: Free(f, sep)
    ensures Split(Join(fields, sep), sep) == fields
  {
    if |fields| == 1 {
      SplitWhole(fields[0], sep);
    } else {
      SplitJoin(fields[1..], sep);
      SplitFirst(fields[0], Join(fields[1..], sep), sep);
      assert fields == [fields[0]] + fields[1..];
    }
  }

  /** And joining the fields again gives the text back: splitting loses nothing. */
  lemma {:induction false} JoinSplit(s: string, sep: char)
    ensures Join(Split(s, sep), sep) == s
    ensures forall f <- Split(s, sep) :: Free(f, sep)
  {
    if s != [] {
      JoinSplit(s[1..], sep);
      var rest := Split(s[1..], sep);
      assert rest[0] in rest && forall f <- rest[1..] :: f in rest;
      assert s == [s[0]] + s[1..];
      if s[0] == sep {
        assert ([""] + rest)[1..] == rest;
      } else {
        JoinLonger(s[0], rest, sep);
      }
    }
  }

  /** A character more in the first field is a character more in front. */
  lemma JoinLonger(c: char, fields: seq<string>, sep: char)
    requires fields != []
    ensures Join([[c] + fields[0]] + fields[1..], sep) == [c] + Join(fields, sep)
  {
    var longer := [[c] + fields[0]] + fields[1..];
    assert longer[1..] == fields[1..];
    if |fields| > 1 {
      assert [c] + fields[0] + [sep] + Join(fields[1..], sep) == [c] + (fields[0] + [sep] + Join(fields[1..], sep));
    }
  }

  /** `str::split_at_checked(2)` against a two-character tag. */
  function After(field: string, tag: string): Option<string> {
    if tag <= field then Some(field[|tag|..]) else None
  }

  /** `str::replace` of one character. */
  function Replaced(s: string, c: char, text: string): string {
    if s == [] then [] else (if s[0] == c then text else [s[0]]) + Replaced(s[1..], c, text)
  }

  lemma {:induction false} ReplacedAppend(a: string, b: string, c: char, text: string)
    ensures Replaced(a + b, c, text) == Replaced(a, c, text) + Replaced(b, c, text)
  {
    if a == [] {
      assert a + b == b;
    } else {
      assert (a + b)[1..] == a[1..] + b;
      ReplacedAppend(a[1..], b, c, text);
    }
  }

  // ------------------------------------------------------------------------- numbers

  predicate IsDigit(c: char) {
    '0' <= c <= '9'
  }

  function Digit(c: char): nat
    requires IsDigit(c)
  {
    c as nat - '0' as nat
  }

  function DigitsValue(s: string): nat
    requires forall c <- s :: IsDigit(c)
  {
    if s == [] then 0 else DigitsValue(s[..|s| - 1]) * 10 + Digit(s[|s| - 1])
  }

  const U32_MAX: nat := 0xFFFF_FFFF

  /** `str::parse::<u32>`: decimal digits, a leading plus allowed. */
  function ParseU32(s: string): Option<nat> {
    var digits := if s != [] && s[0] == '+' then s[1..] else s;
    if digits == [] || exists c <- digits :: !IsDigit(c) then None
    else
      var value := DigitsValue(digits);
      if value > U32_MAX then None else Some(value)
  }

  /** Decimal, without leading zeros. */
  function Printed(n: nat): (r: string)
    ensures r != [] && forall c <- r :: IsDigit(c)
  {
    var last := ['0' + (n % 10) as char];
    if n < 10 then last else Printed(n / 10) + last
  }

  lemma {:induction false} PrintedValue(n: nat)
    ensures DigitsValue(Printed(n)) == n
  {
    var s := Printed(n);
    if n < 10 {
      assert s[..|s| - 1] == [];
    } else {
      PrintedValue(n / 10);
      assert s[..|s| - 1] == Printed(n / 10);
    }
  }

  /** Every 32-bit number parses back from its decimal form. */
  lemma ParsePrinted(n: nat)
    requires n <= 0xffff_ffff
    ensures ParseU32(Printed(n)) == Some(n)
  {
    PrintedValue(n);
    assert IsDigit(Printed(n)[0]);
  }

  /** What parses: a plus sign or none, then digits only and at least one, of a value an
      unsigned 32-bit number can hold. */
  lemma ParseExact(s: string)
    ensures ParseU32(s).Some? <==>
            var digits := if s != [] && s[0] == '+' then s[1..] else s;
            && digits != [] && (forall c <- digits :: '0' <= c <= '9') && DigitsValue(digits) <= 4294967295
    ensures ParseU32(s).Some? ==> ParseU32(s).value == DigitsValue(if s[0] == '+' then s[1..] else s)
  {
    var digits := if s != [] && s[0] == '+' then s[1..] else s;
    assert (exists c <- digits :: !IsDigit(c)) <==> !(forall c <- digits :: '0' <= c <= '9') by {
      if forall c <- digits :: '0' <= c <= '9' {
        forall c <- digits ensures IsDigit(c) {
        }
      } else {
        var c :| c in digits && !('0' <= c <= '9');
        assert !IsDigit(c);
      }
    }
  }
}
