/** `SokobanSolver::createKey`: the string key under which the literal managers
    memoise a (row, col, entity, time) tuple, built from `std::to_string` of each
    component joined by `_`.  The property that matters is injectivity: two
    distinct tuples never share a key, so the managers never hand out one
    variable for two tuples. */
module Keys {

  /** The decimal digit of `d`. */
  function Digit(d: nat): (ch: char)
    requires d < 10
    ensures '0' <= ch <= '9'
  {
    "0123456789"[d]
  }

  /** The value of a decimal digit character. */
  function DigitValue(ch: char): (d: nat)
    requires '0' <= ch <= '9'
    ensures d < 10
  {
    (ch - '0') as nat
  }

  predicate IsDigits(s: string)
  {
    forall i :: 0 <= i < |s| ==> '0' <= s[i] <= '9'
  }

  /** `std::to_string` of a non-negative number: most significant digit first. */
  function NatToString(n: nat): (s: string)
    ensures |s| >= 1 && IsDigits(s)
    decreases n
  {
    if n < 10 then [Digit(n)] else NatToString(n / 10) + [Digit(n % 10)]
  }

  /** Reads a string of decimal digits back as a number. */
  function ParseDigits(s: string): nat
    requires IsDigits(s)
    decreases |s|
  {
    if |s| == 0 then 0
    else ParseDigits(s[..|s| - 1]) * 10 + DigitValue(s[|s| - 1])
  }

  lemma DigitRoundTrip(d: nat)
    requires d < 10
    ensures DigitValue(Digit(d)) == d
  {
  }

  /** Reading the decimal digits back gives the number. */
  lemma {:induction false} NatRoundTrip(n: nat)
    ensures ParseDigits(NatToString(n)) == n
    decreases n
  {
    var s := NatToString(n);
    if n < 10 {
      DigitRoundTrip(n);
    } else {
      NatRoundTrip(n / 10);
      DigitRoundTrip(n % 10);
      assert s[..|s| - 1] == NatToString(n / 10);
    }
  }

  /** `std::to_string` of an `int`: a leading `-` for negative numbers. */
  function IntToString(i: int): (s: string)
    ensures |s| >= 1
    ensures '_' !in s
    ensures (s[0] == '-') <==> i < 0
  {
    if i < 0 then "-" + NatToString(-i) else NatToString(i)
  }

  /** The reading of an `IntToString` result. */
  function ParseInt(s: string): int
    requires |s| >= 1
    requires IsDigits(if s[0] == '-' then s[1..] else s)
  {
    if s[0] == '-' then -(ParseDigits(s[1..]) as int) else ParseDigits(s)
  }

  /** `ParseInt` inverts `IntToString`. */
  lemma {:induction false} IntRoundTrip(i: int)
    ensures var s := IntToString(i);
      IsDigits(if s[0] == '-' then s[1..] else s) && ParseInt(s) == i
  {
    var s := IntToString(i);
    if i < 0 {
      var d := NatToString(-i);
      assert s[0] == '-' && s[1..] == d by {
        assert s == "-" + d;
      }
      NatRoundTrip(-i);
      assert ParseInt(s) == -(ParseDigits(d) as int);
    } else {
      var d := NatToString(i);
      assert s == d && s[0] != '-' by {
        assert '0' <= d[0] <= '9';
      }
      NatRoundTrip(i);
      assert ParseInt(s) == ParseDigits(d);
    }
  }

  /** Distinct numbers print differently. */
  lemma IntToStringInjective(a: int, b: int)
    requires IntToString(a) == IntToString(b)
    ensures a == b
  {
    IntRoundTrip(a);
    IntRoundTrip(b);
  }

  /** `createKey(x, y, player, time)`. */
  function CreateKey(x: int, y: int, entity: int, time: int): string
  {
    IntToString(x) + "_" + IntToString(y) + "_" + IntToString(entity) + "_" + IntToString(time)
  }

  /** Splitting at the last separator: a suffix without `_` is determined. */
  lemma {:induction false} SplitAtLastSeparator(u: string, v: string, u': string, v': string)
    requires '_' !in v && '_' !in v'
    requires u + "_" + v == u' + "_" + v'
    ensures u == u' && v == v'
  {
    var s := u + "_" + v;
    assert s[|u|] == '_' && s[|u'|] == '_';
    assert u == s[..|u|] == u';
    assert v == s[|u| + 1..] == v';
  }

  /** Distinct tuples get distinct keys. */
  lemma CreateKeyInjective(x: int, y: int, e: int, t: int, x': int, y': int, e': int, t': int)
    ensures CreateKey(x, y, e, t) == CreateKey(x', y', e', t') <==> x == x' && y == y' && e == e' && t == t'
  {
    if CreateKey(x, y, e, t) == CreateKey(x', y', e', t') {
      var X, Y, E, T := IntToString(x), IntToString(y), IntToString(e), IntToString(t);
      var X', Y', E', T' := IntToString(x'), IntToString(y'), IntToString(e'), IntToString(t');
      SplitAtLastSeparator(X + "_" + Y + "_" + E, T, X' + "_" + Y' + "_" + E', T');
      SplitAtLastSeparator(X + "_" + Y, E, X' + "_" + Y', E');
      SplitAtLastSeparator(X, Y, X', Y');
      IntToStringInjective(x, x');
      IntToStringInjective(y, y');
      IntToStringInjective(e, e');
      IntToStringInjective(t, t');
    }
  }
}
