/** Decimal renderings of natural numbers and the string order that
    JavaScript's default sort and C++ comparisons use on them. */
module Decimal {

  function DigitChar(d: nat): (c: char)
    requires d < 10
    ensures '0' <= c <= '9'
  {
    (('0' as int) + d) as char
  }

  lemma DigitCharInjective(a: nat, b: nat)
    requires a < 10 && b < 10
    ensures DigitChar(a) == DigitChar(b) ==> a == b
  {
  }

  /** The decimal representation of n, without leading zeros. */
  function Dec(n: nat): (s: string)
    ensures |s| >= 1
    ensures forall i :: 0 <= i < |s| ==> '0' <= s[i] <= '9'
  {
    if n < 10 then [DigitChar(n)] else Dec(n / 10) + [DigitChar(n % 10)]
  }

  lemma {:induction false} DecLength(n: nat)
    ensures n >= 10 <==> |Dec(n)| >= 2
  {
  }

  /** Distinct numbers have distinct renderings. */
  lemma {:induction false} DecInjective(a: nat, b: nat)
    ensures Dec(a) == Dec(b) ==> a == b
    decreases a
  {
    if Dec(a) == Dec(b) {
      DecLength(a);
      DecLength(b);
      if a >= 10 {
        var sa, sb := Dec(a), Dec(b);
        assert sa[..|sa| - 1] == Dec(a / 10);
        assert sb[..|sb| - 1] == Dec(b / 10);
        DecInjective(a / 10, b / 10);
        DigitCharInjective(a % 10, b % 10);
      } else {
        DigitCharInjective(a, b);
      }
    }
  }

  /** Dividing twice is dividing by the product. */
  lemma DivDiv(a: nat, b: nat, c: nat)
    requires b > 0 && c > 0
    ensures a / b / c == a / (b * c)
  {
    var q, r := a / b, a % b;
    var q2, r2 := q / c, q % c;
    assert a == q * b + r;
    assert q == q2 * c + r2;
    assert a == (q2 * c + r2) * b + r;
    Regroup(q2, c, r2, b, r);
    BoundRemainder(r2, c, b, r);
    DivUnique(a, b * c, q2, r2 * b + r);
  }

  lemma Regroup(q2: nat, c: nat, r2: nat, b: nat, r: nat)
    ensures (q2 * c + r2) * b + r == q2 * (b * c) + (r2 * b + r)
  {
  }

  lemma BoundRemainder(r2: nat, c: nat, b: nat, r: nat)
    requires r2 < c && r < b
    ensures r2 * b + r < b * c
  {
    assert r2 * b <= (c - 1) * b;
  }

  lemma DivUnique(a: nat, m: nat, x: nat, y: nat)
    requires m > 0 && a == x * m + y && y < m
    ensures a / m == x && a % m == y
  {
    var q, r := a / m, a % m;
    if q > x {
      MulLe(x + 1, q, m);
    } else if q < x {
      MulLe(q + 1, x, m);
    }
  }

  lemma MulLe(i: nat, j: nat, m: nat)
    requires i <= j
    ensures i * m <= j * m
  {
  }

  /** Lexicographic order on strings, as JavaScript's default sort and
      std::string's operator< compare them (one code unit at a time). */
  predicate LexLe(a: string, b: string)
  {
    if a == [] then true
    else if b == [] then false
    else if a[0] == b[0] then LexLe(a[1..], b[1..])
    else a[0] < b[0]
  }

  lemma {:induction false} LexLeReflexive(a: string)
    ensures LexLe(a, a)
  {
    if a != [] {
      LexLeReflexive(a[1..]);
    }
  }

  lemma {:induction false} LexLeTotal(a: string, b: string)
    ensures LexLe(a, b) || LexLe(b, a)
  {
    if a != [] && b != [] && a[0] == b[0] {
      LexLeTotal(a[1..], b[1..]);
    }
  }

  lemma {:induction false} LexLeAntisymmetric(a: string, b: string)
    requires LexLe(a, b) && LexLe(b, a)
    ensures a == b
  {
    if a != [] && b != [] {
      LexLeAntisymmetric(a[1..], b[1..]);
      assert a == [a[0]] + a[1..];
      assert b == [b[0]] + b[1..];
    }
  }

  /** A common prefix does not change the order. */
  lemma {:induction false} LexLeCommonPrefix(c: string, a: string, b: string)
    ensures LexLe(c + a, c + b) <==> LexLe(a, b)
    decreases |c|
  {
    if c == [] {
      assert c + a == a && c + b == b;
    } else {
      assert (c + a)[1..] == c[1..] + a;
      assert (c + b)[1..] == c[1..] + b;
      LexLeCommonPrefix(c[1..], a, b);
    }
  }

  lemma {:induction false} LexLeTransitive(a: string, b: string, c: string)
    requires LexLe(a, b) && LexLe(b, c)
    ensures LexLe(a, c)
  {
    if a != [] && b != [] && c != [] && a[0] == b[0] && b[0] == c[0] {
      LexLeTransitive(a[1..], b[1..], c[1..]);
    }
  }
}
