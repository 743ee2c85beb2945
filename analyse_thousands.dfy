/** thousands(int64_t): the report's integer rendering, with the digits
    grouped in threes by `'` and a leading "-" for negative values. */
module Thousands {
  import opened Decimal
  import Sequences

  /** Digits grouped in threes from the right. */
  function Group(s: string): (g: string)
  {
    if |s| <= 3 then s else Group(s[..|s| - 3]) + "'" + s[|s| - 3..]
  }

  /** Prepending a digit adds a separator exactly when the digits already
      there fill whole groups. */
  lemma {:induction false} GroupCons(d: char, s: string)
    requires |s| >= 1
    ensures Group([d] + s) == [d] + Sep(|s|) + Group(s)
    decreases |s|, 1
  {
    if |s| <= 3 {
      GroupConsShort(d, s);
    } else {
      GroupConsLong(d, s);
    }
  }

  lemma {:induction false} GroupConsShort(d: char, s: string)
    requires 1 <= |s| <= 3
    ensures Group([d] + s) == [d] + Sep(|s|) + Group(s)
  {
    var t := [d] + s;
    assert Group(s) == s;
    if |s| == 3 {
      assert t[..|t| - 3] == [d];
      assert t[|t| - 3..] == s;
      assert Group(t) == Group([d]) + "'" + s;
      assert Group([d]) == [d];
      assert Sep(|s|) == "'";
    } else {
      assert |t| <= 3;
      assert Group(t) == t;
      assert Sep(|s|) == "";
      assert [d] + "" + s == t;
    }
  }

  lemma {:induction false} GroupConsLong(d: char, s: string)
    requires |s| > 3
    ensures Group([d] + s) == [d] + Sep(|s|) + Group(s)
    decreases |s|, 0
  {
    var t := [d] + s;
    var init, last := s[..|s| - 3], s[|s| - 3..];
    assert t[..|t| - 3] == [d] + init;
    assert t[|t| - 3..] == last;
    var gi := Group(init);
    var sep := Sep(|s|);
    assert Group(t) == Group([d] + init) + "'" + last;
    assert Group(s) == gi + "'" + last;
    GroupCons(d, init);
    assert Sep(|init|) == sep;
    assert Group([d] + init) == [d] + sep + gi;
    GroupConsJoin(d, sep, gi, last);
  }

  /** The separator owed before a digit that precedes n digits. */
  function Sep(n: nat): string
  {
    if n % 3 == 0 then "'" else ""
  }

  lemma GroupConsJoin(d: char, sep: string, g: string, last: string)
    ensures [d] + sep + g + "'" + last == [d] + sep + (g + "'" + last)
  {
  }

  /** The separators removed. */
  function Ungroup(g: string): (s: string)
  {
    if g == [] then [] else (if g[0] == '\'' then [] else [g[0]]) + Ungroup(g[1..])
  }

  lemma {:induction false} UngroupAppend(a: string, b: string)
    ensures Ungroup(a + b) == Ungroup(a) + Ungroup(b)
    decreases |a|
  {
    if a != [] {
      assert (a + b)[1..] == a[1..] + b;
      UngroupAppend(a[1..], b);
    } else {
      assert a + b == b;
    }
  }

  lemma {:induction false} UngroupPlain(s: string)
    requires '\'' !in s
    ensures Ungroup(s) == s
    decreases |s|
  {
    if s != [] {
      UngroupPlain(s[1..]);
      assert s == [s[0]] + s[1..];
    }
  }

  /** Grouping only inserts separators: removing them gives the digits
      back, and a run of n digits gains (n - 1) / 3 of them. */
  lemma {:induction false} GroupRoundTrip(s: string)
    requires '\'' !in s
    ensures Ungroup(Group(s)) == s
    ensures |s| >= 1 ==> |Group(s)| == |s| + (|s| - 1) / 3
    decreases |s|
  {
    if |s| <= 3 {
      UngroupPlain(s);
    } else {
      var init, last := s[..|s| - 3], s[|s| - 3..];
      NoQuoteParts(s, init, last);
      GroupRoundTrip(init);
      UngroupAppend(Group(init) + "'", last);
      UngroupAppend(Group(init), "'");
      UngroupPlain(last);
      assert Ungroup("'") == [];
      Sequences.SplitAt(s, |s| - 3);
      GroupLengthStep(|s|, |Group(init)|);
    }
  }

  lemma NoQuoteParts(s: string, init: string, last: string)
    requires '\'' !in s && |s| > 3 && init == s[..|s| - 3] && last == s[|s| - 3..]
    ensures '\'' !in init && '\'' !in last
  {
    assert forall c :: c in init || c in last ==> c in s;
  }

  /** The arithmetic of one more group: n - 3 digits grouped, a
      separator and three digits. */
  lemma GroupLengthStep(n: nat, gi: nat)
    requires n > 3 && gi == (n - 3) + (n - 4) / 3
    ensures gi + 1 + 3 == n + (n - 1) / 3
  {
  }

  /** Dec(v) is the digits of q followed by rest (q == 0: no digits). */
  predicate DigitsSplit(v: nat, q: nat, rest: string)
  {
    Dec(v) == (if q != 0 then Dec(q) else []) + rest
  }

  /** Moving the last digit of q over to rest. */
  lemma NextDigit(v: nat, q: nat, rest: string)
    requires q != 0 && DigitsSplit(v, q, rest)
    ensures DigitsSplit(v, q / 10, [DigitChar(q % 10)] + rest)
  {
    if q >= 10 {
      assert Dec(q) == Dec(q / 10) + [DigitChar(q % 10)];
      assert Dec(q) + rest == Dec(q / 10) + ([DigitChar(q % 10)] + rest);
    } else {
      assert Dec(q) == [DigitChar(q % 10)];
    }
  }

  lemma Advance(v: nat, n: nat)
    requires n >= 1
    ensures n * 10 >= 10 && v / (n * 10) == v / n / 10
  {
    DivDiv(v, n, 10);
  }

  /** thousands(value) with no left padding. */
  method FormatThousands(value: int) returns (result: string)
    ensures result == (if value < 0 then "-" else "") + Group(Dec(if value < 0 then -value else value))
  {
    var sign := value >= 0;
    var v: nat := if value < 0 then -value else value;
    result := "";
    if v == 0 {
      result := "0";
      assert Dec(0) == "0";
    } else {
      result := DigitLoop(v);
    }
    result := (if sign then "" else "-") + result;
  }

  lemma PrependDigit(c: char, rest: string, result: string, addSep: bool)
    requires result == Group(rest) && addSep == (|rest| > 0 && |rest| % 3 == 0)
    ensures [c] + ((if addSep then "'" else "") + result) == Group([c] + rest)
  {
    if rest != [] {
      var sep := if addSep then "'" else "";
      assert sep == Sep(|rest|);
      GroupCons(c, rest);
      Sequences.AppendAssoc([c], sep, result);
    } else {
      assert [c] + rest == [c];
      assert [c] + ("" + result) == [c];
    }
  }

  /** The state of the digit loop after |rest| rounds: n = 10^|rest|,
      q = v / n is what is left of v, rest the digits consumed, and the
      text so far is rest grouped. */
  predicate DigitLoopState(v: nat, n: nat, q: nat, rest: string, result: string, digitCount: int)
  {
    n >= 1 && q == v / n &&
    (|rest| == 0 <==> n == 1) && digitCount == |rest| % 3 &&
    result == Group(rest) && DigitsSplit(v, q, rest)
  }

  /** One round of the digit loop keeps its state: the digit c of v / n
      goes in front, after a separator when a group of three is complete. */
  lemma DigitLoopStep(v: nat, n: nat, q: nat, rest: string, result: string, digitCount: int,
                      c: char, result': string)
    requires DigitLoopState(v, n, q, rest, result, digitCount) && v / n != 0
    requires c == DigitChar(v / n % 10)
    requires result' == [c] + ((if digitCount == 0 && n != 1 then "'" else "") + result)
    ensures q / 10 < q
    ensures DigitLoopState(v, n * 10, q / 10, [c] + rest, result', (digitCount + 1) % 3)
  {
    assert q != 0 && c == DigitChar(q % 10);
    assert DigitsSplit(v, q / 10, [c] + rest) by {
      NextDigit(v, q, rest);
    }
    PrependDigit(c, rest, result, digitCount == 0 && n != 1);
    assert n * 10 >= 1 && q / 10 == v / (n * 10) by {
      Advance(v, n);
    }
    CountStep(|rest|, digitCount);
    assert |[c] + rest| == |rest| + 1;
  }

  lemma CountStep(len: nat, count: int)
    requires count == len % 3
    ensures (count + 1) % 3 == (len + 1) % 3
  {
  }

  /** The digit loop of thousands for a positive magnitude: one digit of
      value / n per round, with a separator before every completed group. */
  method DigitLoop(v: nat) returns (result: string)
    requires v > 0
    ensures result == Group(Dec(v))
  {
    var n: nat := 1;
    var digitCount := 0;
    result := "";
    ghost var rest: string := "";
    ghost var q: nat := v;
    assert DigitsSplit(v, q, rest);
    while v / n != 0
      invariant DigitLoopState(v, n, q, rest, result, digitCount)
      decreases q
    {
      ghost var n0, rest0, result0, count0 := n, rest, result, digitCount;
      var c := DigitChar(v / n % 10);
      if digitCount == 0 && n != 1 {
        result := "'" + result;
      }
      result := [c] + result;
      n := n * 10;
      digitCount := (digitCount + 1) % 3;
      DigitLoopStep(v, n0, q, rest0, result0, count0, c, result);
      rest := [c] + rest;
      q := q / 10;
    }
    assert Dec(v) == [] + rest == rest;
  }

  lemma ThousandsExamples()
    ensures Group(Dec(0)) == "0"
    ensures Group(Dec(1234)) == "1'234"
    ensures Group(Dec(100)) == "100"
  {
    assert Dec(0) == "0";
    assert Dec(1) == "1";
    assert Dec(12) == "12";
    assert Dec(123) == "123";
    assert Dec(1234) == "1234";
    var g := "1234";
    assert g[..|g| - 3] == "1" && g[|g| - 3..] == "234";
    assert Group(g) == "1" + "'" + "234";
    assert Dec(10) == "10";
    assert Dec(100) == "100";
  }
}
