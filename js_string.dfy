/** The few JavaScript string operations the dump browser relies on:
    split, join, indexOf, replace with a string pattern, and Number() on
    signed decimal integers. */
module JsString {
  import opened Decimal
  import opened Options

  /** s.split(c) for a one-character separator: always at least one part,
      and no part contains the separator. */
  function Split(s: string, c: char): (parts: seq<string>)
    ensures |parts| >= 1
    ensures forall k :: 0 <= k < |parts| ==> c !in parts[k]
    decreases |s|
  {
    if s == [] then [[]]
    else if s[0] == c then [[]] + Split(s[1..], c)
    else
      var rest := Split(s[1..], c);
      [[s[0]] + rest[0]] + rest[1..]
  }

  /** parts.join(c). */
  function Join(parts: seq<string>, c: char): (s: string)
    requires |parts| >= 1
  {
    if |parts| == 1 then parts[0] else parts[0] + [c] + Join(parts[1..], c)
  }

  /** Joining the parts of a split gives the string back. */
  lemma {:induction false} JoinSplit(s: string, c: char)
    ensures Join(Split(s, c), c) == s
    decreases |s|
  {
    if s != [] {
      JoinSplit(s[1..], c);
      var rest := Split(s[1..], c);
      if s[0] != c {
        if |rest| == 1 {
          assert s == [s[0]] + s[1..];
        } else {
          assert Join(rest, c) == rest[0] + [c] + Join(rest[1..], c);
          assert s == [s[0]] + s[1..];
        }
      } else {
        assert s == [c] + s[1..];
      }
    }
  }

  lemma {:induction false} SplitFreeOf(s: string, c: char)
    requires c !in s
    ensures Split(s, c) == [s]
    decreases |s|
  {
    if s != [] {
      SplitFreeOf(s[1..], c);
      assert s == [s[0]] + s[1..];
    }
  }

  lemma {:induction false} SplitPrefix(p: string, c: char, t: string)
    requires c !in p
    ensures Split(p + [c] + t, c) == [p] + Split(t, c)
    decreases |p|
  {
    if p == [] {
      assert p + [c] + t == [c] + t;
      assert ([c] + t)[1..] == t;
    } else {
      assert (p + [c] + t)[1..] == p[1..] + [c] + t;
      SplitPrefix(p[1..], c, t);
      assert p == [p[0]] + p[1..];
    }
  }

  /** Splitting a join gives the parts back when no part holds the
      separator. */
  lemma {:induction false} SplitJoin(parts: seq<string>, c: char)
    requires |parts| >= 1
    requires forall k :: 0 <= k < |parts| ==> c !in parts[k]
    ensures Split(Join(parts, c), c) == parts
    decreases |parts|
  {
    if |parts| == 1 {
      SplitFreeOf(parts[0], c);
    } else {
      SplitJoin(parts[1..], c);
      SplitPrefix(parts[0], c, Join(parts[1..], c));
      assert parts == [parts[0]] + parts[1..];
    }
  }

  /** Appending one more part to a join. */
  lemma {:induction false} JoinSnoc(parts: seq<string>, c: char, last: string)
    requires |parts| >= 1
    ensures Join(parts + [last], c) == Join(parts, c) + [c] + last
    decreases |parts|
  {
    if |parts| > 1 {
      assert (parts + [last])[1..] == parts[1..] + [last];
      JoinSnoc(parts[1..], c, last);
    }
  }

  predicate IsPrefix(t: string, s: string)
  {
    |t| <= |s| && s[..|t|] == t
  }

  predicate Occurs(t: string, s: string, i: int)
  {
    0 <= i && i + |t| <= |s| && s[i..i + |t|] == t
  }

  /** s.indexOf(t): the first position where t occurs, or -1. */
  function IndexOf(s: string, t: string): (r: int)
    ensures -1 <= r <= |s|
    ensures r >= 0 ==> Occurs(t, s, r)
    ensures r >= 0 ==> forall i :: 0 <= i < r ==> !Occurs(t, s, i)
    ensures r == -1 ==> forall i :: 0 <= i <= |s| ==> !Occurs(t, s, i)
    decreases |s|
  {
    if |s| < |t| then -1
    else if s[..|t|] == t then 0
    else
      var r := IndexOf(s[1..], t);
      assert forall i :: 1 <= i && Occurs(t, s, i) ==> Occurs(t, s[1..], i - 1) by {
        forall i | 1 <= i && Occurs(t, s, i) ensures Occurs(t, s[1..], i - 1) {
          assert s[1..][i - 1..i - 1 + |t|] == s[i..i + |t|];
        }
      }
      if r < 0 then -1
      else
        assert s[1..][r..r + |t|] == s[r + 1..r + 1 + |t|];
        r + 1
  }

  predicate Contains(s: string, t: string)
  {
    IndexOf(s, t) != -1
  }

  /** s.replace(pattern, replacement) with a string pattern: only the first
      occurrence is replaced. */
  function ReplaceFirst(s: string, pattern: string, replacement: string): (r: string)
    ensures IndexOf(s, pattern) == -1 ==> r == s
    ensures IndexOf(s, pattern) >= 0 ==>
              r == s[..IndexOf(s, pattern)] + replacement + s[IndexOf(s, pattern) + |pattern|..]
  {
    var i := IndexOf(s, pattern);
    if i < 0 then s else s[..i] + replacement + s[i + |pattern|..]
  }

  predicate AllDigits(s: string)
  {
    forall i :: 0 <= i < |s| ==> '0' <= s[i] <= '9'
  }

  function DigitsValue(s: string): (n: nat)
    requires AllDigits(s)
  {
    if s == [] then 0 else 10 * DigitsValue(s[..|s| - 1]) + (s[|s| - 1] as int - '0' as int)
  }

  /** StrWhiteSpaceChar of section 7.1.4.1.1 of ECMA-262: the white space
      characters (tab, vertical tab, form feed, space, no-break space, the
      byte order mark and the other space separators) and the line
      terminators. */
  predicate JsSpace(c: char)
  {
    c == '\t' || c == '\U{0B}' || c == '\U{0C}' || c == ' ' || c == '\U{00A0}' || c == '\U{FEFF}' ||
    c == '\U{1680}' || ('\U{2000}' <= c <= '\U{200A}') || c == '\U{202F}' || c == '\U{205F}' || c == '\U{3000}' ||
    c == '\n' || c == '\r' || c == '\U{2028}' || c == '\U{2029}'
  }

  /** s without its leading white space. */
  function TrimStart(s: string): (t: string)
    ensures t == [] || !JsSpace(t[0])
    decreases |s|
  {
    if s != [] && JsSpace(s[0]) then TrimStart(s[1..]) else s
  }

  /** s without its trailing white space. */
  function TrimEnd(s: string): (t: string)
    ensures t == [] || !JsSpace(t[|t| - 1])
    decreases |s|
  {
    if s != [] && JsSpace(s[|s| - 1]) then TrimEnd(s[..|s| - 1]) else s
  }

  /** A StrDecimalLiteral without fraction or exponent: an optional sign
      and at least one digit; the empty string reads as 0. */
  function SignedDigits(t: string): (r: Option<int>)
    ensures AllDigits(t) ==> r == Some(DigitsValue(t))
  {
    if AllDigits(t) then Some(DigitsValue(t))
    else if |t| >= 2 && t[0] == '-' && AllDigits(t[1..]) then Some(0 - DigitsValue(t[1..]))
    else if |t| >= 2 && t[0] == '+' && AllDigits(t[1..]) then Some(DigitsValue(t[1..]))
    else None
  }

  /** Number(s) (section 7.1.4.1 of ECMA-262) for integers written in
      decimal: white space around the literal is ignored, a string of
      white space only is 0, and any other string reads as NaN (None). */
  function JsNumber(s: string): (r: Option<int>)
    ensures AllDigits(s) ==> r == Some(DigitsValue(s))
  {
    assert AllDigits(s) ==> TrimEnd(TrimStart(s)) == s by {
      if AllDigits(s) && s != [] {
        assert !JsSpace(s[0]) && !JsSpace(s[|s| - 1]);
      }
    }
    SignedDigits(TrimEnd(TrimStart(s)))
  }

  /** String(n) for an integer n. */
  function IntText(n: int): string
  {
    if n < 0 then "-" + Dec(-n) else Dec(n)
  }

  /** Number(String(n)) == n for every integer, negative ones included. */
  lemma NumberOfInt(n: int)
    ensures JsNumber(IntText(n)) == Some(n)
  {
    if n < 0 {
      NumberOfNegInt(n);
    } else {
      NumberOfPosInt(n);
    }
  }

  lemma NumberOfNegInt(n: int)
    requires n < 0
    ensures JsNumber(IntText(n)) == Some(n)
  {
    var d := Dec(-n);
    DigitsOfDecimal(-n);
    assert DigitsValue(d) == -n;
    NumberOfNegative(d);
    assert JsNumber("-" + d) == Some(n);
    assert IntText(n) == "-" + d;
  }

  lemma NumberOfPosInt(n: int)
    requires n >= 0
    ensures JsNumber(IntText(n)) == Some(n)
  {
    var t := IntText(n);
    NumberOfDecimal(n);
    assert t == Dec(n);
  }

  /** A '-' before a run of digits negates its value. */
  lemma NumberOfNegative(d: string)
    requires d != [] && AllDigits(d)
    ensures JsNumber("-" + d) == Some(0 - DigitsValue(d))
  {
    var t := "-" + d;
    assert t[1..] == d;
    assert !AllDigits(t) by {
      assert t[0] == '-';
    }
    assert TrimStart(t) == t;
    assert !JsSpace(t[|t| - 1]) by {
      assert t[|t| - 1] == d[|d| - 1];
    }
    assert TrimEnd(t) == t;
  }

  /** Leading white space is skipped. */
  lemma {:induction false} TrimStartSkips(pre: string, t: string)
    requires forall i :: 0 <= i < |pre| ==> JsSpace(pre[i])
    requires t == [] || !JsSpace(t[0])
    ensures TrimStart(pre + t) == t
    decreases |pre|
  {
    if pre != [] {
      assert (pre + t)[1..] == pre[1..] + t;
      TrimStartSkips(pre[1..], t);
    }
  }

  /** Trailing white space is skipped. */
  lemma {:induction false} TrimEndSkips(t: string, post: string)
    requires forall i :: 0 <= i < |post| ==> JsSpace(post[i])
    requires t == [] || !JsSpace(t[|t| - 1])
    ensures TrimEnd(t + post) == t
    decreases |post|
  {
    if post != [] {
      assert (t + post)[..|t + post| - 1] == t + post[..|post| - 1];
      TrimEndSkips(t, post[..|post| - 1]);
    }
  }

  /** Number() ignores the white space around a literal: " 5\n" is 5. */
  lemma NumberIgnoresSpaces(pre: string, t: string, post: string)
    requires forall i :: 0 <= i < |pre| ==> JsSpace(pre[i])
    requires forall i :: 0 <= i < |post| ==> JsSpace(post[i])
    requires t != [] && !JsSpace(t[0]) && !JsSpace(t[|t| - 1])
    ensures JsNumber(pre + t + post) == JsNumber(t)
  {
    assert pre + t + post == pre + (t + post);
    TrimStartSkips(pre, t + post);
    TrimEndSkips(t, post);
    TrimStartSkips([], t);
    assert [] + t == t;
    TrimEndSkips(t, []);
    assert t + [] == t;
  }

  /** Number() reads NaN exactly for strings that are not, between white
      space, an optionally signed run of digits (or nothing). */
  lemma NumberIsNaN(s: string)
    ensures JsNumber(s).None? <==>
      var t := TrimEnd(TrimStart(s));
      !AllDigits(t) && !(|t| >= 2 && (t[0] == '-' || t[0] == '+') && AllDigits(t[1..]))
  {
  }

  /** The digits of String(n) read back as n. */
  lemma {:induction false} DigitsOfDecimal(n: nat)
    ensures AllDigits(Dec(n)) && DigitsValue(Dec(n)) == n
  {
    if n >= 10 {
      DigitsOfDecimal(n / 10);
      var s := Dec(n);
      assert s[..|s| - 1] == Dec(n / 10);
      assert s[|s| - 1] as int - '0' as int == n % 10;
    } else {
      var s := Dec(n);
      assert s[..|s| - 1] == [];
    }
  }

  /** Number(String(n)) == n. */
  lemma NumberOfDecimal(n: nat)
    ensures JsNumber(Dec(n)) == Some(n)
  {
    DigitsOfDecimal(n);
  }

}
