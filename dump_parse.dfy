/** The hand-written parsers of the analyser for the lines of a profile
    dump: a stack line starts "C<depth> ", followed by a function
    reference "FN<id>+<offset>" or definition "FN<id>=(...", then counter
    values "V<id>:(<freq>,<normal>,<peak>)" and leaks
    ";LK=(0x<address>,<size>)". A line is a C string: reading at or past
    its end gives NUL. Each parser takes the position to read at and, on
    success only, moves it past what it read and any blanks after it.
    Numbers are read as strtol and strtoll read them (section 7.22.1.4 of
    the C standard): leading white space, an optional sign, then digits,
    and for base 16 an optional 0x. */
module DumpParse {
  import opened Options
  import opened Decimal
  import FastOutput
  import opened UInt64

  const U32: nat := 0x1_0000_0000
  const NUL: char := 0 as char

  function At(line: string, i: nat): char
  {
    if i < |line| then line[i] else NUL
  }

  /** isspace in the C locale. */
  predicate IsSpace(c: char)
  {
    c == ' ' || c == '\t' || c == '\n' || c == '\r' || c as int == 11 || c as int == 12
  }

  predicate IsBlank(c: char)
  {
    c == ' ' || c == '\t'
  }

  /** The value of c as a digit in base 10 or 16, or -1. */
  function DigitIn(c: char, base: nat): (d: int)
    requires base == 10 || base == 16
    ensures -1 <= d < base as int
  {
    if '0' <= c <= '9' then (c - '0') as int
    else if base == 16 && 'a' <= c <= 'f' then (c - 'a') as int + 10
    else if base == 16 && 'A' <= c <= 'F' then (c - 'A') as int + 10
    else -1
  }

  predicate IsDigitIn(c: char, base: nat)
    requires base == 10 || base == 16
  {
    DigitIn(c, base) >= 0
  }

  /** The value of a run of digits, most significant first. */
  function Value(s: string, base: nat): nat
    requires base == 10 || base == 16
  {
    if s == [] then 0
    else Value(s[..|s| - 1], base) * base + (if IsDigitIn(s[|s| - 1], base) then DigitIn(s[|s| - 1], base) else 0)
  }

  /** The value of the digits of line from d up to e, read in place. */
  function ValueAt(line: string, d: nat, e: nat, base: nat): nat
    requires base == 10 || base == 16
    decreases e
  {
    if e <= d then 0
    else ValueAt(line, d, e - 1, base) * base + (if IsDigitIn(At(line, e - 1), base) then DigitIn(At(line, e - 1), base) else 0)
  }

  function SpaceEnd(line: string, i: nat): (j: nat)
    ensures j >= i
    decreases |line| - i
  {
    if i < |line| && IsSpace(line[i]) then SpaceEnd(line, i + 1) else i
  }

  /** The end of the run of blanks at i. */
  function BlankEnd(line: string, i: nat): (j: nat)
    ensures j >= i
    decreases |line| - i
  {
    if i < |line| && IsBlank(line[i]) then BlankEnd(line, i + 1) else i
  }

  function DigitEnd(line: string, i: nat, base: nat): (j: nat)
    requires base == 10 || base == 16
    ensures j >= i && (j > i ==> j <= |line|)
    decreases |line| - i
  {
    if i < |line| && IsDigitIn(line[i], base) then DigitEnd(line, i + 1, base) else i
  }

  /** What strtol returns and where it leaves its end pointer; with no
      digits, the value is 0 and the end is where it started. */
  datatype Conversion = Conversion(value: int, end: nat)

  /** Where the digits start after the white space: past a sign and,
      in base 16, past a 0x that a digit follows. */
  function DigitsStart(line: string, k: nat, base: nat): (d: nat)
    requires base == 10 || base == 16
    ensures k <= d <= k + 3
  {
    var s := if At(line, k) == '-' || At(line, k) == '+' then k + 1 else k;
    if base == 16 && At(line, s) == '0' && (At(line, s + 1) == 'x' || At(line, s + 1) == 'X') && IsDigitIn(At(line, s + 2), 16)
    then s + 2 else s
  }

  function StrToL(line: string, i: nat, base: nat): (r: Conversion)
    requires base == 10 || base == 16
    ensures r.end == i || i < r.end <= |line|
  {
    var k := SpaceEnd(line, i);
    var d := DigitsStart(line, k, base);
    var e := DigitEnd(line, d, base);
    if e == d then Conversion(0, i)
    else
      var v := ValueAt(line, d, e, base);
      Conversion(if At(line, k) == '-' then -(v as int) else v as int, e)
  }

  /** strtol over digits t at d, after the sign or white space at i,
      ending at e. */
  lemma StrToLOver(line: string, i: nat, base: nat, d: nat, t: string, e: nat)
    requires base == 10 || base == 16
    requires SpaceEnd(line, i) == i && DigitsStart(line, i, base) == d
    requires t != [] && Has(line, d, t) && forall k :: 0 <= k < |t| ==> IsDigitIn(t[k], base)
    requires e == d + |t| && !IsDigitIn(At(line, e), base)
    ensures StrToL(line, i, base) == Conversion(if At(line, i) == '-' then -(Value(t, base) as int) else Value(t, base) as int, e)
  {
    DigitEndOver(line, d, t, base);
    ValueAtText(line, d, t, base, e);
  }

  /** strtol stops after a digit and before a character that is none. */
  lemma StrToLStops(line: string, i: nat, base: nat)
    requires base == 10 || base == 16
    ensures var r := StrToL(line, i, base);
      r.end == i || (IsDigitIn(line[r.end - 1], base) && !IsDigitIn(At(line, r.end), base))
  {
    DigitEndStops(line, DigitsStart(line, SpaceEnd(line, i), base), base);
  }

  lemma {:induction false} DigitEndStops(line: string, i: nat, base: nat)
    requires base == 10 || base == 16
    ensures var e := DigitEnd(line, i, base);
      !IsDigitIn(At(line, e), base) && (e > i ==> IsDigitIn(line[e - 1], base))
    decreases |line| - i
  {
    if i < |line| && IsDigitIn(line[i], base) {
      DigitEndStops(line, i + 1, base);
    }
  }

  /** The text of an integer as the dump writes it. */
  function Signed(v: int): (r: string)
    ensures |r| >= 1
  {
    if v < 0 then "-" + Dec(-v) else Dec(v)
  }

  /** t occurs in line at i. */
  predicate Has(line: string, i: nat, t: string)
    decreases |t|
  {
    t == [] || (i < |line| && line[i] == t[0] && Has(line, i + 1, t[1..]))
  }

  /** Both halves of a text occur, the second at j. */
  lemma {:induction false} HasSplit(line: string, i: nat, t1: string, t2: string, j: nat)
    requires Has(line, i, t1 + t2) && j == i + |t1|
    ensures Has(line, i, t1) && Has(line, j, t2)
    decreases |t1|
  {
    if t1 != [] {
      assert (t1 + t2)[0] == t1[0];
      assert (t1 + t2)[1..] == t1[1..] + t2;
      HasSplit(line, i + 1, t1[1..], t2, j);
    } else {
      assert t1 + t2 == t2;
    }
  }

  /** The character k of the text is the one at j. */
  lemma {:induction false} HasAt(line: string, i: nat, t: string, k: nat, j: nat)
    requires Has(line, i, t) && k < |t| && j == i + k
    ensures At(line, j) == t[k]
    decreases k
  {
    if k > 0 {
      HasAt(line, i + 1, t[1..], k - 1, j);
    }
  }

  /** Digits read in place have the value of the text they spell. */
  lemma {:induction false} ValueAtText(line: string, d: nat, t: string, base: nat, e: nat)
    requires base == 10 || base == 16
    requires Has(line, d, t) && e == d + |t|
    ensures ValueAt(line, d, e, base) == Value(t, base)
    decreases |t|
  {
    if t != [] {
      var u := t[..|t| - 1];
      var c := t[|t| - 1];
      assert t == u + [c];
      HasSplit(line, d, u, [c], e - 1);
      HasAt(line, e - 1, [c], 0, e - 1);
      ValueAtText(line, d, u, base, e - 1);
    }
  }

  /** The text at the start of what follows position p is there. */
  lemma {:induction false} HasPrefix(line: string, p: nat, t: string, rest: string)
    requires p <= |line| && line[p..] == t + rest
    ensures Has(line, p, t)
    decreases |t|
  {
    if t != [] {
      assert line[p] == (t + rest)[0] == t[0];
      assert line[p + 1..] == t[1..] + rest;
      HasPrefix(line, p + 1, t[1..], rest);
    }
  }

  /** Decimal text reads back as its number. */
  lemma {:induction false} ValueOfDec(n: nat)
    ensures Value(Dec(n), 10) == n
    decreases n
  {
    var s := Dec(n);
    if n >= 10 {
      assert s[..|s| - 1] == Dec(n / 10);
      ValueOfDec(n / 10);
    } else {
      assert s[..|s| - 1] == [];
    }
  }

  /** A run of digits in line ends where the text of digits does. */
  lemma {:induction false} DigitEndOver(line: string, i: nat, t: string, base: nat)
    requires base == 10 || base == 16
    requires Has(line, i, t) && forall k :: 0 <= k < |t| ==> IsDigitIn(t[k], base)
    requires !IsDigitIn(At(line, i + |t|), base)
    ensures DigitEnd(line, i, base) == i + |t|
    decreases |t|
  {
    if t != [] {
      DigitEndOver(line, i + 1, t[1..], base);
    }
  }

  /** strtol reads the text of any integer back, up to e, when no digit
      follows. */
  lemma StrToLReadsSigned(line: string, i: nat, v: int, e: nat)
    requires Has(line, i, Signed(v)) && e == i + |Signed(v)| && !IsDigitIn(At(line, e), 10)
    ensures StrToL(line, i, 10) == Conversion(v, e)
  {
    if v < 0 {
      StrToLReadsNegative(line, i, -v, e);
    } else {
      StrToLReadsNatural(line, i, v, e);
    }
  }

  lemma StrToLReadsNatural(line: string, i: nat, v: nat, e: nat)
    requires Has(line, i, Dec(v)) && e == i + |Dec(v)| && !IsDigitIn(At(line, e), 10)
    ensures StrToL(line, i, 10) == Conversion(v, e)
  {
    HasAt(line, i, Dec(v), 0, i);
    assert SpaceEnd(line, i) == i;
    assert DigitsStart(line, i, 10) == i;
    ValueOfDec(v);
    StrToLOver(line, i, 10, i, Dec(v), e);
  }

  lemma StrToLReadsNegative(line: string, i: nat, m: nat, e: nat)
    requires m > 0 && Has(line, i, "-" + Dec(m)) && e == i + 1 + |Dec(m)| && !IsDigitIn(At(line, e), 10)
    ensures StrToL(line, i, 10) == Conversion(-(m as int), e)
  {
    HasAt(line, i, "-" + Dec(m), 0, i);
    assert SpaceEnd(line, i) == i;
    var d := i + 1;
    assert DigitsStart(line, i, 10) == d;
    HasSplit(line, i, "-", Dec(m), d);
    ValueOfDec(m);
    StrToLOver(line, i, 10, d, Dec(m), e);
  }

  /** strtol reads "+<digits>" as the number. */
  lemma StrToLReadsPlus(line: string, i: nat, v: nat, e: nat)
    requires Has(line, i, "+" + Dec(v)) && e == i + 1 + |Dec(v)| && !IsDigitIn(At(line, e), 10)
    ensures StrToL(line, i, 10) == Conversion(v, e)
  {
    HasAt(line, i, "+" + Dec(v), 0, i);
    assert SpaceEnd(line, i) == i;
    var d := i + 1;
    assert DigitsStart(line, i, 10) == d;
    HasSplit(line, i, "+", Dec(v), d);
    ValueOfDec(v);
    StrToLOver(line, i, 10, d, Dec(v), e);
  }

  /** A lower-case hexadecimal digit means to strtoll what it means to
      the writer. */
  lemma HexDigitAgrees(c: char)
    requires c in "0123456789abcdef"
    ensures IsDigitIn(c, 16) && DigitIn(c, 16) == FastOutput.DigitValue(c)
  {
  }

  /** The hexadecimal value of the text the integer writers produce. */
  lemma {:induction false} ValueOfHex(s: string)
    requires forall k :: 0 <= k < |s| ==> s[k] in "0123456789abcdef"
    ensures Value(s, 16) == FastOutput.HexValue(s)
  {
    if s != [] {
      var u := s[..|s| - 1];
      assert forall k :: 0 <= k < |u| ==> u[k] == s[k];
      ValueOfHex(u);
      HexDigitAgrees(s[|s| - 1]);
    }
  }

  /** Such text is all digits to strtoll. */
  lemma HexDigits(s: string)
    requires forall k :: 0 <= k < |s| ==> s[k] in "0123456789abcdef"
    ensures forall k :: 0 <= k < |s| ==> IsDigitIn(s[k], 16)
  {
    forall k | 0 <= k < |s|
      ensures IsDigitIn(s[k], 16)
    {
      HexDigitAgrees(s[k]);
    }
  }

  /** Lower-case hexadecimal text that starts with 0 only when it is "0",
      and that no x follows, starts its digits where it is. */
  lemma HexStart(line: string, i: nat, t: string, e: nat)
    requires t != [] && Has(line, i, t) && e == i + |t|
    requires forall k :: 0 <= k < |t| ==> t[k] in "0123456789abcdef"
    requires t[0] == '0' ==> |t| == 1
    requires At(line, e) != 'x' && At(line, e) != 'X'
    ensures SpaceEnd(line, i) == i && DigitsStart(line, i, 16) == i
  {
    HasAt(line, i, t, 0, i);
    assert t[0] in "0123456789abcdef";
    if |t| >= 2 {
      HasAt(line, i, t, 1, i + 1);
      assert t[1] in "0123456789abcdef";
    }
  }

  /** strtoll in base 16 reads the lower-case hexadecimal text of v back. */
  lemma StrToLReadsHex(line: string, i: nat, v: nat, e: nat)
    requires Has(line, i, FastOutput.HexText(v)) && e == i + |FastOutput.HexText(v)|
    requires !IsDigitIn(At(line, e), 16) && At(line, e) != 'x' && At(line, e) != 'X'
    ensures StrToL(line, i, 16) == Conversion(v, e)
  {
    var t := FastOutput.HexText(v);
    FastOutput.HexTextRoundTrip(v);
    ValueOfHex(t);
    HexDigits(t);
    HexStart(line, i, t, e);
    StrToLOver(line, i, 16, i, t, e);
  }

  // ---------------------------------------------------------------
  // index

  /** index: the first position of c in s, or -1. */
  method Index(s: string, c: char) returns (r: int)
    ensures r == -1 <==> c !in s
    ensures r != -1 ==> 0 <= r < |s| && s[r] == c && c !in s[..r]
  {
    var pos := 0;
    while pos < |s|
      invariant 0 <= pos <= |s| && c !in s[..pos]
    {
      if s[pos] == c {
        return pos;
      }
      assert s[..pos + 1] == s[..pos] + [s[pos]];
      pos := pos + 1;
    }
    assert s[..pos] == s;
    return -1;
  }

  // ---------------------------------------------------------------
  // Stack lines

  /** The outcome of a stack line: not one, a depth below 1 (which the
      source asserts against), or the new stack size and where the line
      goes on. */
  datatype StackLine = NotStack | BadDepth | Depth(size: nat, next: nat)

  /** parseStackLine as written: after the digits it steps over one
      character whatever it is, then over blanks. */
  function StackLineAsWritten(line: string): StackLine
  {
    if At(line, 0) != 'C' then NotStack
    else
      var n := StrToL(line, 1, 10);
      if n.end == 1 then NotStack
      else if n.value - 1 < 0 then BadDepth
      else Depth(n.value - 1, BlankEnd(line, n.end + 1))
  }

  /** A stack line "C<n>" followed by blanks, as its own pattern says:
      the stack is cut or grown to n - 1 entries and the line goes on
      after the blanks. */
  function ParseStackLine(line: string): (r: StackLine)
    ensures r.NotStack? <==> At(line, 0) != 'C' || StrToL(line, 1, 10).end == 1
    ensures r.Depth? ==> r.size == StrToL(line, 1, 10).value - 1 && r.next >= 2 && !IsBlank(At(line, r.next))
  {
    if At(line, 0) != 'C' then NotStack
    else
      var n := StrToL(line, 1, 10);
      if n.end == 1 then NotStack
      else if n.value - 1 < 0 then BadDepth
      else
        BlankEndStops(line, n.end);
        Depth(n.value - 1, BlankEnd(line, n.end))
  }

  lemma {:induction false} BlankEndStops(line: string, i: nat)
    ensures !IsBlank(At(line, BlankEnd(line, i)))
    decreases |line| - i
  {
    if i < |line| && IsBlank(line[i]) {
      BlankEndStops(line, i + 1);
    }
  }

  /** "C1FN0+0": the written parser skips the F and reads on at 3, where
      no function reference starts; the pattern ends the stack part at 2. */
  lemma StackLineSkipsCharacter()
    ensures StackLineAsWritten("C1FN0+0") == Depth(0, 3)
    ensures ParseStackLine("C1FN0+0") == Depth(0, 2)
  {
    var line := "C1FN0+0";
    assert SpaceEnd(line, 1) == 1;
    assert DigitEnd(line, 1, 10) == 2;
    assert ValueAt(line, 1, 2, 10) == ValueAt(line, 1, 1, 10) * 10 + 1;
    assert BlankEnd(line, 3) == 3;
    assert BlankEnd(line, 2) == 2;
  }

  /** The text of a stack line's head reads back as its depth. */
  lemma StackLineRoundTrip(n: nat, rest: string)
    requires n >= 1 && !IsDigitIn(At(rest, 0), 10)
    ensures ParseStackLine("C" + Dec(n) + rest) == Depth(n - 1, BlankEnd("C" + Dec(n) + rest, 1 + |Dec(n)|))
  {
    var line := "C" + Dec(n) + rest;
    assert line[1..] == Dec(n) + rest;
    HasPrefix(line, 1, Dec(n), rest);
    if rest != [] {
      assert line[1 + |Dec(n)|] == rest[0];
    }
    assert At(line, 0) == 'C';
    assert Signed(n) == Dec(n);
    StrToLReadsSigned(line, 1, n, 1 + |Dec(n)|);
  }

  datatype NodeRef = Null | Node(id: nat)

  /** The node stack after resize(n) or erase from n. */
  function Resized(stack: seq<NodeRef>, n: nat): (r: seq<NodeRef>)
    ensures |r| == n
    ensures forall k :: 0 <= k < n && k < |stack| ==> r[k] == stack[k]
    ensures forall k :: |stack| <= k < n ==> r[k] == Null
  {
    if n > |stack| then stack + seq(n - |stack|, _ => Null) else stack[..n]
  }

  /** The stack is sorted and free of duplicates. */
  predicate Increasing(pages: seq<int>)
  {
    forall i, j :: 0 <= i < j < |pages| ==> pages[i] < pages[j]
  }

  /** std::lower_bound: the first position whose page is not below p. */
  method LowerBound(pages: seq<int>, p: int) returns (k: nat)
    requires Increasing(pages)
    ensures k <= |pages|
    ensures forall i :: 0 <= i < k ==> pages[i] < p
    ensures forall i :: k <= i < |pages| ==> pages[i] >= p
  {
    var lo, hi := 0, |pages|;
    while lo < hi
      invariant 0 <= lo <= hi <= |pages|
      invariant forall i :: 0 <= i < lo ==> pages[i] < p
      invariant forall i :: hi <= i < |pages| ==> pages[i] >= p
    {
      var mid := lo + (hi - lo) / 2;
      if pages[mid] < p {
        lo := mid + 1;
      } else {
        hi := mid;
      }
    }
    k := lo;
  }

  /** The page of an address: the arithmetic shift right by 12. */
  function Page(address: int): int
  {
    address / 4096
  }

  /** The state readDump keeps while it reads a dump: the stack of nodes
      of the current path and the pages touched by one node's leaks. */
  class DumpReader {
    var nodestack: seq<NodeRef>
    var pages: seq<int>

    constructor()
      ensures nodestack == [] && pages == []
    {
      nodestack, pages := [], [];
    }

    /** parseStackLine: a stack line sets the node stack to its depth
        minus one; anything else leaves it alone. */
    method ParseStackLineAt(line: string) returns (r: StackLine)
      modifies this
      ensures r == ParseStackLine(line)
      ensures nodestack == (if r.Depth? then Resized(old(nodestack), r.size) else old(nodestack))
      ensures pages == old(pages)
    {
      if At(line, 0) != 'C' {
        return NotStack;
      }
      var n := StrToL(line, 1, 10);
      if n.end == 1 {
        return NotStack;
      }
      var newPosition := n.value - 1;
      if newPosition < 0 {
        return BadDepth;
      }
      var next := SkipBlanks(line, n.end);
      if newPosition > |nodestack| {
        nodestack := nodestack + seq(newPosition - |nodestack|, _ => Null);
      } else {
        nodestack := nodestack[..newPosition];
      }
      r := Depth(newPosition, next);
    }

    /** A page is added once: the list stays sorted and free of
        duplicates and holds exactly the pages before and the new one. */
    method AddPage(p: int)
      requires Increasing(pages)
      modifies this
      ensures Increasing(pages) && nodestack == old(nodestack)
      ensures forall q :: q in pages <==> q in old(pages) || q == p
    {
      var k := LowerBound(pages, p);
      if k == |pages| || pages[k] != p {
        pages := pages[..k] + [p] + pages[k..];
      }
    }

    /** A leak adds its first and last page. */
    method AddLeakPages(address: int, size: int)
      requires Increasing(pages)
      modifies this
      ensures Increasing(pages) && nodestack == old(nodestack)
      ensures forall q :: q in pages <==> q in old(pages) || q == Page(address) || q == Page(address + size)
    {
      AddPage(Page(address));
      AddPage(Page(address + size));
    }
  }

  /** Steps over blanks. */
  method SkipBlanks(line: string, i: nat) returns (j: nat)
    ensures j == BlankEnd(line, i)
  {
    j := i;
    while At(line, j) == ' ' || At(line, j) == '\t'
      invariant j >= i && BlankEnd(line, i) == BlankEnd(line, j)
      decreases |line| - j
    {
      j := j + 1;
    }
  }

  // ---------------------------------------------------------------
  // Function references and definitions

  /** The position in a line that a parser reads at and moves. */
  class Position {
    var at: nat

    constructor(at0: nat)
      ensures at == at0
    {
      at := at0;
    }
  }

  datatype FunctionRef = FunctionRef(symid: nat, next: nat)

  /** parseFunctionRef as written: it rejects only when neither the F
      nor the N is there. */
  function FunctionRefAsWritten(line: string, pos: nat): Option<FunctionRef>
  {
    if At(line, pos) != 'F' && At(line, pos + 1) != 'N' then None
    else FunctionRefTail(line, pos)
  }

  /** What follows "FN": the symbol id, '+' and the offset, whose value
      is not kept since the source assigns it to a by-value parameter. */
  function FunctionRefTail(line: string, pos: nat): (r: Option<FunctionRef>)
    ensures r.Some? ==> r.value.next > pos + 3 && r.value.symid < U32
  {
    var ref := StrToL(line, pos + 2, 10);
    if ref.end == pos + 2 || At(line, ref.end) != '+' then None
    else
      var off := StrToL(line, ref.end, 10);
      if off.end == ref.end then None
      else Some(FunctionRef(ref.value % U32, BlankEnd(line, off.end)))
  }

  /** "FN<id>+<offset>" and the blanks after it; the id is converted to
      an unsigned 32-bit value. */
  function ParseFunctionRef(line: string, pos: nat): (r: Option<FunctionRef>)
    ensures r.Some? ==> At(line, pos) == 'F' && At(line, pos + 1) == 'N' && r.value.next > pos + 3
  {
    if At(line, pos) != 'F' || At(line, pos + 1) != 'N' then None
    else FunctionRefTail(line, pos)
  }

  /** "XN5+0" is taken for a function reference as written. */
  lemma FunctionRefAcceptsEitherLetter()
    ensures FunctionRefAsWritten("XN5+0", 0) == Some(FunctionRef(5, 5))
    ensures ParseFunctionRef("XN5+0", 0) == None
  {
    var line := "XN5+0";
    assert line[2..3] == Dec(5);
    StrToLReadsNatural(line, 2, 5, 3);
    assert line[3..5] == "+" + Dec(0);
    StrToLReadsPlus(line, 3, 0, 5);
    assert BlankEnd(line, 5) == 5;
  }

  function RefText(id: nat, off: nat): string
  {
    "FN" + (Dec(id) + ("+" + Dec(off)))
  }

  /** The letters "FN" and a number that stops at '+' hand on to the
      offset at j. */
  lemma FunctionRefStep(line: string, p: nat, ref: Conversion, j: nat)
    requires At(line, p) == 'F' && At(line, p + 1) == 'N'
    requires StrToL(line, p + 2, 10) == ref && ref.end != p + 2 && At(line, ref.end) == '+' && j == ref.end
    ensures ParseFunctionRef(line, p) == (var off := StrToL(line, j, 10);
      if off.end == j then None else Some(FunctionRef(ref.value % U32, BlankEnd(line, off.end))))
  {
  }

  /** A function reference in a line reads as its id; e is where its
      text ends. */
  lemma FunctionRefReads(line: string, p: nat, id: nat, off: nat, e: nat)
    requires Has(line, p, RefText(id, off)) && e == p + |RefText(id, off)| && !IsDigitIn(At(line, e), 10)
    ensures ParseFunctionRef(line, p) == Some(FunctionRef(id % U32, BlankEnd(line, e)))
  {
    var i := p + 2;
    var j := i + |Dec(id)|;
    HasSplit(line, p, "FN", Dec(id) + ("+" + Dec(off)), i);
    HasAt(line, p, "FN", 0, p);
    HasAt(line, p, "FN", 1, p + 1);
    HasSplit(line, i, Dec(id), "+" + Dec(off), j);
    HasAt(line, j, "+" + Dec(off), 0, j);
    StrToLReadsNatural(line, i, id, j);
    StrToLReadsPlus(line, j, off, e);
    FunctionRefStep(line, p, Conversion(id, j), j);
  }

  datatype FunctionDef = FunctionDef(symid: nat, next: nat)

  function FunctionDefTail(line: string, pos: nat): (r: Option<FunctionDef>)
    ensures r.Some? ==> r.value.next > pos + 4 && At(line, r.value.next - 1) == '(' && r.value.symid < U32
  {
    var ref := StrToL(line, pos + 2, 10);
    if ref.end == pos + 2 || At(line, ref.end) != '=' || At(line, ref.end + 1) != '(' then None
    else Some(FunctionDef(ref.value % U32, ref.end + 2))
  }

  /** parseFunctionDef as written: the same test of F and N. */
  function FunctionDefAsWritten(line: string, pos: nat): Option<FunctionDef>
  {
    if At(line, pos) != 'F' && At(line, pos + 1) != 'N' then None
    else FunctionDefTail(line, pos)
  }

  /** "FN<id>=(": the position moves to the name after the parenthesis. */
  function ParseFunctionDef(line: string, pos: nat): (r: Option<FunctionDef>)
    ensures r.Some? ==> At(line, pos) == 'F' && At(line, pos + 1) == 'N' && r.value.next > pos + 4
  {
    if At(line, pos) != 'F' || At(line, pos + 1) != 'N' then None
    else FunctionDefTail(line, pos)
  }

  /** "FX7=(" is taken for a function definition as written. */
  lemma FunctionDefAcceptsEitherLetter()
    ensures FunctionDefAsWritten("FX7=(", 0) == Some(FunctionDef(7, 5))
    ensures ParseFunctionDef("FX7=(", 0) == None
  {
    var line := "FX7=(";
    assert line[2..3] == Dec(7);
    StrToLReadsNatural(line, 2, 7, 3);
  }

  function DefText(id: nat): string
  {
    "FN" + (Dec(id) + "=(")
  }

  /** A function definition's head in a line reads as its id; e is where
      its text ends. */
  lemma FunctionDefReads(line: string, p: nat, id: nat, e: nat)
    requires Has(line, p, DefText(id)) && e == p + |DefText(id)|
    ensures ParseFunctionDef(line, p) == Some(FunctionDef(id % U32, e))
  {
    var i := p + 2;
    var j := i + |Dec(id)|;
    HasSplit(line, p, "FN", Dec(id) + "=(", i);
    HasAt(line, p, "FN", 0, p);
    HasAt(line, p, "FN", 1, p + 1);
    HasSplit(line, i, Dec(id), "=(", j);
    HasAt(line, j, "=(", 0, j);
    HasAt(line, j, "=(", 1, j + 1);
    StrToLReadsNatural(line, i, id, j);
  }

  // ---------------------------------------------------------------
  // Counter values

  datatype CounterValue = CounterValue(id: nat, freq: int, normal: int, peak: int, next: nat)

  /** "V<id>:(<freq>,<normal>,<peak>)" and the blanks after it; the id
      becomes a size_t. */
  function ParseCounterVal(line: string, pos: nat): (r: Option<CounterValue>)
    ensures r.Some? ==> At(line, pos) == 'V' && r.value.next > pos + 9 && r.value.id < U64
  {
    if At(line, pos) != 'V' then None
    else
      var c := StrToL(line, pos + 1, 10);
      if c.end == pos + 1 || At(line, c.end) != ':' || At(line, c.end + 1) != '(' then None
      else CounterFreq(line, c.end + 2, Wrap(c.value))
  }

  /** The three numbers after "V<id>:(". */
  function CounterFreq(line: string, i: nat, id: nat): (r: Option<CounterValue>)
    ensures r.Some? ==> r.value.next >= i + 6 && r.value.id == id
  {
    var a := StrToL(line, i, 10);
    if a.end == i || At(line, a.end) != ',' then None
    else CounterNormal(line, a.end + 1, id, a.value)
  }

  function CounterNormal(line: string, i: nat, id: nat, freq: int): (r: Option<CounterValue>)
    ensures r.Some? ==> r.value.next >= i + 4 && r.value.id == id && r.value.freq == freq
  {
    var b := StrToL(line, i, 10);
    if b.end == i || At(line, b.end) != ',' then None
    else CounterPeak(line, b.end + 1, id, freq, b.value)
  }

  function CounterPeak(line: string, i: nat, id: nat, freq: int, normal: int): (r: Option<CounterValue>)
    ensures r.Some? ==> r.value.next >= i + 2 && r.value.id == id && r.value.freq == freq && r.value.normal == normal
  {
    var k := StrToL(line, i, 10);
    if k.end == i || At(line, k.end) != ')' then None
    else Some(CounterValue(id, freq, normal, k.value, BlankEnd(line, k.end + 1)))
  }

  /** The text of a counter value. */
  function CounterText(id: nat, freq: int, normal: int, peak: int): string
  {
    "V" + (Dec(id) + (":(" + CountsText(freq, normal, peak)))
  }

  function CountsText(freq: int, normal: int, peak: int): string
  {
    Signed(freq) + ([','] + (Signed(normal) + ([','] + (Signed(peak) + [')']))))
  }

  /** A signed number that ends at j, followed by a one-character
      separator and more text at k. */
  lemma ReadsThen(line: string, i: nat, v: int, sep: char, more: string, j: nat, k: nat)
    requires Has(line, i, Signed(v) + ([sep] + more)) && !IsDigitIn(sep, 10)
    requires j == i + |Signed(v)| && k == j + 1
    ensures StrToL(line, i, 10) == Conversion(v, j)
    ensures At(line, j) == sep
    ensures Has(line, k, more)
  {
    HasSplit(line, i, Signed(v), [sep] + more, j);
    HasSplit(line, j, [sep], more, k);
    HasAt(line, j, [sep], 0, j);
    StrToLReadsSigned(line, i, v, j);
  }

  /** A signed number that ends at j, followed by a last separator. */
  lemma ReadsLast(line: string, i: nat, v: int, sep: char, j: nat)
    requires Has(line, i, Signed(v) + [sep]) && !IsDigitIn(sep, 10) && j == i + |Signed(v)|
    ensures StrToL(line, i, 10) == Conversion(v, j)
    ensures At(line, j) == sep
  {
    HasSplit(line, i, Signed(v), [sep], j);
    HasAt(line, j, [sep], 0, j);
    StrToLReadsSigned(line, i, v, j);
  }

  /** "V", a number and ":(" hand on to the three numbers at i. */
  lemma CounterStep(line: string, p: nat, c: Conversion, i: nat)
    requires At(line, p) == 'V' && StrToL(line, p + 1, 10) == c && c.end != p + 1
    requires At(line, c.end) == ':' && At(line, c.end + 1) == '(' && i == c.end + 2
    ensures ParseCounterVal(line, p) == CounterFreq(line, i, Wrap(c.value))
  {
  }

  lemma FreqStep(line: string, i: nat, id: nat, a: Conversion, k: nat)
    requires StrToL(line, i, 10) == a && a.end != i && At(line, a.end) == ',' && k == a.end + 1
    ensures CounterFreq(line, i, id) == CounterNormal(line, k, id, a.value)
  {
  }

  lemma NormalStep(line: string, i: nat, id: nat, freq: int, b: Conversion, k: nat)
    requires StrToL(line, i, 10) == b && b.end != i && At(line, b.end) == ',' && k == b.end + 1
    ensures CounterNormal(line, i, id, freq) == CounterPeak(line, k, id, freq, b.value)
  {
  }

  lemma PeakStep(line: string, i: nat, id: nat, freq: int, normal: int, c: Conversion, e: nat)
    requires StrToL(line, i, 10) == c && c.end != i && At(line, c.end) == ')' && e == c.end + 1
    ensures CounterPeak(line, i, id, freq, normal) == Some(CounterValue(id, freq, normal, c.value, BlankEnd(line, e)))
  {
  }

  /** The three numbers read back; e is where the closing parenthesis
      ends. */
  lemma CountsRead(line: string, i: nat, id: nat, freq: int, normal: int, peak: int, e: nat)
    requires Has(line, i, CountsText(freq, normal, peak))
    requires e == i + |Signed(freq)| + 1 + |Signed(normal)| + 1 + |Signed(peak)| + 1
    ensures CounterFreq(line, i, id) == Some(CounterValue(id, freq, normal, peak, BlankEnd(line, e)))
  {
    var j := i + |Signed(freq)|;
    var k := j + 1;
    ReadsThen(line, i, freq, ',', Signed(normal) + ([','] + (Signed(peak) + [')'])), j, k);
    FreqStep(line, i, id, Conversion(freq, j), k);
    NormalRead(line, k, id, freq, normal, peak, e);
  }

  lemma NormalRead(line: string, i: nat, id: nat, freq: int, normal: int, peak: int, e: nat)
    requires Has(line, i, Signed(normal) + ([','] + (Signed(peak) + [')'])))
    requires e == i + |Signed(normal)| + 1 + |Signed(peak)| + 1
    ensures CounterNormal(line, i, id, freq) == Some(CounterValue(id, freq, normal, peak, BlankEnd(line, e)))
  {
    var j := i + |Signed(normal)|;
    var k := j + 1;
    ReadsThen(line, i, normal, ',', Signed(peak) + [')'], j, k);
    NormalStep(line, i, id, freq, Conversion(normal, j), k);
    PeakRead(line, k, id, freq, normal, peak, e);
  }

  lemma PeakRead(line: string, i: nat, id: nat, freq: int, normal: int, peak: int, e: nat)
    requires Has(line, i, Signed(peak) + [')'])
    requires e == i + |Signed(peak)| + 1
    ensures CounterPeak(line, i, id, freq, normal) == Some(CounterValue(id, freq, normal, peak, BlankEnd(line, e)))
  {
    var j := i + |Signed(peak)|;
    ReadsLast(line, i, peak, ')', j);
    PeakStep(line, i, id, freq, normal, Conversion(peak, j), e);
  }

  /** A counter value in a line reads as its four numbers; e is where
      its text ends. */
  lemma CounterValReads(line: string, p: nat, id: nat, freq: int, normal: int, peak: int, e: nat)
    requires Has(line, p, CounterText(id, freq, normal, peak)) && e == p + |CounterText(id, freq, normal, peak)|
    ensures ParseCounterVal(line, p) == Some(CounterValue(Wrap(id), freq, normal, peak, BlankEnd(line, e)))
  {
    var i := p + 1 + |Dec(id)| + 2;
    CounterHead(line, p, id, CountsText(freq, normal, peak), i);
    CounterTextLength(id, freq, normal, peak);
    CountsRead(line, i, Wrap(id), freq, normal, peak, e);
  }

  /** "V<id>:(" reads as the id and hands on to the three numbers at i. */
  lemma CounterHead(line: string, p: nat, id: nat, m: string, i: nat)
    requires Has(line, p, "V" + (Dec(id) + (":(" + m))) && i == p + 1 + |Dec(id)| + 2
    ensures ParseCounterVal(line, p) == CounterFreq(line, i, Wrap(id))
    ensures Has(line, i, m)
  {
    var q := p + 1;
    var c := q + |Dec(id)|;
    HasSplit(line, p, "V", Dec(id) + (":(" + m), q);
    HasAt(line, p, "V", 0, p);
    HasSplit(line, q, Dec(id), ":(" + m, c);
    HasSplit(line, c, ":(", m, i);
    HasAt(line, c, ":(", 0, c);
    HasAt(line, c, ":(", 1, c + 1);
    StrToLReadsNatural(line, q, id, c);
    CounterStep(line, p, Conversion(id, c), i);
  }

  lemma CounterTextLength(id: nat, freq: int, normal: int, peak: int)
    ensures |CounterText(id, freq, normal, peak)| == 1 + |Dec(id)| + 2 + |Signed(freq)| + 1 + |Signed(normal)| + 1 + |Signed(peak)| + 1
  {
  }

  // ---------------------------------------------------------------
  // Leaks

  datatype Leak = Leak(address: int, size: int, next: nat)

  predicate LeakHead(line: string, pos: nat)
  {
    At(line, pos) == ';' && At(line, pos + 1) == 'L' && At(line, pos + 2) == 'K' && At(line, pos + 3) == '='
    && At(line, pos + 4) == '(' && At(line, pos + 5) == '0' && At(line, pos + 6) == 'x'
  }

  /** parseLeak as written: its check for a missing size compares the
      wrong pointers, which can never be equal there, so a leak without
      a size is read with size 0. */
  function LeakAsWritten(line: string, pos: nat): Option<Leak>
  {
    if !LeakHead(line, pos) then None
    else
      var a := StrToL(line, pos + 7, 16);
      if a.end == pos + 7 || At(line, a.end) != ',' then None
      else
        var s := StrToL(line, a.end + 1, 10);
        if a.end + 1 == pos + 7 || At(line, s.end) != ')' then None
        else Some(Leak(a.value, s.value, BlankEnd(line, s.end + 1)))
  }

  /** ";LK=(0x<hex>,<dec>)" and the blanks after it. */
  function ParseLeak(line: string, pos: nat): (r: Option<Leak>)
    ensures r.Some? ==> LeakHead(line, pos) && r.value.next > pos + 10
  {
    if !LeakHead(line, pos) then None
    else LeakAddress(line, pos + 7)
  }

  function LeakAddress(line: string, i: nat): (r: Option<Leak>)
    ensures r.Some? ==> r.value.next >= i + 4
  {
    var a := StrToL(line, i, 16);
    if a.end == i || At(line, a.end) != ',' then None
    else LeakSize(line, a.end + 1, a.value)
  }

  function LeakSize(line: string, i: nat, address: int): (r: Option<Leak>)
    ensures r.Some? ==> r.value.next >= i + 2 && r.value.address == address
  {
    var s := StrToL(line, i, 10);
    if s.end == i || At(line, s.end) != ')' then None
    else Some(Leak(address, s.value, BlankEnd(line, s.end + 1)))
  }

  /** ";LK=(0x10,)" has no size, yet the written parser reads one. */
  lemma LeakWithoutSize()
    ensures LeakAsWritten(";LK=(0x10,)", 0) == Some(Leak(16, 0, 11))
    ensures ParseLeak(";LK=(0x10,)", 0) == None
  {
    var line := ";LK=(0x10,)";
    assert SpaceEnd(line, 7) == 7;
    assert DigitsStart(line, 7, 16) == 7;
    assert DigitEnd(line, 7, 16) == 9;
    assert ValueAt(line, 7, 9, 16) == ValueAt(line, 7, 8, 16) * 16;
    assert ValueAt(line, 7, 8, 16) == ValueAt(line, 7, 7, 16) * 16 + 1;
    assert SpaceEnd(line, 10) == 10;
    assert DigitEnd(line, 10, 10) == 10;
    assert BlankEnd(line, 11) == 11;
  }

  function LeakText(address: nat, size: int): string
  {
    ";LK=(0x" + (FastOutput.HexText(address) + ([','] + (Signed(size) + [')'])))
  }

  /** ";LK=(0x" hands on to the address at i. */
  lemma LeakHeadRead(line: string, p: nat, m: string, i: nat)
    requires Has(line, p, ";LK=(0x" + m) && i == p + 7
    ensures ParseLeak(line, p) == LeakAddress(line, i)
    ensures Has(line, i, m)
  {
    HasSplit(line, p, ";LK=(0x", m, i);
    forall k | 0 <= k < 7
      ensures At(line, p + k) == ";LK=(0x"[k]
    {
      HasAt(line, p, ";LK=(0x", k, p + k);
    }
    assert LeakHead(line, p);
  }

  lemma AddressStep(line: string, i: nat, a: Conversion, k: nat)
    requires StrToL(line, i, 16) == a && a.end != i && At(line, a.end) == ',' && k == a.end + 1
    ensures LeakAddress(line, i) == LeakSize(line, k, a.value)
  {
  }

  lemma SizeStep(line: string, i: nat, address: int, s: Conversion, e: nat)
    requires StrToL(line, i, 10) == s && s.end != i && At(line, s.end) == ')' && e == s.end + 1
    ensures LeakSize(line, i, address) == Some(Leak(address, s.value, BlankEnd(line, e)))
  {
  }

  lemma LeakTextLength(address: nat, size: int)
    ensures |LeakText(address, size)| == 7 + |FastOutput.HexText(address)| + 1 + |Signed(size)| + 1
  {
  }

  /** A leak in a line reads as its address and size; e is where its
      text ends. */
  lemma LeakReads(line: string, p: nat, address: nat, size: int, e: nat)
    requires Has(line, p, LeakText(address, size)) && e == p + |LeakText(address, size)|
    ensures ParseLeak(line, p) == Some(Leak(address, size, BlankEnd(line, e)))
  {
    var h := FastOutput.HexText(address);
    var i := p + 7;
    var a := i + |h|;
    var k := a + 1;
    var j := k + |Signed(size)|;
    LeakHeadRead(line, p, h + ([','] + (Signed(size) + [')'])), i);
    HasSplit(line, i, h, [','] + (Signed(size) + [')']), a);
    HasSplit(line, a, [','], Signed(size) + [')'], k);
    HasAt(line, a, [','], 0, a);
    StrToLReadsHex(line, i, address, a);
    AddressStep(line, i, Conversion(address, a), k);
    ReadsLast(line, k, size, ')', j);
    LeakTextLength(address, size);
    SizeStep(line, k, address, Conversion(size, j), e);
  }

  // ---------------------------------------------------------------
  // The parsers on a position

  /** parseFunctionRef: on success the id is returned and the position
      moves past the reference; otherwise the position is unchanged. */
  method FunctionRefAt(line: string, pos: Position) returns (ok: bool, symid: nat)
    modifies pos
    ensures var r := ParseFunctionRef(line, old(pos.at));
      ok == r.Some? && (ok ==> symid == r.value.symid && pos.at == r.value.next) && (!ok ==> pos.at == old(pos.at))
  {
    var p := pos.at;
    ok, symid := false, 0;
    if At(line, p) != 'F' || At(line, p + 1) != 'N' {
      return;
    }
    var ref := StrToL(line, p + 2, 10);
    if ref.end == p + 2 || At(line, ref.end) != '+' {
      return;
    }
    var j := ref.end;
    FunctionRefStep(line, p, ref, j);
    var off := StrToL(line, j, 10);
    if off.end == j {
      return;
    }
    symid := ref.value % U32;
    var next := SkipBlanks(line, off.end);
    pos.at := next;
    ok := true;
  }

  /** parseFunctionDef. */
  method FunctionDefAt(line: string, pos: Position) returns (ok: bool, symid: nat)
    modifies pos
    ensures var r := ParseFunctionDef(line, old(pos.at));
      ok == r.Some? && (ok ==> symid == r.value.symid && pos.at == r.value.next) && (!ok ==> pos.at == old(pos.at))
  {
    var p := pos.at;
    ok, symid := false, 0;
    if At(line, p) != 'F' || At(line, p + 1) != 'N' {
      return;
    }
    var ref := StrToL(line, p + 2, 10);
    if ref.end == p + 2 || At(line, ref.end) != '=' || At(line, ref.end + 1) != '(' {
      return;
    }
    symid := ref.value % U32;
    pos.at := ref.end + 2;
    ok := true;
  }

  /** parseCounterVal: the three numbers are read in turn by the
      methods below. */
  method CounterValAt(line: string, pos: Position) returns (ok: bool, value: CounterValue)
    modifies pos
    ensures var r := ParseCounterVal(line, old(pos.at));
      ok == r.Some? && (ok ==> value == r.value && pos.at == r.value.next) && (!ok ==> pos.at == old(pos.at))
  {
    var p := pos.at;
    ok, value := false, CounterValue(0, 0, 0, 0, p);
    if At(line, p) != 'V' {
      return;
    }
    var c := StrToL(line, p + 1, 10);
    if c.end == p + 1 || At(line, c.end) != ':' || At(line, c.end + 1) != '(' {
      return;
    }
    var i := c.end + 2;
    CounterStep(line, p, c, i);
    var r := ReadCounts(line, i, Wrap(c.value));
    if r.Some? {
      ok, value := true, r.value;
      pos.at := value.next;
    }
  }

  /** The frequency, then the rest. */
  method ReadCounts(line: string, i: nat, id: nat) returns (r: Option<CounterValue>)
    ensures r == CounterFreq(line, i, id)
  {
    var a := StrToL(line, i, 10);
    if a.end == i || At(line, a.end) != ',' {
      return None;
    }
    var k := a.end + 1;
    FreqStep(line, i, id, a, k);
    r := ReadNormal(line, k, id, a.value);
  }

  /** The normal value, then the peak. */
  method ReadNormal(line: string, i: nat, id: nat, freq: int) returns (r: Option<CounterValue>)
    ensures r == CounterNormal(line, i, id, freq)
  {
    var b := StrToL(line, i, 10);
    if b.end == i || At(line, b.end) != ',' {
      return None;
    }
    var k := b.end + 1;
    NormalStep(line, i, id, freq, b, k);
    r := ReadPeak(line, k, id, freq, b.value);
  }

  /** The peak value, the closing parenthesis and the blanks after it. */
  method ReadPeak(line: string, i: nat, id: nat, freq: int, normal: int) returns (r: Option<CounterValue>)
    ensures r == CounterPeak(line, i, id, freq, normal)
  {
    var c := StrToL(line, i, 10);
    if c.end == i || At(line, c.end) != ')' {
      return None;
    }
    var e := c.end + 1;
    PeakStep(line, i, id, freq, normal, c, e);
    var next := SkipBlanks(line, e);
    r := Some(CounterValue(id, freq, normal, c.value, next));
  }

  /** parseLeak. */
  method LeakAt(line: string, pos: Position) returns (ok: bool, leak: Leak)
    modifies pos
    ensures var r := ParseLeak(line, old(pos.at));
      ok == r.Some? && (ok ==> leak == r.value && pos.at == r.value.next) && (!ok ==> pos.at == old(pos.at))
  {
    var p := pos.at;
    ok, leak := false, Leak(0, 0, p);
    if !LeakHead(line, p) {
      return;
    }
    var i := p + 7;
    var a := StrToL(line, i, 16);
    if a.end == i || At(line, a.end) != ',' {
      return;
    }
    var k := a.end + 1;
    AddressStep(line, i, a, k);
    var s := StrToL(line, k, 10);
    if s.end == k || At(line, s.end) != ')' {
      return;
    }
    var e := s.end + 1;
    SizeStep(line, k, a.value, s, e);
    var next := SkipBlanks(line, e);
    leak := Leak(a.value, s.value, next);
    pos.at := next;
    ok := true;
  }
}
