/** The memory-mapping tracer's small sprintf, taken from the Linux
    kernel so that it never takes a lock: conversions %s, %p, %d, %u, %x
    and %%, an optional '-' flag, a width, a '.' precision and an 'l' or
    'L' qualifier. Output goes through a cursor that keeps counting past
    the end of the buffer, so the result is the untruncated length while
    nothing is written outside the buffer. The buffer is an array whose
    length is the len argument; the format is its text before the
    terminating NUL, and the variadic arguments are a sequence. */
module MiniPrintf {
  import opened FastOutput
  import Sequences

  const U64: nat := 0x1_0000_0000_0000_0000
  const U32: nat := 0x1_0000_0000
  const NUL: char := 0 as char

  /** The ZEROPAD, LEFT and SIGN flag bits. */
  datatype Flags = Flags(zeroPad: bool, left: bool, sign: bool)

  /** One variadic argument: its value as an integer (a pointer's
      address for %s and %p) and, for %s, the text it points to. */
  datatype Arg = Arg(value: int, text: seq<char>)

  /** A parsed conversion: at is the index of the conversion character
      (NUL past the end of the format). qualifier is NUL when absent. */
  datatype Directive = Directive(flags: Flags, width: int, precision: int, qualifier: char, at: nat)

  function Repeat(c: char, n: nat): (r: seq<char>)
    ensures |r| == n && forall i :: 0 <= i < n ==> r[i] == c
  {
    seq(n, _ => c)
  }

  function Pad(n: int): nat
  {
    if n > 0 then n else 0
  }

  /** The buffer after writing t at cur: only the positions inside the
      buffer are written. */
  function Written(b: seq<char>, cur: nat, t: seq<char>): (r: seq<char>)
    ensures |r| == |b|
    ensures forall k :: 0 <= k < |b| ==> r[k] == if cur <= k < cur + |t| then t[k - cur] else b[k]
  {
    seq(|b|, k requires 0 <= k < |b| => if cur <= k < cur + |t| then t[k - cur] else b[k])
  }

  lemma WrittenConcat(b: seq<char>, cur: nat, t1: seq<char>, t2: seq<char>)
    ensures Written(Written(b, cur, t1), cur + |t1|, t2) == Written(b, cur, t1 + t2)
  {
  }

  /** The digits of v in the base, most significant first, "0" for 0. */
  function Numeral(v: nat, base: nat): (r: seq<char>)
    requires base == 10 || base == 16
    ensures |r| >= 1
  {
    if v == 0 then "0" else Digs(v, base)
  }

  function Digs(v: nat, base: nat): (r: seq<char>)
    requires base == 10 || base == 16
    ensures v > 0 ==> |r| >= 1
  {
    if v == 0 then [] else Digs(v / base, base) + [Digit(v % base)]
  }

  function BaseValue(s: seq<char>, base: nat): nat
  {
    if s == [] then 0 else BaseValue(s[..|s| - 1], base) * base + DigitValue(s[|s| - 1])
  }

  lemma {:induction false} DigsRoundTrip(v: nat, base: nat)
    requires base == 10 || base == 16
    ensures BaseValue(Digs(v, base), base) == v
    decreases v
  {
    if v > 0 {
      DigsRoundTrip(v / base, base);
      DigsStep(v, base);
    }
  }

  /** The last digit of a numeral is the remainder and the rest is the
      quotient's numeral. */
  lemma DigsStep(v: nat, base: nat)
    requires (base == 10 || base == 16) && v > 0
    ensures BaseValue(Digs(v, base), base) == BaseValue(Digs(v / base, base), base) * base + v % base
  {
    var s := Digs(v, base);
    assert s[..|s| - 1] == Digs(v / base, base);
    DigitRoundTrip(v % base);
  }

  /** Leading zeros do not change a numeral's value. */
  lemma {:induction false} LeadingZeros(n: nat, s: seq<char>, base: nat)
    ensures BaseValue(Repeat('0', n) + s, base) == BaseValue(s, base)
    decreases |s|
  {
    if s == [] {
      ZerosValue(n, base);
      assert Repeat('0', n) + s == Repeat('0', n);
    } else {
      assert (Repeat('0', n) + s)[..n + |s| - 1] == Repeat('0', n) + s[..|s| - 1];
      LeadingZeros(n, s[..|s| - 1], base);
    }
  }

  lemma {:induction false} ZerosValue(n: nat, base: nat)
    ensures BaseValue(Repeat('0', n), base) == 0
  {
    if n > 0 {
      assert Repeat('0', n)[..n - 1] == Repeat('0', n - 1);
      ZerosValue(n - 1, base);
    }
  }

  /** A numeral reads back as its value. */
  lemma NumeralRoundTrip(v: nat, base: nat)
    requires base == 10 || base == 16
    ensures BaseValue(Numeral(v, base), base) == v
  {
    DigsRoundTrip(v, base);
  }

  /** The value xntoa prints and whether a '-' goes before it: with SIGN,
      a value that is negative as a signed 64-bit number is negated. */
  function Magnitude(num: nat, flags: Flags): (r: (nat, bool))
    requires num < U64
    ensures r.0 < U64 && (r.1 <==> flags.sign && num >= 0x8000_0000_0000_0000)
    ensures r.1 ==> r.0 == U64 - num
  {
    if flags.sign && num >= 0x8000_0000_0000_0000 then (U64 - num, true) else (num, false)
  }

  /** What xntoa writes: padding, sign, zero padding, the zeros the
      precision asks for, the digits, and for LEFT the padding after
      them. LEFT clears ZEROPAD. */
  function NumText(num: nat, base: nat, width: int, precision: int, flags: Flags): seq<char>
    requires num < U64 && (base == 10 || base == 16)
  {
    var f := if flags.left then flags.(zeroPad := false) else flags;
    var mn := Magnitude(num, f);
    Layout(f, mn.1, Numeral(mn.0, base), width, precision)
  }

  /** The layout of digits d with the sign, width and precision: the
      precision is raised to the number of digits, and the sign takes
      one column of the width. */
  function Layout(f: Flags, neg: bool, d: seq<char>, width: int, precision: int): seq<char>
  {
    var p := DigitCount(d, precision);
    var w := (if neg then width - 1 else width) - p;
    HeadText(f, w, neg) + TailText(f, w, p, d)
  }

  /** The number of digits written: the precision, raised to the number
      of digits. */
  function DigitCount(d: seq<char>, precision: int): (p: nat)
    ensures p >= |d| && p >= precision
  {
    if |d| > precision then |d| else precision
  }

  /** Space padding unless ZEROPAD or LEFT, then the sign. */
  function HeadText(f: Flags, w: int, neg: bool): seq<char>
  {
    (if !f.zeroPad && !f.left then Repeat(' ', Pad(w)) else []) + (if neg then "-" else [])
  }

  /** Zero padding for ZEROPAD, the precision's zeros, the digits, and
      space padding after them for LEFT. */
  function TailText(f: Flags, w: int, p: int, d: seq<char>): seq<char>
  {
    (if !f.left && f.zeroPad then Repeat('0', Pad(w)) else []) +
    Repeat('0', Pad(p - |d|)) + d +
    (if f.left then Repeat(' ', Pad(w)) else [])
  }

  /** The width is a minimum, and the precision a minimum number of
      digits. */
  lemma LayoutLength(f: Flags, neg: bool, d: seq<char>, width: int, precision: int)
    requires !f.left || !f.zeroPad
    ensures var body := (if neg then 1 else 0) + (if |d| > precision then |d| else precision);
      |Layout(f, neg, d, width, precision)| == if width > body then width else body
  {
  }

  /** The layout has a '-' exactly when the value is negative, for
      digits without one. */
  lemma LayoutSign(f: Flags, neg: bool, d: seq<char>, width: int, precision: int)
    requires forall i :: 0 <= i < |d| ==> d[i] != '-'
    ensures '-' in Layout(f, neg, d, width, precision) <==> neg
  {
    var p := DigitCount(d, precision);
    var w := (if neg then width - 1 else width) - p;
    TailUnsigned(f, w, p, d);
    if neg {
      assert HeadText(f, w, neg)[|HeadText(f, w, neg)| - 1] == '-';
    }
  }

  lemma TailUnsigned(f: Flags, w: int, p: int, d: seq<char>)
    requires forall i :: 0 <= i < |d| ==> d[i] != '-'
    ensures '-' !in TailText(f, w, p, d)
  {
    var t := TailText(f, w, p, d);
    forall i | 0 <= i < |t|
      ensures t[i] != '-'
    {
    }
  }

  /** t ends with d. */
  predicate EndsIn(t: seq<char>, d: seq<char>)
  {
    |d| <= |t| && t[|t| - |d|..] == d
  }

  /** Without LEFT the layout ends with the digits after the precision's
      zeros. */
  lemma LayoutDigits(f: Flags, neg: bool, d: seq<char>, width: int, precision: int)
    requires !f.left
    ensures var t := Layout(f, neg, d, width, precision);
      var p := DigitCount(d, precision);
      p <= |t| && t[|t| - p..] == Repeat('0', p - |d|) + d && EndsIn(t, d)
  {
    var p := DigitCount(d, precision);
    var w := (if neg then width - 1 else width) - p;
    var x := HeadText(f, w, neg) + (if f.zeroPad then Repeat('0', Pad(w)) else []);
    var z := Repeat('0', p - |d|);
    LayoutSplit(f, neg, d, width, precision);
    EndsWith(x + z, d);
    EndsWith(x, z + d);
  }

  lemma LayoutSplit(f: Flags, neg: bool, d: seq<char>, width: int, precision: int)
    requires !f.left
    ensures var p := DigitCount(d, precision);
      var w := (if neg then width - 1 else width) - p;
      var x := HeadText(f, w, neg) + (if f.zeroPad then Repeat('0', Pad(w)) else []);
      var z := Repeat('0', p - |d|);
      Layout(f, neg, d, width, precision) == (x + z) + d == x + (z + d)
  {
  }

  lemma EndsWith(x: seq<char>, y: seq<char>)
    ensures (x + y)[|x + y| - |y|..] == y
  {
  }

  /** The width is a minimum and the precision a minimum number of
      digits; a sign takes one more column. */
  lemma NumTextLength(num: nat, base: nat, width: int, precision: int, flags: Flags)
    requires num < U64 && (base == 10 || base == 16)
    ensures var mn := Magnitude(num, flags);
      var d := Numeral(mn.0, base);
      var body := (if mn.1 then 1 else 0) + (if |d| > precision then |d| else precision);
      |NumText(num, base, width, precision, flags)| == if width > body then width else body
  {
    var f := if flags.left then flags.(zeroPad := false) else flags;
    assert Magnitude(num, f) == Magnitude(num, flags);
    var mn := Magnitude(num, f);
    LayoutLength(f, mn.1, Numeral(mn.0, base), width, precision);
  }

  /** The text has a '-' exactly when SIGN finds the value negative. */
  lemma NumTextSign(num: nat, base: nat, width: int, precision: int, flags: Flags)
    requires num < U64 && (base == 10 || base == 16)
    ensures '-' in NumText(num, base, width, precision, flags) <==> Magnitude(num, flags).1
  {
    var f := if flags.left then flags.(zeroPad := false) else flags;
    assert Magnitude(num, f) == Magnitude(num, flags);
    var mn := Magnitude(num, f);
    NumeralChars(mn.0, base);
    LayoutSign(f, mn.1, Numeral(mn.0, base), width, precision);
  }

  /** Without LEFT the text ends with the digits. */
  lemma NumTextDigits(num: nat, base: nat, width: int, precision: int, flags: Flags)
    requires num < U64 && (base == 10 || base == 16) && !flags.left
    ensures EndsIn(NumText(num, base, width, precision, flags), Numeral(Magnitude(num, flags).0, base))
  {
    var mn := Magnitude(num, flags);
    var d := Numeral(mn.0, base);
    NumTextLayout(num, base, width, precision, flags, mn, d);
    LayoutDigits(flags, mn.1, d, width, precision);
  }

  /** The last p characters of t read back as v. */
  predicate EndsWithValue(t: seq<char>, p: nat, base: nat, v: nat)
  {
    p <= |t| && BaseValue(t[|t| - p..], base) == v
  }

  /** Without LEFT the last p characters of the layout, the precision's
      zeros and the digits, read back as the value. */
  lemma LayoutReadsBack(f: Flags, neg: bool, d: seq<char>, width: int, precision: int, v: nat, base: nat)
    requires !f.left && (base == 10 || base == 16) && d == Numeral(v, base)
    ensures EndsWithValue(Layout(f, neg, d, width, precision), DigitCount(d, precision), base, v)
  {
    var p := DigitCount(d, precision);
    LayoutDigits(f, neg, d, width, precision);
    TailReadsBack(Layout(f, neg, d, width, precision), p, Repeat('0', p - |d|), d, v, base);
  }

  /** Without LEFT the last p characters of the text, the precision's
      zeros and the digits, read back as the magnitude. */
  lemma NumTextReadsBack(num: nat, base: nat, width: int, precision: int, flags: Flags)
    requires num < U64 && (base == 10 || base == 16) && !flags.left
    ensures EndsWithValue(NumText(num, base, width, precision, flags),
                          DigitCount(Numeral(Magnitude(num, flags).0, base), precision), base,
                          Magnitude(num, flags).0)
  {
    var mn := Magnitude(num, flags);
    var d := Numeral(mn.0, base);
    NumTextLayout(num, base, width, precision, flags, mn, d);
    LayoutReadsBack(flags, mn.1, d, width, precision, mn.0, base);
  }

  /** A text that ends with p characters of zeros and a numeral reads
      back, over those p characters, as the numeral's value. */
  lemma TailReadsBack(t: seq<char>, p: nat, z: seq<char>, d: seq<char>, v: nat, base: nat)
    requires (base == 10 || base == 16) && d == Numeral(v, base)
    requires p <= |t| && p >= |d| && z == Repeat('0', p - |d|) && t[|t| - p..] == z + d
    ensures BaseValue(t[|t| - p..], base) == v
  {
    ZerosThenNumeral(v, base, d, p, z);
  }

  lemma ZerosThenNumeral(v: nat, base: nat, d: seq<char>, p: nat, z: seq<char>)
    requires (base == 10 || base == 16) && d == Numeral(v, base) && p >= |d| && z == Repeat('0', p - |d|)
    ensures BaseValue(z + d, base) == v
  {
    LeadingZeros(p - |d|, d, base);
    NumeralRoundTrip(v, base);
  }

  lemma NumTextLayout(num: nat, base: nat, width: int, precision: int, flags: Flags, mn: (nat, bool), d: seq<char>)
    requires num < U64 && (base == 10 || base == 16) && !flags.left
    requires mn == Magnitude(num, flags) && d == Numeral(mn.0, base)
    ensures NumText(num, base, width, precision, flags) == Layout(flags, mn.1, d, width, precision)
  {
  }

  lemma NumeralChars(v: nat, base: nat)
    requires base == 10 || base == 16
    ensures forall i :: 0 <= i < |Numeral(v, base)| ==> Numeral(v, base)[i] in "0123456789abcdef"
  {
    if v > 0 {
      DigsChars(v, base);
    }
  }

  lemma {:induction false} DigsChars(v: nat, base: nat)
    requires base == 10 || base == 16
    ensures forall i :: 0 <= i < |Digs(v, base)| ==> Digs(v, base)[i] in "0123456789abcdef"
    decreases v
  {
    if v > 0 {
      DigsChars(v / base, base);
    }
  }

  /** LEFT overrides ZEROPAD, and zero prints as "0". */
  lemma LeftClearsZeroPad(num: nat, base: nat, width: int, precision: int, flags: Flags)
    requires num < U64 && (base == 10 || base == 16)
    ensures NumText(num, base, width, precision, flags.(left := true, zeroPad := true)) ==
            NumText(num, base, width, precision, flags.(left := true, zeroPad := false))
  {
  }

  lemma ZeroPrintsZero(base: nat, flags: Flags)
    requires base == 10 || base == 16
    ensures NumText(0, base, -1, -1, flags) == "0"
  {
  }

  /** The first remainder of xntoa's digit loop as written: lldiv divides
      the unsigned value as a signed long long, truncating toward zero. */
  function FirstRemainderAsWritten(num: nat, base: nat): int
    requires num < U64 && base > 0
  {
    var s := if num >= 0x8000_0000_0000_0000 then num - U64 else num;
    if s >= 0 then s % base else -((-s) % base)
  }

  /** An unsigned value at or above 2^63, such as %lx of ~0UL, gives a
      negative remainder, which indexes before the digits table. */
  lemma LldivIndexesBeforeDigits()
    ensures FirstRemainderAsWritten(0xffff_ffff_ffff_ffff, 16) == -1
  {
  }

  function At(f: seq<char>, k: nat): char
  {
    if k < |f| then f[k] else NUL
  }

  predicate IsDigit(c: char)
  {
    '0' <= c <= '9'
  }

  /** The end of the run of digits at k. */
  function RunEnd(f: seq<char>, k: nat): (e: nat)
    requires k <= |f|
    ensures k <= e <= |f| && (e == |f| || !IsDigit(f[e]))
    ensures forall j :: k <= j < e ==> IsDigit(f[j])
    decreases |f| - k
  {
    if k < |f| && IsDigit(f[k]) then RunEnd(f, k + 1) else k
  }

  /** The maximal run of digits at k: its value and its end. */
  function DigitRun(f: seq<char>, k: nat): (r: (nat, nat))
    requires k <= |f|
    ensures k <= r.1 <= |f|
  {
    var e := RunEnd(f, k);
    (BaseValue(f[k..e], 10), e)
  }

  /** xatoi: consumes the maximal run of digits at k and returns its
      decimal value. */
  method XAtoi(f: seq<char>, k: nat) returns (i: nat, k': nat)
    requires k <= |f|
    ensures k <= k' <= |f| && (k' == |f| || !IsDigit(f[k'])) && forall j :: k <= j < k' ==> IsDigit(f[j])
    ensures i == BaseValue(f[k..k'], 10)
    ensures (i, k') == DigitRun(f, k)
  {
    i := 0;
    k' := k;
    while k' < |f| && IsDigit(f[k'])
      invariant k <= k' <= |f| && forall j :: k <= j < k' ==> IsDigit(f[j])
      invariant i == BaseValue(f[k..k'], 10)
    {
      assert f[k..k' + 1][..k' - k] == f[k..k'];
      i := i * 10 + DigitValue(f[k']);
      k' := k' + 1;
    }
    RunUnique(f, k, k');
  }

  lemma RunUnique(f: seq<char>, k: nat, e: nat)
    requires k <= e <= |f| && (e == |f| || !IsDigit(f[e])) && forall j :: k <= j < e ==> IsDigit(f[j])
    ensures RunEnd(f, k) == e
  {
    var e' := RunEnd(f, k);
    if e' < e {
      assert false;
    } else if e < e' {
      assert false;
    }
  }

  /** The directive after a '%' at k - 1: '-', width digits, '.' and
      precision digits, an 'l' or 'L'. There is no '0' flag: a width
      written with a leading 0 still pads with spaces. */
  function ParseDirective(f: seq<char>, k: nat): (d: Directive)
    requires k <= |f|
    ensures k <= d.at <= |f|
  {
    var left := At(f, k) == '-';
    var k1 := if left then k + 1 else k;
    var (width, k2) := WidthAt(f, k1);
    var (precision, k3) := PrecisionAt(f, k2);
    var q := if At(f, k3) == 'l' || At(f, k3) == 'L' then f[k3] else NUL;
    Directive(Flags(false, left, false), width, precision, q, if q != NUL then k3 + 1 else k3)
  }

  /** An optional width: the digits at k, or -1 when there are none. */
  function WidthAt(f: seq<char>, k: nat): (r: (int, nat))
    requires k <= |f|
    ensures k <= r.1 <= |f| && (r.1 == k <==> r.0 == -1)
  {
    if IsDigit(At(f, k)) then (var r := DigitRun(f, k); (r.0 as int, r.1)) else (-1, k)
  }

  /** An optional precision: the digits after a '.' at k (none read as
      0), or -1 without a '.'. */
  function PrecisionAt(f: seq<char>, k: nat): (r: (int, nat))
    requires k <= |f|
    ensures k <= r.1 <= |f| && (r.1 == k <==> r.0 == -1)
  {
    if At(f, k) == '.' then (var r := DigitRun(f, k + 1); (r.0 as int, r.1)) else (-1, k)
  }

  /** The argument read by the next va_arg: one missing reads as zero. */
  function ArgAt(args: seq<Arg>, i: nat): Arg
  {
    if i < |args| then args[i] else Arg(0, [])
  }

  /** The bits of a %d argument as an unsigned long long: without a
      qualifier the argument is a signed int, sign-extended. */
  function SignedBits(v: int, qualifier: char): (r: nat)
    ensures r < U64
  {
    if qualifier == NUL then
      (var low := v % U32; if low >= 0x8000_0000 then low - U32 + U64 else low)
    else v % U64
  }

  /** The bits of a %u or %x argument: an unsigned int without a
      qualifier. */
  function UnsignedBits(v: int, qualifier: char): (r: nat)
    ensures r < U64
  {
    if qualifier == NUL then v % U32 else v % U64
  }

  function Min(a: nat, b: nat): nat
  {
    if a < b then a else b
  }

  /** The text of %s: at most precision characters of the string, or of
      "(nil)" for a pointer below 4096, padded to the width. */
  function StringText(d: Directive, a: Arg): seq<char>
  {
    var s := if a.value % U64 < 4096 then "(nil)" else a.text;
    var n := if d.precision < 0 then |s| else Min(|s|, d.precision);
    (if !d.flags.left then Repeat(' ', Pad(d.width - n)) else []) + s[..n] +
    (if d.flags.left then Repeat(' ', Pad(d.width - n)) else [])
  }

  /** The text of %p: "0x", then the address in hexadecimal padded with
      zeros to 16 digits when no width is given. */
  function PointerText(d: Directive, a: Arg): seq<char>
  {
    "0x" + NumText(a.value % U64, 16, PointerWidth(d), d.precision, PointerFlags(d))
  }

  /** The width left for the address: 18 columns when none is given. */
  function PointerWidth(d: Directive): int
  {
    (if d.width == -1 then 18 else d.width) - 2
  }

  /** No width also means zero padding. */
  function PointerFlags(d: Directive): Flags
  {
    if d.width == -1 then d.flags.(zeroPad := true) else d.flags
  }

  /** What one directive writes with its argument. */
  function Piece(f: seq<char>, d: Directive, a: Arg): seq<char>
  {
    match At(f, d.at)
    case 's' => StringText(d, a)
    case 'p' => PointerText(d, a)
    case 'd' => NumText(SignedBits(a.value, d.qualifier), 10, d.width, d.precision, d.flags.(sign := true))
    case 'u' => NumText(UnsignedBits(a.value, d.qualifier), 10, d.width, d.precision, d.flags)
    case 'x' => NumText(UnsignedBits(a.value, d.qualifier), 16, d.width, d.precision, d.flags)
    case '%' => "%"
    case _ => []
  }

  predicate TakesArg(c: char)
  {
    c == 's' || c == 'p' || c == 'd' || c == 'u' || c == 'x'
  }

  /** Where scanning resumes after a directive: past its conversion
      character, or at the end when the format ends inside it. */
  function Resume(f: seq<char>, d: Directive): (k: nat)
    requires d.at <= |f|
    ensures d.at < k <= |f| || k == d.at == |f|
  {
    if d.at < |f| then d.at + 1 else |f|
  }

  /** Where the source resumes: always one past the conversion
      character, even when that character is the terminating NUL. */
  function ResumeAsWritten(f: seq<char>, d: Directive): nat
  {
    d.at + 1
  }

  /** A format ending in a lone '%' makes the source step past its
      terminating NUL and go on reading whatever memory follows. */
  lemma LonePercentReadsPastEnd()
    ensures var f := "ab%"; ResumeAsWritten(f, ParseDirective(f, 3)) == |f| + 1
    ensures var f := "ab%"; Resume(f, ParseDirective(f, 3)) == |f|
  {
  }

  /** The full text the format produces from position k, using the
      arguments from ai on. */
  function FormatFrom(f: seq<char>, k: nat, args: seq<Arg>, ai: nat): seq<char>
    requires k <= |f|
    decreases |f| - k
  {
    if k == |f| then []
    else if f[k] != '%' then [f[k]] + FormatFrom(f, k + 1, args, ai)
    else
      var d := ParseDirective(f, k + 1);
      Piece(f, d, ArgAt(args, ai)) + FormatFrom(f, Resume(f, d), args, if TakesArg(At(f, d.at)) then ai + 1 else ai)
  }

  function Format(f: seq<char>, args: seq<Arg>): seq<char>
  {
    FormatFrom(f, 0, args, 0)
  }

  /** With ZEROPAD alone and no precision, the digits are padded with
      zeros to the width. */
  lemma ZeroPadLayout(d: seq<char>, width: int)
    requires |d| >= 1
    ensures Layout(Flags(true, false, false), false, d, width, -1) == Repeat('0', Pad(width - |d|)) + d
  {
    assert DigitCount(d, -1) == |d|;
    assert Repeat('0', 0) == [];
  }

  lemma SmallMod(x: int)
    requires 0 <= x < U64
    ensures x % U64 == x
  {
  }

  /** %s of a pointer below 4096 prints "(nil)". */
  lemma NilExample(text: seq<char>)
    ensures Format("%s", [Arg(0, text)]) == "(nil)"
  {
    var d := ParseDirective("%s", 1);
    assert d.at == 1 && d.width == -1 && d.precision == -1;
    assert Format("%s", [Arg(0, text)]) == StringText(d, Arg(0, text)) + FormatFrom("%s", 2, [Arg(0, text)], 1);
  }

  /** %p without a width prints "0x" and at least 16 hexadecimal digits
      that read back as the address. */
  lemma PointerExample(text: seq<char>, address: nat)
    requires address < U64
    ensures var t := Format("%p", [Arg(address, text)]);
      |t| >= 18 && t[..2] == "0x" && BaseValue(t[2..], 16) == address
  {
    var d := ParseDirective("%p", 1);
    assert d == Directive(Flags(false, false, false), -1, -1, NUL, 1);
    var a := Arg(address, text);
    assert Format("%p", [a]) == PointerText(d, a) + FormatFrom("%p", 2, [a], 1);
    assert FormatFrom("%p", 2, [a], 1) == [];
    assert Format("%p", [a]) == PointerText(d, a);
    PointerDefault(d, a);
  }

  /** %p without a width, flags or precision. */
  lemma PointerDefault(d: Directive, a: Arg)
    requires d.flags == Flags(false, false, false) && d.width == -1 && d.precision == -1
    requires 0 <= a.value < U64
    ensures var t := PointerText(d, a);
      |t| >= 18 && t[..2] == "0x" && BaseValue(t[2..], 16) == a.value
  {
    var fl := Flags(true, false, false);
    var nt := NumText(a.value, 16, 16, -1, fl);
    SmallMod(a.value);
    assert PointerText(d, a) == "0x" + nt;
    var m := Numeral(a.value, 16);
    assert nt == Layout(fl, false, m, 16, -1);
    ZeroPadLayout(m, 16);
    assert |nt| >= 16;
    LeadingZeros(Pad(16 - |m|), m, 16);
    NumeralRoundTrip(a.value, 16);
    assert BaseValue(nt, 16) == a.value;
    assert PointerText(d, a)[2..] == nt;
  }

  /** One character written at cur if the buffer reaches it. */
  method PutChar(buf: array<char>, cur: nat, c: char) returns (cur': nat)
    modifies buf
    ensures buf[..] == Written(old(buf[..]), cur, [c]) && cur' == cur + 1
  {
    if cur < buf.Length {
      buf[cur] := c;
    }
    cur' := cur + 1;
  }

  /** for ( ; --count >= 0; ++cur) if (cur < end) *cur = c; */
  method Fill(buf: array<char>, cur: nat, c: char, count: int) returns (cur': nat, count': int)
    modifies buf
    ensures buf[..] == Written(old(buf[..]), cur, Repeat(c, Pad(count)))
    ensures cur' == cur + Pad(count) && count' < 0
  {
    cur' := cur;
    count' := count - 1;
    while count' >= 0
      invariant cur <= cur' && count' == count - 1 - (cur' - cur) && cur' - cur <= Pad(count)
      invariant buf[..] == Written(old(buf[..]), cur, Repeat(c, cur' - cur))
    {
      WrittenConcat(old(buf[..]), cur, Repeat(c, cur' - cur), [c]);
      assert Repeat(c, cur' - cur) + [c] == Repeat(c, cur' + 1 - cur);
      cur' := PutChar(buf, cur', c);
      count' := count' - 1;
    }
  }

  /** for ( ; --i >= 0; ++cur) if (cur < end) *cur = tmp[i]; */
  method PutReversed(buf: array<char>, cur: nat, tmp: seq<char>) returns (cur': nat)
    modifies buf
    ensures buf[..] == Written(old(buf[..]), cur, Reverse(tmp)) && cur' == cur + |tmp|
  {
    var i := |tmp|;
    cur' := cur;
    while i > 0
      invariant 0 <= i <= |tmp| && cur' == cur + (|tmp| - i)
      invariant buf[..] == Written(old(buf[..]), cur, Reverse(tmp)[..|tmp| - i])
    {
      i := i - 1;
      WrittenConcat(old(buf[..]), cur, Reverse(tmp)[..|tmp| - i - 1], [tmp[i]]);
      assert Reverse(tmp)[..|tmp| - i] == Reverse(tmp)[..|tmp| - i - 1] + [tmp[i]];
      cur' := PutChar(buf, cur', tmp[i]);
    }
    assert Reverse(tmp)[..|tmp|] == Reverse(tmp);
  }

  /** The do-while digit loop of xntoa, with unsigned division: the
      digits of n, least significant first, "0" for 0. */
  method ConvertDigits(n: nat, base: nat) returns (tmp: seq<char>)
    requires base == 10 || base == 16
    ensures Reverse(tmp) == Numeral(n, base)
  {
    if n == 0 {
      return ['0'];
    }
    tmp := [];
    var m: nat := n;
    while m != 0
      invariant Digs(m, base) + Reverse(tmp) == Digs(n, base)
    {
      DigitLoopStep(m, base, tmp, n);
      tmp := tmp + [Digit(m % base)];
      m := m / base;
    }
    assert Digs(0, base) == [];
  }

  /** One turn of the digit loop: the digits still to convert, followed by
      those converted, stay the numeral. */
  lemma DigitLoopStep(m: nat, base: nat, tmp: seq<char>, n: nat)
    requires (base == 10 || base == 16) && m != 0 && Digs(m, base) + Reverse(tmp) == Digs(n, base)
    ensures Digs(m / base, base) + Reverse(tmp + [Digit(m % base)]) == Digs(n, base)
  {
    var c := Digit(m % base);
    ReverseSnoc(tmp, c);
    assert Digs(m, base) == Digs(m / base, base) + [c];
    Sequences.AppendAssoc(Digs(m / base, base), [c], Reverse(tmp));
  }

  /** xntoa: writes the number at cur, never past the buffer, and returns
      the cursor moved by the full length of its text. */
  method XNtoa(buf: array<char>, cur: nat, num: nat, base: nat, width: int, precision: int, flags: Flags)
    returns (cur': nat)
    requires num < U64 && (base == 10 || base == 16)
    modifies buf
    ensures buf[..] == Written(old(buf[..]), cur, NumText(num, base, width, precision, flags))
    ensures cur' == cur + |NumText(num, base, width, precision, flags)|
  {
    var f := flags;
    if f.left {
      f := f.(zeroPad := false);
    }
    var n, neg := num, false;
    var w := width;
    if f.sign && n >= 0x8000_0000_0000_0000 {
      n, neg := U64 - n, true;
      w := w - 1;
    }
    var tmp := ConvertDigits(n, base);
    var p := precision;
    if |tmp| > p {
      p := |tmp|;
    }
    w := w - p;
    ghost var b0 := buf[..];
    var c1, w1 := Head(buf, cur, f, w, neg);
    cur' := Rest(buf, cur, c1, b0, HeadText(f, w, neg), f, w1, p, tmp);
    assert TailText(f, w1, p, Reverse(tmp)) == TailText(f, w, p, Reverse(tmp));
    ghost var d := Numeral(n, base);
    assert Magnitude(num, f) == (n, neg);
    assert p == DigitCount(d, precision);
    assert Reverse(tmp) == d;
    assert w == (if neg then width - 1 else width) - p;
    assert NumText(num, base, width, precision, flags) == Layout(f, neg, d, width, precision);
    LayoutParts(f, neg, d, width, precision, w, p);
  }

  lemma LayoutParts(f: Flags, neg: bool, d: seq<char>, width: int, precision: int, w: int, p: int)
    requires p == DigitCount(d, precision) && w == (if neg then width - 1 else width) - p
    ensures Layout(f, neg, d, width, precision) == HeadText(f, w, neg) + TailText(f, w, p, d)
  {
  }

  /** The start of xntoa's output: space padding unless ZEROPAD or LEFT,
      which leaves the width negative, then the sign. */
  method Head(buf: array<char>, cur: nat, f: Flags, w: int, neg: bool) returns (cur': nat, w': int)
    modifies buf
    ensures buf[..] == Written(old(buf[..]), cur, HeadText(f, w, neg)) && cur' == cur + |HeadText(f, w, neg)|
    ensures if !f.zeroPad && !f.left then w' < 0 else w' == w
  {
    cur', w' := cur, w;
    ghost var b0 := buf[..];
    ghost var pad: seq<char> := [];
    if !f.zeroPad && !f.left {
      cur', w' := Fill(buf, cur, ' ', w);
      pad := Repeat(' ', Pad(w));
    } else {
      assert Written(b0, cur, []) == b0;
    }
    if neg {
      ghost var b1 := buf[..];
      var c1 := cur';
      cur' := PutChar(buf, c1, '-');
      WrittenTwice(b0, cur, pad, b1, c1, "-", buf[..]);
    } else {
      assert pad + [] == pad;
    }
  }

  /** The rest of xntoa after the sign: ZEROPAD padding, the precision's
      zeros, the digits, and LEFT's padding. */
  method Rest(buf: array<char>, ghost cur: nat, cur0: nat, ghost b0: seq<char>, ghost before: seq<char>,
              f: Flags, w: int, p: int, tmp: seq<char>)
    returns (cur': nat)
    requires buf[..] == Written(b0, cur, before) && cur0 == cur + |before|
    requires !f.zeroPad && !f.left ==> w < 0
    requires p >= |tmp|
    modifies buf
    ensures buf[..] == Written(b0, cur, before + TailText(f, w, p, Reverse(tmp)))
    ensures cur' == cur + |before| + |TailText(f, w, p, Reverse(tmp))|
  {
    var width := w;
    ghost var bb := buf[..];
    ghost var z: seq<char> := [];
    var c1 := cur0;
    if !f.left {
      var c := if f.zeroPad then '0' else ' ';
      c1, width := Fill(buf, cur0, c, width);
      z := Repeat(c, Pad(w));
    } else {
      assert Written(bb, cur0, []) == bb;
    }
    WrittenTwice(b0, cur, before, bb, cur0, z, buf[..]);
    var c2 := PutDigits(buf, cur, c1, b0, before + z, p, tmp);
    ghost var b2 := buf[..];
    ghost var out := before + z + Repeat('0', Pad(p - |tmp|)) + Reverse(tmp);
    ghost var trail := Repeat(' ', Pad(width));
    var left1;
    cur', left1 := Fill(buf, c2, ' ', width);
    WrittenTwice(b0, cur, out, b2, c2, trail, buf[..]);
    TailParts(f, w, p, Reverse(tmp), z, trail, before);
  }

  /** The parts Rest writes make up the tail. */
  lemma TailParts(f: Flags, w: int, p: int, d: seq<char>, z: seq<char>, trail: seq<char>, before: seq<char>)
    requires z == if !f.left then Repeat(if f.zeroPad then '0' else ' ', Pad(w)) else []
    requires !f.zeroPad && !f.left ==> w < 0
    requires trail == Repeat(' ', Pad(if f.left then w else -1))
    ensures before + z + Repeat('0', Pad(p - |d|)) + d + trail == before + TailText(f, w, p, d)
  {
    assert z == if !f.left && f.zeroPad then Repeat('0', Pad(w)) else [];
    assert trail == if f.left then Repeat(' ', Pad(w)) else [];
  }

  /** The precision's zeros and the digits, most significant first. */
  method PutDigits(buf: array<char>, ghost cur: nat, cur0: nat, ghost b0: seq<char>, ghost before: seq<char>,
                p: int, tmp: seq<char>) returns (cur': nat)
    requires buf[..] == Written(b0, cur, before) && cur0 == cur + |before|
    modifies buf
    ensures buf[..] == Written(b0, cur, before + Repeat('0', Pad(p - |tmp|)) + Reverse(tmp))
    ensures cur' == cur + |before| + Pad(p - |tmp|) + |tmp|
  {
    var zeros, left0 := Fill(buf, cur0, '0', p - |tmp|);
    WrittenConcat(b0, cur, before, Repeat('0', Pad(p - |tmp|)));
    cur' := PutReversed(buf, zeros, tmp);
    WrittenConcat(b0, cur, before + Repeat('0', Pad(p - |tmp|)), Reverse(tmp));
  }

  /** The terminating NUL: after the text when it fits, otherwise in the
      last byte of the buffer; an empty buffer is left alone. */
  function Terminated(b: seq<char>, n: nat): (r: seq<char>)
    ensures |r| == |b|
  {
    if |b| == 0 then b else if n < |b| then b[n := NUL] else b[|b| - 1 := NUL]
  }

  /** The buffer after xsprintf holds the whole text and a NUL when the
      text is shorter than the buffer, and otherwise the text cut to
      leave room for the NUL in the last byte; nothing after the NUL
      changes. */
  lemma TerminatedMeaning(b: seq<char>, t: seq<char>)
    requires |b| > 0
    ensures var r := Terminated(Written(b, 0, t), |t|);
      |t| < |b| ==> r[..|t|] == t && r[|t|] == NUL && r[|t| + 1..] == b[|t| + 1..]
    ensures var r := Terminated(Written(b, 0, t), |t|);
      |t| >= |b| ==> r[..|b| - 1] == t[..|b| - 1] && r[|b| - 1] == NUL
  {
  }

  /** xsprintf: formats into the buffer, never writing outside it, always
      terminating it with a NUL when it has room for one, and returns the
      length of the whole text, which may exceed the buffer. The format
      is the text before its terminating NUL. */
  method XSprintf(buf: array<char>, f: seq<char>, args: seq<Arg>) returns (n: nat)
    requires forall i :: 0 <= i < |f| ==> f[i] != NUL
    modifies buf
    ensures n == |Format(f, args)|
    ensures buf[..] == Terminated(Written(old(buf[..]), 0, Format(f, args)), n)
  {
    ghost var b0 := buf[..];
    ghost var out: seq<char> := [];
    var cur: nat := 0;
    var k: nat := 0;
    var ai: nat := 0;
    assert Written(b0, 0, []) == b0;
    assert out + FormatFrom(f, 0, args, 0) == Format(f, args);
    while k < |f|
      invariant k <= |f| && cur == |out|
      invariant buf[..] == Written(b0, 0, out)
      invariant out + FormatFrom(f, k, args, ai) == Format(f, args)
      decreases |f| - k
    {
      k, ai, cur, out := Step(buf, f, args, k, ai, cur, b0, out);
    }
    assert FormatFrom(f, k, args, ai) == [];
    assert out == Format(f, args);
    Terminate(buf, cur);
    n := cur;
  }

  /** The NUL that ends xsprintf's text: after it, or in the last byte
      when the text filled the buffer. */
  method Terminate(buf: array<char>, cur: nat)
    modifies buf
    ensures buf[..] == Terminated(old(buf[..]), cur)
  {
    if buf.Length > 0 {
      if cur < buf.Length {
        buf[cur] := NUL;
      } else {
        buf[buf.Length - 1] := NUL;
      }
    }
  }

  /** One round of xsprintf's loop: a plain character is copied, a '%'
      starts a directive, which is parsed and converted with the next
      argument when it takes one. */
  method Step(buf: array<char>, f: seq<char>, args: seq<Arg>, k: nat, ai: nat, cur: nat,
              ghost b0: seq<char>, ghost out: seq<char>)
    returns (k': nat, ai': nat, cur': nat, ghost out': seq<char>)
    requires k < |f| && buf[..] == Written(b0, 0, out) && cur == |out|
    modifies buf
    ensures k < k' <= |f| && cur' == |out'| && buf[..] == Written(b0, 0, out')
    ensures out' + FormatFrom(f, k', args, ai') == out + FormatFrom(f, k, args, ai)
  {
    if f[k] != '%' {
      WrittenConcat(b0, 0, out, [f[k]]);
      cur' := PutChar(buf, cur, f[k]);
      out', k', ai' := out + [f[k]], k + 1, ai;
      assert FormatFrom(f, k, args, ai) == [f[k]] + FormatFrom(f, k', args, ai');
    } else {
      k', ai', cur', out' := DirectiveStep(buf, f, args, k, ai, cur, b0, out);
    }
  }

  /** A directive at k: parsed, then converted. */
  method DirectiveStep(buf: array<char>, f: seq<char>, args: seq<Arg>, k: nat, ai: nat, cur: nat,
                       ghost b0: seq<char>, ghost out: seq<char>)
    returns (k': nat, ai': nat, cur': nat, ghost out': seq<char>)
    requires k < |f| && f[k] == '%' && buf[..] == Written(b0, 0, out) && cur == |out|
    modifies buf
    ensures k < k' <= |f| && cur' == |out'| && buf[..] == Written(b0, 0, out')
    ensures out' + FormatFrom(f, k', args, ai') == out + FormatFrom(f, k, args, ai)
  {
    var d := ParseSpec(f, k + 1);
    var a := ArgAt(args, ai);
    ghost var piece := Piece(f, d, a);
    ghost var b1 := buf[..];
    cur' := Convert(buf, cur, f, d, a);
    WrittenTwice(b0, 0, out, b1, cur, piece, buf[..]);
    out' := out + piece;
    ai' := if TakesArg(At(f, d.at)) then ai + 1 else ai;
    k' := if d.at < |f| then d.at + 1 else |f|;
    FormatAtDirective(f, k, args, ai, d, k', ai');
    Sequences.AppendAssoc(out, piece, FormatFrom(f, k', args, ai'));
  }

  /** The text from a directive on is its piece, then the text from where
      the directive ends, with the next argument when it took one. */
  lemma FormatAtDirective(f: seq<char>, k: nat, args: seq<Arg>, ai: nat, d: Directive, k': nat, ai': nat)
    requires k < |f| && f[k] == '%' && d == ParseDirective(f, k + 1)
    requires k' == Resume(f, d) && ai' == if TakesArg(At(f, d.at)) then ai + 1 else ai
    ensures FormatFrom(f, k, args, ai) == Piece(f, d, ArgAt(args, ai)) + FormatFrom(f, k', args, ai')
  {
  }

  /** The directive parser of xsprintf, reading the width and precision
      with xatoi. */
  method ParseSpec(f: seq<char>, k: nat) returns (d: Directive)
    requires k <= |f|
    ensures d == ParseDirective(f, k)
  {
    var j := k;
    var left := false;
    if At(f, j) == '-' {
      j, left := j + 1, true;
    }
    var width, precision;
    width, j := ReadWidth(f, j);
    precision, j := ReadPrecision(f, j);
    var q := NUL;
    if At(f, j) == 'l' || At(f, j) == 'L' {
      q, j := f[j], j + 1;
    }
    d := Directive(Flags(false, left, false), width, precision, q, j);
  }

  /** The width of a directive, read with xatoi when a digit comes. */
  method ReadWidth(f: seq<char>, k: nat) returns (width: int, k': nat)
    requires k <= |f|
    ensures (width, k') == WidthAt(f, k)
  {
    width, k' := -1, k;
    if IsDigit(At(f, k)) {
      var w;
      w, k' := XAtoi(f, k);
      width := w;
    }
  }

  /** The precision of a directive, read with xatoi after a '.'. */
  method ReadPrecision(f: seq<char>, k: nat) returns (precision: int, k': nat)
    requires k <= |f|
    ensures (precision, k') == PrecisionAt(f, k)
  {
    precision, k' := -1, k;
    if At(f, k) == '.' {
      var p;
      p, k' := XAtoi(f, k + 1);
      precision := p;
    }
  }

  /** One conversion of xsprintf with its argument. */
  method Convert(buf: array<char>, cur: nat, f: seq<char>, d: Directive, a: Arg) returns (cur': nat)
    modifies buf
    ensures buf[..] == Written(old(buf[..]), cur, Piece(f, d, a)) && cur' == cur + |Piece(f, d, a)|
  {
    var c := At(f, d.at);
    if c == 's' {
      cur' := PutString(buf, cur, d, a);
    } else if c == 'p' {
      cur' := PutPointer(buf, cur, d, a);
    } else if c == 'd' {
      cur' := XNtoa(buf, cur, SignedBits(a.value, d.qualifier), 10, d.width, d.precision, d.flags.(sign := true));
    } else if c == 'u' {
      cur' := XNtoa(buf, cur, UnsignedBits(a.value, d.qualifier), 10, d.width, d.precision, d.flags);
    } else if c == 'x' {
      cur' := XNtoa(buf, cur, UnsignedBits(a.value, d.qualifier), 16, d.width, d.precision, d.flags);
    } else if c == '%' {
      cur' := PutChar(buf, cur, '%');
    } else {
      cur' := cur;
      assert Written(old(buf[..]), cur, []) == buf[..];
    }
  }

  /** %s: the padding before the text unless LEFT, at most precision
      characters of it, then what remains of the width. */
  method PutString(buf: array<char>, cur: nat, d: Directive, a: Arg) returns (cur': nat)
    modifies buf
    ensures buf[..] == Written(old(buf[..]), cur, StringText(d, a)) && cur' == cur + |StringText(d, a)|
  {
    var s := if a.value % U64 < 4096 then "(nil)" else a.text;
    var n := if d.precision < 0 then |s| else Min(|s|, d.precision);
    ghost var b0 := buf[..];
    ghost var pre: seq<char> := [];
    var rest := d.width - n;
    var c1 := cur;
    if !d.flags.left {
      c1, rest := Fill(buf, cur, ' ', rest);
      pre := Repeat(' ', Pad(d.width - n));
    } else {
      assert Written(b0, cur, []) == b0;
    }
    ghost var b1 := buf[..];
    var c2 := PutText(buf, c1, s[..n]);
    ghost var b2 := buf[..];
    WrittenTwice(b0, cur, pre, b1, c1, s[..n], b2);
    ghost var post := Repeat(' ', Pad(rest));
    var r;
    cur', r := Fill(buf, c2, ' ', rest);
    WrittenTwice(b0, cur, pre + s[..n], b2, c2, post, buf[..]);
    assert !d.flags.left ==> post == [];
    StringParts(d, a, s, n, pre, post);
  }

  lemma StringParts(d: Directive, a: Arg, s: seq<char>, n: nat, pre: seq<char>, post: seq<char>)
    requires s == if a.value % U64 < 4096 then "(nil)" else a.text
    requires n == if d.precision < 0 then |s| else Min(|s|, d.precision)
    requires pre == if !d.flags.left then Repeat(' ', Pad(d.width - n)) else []
    requires post == if !d.flags.left then [] else Repeat(' ', Pad(d.width - n))
    ensures pre + s[..n] + post == StringText(d, a)
  {
  }

  /** %p: "0x", then the address with the width less those two columns;
      no width means 18 columns padded with zeros. */
  method PutPointer(buf: array<char>, cur: nat, d: Directive, a: Arg) returns (cur': nat)
    modifies buf
    ensures buf[..] == Written(old(buf[..]), cur, PointerText(d, a)) && cur' == cur + |PointerText(d, a)|
  {
    var width := d.width;
    var flags := d.flags;
    if width == -1 {
      width := 18;
      flags := flags.(zeroPad := true);
    }
    width := width - 2;
    assert width == PointerWidth(d) && flags == PointerFlags(d);
    ghost var b0 := buf[..];
    cur' := PutText(buf, cur, "0x");
    ghost var b2 := buf[..];
    var c2 := cur';
    var address := a.value % U64;
    cur' := XNtoa(buf, c2, address, 16, width, d.precision, flags);
    WrittenTwice(b0, cur, "0x", b2, c2, NumText(address, 16, width, d.precision, flags), buf[..]);
  }

  /** Two texts written one after the other are their concatenation
      written at once. */
  lemma WrittenTwice(b0: seq<char>, cur: nat, t1: seq<char>, b1: seq<char>, c1: nat, t2: seq<char>, b2: seq<char>)
    requires b1 == Written(b0, cur, t1) && c1 == cur + |t1| && b2 == Written(b1, c1, t2)
    ensures b2 == Written(b0, cur, t1 + t2)
  {
    WrittenConcat(b0, cur, t1, t2);
  }

  /** The character copy loop of %s. */
  method PutText(buf: array<char>, cur: nat, s: seq<char>) returns (cur': nat)
    modifies buf
    ensures buf[..] == Written(old(buf[..]), cur, s) && cur' == cur + |s|
  {
    var i := 0;
    cur' := cur;
    while i < |s|
      invariant 0 <= i <= |s| && cur' == cur + i
      invariant buf[..] == Written(old(buf[..]), cur, s[..i])
    {
      WrittenConcat(old(buf[..]), cur, s[..i], [s[i]]);
      assert s[..i + 1] == s[..i] + [s[i]];
      cur' := PutChar(buf, cur', s[i]);
      i := i + 1;
    }
    assert s[..i] == s;
  }
}
