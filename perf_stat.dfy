/** PerfStat: the trace buffer's own performance statistics, seven
    unsigned 64-bit sums over the traces pushed into it. Unsigned
    arithmetic wraps modulo 2^64, written out here. */
module PerfStats {
  import opened UInt64

  /** A value already in range is left alone. */
  lemma WrapSmall(x: int)
    ensures 0 <= x < U64 ==> Wrap(x) == x
  {
  }

  /** The seven sums. */
  datatype Stat = Stat(ntraces: nat, sumDepth: nat, sum2Depth: nat, sumTicks: nat, sum2Ticks: nat,
                       sumTPerD: nat, sum2TPerD: nat)

  predicate Fits(s: Stat)
  {
    s.ntraces < U64 && s.sumDepth < U64 && s.sum2Depth < U64 && s.sumTicks < U64 &&
    s.sum2Ticks < U64 && s.sumTPerD < U64 && s.sum2TPerD < U64
  }

  const Zero: Stat := Stat(0, 0, 0, 0, 0, 0, 0)

  /** The componentwise wrapped sum, the effect of operator+=. */
  function Plus(a: Stat, b: Stat): (r: Stat)
    ensures Fits(r)
  {
    Stat(Wrap(a.ntraces + b.ntraces), Wrap(a.sumDepth + b.sumDepth), Wrap(a.sum2Depth + b.sum2Depth),
         Wrap(a.sumTicks + b.sumTicks), Wrap(a.sum2Ticks + b.sum2Ticks), Wrap(a.sumTPerD + b.sumTPerD),
         Wrap(a.sum2TPerD + b.sum2TPerD))
  }

  lemma WrapAdd(x: int, y: int)
    ensures Wrap(Wrap(x) + y) == Wrap(x + y)
    ensures Wrap(x + Wrap(y)) == Wrap(x + y)
  {
    var k := x / U64;
    assert x == k * U64 + Wrap(x);
    assert Wrap(x) + y == (x + y) - k * U64;
    ModShift(x + y, -k);
    var m := y / U64;
    assert y == m * U64 + Wrap(y);
    ModShift(x + y, -m);
  }

  lemma WrapAddLeft(x: int, y: int, z: int)
    ensures Wrap(Wrap(x + y) + z) == Wrap(x + y + z)
  {
    WrapAdd(x + y, z);
  }

  lemma WrapAddRight(x: int, y: int, z: int)
    ensures Wrap(x + Wrap(y + z)) == Wrap(x + y + z)
  {
    WrapAdd(x, y + z);
    assert x + (y + z) == x + y + z;
  }

  lemma ModShift(x: int, k: int)
    ensures (x + k * U64) % U64 == x % U64
    decreases if k < 0 then -k else k
  {
    if k > 0 {
      ModShift(x, k - 1);
      assert x + k * U64 == (x + (k - 1) * U64) + U64;
    } else if k < 0 {
      ModShift(x, k + 1);
      assert x + k * U64 == (x + (k + 1) * U64) - U64;
    }
  }

  /** Merging statistics does not depend on their order or grouping, and
      the zero statistics change nothing. */
  lemma PlusCommutes(a: Stat, b: Stat)
    ensures Plus(a, b) == Plus(b, a)
  {
  }

  /** Three statistics summed at once, wrapping once. */
  function Sum3(a: Stat, b: Stat, c: Stat): Stat
  {
    Stat(Wrap(a.ntraces + b.ntraces + c.ntraces), Wrap(a.sumDepth + b.sumDepth + c.sumDepth),
         Wrap(a.sum2Depth + b.sum2Depth + c.sum2Depth), Wrap(a.sumTicks + b.sumTicks + c.sumTicks),
         Wrap(a.sum2Ticks + b.sum2Ticks + c.sum2Ticks), Wrap(a.sumTPerD + b.sumTPerD + c.sumTPerD),
         Wrap(a.sum2TPerD + b.sum2TPerD + c.sum2TPerD))
  }

  lemma PlusLeftSum3(a: Stat, b: Stat, c: Stat)
    ensures Plus(Plus(a, b), c) == Sum3(a, b, c)
  {
    WrapAddLeft(a.ntraces, b.ntraces, c.ntraces);
    WrapAddLeft(a.sumDepth, b.sumDepth, c.sumDepth);
    WrapAddLeft(a.sum2Depth, b.sum2Depth, c.sum2Depth);
    WrapAddLeft(a.sumTicks, b.sumTicks, c.sumTicks);
    WrapAddLeft(a.sum2Ticks, b.sum2Ticks, c.sum2Ticks);
    WrapAddLeft(a.sumTPerD, b.sumTPerD, c.sumTPerD);
    WrapAddLeft(a.sum2TPerD, b.sum2TPerD, c.sum2TPerD);
  }

  lemma PlusRightSum3(a: Stat, b: Stat, c: Stat)
    ensures Plus(a, Plus(b, c)) == Sum3(a, b, c)
  {
    WrapAddRight(a.ntraces, b.ntraces, c.ntraces);
    WrapAddRight(a.sumDepth, b.sumDepth, c.sumDepth);
    WrapAddRight(a.sum2Depth, b.sum2Depth, c.sum2Depth);
    WrapAddRight(a.sumTicks, b.sumTicks, c.sumTicks);
    WrapAddRight(a.sum2Ticks, b.sum2Ticks, c.sum2Ticks);
    WrapAddRight(a.sumTPerD, b.sumTPerD, c.sumTPerD);
    WrapAddRight(a.sum2TPerD, b.sum2TPerD, c.sum2TPerD);
  }

  lemma PlusAssociates(a: Stat, b: Stat, c: Stat)
    ensures Plus(Plus(a, b), c) == Plus(a, Plus(b, c))
  {
    PlusLeftSum3(a, b, c);
    PlusRightSum3(a, b, c);
  }

  lemma PlusZero(a: Stat)
    requires Fits(a)
    ensures Plus(a, Zero) == a
  {
  }

  /** statFrom: the statistics of one trace of the given depth between
      two tick readings. The conversion of depth, the tick difference,
      the shift and the squares all wrap as uint64_t; the division by the
      depth is undefined for depth 0, which callers must avoid. */
  function StatFrom(depth: int, tstart: nat, tend: nat): (r: Stat)
    requires Wrap(depth) != 0
    ensures Fits(r) && r.ntraces == 1
    ensures 0 < depth < 0x1_0000_0000 ==> r.sumDepth == depth && r.sum2Depth == depth * depth
    ensures tstart <= tend && tend - tstart < 0x1_0000_0000 ==>
              r.sumTicks == tend - tstart && r.sum2Ticks == (tend - tstart) * (tend - tstart)
    ensures 0 < depth < U64 && tstart <= tend && (tend - tstart) * 16 < U64 ==>
              r.sumTPerD == (tend - tstart) * 16 / depth
  {
    var dep := Wrap(depth);
    var nticks := Wrap(tend - tstart);
    WrapSmall(depth);
    WrapSmall(tend - tstart);
    var tperd := TicksPerDepth(dep, nticks);
    Stat(1, dep, Square(dep), nticks, Square(nticks), tperd, Square(tperd))
  }

  /** The shifted tick count over the depth, the shift wrapping as
      uint64_t; exact when the shifted count fits. */
  function TicksPerDepth(dep: nat, nticks: nat): (r: nat)
    requires 0 < dep < U64
    ensures r < U64
    ensures nticks * 16 < U64 ==> r == nticks * 16 / dep
  {
    WrapSmall(nticks * 16);
    Wrap(nticks * 16) / dep
  }

  /** A uint64_t square, exact when the value is below 2^32. */
  function Square(x: nat): (r: nat)
    ensures r < U64
    ensures x < 0x1_0000_0000 ==> r == x * x
  {
    ProductFits(x);
    WrapSmall(x * x);
    Wrap(x * x)
  }

  lemma ProductFits(x: nat)
    ensures x < 0x1_0000_0000 ==> x * x < U64
  {
    if x < 0x1_0000_0000 {
      MulBelow(x, x, 0x1_0000_0000);
    }
  }

  lemma MulBelow(x: nat, y: nat, b: nat)
    requires x < b && y < b
    ensures x * y < b * b
  {
    assert x * b - x * y == x * (b - y);
    assert b * b - x * b == (b - x) * b;
  }

  /** The statistics of several traces, merged in order. */
  function Total(s: seq<Stat>): (r: Stat)
    ensures Fits(r)
  {
    if s == [] then Zero else Plus(Total(s[..|s| - 1]), s[|s| - 1])
  }

  /** Merging n single-trace statistics counts n traces, modulo 2^64. */
  lemma {:induction false} TotalCountsTraces(s: seq<Stat>)
    requires forall i :: 0 <= i < |s| ==> s[i].ntraces == 1
    ensures Total(s).ntraces == Wrap(|s|)
  {
    if s != [] {
      TotalCountsTraces(s[..|s| - 1]);
      WrapAdd(|s| - 1, 1);
    }
  }

  /** The buffer's running statistics. */
  class PerfStat {
    var ntraces: nat
    var sumDepth: nat
    var sum2Depth: nat
    var sumTicks: nat
    var sum2Ticks: nat
    var sumTPerD: nat
    var sum2TPerD: nat

    function Value(): Stat
      reads this
    {
      Stat(ntraces, sumDepth, sum2Depth, sumTicks, sum2Ticks, sumTPerD, sum2TPerD)
    }

    constructor()
      ensures Value() == Zero
    {
      ntraces, sumDepth, sum2Depth, sumTicks, sum2Ticks, sumTPerD, sum2TPerD := 0, 0, 0, 0, 0, 0, 0;
    }

    /** operator+=: each field gains the other's, wrapping. */
    method AddAssign(other: Stat)
      modifies this
      ensures Value() == Plus(old(Value()), other)
    {
      ntraces := Wrap(ntraces + other.ntraces);
      sumDepth := Wrap(sumDepth + other.sumDepth);
      sum2Depth := Wrap(sum2Depth + other.sum2Depth);
      sumTicks := Wrap(sumTicks + other.sumTicks);
      sum2Ticks := Wrap(sum2Ticks + other.sum2Ticks);
      sumTPerD := Wrap(sumTPerD + other.sumTPerD);
      sum2TPerD := Wrap(sum2TPerD + other.sum2TPerD);
    }
  }
}
