/** The analyser's counters: a node's self and cumulative counts, the
    per-symbol accumulation buffers of the flat profile, and the hit filter
    that drops stack traces whose counts fall outside the configured
    bounds. Counts are unbounded integers here; the analyser's int64_t
    overflow is not modelled. */
module Counters {

  /** A count and the number of hits that produced it. */
  datatype Totals = Totals(cnt: int, freq: int)

  /** Merging two totals: the hits always add; the counts add, or keep the
      larger one for a peak ("max") counter. */
  function Combine(a: Totals, b: Totals, isMax: bool): (r: Totals)
    ensures r.freq == a.freq + b.freq
    ensures !isMax ==> r.cnt == a.cnt + b.cnt
    ensures isMax ==> r.cnt >= a.cnt && r.cnt >= b.cnt && (r.cnt == a.cnt || r.cnt == b.cnt)
  {
    Totals(if isMax then (if a.cnt < b.cnt then b.cnt else a.cnt) else a.cnt + b.cnt, a.freq + b.freq)
  }

  /** The order in which children are merged into a parent does not
      matter. */
  lemma CombineOrderFree(a: Totals, b: Totals, c: Totals, isMax: bool)
    ensures Combine(a, b, isMax) == Combine(b, a, isMax)
    ensures Combine(Combine(a, b, isMax), c, isMax) == Combine(Combine(a, c, isMax), b, isMax)
  {
  }

  /** A call-tree node's payload. */
  class Counter {
    var cnt: int
    var freq: int
    var ccnt: int
    var cfreq: int

    constructor()
      ensures cnt == 0 && freq == 0 && ccnt == 0 && cfreq == 0
    {
      cnt, freq, ccnt, cfreq := 0, 0, 0, 0;
    }

    /** Merges other's self counts into this one; other may be this. */
    method Add(other: Counter, isMax: bool)
      modifies this
      ensures Totals(cnt, freq) == Combine(old(Totals(cnt, freq)), old(Totals(other.cnt, other.freq)), isMax)
      ensures ccnt == old(ccnt) && cfreq == old(cfreq)
    {
      var ofreq, ocnt := other.freq, other.cnt;
      freq := freq + ofreq;
      if isMax {
        if cnt < ocnt {
          cnt := ocnt;
        }
      } else {
        cnt := cnt + ocnt;
      }
    }

    /** Merges other's cumulative counts into this one's. */
    method Accumulate(other: Counter, isMax: bool)
      modifies this
      ensures Totals(ccnt, cfreq) == Combine(old(Totals(ccnt, cfreq)), old(Totals(other.ccnt, other.cfreq)), isMax)
      ensures cnt == old(cnt) && freq == old(freq)
    {
      var ofreq, occnt := other.cfreq, other.ccnt;
      cfreq := cfreq + ofreq;
      if isMax {
        if ccnt < occnt {
          ccnt := occnt;
        }
      } else {
        ccnt := ccnt + occnt;
      }
    }
  }

  // ---------------------------------------------------------------------
  // Flat-profile buffers: [count, hits, number of calls]

  /** accumulateCounts on a three-slot buffer. */
  method AccumulateCounts(buffer: array<int>, c: int, f: int, isMax: bool)
    requires buffer.Length == 3
    modifies buffer
    ensures Totals(buffer[0], buffer[1]) == Combine(old(Totals(buffer[0], buffer[1])), Totals(c, f), isMax)
    ensures buffer[2] == old(buffer[2]) + 1
  {
    if isMax {
      if buffer[0] < c {
        buffer[0] := c;
      }
    } else {
      buffer[0] := buffer[0] + c;
    }
    buffer[1] := buffer[1] + f;
    buffer[2] := buffer[2] + 1;
  }

  /** The buffer after accumulating each entry in turn from zeros: the
      hits are summed, the counts summed or (for a peak counter) the
      largest of them and 0, and the last slot counts the entries. */
  function Accumulated(entries: seq<Totals>, isMax: bool): (r: (Totals, nat))
    ensures r.1 == |entries|
    ensures r.0.freq == SumFreq(entries)
    ensures !isMax ==> r.0.cnt == SumCnt(entries)
    ensures isMax ==> r.0.cnt >= 0 && forall k :: 0 <= k < |entries| ==> entries[k].cnt <= r.0.cnt
  {
    if entries == [] then (Totals(0, 0), 0)
    else
      var prev := Accumulated(entries[..|entries| - 1], isMax);
      (Combine(prev.0, entries[|entries| - 1], isMax), prev.1 + 1)
  }

  function SumCnt(entries: seq<Totals>): int
  {
    if entries == [] then 0 else SumCnt(entries[..|entries| - 1]) + entries[|entries| - 1].cnt
  }

  function SumFreq(entries: seq<Totals>): int
  {
    if entries == [] then 0 else SumFreq(entries[..|entries| - 1]) + entries[|entries| - 1].freq
  }

  /** A summing buffer holds the sums; a peak buffer holds the largest
      count (or 0), and always the sum of the hits; the last slot counts
      the entries. */
  lemma {:induction false} AccumulatedMeaning(entries: seq<Totals>, isMax: bool)
    ensures var r := Accumulated(entries, isMax);
      r.0.freq == SumFreq(entries) &&
      (!isMax ==> r.0.cnt == SumCnt(entries)) &&
      (isMax ==> r.0.cnt >= 0 && (forall k :: 0 <= k < |entries| ==> entries[k].cnt <= r.0.cnt) &&
                 (r.0.cnt == 0 || exists k :: 0 <= k < |entries| && entries[k].cnt == r.0.cnt))
  {
    if entries != [] {
      var init := entries[..|entries| - 1];
      AccumulatedMeaning(init, isMax);
      if isMax {
        var r := Accumulated(entries, isMax);
        var p := Accumulated(init, isMax);
        if r.0.cnt == p.0.cnt && p.0.cnt != 0 {
          var k :| 0 <= k < |init| && init[k].cnt == p.0.cnt;
          assert entries[k] == init[k];
        }
      }
    }
  }

  // ---------------------------------------------------------------------
  // HitFilter

  /** The configured bounds; a bound is enabled when it is positive. */
  datatype HitBounds = HitBounds(minValue: int, maxValue: int, minFreq: int, maxFreq: int,
                                 minAvg: int, maxAvg: int)

  /** The magnitude of an integer. */
  function Abs(x: int): nat
  {
    if x < 0 then -x else x
  }

  /** C's integer division, which truncates toward zero: the quotient of
      the magnitudes, negated when the signs differ. */
  function TruncDiv(a: int, b: int): (q: int)
    requires b != 0
    ensures a >= 0 && b > 0 ==> q == a / b
    ensures (a >= 0) == (b > 0) ==> q == Abs(a) / Abs(b)
    ensures (a >= 0) != (b > 0) ==> q == -(Abs(a) / Abs(b))
  {
    if (a >= 0) == (b > 0) then (if a >= 0 then a / b else (-a) / (-b))
    else -((if a < 0 then -a else a) / (if b < 0 then -b else b))
  }

  /** A trace is dropped when an enabled bound is violated; the average
      bounds are only checked when there were hits. */
  predicate Rejected(b: HitBounds, counter: int, freq: int)
  {
    (b.minValue > 0 && counter < b.minValue) ||
    (b.maxValue > 0 && counter > b.maxValue) ||
    (b.minFreq > 0 && freq < b.minFreq) ||
    (b.maxFreq > 0 && freq > b.maxFreq) ||
    (freq != 0 && b.minAvg > 0 && TruncDiv(counter, freq) < b.minAvg) ||
    (freq != 0 && b.maxAvg > 0 && TruncDiv(counter, freq) > b.maxAvg)
  }

  /** HitFilter::filter: the checks in order, each zeroing both values and
      returning on a violation. */
  function HitFilter(b: HitBounds, counter: int, freq: int): (r: (int, int))
    ensures Rejected(b, counter, freq) ==> r == (0, 0)
    ensures !Rejected(b, counter, freq) ==> r == (counter, freq)
  {
    if b.minValue > 0 && counter < b.minValue then (0, 0)
    else if b.maxValue > 0 && counter > b.maxValue then (0, 0)
    else if b.minFreq > 0 && freq < b.minFreq then (0, 0)
    else if b.maxFreq > 0 && freq > b.maxFreq then (0, 0)
    else if b.minAvg > 0 && freq != 0 && TruncDiv(counter, freq) < b.minAvg then (0, 0)
    else if b.maxAvg > 0 && freq != 0 && TruncDiv(counter, freq) > b.maxAvg then (0, 0)
    else (counter, freq)
  }

  /** Filtering twice is filtering once, and with no bound enabled the
      filter keeps everything. */
  lemma HitFilterIdempotent(b: HitBounds, counter: int, freq: int)
    ensures var r := HitFilter(b, counter, freq); HitFilter(b, r.0, r.1) == r
    ensures (b.minValue <= 0 && b.maxValue <= 0 && b.minFreq <= 0 && b.maxFreq <= 0 &&
             b.minAvg <= 0 && b.maxAvg <= 0)
            ==> HitFilter(b, counter, freq) == (counter, freq)
  {
  }

  /** A trace without hits passes both average bounds, whatever its count. */
  lemma NoHitsSkipAverages(b: HitBounds, counter: int)
    requires b.minValue <= 0 && b.maxValue <= 0 && b.minFreq <= 0 && b.maxFreq <= 0
    ensures HitFilter(b, counter, 0) == (counter, 0)
  {
  }

  /** The average truncates: 7 counts over 2 hits average 3, so a minimum
      average of 4 rejects the trace and a maximum of 3 keeps it. */
  lemma AverageTruncates()
    ensures HitFilter(HitBounds(0, 0, 0, 0, 4, 0), 7, 2) == (0, 0)
    ensures HitFilter(HitBounds(0, 0, 0, 0, 0, 3), 7, 2) == (7, 2)
    ensures TruncDiv(-7, 2) == -3
  {
  }
}
