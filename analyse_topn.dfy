/** The top-N report: while the call tree is walked, every node's self
    count competes for one of N slots; a count displaces the smallest slot
    value strictly below it, and the slot remembers the stack trace that
    led to the node. */
module TopN {

  function Zeros(n: nat): (z: seq<int>)
    ensures |z| == n && forall k :: 0 <= k < n ==> z[k] == 0
  {
    seq(n, _ => 0)
  }

  /** Descending insertion, a new value going before the first one it is
      not below. */
  function InsertDesc(x: int, s: seq<int>): (r: seq<int>)
    ensures multiset(r) == multiset(s) + multiset{x}
    ensures |r| == |s| + 1
  {
    if s == [] || x >= s[0] then [x] + s
    else
      assert s == [s[0]] + s[1..];
      [s[0]] + InsertDesc(x, s[1..])
  }

  function SortDesc(s: seq<int>): (r: seq<int>)
    ensures multiset(r) == multiset(s)
    ensures |r| == |s|
  {
    if s == [] then []
    else
      assert s == [s[0]] + s[1..];
      InsertDesc(s[0], SortDesc(s[1..]))
  }

  predicate Descending(s: seq<int>)
  {
    forall i, j :: 0 <= i < j < |s| ==> s[i] >= s[j]
  }

  lemma {:induction false} InsertDescSorted(x: int, s: seq<int>)
    requires Descending(s)
    ensures Descending(InsertDesc(x, s))
    decreases |s|
  {
    if s == [] || x >= s[0] {
      ConsDescending(x, s);
    } else {
      InsertDescSorted(x, s[1..]);
      var r := InsertDesc(x, s[1..]);
      forall k | 0 <= k < |r|
        ensures s[0] >= r[k]
      {
        InsertDescFrom(x, s[1..], k);
        if r[k] != x {
          var j :| 0 <= j < |s[1..]| && s[1..][j] == r[k];
          assert s[j + 1] == r[k];
        }
      }
      ConsDescending(s[0], r);
    }
  }

  lemma InsertDescFrom(x: int, s: seq<int>, k: nat)
    requires k < |InsertDesc(x, s)|
    ensures InsertDesc(x, s)[k] == x || InsertDesc(x, s)[k] in s
  {
    var r := InsertDesc(x, s);
    assert r[k] in multiset(r);
  }

  /** A value no smaller than every element goes first. */
  lemma ConsDescending(x: int, s: seq<int>)
    requires Descending(s) && forall k :: 0 <= k < |s| ==> x >= s[k]
    ensures Descending([x] + s)
  {
    var r := [x] + s;
    forall i, j | 0 <= i < j < |r| ensures r[i] >= r[j] {
      assert r[j] == s[j - 1];
      if i > 0 {
        assert r[i] == s[i - 1];
      }
    }
  }


  /** The ranking order sorts descending and keeps every value. */
  lemma {:induction false} SortDescSorted(s: seq<int>)
    ensures Descending(SortDesc(s)) && multiset(SortDesc(s)) == multiset(s)
    decreases |s|
  {
    if s != [] {
      SortDescSorted(s[1..]);
      InsertDescSorted(s[0], SortDesc(s[1..]));
    }
  }

  /** The (value, slot) pairs of stackTrace, ordered by Cmp (larger value
      first) with the same insertion. */
  function InsertPair(p: (int, nat), s: seq<(int, nat)>): (r: seq<(int, nat)>)
    ensures |r| == |s| + 1
    ensures forall k :: 0 <= k < |r| ==> r[k] == p || r[k] in s
  {
    if s == [] || !(p.0 < s[0].0) then [p] + s else [s[0]] + InsertPair(p, s[1..])
  }

  function SortPairs(s: seq<(int, nat)>): (r: seq<(int, nat)>)
    ensures |r| == |s|
    ensures forall k :: 0 <= k < |r| ==> r[k] in s
  {
    if s == [] then [] else InsertPair(s[0], SortPairs(s[1..]))
  }

  function Firsts(s: seq<(int, nat)>): (f: seq<int>)
    ensures |f| == |s| && forall k :: 0 <= k < |s| ==> f[k] == s[k].0
  {
    if s == [] then [] else [s[0].0] + Firsts(s[1..])
  }

  lemma {:induction false} InsertPairFirsts(p: (int, nat), s: seq<(int, nat)>)
    ensures Firsts(InsertPair(p, s)) == InsertDesc(p.0, Firsts(s))
    decreases |s|
  {
    if s != [] && p.0 < s[0].0 {
      InsertPairFirsts(p, s[1..]);
    }
  }

  /** Sorting the pairs orders their values as SortDesc does. */
  lemma {:induction false} SortPairsFirsts(s: seq<(int, nat)>)
    ensures Firsts(SortPairs(s)) == SortDesc(Firsts(s))
    decreases |s|
  {
    if s != [] {
      SortPairsFirsts(s[1..]);
      InsertPairFirsts(s[0], SortPairs(s[1..]));
      assert Firsts(s)[1..] == Firsts(s[1..]);
    }
  }

  /** Nothing in lost exceeds any slot value. */
  predicate Below(lost: multiset<int>, slots: seq<int>)
  {
    forall d, k :: d in lost && 0 <= k < |slots| ==> d <= slots[k]
  }

  /** A count no slot is below of is lost without changing the slots. */
  lemma LoseCount(lost: multiset<int>, slots: seq<int>, cnt: int)
    requires Below(lost, slots)
    requires forall k :: 0 <= k < |slots| ==> slots[k] >= cnt
    ensures Below(lost + multiset{cnt}, slots)
  {
  }

  /** Replacing a smallest slot value by a larger count loses that value. */
  lemma ReplaceSmallest(lost: multiset<int>, slots: seq<int>, m: nat, cnt: int)
    requires Below(lost, slots) && m < |slots| && slots[m] < cnt
    requires forall k :: 0 <= k < |slots| ==> slots[m] <= slots[k]
    ensures Below(lost + multiset{slots[m]}, slots[m := cnt])
    ensures multiset(slots[m := cnt]) + (lost + multiset{slots[m]}) ==
            multiset(slots) + lost + multiset{cnt}
  {
    var t := slots[m := cnt];
    forall d, k | d in lost + multiset{slots[m]} && 0 <= k < |t|
      ensures d <= t[k]
    {
      if d != slots[m] {
        assert d in lost;
      }
    }
  }

  /** The slot the scan of pre settles on after looking at s[i..], having
      chosen min so far: a value below cnt and strictly below the chosen
      one takes its place. */
  function SlotFrom(s: seq<int>, cnt: int, i: nat, min: int): (r: int)
    requires i <= |s|
    ensures -1 <= min < |s| ==> -1 <= r < |s|
    decreases |s| - i
  {
    if i == |s| then min
    else SlotFrom(s, cnt, i + 1, if s[i] < cnt && (min == -1 || (0 <= min < |s| && s[i] < s[min])) then i else min)
  }

  /** The slot a count of cnt displaces, or -1. */
  function Slot(s: seq<int>, cnt: int): (r: int)
    ensures -1 <= r < |s|
  {
    SlotFrom(s, cnt, 0, -1)
  }

  /** The slots after a count of cnt competed. */
  function Offer(s: seq<int>, cnt: int): seq<int>
  {
    var m := Slot(s, cnt);
    if 0 <= m < |s| then s[m := cnt] else s
  }

  /** The scan settles on the first of the smallest values below cnt,
      or on -1 when no value is below cnt. */
  lemma {:induction false} SlotFromMeaning(s: seq<int>, cnt: int, i: nat, min: int)
    requires i <= |s| && -1 <= min < i
    requires min == -1 ==> forall k :: 0 <= k < i ==> s[k] >= cnt
    requires min >= 0 ==> s[min] < cnt && (forall k :: 0 <= k < i ==> s[min] <= s[k]) &&
                          (forall k :: 0 <= k < min ==> s[min] < s[k])
    ensures var m := SlotFrom(s, cnt, i, min);
      -1 <= m < |s| &&
      (m == -1 <==> forall k :: 0 <= k < |s| ==> s[k] >= cnt) &&
      (m >= 0 ==> s[m] < cnt && (forall k :: 0 <= k < |s| ==> s[m] <= s[k]) &&
                  (forall k :: 0 <= k < m ==> s[m] < s[k]))
    decreases |s| - i
  {
    if i < |s| {
      var next := if s[i] < cnt && (min == -1 || (0 <= min < |s| && s[i] < s[min])) then i else min;
      SlotFromMeaning(s, cnt, i + 1, next);
    }
  }

  /** A count no slot is below of leaves the slots as they are; any
      other count replaces the first of the smallest slots, which is
      below it. */
  lemma OfferMeaning(s: seq<int>, cnt: int)
    ensures var m := Slot(s, cnt);
      -1 <= m < |s| &&
      (m == -1 <==> forall k :: 0 <= k < |s| ==> s[k] >= cnt) &&
      (m == -1 ==> Offer(s, cnt) == s) &&
      (m >= 0 ==> s[m] < cnt && (forall k :: 0 <= k < |s| ==> s[m] <= s[k]) &&
                  (forall k :: 0 <= k < m ==> s[m] < s[k]) && Offer(s, cnt) == s[m := cnt])
  {
    SlotFromMeaning(s, cnt, 0, -1);
  }

  /** TopNBuilderFilter. Node pointers are node ids. */
  class TopNBuilder {
    const rankingSize: nat
    const values: array<int>
    const traces: array<seq<nat>>
    var current: seq<nat>
    /** The counts that have competed so far, and those that lost. */
    ghost var seen: seq<int>
    ghost var discarded: multiset<int>

    /** The slots hold the N largest of N zeros and the counts seen: what
        was pushed out or never got in is no larger than any slot. */
    ghost predicate Valid()
      reads this, values
    {
      values.Length == rankingSize && traces.Length == rankingSize &&
      multiset(values[..]) + discarded == multiset(Zeros(rankingSize)) + multiset(seen) &&
      Below(discarded, values[..])
    }

    constructor(n: nat)
      ensures Valid() && fresh(values) && fresh(traces)
      ensures rankingSize == n && values[..] == Zeros(n) && current == [] && seen == []
      ensures forall k :: 0 <= k < n ==> traces[k] == []
    {
      rankingSize := n;
      values := new int[n](_ => 0);
      traces := new seq<nat>[n](_ => []);
      current := [];
      seen := [];
      discarded := multiset{};
      new;
      assert values[..] == Zeros(n);
    }

    /** The slot pre would fill: the first smallest value strictly below
        cnt, or -1. */
    method FindSlot(cnt: int) returns (min: int)
      requires values.Length == rankingSize
      ensures min == Slot(values[..], cnt)
      ensures -1 <= min < rankingSize
      ensures min == -1 <==> forall k :: 0 <= k < rankingSize ==> values[k] >= cnt
      ensures min >= 0 ==> values[min] < cnt &&
                           (forall k :: 0 <= k < rankingSize ==> values[min] <= values[k]) &&
                           (forall k :: 0 <= k < min ==> values[min] < values[k])
    {
      min := -1;
      for i := 0 to rankingSize
        invariant -1 <= min < i
        invariant SlotFrom(values[..], cnt, i, min) == Slot(values[..], cnt)
        invariant min == -1 ==> forall k :: 0 <= k < i ==> values[k] >= cnt
        invariant min >= 0 ==> values[min] < cnt &&
                               (forall k :: 0 <= k < i ==> values[min] <= values[k]) &&
                               (forall k :: 0 <= k < min ==> values[min] < values[k])
      {
        if values[i] < cnt && (min == -1 || values[i] < values[min]) {
          min := i;
        }
      }
    }

    /** pre(parent, node): push the node, then let its count compete. */
    method Pre(node: nat, cnt: int)
      requires Valid()
      modifies this, values, traces
      ensures Valid()
      ensures current == old(current) + [node] && seen == old(seen) + [cnt]
      ensures values[..] == Offer(old(values[..]), cnt)
      ensures traces[..] == (if Slot(old(values[..]), cnt) == -1 then old(traces[..])
                             else old(traces[..])[Slot(old(values[..]), cnt) := current])
    {
      current := current + [node];
      seen := seen + [cnt];
      assert multiset(seen) == multiset(old(seen)) + multiset{cnt};
      var min := FindSlot(cnt);
      if min == -1 {
        LoseCount(discarded, values[..], cnt);
        discarded := discarded + multiset{cnt};
        assert multiset(values[..]) + discarded == old(multiset(values[..]) + discarded) + multiset{cnt};
        return;
      }
      var lost := values[min];
      ReplaceSmallest(discarded, values[..], min, cnt);
      discarded := discarded + multiset{lost};
      values[min] := cnt;
      traces[min] := current;
      assert values[..] == old(values[..])[min := cnt];
    }

    /** post: pop the stack trace. */
    method Post()
      modifies this
      ensures current == if old(current) == [] then [] else old(current)[..|old(current)| - 1]
      ensures seen == old(seen) && discarded == old(discarded)
    {
      if current != [] {
        current := current[..|current| - 1];
      }
    }

    /** stackTrace(pos, value): the pos-th largest slot value and the trace
        of a slot that holds it. */
    method StackTrace(pos: nat) returns (value: int, trace: seq<nat>)
      requires Valid() && pos < rankingSize
      ensures value == SortDesc(values[..])[pos]
      ensures exists k :: 0 <= k < rankingSize && values[k] == value && traces[k] == trace
    {
      var sorted: seq<(int, nat)> := [];
      for i := 0 to rankingSize
        invariant |sorted| == i
        invariant forall k :: 0 <= k < i ==> sorted[k] == (values[k], k)
      {
        sorted := sorted + [(values[i], i)];
      }
      assert Firsts(sorted) == values[..];
      SortPairsFirsts(sorted);
      var ordered := SortPairs(sorted);
      var p := ordered[pos];
      assert p in sorted;
      value := values[p.1];
      trace := traces[p.1];
    }
  }

  /** Counts 5, 3 and 7 over two slots: 7 displaces 3, the smallest. */
  method TopTwoOfThree() returns (first: int, second: int)
    ensures first == 5 && second == 7
  {
    var t := new TopNBuilder(2);
    assert t.values[..] == [0, 0];
    assert Offer([0, 0], 5) == [5, 0];
    t.Pre(1, 5);
    assert t.values[..] == [5, 0];
    assert Offer([5, 0], 3) == [5, 3];
    t.Pre(2, 3);
    assert t.values[..] == [5, 3];
    assert Offer([5, 3], 7) == [5, 7];
    t.Pre(3, 7);
    assert t.values[..] == [5, 7];
    first := t.values[0];
    second := t.values[1];
  }
}
