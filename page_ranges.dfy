/** Page ranges of the offline analyser (analyse.cc): sorted lists of
    inclusive [startAddr, endAddr] page intervals that are collapsed,
    merged from child to parent and counted. */
module PageRanges {
  import Sequences

  /** An inclusive interval of pages (or addresses). */
  datatype RangeInfo = RangeInfo(startAddr: nat, endAddr: nat)
  {
    predicate Valid() { startAddr <= endAddr }

    /** Number of pages in the range, endAddr - startAddr + 1. */
    function Size(): (n: nat)
      requires Valid()
      ensures n >= 1
    {
      endAddr - startAddr + 1
    }

    /** The comparison the source hands to std::sort: "this" is less than
        "other" when it ends before "other" starts. */
    predicate Less(other: RangeInfo) { endAddr < other.startAddr }
  }

  type Ranges = seq<RangeInfo>

  predicate AllValid(rs: Ranges) { forall i :: 0 <= i < |rs| ==> rs[i].Valid() }

  /** Non-decreasing start addresses. */
  predicate SortedByStart(rs: Ranges)
  {
    forall i, j :: 0 <= i < j < |rs| ==> rs[i].startAddr <= rs[j].startAddr
  }

  /** Every range ends strictly before the next one starts: the shape the
      collapsing operations produce. */
  predicate Separated(rs: Ranges)
  {
    AllValid(rs) && forall i :: 0 <= i < |rs| - 1 ==> rs[i].endAddr < rs[i + 1].startAddr
  }

  /** The pages of one range. */
  function RangePages(r: RangeInfo): set<nat>
  {
    set x: nat | x <= r.endAddr && InRange(r, x)
  }

  predicate InRange(r: RangeInfo, x: nat) { r.startAddr <= x <= r.endAddr }

  /** The pages covered by a list of ranges. */
  function Pages(rs: Ranges): set<nat>
  {
    if rs == [] then {} else RangePages(rs[0]) + Pages(rs[1..])
  }

  /** Sum of the sizes of the ranges. */
  function SumSizes(rs: Ranges): nat
    requires AllValid(rs)
  {
    if rs == [] then 0 else rs[0].Size() + SumSizes(rs[1..])
  }

  function Last(rs: Ranges): RangeInfo
    requires rs != []
  {
    rs[|rs| - 1]
  }

  lemma {:induction false} PagesAppend(a: Ranges, b: Ranges)
    ensures Pages(a + b) == Pages(a) + Pages(b)
  {
    if a == [] {
      assert a + b == b;
    } else {
      assert (a + b)[1..] == a[1..] + b;
      PagesAppend(a[1..], b);
    }
  }

  lemma PagesOne(r: RangeInfo)
    ensures Pages([r]) == RangePages(r)
  {
    assert [r][1..] == [];
  }

  /** Replacing the last range by its extension to next.endAddr covers
      exactly the pages of the old list plus those of next, provided next
      starts inside the last range (or after its start). */
  lemma ExtendLast(temp: Ranges, next: RangeInfo, newEnd: nat)
    requires temp != []
    requires Last(temp).startAddr <= next.startAddr <= Last(temp).endAddr
    requires newEnd == if next.endAddr >= Last(temp).endAddr then next.endAddr else Last(temp).endAddr
    ensures Pages(temp[..|temp| - 1] + [RangeInfo(Last(temp).startAddr, newEnd)])
         == Pages(temp) + RangePages(next)
  {
    var n := |temp|;
    var cur := Last(temp);
    var ext := RangeInfo(cur.startAddr, newEnd);
    assert temp == temp[..n - 1] + [cur];
    PagesAppend(temp[..n - 1], [cur]);
    PagesAppend(temp[..n - 1], [ext]);
    PagesOne(cur);
    PagesOne(ext);
    RangePagesJoin(cur, next, ext);
  }

  /** A range extended to the end of one starting inside it covers the
      pages of both. */
  lemma RangePagesJoin(cur: RangeInfo, next: RangeInfo, ext: RangeInfo)
    requires cur.startAddr <= next.startAddr <= cur.endAddr
    requires ext == RangeInfo(cur.startAddr, if next.endAddr >= cur.endAddr then next.endAddr else cur.endAddr)
    ensures RangePages(ext) == RangePages(cur) + RangePages(next)
  {
    forall x: nat ensures x in RangePages(ext) <==> x in RangePages(cur) + RangePages(next) {
      assert x in RangePages(ext) <==> InRange(ext, x);
      assert x in RangePages(cur) <==> InRange(cur, x);
      assert x in RangePages(next) <==> InRange(next, x);
    }
  }

  /** Appending a range adds its pages. */
  lemma PushRange(temp: Ranges, next: RangeInfo)
    ensures Pages(temp + [next]) == Pages(temp) + RangePages(next)
  {
    PagesAppend(temp, [next]);
    PagesOne(next);
  }

  lemma PrefixStep(s: Ranges, k: nat)
    requires k < |s|
    ensures Pages(s[..k + 1]) == Pages(s[..k]) + RangePages(s[k])
  {
    assert s[..k + 1] == s[..k] + [s[k]];
    PushRange(s[..k], s[k]);
  }

  /** Extending the last range or appending a new one keeps the list
      separated. */
  lemma SeparatedPush(temp: Ranges, next: RangeInfo)
    requires Separated(temp) && temp != [] && next.Valid()
    requires Last(temp).endAddr < next.startAddr
    ensures Separated(temp + [next])
  {
  }

  lemma SeparatedExtend(temp: Ranges, newEnd: nat)
    requires Separated(temp) && temp != [] && Last(temp).endAddr <= newEnd
    ensures Separated(temp[..|temp| - 1] + [RangeInfo(Last(temp).startAddr, newEnd)])
  {
    var n := |temp|;
    var t := temp[..n - 1] + [RangeInfo(Last(temp).startAddr, newEnd)];
    forall i | 0 <= i < |t| - 1 ensures t[i].endAddr < t[i + 1].startAddr {
      assert t[i] == temp[i];
      assert t[i + 1].startAddr == temp[i + 1].startAddr;
    }
  }

  /** One step of the collapsing loops: fold `next` into the last range of
      `temp` when it starts at or before that range's end (growing the end
      if next reaches further), else append it. */
  function Step(temp: Ranges, next: RangeInfo): (res: Ranges)
    requires temp != []
    ensures res != [] && |temp| <= |res| <= |temp| + 1
  {
    var current := Last(temp);
    if next.startAddr <= current.endAddr then
      temp[..|temp| - 1] + [RangeInfo(current.startAddr, if next.endAddr >= current.endAddr then next.endAddr else current.endAddr)]
    else
      temp + [next]
  }

  /** When next does not start before the last range, a step keeps the
      list separated and adds exactly the pages of next. */
  lemma StepProps(temp: Ranges, next: RangeInfo)
    requires temp != [] && Separated(temp) && next.Valid()
    requires Last(temp).startAddr <= next.startAddr
    ensures Separated(Step(temp, next))
    ensures Pages(Step(temp, next)) == Pages(temp) + RangePages(next)
    ensures Last(Step(temp, next)).startAddr == if next.startAddr <= Last(temp).endAddr then Last(temp).startAddr else next.startAddr
  {
    var current := Last(temp);
    if next.startAddr <= current.endAddr {
      var newEnd := if next.endAddr >= current.endAddr then next.endAddr else current.endAddr;
      ExtendLast(temp, next, newEnd);
      SeparatedExtend(temp, newEnd);
    } else {
      PushRange(temp, next);
      SeparatedPush(temp, next);
    }
  }

  /** Taking element k of a list as the next step, when `temp` already
      covers the first k elements plus `other`. */
  lemma TakeNext(temp: Ranges, s: Ranges, k: nat, other: set<nat>)
    requires temp != [] && Separated(temp) && AllValid(s) && k < |s|
    requires Last(temp).startAddr <= s[k].startAddr
    requires Pages(temp) == Pages(s[..k]) + other
    ensures Separated(Step(temp, s[k]))
    ensures Pages(Step(temp, s[k])) == Pages(s[..k + 1]) + other
    ensures Last(Step(temp, s[k])).startAddr <= s[k].startAddr
  {
    PrefixStep(s, k);
    StepProps(temp, s[k]);
  }

  /** The collapsing loop, run over the rest of a list. */
  function CollapseFrom(temp: Ranges, rest: Ranges): (res: Ranges)
    requires temp != []
    ensures res != []
    decreases |rest|
  {
    if rest == [] then temp else CollapseFrom(Step(temp, rest[0]), rest[1..])
  }

  /** What mergeSortedRanges leaves in its argument, for any input order. */
  function Collapse(source: Ranges): Ranges
  {
    if source == [] then [] else CollapseFrom([source[0]], source[1..])
  }

  /** mergeSortedRanges: collapse a start-sorted list into separated
      ranges covering the same pages; an empty list is left as is. */
  method MergeSortedRanges(source: Ranges) returns (merged: Ranges)
    requires AllValid(source) && SortedByStart(source)
    ensures merged == Collapse(source)
    ensures source == [] ==> merged == []
    ensures Separated(merged)
    ensures Pages(merged) == Pages(source)
    ensures |merged| <= |source|
  {
    if source == [] {
      return source;
    }
    var temp := [source[0]];
    PagesOne(source[0]);
    assert source[..1] == [source[0]];
    var ri := 1;
    while ri != |source|
      invariant 1 <= ri <= |source|
      invariant temp != [] && Separated(temp) && |temp| <= ri
      invariant Pages(temp) == Pages(source[..ri])
      invariant Last(temp).startAddr <= source[ri - 1].startAddr
      invariant CollapseFrom(temp, source[ri..]) == Collapse(source)
    {
      PrefixStep(source, ri);
      StepProps(temp, source[ri]);
      assert source[ri..][1..] == source[ri + 1..];
      temp := Step(temp, source[ri]);
      ri := ri + 1;
    }
    assert source[..ri] == source;
    merged := temp;
  }

  /** What the main loop of mergeRanges keeps: temp is separated and
      covers the ranges taken so far from both lists, and starts no later
      than what is left of either. */
  ghost predicate HeadsInv(dest: Ranges, source: Ranges, temp: Ranges, di: nat, si: nat)
  {
    di <= |dest| && si <= |source| && temp != [] && Separated(temp) &&
    Pages(temp) == Pages(dest[..di]) + Pages(source[..si]) &&
    (di < |dest| ==> Last(temp).startAddr <= dest[di].startAddr) &&
    (si < |source| ==> Last(temp).startAddr <= source[si].startAddr)
  }

  /** Taking the head of dest, whose start is below that of source. */
  lemma TakeDest(dest: Ranges, source: Ranges, temp: Ranges, di: nat, si: nat)
    requires AllValid(dest) && SortedByStart(dest) && HeadsInv(dest, source, temp, di, si)
    requires di < |dest| && si < |source| && dest[di].startAddr < source[si].startAddr
    ensures HeadsInv(dest, source, Step(temp, dest[di]), di + 1, si)
  {
    TakeNext(temp, dest, di, Pages(source[..si]));
    assert di + 1 < |dest| ==> dest[di].startAddr <= dest[di + 1].startAddr;
  }

  /** Taking the head of source, whose start is not above that of dest. */
  lemma TakeSource(dest: Ranges, source: Ranges, temp: Ranges, di: nat, si: nat)
    requires AllValid(source) && SortedByStart(source) && HeadsInv(dest, source, temp, di, si)
    requires di < |dest| && si < |source| && source[si].startAddr <= dest[di].startAddr
    ensures HeadsInv(dest, source, Step(temp, source[si]), di, si + 1)
  {
    TakeNext(temp, source, si, Pages(dest[..di]));
    assert si + 1 < |source| ==> source[si].startAddr <= source[si + 1].startAddr;
  }

  /** The main loop of mergeRanges: repeatedly take whichever list has the
      lower next start address (source on ties) until one list runs out. */
  method MergeHeads(dest: Ranges, source: Ranges, temp0: Ranges, di0: nat, si0: nat)
    returns (temp: Ranges, di: nat, si: nat)
    requires AllValid(dest) && SortedByStart(dest) && AllValid(source) && SortedByStart(source)
    requires HeadsInv(dest, source, temp0, di0, si0)
    ensures di0 <= di && si0 <= si && (di == |dest| || si == |source|)
    ensures HeadsInv(dest, source, temp, di, si)
  {
    temp, di, si := temp0, di0, si0;
    while di < |dest| && si < |source|
      invariant di0 <= di && si0 <= si
      invariant HeadsInv(dest, source, temp, di, si)
      decreases |dest| - di + |source| - si
    {
      if dest[di].startAddr < source[si].startAddr {
        TakeDest(dest, source, temp, di, si);
        temp := Step(temp, dest[di]);
        di := di + 1;
      } else {
        TakeSource(dest, source, temp, di, si);
        temp := Step(temp, source[si]);
        si := si + 1;
      }
    }
  }

  /** What the tail loops of mergeRanges keep: temp is separated, covers
      temp0 and the ranges folded so far, and starts no later than the
      next one. */
  ghost predicate AbsorbInv(temp0: Ranges, rest: Ranges, from: nat, temp: Ranges, ri: nat)
  {
    from <= ri <= |rest| && temp != [] && Separated(temp) &&
    Pages(temp) == Pages(temp0) + Pages(rest[from..ri]) &&
    (ri < |rest| ==> Last(temp).startAddr <= rest[ri].startAddr)
  }

  /** Folding the next range of the rest. */
  lemma AbsorbStep(temp0: Ranges, rest: Ranges, from: nat, temp: Ranges, ri: nat)
    requires AllValid(rest) && SortedByStart(rest) && AbsorbInv(temp0, rest, from, temp, ri) && ri < |rest|
    ensures AbsorbInv(temp0, rest, from, Step(temp, rest[ri]), ri + 1)
  {
    assert rest[from..ri + 1] == rest[from..ri] + [rest[ri]];
    PushRange(rest[from..ri], rest[ri]);
    StepProps(temp, rest[ri]);
    assert ri + 1 < |rest| ==> rest[ri].startAddr <= rest[ri + 1].startAddr;
  }

  /** The tail loops of mergeRanges: fold what is left of one start-sorted
      list, from index `from` on, into `temp`. */
  method AbsorbRest(temp0: Ranges, rest: Ranges, from: nat) returns (temp: Ranges)
    requires temp0 != [] && Separated(temp0)
    requires AllValid(rest) && SortedByStart(rest) && from <= |rest|
    requires from < |rest| ==> Last(temp0).startAddr <= rest[from].startAddr
    ensures temp != [] && Separated(temp)
    ensures Pages(temp) == Pages(temp0) + Pages(rest[from..])
  {
    temp := temp0;
    var ri := from;
    assert rest[from..ri] == [];
    while ri != |rest|
      invariant AbsorbInv(temp0, rest, from, temp, ri)
      decreases |rest| - ri
    {
      AbsorbStep(temp0, rest, from, temp, ri);
      temp := Step(temp, rest[ri]);
      ri := ri + 1;
    }
    assert rest[from..ri] == rest[from..];
  }

  /** mergeRanges: merge the start-sorted list `source` into the
      start-sorted list `dest`, collapsing overlapping ranges; the result
      replaces dest. An empty source leaves dest unchanged and an empty
      dest becomes a copy of source. */
  method MergeRanges(dest: Ranges, source: Ranges) returns (merged: Ranges)
    requires AllValid(dest) && SortedByStart(dest)
    requires AllValid(source) && SortedByStart(source)
    ensures source == [] ==> merged == dest
    ensures source != [] && dest == [] ==> merged == source
    ensures source != [] && dest != [] ==> Separated(merged)
    ensures Pages(merged) == Pages(dest) + Pages(source)
  {
    if source == [] {
      return dest;
    }
    if dest == [] {
      return source;
    }
    var di, si := 0, 0;
    var temp: Ranges;
    if dest[0].startAddr < source[0].startAddr {
      temp := [dest[0]];
      di := 1;
    } else {
      temp := [source[0]];
      si := 1;
    }
    HeadsStart(dest, source, temp, di, si);
    temp, di, si := MergeHeads(dest, source, temp, di, si);
    SplitPages(dest, di);
    SplitPages(source, si);
    if di < |dest| {
      temp := AbsorbRest(temp, dest, di);
    } else {
      temp := AbsorbRest(temp, source, si);
    }
    merged := temp;
  }

  /** The first range taken, the one with the lower start. */
  lemma HeadsStart(dest: Ranges, source: Ranges, temp: Ranges, di: nat, si: nat)
    requires AllValid(dest) && SortedByStart(dest) && AllValid(source) && SortedByStart(source)
    requires dest != [] && source != []
    requires (di, si, temp) == if dest[0].startAddr < source[0].startAddr then (1, 0, [dest[0]]) else (0, 1, [source[0]])
    ensures HeadsInv(dest, source, temp, di, si)
  {
    assert dest[..1] == [dest[0]] && source[..1] == [source[0]];
    assert dest[..0] == [] && source[..0] == [];
    PagesOne(temp[0]);
    assert 1 < |dest| ==> dest[0].startAddr <= dest[1].startAddr;
    assert 1 < |source| ==> source[0].startAddr <= source[1].startAddr;
  }

  /** The pages of a list are those of a prefix and of the rest. */
  lemma SplitPages(a: Ranges, k: nat)
    requires k <= |a|
    ensures Pages(a) == Pages(a[..k]) + Pages(a[k..])
    ensures k == |a| ==> Pages(a[..k]) == Pages(a)
  {
    assert a == a[..k] + a[k..];
    PagesAppend(a[..k], a[k..]);
  }

  /** countPages: the sum of endAddr - startAddr + 1 over the ranges. */
  method CountPages(ranges: Ranges) returns (numOfPages: nat)
    requires AllValid(ranges)
    ensures numOfPages == SumSizes(ranges)
  {
    numOfPages := 0;
    var ri := 0;
    while ri != |ranges|
      invariant 0 <= ri <= |ranges|
      invariant numOfPages + SumSizes(ranges[ri..]) == SumSizes(ranges)
    {
      assert ranges[ri..][1..] == ranges[ri + 1..];
      numOfPages := numOfPages + ranges[ri].Size();
      ri := ri + 1;
    }
  }

  lemma {:induction false} RangePagesCard(r: RangeInfo)
    requires r.Valid()
    ensures |RangePages(r)| == r.Size()
    decreases r.endAddr - r.startAddr
  {
    if r.startAddr == r.endAddr {
      assert RangePages(r) == {r.startAddr};
    } else {
      var shorter := RangeInfo(r.startAddr, r.endAddr - 1);
      RangePagesCard(shorter);
      assert RangePages(r) == RangePages(shorter) + {r.endAddr};
    }
  }

  lemma {:induction false} PagesAbove(rs: Ranges, x: nat)
    requires SortedByStart(rs) && rs != [] && x < rs[0].startAddr
    ensures x !in Pages(rs)
  {
    if |rs| > 1 {
      PagesAbove(rs[1..], x);
    }
    assert Pages(rs) == RangePages(rs[0]) + Pages(rs[1..]);
  }

  lemma SeparatedSorted(rs: Ranges)
    requires Separated(rs)
    ensures SortedByStart(rs)
  {
    forall i, j | 0 <= i < j < |rs| ensures rs[i].startAddr <= rs[j].startAddr {
      SeparatedChain(rs, i, j);
    }
  }

  lemma {:induction false} SeparatedChain(rs: Ranges, i: nat, j: nat)
    requires Separated(rs) && i < j < |rs|
    ensures rs[i].endAddr < rs[j].startAddr
    decreases j - i
  {
    if i + 1 < j {
      SeparatedChain(rs, i + 1, j);
    }
  }

  /** For separated ranges, the page count is the number of distinct pages
      covered. */
  lemma {:induction false} SumSizesIsCard(rs: Ranges)
    requires Separated(rs)
    ensures SumSizes(rs) == |Pages(rs)|
  {
    if rs != [] {
      SumSizesIsCard(rs[1..]);
      RangePagesCard(rs[0]);
      if |rs| > 1 {
        SeparatedSorted(rs[1..]);
        forall x | x in RangePages(rs[0]) ensures x !in Pages(rs[1..]) {
          PagesAbove(rs[1..], x);
        }
      }
      assert RangePages(rs[0]) !! Pages(rs[1..]);
    }
  }

  /** After a child's separated cumulative ranges are merged into its
      parent's, the parent counts at least as many pages as the child: the
      assertion that follows mergeRanges in the cumulative-info filter. */
  lemma ParentCoversChild(parent: Ranges, child: Ranges, merged: Ranges)
    requires Separated(parent) && Separated(child)
    requires Pages(merged) == Pages(parent) + Pages(child)
    requires Separated(merged)
    ensures SumSizes(merged) >= SumSizes(child)
  {
    SumSizesIsCard(merged);
    SumSizesIsCard(child);
    assert Pages(child) <= Pages(merged);
    Sequences.SubsetCard(Pages(child), Pages(merged));
  }

  /** The cumulative-info post step: merge then count. Its result
      satisfies the parent >= child page assertion of the source. */
  method AccumulateRanges(parentCum: Ranges, childCum: Ranges) returns (newParent: Ranges, parentPages: nat, childPages: nat)
    requires Separated(parentCum) && Separated(childCum)
    ensures Pages(newParent) == Pages(parentCum) + Pages(childCum)
    ensures parentPages >= childPages
    ensures childPages == SumSizes(childCum)
  {
    SeparatedSorted(parentCum);
    SeparatedSorted(childCum);
    newParent := MergeRanges(parentCum, childCum);
    assert Separated(newParent);
    parentPages := CountPages(newParent);
    childPages := CountPages(childCum);
    ParentCoversChild(parentCum, childCum, newParent);
  }

  /** std::sort with RangeInfo's operator< only guarantees that no range
      is "less" than a range placed before it. */
  predicate SortedForLess(rs: Ranges)
  {
    forall i, j :: 0 <= i < j < |rs| ==> !rs[j].Less(rs[i])
  }

  /** Two leaks that share page 5: pages 5..10 and pages 3..5. Neither
      range is "less" than the other, so std::sort may keep them in this
      order, and mergeSortedRanges then folds the second into the first
      and drops pages 3 and 4. */
  lemma SortWithLessMayLosePages()
    ensures SortedForLess([RangeInfo(5, 10), RangeInfo(3, 5)])
    ensures 3 in Pages([RangeInfo(5, 10), RangeInfo(3, 5)])
    ensures Collapse([RangeInfo(5, 10), RangeInfo(3, 5)]) == [RangeInfo(5, 10)]
    ensures 3 !in Pages(Collapse([RangeInfo(5, 10), RangeInfo(3, 5)]))
  {
    var rs := [RangeInfo(5, 10), RangeInfo(3, 5)];
    assert InRange(rs[1], 3);
    PagesAppend([rs[0]], [rs[1]]);
    PagesOne(rs[0]);
    PagesOne(rs[1]);
    assert rs == [rs[0]] + [rs[1]];
    assert Step([rs[0]], rs[1]) == [RangeInfo(5, 10)];
    assert rs[1..][1..] == [];
    assert Collapse(rs) == [RangeInfo(5, 10)];
    PagesOne(RangeInfo(5, 10));
  }

  /** The ordering the collapse needs: by start address. */
  function InsertByStart(r: RangeInfo, rs: Ranges): (res: Ranges)
    ensures |res| == |rs| + 1
    ensures forall x :: x in res <==> x == r || x in rs
  {
    if rs == [] || r.startAddr <= rs[0].startAddr then [r] + rs
    else [rs[0]] + InsertByStart(r, rs[1..])
  }

  function SortByStart(rs: Ranges): (res: Ranges)
    ensures |res| == |rs|
  {
    if rs == [] then [] else InsertByStart(rs[0], SortByStart(rs[1..]))
  }

  lemma {:induction false} InsertByStartProps(r: RangeInfo, rs: Ranges)
    requires SortedByStart(rs)
    ensures SortedByStart(InsertByStart(r, rs))
    ensures Pages(InsertByStart(r, rs)) == RangePages(r) + Pages(rs)
  {
    if rs == [] || r.startAddr <= rs[0].startAddr {
      PagesAppend([r], rs);
      PagesOne(r);
    } else {
      InsertByStartProps(r, rs[1..]);
      var tail := InsertByStart(r, rs[1..]);
      PagesAppend([rs[0]], tail);
      PagesOne(rs[0]);
      forall j | 0 <= j < |tail| ensures rs[0].startAddr <= tail[j].startAddr {
        assert tail[j] in tail;
      }
    }
  }

  lemma {:induction false} SortByStartProps(rs: Ranges)
    ensures SortedByStart(SortByStart(rs))
    ensures Pages(SortByStart(rs)) == Pages(rs)
    ensures forall x :: x in SortByStart(rs) <==> x in rs
  {
    if rs != [] {
      SortByStartProps(rs[1..]);
      InsertByStartProps(rs[0], SortByStart(rs[1..]));
      assert forall x :: x in rs <==> x == rs[0] || x in rs[1..];
    }
  }

  /** The leak ranges of one counter on a stack node's line are sorted,
      collapsed and merged into the node's ranges, ordering them by start
      address, when that counter is the one selected by the report's key
      (`isKey`). The merged ranges cover exactly the old pages plus the
      leaks' pages. The leaks of any other counter are parsed and then
      dropped, leaving the node's ranges as they were. */
  method AddLeakRanges(nodeRanges: Ranges, leaks: Ranges, isKey: bool) returns (newRanges: Ranges)
    requires AllValid(nodeRanges) && SortedByStart(nodeRanges) && AllValid(leaks)
    ensures isKey ==> Pages(newRanges) == Pages(nodeRanges) + Pages(leaks)
    ensures !isKey || leaks == [] ==> newRanges == nodeRanges
  {
    if leaks == [] || !isKey {
      return nodeRanges;
    }
    SortByStartProps(leaks);
    var sorted := SortByStart(leaks);
    assert AllValid(sorted) by {
      forall i | 0 <= i < |sorted| ensures sorted[i].Valid() {
        assert sorted[i] in leaks;
      }
    }
    var collapsed := MergeSortedRanges(sorted);
    SeparatedSorted(collapsed);
    newRanges := MergeRanges(nodeRanges, collapsed);
  }

  /** A leak of `size` bytes at `address`, as a range from its address to
      address + size + 1. When pages are shown (--show-pages or
      --show-page-ranges) both ends are shifted right by 12 bits, to
      4096-byte pages; otherwise the range stays in addresses. */
  function LeakPageRange(address: nat, size: nat, showPages: bool): (r: RangeInfo)
    requires size > 0
    ensures r.Valid()
    ensures !showPages ==> r.startAddr == address && r.endAddr == address + size + 1
    ensures showPages ==> r.startAddr * 4096 <= address < (r.startAddr + 1) * 4096
    ensures showPages ==> r.endAddr * 4096 <= address + size + 1 < (r.endAddr + 1) * 4096
  {
    if showPages then RangeInfo(address / 4096, (address + size + 1) / 4096)
    else RangeInfo(address, address + size + 1)
  }
}
