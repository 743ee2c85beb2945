/** IgProfTrace: a profiler's trace buffer. A push descends the call tree
    along a call stack and applies records to the frame it reaches: it
    ticks that frame's counters and acquires or releases resources, which
    are kept in a hash table of chains sorted by resource and, per counter,
    in a list of live resources. Pointers are indices: into the nodes of
    the call tree, into the counters and into the resources, which only
    ever grow (allocation appends); the linked lists are sequences. */
module TraceBuffer {
  import opened Options
  import opened TraceTree

  /** Number of hash bins of the resource table. */
  const RESOURCE_HASH: nat := 0x100000

  /** Record type bits. */
  const COUNT: nat := 1
  const ACQUIRE: nat := 2
  const RELEASE: nat := 4

  predicate HasBit(kind: nat, bit: nat)
    requires bit == COUNT || bit == ACQUIRE || bit == RELEASE
  {
    (kind / bit) % 2 == 1
  }

  datatype CounterType = Tick | TickPeak | Max

  /** A counter definition; definitions are told apart by value. */
  datatype CounterDef = CounterDef(id: nat, kind: CounterType)

  /** A counter of a frame; resources lists its live resources, most
      recent first. */
  datatype Counter = Counter(ticks: int, value: int, peak: int, def: CounterDef, frame: nat, resources: seq<nat>)

  /** A resource record; a freed one has no counter and no definition. */
  datatype Resource = Resource(resource: nat, size: int, counter: Option<nat>, def: Option<CounterDef>)

  /** What a caller records against the frame of its call stack. */
  datatype Record = Record(kind: nat, def: CounterDef, amount: int, ticks: int, resource: nat)

  /** The counter after one record: TICK and TICK_PEAK add the amount,
      MAX keeps the larger value, TICK_PEAK raises the peak to the value,
      and the ticks always add. */
  function Ticked(c: Counter, kind: CounterType, amount: int, ticks: int): (r: Counter)
  {
    var value := if kind == Tick || kind == TickPeak then c.value + amount
                 else if c.value < amount then amount else c.value;
    var peak := if kind == TickPeak && value > c.peak then value else c.peak;
    c.(value := value, peak := peak, ticks := c.ticks + ticks)
  }

  /** A counter found or appended zeroed, then ticked: the others keep
      their definitions and frames. */
  lemma TickAfterFind(ctrs0: seq<Counter>, ctrs1: seq<Counter>, ctrs2: seq<Counter>, c: nat, def: CounterDef, frame: nat,
                      amount: int, ticks: int)
    requires c <= |ctrs0| && (c < |ctrs0| ==> ctrs1 == ctrs0)
    requires c == |ctrs0| ==> ctrs1 == ctrs0 + [Counter(0, 0, 0, def, frame, [])]
    requires ctrs2 == ctrs1[c := Ticked(ctrs1[c], def.kind, amount, ticks)]
    ensures |ctrs0| <= |ctrs2| && c < |ctrs2|
    ensures ctrs2[c] == Ticked(if c < |ctrs0| then ctrs0[c] else Counter(0, 0, 0, def, frame, []), def.kind, amount, ticks)
    ensures forall c' :: 0 <= c' < |ctrs0| ==> ctrs2[c'].def == ctrs0[c'].def && ctrs2[c'].frame == ctrs0[c'].frame
  {
  }

  /** What a record does to a counter. */
  lemma TickedMeaning(c: Counter, kind: CounterType, amount: int, ticks: int)
    ensures var r := Ticked(c, kind, amount, ticks);
      r.ticks == c.ticks + ticks && r.def == c.def && r.frame == c.frame && r.resources == c.resources &&
      (kind != Max ==> r.value == c.value + amount) &&
      (kind == Max ==> r.value >= c.value && r.value >= amount && (r.value == c.value || r.value == amount)) &&
      (kind == TickPeak ==> r.peak >= r.value && r.peak >= c.peak) &&
      (kind != TickPeak ==> r.peak == c.peak)
  {
  }

  /** A TICK_PEAK counter whose peak is at least its value keeps it so. */
  lemma PeakBoundsValue(c: Counter, amount: int, ticks: int)
    requires c.peak >= c.value
    ensures Ticked(c, TickPeak, amount, ticks).peak >= Ticked(c, TickPeak, amount, ticks).value
    ensures Ticked(c, TickPeak, amount, ticks).peak == if c.value + amount > c.peak then c.value + amount else c.peak
  {
  }

  /** The hash bin of a resource. */
  function Bin(hashOf: nat -> nat, resource: nat): (b: nat)
    ensures b < RESOURCE_HASH
  {
    hashOf(resource) % RESOURCE_HASH
  }

  /** The first occurrence of x taken out of s. */
  function RemoveFirst(s: seq<nat>, x: nat): (r: seq<nat>)
    ensures forall y :: y in s && y != x ==> y in r
    ensures forall y :: y in r ==> y in s
    ensures x in s ==> |r| == |s| - 1
  {
    if s == [] then []
    else if s[0] == x then s[1..]
    else [s[0]] + RemoveFirst(s[1..], x)
  }

  /** The first j < |s| dropped. */
  function Without(s: seq<nat>, j: nat): (r: seq<nat>)
    requires j < |s|
    ensures |r| == |s| - 1
    ensures forall i :: 0 <= i < |r| ==> r[i] == if i < j then s[i] else s[i + 1]
  {
    s[..j] + s[j + 1..]
  }

  /** r is a live resource record of a counter, listed among the
      counter's live resources. */
  predicate Live(r: nat, res: seq<Resource>, ctrs: seq<Counter>)
  {
    r < |res| && res[r].counter.Some? && res[r].def.Some? &&
    res[r].counter.value < |ctrs| && r in ctrs[res[r].counter.value].resources
  }

  /** r is the live record of this resource under this definition. */
  predicate Matches(r: nat, res: seq<Resource>, resource: nat, def: CounterDef)
  {
    r < |res| && res[r].resource == resource && res[r].def == Some(def)
  }

  /** One of the counters listed has the definition. */
  predicate HasCounterIn(list: seq<nat>, ctrs: seq<Counter>, def: CounterDef)
    decreases |list|
  {
    |list| > 0 && ((list[0] < |ctrs| && ctrs[list[0]].def == def) || HasCounterIn(list[1..], ctrs, def))
  }

  /** A listed counter with the definition is found. */
  lemma {:induction false} HasCounterAt(list: seq<nat>, ctrs: seq<Counter>, def: CounterDef, j: nat)
    requires j < |list| && list[j] < |ctrs| && ctrs[list[j]].def == def
    ensures HasCounterIn(list, ctrs, def)
    decreases j
  {
    if j > 0 {
      HasCounterAt(list[1..], ctrs, def, j - 1);
    }
  }

  lemma HasCounterMember(list: seq<nat>, ctrs: seq<Counter>, def: CounterDef, c: nat)
    requires c in list && c < |ctrs| && ctrs[c].def == def
    ensures HasCounterIn(list, ctrs, def)
  {
    var j :| 0 <= j < |list| && list[j] == c;
    HasCounterAt(list, ctrs, def, j);
  }

  /** A counter found stays found when counters keep their definitions
      and the list only grows at its end. */
  lemma {:induction false} HasCounterGrows(list0: seq<nat>, ctrs0: seq<Counter>, list1: seq<nat>, ctrs1: seq<Counter>, def: CounterDef)
    requires HasCounterIn(list0, ctrs0, def)
    requires list0 <= list1 && |ctrs0| <= |ctrs1| && forall c :: 0 <= c < |ctrs0| ==> ctrs1[c].def == ctrs0[c].def
    ensures HasCounterIn(list1, ctrs1, def)
    decreases |list0|
  {
    if !(list0[0] < |ctrs0| && ctrs0[list0[0]].def == def) {
      HasCounterGrows(list0[1..], ctrs0, list1[1..], ctrs1, def);
    }
  }

  /** Each counted or acquired definition among the first k records has
      a counter among those listed. */
  predicate Provided(recs: seq<Record>, k: nat, list: seq<nat>, ctrs: seq<Counter>)
    requires k <= |recs|
  {
    forall i :: 0 <= i < k && (HasBit(recs[i].kind, COUNT) || HasBit(recs[i].kind, ACQUIRE)) ==>
      HasCounterIn(list, ctrs, recs[i].def)
  }

  /** Counters for the records' definitions survive changes that keep
      counters' definitions and only extend the list, and record k adds
      its own. */
  lemma CountersKept(recs: seq<Record>, k: nat, list0: seq<nat>, ctrs0: seq<Counter>, list1: seq<nat>, ctrs1: seq<Counter>)
    requires k < |recs| && Provided(recs, k, list0, ctrs0)
    requires list0 <= list1 && |ctrs0| <= |ctrs1| && forall c :: 0 <= c < |ctrs0| ==> ctrs1[c].def == ctrs0[c].def
    requires HasBit(recs[k].kind, COUNT) || HasBit(recs[k].kind, ACQUIRE) ==> HasCounterIn(list1, ctrs1, recs[k].def)
    ensures Provided(recs, k + 1, list1, ctrs1)
  {
    forall i | 0 <= i < k && (HasBit(recs[i].kind, COUNT) || HasBit(recs[i].kind, ACQUIRE))
      ensures HasCounterIn(list1, ctrs1, recs[i].def)
    {
      HasCounterGrows(list0, ctrs0, list1, ctrs1, recs[i].def);
    }
  }

  /** A hash chain: live records of resources hashing to bin b, no record
      twice and no resource twice under one definition, sorted by
      resource. */
  predicate ChainOk(chain: seq<nat>, b: nat, res: seq<Resource>, ctrs: seq<Counter>, hashOf: nat -> nat)
  {
    (forall j :: 0 <= j < |chain| ==> Live(chain[j], res, ctrs) && Bin(hashOf, res[chain[j]].resource) == b) &&
    (forall i, j :: 0 <= i < j < |chain| ==>
       chain[i] != chain[j] && res[chain[i]].resource <= res[chain[j]].resource &&
       !Matches(chain[j], res, res[chain[i]].resource, res[chain[i]].def.value))
  }

  /** The free list: distinct freed records. */
  predicate FreeOk(free: seq<nat>, res: seq<Resource>)
  {
    (forall j :: 0 <= j < |free| ==> free[j] < |res| && res[free[j]].counter.None?) &&
    (forall i, j :: 0 <= i < j < |free| ==> free[i] != free[j])
  }

  /** A counter's list of live resources: distinct records, each of them
      live under that counter and its definition. */
  predicate LiveListOk(list: seq<nat>, c: nat, def: CounterDef, res: seq<Resource>)
  {
    (forall j :: 0 <= j < |list| ==> list[j] < |res| && res[list[j]].counter == Some(c) && res[list[j]].def == Some(def)) &&
    (forall i, j :: 0 <= i < j < |list| ==> list[i] != list[j])
  }

  /** Taking a record out of a list without repeats leaves the others,
      still without repeats. */
  lemma {:induction false} RemoveDistinct(s: seq<nat>, x: nat)
    requires forall i, j :: 0 <= i < j < |s| ==> s[i] != s[j]
    ensures x !in RemoveFirst(s, x)
    ensures forall i, j :: 0 <= i < j < |RemoveFirst(s, x)| ==> RemoveFirst(s, x)[i] != RemoveFirst(s, x)[j]
  {
    if s != [] && s[0] != x {
      RemoveDistinct(s[1..], x);
      var t := RemoveFirst(s[1..], x);
      assert s[0] !in t by {
        assert s[0] !in s[1..];
      }
    } else if s != [] {
      assert x !in s[1..];
    }
  }

  /** A chain stays valid when its records and their counters' lists of
      live resources keep them. */
  lemma ChainStable(chain: seq<nat>, b: nat, res: seq<Resource>, ctrs: seq<Counter>,
                    res': seq<Resource>, ctrs': seq<Counter>, hashOf: nat -> nat)
    requires ChainOk(chain, b, res, ctrs, hashOf)
    requires forall j :: 0 <= j < |chain| ==> chain[j] < |res'| && res'[chain[j]] == res[chain[j]] && Live(chain[j], res', ctrs')
    ensures ChainOk(chain, b, res', ctrs', hashOf)
  {
    forall i, j | 0 <= i < j < |chain|
      ensures !Matches(chain[j], res', res'[chain[i]].resource, res'[chain[i]].def.value)
    {
      assert !Matches(chain[j], res, res[chain[i]].resource, res[chain[i]].def.value);
    }
  }

  /** An earlier record of a chain does not match a later one's resource
      and definition. */
  lemma ChainMatchesOnce(chain: seq<nat>, b: nat, res: seq<Resource>, ctrs: seq<Counter>, hashOf: nat -> nat, j: nat, k: nat)
    requires ChainOk(chain, b, res, ctrs, hashOf) && j < k < |chain|
    ensures !Matches(chain[j], res, res[chain[k]].resource, res[chain[k]].def.value)
  {
    assert !Matches(chain[k], res, res[chain[j]].resource, res[chain[j]].def.value);
  }

  /** A record of a valid chain that matches a resource and definition is
      the chain's only record matching them. */
  lemma ChainMatchUnique(chain: seq<nat>, b: nat, res: seq<Resource>, ctrs: seq<Counter>, hashOf: nat -> nat, pos: nat, resource: nat, def: CounterDef)
    requires ChainOk(chain, b, res, ctrs, hashOf) && pos < |chain| && Matches(chain[pos], res, resource, def)
    ensures forall j :: 0 <= j < |chain| && Matches(chain[j], res, resource, def) ==> j == pos
  {
  }

  /** Dropping one record keeps a chain valid, and once the match of a
      resource is dropped there is none left. */
  lemma ChainWithout(chain: seq<nat>, pos: nat, b: nat, res: seq<Resource>, ctrs: seq<Counter>, hashOf: nat -> nat)
    requires ChainOk(chain, b, res, ctrs, hashOf) && pos < |chain|
    ensures ChainOk(Without(chain, pos), b, res, ctrs, hashOf)
    ensures forall j :: 0 <= j < |chain| - 1 ==> Without(chain, pos)[j] != chain[pos]
    ensures var m := chain[pos];
      forall j :: 0 <= j < |chain| - 1 ==> !Matches(Without(chain, pos)[j], res, res[m].resource, res[m].def.value)
  {
    var w := Without(chain, pos);
    var m := chain[pos];
    forall j | 0 <= j < |w|
      ensures w[j] != m && !Matches(w[j], res, res[m].resource, res[m].def.value)
    {
      if j >= pos {
        assert w[j] == chain[j + 1];
      } else {
        assert w[j] == chain[j];
        ChainMatchesOnce(chain, b, res, ctrs, hashOf, j, pos);
      }
    }
    forall i, j | 0 <= i < j < |w|
      ensures w[i] != w[j] && res[w[i]].resource <= res[w[j]].resource &&
              !Matches(w[j], res, res[w[i]].resource, res[w[i]].def.value)
    {
      var i0 := if i < pos then i else i + 1;
      var j0 := if j < pos then j else j + 1;
      assert w[i] == chain[i0] && w[j] == chain[j0] && i0 < j0;
    }
  }

  /** A new live record inserted where the resource order puts it keeps a
      chain that has no record of that resource under that definition
      valid. */
  lemma ChainInsert(chain: seq<nat>, pos: nat, r: nat, b: nat, res: seq<Resource>, ctrs: seq<Counter>,
                    res': seq<Resource>, ctrs': seq<Counter>, hashOf: nat -> nat)
    requires ChainOk(chain, b, res, ctrs, hashOf) && pos <= |chain| && r !in chain
    requires r < |res'| && res'[r].def.Some? && Bin(hashOf, res'[r].resource) == b && Live(r, res', ctrs')
    requires forall j :: 0 <= j < |chain| ==> chain[j] < |res'| && res'[chain[j]] == res[chain[j]] && Live(chain[j], res', ctrs')
    requires forall j :: 0 <= j < pos ==> res[chain[j]].resource <= res'[r].resource
    requires forall j :: pos <= j < |chain| ==> res[chain[j]].resource >= res'[r].resource
    requires forall j :: 0 <= j < |chain| ==> !Matches(chain[j], res, res'[r].resource, res'[r].def.value)
    ensures ChainOk(Inserted(chain, pos, r), b, res', ctrs', hashOf)
  {
    ChainStable(chain, b, res, ctrs, res', ctrs', hashOf);
    var s := Inserted(chain, pos, r);
    forall i, j | 0 <= i < j < |s|
      ensures s[i] != s[j] && res'[s[i]].resource <= res'[s[j]].resource &&
              !Matches(s[j], res', res'[s[i]].resource, res'[s[i]].def.value)
    {
      if i == pos {
        assert s[j] == chain[j - 1];
      } else if j == pos {
        assert s[i] == chain[i];
      } else {
        var i0 := if i < pos then i else i - 1;
        var j0 := if j < pos then j else j - 1;
        assert s[i] == chain[i0] && s[j] == chain[j0] && i0 < j0;
      }
    }
  }

  /** The counters of a frame: counters of that frame, one per
      definition. */
  predicate FrameCountersOk(list: seq<nat>, frame: nat, ctrs: seq<Counter>)
  {
    (forall j :: 0 <= j < |list| ==> list[j] < |ctrs| && ctrs[list[j]].frame == frame) &&
    (forall i, j :: 0 <= i < j < |list| ==> ctrs[list[i]].def != ctrs[list[j]].def)
  }

  /** Slot i of the call cache holds a child of the frame of slot i - 1
      (of the root for slot 0) with the slot's address. */
  predicate CacheSlotOk(nodes: seq<StackNode>, cache: seq<CacheEntry>, i: nat)
    requires i < |cache|
  {
    var parent := if i == 0 then 0 else cache[i - 1].frame;
    parent < |nodes| && cache[i].frame < |nodes| &&
    cache[i].frame in nodes[parent].children && nodes[cache[i].frame].address == cache[i].address
  }

  predicate CacheOk(nodes: seq<StackNode>, cache: seq<CacheEntry>, len: nat)
  {
    len <= |cache| && forall i :: 0 <= i < len ==> CacheSlotOk(nodes, cache, i)
  }

  /** The frames a cache of len valid slots leads to, slot by slot, are
      the frames of the path of its addresses. */
  lemma {:induction false} CacheIsWalk(nodes: seq<StackNode>, cache: seq<CacheEntry>, len: nat, path: seq<nat>)
    requires TreeOk(nodes) && CacheOk(nodes, cache, len) && len >= 1
    requires |path| == len && forall i :: 0 <= i < len ==> path[i] == cache[i].address
    ensures Walk(nodes, path) == (nodes, cache[len - 1].frame)
    decreases len
  {
    assert CacheSlotOk(nodes, cache, len - 1);
    var parent := if len == 1 then 0 else cache[len - 2].frame;
    var prefix := path[..len - 1];
    if len > 1 {
      CacheIsWalk(nodes, cache, len - 1, prefix);
    } else {
      assert prefix == [];
    }
    FoundPersists(nodes, nodes, parent, cache[len - 1].frame);
  }

  /** Adding a record to a counter's live list keeps every frame's
      counter chain valid. */
  lemma LinkKeepsFrames(fc: map<nat, seq<nat>>, ctrs0: seq<Counter>, c: nat, r: nat)
    requires c < |ctrs0| && forall f :: f in fc ==> FrameCountersOk(fc[f], f, ctrs0)
    ensures forall f :: f in fc ==>
      FrameCountersOk(fc[f], f, ctrs0[c := ctrs0[c].(resources := [r] + ctrs0[c].resources)])
  {
    forall f | f in fc
      ensures FrameCountersOk(fc[f], f, ctrs0[c := ctrs0[c].(resources := [r] + ctrs0[c].resources)])
    {
      assert FrameCountersOk(fc[f], f, ctrs0);
    }
  }

  /** Linking a record that no list held to counter c keeps every live
      list valid. */
  lemma LinkKeepsLiveLists(ctrs0: seq<Counter>, res0: seq<Resource>, res: seq<Resource>, c: nat, r: nat)
    requires c < |ctrs0| && |res0| <= |res| && r < |res|
    requires forall c' :: 0 <= c' < |ctrs0| ==> LiveListOk(ctrs0[c'].resources, c', ctrs0[c'].def, res0)
    requires r < |res0| ==> res0[r].counter.None?
    requires forall x :: 0 <= x < |res0| && x != r ==> res[x] == res0[x]
    requires res[r].counter == Some(c) && res[r].def == Some(ctrs0[c].def)
    ensures var ctrs := ctrs0[c := ctrs0[c].(resources := [r] + ctrs0[c].resources)];
      forall c' :: 0 <= c' < |ctrs| ==> LiveListOk(ctrs[c'].resources, c', ctrs[c'].def, res)
  {
    var ctrs := ctrs0[c := ctrs0[c].(resources := [r] + ctrs0[c].resources)];
    forall c' | 0 <= c' < |ctrs|
      ensures LiveListOk(ctrs[c'].resources, c', ctrs[c'].def, res)
    {
      assert LiveListOk(ctrs0[c'].resources, c', ctrs0[c'].def, res0);
      var list := ctrs0[c'].resources;
      forall j | 0 <= j < |list|
        ensures list[j] != r && res[list[j]] == res0[list[j]]
      {
      }
    }
  }

  /** Taking the head of the free list (or appending a new record) keeps
      the rest of the free list valid. */
  lemma LinkKeepsFree(free0: seq<nat>, res0: seq<Resource>, free: seq<nat>, res: seq<Resource>, r: nat)
    requires FreeOk(free0, res0)
    requires (free0 != [] && r == free0[0] && free == free0[1..] && |res| == |res0|) ||
             (free0 == [] && r == |res0| && free == [] && |res| == |res0| + 1)
    requires forall x :: 0 <= x < |res0| && x != r ==> res[x] == res0[x]
    ensures FreeOk(free, res)
  {
    if free0 != [] {
      forall j | 0 <= j < |free|
        ensures free[j] != r
      {
        assert free[j] == free0[j + 1];
      }
    }
  }

  /** The buffer's bookkeeping as values: the counters, each frame's
      counter chain, the resource records, the free list and the hash
      chains. The steps of dopush below are functions of it. */
  datatype BufState = BufState(counters: seq<Counter>, frameCounters: map<nat, seq<nat>>,
                               resources: seq<Resource>, resfree: seq<nat>, table: seq<seq<nat>>)

  /** The counter chain of a frame; a frame without an entry has none. */
  function FrameList(fc: map<nat, seq<nat>>, frame: nat): seq<nat>
  {
    if frame in fc then fc[frame] else []
  }

  /** The position from i on of the first listed counter with the
      definition, or |list| when there is none. */
  function CounterFrom(list: seq<nat>, ctrs: seq<Counter>, def: CounterDef, i: nat): (p: nat)
    requires i <= |list|
    ensures i <= p <= |list|
    ensures p < |list| ==> list[p] < |ctrs| && ctrs[list[p]].def == def
    ensures forall j :: i <= j < p ==> !(list[j] < |ctrs| && ctrs[list[j]].def == def)
    decreases |list| - i
  {
    if i == |list| then i
    else if list[i] < |ctrs| && ctrs[list[i]].def == def then i
    else CounterFrom(list, ctrs, def, i + 1)
  }

  /** The counter lookup of dopush: the frame's counter for the
      definition, or a zeroed one appended to the counters and to the
      frame's chain. */
  function FoundCounter(s: BufState, frame: nat, def: CounterDef): (BufState, nat)
  {
    var list := FrameList(s.frameCounters, frame);
    var i := CounterFrom(list, s.counters, def, 0);
    if i < |list| then (s, list[i])
    else (s.(counters := s.counters + [Counter(0, 0, 0, def, frame, [])],
             frameCounters := s.frameCounters[frame := list + [|s.counters|]]), |s.counters|)
  }

  /** A COUNT or ACQUIRE record: the counter found, ticked. */
  function CountedState(s: BufState, frame: nat, rec: Record): (BufState, nat)
  {
    var (t, c) := FoundCounter(s, frame, rec.def);
    if c < |t.counters| then (t.(counters := t.counters[c := Ticked(t.counters[c], rec.def.kind, rec.amount, rec.ticks)]), c)
    else (t, c)
  }

  /** findResource: the scan of a hash chain from position k, stopping
      at the record of the resource under the definition (found) or at
      the first larger resource. */
  function ScanFrom(chain: seq<nat>, res: seq<Resource>, resource: nat, def: CounterDef, k: nat): (r: (bool, nat))
    requires k <= |chain|
    ensures k <= r.1 <= |chain|
    ensures r.0 ==> r.1 < |chain| && Matches(chain[r.1], res, resource, def)
    decreases |chain| - k
  {
    if k == |chain| then (false, k)
    else if Matches(chain[k], res, resource, def) then (true, k)
    else if chain[k] < |res| && res[chain[k]].resource > resource then (false, k)
    else ScanFrom(chain, res, resource, def, k + 1)
  }

  /** The scan of a valid chain from k on, where the first k records
      neither match nor pass the resource: it stops at the match, or at
      the first larger resource, and finds nothing only when the chain
      holds no match. */
  lemma {:induction false} ScanFacts(chain: seq<nat>, b: nat, res: seq<Resource>, ctrs: seq<Counter>, hashOf: nat -> nat,
                                     resource: nat, def: CounterDef, k: nat)
    requires ChainOk(chain, b, res, ctrs, hashOf) && k <= |chain|
    requires forall j :: 0 <= j < k ==> !Matches(chain[j], res, resource, def) && res[chain[j]].resource <= resource
    ensures var (found, pos) := ScanFrom(chain, res, resource, def, k);
      (forall j :: 0 <= j < pos ==> !Matches(chain[j], res, resource, def) && res[chain[j]].resource <= resource) &&
      (!found ==> pos == |chain| || res[chain[pos]].resource > resource) &&
      (!found <==> forall j :: 0 <= j < |chain| ==> !Matches(chain[j], res, resource, def))
    decreases |chain| - k
  {
    if k < |chain| && !Matches(chain[k], res, resource, def) {
      if res[chain[k]].resource > resource {
        forall j | k <= j < |chain|
          ensures !Matches(chain[j], res, resource, def)
        {
          if j > k {
            assert res[chain[k]].resource <= res[chain[j]].resource;
          }
        }
      } else {
        ScanFacts(chain, b, res, ctrs, hashOf, resource, def, k + 1);
      }
    }
  }

  /** releaseResource(rlink, res) on the record at position pos of chain
      b: its size and one tick deducted from its counter, the record
      unlinked from the chain and from the counter's live list, cleared,
      and put at the head of the free list. */
  function ReleasedAt(s: BufState, b: nat, pos: nat): BufState
  {
    if b < |s.table| && pos < |s.table[b]| && s.table[b][pos] < |s.resources| &&
       s.resources[s.table[b][pos]].counter.Some? && s.resources[s.table[b][pos]].counter.value < |s.counters|
    then
      var r := s.table[b][pos];
      var c := s.resources[r].counter.value;
      var ctr := s.counters[c];
      s.(counters := s.counters[c := ctr.(value := ctr.value - s.resources[r].size, ticks := ctr.ticks - 1,
                                          resources := RemoveFirst(ctr.resources, r))],
         resources := s.resources[r := Resource(0, 0, None, None)],
         resfree := [r] + s.resfree,
         table := s.table[b := Without(s.table[b], pos)])
    else s
  }

  /** The linking half of acquireResource: the head of the free list (or
      a new record) holds the resource and size for counter c, goes into
      chain b at pos and to the head of the counter's live list. */
  function LinkedAt(s: BufState, rec: Record, c: nat, b: nat, pos: nat): (BufState, nat)
  {
    if c < |s.counters| && b < |s.table| && pos <= |s.table[b]| && (s.resfree == [] || s.resfree[0] < |s.resources|)
    then
      var made := Resource(rec.resource, rec.amount, Some(c), Some(rec.def));
      var r := if s.resfree != [] then s.resfree[0] else |s.resources|;
      var ctr := s.counters[c];
      (s.(counters := s.counters[c := ctr.(resources := [r] + ctr.resources)],
          resources := if s.resfree != [] then s.resources[r := made] else s.resources + [made],
          resfree := if s.resfree != [] then s.resfree[1..] else [],
          table := s.table[b := Inserted(s.table[b], pos, r)]), r)
    else (s, 0)
  }

  /** releaseResource(rec): the resource's record under the definition
      released; a resource without one is ignored. */
  function Released(s: BufState, hashOf: nat -> nat, rec: Record): BufState
  {
    var b := Bin(hashOf, rec.resource);
    if b < |s.table| then
      var (found, pos) := ScanFrom(s.table[b], s.resources, rec.resource, rec.def, 0);
      if found then ReleasedAt(s, b, pos) else s
    else s
  }

  /** acquireResource(rec, c): a stale record of the resource under the
      definition released, then a record linked to counter c where the
      scan stopped. */
  function Acquired(s: BufState, hashOf: nat -> nat, rec: Record, c: nat): (BufState, nat)
  {
    var b := Bin(hashOf, rec.resource);
    if b < |s.table| then
      var (found, pos) := ScanFrom(s.table[b], s.resources, rec.resource, rec.def, 0);
      LinkedAt(if found then ReleasedAt(s, b, pos) else s, rec, c, b, pos)
    else (s, 0)
  }

  /** The resource half of a record applied with counter c: ACQUIRE,
      then RELEASE. */
  function ResourceApplied(s: BufState, hashOf: nat -> nat, rec: Record, c: nat): BufState
  {
    var s1 := if HasBit(rec.kind, ACQUIRE) then Acquired(s, hashOf, rec, c).0 else s;
    if HasBit(rec.kind, RELEASE) then Released(s1, hashOf, rec) else s1
  }

  /** One record of dopush applied to the frame. */
  function Applied(s: BufState, hashOf: nat -> nat, frame: nat, rec: Record): BufState
  {
    if HasBit(rec.kind, COUNT) || HasBit(rec.kind, ACQUIRE) then
      var (s1, c) := CountedState(s, frame, rec);
      ResourceApplied(s1, hashOf, rec, c)
    else ResourceApplied(s, hashOf, rec, 0)
  }

  /** The records applied to the frame in order. */
  function Folded(s: BufState, hashOf: nat -> nat, frame: nat, recs: seq<Record>): BufState
  {
    if recs == [] then s else Applied(Folded(s, hashOf, frame, recs[..|recs| - 1]), hashOf, frame, recs[|recs| - 1])
  }

  /** Folding one more record applies it to the fold of those before. */
  lemma FoldedSnoc(s: BufState, hashOf: nat -> nat, frame: nat, recs: seq<Record>, k: nat)
    requires k < |recs|
    ensures Folded(s, hashOf, frame, recs[..k + 1]) == Applied(Folded(s, hashOf, frame, recs[..k]), hashOf, frame, recs[k])
  {
    assert recs[..k + 1][..k] == recs[..k];
  }

  /** Two changes that each keep every counter's definition and frame
      keep them together. */
  lemma DefsKeptTwice(ctrs0: seq<Counter>, ctrs1: seq<Counter>, ctrs2: seq<Counter>)
    requires |ctrs0| == |ctrs1| == |ctrs2|
    requires forall c :: 0 <= c < |ctrs1| ==> ctrs1[c].def == ctrs0[c].def && ctrs1[c].frame == ctrs0[c].frame
    requires forall c :: 0 <= c < |ctrs2| ==> ctrs2[c].def == ctrs1[c].def && ctrs2[c].frame == ctrs1[c].frame
    ensures forall c :: 0 <= c < |ctrs2| ==> ctrs2[c].def == ctrs0[c].def && ctrs2[c].frame == ctrs0[c].frame
  {
  }

  /** Every counter of another definition is as it was; counters may
      have been added. */
  predicate OthersKept(ctrs0: seq<Counter>, ctrs1: seq<Counter>, def: CounterDef)
  {
    |ctrs0| <= |ctrs1| && forall c :: 0 <= c < |ctrs0| && ctrs0[c].def != def ==> ctrs1[c] == ctrs0[c]
  }

  lemma OthersKeptTwice(ctrs0: seq<Counter>, ctrs1: seq<Counter>, ctrs2: seq<Counter>, def: CounterDef)
    requires OthersKept(ctrs0, ctrs1, def) && OthersKept(ctrs1, ctrs2, def)
    ensures OthersKept(ctrs0, ctrs2, def)
  {
  }

  /** A live record's definition is its counter's. */
  lemma LiveOwner(r: nat, res: seq<Resource>, ctrs: seq<Counter>)
    requires Live(r, res, ctrs)
    requires var c := res[r].counter.value; LiveListOk(ctrs[c].resources, c, ctrs[c].def, res)
    ensures res[r].def == Some(ctrs[res[r].counter.value].def)
  {
    var c := res[r].counter.value;
    var j :| 0 <= j < |ctrs[c].resources| && ctrs[c].resources[j] == r;
  }

  /** One of the records has the definition. */
  predicate DefIn(recs: seq<Record>, def: CounterDef)
  {
    exists i :: 0 <= i < |recs| && recs[i].def == def
  }

  /** Every counter whose definition none of the records has is as it
      was. */
  predicate Untouched(ctrs0: seq<Counter>, ctrs1: seq<Counter>, recs: seq<Record>)
  {
    |ctrs0| <= |ctrs1| && forall c :: 0 <= c < |ctrs0| && !DefIn(recs, ctrs0[c].def) ==> ctrs1[c] == ctrs0[c]
  }

  lemma UntouchedStep(ctrs0: seq<Counter>, ctrs1: seq<Counter>, ctrs2: seq<Counter>, recs: seq<Record>, k: nat)
    requires k < |recs| && Untouched(ctrs0, ctrs1, recs[..k]) && OthersKept(ctrs1, ctrs2, recs[k].def)
    ensures Untouched(ctrs0, ctrs2, recs[..k + 1])
  {
    forall c | 0 <= c < |ctrs0| && !DefIn(recs[..k + 1], ctrs0[c].def)
      ensures ctrs2[c] == ctrs0[c]
    {
      forall i | 0 <= i < k
        ensures recs[..k][i].def != ctrs0[c].def
      {
        assert recs[..k][i] == recs[..k + 1][i];
      }
      assert recs[..k + 1][k] == recs[k];
    }
  }

  /** Acquired is a release where the scan found a stale record, then
      the link where the scan stopped. */
  lemma AcquiredSteps(s0: BufState, s1: BufState, s2: BufState, hashOf: nat -> nat, rec: Record, c: nat,
                      b: nat, found: bool, pos: nat, r: nat)
    requires b == Bin(hashOf, rec.resource) && b < |s0.table|
    requires (found, pos) == ScanFrom(s0.table[b], s0.resources, rec.resource, rec.def, 0)
    requires s1 == if found then ReleasedAt(s0, b, pos) else s0
    requires (s2, r) == LinkedAt(s1, rec, c, b, pos)
    ensures (s2, r) == Acquired(s0, hashOf, rec, c)
  {
  }

  /** A plain COUNT record touches no resource record, hash chain or
      free list. */
  lemma CountKeepsResources(s: BufState, hashOf: nat -> nat, frame: nat, rec: Record)
    requires HasBit(rec.kind, COUNT) && !HasBit(rec.kind, ACQUIRE) && !HasBit(rec.kind, RELEASE)
    ensures var t := Applied(s, hashOf, frame, rec);
      t.resources == s.resources && t.resfree == s.resfree && t.table == s.table
  {
  }

  /** A plain RELEASE record creates no counter and changes no frame's
      counter chain. */
  lemma ReleaseKeepsCounters(s: BufState, hashOf: nat -> nat, frame: nat, rec: Record)
    requires HasBit(rec.kind, RELEASE) && !HasBit(rec.kind, COUNT) && !HasBit(rec.kind, ACQUIRE)
    ensures var t := Applied(s, hashOf, frame, rec);
      t.frameCounters == s.frameCounters && |t.counters| == |s.counters|
  {
  }

  /** A record without any of the three bits changes nothing. */
  lemma NoBitsNoChange(s: BufState, hashOf: nat -> nat, frame: nat, rec: Record)
    requires !HasBit(rec.kind, COUNT) && !HasBit(rec.kind, ACQUIRE) && !HasBit(rec.kind, RELEASE)
    ensures Applied(s, hashOf, frame, rec) == s
  {
  }

  /** A hash table whose chains all agree with t0 but chain b. */
  lemma TableUpdate(t0: seq<seq<nat>>, t1: seq<seq<nat>>, b: nat, chain: seq<nat>)
    requires |t1| == |t0| && b < |t0| && t1[b] == chain
    requires forall b' :: 0 <= b' < |t0| && b' != b ==> t1[b'] == t0[b']
    ensures t1 == t0[b := chain]
  {
  }

  class Buffer {
    var nodes: seq<StackNode>
    /** The counters of each frame, in chain order; a frame without an
        entry has none. */
    var frameCounters: map<nat, seq<nat>>
    var counters: seq<Counter>
    var resources: seq<Resource>
    const restable: array<seq<nat>>
    var resfree: seq<nat>
    const callcache: array<CacheEntry>
    /** How many cache slots describe the previous push. */
    var cacheLen: nat
    const hashOf: nat -> nat

    function CountersOf(frame: nat): seq<nat>
      reads this
    {
      FrameList(frameCounters, frame)
    }

    /** The bookkeeping of the buffer as a value. */
    ghost function State(): BufState
      reads this, restable
    {
      BufState(counters, frameCounters, resources, resfree, restable[..])
    }

    ghost predicate Valid()
      reads this, restable, callcache
    {
      TreeOk(nodes) &&
      restable.Length == RESOURCE_HASH && callcache.Length == MAX_DEPTH &&
      CacheOk(nodes, callcache[..], cacheLen) &&
      (forall f :: f in frameCounters ==> f < |nodes| && FrameCountersOk(frameCounters[f], f, counters)) &&
      (forall c :: 0 <= c < |counters| ==> counters[c].frame < |nodes|) &&
      (forall b :: 0 <= b < RESOURCE_HASH ==> ChainOk(restable[b], b, resources, counters, hashOf)) &&
      (forall c :: 0 <= c < |counters| ==> LiveListOk(counters[c].resources, c, counters[c].def, resources)) &&
      FreeOk(resfree, resources)
    }

    constructor(hash: nat -> nat)
      ensures Valid() && fresh(restable) && fresh(callcache)
      ensures nodes == [StackNode(0, [])] && counters == [] && resources == [] && resfree == []
      ensures frameCounters == map[] && cacheLen == 0 && hashOf == hash
    {
      nodes := [StackNode(0, [])];
      frameCounters := map[];
      counters := [];
      resources := [];
      restable := new seq<nat>[RESOURCE_HASH](_ => []);
      resfree := [];
      callcache := new CacheEntry[MAX_DEPTH](_ => CacheEntry(0, 0));
      cacheLen := 0;
      hashOf := hash;
    }

    /** childStackNode: scans the sorted siblings for the address, stopping
        at the first larger one, and inserts a new child there when the
        address is missing. */
    method ChildStackNode(parent: nat, address: nat) returns (k: nat)
      requires TreeOk(nodes) && parent < |nodes|
      modifies this
      ensures (nodes, k) == Descend(old(nodes), parent, address)
      ensures counters == old(counters) && resources == old(resources) && resfree == old(resfree)
      ensures frameCounters == old(frameCounters) && cacheLen == old(cacheLen)
    {
      var kids := nodes[parent].children;
      assert KidsSorted(nodes, kids);
      var i := 0;
      while i < |kids|
        invariant i <= |kids|
        invariant forall j :: 0 <= j < i ==> nodes[kids[j]].address < address
      {
        var kid := kids[i];
        if nodes[kid].address == address {
          PlaceUnique(nodes, kids, address, i);
          return kid;
        }
        if nodes[kid].address > address {
          break;
        }
        i := i + 1;
      }
      PlaceUnique(nodes, kids, address, i);
      k := |nodes|;
      nodes := AddChild(nodes, parent, address, i);
    }

    /** One frame of dopush's descent, at slot i from the current frame:
        the cached slot while the cache still matches, else the child
        found or inserted, which then goes into slot i. */
    method DescendStep(ghost root: seq<StackNode>, ghost path: seq<nat>, i: nat, frame: nat, address: nat, valid: bool)
      returns (next: nat, stillValid: bool)
      requires TreeOk(root) && i < |path| && path[i] == address && (nodes, frame) == Walk(root, path[..i])
      requires TreeOk(nodes) && frame < |nodes| && i < callcache.Length
      requires CacheOk(nodes, callcache[..], i) && (if i == 0 then frame == 0 else frame == callcache[i - 1].frame)
      requires valid ==> i <= cacheLen && CacheOk(nodes, callcache[..], cacheLen)
      modifies this, callcache
      ensures (nodes, next) == Descend(old(nodes), frame, address) == Walk(root, path[..i + 1])
      ensures TreeOk(nodes) && |old(nodes)| <= |nodes| && next < |nodes|
      ensures CacheOk(nodes, callcache[..], i + 1) && next == callcache[i].frame
      ensures stillValid ==> i + 1 <= cacheLen && CacheOk(nodes, callcache[..], cacheLen)
      ensures counters == old(counters) && resources == old(resources) && resfree == old(resfree)
      ensures frameCounters == old(frameCounters) && cacheLen == old(cacheLen)
    {
      if valid && i < cacheLen && callcache[i].address == address {
        assert CacheSlotOk(nodes, callcache[..], i);
        FoundPersists(nodes, nodes, frame, callcache[i].frame);
        next := callcache[i].frame;
        stillValid := true;
      } else {
        ghost var before := nodes;
        ghost var cacheBefore := callcache[..];
        next := ChildStackNode(frame, address);
        callcache[i] := CacheEntry(address, next);
        CacheStep(before, nodes, cacheBefore, callcache[..], i, frame, next, address);
        stillValid := false;
      }
      WalkStep(root, path, i, old(nodes), frame, nodes, next);
    }

    /** dopush's descent along the outermost min(depth, MAX_DEPTH) frames
        of the stack, corrected: a cached slot is reused only while it
        describes the previous push and every slot before it matched. */
    method FrameFor(stack: seq<nat>, depth: int) returns (frame: nat)
      requires Valid() && depth <= |stack|
      modifies this, callcache
      ensures Valid()
      ensures (nodes, frame) == Walk(old(nodes), CallPath(stack, depth))
      ensures cacheLen == |CallPath(stack, depth)|
      ensures counters == old(counters) && resources == old(resources) && resfree == old(resfree)
      ensures frameCounters == old(frameCounters)
    {
      frame := Descent(stack, depth);
      cacheLen := |CallPath(stack, depth)|;
    }

    /** The loop of the descent. */
    method Descent(stack: seq<nat>, depth: int) returns (frame: nat)
      requires TreeOk(nodes) && callcache.Length == MAX_DEPTH && CacheOk(nodes, callcache[..], cacheLen)
      requires depth <= |stack|
      modifies this, callcache
      ensures TreeOk(nodes) && |old(nodes)| <= |nodes|
      ensures (nodes, frame) == Walk(old(nodes), CallPath(stack, depth))
      ensures CacheOk(nodes, callcache[..], |CallPath(stack, depth)|)
      ensures counters == old(counters) && resources == old(resources) && resfree == old(resfree)
      ensures frameCounters == old(frameCounters) && cacheLen == old(cacheLen)
    {
      var d := if depth < 0 then 0 else depth;
      frame := DescentAlong(stack, d, CallPath(stack, depth));
    }

    /** The descent along the path of the outermost min(d, MAX_DEPTH)
        addresses of the stack. */
    method DescentAlong(stack: seq<nat>, d: nat, ghost path: seq<nat>) returns (frame: nat)
      requires TreeOk(nodes) && callcache.Length == MAX_DEPTH && CacheOk(nodes, callcache[..], cacheLen)
      requires d <= |stack| && |path| == (if d < MAX_DEPTH then d else MAX_DEPTH)
      requires forall i :: 0 <= i < |path| ==> path[i] == stack[d - i - 1]
      modifies this, callcache
      ensures TreeOk(nodes) && |old(nodes)| <= |nodes|
      ensures (nodes, frame) == Walk(old(nodes), path)
      ensures CacheOk(nodes, callcache[..], |path|)
      ensures counters == old(counters) && resources == old(resources) && resfree == old(resfree)
      ensures frameCounters == old(frameCounters) && cacheLen == old(cacheLen)
    {
      frame := 0;
      var valid := true;
      ghost var old0 := nodes;
      var n := if d < MAX_DEPTH then d else MAX_DEPTH;
      assert path[..0] == [];
      for i := 0 to n
        invariant TreeOk(nodes) && frame < |nodes|
        invariant (nodes, frame) == Walk(old0, path[..i])
        invariant CacheOk(nodes, callcache[..], i)
        invariant if i == 0 then frame == 0 else frame == callcache[i - 1].frame
        invariant valid ==> i <= cacheLen && CacheOk(nodes, callcache[..], cacheLen)
        invariant counters == old(counters) && resources == old(resources) && resfree == old(resfree)
        invariant frameCounters == old(frameCounters) && cacheLen == old(cacheLen)
        invariant |old0| <= |nodes|
      {
        var address := stack[d - i - 1];
        frame, valid := DescendStep(old0, path, i, frame, address, valid);
      }
      assert path[..n] == path;
    }

    /** dopush's counter lookup: the frame's counter for the definition,
        or a new zeroed one appended to the frame's chain. */
    method FindCounter(frame: nat, def: CounterDef) returns (c: nat)
      requires Valid() && frame < |nodes|
      modifies this
      ensures Valid()
      ensures c < |counters| && counters[c].def == def && counters[c].frame == frame && c in CountersOf(frame)
      ensures c <= |old(counters)|
      ensures c < |old(counters)| ==> counters == old(counters) && frameCounters == old(frameCounters)
      ensures c == |old(counters)| ==>
                counters == old(counters) + [Counter(0, 0, 0, def, frame, [])] &&
                frameCounters == old(frameCounters)[frame := old(CountersOf(frame)) + [c]] &&
                forall j :: 0 <= j < |old(CountersOf(frame))| ==> old(counters[CountersOf(frame)[j]].def) != def
      ensures nodes == old(nodes) && resources == old(resources) && resfree == old(resfree) && cacheLen == old(cacheLen)
      ensures (State(), c) == FoundCounter(old(State()), frame, def)
    {
      var list := CountersOf(frame);
      assert FrameCountersOk(list, frame, counters) by {
        if frame in frameCounters {
          assert FrameCountersOk(frameCounters[frame], frame, counters);
        }
      }
      var i := 0;
      while i < |list| && counters[list[i]].def != def
        invariant i <= |list|
        invariant forall j :: 0 <= j < i ==> counters[list[j]].def != def
        invariant CounterFrom(list, counters, def, i) == CounterFrom(list, counters, def, 0)
      {
        i := i + 1;
      }
      if i < |list| {
        c := list[i];
        return;
      }
      c := NewCounter(frame, def);
    }

    /** A new zeroed counter for the definition, appended to the frame's
        chain. */
    method NewCounter(frame: nat, def: CounterDef) returns (c: nat)
      requires Valid() && frame < |nodes|
      requires forall j :: 0 <= j < |CountersOf(frame)| ==>
                 CountersOf(frame)[j] < |counters| && counters[CountersOf(frame)[j]].def != def
      modifies this
      ensures Valid()
      ensures c == |old(counters)| && counters == old(counters) + [Counter(0, 0, 0, def, frame, [])]
      ensures frameCounters == old(frameCounters)[frame := old(CountersOf(frame)) + [c]]
      ensures nodes == old(nodes) && resources == old(resources) && resfree == old(resfree) && cacheLen == old(cacheLen)
    {
      var list := CountersOf(frame);
      assert FrameCountersOk(list, frame, counters) by {
        if frame in frameCounters {
          assert FrameCountersOk(frameCounters[frame], frame, counters);
        }
      }
      c := |counters|;
      ghost var ctrs := counters;
      counters := counters + [Counter(0, 0, 0, def, frame, [])];
      frameCounters := frameCounters[frame := list + [c]];
      forall b | 0 <= b < RESOURCE_HASH
        ensures ChainOk(restable[b], b, resources, counters, hashOf)
      {
        ChainStable(restable[b], b, resources, ctrs, resources, counters, hashOf);
      }
      forall f | f in frameCounters
        ensures FrameCountersOk(frameCounters[f], f, counters)
      {
        if f != frame {
          assert FrameCountersOk(old(frameCounters)[f], f, ctrs);
        }
      }
    }

    /** The tick of one record on counter c. */
    method TickCounter(c: nat, rec: Record)
      requires Valid() && c < |counters|
      modifies this
      ensures Valid()
      ensures counters == old(counters)[c := Ticked(old(counters[c]), rec.def.kind, rec.amount, rec.ticks)]
      ensures nodes == old(nodes) && resources == old(resources) && resfree == old(resfree)
      ensures frameCounters == old(frameCounters) && cacheLen == old(cacheLen)
    {
      ghost var ctrs := counters;
      counters := counters[c := Ticked(counters[c], rec.def.kind, rec.amount, rec.ticks)];
      forall b | 0 <= b < RESOURCE_HASH
        ensures ChainOk(restable[b], b, resources, counters, hashOf)
      {
        ChainStable(restable[b], b, resources, ctrs, resources, counters, hashOf);
      }
      forall f | f in frameCounters
        ensures FrameCountersOk(frameCounters[f], f, counters)
      {
        assert FrameCountersOk(frameCounters[f], f, ctrs);
      }
    }

    /** findResource: scans the resource's hash chain, stopping at its
        record under the definition or at the first larger resource. */
    method FindResource(resource: nat, def: CounterDef) returns (found: bool, b: nat, pos: nat)
      requires Valid()
      ensures b == Bin(hashOf, resource) && pos <= |restable[b]|
      ensures forall j :: 0 <= j < pos ==>
                !Matches(restable[b][j], resources, resource, def) && resources[restable[b][j]].resource <= resource
      ensures found ==> pos < |restable[b]| && Matches(restable[b][pos], resources, resource, def)
      ensures !found ==> pos == |restable[b]| || resources[restable[b][pos]].resource > resource
      ensures !found <==> forall j :: 0 <= j < |restable[b]| ==> !Matches(restable[b][j], resources, resource, def)
      ensures (found, pos) == ScanFrom(restable[b], resources, resource, def, 0)
    {
      b := Bin(hashOf, resource);
      var chain := restable[b];
      assert ChainOk(chain, b, resources, counters, hashOf);
      ScanFacts(chain, b, resources, counters, hashOf, resource, def, 0);
      pos := 0;
      while pos < |chain|
        invariant pos <= |chain|
        invariant ScanFrom(chain, resources, resource, def, pos) == ScanFrom(chain, resources, resource, def, 0)
      {
        var r := chain[pos];
        if resources[r].resource == resource && resources[r].def == Some(def) {
          return true, b, pos;
        }
        if resources[r].resource > resource {
          return false, b, pos;
        }
        pos := pos + 1;
      }
      return false, b, pos;
    }

    /** releaseResource(rlink, res): deducts the record from its counter,
        unlinks it from its hash chain and from its counter's live list,
        and pushes it onto the free list. */
    method ReleaseAt(b: nat, pos: nat, ghost def: CounterDef)
      requires Valid() && b < RESOURCE_HASH && pos < |restable[b]|
      requires restable[b][pos] < |resources| && resources[restable[b][pos]].def == Some(def)
      modifies this, restable
      ensures Valid()
      ensures OthersKept(old(counters), counters, def)
      ensures var r := old(restable[b][pos]);
        var c := old(resources[r].counter.value);
        restable[b] == Without(old(restable[b]), pos) &&
        counters == old(counters)[c := old(counters[c]).(value := old(counters[c].value) - old(resources[r].size),
                                                          ticks := old(counters[c].ticks) - 1,
                                                          resources := RemoveFirst(old(counters[c].resources), r))] &&
        resources == old(resources)[r := Resource(0, 0, None, None)] &&
        resfree == [r] + old(resfree)
      ensures forall b' :: 0 <= b' < RESOURCE_HASH && b' != b ==> restable[b'] == old(restable[b'])
      ensures nodes == old(nodes) && frameCounters == old(frameCounters) && cacheLen == old(cacheLen)
      ensures State() == ReleasedAt(old(State()), b, pos)
    {
      var chain := restable[b];
      assert ChainOk(chain, b, resources, counters, hashOf);
      ghost var t0 := restable[..];
      var r := chain[pos];
      var c := resources[r].counter.value;
      ghost var res0, ctrs0 := resources, counters;
      ChainWithout(chain, pos, b, resources, counters, hashOf);
      var ctr := counters[c];
      counters := counters[c := ctr.(value := ctr.value - resources[r].size, ticks := ctr.ticks - 1,
                                     resources := RemoveFirst(ctr.resources, r))];
      restable[b] := Without(chain, pos);
      resources := resources[r := Resource(0, 0, None, None)];
      resfree := [r] + resfree;
      ReleaseKeepsValid(b, r, res0, ctrs0);
      LiveOwner(r, res0, ctrs0);
      TableUpdate(t0, restable[..], b, Without(chain, pos));
    }

    /** releaseResource(rec): releases the record of the resource under
        the record's definition; a resource without one (an allocation
        the profiler missed) is ignored. Afterwards the resource has no
        record under that definition. */
    method ReleaseRecord(rec: Record) returns (released: bool)
      requires Valid()
      modifies this, restable
      ensures Valid()
      ensures released <==> exists j :: 0 <= j < |old(restable[Bin(hashOf, rec.resource)])| &&
                                         Matches(old(restable[Bin(hashOf, rec.resource)][j]), old(resources), rec.resource, rec.def)
      ensures !released ==> unchanged(this) && unchanged(restable)
      ensures released ==> |resfree| == |old(resfree)| + 1 && resfree[1..] == old(resfree)
      ensures var chain := restable[Bin(hashOf, rec.resource)];
        forall j :: 0 <= j < |chain| ==> !Matches(chain[j], resources, rec.resource, rec.def)
      ensures |counters| == |old(counters)|
      ensures forall c' :: 0 <= c' < |counters| ==> counters[c'].def == old(counters[c'].def) && counters[c'].frame == old(counters[c'].frame)
      ensures nodes == old(nodes) && frameCounters == old(frameCounters) && cacheLen == old(cacheLen)
      ensures State() == Released(old(State()), hashOf, rec)
      ensures OthersKept(old(counters), counters, rec.def)
    {
      var found, b, pos := FindResource(rec.resource, rec.def);
      if !found {
        return false;
      }
      ghost var chain0, res0 := restable[b], resources;
      assert ChainOk(chain0, b, res0, counters, hashOf);
      ReleaseAt(b, pos, rec.def);
      forall j | 0 <= j < |restable[b]|
        ensures !Matches(restable[b][j], resources, rec.resource, rec.def)
      {
        if j < pos {
          assert restable[b][j] == chain0[j];
        } else {
          assert restable[b][j] == chain0[j + 1];
          assert !Matches(chain0[j + 1], res0, res0[chain0[pos]].resource, res0[chain0[pos]].def.value);
        }
      }
      return true;
    }

    /** acquireResource(rec, ctr): a resource still recorded under the
        counter's definition was never freed, so that record is released
        first; then a record for the resource is linked to counter c.
        Afterwards it is the resource's only record under the
        definition. */
    method AcquireResource(rec: Record, c: nat) returns (r: nat)
      requires Valid() && c < |counters| && counters[c].def == rec.def
      modifies this, restable
      ensures Valid()
      ensures r < |resources| && resources[r] == Resource(rec.resource, rec.amount, Some(c), Some(rec.def))
      ensures |counters| == |old(counters)| && counters[c].def == rec.def && counters[c].frame == old(counters[c].frame)
      ensures counters[c].resources != [] && counters[c].resources[0] == r
      ensures var chain := restable[Bin(hashOf, rec.resource)];
        r in chain && forall j :: 0 <= j < |chain| && Matches(chain[j], resources, rec.resource, rec.def) ==> chain[j] == r
      ensures (forall j :: 0 <= j < |old(restable[Bin(hashOf, rec.resource)])| ==>
                 !Matches(old(restable[Bin(hashOf, rec.resource)][j]), old(resources), rec.resource, rec.def)) ==>
              counters == old(counters)[c := old(counters[c]).(resources := [r] + old(counters[c].resources))]
      ensures forall c' :: 0 <= c' < |counters| ==> counters[c'].def == old(counters[c'].def) && counters[c'].frame == old(counters[c'].frame)
      ensures nodes == old(nodes) && frameCounters == old(frameCounters) && cacheLen == old(cacheLen)
      ensures (State(), r) == Acquired(old(State()), hashOf, rec, c)
      ensures OthersKept(old(counters), counters, rec.def)
    {
      ghost var s0 := State();
      var found, b, pos := FindResource(rec.resource, rec.def);
      if found {
        ReleaseStale(rec, b, pos);
      }
      ghost var s1 := State();
      r := LinkResource(rec, c, b, pos);
      assert restable[b][pos] == r;
      AcquiredSteps(s0, s1, State(), hashOf, rec, c, b, found, pos, r);
      DefsKeptTwice(s0.counters, s1.counters, counters);
      OthersKeptTwice(s0.counters, s1.counters, counters, rec.def);
    }

    /** The frame has a counter for the definition. */
    predicate HasCounter(frame: nat, def: CounterDef)
      reads this
    {
      HasCounterIn(CountersOf(frame), counters, def)
    }

    /** COUNT or ACQUIRE: the frame's counter for the definition, created
        if missing, ticked by the record. */
    method CountRecord(frame: nat, rec: Record) returns (c: nat)
      requires Valid() && frame < |nodes|
      modifies this
      ensures Valid()
      ensures c < |counters| && c in CountersOf(frame) && counters[c].def == rec.def && HasCounter(frame, rec.def)
      ensures counters[c] == Ticked(if c < |old(counters)| then old(counters[c]) else Counter(0, 0, 0, rec.def, frame, []),
                                    rec.def.kind, rec.amount, rec.ticks)
      ensures |old(counters)| <= |counters|
      ensures forall c' :: 0 <= c' < |old(counters)| ==> counters[c'].def == old(counters[c'].def) && counters[c'].frame == old(counters[c'].frame)
      ensures old(CountersOf(frame)) <= CountersOf(frame)
      ensures nodes == old(nodes) && resources == old(resources) && resfree == old(resfree) && cacheLen == old(cacheLen)
      ensures (State(), c) == CountedState(old(State()), frame, rec)
      ensures OthersKept(old(counters), counters, rec.def)
    {
      ghost var ctrs0 := counters;
      c := FindCounter(frame, rec.def);
      ghost var ctrs1 := counters;
      TickCounter(c, rec);
      TickAfterFind(ctrs0, ctrs1, counters, c, rec.def, frame, rec.amount, rec.ticks);
      HasCounterMember(CountersOf(frame), counters, rec.def, c);
    }

    /** ACQUIRE and RELEASE: the resource linked to counter c, then
        released. */
    method ResourceRecord(rec: Record, c: nat)
      requires Valid() && (HasBit(rec.kind, ACQUIRE) ==> c < |counters| && counters[c].def == rec.def)
      modifies this, restable
      ensures Valid()
      ensures HasBit(rec.kind, ACQUIRE) && !HasBit(rec.kind, RELEASE) ==>
                var chain := restable[Bin(hashOf, rec.resource)];
                exists j :: 0 <= j < |chain| && Matches(chain[j], resources, rec.resource, rec.def) &&
                            resources[chain[j]] == Resource(rec.resource, rec.amount, Some(c), Some(rec.def))
      ensures HasBit(rec.kind, RELEASE) ==>
                var chain := restable[Bin(hashOf, rec.resource)];
                forall j :: 0 <= j < |chain| ==> !Matches(chain[j], resources, rec.resource, rec.def)
      ensures !HasBit(rec.kind, ACQUIRE) && !HasBit(rec.kind, RELEASE) ==> unchanged(this) && unchanged(restable)
      ensures |counters| == |old(counters)|
      ensures forall c' :: 0 <= c' < |counters| ==> counters[c'].def == old(counters[c'].def) && counters[c'].frame == old(counters[c'].frame)
      ensures nodes == old(nodes) && frameCounters == old(frameCounters) && cacheLen == old(cacheLen)
      ensures HasBit(rec.kind, ACQUIRE) && !HasBit(rec.kind, RELEASE) && (forall j :: 0 <= j < |old(restable[Bin(hashOf, rec.resource)])| ==>
                 !Matches(old(restable[Bin(hashOf, rec.resource)][j]), old(resources), rec.resource, rec.def)) ==>
                counters == old(counters)[c := old(counters[c]).(resources := counters[c].resources)]
      ensures State() == ResourceApplied(old(State()), hashOf, rec, c)
      ensures OthersKept(old(counters), counters, rec.def)
    {
      ghost var s0 := State();
      if HasBit(rec.kind, ACQUIRE) {
        var r := AcquireResource(rec, c);
        var chain := restable[Bin(hashOf, rec.resource)];
        var j :| 0 <= j < |chain| && chain[j] == r;
        assert Matches(chain[j], resources, rec.resource, rec.def);
      }
      ghost var s1 := State();
      ghost var ctrs1 := counters;
      if HasBit(rec.kind, RELEASE) {
        var _ := ReleaseRecord(rec);
        OthersKeptTwice(s0.counters, ctrs1, counters, rec.def);
      }
    }

    /** One record of dopush applied to the frame: COUNT and ACQUIRE tick
        the frame's counter for the definition (created if missing),
        ACQUIRE then links the resource to that counter, and RELEASE
        releases the resource's record under the definition. */
    method ApplyRecord(frame: nat, rec: Record) returns (c: nat)
      requires Valid() && frame < |nodes|
      modifies this, restable
      ensures Valid()
      ensures nodes == old(nodes) && cacheLen == old(cacheLen)
      ensures |old(counters)| <= |counters|
      ensures forall c' :: 0 <= c' < |old(counters)| ==> counters[c'].def == old(counters[c'].def) && counters[c'].frame == old(counters[c'].frame)
      ensures old(CountersOf(frame)) <= CountersOf(frame)
      ensures HasBit(rec.kind, COUNT) || HasBit(rec.kind, ACQUIRE) ==>
                c < |counters| && c in CountersOf(frame) && counters[c].def == rec.def && HasCounter(frame, rec.def)
      ensures HasBit(rec.kind, COUNT) && !HasBit(rec.kind, ACQUIRE) && !HasBit(rec.kind, RELEASE) ==>
                counters[c] == Ticked(if c < |old(counters)| then old(counters[c]) else Counter(0, 0, 0, rec.def, frame, []),
                                      rec.def.kind, rec.amount, rec.ticks)
      ensures !HasBit(rec.kind, COUNT) && !HasBit(rec.kind, ACQUIRE) && !HasBit(rec.kind, RELEASE) ==>
                unchanged(this) && unchanged(restable)
      ensures HasBit(rec.kind, ACQUIRE) && !HasBit(rec.kind, RELEASE) ==>
                var chain := restable[Bin(hashOf, rec.resource)];
                exists j :: 0 <= j < |chain| && Matches(chain[j], resources, rec.resource, rec.def) &&
                            resources[chain[j]] == Resource(rec.resource, rec.amount, Some(c), Some(rec.def))
      ensures HasBit(rec.kind, RELEASE) ==>
                var chain := restable[Bin(hashOf, rec.resource)];
                forall j :: 0 <= j < |chain| ==> !Matches(chain[j], resources, rec.resource, rec.def)
      ensures HasBit(rec.kind, ACQUIRE) && !HasBit(rec.kind, RELEASE) && (forall j :: 0 <= j < |old(restable[Bin(hashOf, rec.resource)])| ==>
                 !Matches(old(restable[Bin(hashOf, rec.resource)][j]), old(resources), rec.resource, rec.def)) ==>
                counters[c] == Ticked(if c < |old(counters)| then old(counters[c]) else Counter(0, 0, 0, rec.def, frame, []),
                                      rec.def.kind, rec.amount, rec.ticks).(resources := counters[c].resources)
      ensures State() == Applied(old(State()), hashOf, frame, rec)
      ensures OthersKept(old(counters), counters, rec.def)
    {
      if HasBit(rec.kind, COUNT) || HasBit(rec.kind, ACQUIRE) {
        ghost var ctrs0 := counters;
        c := CountRecord(frame, rec);
        ghost var mid := counters;
        ResourceRecord(rec, c);
        OthersKeptTwice(ctrs0, mid, counters, rec.def);
        assert counters[c].def == mid[c].def;
        HasCounterMember(CountersOf(frame), counters, rec.def, c);
      } else {
        c := 0;
        ResourceRecord(rec, c);
      }
    }

    /** dopush: descends to the frame of the call stack, then applies the
        records to it in order. Each counted or acquired definition then
        has a counter in the frame. */
    method DoPush(stack: seq<nat>, depth: int, recs: seq<Record>) returns (frame: nat)
      requires Valid() && depth <= |stack|
      modifies this, restable, callcache
      ensures Valid()
      ensures (nodes, frame) == Walk(old(nodes), CallPath(stack, depth))
      ensures cacheLen == |CallPath(stack, depth)|
      ensures forall i :: 0 <= i < |recs| && (HasBit(recs[i].kind, COUNT) || HasBit(recs[i].kind, ACQUIRE)) ==>
                HasCounter(frame, recs[i].def)
      ensures State() == Folded(old(State()), hashOf, frame, recs)
      ensures Untouched(old(counters), counters, recs)
    {
      frame := FrameFor(stack, depth);
      ApplyRecords(frame, recs);
    }

    /** The records applied to the frame in order. */
    method ApplyRecords(frame: nat, recs: seq<Record>)
      requires Valid() && frame < |nodes|
      modifies this, restable
      ensures Valid() && nodes == old(nodes) && cacheLen == old(cacheLen)
      ensures forall i :: 0 <= i < |recs| && (HasBit(recs[i].kind, COUNT) || HasBit(recs[i].kind, ACQUIRE)) ==>
                HasCounter(frame, recs[i].def)
      ensures State() == Folded(old(State()), hashOf, frame, recs)
      ensures Untouched(old(counters), counters, recs)
    {
      assert recs[..0] == [];
      for k := 0 to |recs|
        invariant Valid() && nodes == old(nodes) && cacheLen == old(cacheLen)
        invariant Provided(recs, k, CountersOf(frame), counters)
        invariant State() == Folded(old(State()), hashOf, frame, recs[..k])
        invariant Untouched(old(counters), counters, recs[..k])
      {
        ghost var list0, ctrs0 := CountersOf(frame), counters;
        var _ := ApplyRecord(frame, recs[k]);
        CountersKept(recs, k, list0, ctrs0, CountersOf(frame), counters);
        UntouchedStep(old(counters), ctrs0, counters, recs, k);
        FoldedSnoc(old(State()), hashOf, frame, recs, k);
      }
      assert recs[..|recs|] == recs;
    }

    /** The record found at pos released, the chain still has no record
        of the resource under the definition and pos is still where the
        resource order puts it. */
    method ReleaseStale(rec: Record, b: nat, pos: nat)
      requires Valid() && b == Bin(hashOf, rec.resource) && pos < |restable[b]|
      requires Matches(restable[b][pos], resources, rec.resource, rec.def)
      requires forall j :: 0 <= j < pos ==> resources[restable[b][j]].resource <= rec.resource
      modifies this, restable
      ensures Valid() && pos <= |restable[b]|
      ensures forall j :: 0 <= j < pos ==> resources[restable[b][j]].resource <= rec.resource
      ensures forall j :: pos <= j < |restable[b]| ==> resources[restable[b][j]].resource >= rec.resource
      ensures forall j :: 0 <= j < |restable[b]| ==> !Matches(restable[b][j], resources, rec.resource, rec.def)
      ensures |counters| == |old(counters)|
      ensures forall c' :: 0 <= c' < |counters| ==> counters[c'].def == old(counters[c'].def) && counters[c'].frame == old(counters[c'].frame)
      ensures nodes == old(nodes) && frameCounters == old(frameCounters) && cacheLen == old(cacheLen)
      ensures State() == ReleasedAt(old(State()), b, pos)
      ensures OthersKept(old(counters), counters, rec.def)
    {
      ghost var chain0, res0 := restable[b], resources;
      assert ChainOk(chain0, b, res0, counters, hashOf);
      ReleaseAt(b, pos, rec.def);
      forall j | 0 <= j < |restable[b]|
        ensures restable[b][j] < |resources| && resources[restable[b][j]] == res0[restable[b][j]]
        ensures !Matches(restable[b][j], resources, rec.resource, rec.def)
        ensures j < pos ==> resources[restable[b][j]].resource <= rec.resource
        ensures j >= pos ==> resources[restable[b][j]].resource >= rec.resource
      {
        assert ChainOk(restable[b], b, resources, counters, hashOf);
        if j < pos {
          assert restable[b][j] == chain0[j];
        } else {
          assert restable[b][j] == chain0[j + 1];
          assert !Matches(chain0[j + 1], res0, res0[chain0[pos]].resource, res0[chain0[pos]].def.value);
        }
      }
    }

    /** The linking half of acquireResource: a record taken from the free
        list (or a new one) gets the resource, the record's size and the
        counter, and goes into its hash chain at pos, where the resource
        order puts it, and at the head of the counter's live list. */
    method LinkResource(rec: Record, c: nat, b: nat, pos: nat) returns (r: nat)
      requires Valid() && c < |counters| && counters[c].def == rec.def
      requires b == Bin(hashOf, rec.resource) && pos <= |restable[b]|
      requires forall j :: 0 <= j < pos ==> resources[restable[b][j]].resource <= rec.resource
      requires forall j :: pos <= j < |restable[b]| ==> resources[restable[b][j]].resource >= rec.resource
      requires forall j :: 0 <= j < |restable[b]| ==> !Matches(restable[b][j], resources, rec.resource, rec.def)
      modifies this, restable
      ensures Valid()
      ensures var made := Resource(rec.resource, rec.amount, Some(c), Some(rec.def));
        (old(resfree) != [] && r == old(resfree[0]) && resfree == old(resfree[1..]) && resources == old(resources)[r := made]) ||
        (old(resfree) == [] && r == |old(resources)| && resfree == [] && resources == old(resources) + [made])
      ensures r < |resources| && resources[r] == Resource(rec.resource, rec.amount, Some(c), Some(rec.def))
      ensures restable[b] == Inserted(old(restable[b]), pos, r)
      ensures forall j :: 0 <= j < |restable[b]| && Matches(restable[b][j], resources, rec.resource, rec.def) ==> j == pos
      ensures forall b' :: 0 <= b' < RESOURCE_HASH && b' != b ==> restable[b'] == old(restable[b'])
      ensures counters == old(counters)[c := old(counters[c]).(resources := [r] + old(counters[c].resources))]
      ensures forall c' :: 0 <= c' < |counters| ==> counters[c'].def == old(counters[c'].def) && counters[c'].frame == old(counters[c'].frame)
      ensures counters[c].resources != [] && counters[c].resources[0] == r
      ensures var chain := restable[Bin(hashOf, rec.resource)];
        r in chain && forall j :: 0 <= j < |chain| && Matches(chain[j], resources, rec.resource, rec.def) ==> chain[j] == r
      ensures nodes == old(nodes) && frameCounters == old(frameCounters) && cacheLen == old(cacheLen)
      ensures (State(), r) == LinkedAt(old(State()), rec, c, b, pos)
      ensures OthersKept(old(counters), counters, rec.def)
    {
      var made := Resource(rec.resource, rec.amount, Some(c), Some(rec.def));
      ghost var res0, ctrs0, free0, t0 := resources, counters, resfree, restable[..];
      assert resfree != [] ==> resfree[0] < |resources| by {
        if resfree != [] {
          assert FreeOk(resfree, resources);
        }
      }
      if resfree != [] {
        r := resfree[0];
        resfree := resfree[1..];
        resources := resources[r := made];
      } else {
        r := |resources|;
        resources := resources + [made];
      }
      var chain := restable[b];
      restable[b] := Inserted(chain, pos, r);
      counters := counters[c := counters[c].(resources := [r] + counters[c].resources)];
      LinkKeepsValid(b, r, chain, pos, res0, ctrs0, free0);
      ChainMatchUnique(restable[b], b, resources, counters, hashOf, pos, rec.resource, rec.def);
      TableUpdate(t0, restable[..], b, Inserted(chain, pos, r));
    }

    /** The invariant after LinkResource. */
    lemma LinkKeepsValid(b: nat, r: nat, chain: seq<nat>, pos: nat, res0: seq<Resource>, ctrs0: seq<Counter>, free0: seq<nat>)
      requires b < RESOURCE_HASH && pos <= |chain| && restable.Length == RESOURCE_HASH && callcache.Length == MAX_DEPTH
      requires TreeOk(nodes) && CacheOk(nodes, callcache[..], cacheLen)
      requires forall f :: f in frameCounters ==> f < |nodes| && FrameCountersOk(frameCounters[f], f, ctrs0)
      requires forall c :: 0 <= c < |ctrs0| ==> ctrs0[c].frame < |nodes|
      requires forall c :: 0 <= c < |ctrs0| ==> LiveListOk(ctrs0[c].resources, c, ctrs0[c].def, res0)
      requires ChainOk(chain, b, res0, ctrs0, hashOf)
      requires forall b' :: 0 <= b' < RESOURCE_HASH && b' != b ==> ChainOk(restable[b'], b', res0, ctrs0, hashOf)
      requires FreeOk(free0, res0)
      requires (free0 != [] && r == free0[0] && resfree == free0[1..] && |resources| == |res0|) ||
               (free0 == [] && r == |res0| && resfree == [] && |resources| == |res0| + 1)
      requires forall x :: 0 <= x < |res0| && x != r ==> resources[x] == res0[x]
      requires r < |resources| && resources[r].counter.Some? && resources[r].counter.value < |ctrs0|
      requires var c := resources[r].counter.value;
        resources[r].def == Some(ctrs0[c].def) && Bin(hashOf, resources[r].resource) == b &&
        counters == ctrs0[c := ctrs0[c].(resources := [r] + ctrs0[c].resources)]
      requires forall j :: 0 <= j < pos ==> res0[chain[j]].resource <= resources[r].resource
      requires forall j :: pos <= j < |chain| ==> res0[chain[j]].resource >= resources[r].resource
      requires forall j :: 0 <= j < |chain| ==> !Matches(chain[j], res0, resources[r].resource, resources[r].def.value)
      requires restable[b] == Inserted(chain, pos, r)
      ensures Valid()
    {
      var c := resources[r].counter.value;
      // r was not live: it was freed or new.
      assert r < |res0| ==> res0[r].counter.None? by {
        if r < |res0| {
          assert free0[0] == r;
        }
      }
      LinkKeepsChains(b, r, chain, pos, res0, ctrs0);
      LinkKeepsFrames(frameCounters, ctrs0, c, r);
      LinkKeepsLiveLists(ctrs0, res0, resources, c, r);
      LinkKeepsFree(free0, res0, resfree, resources, r);
    }

    /** The hash chains after LinkResource. */
    lemma LinkKeepsChains(b: nat, r: nat, chain: seq<nat>, pos: nat, res0: seq<Resource>, ctrs0: seq<Counter>)
      requires b < RESOURCE_HASH && pos <= |chain| && restable.Length == RESOURCE_HASH
      requires ChainOk(chain, b, res0, ctrs0, hashOf)
      requires forall b' :: 0 <= b' < RESOURCE_HASH && b' != b ==> ChainOk(restable[b'], b', res0, ctrs0, hashOf)
      requires r < |res0| ==> res0[r].counter.None?
      requires |res0| <= |resources| && forall x :: 0 <= x < |res0| && x != r ==> resources[x] == res0[x]
      requires r < |resources| && resources[r].counter.Some? && resources[r].counter.value < |ctrs0|
      requires var c := resources[r].counter.value;
        resources[r].def.Some? && Bin(hashOf, resources[r].resource) == b &&
        counters == ctrs0[c := ctrs0[c].(resources := [r] + ctrs0[c].resources)]
      requires forall j :: 0 <= j < pos ==> res0[chain[j]].resource <= resources[r].resource
      requires forall j :: pos <= j < |chain| ==> res0[chain[j]].resource >= resources[r].resource
      requires forall j :: 0 <= j < |chain| ==> !Matches(chain[j], res0, resources[r].resource, resources[r].def.value)
      requires restable[b] == Inserted(chain, pos, r)
      ensures forall b' :: 0 <= b' < RESOURCE_HASH ==> ChainOk(restable[b'], b', resources, counters, hashOf)
    {
      forall b' | 0 <= b' < RESOURCE_HASH
        ensures ChainOk(restable[b'], b', resources, counters, hashOf)
      {
        var ch := if b' == b then chain else restable[b'];
        assert ChainOk(ch, b', res0, ctrs0, hashOf);
        forall j | 0 <= j < |ch|
          ensures ch[j] != r && ch[j] < |resources| && resources[ch[j]] == res0[ch[j]] && Live(ch[j], resources, counters)
        {
          assert Live(ch[j], res0, ctrs0);
        }
        if b' != b {
          ChainStable(ch, b', res0, ctrs0, resources, counters, hashOf);
        } else {
          ChainInsert(chain, pos, r, b, res0, ctrs0, resources, counters, hashOf);
        }
      }
    }

    /** The invariant after ReleaseAt. */
    lemma ReleaseKeepsValid(b: nat, r: nat, res0: seq<Resource>, ctrs0: seq<Counter>)
      requires r < |res0| && res0[r].counter.Some? && res0[r].counter.value < |ctrs0| && b < RESOURCE_HASH
      requires Bin(hashOf, res0[r].resource) == b
      requires TreeOk(nodes) && restable.Length == RESOURCE_HASH && callcache.Length == MAX_DEPTH
      requires CacheOk(nodes, callcache[..], cacheLen)
      requires forall f :: f in frameCounters ==> f < |nodes| && FrameCountersOk(frameCounters[f], f, ctrs0)
      requires forall c :: 0 <= c < |ctrs0| ==> ctrs0[c].frame < |nodes|
      requires forall c :: 0 <= c < |ctrs0| ==> LiveListOk(ctrs0[c].resources, c, ctrs0[c].def, res0)
      requires ChainOk(restable[b], b, res0, ctrs0, hashOf) && r !in restable[b]
      requires forall b' :: 0 <= b' < RESOURCE_HASH && b' != b ==> ChainOk(restable[b'], b', res0, ctrs0, hashOf)
      requires resfree != [] && resfree[0] == r && FreeOk(resfree[1..], res0)
      requires |counters| == |ctrs0|
      requires var c := res0[r].counter.value;
        counters == ctrs0[c := ctrs0[c].(value := counters[c].value, ticks := counters[c].ticks,
                                         resources := RemoveFirst(ctrs0[c].resources, r))]
      requires resources == res0[r := Resource(0, 0, None, None)]
      ensures Valid()
    {
      var c := res0[r].counter.value;
      forall b' | 0 <= b' < RESOURCE_HASH
        ensures ChainOk(restable[b'], b', resources, counters, hashOf)
      {
        var chain := restable[b'];
        assert ChainOk(chain, b', res0, ctrs0, hashOf);
        forall j | 0 <= j < |chain|
          ensures chain[j] < |resources| && resources[chain[j]] == res0[chain[j]] && Live(chain[j], resources, counters)
        {
          assert Live(chain[j], res0, ctrs0);
          assert chain[j] != r;
        }
        ChainStable(chain, b', res0, ctrs0, resources, counters, hashOf);
      }
      forall f | f in frameCounters
        ensures FrameCountersOk(frameCounters[f], f, counters)
      {
        assert FrameCountersOk(frameCounters[f], f, ctrs0);
      }
      assert !(r in resfree[1..]) by {
        assert res0[r].counter.Some?;
      }
      forall c' | 0 <= c' < |counters|
        ensures LiveListOk(counters[c'].resources, c', counters[c'].def, resources)
      {
        assert LiveListOk(ctrs0[c'].resources, c', ctrs0[c'].def, res0);
        if c' == c {
          RemoveDistinct(ctrs0[c].resources, r);
        }
        var list := counters[c'].resources;
        forall j | 0 <= j < |list|
          ensures list[j] < |resources| && resources[list[j]].counter == Some(c') && resources[list[j]].def == Some(counters[c'].def)
        {
          assert list[j] in ctrs0[c'].resources;
          var k :| 0 <= k < |ctrs0[c'].resources| && ctrs0[c'].resources[k] == list[j];
          assert list[j] != r;
        }
      }
    }
  }

  lemma CacheGrow(nodes: seq<StackNode>, grown: seq<StackNode>, cache: seq<CacheEntry>, len: nat)
    requires CacheOk(nodes, cache, len) && Extends(nodes, grown)
    ensures CacheOk(grown, cache, len)
  {
    forall i | 0 <= i < len
      ensures CacheSlotOk(grown, cache, i)
    {
      assert CacheSlotOk(nodes, cache, i);
    }
  }

  /** Writing slot i with the frame just descended to keeps the slots
      before it valid and makes slot i valid. */
  lemma CacheStep(before: seq<StackNode>, after: seq<StackNode>, cache: seq<CacheEntry>, cache': seq<CacheEntry>,
                  i: nat, frame: nat, k: nat, address: nat)
    requires TreeOk(before) && frame < |before| && i < |cache|
    requires CacheOk(before, cache, i) && (i > 0 ==> frame == cache[i - 1].frame) && (i == 0 ==> frame == 0)
    requires (after, k) == Descend(before, frame, address)
    requires cache' == cache[i := CacheEntry(address, k)]
    ensures CacheOk(after, cache', i + 1)
  {
    CacheGrow(before, after, cache, i);
    forall j | 0 <= j < i + 1
      ensures CacheSlotOk(after, cache', j)
    {
      if j < i {
        assert CacheSlotOk(after, cache, j);
        if j > 0 {
          assert cache'[j - 1] == cache[j - 1];
        }
      }
    }
  }

  /** The scan position of childStackNode is Place. */
  lemma PlaceUnique(nodes: seq<StackNode>, kids: seq<nat>, address: nat, i: nat)
    requires forall j :: 0 <= j < |kids| ==> kids[j] < |nodes|
    requires i <= |kids| && forall j :: 0 <= j < i ==> nodes[kids[j]].address < address
    requires i < |kids| ==> nodes[kids[i]].address >= address
    ensures Place(nodes, kids, address) == i
  {
    var p := Place(nodes, kids, address);
    assert !(p < i);
  }
}
