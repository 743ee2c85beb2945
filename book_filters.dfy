/** The dump browser's facets: every dump is described by ten filter
    values (counter, architecture, candle, ...); the page state in the URL
    hash selects one value per facet as `id=value&...`. */
module BookFilters {
  import opened Options
  import opened Decimal
  import opened JsString

  datatype FilterSpec = FilterSpec(name: string, id: string)

  /** filterSpecs, in the order paths list them. */
  const FilterSpecs: seq<FilterSpec> := [
    FilterSpec("counter", "c"), FilterSpec("architecture", "a"),
    FilterSpec("candle", "cl"), FilterSpec("tier", "t"),
    FilterSpec("pileup", "p"), FilterSpec("sequence", "sq"),
    FilterSpec("conditions", "cn"), FilterSpec("series", "s"),
    FilterSpec("events", "e"), FilterSpec("owner", "o")]

  const FacetCount: nat := 10

  lemma FilterSpecsShape()
    ensures |FilterSpecs| == FacetCount
    ensures forall i, j :: 0 <= i < j < FacetCount ==> FilterSpecs[i].id != FilterSpecs[j].id
    ensures forall i :: 0 <= i < FacetCount ==> '&' !in FilterSpecs[i].id && '=' !in FilterSpecs[i].id
  {
  }

  /** A dump's description: field name to value. */
  type Info = map<string, string>

  /** A JavaScript object of strings whose properties may hold undefined. */
  type State = map<string, Option<string>>

  /** info[name] as string concatenation renders it. */
  function InfoValue(info: Info, name: string): string
  {
    if name in info then info[name] else "undefined"
  }

  function StateValue(st: State, key: string): string
  {
    if key in st && st[key].Some? then st[key].value else "undefined"
  }

  /** `!st[key]`: missing, undefined or the empty string. */
  predicate Falsy(st: State, key: string)
  {
    key !in st || st[key] == None || st[key] == Some("")
  }

  function Pair(key: string, value: string): (p: string)
  {
    key + "=" + value
  }

  function Pairs(keys: seq<string>, values: seq<string>): (ps: seq<string>)
    requires |keys| == |values|
    ensures |ps| == |keys|
    ensures forall i :: 0 <= i < |ps| ==> ps[i] == Pair(keys[i], values[i])
  {
    if keys == [] then [] else [Pair(keys[0], values[0])] + Pairs(keys[1..], values[1..])
  }

  function FilterIds(): (ids: seq<string>)
    ensures |ids| == FacetCount
    ensures forall i :: 0 <= i < FacetCount ==> ids[i] == FilterSpecs[i].id
  {
    seq(FacetCount, i requires 0 <= i < FacetCount => FilterSpecs[i].id)
  }

  /** `c=v0&a=v1&...&o=v9`, one pair per facet in filterSpecs order. */
  function PathOf(values: seq<string>): (path: string)
    requires |values| == FacetCount
  {
    Join(Pairs(FilterIds(), values), '&')
  }

  function DumpValues(info: Info): (values: seq<string>)
    ensures |values| == FacetCount
  {
    seq(FacetCount, i requires 0 <= i < FacetCount => InfoValue(info, FilterSpecs[i].name))
  }

  function StateValues(st: State): (values: seq<string>)
    ensures |values| == FacetCount
  {
    seq(FacetCount, i requires 0 <= i < FacetCount => StateValue(st, FilterSpecs[i].id))
  }

  /** The path loop of getFilterInfo and createFilterSelector:
      `path += start + spec.id + "=" + value; start = "&"`. */
  method BuildPath(values: seq<string>) returns (path: string)
    requires |values| == FacetCount
    ensures path == PathOf(values)
  {
    var ids := FilterIds();
    var pairs := Pairs(ids, values);
    path := "";
    var start := "";
    for fi := 0 to FacetCount
      invariant fi == 0 ==> path == "" && start == ""
      invariant fi > 0 ==> path == Join(pairs[..fi], '&') && start == "&"
    {
      if fi > 0 {
        JoinSnoc(pairs[..fi], '&', pairs[fi]);
        assert pairs[..fi + 1] == pairs[..fi] + [pairs[fi]];
      } else {
        assert pairs[..1] == [pairs[0]];
      }
      path := path + start + ids[fi] + "=" + values[fi];
      start := "&";
    }
    assert pairs[..FacetCount] == pairs;
  }

  // ---------------------------------------------------------------------
  // parseState

  /** The pairs of a state string, later pairs overriding earlier ones:
      `results[option[0]] = option[1]`. */
  function StateOf(parts: seq<string>): (st: State)
  {
    if parts == [] then map[]
    else
      var option := Split(parts[|parts| - 1], '=');
      StateOf(parts[..|parts| - 1])[option[0] := if |option| >= 2 then Some(option[1]) else None]
  }

  /** parseState: an undefined or empty text gives an empty state. */
  method ParseState(txt: Option<string>) returns (results: State)
    ensures txt == None || txt == Some("") ==> results == map[]
    ensures txt.Some? && txt.value != "" ==> results == StateOf(Split(txt.value, '&'))
  {
    if txt == None || txt == Some("") {
      return map[];
    }
    var parts := Split(txt.value, '&');
    results := map[];
    for pi := 0 to |parts|
      invariant results == StateOf(parts[..pi])
    {
      var option := Split(parts[pi], '=');
      assert parts[..pi + 1][..pi] == parts[..pi];
      results := results[option[0] := if |option| >= 2 then Some(option[1]) else None];
    }
    assert parts[..|parts|] == parts;
  }

  lemma SplitPair(key: string, value: string)
    requires '=' !in key && '=' !in value
    ensures Split(Pair(key, value), '=') == [key, value]
  {
    SplitPrefix(key, '=', value);
    SplitFreeOf(value, '=');
  }

  lemma {:induction false} StateOfPairs(keys: seq<string>, values: seq<string>)
    requires |keys| == |values|
    requires forall i :: 0 <= i < |keys| ==> '=' !in keys[i] && '=' !in values[i]
    requires forall i, j :: 0 <= i < j < |keys| ==> keys[i] != keys[j]
    ensures forall x :: x in StateOf(Pairs(keys, values)) <==> x in keys
    ensures forall i :: 0 <= i < |keys| ==> StateOf(Pairs(keys, values))[keys[i]] == Some(values[i])
    decreases |keys|
  {
    if keys != [] {
      var n := |keys|;
      var ps := Pairs(keys, values);
      var front, k, v := keys[..n - 1], keys[n - 1], values[n - 1];
      assert ps[..n - 1] == Pairs(front, values[..n - 1]);
      StateOfPairs(front, values[..n - 1]);
      SplitPair(k, v);
      var st := StateOf(ps[..n - 1]);
      assert StateOf(ps) == st[k := Some(v)];
      assert forall x :: x in keys <==> x in front || x == k;
      forall i | 0 <= i < n - 1 ensures StateOf(ps)[keys[i]] == Some(values[i]) {
        assert keys[i] == front[i] && keys[i] != k;
      }
    }
  }

  /** parseState reads back a state written as `key=value&...`, when no
      key or value holds `&` or `=`. */
  lemma ParseStateInvertsPairs(keys: seq<string>, values: seq<string>)
    requires |keys| == |values| && |keys| >= 1
    requires forall i :: 0 <= i < |keys| ==> '=' !in keys[i] && '=' !in values[i]
    requires forall i :: 0 <= i < |keys| ==> '&' !in keys[i] && '&' !in values[i]
    requires forall i, j :: 0 <= i < j < |keys| ==> keys[i] != keys[j]
    ensures Join(Pairs(keys, values), '&') != ""
    ensures forall x :: x in StateOf(Split(Join(Pairs(keys, values), '&'), '&')) <==> x in keys
    ensures forall i :: 0 <= i < |keys| ==>
              StateOf(Split(Join(Pairs(keys, values), '&'), '&'))[keys[i]] == Some(values[i])
  {
    var ps := Pairs(keys, values);
    forall k | 0 <= k < |ps| ensures '&' !in ps[k] {
      assert ps[k] == keys[k] + "=" + values[k];
    }
    SplitJoin(ps, '&');
    StateOfPairs(keys, values);
    JoinNonEmpty(ps, '&');
  }

  lemma {:induction false} JoinNonEmpty(parts: seq<string>, c: char)
    requires |parts| >= 1 && |parts[0]| >= 1
    ensures |Join(parts, c)| >= 1
  {
  }

  /** A dump's filter path parses back into its ten facet values. */
  lemma ParseStateReadsPath(values: seq<string>)
    requires |values| == FacetCount
    requires forall i :: 0 <= i < FacetCount ==> '=' !in values[i] && '&' !in values[i]
    ensures forall i :: 0 <= i < FacetCount ==>
              FilterSpecs[i].id in StateOf(Split(PathOf(values), '&')) &&
              StateOf(Split(PathOf(values), '&'))[FilterSpecs[i].id] == Some(values[i])
  {
    FilterSpecsShape();
    var ids := FilterIds();
    ParseStateInvertsPairs(ids, values);
    forall i | 0 <= i < FacetCount ensures FilterSpecs[i].id in ids {
      assert ids[i] == FilterSpecs[i].id;
    }
  }

  // ---------------------------------------------------------------------
  // toggleList

  function RemoveFirst(parts: seq<string>, what: string): (res: seq<string>)
    ensures what in parts ==> |res| == |parts| - 1
  {
    if parts == [] then []
    else if parts[0] == what then parts[1..]
    else [parts[0]] + RemoveFirst(parts[1..], what)
  }

  /** What toggleList does with the parts of a non-empty list: the first
      occurrence of `what` is dropped; if there was none, a truthy `what`
      is appended. */
  function Toggled(parts: seq<string>, what: string): (res: seq<string>)
  {
    if what in parts then RemoveFirst(parts, what)
    else if what == "" then parts
    else parts + [what]
  }

  method ToggleList(l: Option<string>, what: string) returns (result: seq<string>)
    ensures l == None || l == Some("") ==> result == [what]
    ensures l.Some? && l.value != "" ==> result == Toggled(Split(l.value, ','), what)
  {
    if l == None || l == Some("") {
      return [what];
    }
    var parts := Split(l.value, ',');
    var pending: Option<string> := Some(what);
    result := [];
    for i := 0 to |parts|
      invariant ToggleInv(parts, what, i, pending, result)
    {
      ToggleStep(parts, what, i, pending, result);
      if pending == Some(parts[i]) {
        pending := None;
      } else {
        result := result + [parts[i]];
      }
    }
    ToggleEnd(parts, what, pending, result);
    if pending.Some? && pending.value != "" {
      result := result + [pending.value];
    }
  }

  /** What the loop of toggleList keeps after i parts: until `what` is
      met it is still pending and every part is copied; after, the parts
      still to copy complete the list without its first `what`. */
  ghost predicate ToggleInv(parts: seq<string>, what: string, i: nat, pending: Option<string>, result: seq<string>)
  {
    i <= |parts| &&
    (pending == None || pending == Some(what)) &&
    (pending == Some(what) <==> what !in parts[..i]) &&
    (pending == Some(what) ==> result == parts[..i]) &&
    (pending == None ==> result + parts[i..] == RemoveFirst(parts, what))
  }

  lemma ToggleStep(parts: seq<string>, what: string, i: nat, pending: Option<string>, result: seq<string>)
    requires ToggleInv(parts, what, i, pending, result) && i < |parts|
    ensures pending == Some(parts[i]) ==> ToggleInv(parts, what, i + 1, None, result)
    ensures pending != Some(parts[i]) ==> ToggleInv(parts, what, i + 1, pending, result + [parts[i]])
  {
    assert parts[..i + 1] == parts[..i] + [parts[i]];
    if pending == Some(parts[i]) {
      RemoveFirstAt(parts, what, i);
    } else if pending == None {
      assert parts[i..] == [parts[i]] + parts[i + 1..];
    }
  }

  lemma ToggleEnd(parts: seq<string>, what: string, pending: Option<string>, result: seq<string>)
    requires ToggleInv(parts, what, |parts|, pending, result)
    ensures pending == Some(what) ==> what !in parts && result == parts
    ensures pending == None ==> what in parts && result == RemoveFirst(parts, what)
  {
    assert parts[..|parts|] == parts;
    assert parts[|parts|..] == [];
  }

  lemma {:induction false} RemoveFirstAt(parts: seq<string>, what: string, i: nat)
    requires i < |parts| && parts[i] == what && what !in parts[..i]
    ensures RemoveFirst(parts, what) == parts[..i] + parts[i + 1..]
  {
    if i > 0 {
      assert parts[1..][..i - 1] == parts[..i][1..];
      RemoveFirstAt(parts[1..], what, i - 1);
      assert parts[..i] == [parts[0]] + parts[1..][..i - 1];
    }
  }

  /** Toggling an absent entry twice gives the list back: the first click
      appends it, the second removes it. */
  lemma ToggleTwice(l: string, what: string)
    requires l != "" && what != "" && ',' !in what
    requires what !in Split(l, ',')
    ensures Toggled(Split(Join(Toggled(Split(l, ','), what), ','), ','), what) == Split(l, ',')
  {
    var parts := Split(l, ',');
    var once := parts + [what];
    forall k | 0 <= k < |once| ensures ',' !in once[k] {
      if k < |parts| {
        assert once[k] == parts[k];
      }
    }
    SplitJoin(once, ',');
    RemoveFirstAt(once, what, |parts|);
    assert once[..|parts|] == parts;
  }

  // ---------------------------------------------------------------------
  // The value sorters

  /** JavaScript's `a > b` on strings. */
  predicate StrGreater(a: string, b: string)
  {
    !LexLe(a, b)
  }

  /** filter_values_sorter: alphabetical, "unknown" always last. */
  function ValuesCompare(a: string, b: string): (r: int)
    ensures r == 1 || r == -1
  {
    if a == "unknown" then 1
    else if b == "unknown" then -1
    else if StrGreater(a, b) then 1
    else -1
  }

  /** Number(a) > Number(b): false whenever either side is NaN. */
  predicate NumGreater(a: string, b: string)
  {
    JsNumber(a).Some? && JsNumber(b).Some? && JsNumber(a).value > JsNumber(b).value
  }

  /** series_sort: numerically descending, "unknown" always last. */
  function SeriesCompare(a: string, b: string): (r: int)
    ensures r == 1 || r == -1
  {
    if a == "unknown" then 1
    else if b == "unknown" then -1
    else if NumGreater(a, b) then -1
    else 1
  }

  /** events_sort: values are `<events>_<suffix>`; by number of events,
      then a value with a non-empty suffix after one without. A NaN
      difference reads as 0 to Array.prototype.sort. */
  function EventsCompare(a: string, b: string): (r: int)
  {
    var ra, rb := Split(a, '_'), Split(b, '_');
    var na, nb := JsNumber(ra[0]), JsNumber(rb[0]);
    if na.None? || nb.None? then 0
    else if na.value != nb.value then na.value - nb.value
    else if |ra| >= 2 && ra[1] != "" then 1
    else -1
  }

  /** The sorters put "unknown" after every other value, order the rest
      alphabetically (filter values) or by decreasing number (series), and
      events by increasing number. */
  lemma SortersOrder(a: string, b: string)
    ensures a == "unknown" ==> ValuesCompare(a, b) > 0 && SeriesCompare(a, b) > 0
    ensures a != "unknown" && b == "unknown" ==> ValuesCompare(a, b) < 0 && SeriesCompare(a, b) < 0
    ensures a != "unknown" && b != "unknown" ==> (ValuesCompare(a, b) < 0 <==> LexLe(a, b))
    ensures a != "unknown" && b != "unknown" && JsNumber(a).Some? && JsNumber(b).Some? ==>
              (SeriesCompare(a, b) < 0 <==> JsNumber(a).value > JsNumber(b).value)
    ensures JsNumber(a).Some? && JsNumber(b).Some? && '_' !in a && '_' !in b && JsNumber(a) != JsNumber(b) ==>
              (EventsCompare(a, b) < 0 <==> JsNumber(a).value < JsNumber(b).value)
  {
    if '_' !in a {
      SplitFreeOf(a, '_');
    }
    if '_' !in b {
      SplitFreeOf(b, '_');
    }
  }

  /** events_sort is not antisymmetric: two values with the same number
      and both with a suffix each sort after the other. */
  lemma EventsCompareInconsistent()
    ensures EventsCompare("10_a", "10_b") > 0 && EventsCompare("10_b", "10_a") > 0
  {
    assert Split("10_a", '_') == ["10", "a"] by {
      SplitPrefix("10", '_', "a");
      SplitFreeOf("a", '_');
      assert "10" + ['_'] + "a" == "10_a";
    }
    assert Split("10_b", '_') == ["10", "b"] by {
      SplitPrefix("10", '_', "b");
      SplitFreeOf("b", '_');
      assert "10" + ['_'] + "b" == "10_b";
    }
    assert JsNumber("10").Some?;
    BothSuffixedAfter("10_a", "10_b", "10");
    BothSuffixedAfter("10_b", "10_a", "10");
  }

  /** Of two values with the same number and a suffix each, events_sort
      puts the first after the second. */
  lemma BothSuffixedAfter(a: string, b: string, n: string)
    requires JsNumber(n).Some?
    requires |Split(a, '_')| >= 2 && Split(a, '_')[0] == n && Split(a, '_')[1] != ""
    requires Split(b, '_')[0] == n
    ensures EventsCompare(a, b) > 0
  {
  }

  // ---------------------------------------------------------------------
  // sortedValues.sort(sorter), for a sorter consistent on the values

  function InsertWith(cmp: (string, string) -> int, x: string, s: seq<string>): (res: seq<string>)
    ensures |res| == |s| + 1
    ensures multiset(res) == multiset(s) + multiset{x}
  {
    if s == [] || cmp(x, s[0]) <= 0 then [x] + s
    else
      assert s == [s[0]] + s[1..];
      [s[0]] + InsertWith(cmp, x, s[1..])
  }

  function SortWith(cmp: (string, string) -> int, s: seq<string>): (res: seq<string>)
    ensures |res| == |s|
    ensures multiset(res) == multiset(s)
  {
    if s == [] then []
    else
      assert s == [s[0]] + s[1..];
      InsertWith(cmp, s[0], SortWith(cmp, s[1..]))
  }

  predicate SortedWith(cmp: (string, string) -> int, s: seq<string>)
  {
    forall i, j :: 0 <= i < j < |s| ==> cmp(s[i], s[j]) <= 0
  }

  /** A comparator that orders the given values consistently: for two
      distinct values one goes first, and "goes no later" is transitive. */
  predicate ConsistentOn(cmp: (string, string) -> int, vals: set<string>)
  {
    (forall a, b :: a in vals && b in vals && a != b && cmp(a, b) > 0 ==> cmp(b, a) <= 0) &&
    (forall a, b, c :: a in vals && b in vals && c in vals && cmp(a, b) <= 0 && cmp(b, c) <= 0 ==> cmp(a, c) <= 0)
  }

  predicate Distinct(s: seq<string>)
  {
    forall i, j :: 0 <= i < j < |s| ==> s[i] != s[j]
  }

  lemma {:induction false} InsertWithSorted(cmp: (string, string) -> int, x: string, s: seq<string>, vals: set<string>)
    requires ConsistentOn(cmp, vals) && x in vals && forall y :: y in s ==> y in vals
    requires x !in s && SortedWith(cmp, s)
    ensures SortedWith(cmp, InsertWith(cmp, x, s))
  {
    if s == [] || cmp(x, s[0]) <= 0 {
      InsertFrontSorted(cmp, x, s, vals);
    } else {
      assert s[0] in s;
      InsertWithSorted(cmp, x, s[1..], vals);
      assert x != s[0];
      assert cmp(s[0], x) <= 0;
      InsertLaterSorted(cmp, x, s);
    }
  }

  lemma InsertFrontSorted(cmp: (string, string) -> int, x: string, s: seq<string>, vals: set<string>)
    requires ConsistentOn(cmp, vals) && x in vals && forall y :: y in s ==> y in vals
    requires SortedWith(cmp, s) && (s == [] || cmp(x, s[0]) <= 0)
    ensures SortedWith(cmp, [x] + s)
  {
    var res := [x] + s;
    forall i, j | 0 <= i < j < |res| ensures cmp(res[i], res[j]) <= 0 {
      if i == 0 && j > 1 {
        assert s[0] in s && s[j - 1] in s;
        assert cmp(s[0], s[j - 1]) <= 0;
      }
    }
  }

  lemma InsertLaterSorted(cmp: (string, string) -> int, x: string, s: seq<string>)
    requires SortedWith(cmp, s) && s != [] && cmp(s[0], x) <= 0
    requires SortedWith(cmp, InsertWith(cmp, x, s[1..]))
    ensures SortedWith(cmp, [s[0]] + InsertWith(cmp, x, s[1..]))
  {
    var tail := InsertWith(cmp, x, s[1..]);
    forall j | 0 <= j < |tail| ensures cmp(s[0], tail[j]) <= 0 {
      InsertWithFrom(cmp, x, s[1..], j);
      if tail[j] != x {
        var k :| 0 <= k < |s[1..]| && s[1..][k] == tail[j];
        assert s[k + 1] == tail[j];
      }
    }
    ConsSorted(cmp, s[0], tail);
  }

  lemma InsertWithFrom(cmp: (string, string) -> int, x: string, s: seq<string>, j: nat)
    requires j < |InsertWith(cmp, x, s)|
    ensures InsertWith(cmp, x, s)[j] == x || InsertWith(cmp, x, s)[j] in s
  {
    var res := InsertWith(cmp, x, s);
    assert res[j] in multiset(res);
  }

  lemma ConsSorted(cmp: (string, string) -> int, a: string, t: seq<string>)
    requires SortedWith(cmp, t) && forall j :: 0 <= j < |t| ==> cmp(a, t[j]) <= 0
    ensures SortedWith(cmp, [a] + t)
  {
    var res := [a] + t;
    forall i, j | 0 <= i < j < |res| ensures cmp(res[i], res[j]) <= 0 {
      assert res[j] == t[j - 1];
      if i > 0 {
        assert res[i] == t[i - 1];
      }
    }
  }

  lemma {:induction false} SortWithSorted(cmp: (string, string) -> int, s: seq<string>, vals: set<string>)
    requires ConsistentOn(cmp, vals) && Distinct(s) && forall y :: y in s ==> y in vals
    ensures SortedWith(cmp, SortWith(cmp, s))
  {
    if s != [] {
      SortWithSorted(cmp, s[1..], vals);
      var rest := SortWith(cmp, s[1..]);
      forall y | y in rest ensures y in vals && y != s[0] {
        assert y in multiset(rest);
      }
      assert s[0] in s;
      InsertWithSorted(cmp, s[0], rest, vals);
    }
  }

  lemma ValuesCompareConsistent(vals: set<string>)
    ensures ConsistentOn(ValuesCompare, vals)
  {
    forall a, b | a in vals && b in vals && a != b && ValuesCompare(a, b) > 0
      ensures ValuesCompare(b, a) <= 0
    {
      if a != "unknown" && b != "unknown" {
        LexLeTotal(a, b);
      }
    }
    forall a, b, c | a in vals && b in vals && c in vals && ValuesCompare(a, b) <= 0 && ValuesCompare(b, c) <= 0
      ensures ValuesCompare(a, c) <= 0
    {
      if c != "unknown" {
        LexLeTransitive(a, b, c);
      }
    }
  }

  /** Sorted filter values are alphabetical with "unknown" last. */
  lemma SortedValuesUnknownLast(s: seq<string>)
    requires Distinct(s)
    ensures forall i, j :: 0 <= i < j < |s| && SortWith(ValuesCompare, s)[j] != "unknown" ==>
              SortWith(ValuesCompare, s)[i] != "unknown" && LexLe(SortWith(ValuesCompare, s)[i], SortWith(ValuesCompare, s)[j])
  {
    var vals := set y | y in s;
    ValuesCompareConsistent(vals);
    SortWithSorted(ValuesCompare, s, vals);
    var r := SortWith(ValuesCompare, s);
    forall i, j | 0 <= i < j < |s| && r[j] != "unknown"
      ensures r[i] != "unknown" && LexLe(r[i], r[j])
    {
      assert ValuesCompare(r[i], r[j]) <= 0;
    }
  }

  /** Sorted series are numerically decreasing with "unknown" last, when
      every other value is a number and no two share a number. */
  lemma SortedSeriesDescending(s: seq<string>)
    requires Distinct(s)
    requires forall i, j :: 0 <= i < |s| && 0 <= j < |s| && i != j && s[i] != "unknown" && s[j] != "unknown" ==>
               JsNumber(s[i]).Some? && JsNumber(s[i]) != JsNumber(s[j])
    ensures forall i, j :: 0 <= i < j < |s| && SortWith(SeriesCompare, s)[j] != "unknown" ==>
              SortWith(SeriesCompare, s)[i] != "unknown" && NumGreater(SortWith(SeriesCompare, s)[i], SortWith(SeriesCompare, s)[j])
  {
    var vals := set y | y in s;
    SeriesCompareConsistent(s, vals);
    SortWithSorted(SeriesCompare, s, vals);
    var r := SortWith(SeriesCompare, s);
    forall i, j | 0 <= i < j < |s| && r[j] != "unknown"
      ensures r[i] != "unknown" && NumGreater(r[i], r[j])
    {
      assert SeriesCompare(r[i], r[j]) <= 0;
    }
  }

  lemma SeriesCompareConsistent(s: seq<string>, vals: set<string>)
    requires vals == set y | y in s
    requires forall i, j :: 0 <= i < |s| && 0 <= j < |s| && i != j && s[i] != "unknown" && s[j] != "unknown" ==>
               JsNumber(s[i]).Some? && JsNumber(s[i]) != JsNumber(s[j])
    ensures ConsistentOn(SeriesCompare, vals)
  {
    forall a, b | a in vals && b in vals && a != b && SeriesCompare(a, b) > 0
      ensures SeriesCompare(b, a) <= 0
    {
      var i :| 0 <= i < |s| && s[i] == a;
      var j :| 0 <= j < |s| && s[j] == b;
    }
  }

  // ---------------------------------------------------------------------
  // getFilterInfo

  /** The values of s without repeats, in order of first appearance: the
      insertion order of a JavaScript object's keys. */
  function FirstSeen(s: seq<string>): (res: seq<string>)
    ensures Distinct(res)
    ensures forall v :: v in res <==> v in s
  {
    if s == [] then []
    else
      var front := FirstSeen(s[..|s| - 1]);
      assert forall v :: v in s <==> v in s[..|s| - 1] || v == s[|s| - 1];
      if s[|s| - 1] in front then front else front + [s[|s| - 1]]
  }

  function SorterFor(name: string): (r: (string, string) -> int)
  {
    if name == "events" then EventsCompare
    else if name == "series" then SeriesCompare
    else ValuesCompare
  }

  function FacetValues(dumps: seq<Info>, fi: nat): (vals: seq<string>)
    requires fi < FacetCount
    ensures |vals| == |dumps|
  {
    seq(|dumps|, di requires 0 <= di < |dumps| => InfoValue(dumps[di], FilterSpecs[fi].name))
  }

  function DumpPaths(dumps: seq<Info>): (paths: seq<string>)
    ensures |paths| == |dumps|
  {
    seq(|dumps|, di requires 0 <= di < |dumps| => PathOf(DumpValues(dumps[di])))
  }

  /** getFilterInfo: the values each facet takes over the dumps, sorted by
      the facet's sorter; the distinct dump paths; and the selection, where
      a facet left unset or empty gets its first sorted value (undefined
      when there are no dumps) and everything else keeps its value. */
  method GetFilterInfo(dumps: seq<Info>, defaults: State)
    returns (filterInfo: State, available: seq<seq<string>>, paths: seq<string>)
    ensures |available| == FacetCount
    ensures forall fi :: 0 <= fi < FacetCount ==>
              available[fi] == SortWith(SorterFor(FilterSpecs[fi].name), FirstSeen(FacetValues(dumps, fi)))
    ensures forall fi :: 0 <= fi < FacetCount ==> (|available[fi]| > 0 <==> |dumps| > 0)
    ensures paths == FirstSeen(DumpPaths(dumps))
    ensures forall k :: k !in FilterIds() ==> (k in filterInfo <==> k in defaults)
    ensures forall k :: k !in FilterIds() && k in defaults ==> filterInfo[k] == defaults[k]
    ensures forall fi :: 0 <= fi < FacetCount ==> FilterSpecs[fi].id in filterInfo
    ensures forall fi :: 0 <= fi < FacetCount && !Falsy(defaults, FilterSpecs[fi].id) ==>
              filterInfo[FilterSpecs[fi].id] == defaults[FilterSpecs[fi].id]
    ensures forall fi :: 0 <= fi < FacetCount && Falsy(defaults, FilterSpecs[fi].id) ==>
              filterInfo[FilterSpecs[fi].id] == (if |dumps| > 0 then Some(available[fi][0]) else None)
  {
    var seen;
    seen, paths := CollectFacets(dumps);
    available := SortFacets(seen);
    forall fi | 0 <= fi < FacetCount ensures |available[fi]| > 0 <==> |dumps| > 0 {
      if |dumps| > 0 {
        assert FacetValues(dumps, fi)[0] in FirstSeen(FacetValues(dumps, fi));
      }
    }
    filterInfo := FillUnset(defaults, available, |dumps| > 0);
  }

  /** availableFilters[name] after sorting. */
  function SortedFacet(seen: seq<seq<string>>, fi: nat): (vals: seq<string>)
    requires |seen| == FacetCount && fi < FacetCount
  {
    SortWith(SorterFor(FilterSpecs[fi].name), seen[fi])
  }

  /** availableFilters after sorting, facet by facet. */
  function SortedFacets(seen: seq<seq<string>>): seq<seq<string>>
    requires |seen| == FacetCount
  {
    seq(FacetCount, k requires 0 <= k < FacetCount => SortedFacet(seen, k))
  }

  /** The sorting loop of getFilterInfo: each facet with its own sorter. */
  method SortFacets(seen: seq<seq<string>>) returns (available: seq<seq<string>>)
    requires |seen| == FacetCount
    ensures available == SortedFacets(seen)
  {
    available := [];
    for fi := 0 to FacetCount
      invariant available == SortedFacets(seen)[..fi]
    {
      var sortedValues := SortedFacet(seen, fi);
      SortedFacetsSnoc(seen, fi);
      available := available + [sortedValues];
    }
    SortedFacetsSnoc(seen, FacetCount);
  }

  lemma SortedFacetsSnoc(seen: seq<seq<string>>, fi: nat)
    requires |seen| == FacetCount && fi <= FacetCount
    ensures fi < FacetCount ==> SortedFacets(seen)[..fi + 1] == SortedFacets(seen)[..fi] + [SortedFacet(seen, fi)]
    ensures fi == FacetCount ==> SortedFacets(seen)[..fi] == SortedFacets(seen)
  {
    var all := SortedFacets(seen);
    if fi < FacetCount {
      assert all[..fi + 1] == all[..fi] + [all[fi]];
    }
  }

  /** The first loop of getFilterInfo, over the dumps. */
  method CollectFacets(dumps: seq<Info>) returns (seen: seq<seq<string>>, paths: seq<string>)
    ensures |seen| == FacetCount
    ensures forall fi :: 0 <= fi < FacetCount ==> seen[fi] == FirstSeen(FacetValues(dumps, fi))
    ensures paths == FirstSeen(DumpPaths(dumps))
  {
    seen := seq(FacetCount, _ => []);
    paths := [];
    for di := 0 to |dumps|
      invariant |seen| == FacetCount
      invariant forall fi :: 0 <= fi < FacetCount ==> seen[fi] == FirstSeen(FacetValues(dumps[..di], fi))
      invariant paths == FirstSeen(DumpPaths(dumps[..di]))
    {
      var info := dumps[di];
      CollectStep(dumps, di);
      seen := RecordValues(seen, dumps[..di], info);
      var uniquePath := BuildPath(DumpValues(info));
      if uniquePath !in paths {
        paths := paths + [uniquePath];
      }
    }
    assert dumps[..|dumps|] == dumps;
  }

  /** One more dump: its path is added unless already seen. */
  lemma CollectStep(dumps: seq<Info>, di: nat)
    requires di < |dumps|
    ensures dumps[..di + 1] == dumps[..di] + [dumps[di]]
    ensures var p := FirstSeen(DumpPaths(dumps[..di]));
      var u := PathOf(DumpValues(dumps[di]));
      FirstSeen(DumpPaths(dumps[..di + 1])) == if u in p then p else p + [u]
  {
    assert dumps[..di + 1] == dumps[..di] + [dumps[di]];
    assert DumpPaths(dumps[..di + 1])[..di] == DumpPaths(dumps[..di]);
  }

  /** The last loop of getFilterInfo: `if (!filterInfo[spec.id])
      filterInfo[spec.id] = availableFilters[spec.name][0]`. */
  /** What the filling loop keeps after the first fi facets: other keys
      as the defaults have them, later facets untouched, and each facet
      done either kept (truthy) or set to its first available value. */
  ghost predicate FillInv(defaults: State, available: seq<seq<string>>, haveDumps: bool, fi: nat, filterInfo: State)
    requires |available| == FacetCount && fi <= FacetCount
    requires forall g :: 0 <= g < FacetCount ==> (|available[g]| > 0 <==> haveDumps)
  {
    FillKept(defaults, fi, filterInfo) && FillDone(defaults, available, haveDumps, fi, filterInfo)
  }

  /** Keys other than the facets, and the facets from fi on, are as the
      defaults have them. */
  ghost predicate FillKept(defaults: State, fi: nat, filterInfo: State)
    requires fi <= FacetCount
  {
    var ids := FilterIds();
    (forall k :: k !in ids ==> (k in filterInfo <==> k in defaults)) &&
    (forall k :: k !in ids && k in defaults ==> filterInfo[k] == defaults[k]) &&
    (forall g :: fi <= g < FacetCount ==>
       (ids[g] in filterInfo <==> ids[g] in defaults) &&
       (ids[g] in defaults ==> filterInfo[ids[g]] == defaults[ids[g]]))
  }

  /** The facets before fi are set: kept when truthy, else their first
      available value. */
  ghost predicate FillDone(defaults: State, available: seq<seq<string>>, haveDumps: bool, fi: nat, filterInfo: State)
    requires |available| == FacetCount && fi <= FacetCount
    requires forall g :: 0 <= g < FacetCount ==> (|available[g]| > 0 <==> haveDumps)
  {
    var ids := FilterIds();
    (forall g :: 0 <= g < fi ==> ids[g] in filterInfo) &&
    (forall g :: 0 <= g < fi && !Falsy(defaults, ids[g]) ==> filterInfo[ids[g]] == defaults[ids[g]]) &&
    (forall g :: 0 <= g < fi && Falsy(defaults, ids[g]) ==>
       filterInfo[ids[g]] == (if haveDumps then Some(available[g][0]) else None))
  }

  /** The facet ids are distinct. */
  lemma IdsDistinct(fi: nat)
    requires fi < FacetCount
    ensures forall g :: 0 <= g < FacetCount && g != fi ==> FilterIds()[g] != FilterIds()[fi]
  {
    FilterSpecsShape();
  }

  /** Setting facet fi leaves every other key alone. */
  lemma FillStepKept(defaults: State, fi: nat, filterInfo: State, v: Option<string>)
    requires fi < FacetCount && FillKept(defaults, fi, filterInfo)
    ensures var id := FilterIds()[fi];
      FillKept(defaults, fi + 1, if Falsy(filterInfo, id) then filterInfo[id := v] else filterInfo)
  {
    var ids := FilterIds();
    IdsDistinct(fi);
  }

  lemma FillStep(defaults: State, available: seq<seq<string>>, haveDumps: bool, fi: nat, filterInfo: State)
    requires |available| == FacetCount && fi < FacetCount
    requires forall g :: 0 <= g < FacetCount ==> (|available[g]| > 0 <==> haveDumps)
    requires FillInv(defaults, available, haveDumps, fi, filterInfo)
    ensures var id := FilterIds()[fi];
      var first := if |available[fi]| > 0 then Some(available[fi][0]) else None;
      FillInv(defaults, available, haveDumps, fi + 1,
              if Falsy(filterInfo, id) then filterInfo[id := first] else filterInfo)
  {
    var ids := FilterIds();
    var id := ids[fi];
    var first := if |available[fi]| > 0 then Some(available[fi][0]) else None;
    FillStepKept(defaults, fi, filterInfo, first);
    IdsDistinct(fi);
    var f2 := if Falsy(filterInfo, id) then filterInfo[id := first] else filterInfo;
    assert Falsy(filterInfo, id) <==> Falsy(defaults, id);
    assert forall g :: 0 <= g < fi ==> ids[g] != id;
  }

  method FillUnset(defaults: State, available: seq<seq<string>>, haveDumps: bool) returns (filterInfo: State)
    requires |available| == FacetCount
    requires forall fi :: 0 <= fi < FacetCount ==> (|available[fi]| > 0 <==> haveDumps)
    ensures forall k :: k !in FilterIds() ==> (k in filterInfo <==> k in defaults)
    ensures forall k :: k !in FilterIds() && k in defaults ==> filterInfo[k] == defaults[k]
    ensures forall fi :: 0 <= fi < FacetCount ==> FilterSpecs[fi].id in filterInfo
    ensures forall fi :: 0 <= fi < FacetCount && !Falsy(defaults, FilterSpecs[fi].id) ==>
              filterInfo[FilterSpecs[fi].id] == defaults[FilterSpecs[fi].id]
    ensures forall fi :: 0 <= fi < FacetCount && Falsy(defaults, FilterSpecs[fi].id) ==>
              filterInfo[FilterSpecs[fi].id] == (if haveDumps then Some(available[fi][0]) else None)
  {
    var ids := FilterIds();
    filterInfo := defaults;
    for fi := 0 to FacetCount
      invariant FillInv(defaults, available, haveDumps, fi, filterInfo)
    {
      FillStep(defaults, available, haveDumps, fi, filterInfo);
      var id := ids[fi];
      if Falsy(filterInfo, id) {
        var first: Option<string> := None;
        if |available[fi]| > 0 {
          first := Some(available[fi][0]);
        }
        filterInfo := filterInfo[id := first];
      }
    }
  }


  /** One dump's pass over the facets: `availableFilters[name][value] = true`. */
  method RecordValues(seen: seq<seq<string>>, before: seq<Info>, info: Info) returns (next: seq<seq<string>>)
    requires |seen| == FacetCount
    requires forall fi :: 0 <= fi < FacetCount ==> seen[fi] == FirstSeen(FacetValues(before, fi))
    ensures |next| == FacetCount
    ensures forall fi :: 0 <= fi < FacetCount ==> next[fi] == FirstSeen(FacetValues(before + [info], fi))
  {
    next := seen;
    for fi := 0 to FacetCount
      invariant |next| == FacetCount
      invariant forall g :: 0 <= g < fi ==> next[g] == FirstSeen(FacetValues(before + [info], g))
      invariant forall g :: fi <= g < FacetCount ==> next[g] == seen[g]
    {
      var value := InfoValue(info, FilterSpecs[fi].name);
      RecordStep(before, info, fi);
      ghost var prev := next;
      if value !in next[fi] {
        next := next[fi := next[fi] + [value]];
      }
      assert forall g :: 0 <= g < FacetCount && g != fi ==> next[g] == prev[g];
    }
  }

  /** One more dump adds its value of the facet, unless already seen. */
  lemma RecordStep(before: seq<Info>, info: Info, fi: nat)
    requires fi < FacetCount
    ensures var f := FirstSeen(FacetValues(before, fi));
      var v := InfoValue(info, FilterSpecs[fi].name);
      FirstSeen(FacetValues(before + [info], fi)) == if v in f then f else f + [v]
  {
    var all := FacetValues(before + [info], fi);
    assert all[..|all| - 1] == FacetValues(before, fi);
  }
}
