/** The dump browser's "poor man's JOIN": every dump is a list of symbol ids
    with one record of six numbers per id; the ids of all dumps are merged
    into one duplicate-free list in JavaScript's default sort order, and
    each merged row gets six cells per dump, taken from the dump's record
    for that id or filled with zeros. */
module BookMerge {
  import opened Decimal
  import opened Options

  /** A JavaScript number as the browser sees it. Numbers decoded from
      JSON are always finite; the infinities and NaN only come from a
      ratio with a zero denominator. */
  datatype Num = Fin(v: real) | PosInf | NegInf | NaN

  /** One dump of a flat or node view: keys[j] is the symbol id of
      records[j]. */
  datatype Dump = Dump(keys: seq<nat>, records: seq<seq<Num>>)
  {
    predicate WellFormed()
    {
      |records| == |keys| && forall j :: 0 <= j < |records| ==> |records[j]| >= 6
    }
  }

  /** A merged row: `[id, cells...]` in the browser. */
  datatype Row = Row(key: nat, cells: seq<Num>)

  function Zeros(): (z: seq<Num>)
    ensures |z| == 6 && forall k :: 0 <= k < 6 ==> z[k] == Fin(0.0)
  {
    [Fin(0.0), Fin(0.0), Fin(0.0), Fin(0.0), Fin(0.0), Fin(0.0)]
  }

  // ---------------------------------------------------------------------
  // The order of Array.prototype.sort() without a comparator: numbers are
  // compared by their decimal renderings.

  predicate KeyLe(a: nat, b: nat)
  {
    LexLe(Dec(a), Dec(b))
  }

  predicate KeyLess(a: nat, b: nat)
  {
    KeyLe(a, b) && a != b
  }

  lemma KeyLeReflexive(a: nat)
    ensures KeyLe(a, a)
  {
    LexLeReflexive(Dec(a));
  }

  lemma KeyLeTotal(a: nat, b: nat)
    ensures KeyLe(a, b) || KeyLe(b, a)
  {
    LexLeTotal(Dec(a), Dec(b));
  }

  lemma KeyLeAntisymmetric(a: nat, b: nat)
    requires KeyLe(a, b) && KeyLe(b, a)
    ensures a == b
  {
    LexLeAntisymmetric(Dec(a), Dec(b));
    DecInjective(a, b);
  }

  lemma KeyLeTransitive(a: nat, b: nat, c: nat)
    requires KeyLe(a, b) && KeyLe(b, c)
    ensures KeyLe(a, c)
  {
    LexLeTransitive(Dec(a), Dec(b), Dec(c));
  }

  lemma KeyLessAfterLe(a: nat, b: nat, c: nat)
    requires KeyLe(a, b) && KeyLess(b, c)
    ensures KeyLess(a, c)
  {
    KeyLeTransitive(a, b, c);
    if a == c {
      KeyLeAntisymmetric(b, c);
    }
  }

  predicate KeySorted(s: seq<nat>)
  {
    forall i, j :: 0 <= i < j < |s| ==> KeyLe(s[i], s[j])
  }

  predicate StrictlySorted(s: seq<nat>)
  {
    forall i, j :: 0 <= i < j < |s| ==> KeyLess(s[i], s[j])
  }

  /** Ten sorts before nine: the order is not numeric. */
  lemma TenBeforeNine()
    ensures KeyLess(10, 9) && !KeyLe(9, 10)
  {
    assert Dec(10) == ['1', '0'];
    assert Dec(9) == ['9'];
  }

  // ---------------------------------------------------------------------
  // ids.sort(): any correct sort yields the same sequence, since KeyLe is a
  // total order; insertion sort stands for it.

  function InsertKey(x: nat, s: seq<nat>): (res: seq<nat>)
    ensures multiset(res) == multiset(s) + multiset{x}
  {
    if s == [] || KeyLe(x, s[0]) then [x] + s
    else
      assert s == [s[0]] + s[1..];
      [s[0]] + InsertKey(x, s[1..])
  }

  function SortKeys(s: seq<nat>): (res: seq<nat>)
    ensures multiset(res) == multiset(s)
  {
    if s == [] then []
    else
      assert s == [s[0]] + s[1..];
      InsertKey(s[0], SortKeys(s[1..]))
  }

  lemma {:induction false} InsertKeySorted(x: nat, s: seq<nat>)
    requires KeySorted(s)
    ensures KeySorted(InsertKey(x, s))
  {
    if s == [] || KeyLe(x, s[0]) {
      forall j | 0 <= j < |s| ensures KeyLe(x, s[j]) {
        if j > 0 {
          KeyLeTransitive(x, s[0], s[j]);
        }
      }
      var res := [x] + s;
      forall i, j | 0 <= i < j < |res| ensures KeyLe(res[i], res[j]) {
        if i > 0 {
          assert res[i] == s[i - 1] && res[j] == s[j - 1];
        } else {
          assert res[j] == s[j - 1];
        }
      }
    } else {
      KeyLeTotal(x, s[0]);
      InsertKeySorted(x, s[1..]);
      var tail := InsertKey(x, s[1..]);
      forall j | 0 <= j < |tail| ensures KeyLe(s[0], tail[j]) {
        assert tail[j] in multiset(tail);
        assert tail[j] == x || tail[j] in s[1..];
      }
    }
  }

  lemma {:induction false} SortKeysSorted(s: seq<nat>)
    ensures KeySorted(SortKeys(s))
  {
    if s != [] {
      SortKeysSorted(s[1..]);
      InsertKeySorted(s[0], SortKeys(s[1..]));
    }
  }

  // ---------------------------------------------------------------------
  // mergeIds

  /** All ids of all dumps, dump after dump, in each dump's order. */
  function AllKeys(source: seq<Dump>): (all: seq<nat>)
    ensures forall k :: k in all <==> exists di :: 0 <= di < |source| && k in source[di].keys
  {
    if source == [] then []
    else
      var rest := AllKeys(source[..|source| - 1]);
      assert forall di :: 0 <= di < |source| - 1 ==> source[..|source| - 1][di] == source[di];
      rest + source[|source| - 1].keys
  }

  /** Collects every id of every dump, sorts them in string order and
      drops repeated ids. */
  method MergeIds(source: seq<Dump>) returns (ids: seq<nat>)
    ensures StrictlySorted(ids)
    ensures forall k :: k in ids <==> k in AllKeys(source)
  {
    var all := CollectIds(source);
    var sorted := SortKeys(all);
    SortKeysSorted(all);
    assert forall k :: k in sorted <==> k in all by {
      forall k ensures k in sorted <==> k in all {
        assert k in sorted <==> k in multiset(sorted);
        assert k in all <==> k in multiset(all);
      }
    }
    ids := PruneRepeats(sorted);
  }

  method CollectIds(source: seq<Dump>) returns (all: seq<nat>)
    ensures all == AllKeys(source)
  {
    all := [];
    for di := 0 to |source|
      invariant all == AllKeys(source[..di])
    {
      var keys := source[di].keys;
      for i := 0 to |keys|
        invariant all == AllKeys(source[..di]) + keys[..i]
      {
        all := all + [keys[i]];
      }
      assert source[..di + 1][..di] == source[..di];
    }
    assert source[..|source|] == source;
  }

  /** The pruning loop of mergeIds: an id is kept when it differs from the
      last kept one; kept ids are compacted to the front in place. */
  method PruneRepeats(sorted: seq<nat>) returns (ids: seq<nat>)
    requires KeySorted(sorted)
    ensures StrictlySorted(ids)
    ensures forall k :: k in ids <==> k in sorted
  {
    ids := sorted;
    var j := 0;
    var last: Option<nat> := None;
    for i := 0 to |sorted|
      invariant |ids| == |sorted| && j <= i
      invariant ids[i..] == sorted[i..]
      invariant StrictlySorted(ids[..j])
      invariant forall k :: k in ids[..j] <==> k in sorted[..i]
      invariant i == 0 <==> last == None
      invariant i > 0 ==> j > 0 && last == Some(sorted[i - 1]) && ids[j - 1] == sorted[i - 1]
    {
      if last != Some(sorted[i]) {
        if i > 0 {
          forall k | 0 <= k < j ensures KeyLess(ids[k], sorted[i]) {
            KeptBelow(ids[..j], sorted, i, k);
          }
        }
        last := Some(sorted[i]);
        ids := ids[j := sorted[i]];
        j := j + 1;
        assert ids[..j] == ids[..j - 1] + [sorted[i]];
      } else {
        assert ids[j - 1] in ids[..j];
      }
      assert sorted[..i + 1] == sorted[..i] + [sorted[i]];
    }
    assert sorted[..|sorted|] == sorted;
    ids := ids[..j];
  }

  lemma KeptBelow(kept: seq<nat>, sorted: seq<nat>, i: nat, k: nat)
    requires KeySorted(sorted) && 0 < i < |sorted| && k < |kept|
    requires forall x :: x in kept ==> x in sorted[..i]
    requires sorted[i - 1] != sorted[i]
    ensures KeyLess(kept[k], sorted[i])
  {
    assert kept[k] in sorted[..i];
    var m :| 0 <= m < i && sorted[m] == kept[k];
    if m == i - 1 {
      KeyLeReflexive(kept[k]);
    }
    KeyLessAfterLe(kept[k], sorted[i - 1], sorted[i]);
  }


  // ---------------------------------------------------------------------
  // mergeDumps

  /** The dump's key at cursor c joins with id: JavaScript's test
      `source[di][0][j] && source[di][0][j] == ids[i]`, so a missing key or
      the falsy id 0 never joins. */
  predicate Joins(d: Dump, c: nat, id: nat)
  {
    c < |d.keys| && d.keys[c] != 0 && d.keys[c] == id
  }

  /** The dump's cursor before row i: it advances only on a join. */
  function Cursor(d: Dump, ids: seq<nat>, i: nat): (c: nat)
    requires i <= |ids|
    ensures c <= i && c <= |d.keys|
  {
    if i == 0 then 0
    else
      var c := Cursor(d, ids, i - 1);
      if Joins(d, c, ids[i - 1]) then c + 1 else c
  }

  /** The six cells of dump di in a merged row. */
  function Block(row: Row, di: nat): (cells: seq<Num>)
    requires 6 * (di + 1) <= |row.cells|
    ensures |cells| == 6
  {
    row.cells[6 * di..6 * di + 6]
  }

  /** The six cells that dump d contributes to row i. */
  function Cells(d: Dump, ids: seq<nat>, i: nat): (cells: seq<Num>)
    requires d.WellFormed() && i < |ids|
    ensures |cells| == 6
  {
    var c := Cursor(d, ids, i);
    if Joins(d, c, ids[i]) then d.records[c][..6] else Zeros()
  }

  /** All the cells of row i, dump after dump. */
  function RowCells(ds: seq<Dump>, ids: seq<nat>, i: nat): (cells: seq<Num>)
    requires forall di :: 0 <= di < |ds| ==> ds[di].WellFormed()
    requires i < |ids|
    ensures |cells| == 6 * |ds|
  {
    if ds == [] then []
    else RowCells(ds[..|ds| - 1], ids, i) + Cells(ds[|ds| - 1], ids, i)
  }

  lemma {:induction false} RowCellsIndex(ds: seq<Dump>, ids: seq<nat>, i: nat, di: nat, rii: nat)
    requires forall di :: 0 <= di < |ds| ==> ds[di].WellFormed()
    requires i < |ids| && di < |ds| && rii < 6
    ensures RowCells(ds, ids, i)[di * 6 + rii] == Cells(ds[di], ids, i)[rii]
  {
    var front := ds[..|ds| - 1];
    if di < |ds| - 1 {
      assert front[di] == ds[di];
      RowCellsIndex(front, ids, i, di, rii);
    }
  }

  /** Fills row i with `[ids[i]]` and then six cells per dump. An empty
      id list leaves no rows. */
  method MergeDumps(source: seq<Dump>, ids: seq<nat>) returns (dest: seq<Row>)
    requires forall di :: 0 <= di < |source| ==> source[di].WellFormed()
    ensures |dest| == |ids|
    ensures forall i :: 0 <= i < |ids| ==> dest[i].key == ids[i]
    ensures forall i :: 0 <= i < |ids| ==> dest[i].cells == RowCells(source, ids, i)
  {
    dest := [];
    if |ids| == 0 {
      return;
    }
    for i := 0 to |ids|
      invariant |dest| == i
      invariant forall k :: 0 <= k < i ==> dest[k] == Row(ids[k], [])
    {
      dest := dest + [Row(ids[i], [])];
    }
    for di := 0 to |source|
      invariant |dest| == |ids|
      invariant forall k :: 0 <= k < |ids| ==> dest[k].key == ids[k]
      invariant forall k :: 0 <= k < |ids| ==> dest[k].cells == RowCells(source[..di], ids, k)
    {
      assert source[..di + 1][..di] == source[..di];
      dest := JoinDump(dest, source[di], ids);
    }
    assert source[..|source|] == source;
  }

  /** One dump's pass of mergeDumps: its cursor j advances only when its
      key at j joins the row's id. */
  method JoinDump(rows: seq<Row>, d: Dump, ids: seq<nat>) returns (dest: seq<Row>)
    requires d.WellFormed() && |rows| == |ids|
    ensures |dest| == |ids|
    ensures forall k :: 0 <= k < |ids| ==> dest[k] == Row(rows[k].key, rows[k].cells + Cells(d, ids, k))
  {
    dest := rows;
    var j := 0;
    for i := 0 to |ids|
      invariant |dest| == |ids|
      invariant j == Cursor(d, ids, i)
      invariant forall k :: 0 <= k < i ==> dest[k] == Row(rows[k].key, rows[k].cells + Cells(d, ids, k))
      invariant forall k :: i <= k < |ids| ==> dest[k] == rows[k]
    {
      var row;
      if j < |d.keys| && d.keys[j] != 0 && d.keys[j] == ids[i] {
        row := d.records[j];
        j := j + 1;
      } else {
        row := Zeros();
      }
      dest := dest[i := Row(dest[i].key, dest[i].cells + row[..6])];
    }
  }

  // ---------------------------------------------------------------------
  // What the join computes when the dumps list their ids in the same
  // string order as mergeIds.

  /** The keys a dump sends: nonzero and strictly increasing in string
      order. */
  predicate OrderedKeys(d: Dump)
  {
    StrictlySorted(d.keys) && forall k :: 0 <= k < |d.keys| ==> d.keys[k] != 0
  }

  lemma {:induction false} CursorSplits(d: Dump, ids: seq<nat>, i: nat)
    requires OrderedKeys(d) && StrictlySorted(ids)
    requires forall k :: 0 <= k < |d.keys| ==> d.keys[k] in ids
    requires i <= |ids|
    ensures forall k :: 0 <= k < Cursor(d, ids, i) ==> d.keys[k] in ids[..i]
    ensures forall k :: Cursor(d, ids, i) <= k < |d.keys| ==> d.keys[k] !in ids[..i]
  {
    if i > 0 {
      CursorSplits(d, ids, i - 1);
      var c := Cursor(d, ids, i - 1);
      var id := ids[i - 1];
      assert ids[..i] == ids[..i - 1] + [id];
      if Joins(d, c, id) {
        forall k | c + 1 <= k < |d.keys| ensures d.keys[k] != id {
          assert KeyLess(d.keys[c], d.keys[k]);
        }
      } else {
        forall k | c <= k < |d.keys| ensures d.keys[k] != id {
          if d.keys[k] == id && k > c {
            LaterKeyUnseen(d, ids, i - 1, c, k);
          }
        }
      }
    }
  }

  /** When keys[c] has not been reached by row i, no later key can be
      ids[i]: keys[c] sorts before it and would have to come first. */
  lemma LaterKeyUnseen(d: Dump, ids: seq<nat>, i: nat, c: nat, k: nat)
    requires OrderedKeys(d) && StrictlySorted(ids)
    requires forall x :: 0 <= x < |d.keys| ==> d.keys[x] in ids
    requires i < |ids| && c < k < |d.keys|
    requires d.keys[c] !in ids[..i]
    ensures d.keys[k] != ids[i]
  {
    if d.keys[k] == ids[i] {
      var m :| 0 <= m < |ids| && ids[m] == d.keys[c];
      assert KeyLess(d.keys[c], d.keys[k]);
      if m > i {
        KeyLeAntisymmetric(ids[i], ids[m]);
      }
    }
  }

  /** Row i gets the dump's record for ids[i] when the dump has that id,
      and six zeros otherwise. */
  lemma JoinFindsRecord(d: Dump, ids: seq<nat>, i: nat)
    requires d.WellFormed() && OrderedKeys(d) && StrictlySorted(ids)
    requires forall k :: 0 <= k < |d.keys| ==> d.keys[k] in ids
    requires i < |ids|
    ensures forall k :: 0 <= k < |d.keys| && d.keys[k] == ids[i] ==> Cells(d, ids, i) == d.records[k][..6]
    ensures ids[i] !in d.keys ==> Cells(d, ids, i) == Zeros()
  {
    CursorSplits(d, ids, i);
    var c := Cursor(d, ids, i);
    forall k | 0 <= k < |d.keys| && d.keys[k] == ids[i] ensures k == c {
      if k > c {
        LaterKeyUnseen(d, ids, i, c, k);
      }
    }
  }

  /** The page's flat view: mergeIds followed by mergeDumps. Every cell is
      the record of its dump for that row's id, or zero when the dump does
      not have the id. */
  method HandleFlatData(source: seq<Dump>) returns (dest: seq<Row>)
    requires forall di :: 0 <= di < |source| ==> source[di].WellFormed() && OrderedKeys(source[di])
    ensures forall k :: (exists i :: 0 <= i < |dest| && dest[i].key == k) <==> k in AllKeys(source)
    ensures forall i, j :: 0 <= i < j < |dest| ==> dest[i].key != dest[j].key
    ensures forall i :: 0 <= i < |dest| ==> |dest[i].cells| == 6 * |source|
    ensures forall i, di, k ::
              (0 <= i < |dest| && 0 <= di < |source| && source[di].WellFormed() &&
               0 <= k < |source[di].keys| && source[di].keys[k] == dest[i].key)
              ==> Block(dest[i], di) == source[di].records[k][..6]
    ensures forall i, di ::
              (0 <= i < |dest| && 0 <= di < |source| && dest[i].key !in source[di].keys)
              ==> Block(dest[i], di) == Zeros()
  {
    var ids := MergeIds(source);
    dest := MergeDumps(source, ids);
    forall i, di | 0 <= i < |dest| && 0 <= di < |source|
      ensures Block(dest[i], di) == Cells(source[di], ids, i)
    {
      forall rii | 0 <= rii < 6 ensures Block(dest[i], di)[rii] == Cells(source[di], ids, i)[rii] {
        RowCellsIndex(source, ids, i, di, rii);
      }
    }
    forall i, di | 0 <= i < |dest| && 0 <= di < |source|
      ensures forall k :: 0 <= k < |source[di].keys| && source[di].keys[k] == ids[i] ==>
                Cells(source[di], ids, i) == source[di].records[k][..6]
      ensures ids[i] !in source[di].keys ==> Cells(source[di], ids, i) == Zeros()
    {
      forall k | 0 <= k < |source[di].keys| ensures source[di].keys[k] in ids {
        assert source[di].keys[k] in AllKeys(source);
      }
      JoinFindsRecord(source[di], ids, i);
    }
    forall k | (exists i :: 0 <= i < |dest| && dest[i].key == k) ensures k in AllKeys(source) {
      var i :| 0 <= i < |dest| && dest[i].key == k;
      assert ids[i] in ids;
    }
    forall k | k in AllKeys(source) ensures exists i :: 0 <= i < |dest| && dest[i].key == k {
      var i :| 0 <= i < |ids| && ids[i] == k;
      assert dest[i].key == k;
    }
  }

  /** The id 0 is falsy in JavaScript: a dump's record for it is never
      joined. */
  lemma ZeroIdNeverJoins(r: seq<Num>)
    requires |r| >= 6
    ensures Cells(Dump([0], [r]), [0], 0) == Zeros()
  {
  }

  /** A dump that lists its ids numerically (9 before 10) loses the
      record of 10, which the merged list puts first. */
  lemma NumericOrderLosesRecord(r9: seq<Num>, r10: seq<Num>)
    requires |r9| >= 6 && |r10| >= 6
    ensures StrictlySorted([10, 9])
    ensures Cells(Dump([9, 10], [r9, r10]), [10, 9], 0) == Zeros()
    ensures Cells(Dump([9, 10], [r9, r10]), [10, 9], 1) == r9[..6]
  {
    TenBeforeNine();
    var d := Dump([9, 10], [r9, r10]);
    assert Cursor(d, [10, 9], 1) == 0;
  }
}
