/** Two-dump combinators of the dump browser and the magnitude comparator
    its flat views are sorted with. Cells are exact numbers: the browser's
    rounding to four decimals is not modelled. */
module BookCombine {
  import opened BookMerge
  import opened Options

  datatype Operator = Diff | Mul | Ratio | Sum

  function Name(op: Operator): (name: string)
  {
    match op
    case Diff => "diff"
    case Mul => "mul"
    case Ratio => "ratio"
    case Sum => "sum"
  }

  /** isBinaryOperator: the display styles that combine two dumps. */
  predicate IsBinaryOperator(style: string)
  {
    style == "diff" || style == "mul" || style == "sum" || style == "ratio"
  }

  /** combinedOperators[style]. */
  function Lookup(style: string): (op: Option<Operator>)
    ensures op.Some? ==> Name(op.value) == style
  {
    if style == "diff" then Some(Diff)
    else if style == "mul" then Some(Mul)
    else if style == "ratio" then Some(Ratio)
    else if style == "sum" then Some(Sum)
    else None
  }

  /** The styles isBinaryOperator accepts are exactly the ones that have a
      combinator, and every combinator is found under its own name. */
  lemma BinaryStylesHaveOperators(style: string, op: Operator)
    ensures IsBinaryOperator(style) <==> Lookup(style).Some?
    ensures Lookup(Name(op)) == Some(op)
    ensures IsBinaryOperator(Name(op))
  {
  }

  /** op(a, b), where a is the first dump's cell and b the second's. */
  function Apply(op: Operator, a: real, b: real): (r: Num)
    ensures op != Ratio || a != 0.0 ==> r.Fin?
  {
    match op
    case Diff => Fin(b - a)
    case Mul => Fin(b * a)
    case Sum => Fin(b + a)
    case Ratio =>
      if a != 0.0 then Fin(b / a)
      else if b > 0.0 then PosInf
      else if b < 0.0 then NegInf
      else NaN
  }

  /** The combinators compare the second dump against the first: a
      difference added to the first cell gives back the second, a ratio
      multiplied by the first gives back the second, and swapping the
      dumps negates the difference and inverts the ratio. */
  lemma SecondAgainstFirst(a: real, b: real)
    ensures a + Apply(Diff, a, b).v == b
    ensures Apply(Diff, b, a).v == -Apply(Diff, a, b).v
    ensures a != 0.0 ==> a * Apply(Ratio, a, b).v == b
    ensures a != 0.0 && b != 0.0 ==> Apply(Ratio, a, b).v * Apply(Ratio, b, a).v == 1.0
    ensures Apply(Sum, a, b) == Apply(Sum, b, a) && Apply(Mul, a, b) == Apply(Mul, b, a)
    ensures a == 0.0 ==> Apply(Ratio, a, b).Fin? == false
  {
  }

  /** A row with two dumps: twelve finite cells. */
  predicate TwoDumpRow(row: Row)
  {
    |row.cells| >= 12 && forall j :: 0 <= j < 12 ==> row.cells[j].Fin?
  }

  /** The six combined cells of a row. */
  function CombineCells(op: Operator, row: Row): (cells: seq<Num>)
    requires TwoDumpRow(row)
    ensures |cells| == 6
    ensures forall j :: 0 <= j < 6 ==> cells[j] == Apply(op, row.cells[j].v, row.cells[6 + j].v)
  {
    seq(6, j requires 0 <= j < 6 => Apply(op, row.cells[j].v, row.cells[6 + j].v))
  }

  /** The rows of s that f keeps, in their order. */
  function Filter(f: Row -> bool, s: seq<Row>): (res: seq<Row>)
    ensures |res| <= |s|
    ensures forall x :: x in res <==> x in s && f(x)
  {
    if s == [] then []
    else
      var rest := Filter(f, s[1..]);
      assert forall x :: x in s <==> x == s[0] || x in s[1..];
      if f(s[0]) then [s[0]] + rest else rest
  }

  /** Filtering keeps relative order: it distributes over concatenation. */
  lemma {:induction false} FilterAppend(f: Row -> bool, s: seq<Row>, t: seq<Row>)
    ensures Filter(f, s + t) == Filter(f, s) + Filter(f, t)
  {
    if s != [] {
      assert (s + t)[1..] == s[1..] + t;
      FilterAppend(f, s[1..], t);
    } else {
      assert s + t == t;
    }
  }

  /** createCombinedResults: each row becomes `[key, op(a_j, b_j) for the
      six columns]`; with a filter, only the rows it accepts are kept, in
      input order. */
  method CreateCombinedResults(data: seq<Row>, op: Operator, filter: Option<Row -> bool>)
    returns (res: seq<Row>)
    requires forall i :: 0 <= i < |data| ==> TwoDumpRow(data[i])
    ensures filter.None? ==> |res| == |data|
    ensures filter.None? ==> forall i :: 0 <= i < |data| ==> res[i] == Row(data[i].key, CombineCells(op, data[i]))
    ensures filter.Some? ==> res == Filter(filter.value, Combined(data, op))
  {
    var sortable: seq<Row> := [];
    for i := 0 to |data|
      invariant sortable == Combined(data[..i], op)
    {
      var row := CombineRow(data[i], op);
      assert data[..i + 1][..i] == data[..i];
      sortable := sortable + [row];
    }
    assert data[..|data|] == data;
    if filter.None? {
      return sortable;
    }
    res := KeepAccepted(filter.value, sortable);
  }

  method CombineRow(row: Row, op: Operator) returns (combined: Row)
    requires TwoDumpRow(row)
    ensures combined == Row(row.key, CombineCells(op, row))
  {
    var cells: seq<Num> := [];
    for j := 0 to 6
      invariant |cells| == j
      invariant forall k :: 0 <= k < j ==> cells[k] == Apply(op, row.cells[k].v, row.cells[6 + k].v)
    {
      cells := cells + [Apply(op, row.cells[j].v, row.cells[6 + j].v)];
    }
    combined := Row(row.key, cells);
  }

  /** The filtering loop: accepted rows are appended in order. */
  method KeepAccepted(f: Row -> bool, sortable: seq<Row>) returns (res: seq<Row>)
    ensures res == Filter(f, sortable)
  {
    res := [];
    for i := 0 to |sortable|
      invariant res == Filter(f, sortable[..i])
    {
      FilterAppend(f, sortable[..i], [sortable[i]]);
      assert sortable[..i + 1] == sortable[..i] + [sortable[i]];
      if f(sortable[i]) {
        res := res + [sortable[i]];
      }
    }
    assert sortable[..|sortable|] == sortable;
  }

  function Combined(data: seq<Row>, op: Operator): (res: seq<Row>)
    requires forall i :: 0 <= i < |data| ==> TwoDumpRow(data[i])
    ensures |res| == |data|
    ensures forall i :: 0 <= i < |data| ==> res[i] == Row(data[i].key, CombineCells(op, data[i]))
  {
    if data == [] then []
    else Combined(data[..|data| - 1], op) + [Row(data[|data| - 1].key, CombineCells(op, data[|data| - 1]))]
  }

  // ---------------------------------------------------------------------
  // createFlatSorter

  /** A magnitude: NaN counts as zero, the infinities exceed every finite
      value. */
  datatype Magnitude = Finite(m: real) | Infinite

  function Abs(n: Num): (mag: Magnitude)
    ensures mag.Finite? ==> mag.m >= 0.0
  {
    match n
    case Fin(v) => Finite(if v < 0.0 then -v else v)
    case NaN => Finite(0.0)
    case PosInf => Infinite
    case NegInf => Infinite
  }

  predicate Below(x: Magnitude, y: Magnitude)
  {
    match (x, y)
    case (Finite(a), Finite(b)) => a < b
    case (Finite(_), Infinite) => true
    case (Infinite, _) => false
  }

  /** a[columnIndex]: column 0 is the row's id, columns 1.. its cells; a
      missing column reads as undefined, which isNaN accepts. */
  function Column(row: Row, column: nat): (n: Num)
  {
    if column == 0 then Fin(row.key as real)
    else if column <= |row.cells| then row.cells[column - 1]
    else NaN
  }

  /** The sorter's verdict: negative when a goes first. */
  function FlatCompare(column: nat, desc: int, a: Row, b: Row): (r: int)
    ensures r == 0 || r == desc || r == -desc
  {
    var x, y := Abs(Column(a, column)), Abs(Column(b, column));
    if x == y then 0 else if Below(x, y) then desc else -desc
  }

  /** The comparator is consistent: it is zero exactly on equal
      magnitudes, swapping its arguments flips its sign, and with desc = 1
      the row of larger magnitude goes first (with desc = -1 the smaller). */
  lemma FlatCompareIsConsistent(column: nat, desc: int, a: Row, b: Row)
    requires desc != 0
    ensures FlatCompare(column, desc, a, b) == 0 <==> Abs(Column(a, column)) == Abs(Column(b, column))
    ensures FlatCompare(column, desc, a, b) == -FlatCompare(column, desc, b, a)
    ensures desc > 0 ==> (FlatCompare(column, desc, a, b) < 0 <==> Below(Abs(Column(b, column)), Abs(Column(a, column))))
    ensures desc < 0 ==> (FlatCompare(column, desc, a, b) < 0 <==> Below(Abs(Column(a, column)), Abs(Column(b, column))))
  {
  }

  lemma FlatCompareTransitive(column: nat, desc: int, a: Row, b: Row, c: Row)
    requires desc != 0
    requires FlatCompare(column, desc, a, b) <= 0 && FlatCompare(column, desc, b, c) <= 0
    ensures FlatCompare(column, desc, a, c) <= 0
  {
  }

  /** Zero, minus zero and NaN are all equal under the sorter. */
  lemma NaNSortsAsZero(column: nat, desc: int, key: nat)
    requires column >= 1
    ensures FlatCompare(column, desc, Row(key, seq(column, _ => NaN)), Row(key, seq(column, _ => Fin(0.0)))) == 0
  {
  }

  // ---------------------------------------------------------------------
  // sortable.sort(createFlatSorter(column, desc))

  predicate SortedBy(column: nat, desc: int, s: seq<Row>)
  {
    forall i, j :: 0 <= i < j < |s| ==> FlatCompare(column, desc, s[i], s[j]) <= 0
  }

  function InsertRow(column: nat, desc: int, x: Row, s: seq<Row>): (res: seq<Row>)
    ensures |res| == |s| + 1
    ensures multiset(res) == multiset(s) + multiset{x}
  {
    if s == [] || FlatCompare(column, desc, x, s[0]) <= 0 then [x] + s
    else
      assert s == [s[0]] + s[1..];
      [s[0]] + InsertRow(column, desc, x, s[1..])
  }

  /** Array.prototype.sort with the flat sorter: any sort that respects a
      consistent comparator yields a sequence sorted by it. */
  function SortRows(column: nat, desc: int, s: seq<Row>): (res: seq<Row>)
    ensures |res| == |s|
    ensures multiset(res) == multiset(s)
  {
    if s == [] then []
    else
      assert s == [s[0]] + s[1..];
      InsertRow(column, desc, s[0], SortRows(column, desc, s[1..]))
  }

  lemma {:induction false} InsertRowSorted(column: nat, desc: int, x: Row, s: seq<Row>)
    requires desc != 0 && SortedBy(column, desc, s)
    ensures SortedBy(column, desc, InsertRow(column, desc, x, s))
  {
    if s == [] || FlatCompare(column, desc, x, s[0]) <= 0 {
      forall j | 0 <= j < |s| ensures FlatCompare(column, desc, x, s[j]) <= 0 {
        if j > 0 {
          FlatCompareTransitive(column, desc, x, s[0], s[j]);
        }
      }
      ConsSortedBy(column, desc, x, s);
    } else {
      FlatCompareIsConsistent(column, desc, x, s[0]);
      InsertRowSorted(column, desc, x, s[1..]);
      var tail := InsertRow(column, desc, x, s[1..]);
      forall j | 0 <= j < |tail| ensures FlatCompare(column, desc, s[0], tail[j]) <= 0 {
        InsertRowFrom(column, desc, x, s[1..], j);
        if tail[j] != x {
          var k :| 0 <= k < |s[1..]| && s[1..][k] == tail[j];
          assert s[k + 1] == tail[j];
        }
      }
      ConsSortedBy(column, desc, s[0], tail);
    }
  }

  lemma InsertRowFrom(column: nat, desc: int, x: Row, s: seq<Row>, j: nat)
    requires j < |InsertRow(column, desc, x, s)|
    ensures InsertRow(column, desc, x, s)[j] == x || InsertRow(column, desc, x, s)[j] in s
  {
    var res := InsertRow(column, desc, x, s);
    assert res[j] in multiset(res);
  }

  lemma ConsSortedBy(column: nat, desc: int, a: Row, t: seq<Row>)
    requires SortedBy(column, desc, t) && forall j :: 0 <= j < |t| ==> FlatCompare(column, desc, a, t[j]) <= 0
    ensures SortedBy(column, desc, [a] + t)
  {
    var res := [a] + t;
    forall i, j | 0 <= i < j < |res| ensures FlatCompare(column, desc, res[i], res[j]) <= 0 {
      assert res[j] == t[j - 1];
      if i > 0 {
        assert res[i] == t[i - 1];
      }
    }
  }

  /** The rows of s whose magnitude in the column is m, in their order
      in s. A sort is stable when it keeps each of these sequences. */
  function WithMagnitude(column: nat, m: Magnitude, s: seq<Row>): (r: seq<Row>)
    ensures |r| <= |s|
    ensures forall i :: 0 <= i < |r| ==> Abs(Column(r[i], column)) == m
  {
    if s == [] then []
    else (if Abs(Column(s[0], column)) == m then [s[0]] else []) + WithMagnitude(column, m, s[1..])
  }

  /** The one-row class of x: [x] when its magnitude is m. */
  function Tie(column: nat, m: Magnitude, x: Row): seq<Row>
  {
    if Abs(Column(x, column)) == m then [x] else []
  }

  lemma WithMagnitudeCons(column: nat, m: Magnitude, x: Row, t: seq<Row>)
    ensures WithMagnitude(column, m, [x] + t) == Tie(column, m, x) + WithMagnitude(column, m, t)
  {
    assert ([x] + t)[1..] == t;
  }

  /** A row that the new row is inserted after has another magnitude. */
  lemma InsertRowPasses(column: nat, desc: int, x: Row, t: seq<Row>)
    requires t != [] && FlatCompare(column, desc, x, t[0]) > 0
    ensures InsertRow(column, desc, x, t) == [t[0]] + InsertRow(column, desc, x, t[1..])
    ensures Abs(Column(x, column)) != Abs(Column(t[0], column))
  {
  }

  /** Inserting a row passes only rows of another magnitude, so every
      magnitude's rows keep the order they have with the new row in front. */
  lemma {:induction false} InsertRowKeepsTies(column: nat, desc: int, x: Row, t: seq<Row>, m: Magnitude)
    ensures WithMagnitude(column, m, InsertRow(column, desc, x, t)) == WithMagnitude(column, m, [x] + t)
    decreases |t|
  {
    if t != [] && FlatCompare(column, desc, x, t[0]) > 0 {
      var t0, t1 := t[0], t[1..];
      var rest := InsertRow(column, desc, x, t1);
      InsertRowPasses(column, desc, x, t);
      assert t == [t0] + t1;
      calc {
        WithMagnitude(column, m, InsertRow(column, desc, x, t));
        WithMagnitude(column, m, [t0] + rest);
        { WithMagnitudeCons(column, m, t0, rest); }
        Tie(column, m, t0) + WithMagnitude(column, m, rest);
        { InsertRowKeepsTies(column, desc, x, t1, m); WithMagnitudeCons(column, m, x, t1); }
        Tie(column, m, t0) + (Tie(column, m, x) + WithMagnitude(column, m, t1));
        { TiesCommute(column, m, x, t0, WithMagnitude(column, m, t1)); }
        Tie(column, m, x) + (Tie(column, m, t0) + WithMagnitude(column, m, t1));
        { WithMagnitudeCons(column, m, t0, t1); }
        Tie(column, m, x) + WithMagnitude(column, m, t);
        { WithMagnitudeCons(column, m, x, t); }
        WithMagnitude(column, m, [x] + t);
      }
    }
  }

  /** Rows of different magnitudes are never both in one class. */
  lemma TiesCommute(column: nat, m: Magnitude, x: Row, y: Row, u: seq<Row>)
    requires Abs(Column(x, column)) != Abs(Column(y, column))
    ensures Tie(column, m, y) + (Tie(column, m, x) + u) == Tie(column, m, x) + (Tie(column, m, y) + u)
  {
  }

  /** The sort is stable: rows of equal magnitude keep their input order. */
  lemma {:induction false} SortRowsStable(column: nat, desc: int, s: seq<Row>, m: Magnitude)
    ensures WithMagnitude(column, m, SortRows(column, desc, s)) == WithMagnitude(column, m, s)
  {
    if s != [] {
      var sorted := SortRows(column, desc, s[1..]);
      SortRowsStable(column, desc, s[1..], m);
      InsertRowKeepsTies(column, desc, s[0], sorted, m);
      WithMagnitudeCons(column, m, s[0], sorted);
      WithMagnitudeCons(column, m, s[0], s[1..]);
      assert s == [s[0]] + s[1..];
    }
  }

  /** The sorted rows are a permutation of the input, ordered by
      magnitude: non-increasing when desc = 1, non-decreasing when
      desc = -1; rows of equal magnitude keep their input order. */
  lemma {:induction false} SortRowsByMagnitude(column: nat, desc: int, s: seq<Row>)
    requires desc == 1 || desc == -1
    ensures multiset(SortRows(column, desc, s)) == multiset(s)
    ensures SortedBy(column, desc, SortRows(column, desc, s))
    ensures desc == 1 ==> forall i, j :: 0 <= i < j < |s| ==>
              !Below(Abs(Column(SortRows(column, desc, s)[i], column)), Abs(Column(SortRows(column, desc, s)[j], column)))
    ensures forall m :: WithMagnitude(column, m, SortRows(column, desc, s)) == WithMagnitude(column, m, s)
  {
    if s != [] {
      SortRowsByMagnitude(column, desc, s[1..]);
      InsertRowSorted(column, desc, s[0], SortRows(column, desc, s[1..]));
    }
    forall m {
      SortRowsStable(column, desc, s, m);
    }
  }
}
