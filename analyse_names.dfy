/** Symbol names in the analyser: the `'k` suffix that tells recursive
    occurrences of one symbol apart in the flat profile, the search for an
    unused suffix, the symbol filter lists, and the command-line helpers
    that match option names and count remaining arguments. */
module SymbolNames {
  import opened Decimal
  import opened Options
  import Sequences

  const Tick: char := '\''

  /** fullSymbol.rfind("'"). */
  function LastTick(s: string): (r: Option<nat>)
    ensures r.Some? ==> r.value < |s| && s[r.value] == Tick &&
                        forall j :: r.value < j < |s| ==> s[j] != Tick
    ensures r.None? ==> Tick !in s
  {
    if s == [] then None
    else if s[|s| - 1] == Tick then Some(|s| - 1)
    else LastTick(s[..|s| - 1])
  }

  // ---------------------------------------------------------------------
  // SuffixOps as written

  /** removeSuffix keeps `tickPos - 1` characters, one fewer than the
      text before the tick; with the tick first, `tickPos - 1` wraps to
      the largest size_t and the copy reads past the string (None). */
  function RemoveSuffixAsWritten(s: string): (r: Option<string>)
    ensures LastTick(s).None? ==> r == Some(s)
    ensures LastTick(s).Some? && LastTick(s).value > 0 ==> r == Some(s[..LastTick(s).value - 1])
  {
    match LastTick(s)
    case None => Some(s)
    case Some(t) => if t == 0 then None else Some(s[..t - 1])
  }

  /** splitSuffix as written: the same count for the name, and the suffix
      from the tick on. */
  function SplitSuffixAsWritten(s: string): (r: Option<(string, string)>)
  {
    match LastTick(s)
    case None => Some((s, ""))
    case Some(t) => if t == 0 then None else Some((s[..t - 1], s[t..]))
  }

  /** The name of a second occurrence loses its last letter: "foo'2"
      becomes "fo", and the split pieces no longer make up the name. */
  lemma SuffixOpsDropOneCharacter()
    ensures RemoveSuffixAsWritten("foo'2") == Some("fo")
    ensures SplitSuffixAsWritten("foo'2") == Some(("fo", "'2"))
    ensures "fo" + "'2" != "foo'2"
    ensures RemoveSuffixAsWritten("'2") == None
  {
    assert LastTick("foo'2") == Some(3);
    assert "foo'2"[..2] == "fo";
    assert LastTick("'2") == Some(0);
  }

  // ---------------------------------------------------------------------
  // SuffixOps, corrected

  /** The name up to its last tick; a name without one is unchanged. */
  function RemoveSuffix(s: string): (r: string)
    ensures LastTick(s).None? ==> r == s
    ensures LastTick(s).Some? ==> r == s[..LastTick(s).value]
  {
    match LastTick(s)
    case None => s
    case Some(t) => s[..t]
  }

  /** The name and its suffix, which starts at the last tick. */
  function SplitSuffix(s: string): (r: (string, string))
    ensures r.1 == [] || r.1[0] == Tick
  {
    match LastTick(s)
    case None => (s, "")
    case Some(t) => (s[..t], s[t..])
  }

  /** The pieces make up the name again, and the name piece is the one
      RemoveSuffix keeps. */
  lemma SplitSuffixRoundTrip(s: string)
    ensures SplitSuffix(s).0 + SplitSuffix(s).1 == s
    ensures SplitSuffix(s).0 == RemoveSuffix(s)
    ensures SplitSuffix(s).1 != [] ==> Tick !in SplitSuffix(s).1[1..]
  {
    match LastTick(s)
    case None =>
    case Some(t) =>
      assert s[..t] + s[t..] == s;
      assert forall j :: 0 <= j < |s[t..][1..]| ==> s[t..][1..][j] == s[t + 1 + j];
  }

  /** `base'k`, the k-th occurrence of base. */
  function Occurrence(base: string, k: nat): string
  {
    base + [Tick] + Dec(k)
  }

  lemma LastTickOfOccurrence(base: string, k: nat)
    ensures LastTick(Occurrence(base, k)) == Some(|base|)
  {
    var s := Occurrence(base, k);
    assert s[|base|] == Tick;
    assert forall j :: |base| < j < |s| ==> s[j] == Dec(k)[j - |base| - 1];
  }

  /** Removing the suffix of `base'k` gives base back. */
  lemma RemoveSuffixOfOccurrence(base: string, k: nat)
    ensures RemoveSuffix(Occurrence(base, k)) == base
  {
    LastTickOfOccurrence(base, k);
    assert Occurrence(base, k)[..|base|] == base;
  }

  lemma OccurrenceInjective(base: string, a: nat, b: nat)
    ensures Occurrence(base, a) == Occurrence(base, b) ==> a == b
  {
    if Occurrence(base, a) == Occurrence(base, b) {
      assert Occurrence(base, a)[|base| + 1..] == Dec(a);
      assert Occurrence(base, b)[|base| + 1..] == Dec(b);
      DecInjective(a, b);
    }
  }

  function Occurrences(base: string, lo: nat, hi: nat): set<string>
  {
    set k | lo <= k < hi :: Occurrence(base, k)
  }

  lemma {:induction false} OccurrencesCount(base: string, lo: nat, hi: nat)
    requires lo <= hi
    ensures |Occurrences(base, lo, hi)| == hi - lo
    decreases hi - lo
  {
    if lo < hi {
      OccurrencesCount(base, lo, hi - 1);
      var s := Occurrences(base, lo, hi - 1);
      assert Occurrences(base, lo, hi) == s + {Occurrence(base, hi - 1)};
      if Occurrence(base, hi - 1) in s {
        var k :| lo <= k < hi - 1 && Occurrence(base, k) == Occurrence(base, hi - 1);
        OccurrenceInjective(base, k, hi - 1);
      }
    } else {
      assert Occurrences(base, lo, hi) == {};
    }
  }

  /** getUniqueName: the first `base'k` with k >= 2 that is not yet a
      seen name, where base is the name without its suffix. */
  method GetUniqueName(symbolName: string, seen: set<string>) returns (candidate: string)
    ensures candidate !in seen
    ensures exists k :: k >= 2 && candidate == Occurrence(RemoveSuffix(symbolName), k) &&
                        forall j :: 2 <= j < k ==> Occurrence(RemoveSuffix(symbolName), j) in seen
  {
    var index: nat := 2;
    var origname := RemoveSuffix(symbolName);
    candidate := Occurrence(origname, index);
    index := index + 1;
    while candidate in seen
      invariant index >= 3 && candidate == Occurrence(origname, index - 1)
      invariant Occurrences(origname, 2, index - 1) <= seen
      decreases |seen| + 3 - index
    {
      assert Occurrences(origname, 2, index) == Occurrences(origname, 2, index - 1) + {candidate};
      OccurrencesCount(origname, 2, index);
      Sequences.SubsetCard(Occurrences(origname, 2, index), seen);
      candidate := Occurrence(origname, index);
      index := index + 1;
    }
    assert forall j :: 2 <= j < index - 1 ==> Occurrence(origname, j) in Occurrences(origname, 2, index - 1);
  }

  /** A renamed occurrence keeps the original's name without its suffix. */
  lemma UniqueNameKeepsBase(symbolName: string, seen: set<string>, k: nat)
    ensures RemoveSuffix(Occurrence(RemoveSuffix(symbolName), k)) == RemoveSuffix(symbolName)
  {
    RemoveSuffixOfOccurrence(RemoveSuffix(symbolName), k);
  }

  // ---------------------------------------------------------------------
  // SymbolFilter

  /** A list of symbol names; `=` and `,` both append one. */
  class SymbolFilter {
    var symbols: seq<string>

    constructor()
      ensures symbols == []
    {
      symbols := [];
    }

    method AddFilteredSymbol(symbolName: string)
      modifies this
      ensures symbols == old(symbols) + [symbolName]
    {
      symbols := symbols + [symbolName];
    }

    /** std::find over the list. */
    method Contains(name: string) returns (result: bool)
      ensures result <==> name in symbols
    {
      var i := 0;
      while i != |symbols|
        invariant i <= |symbols|
        invariant name !in symbols[..i]
      {
        if symbols[i] == name {
          return true;
        }
        assert symbols[..i + 1] == symbols[..i] + [symbols[i]];
        i := i + 1;
      }
      assert symbols[..i] == symbols;
      return false;
    }
  }

  /** A filter holds exactly the names added to it. */
  method SymbolFilterHoldsAdded(names: seq<string>, probe: string) returns (found: bool)
    ensures found <==> probe in names
  {
    var f := new SymbolFilter();
    for i := 0 to |names|
      invariant f.symbols == names[..i]
    {
      assert names[..i + 1] == names[..i] + [names[i]];
      f.AddFilteredSymbol(names[i]);
    }
    assert names[..|names|] == names;
    found := f.Contains(probe);
  }

  // ---------------------------------------------------------------------
  // Command-line helpers

  /** NameChecker: the argument names the option by its full name or, in
      the two-name form, by its abbreviation. */
  function NameMatches(arg: string, fullname: string, abbr: Option<string>): (r: bool)
    ensures r <==> arg == fullname || (abbr.Some? && arg == abbr.value)
  {
    match abbr
    case None => arg == fullname
    case Some(a) => arg == fullname || arg == a
  }

  /** The one-name form is the two-name form with the full name twice. */
  lemma OneNameFormIsTwoNameForm(arg: string, fullname: string)
    ensures NameMatches(arg, fullname, None) == NameMatches(arg, fullname, Some(fullname))
  {
  }

  /** ArgsLeftCounter: the number of list elements from position arg to the
      end, by stepping the iterator. */
  method ArgsLeft(args: seq<string>, arg: nat) returns (size: int)
    requires arg <= |args|
    ensures size == |args[arg..]|
  {
    size := 0;
    var it := arg;
    while it != |args|
      invariant arg <= it <= |args| && size == it - arg
      decreases |args| - it
    {
      it := it + 1;
      size := size + 1;
    }
  }
}
