/** The link a facet value points to in the dump browser's filter
    selector: the current path with that one facet changed, or, when no
    dump has that path, the best-scoring existing path that contains the
    new pair. */
module BookSelect {
  import opened Options
  import opened JsString
  import opened BookFilters

  /** `(filter_key == "o" ? "" : "&")`: the owner pair ends the path. */
  function Extra(key: string): string
  {
    if key == "o" then "" else "&"
  }

  /** JavaScript's `cond && a || b` on strings: a only when cond holds and
      a is truthy. */
  function AndOr(cond: bool, a: string, b: string): string
  {
    if cond && a != "" then a else b
  }

  /** The unordered score writes `(filter_key == "o" && "" || "&")`, which
      is "&" for every key, the owner included, because "" is falsy. */
  lemma UnorderedSuffixIsAlwaysAmpersand(key: string)
    ensures AndOr(key == "o", "", "&") == "&"
    ensures Extra("o") == "" && AndOr("o" == "o", "", "&") != Extra("o")
  {
  }

  /** The path the link would point to: the first occurrence of the old
      pair in the current path replaced by the new pair. */
  function NewFilterPath(value: string, key: string, st: State): (path: string)
  {
    ReplaceFirst(PathOf(StateValues(st)),
                 Pair(key, StateValue(st, key)) + Extra(key),
                 Pair(key, value) + Extra(key))
  }

  /** A path counts only if it contains the new pair. */
  predicate Candidate(existing: string, value: string, key: string)
  {
    Contains(existing, Pair(key, value) + Extra(key))
  }

  /** The length of the common prefix of a and b. */
  function CommonPrefix(a: string, b: string): (n: nat)
    ensures n <= |a| && n <= |b|
    ensures a[..n] == b[..n]
    ensures n < |a| && n < |b| ==> a[n] != b[n]
  {
    if a == [] || b == [] || a[0] != b[0] then 0
    else
      var n := CommonPrefix(a[1..], b[1..]);
      assert a[..n + 1] == [a[0]] + a[1..][..n];
      assert b[..n + 1] == [b[0]] + b[1..][..n];
      n + 1
  }

  function CountAmp(s: string): (n: nat)
    ensures n <= |s|
  {
    if s == [] then 0 else CountAmp(s[..|s| - 1]) + (if s[|s| - 1] == '&' then 1 else 0)
  }

  lemma {:induction false} CountAmpPrefix(s: string, n: nat)
    requires n <= |s|
    ensures CountAmp(s[..n]) <= CountAmp(s)
    decreases |s| - n
  {
    if n < |s| {
      CountAmpPrefix(s, n + 1);
      assert s[..n + 1][..n] == s[..n];
    } else {
      assert s[..n] == s;
    }
  }

  /** Pairs matched in order: the `&` in the common prefix. */
  function OrderedScore(existing: string, newPath: string): nat
  {
    CountAmp(existing[..CommonPrefix(existing, newPath)])
  }

  /** No path scores more ordered matches than the wanted path itself. */
  lemma OrderedScoreAtMostExact(existing: string, newPath: string)
    ensures OrderedScore(existing, newPath) <= OrderedScore(newPath, newPath) == CountAmp(newPath)
  {
    var n := CommonPrefix(existing, newPath);
    assert existing[..n] == newPath[..n];
    CountAmpPrefix(newPath, n);
    var m := CommonPrefix(newPath, newPath);
    assert m == |newPath|;
    assert newPath[..m] == newPath;
  }

  predicate PairPresent(existing: string, st: State, k: string)
  {
    Contains(existing, Pair(k, StateValue(st, k)) + "&")
  }

  /** Pairs of the current state present anywhere in the path. */
  function UnorderedScore(existing: string, st: State): nat
  {
    |set k | k in st && PairPresent(existing, st, k)|
  }

  function Score(existing: string, newPath: string, st: State): nat
  {
    100 * OrderedScore(existing, newPath) + UnorderedScore(existing, st)
  }

  /** The ordered-score loop: walk both paths until they differ (a
      position past the end of newPath reads as undefined and differs). */
  method OrderedMatchingScore(existing: string, newPath: string) returns (score: nat)
    ensures score == OrderedScore(existing, newPath)
  {
    score := 0;
    var ci := 0;
    while ci != |existing|
      invariant ci <= CommonPrefix(existing, newPath)
      invariant score == CountAmp(existing[..ci])
      decreases |existing| - ci
    {
      if ci >= |newPath| || existing[ci] != newPath[ci] {
        break;
      }
      assert existing[..ci + 1][..ci] == existing[..ci];
      if existing[ci] == '&' {
        score := score + 1;
      }
      ci := ci + 1;
    }
  }

  /** The keys among `keys` whose current pair occurs in the path. */
  function PresentAmong(existing: string, st: State, keys: set<string>): set<string>
  {
    set k | k in keys && PairPresent(existing, st, k)
  }

  lemma PresentAmongAdd(existing: string, st: State, keys: set<string>, key: string)
    requires key !in keys
    ensures |PresentAmong(existing, st, keys + {key})| ==
              |PresentAmong(existing, st, keys)| + (if PairPresent(existing, st, key) then 1 else 0)
  {
    var before := PresentAmong(existing, st, keys);
    if PairPresent(existing, st, key) {
      assert PresentAmong(existing, st, keys + {key}) == before + {key};
    } else {
      assert PresentAmong(existing, st, keys + {key}) == before;
    }
  }

  /** The unordered-score loop over the keys of the current state. */
  method UnorderedMatchingScore(existing: string, st: State) returns (score: nat)
    ensures score == UnorderedScore(existing, st)
  {
    score := 0;
    var todo := st.Keys;
    ghost var done: set<string> := {};
    while todo != {}
      invariant todo + done == st.Keys && todo !! done
      invariant score == |PresentAmong(existing, st, done)|
      decreases |todo|
    {
      var key :| key in todo;
      var tmp := Pair(key, StateValue(st, key)) + AndOr(key == "o", "", "&");
      PresentAmongAdd(existing, st, done, key);
      if IndexOf(existing, tmp) != -1 {
        score := score + 1;
      }
      todo := todo - {key};
      done := done + {key};
    }
    assert PresentAmong(existing, st, done) == set k | k in st && PairPresent(existing, st, k);
  }

  /** ordered * 100 + unordered, for one existing path. */
  method MatchScore(existing: string, newPath: string, st: State) returns (score: nat)
    ensures score == Score(existing, newPath, st)
  {
    var ordered := OrderedMatchingScore(existing, newPath);
    var unordered := UnorderedMatchingScore(existing, st);
    score := ordered * 100 + unordered;
  }

  /** Among the first n paths, best is a candidate of highest score and
      no later candidate ties it. */
  predicate BestAmong(paths: seq<string>, n: nat, best: int, value: string, key: string, newPath: string, st: State)
    requires n <= |paths|
  {
    0 <= best < n && Candidate(paths[best], value, key) &&
    (forall c :: 0 <= c < n && Candidate(paths[c], value, key) ==>
       Score(paths[c], newPath, st) <= Score(paths[best], newPath, st)) &&
    (forall c :: best < c < n && Candidate(paths[c], value, key) ==>
       Score(paths[c], newPath, st) < Score(paths[best], newPath, st))
  }

  /** best is a candidate of highest score, and no later candidate ties
      it: with `>=`, the last of the best-scoring candidates wins. */
  predicate IsBestMatch(paths: seq<string>, best: int, value: string, key: string, newPath: string, st: State)
  {
    BestAmong(paths, |paths|, best, value, key, newPath, st)
  }

  predicate NoCandidate(paths: seq<string>, n: nat, value: string, key: string)
    requires n <= |paths|
  {
    forall c :: 0 <= c < n ==> !Candidate(paths[c], value, key)
  }

  /** A path that is no candidate, or scores below the best, leaves the
      best where it is. */
  lemma BestStays(paths: seq<string>, n: nat, best: int, value: string, key: string, newPath: string, st: State)
    requires n < |paths| && BestAmong(paths, n, best, value, key, newPath, st)
    requires Candidate(paths[n], value, key) ==> Score(paths[n], newPath, st) < Score(paths[best], newPath, st)
    ensures BestAmong(paths, n + 1, best, value, key, newPath, st)
  {
  }

  /** A candidate scoring at least the best so far, or the first
      candidate, becomes the best. */
  lemma BestMoves(paths: seq<string>, n: nat, best: int, value: string, key: string, newPath: string, st: State)
    requires n < |paths| && Candidate(paths[n], value, key)
    requires NoCandidate(paths, n, value, key) ||
             (BestAmong(paths, n, best, value, key, newPath, st) &&
              Score(paths[n], newPath, st) >= Score(paths[best], newPath, st))
    ensures BestAmong(paths, n + 1, n, value, key, newPath, st)
  {
  }

  /** The loop over the available paths, in their insertion order: the
      score of each candidate against newPath, keeping the last one whose
      score is at least the best so far (the best score starts at 0). */
  method BestMatch(value: string, key: string, st: State, paths: seq<string>, newPath: string)
    returns (found: bool, choice: string)
    ensures !found <==> forall c :: 0 <= c < |paths| ==> !Candidate(paths[c], value, key)
    ensures found ==> exists b :: IsBestMatch(paths, b, value, key, newPath, st) && choice == paths[b]
  {
    var needle := Pair(key, value) + Extra(key);
    var bestScore := 0;
    found := false;
    choice := "";
    ghost var best: nat := 0;
    for pi := 0 to |paths|
      invariant !found <==> NoCandidate(paths, pi, value, key)
      invariant !found ==> bestScore == 0
      invariant found ==> BestAmong(paths, pi, best, value, key, newPath, st)
      invariant found ==> best < pi && choice == paths[best] && bestScore == Score(choice, newPath, st)
    {
      var existing := paths[pi];
      if IndexOf(existing, needle) == -1 {
        if found {
          BestStays(paths, pi, best, value, key, newPath, st);
        }
        continue;
      }
      var newScore := MatchScore(existing, newPath, st);
      if newScore >= bestScore {
        BestMoves(paths, pi, best, value, key, newPath, st);
        choice := existing;
        bestScore := newScore;
        best := pi;
        found := true;
      } else {
        BestStays(paths, pi, best, value, key, newPath, st);
      }
    }
    if found {
      assert IsBestMatch(paths, best, value, key, newPath, st);
    }
  }


  /** createFilterSelector without the HTML: the path the link points to,
      and whether the link is marked `unavailable_choice`. */
  method CreateFilterSelector(value: string, key: string, st: State, paths: seq<string>)
    returns (target: string, unavailable: bool)
    ensures unavailable <==> NewFilterPath(value, key, st) !in paths
    ensures !unavailable ==> target == NewFilterPath(value, key, st)
    ensures (unavailable && forall c :: 0 <= c < |paths| ==> !Candidate(paths[c], value, key))
              ==> target == NewFilterPath(value, key, st)
    ensures (unavailable && exists c :: 0 <= c < |paths| && Candidate(paths[c], value, key))
              ==> exists b :: IsBestMatch(paths, b, value, key, NewFilterPath(value, key, st), st) && target == paths[b]
  {
    var oldFilterPath := BuildPath(StateValues(st));
    var oldFilter := Pair(key, StateValue(st, key));
    var newFilter := Pair(key, value);
    var extra := Extra(key);
    var newFilterPath := ReplaceFirst(oldFilterPath, oldFilter + extra, newFilter + extra);
    if newFilterPath in paths {
      return newFilterPath, false;
    }
    var found, choice := BestMatch(value, key, st, paths, newFilterPath);
    target := if found then choice else newFilterPath;
    unavailable := true;
  }
}
