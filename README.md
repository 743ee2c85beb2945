# igprof core, modelled in Dafny

igprof is a performance and memory profiler for Linux programs. The profiled
program keeps a call tree of the stacks it sees. Each tree node holds
counters, such as ticks, bytes allocated and live resources, and the tree is
written out as a text dump. An offline analyser reads dumps back, merges page
ranges, names recursive calls and ranks the hottest stacks. A browser-side
"book" joins several dumps into one table, compares two dumps and builds the
filter links between them.

This project models the data-handling core of igprof in Dafny and proves
properties of the model. Each component is a module:

- `TraceTree`, `TraceBuffer` and `PerfStats` model the trace buffer
  (`IgProfTrace.cc`, `profile-trace.h`):
  - a call tree whose children stay sorted by address;
  - the per-frame counters (`TICK`, `TICK_PEAK`, `MAX`);
  - the live-resource table, with a sorted hash chain and a doubly linked
    live list per counter;
  - the call cache that `dopush` uses to skip re-walking a stack;
  - the seven-field performance statistics with 64-bit wrap-around.
- `PageRanges`, `Counters`, `SymbolNames`, `TopN`, `TreeWalk` and `Thousands`
  model the offline analyser (`analyse.cc`, `analyse.h`):
  - page-range interval merging and counting;
  - hit filters and counter accumulation;
  - recursion suffixes and unique names;
  - symbol filters and option-name matching;
  - top-N ranking, the pre/post tree walk and thousands grouping.
- `DumpParse` and `SymResolve` model the input side (`IgProfAnalyse.cc`,
  `sym-resolve.h`):
  - the hand-written dump-line parsers, with C's `strtol`;
  - the sorted leak-page list;
  - the symbol tokeniser;
  - the offset-to-symbol cache.
- `FastOutput` and `MiniPrintf` model the two output codecs: the buffered
  hexadecimal writer of `fastio.h` and the small `sprintf` of `trace-mmap.cc`.
- `X86Length` models the x86-64 instruction-length decoder of
  `instruction.cc`. It follows the instruction format of section 2.1 of the
  Intel 64 and IA-32 Architectures Software Developer's Manual, Volume 2:
  legacy and REX prefixes, the opcode maps, VEX and XOP, ModR/M, SIB and
  displacement.
- `BookMerge`, `BookCombine`, `BookFilters`, `BookHistory` and `BookSelect`
  model `igprof-book.js`:
  - the merge of sparse dumps into one table;
  - the two-dump combinators and the magnitude sorter;
  - facet paths, value sorters and list toggling;
  - the history plots and the best-match choice of a filter link.
  `JsString` models the JavaScript string functions these use: `split`,
  `join`, `indexOf`, `replace` and `Number`.
- `Decimal`, `Options` and `Sequences` are shared helpers.

Code that changes state step by step is modelled imperatively. C++ objects
whose fields are updated in place are classes: the trace buffer, the fast
writer, the instruction decoder, the dump reader, the symbol file and the
top-N builder. Fixed buffers are arrays, and loops are `while` loops with
invariants. Each such method is proved against a function that states what
it computes. Pure code is modelled as functions and lemmas.

Some checks are not modelled as the code wrote them, because the code
evidently meant something else. For each of these, the model contains the
code as written, a lemma naming an input where it goes wrong, and the
corrected definition. The rest of the model uses the corrected one. They are
listed under "## Findings".

Several behaviours that the JavaScript does on purpose, or by the language's
rules, are stated as lemmas rather than corrected:
- `BookMerge.ZeroIdNeverJoins`: the id 0 is falsy, so it never joins.
- `BookMerge.NumericOrderLosesRecord`: a dump whose ids are not in string
  order loses records.
- `BookSelect.UnorderedSuffixIsAlwaysAmpersand`: the unordered score's
  `&&`/`||` always gives "&".

## Model

| member | source | states |
|---|---|---|
| Counters.Combine | src/analyse.h:37-69 | hits always add; counts add, or for a peak counter the result is the larger of the two and one of them |
| Counters.CombineOrderFree | src/analyse.h:37-69 | merging children into a parent gives the same totals in any order |
| Counters.Counter.Add | src/analyse.h:37-48 | freq is summed; cnt is summed, or maxed when isMax; the cumulative fields are untouched |
| Counters.Counter.Accumulate | src/analyse.h:58-69 | cfreq is summed; ccnt is summed, or maxed when isMax; the self fields are untouched |
| Counters.AccumulateCounts | src/analyse.cc:2331-2344 | slot 0 sums or maxes the count, slot 1 sums the hits, slot 2 goes up by one |
| Counters.Accumulated | src/analyse.cc:2331-2344 | accumulating n entries from zeros sums the hits, sums the counts (or, for a peak counter, keeps a non-negative count no entry exceeds), and counts n entries |
| Counters.AccumulatedMeaning | src/analyse.cc:2331-2344 | after n entries a summing buffer holds the sums, a peak buffer the largest count (or 0), and slot 2 holds n |
| Counters.TruncDiv | src/analyse.cc:866-873 | C's division truncates toward zero: the quotient of the magnitudes, negated when the operands' signs differ; it agrees with Euclidean division on non-negative operands |
| Counters.HitFilter | src/analyse.cc:840-877 | both values become zero exactly when an enabled (positive) bound is violated; the average bounds apply only when freq is not zero; otherwise both are kept |
| Counters.HitFilterIdempotent | src/analyse.cc:840-877 | filtering a filtered trace changes nothing, and with every bound disabled nothing is dropped |
| Counters.NoHitsSkipAverages | src/analyse.cc:866-873 | a trace with no hits passes both average bounds whatever its count |
| Counters.AverageTruncates | src/analyse.cc:866-873 | the average truncates: 7 over 2 is 3, so a minimum average of 4 rejects and a maximum of 3 keeps |
| SymbolNames.LastTick | src/analyse.cc:2017-2032 | rfind of the tick: the last position holding `'`, or none when there is none |
| SymbolNames.RemoveSuffixAsWritten | src/analyse.cc:2030-2037 | a name without a tick is returned unchanged; otherwise only the first tickPos−1 characters are kept |
| SymbolNames.SplitSuffixAsWritten | src/analyse.cc:2014-2028 | the name part keeps tickPos−1 characters and the suffix starts at the tick |
| SymbolNames.SuffixOpsDropOneCharacter | src/analyse.cc:2014-2037 | "foo'2" loses its last letter ("fo"), so the pieces no longer rebuild the name |
| SymbolNames.RemoveSuffix | src/analyse.cc:2030-2037 | corrected: the name up to its last tick; a name without a tick is unchanged |
| SymbolNames.SplitSuffix | src/analyse.cc:2014-2028 | corrected: the suffix is empty or starts at the tick |
| SymbolNames.SplitSuffixRoundTrip | src/analyse.cc:2014-2037 | the two pieces concatenate to the name, the first is RemoveSuffix of it, and the suffix holds no further tick |
| SymbolNames.RemoveSuffixOfOccurrence | src/analyse.cc:2388-2399 | removing the suffix of `base'k` gives base back |
| SymbolNames.OccurrenceInjective | src/analyse.cc:2388-2399 | different k give different candidate names |
| SymbolNames.GetUniqueName | src/analyse.cc:2388-2399 | the result is not yet seen and is `base'k` for the smallest k ≥ 2 not seen, base being the name without its suffix |
| SymbolNames.UniqueNameKeepsBase | src/analyse.cc:2388-2399 | a renamed occurrence keeps the original name without its suffix |
| SymbolNames.SymbolFilter.AddFilteredSymbol | src/analyse.h:292-305 | `=`, `,` and addFilteredSymbol append exactly the one name |
| SymbolNames.SymbolFilter.Contains | src/analyse.h:307-311 | true exactly when the name is in the list |
| SymbolNames.SymbolFilterHoldsAdded | src/analyse.h:289-316 | a filter built from a list of names contains exactly those names |
| SymbolNames.NameMatches | src/analyse.h:83-94 | the argument matches when it equals the full name or the abbreviation, and only then |
| SymbolNames.OneNameFormIsTwoNameForm | src/analyse.h:87-92 | the one-name check is the two-name check with the full name given twice |
| SymbolNames.ArgsLeft | src/analyse.h:96-109 | the count is the number of list elements from arg to the end |
| Thousands.GroupCons | src/analyse.h:194-204 | prepending a digit adds a separator exactly when the digits already there fill whole groups of three |
| Thousands.GroupRoundTrip | src/analyse.h:177-212 | removing the `'` separators gives back the digits, and n digits get (n−1)/3 separators |
| Thousands.FormatThousands | src/analyse.h:177-212 | the text is "-" for a negative value, then the decimal digits of the magnitude grouped in threes; zero is "0" |
| Thousands.DigitLoopStep | src/analyse.h:194-204 | one round of the loop prepends the next digit of the value and keeps n = 10^digits and the group counter |
| Thousands.DigitLoop | src/analyse.h:194-204 | the loop writes the digits of a positive magnitude grouped in threes |
| Thousands.ThousandsExamples | src/analyse.h:177-212 | 0 is "0", 1234 is "1'234", 100 is "100" |
| TopN.SortDescSorted | src/analyse.cc:2212-2235 | the ranking order is descending and keeps every slot value |
| TopN.SortPairsFirsts | src/analyse.cc:2212-2235 | sorting (value, slot) pairs with Cmp orders their values as a descending sort does |
| TopN.LoseCount | src/analyse.cc:2183-2194 | a count that no slot is below is lost, and everything lost stays no larger than every slot |
| TopN.ReplaceSmallest | src/analyse.cc:2183-2199 | replacing a smallest slot by a larger count keeps the slots and the lost counts together equal to everything seen |
| TopN.TopNBuilder.constructor | src/analyse.cc:2165-2171 | N slots, all zero, with empty stack traces |
| TopN.TopNBuilder.FindSlot | src/analyse.cc:2188-2192 | −1 exactly when no slot is below cnt; otherwise the first of the smallest slots, which is below cnt |
| TopN.TopNBuilder.Pre | src/analyse.cc:2178-2201 | the node is pushed; the slots become Offer of the old slots and cnt, and the displaced slot (if any) records the current trace; the slots and the lost counts together stay exactly the zeros plus everything seen, with every lost count below every slot |
| TopN.OfferMeaning | src/analyse.cc:2183-2199 | Offer leaves the slots unchanged exactly when no slot is below cnt; otherwise it writes cnt into the first of the smallest slots, which is below cnt |
| TopN.SlotFromMeaning | src/analyse.cc:2188-2192 | the scan, started in a state the loop can be in, ends on -1 exactly when no value is below cnt and otherwise on the first smallest value below cnt |
| TopN.TopNBuilder.Post | src/analyse.cc:2203-2207 | pops the stack trace, and an empty one stays empty |
| TopN.TopNBuilder.StackTrace | src/analyse.cc:2212-2220 | the pos-th largest slot value and the trace recorded with it |
| TopN.TopTwoOfThree | src/analyse.cc:2183-2199 | counts 5, 3, 7 over two slots leave 5 and 7: 7 displaces the smallest |
| TreeWalk.KidsSmaller | src/analyse.cc:1431-1472 | each child pushed for a node is smaller than the node, whether pre rebuilt the children (collapsing, massif truncation) or left them |
| TreeWalk.Walked | src/analyse.cc:2862-2884 | the walked tree keeps the node's id and has one child per child pushed for it |
| TreeWalk.PushKidEvents | src/analyse.cc:2878-2883 | pushing one more child puts that child's walked subtree in front of the calls already pending |
| TreeWalk.PushKidWeight | src/analyse.cc:2878-2883 | pushing one more child adds twice the size of its walked subtree to the stack's weight |
| TreeWalk.PushChildren | src/analyse.cc:2874-2884 | pushing the children pre left, in order, leaves calls still to come that enter the last of them first, each with the node as its parent |
| TreeWalk.WalkedKids | src/analyse.cc:2862-2884 | the walked node keeps its id and its children are, one by one, the walked forms of the children pushed for it |
| TreeWalk.KidsMatchWalked | src/analyse.cc:2862-2884 | for a node whose children are the walked pushed children, the first k children pushed bring up exactly the calls of its first k children, the last of them first |
| TreeWalk.KidsWeighWalked | src/analyse.cc:2862-2884 | for a node whose children are the walked pushed children, the first k children pushed weigh twice the size of its first k children |
| TreeWalk.EnterNode | src/analyse.cc:2862-2884 | entering a node makes its pre call (for a PRE filter), which may rewrite its children, then leaves pending the calls of the walked node's children and its post, in that order; the stack's weight drops below the node's |
| TreeWalk.WalkStep | src/analyse.cc:2858-2891 | one round of the loop makes a call or pushes items without changing the calls made plus the calls pending, and the stack's weight decreases |
| TreeWalk.Walk | src/analyse.cc:2837-2901 | the calls made are exactly Events of the walked tree, in which every node has the children its pre left: pre(node), then the children's subtrees last child first, then post(node), as the filter type selects |
| TreeWalk.WalkedUnchanged | src/analyse.cc:2862-2870 | a filter without pre, or whose pre leaves every node's children as they are, walks the tree itself |
| TreeWalk.EventCount | src/analyse.cc:2837-2901 | every node is visited once per requested kind of call |
| TreeWalk.PreFirstPostLast | src/analyse.cc:2862-2889 | with a PRE and POST filter a node's first call is pre(node) and its last is post(node) |
| TreeWalk.ChildInside | src/analyse.cc:2862-2889 | every child's calls lie between its parent's pre and post |
| TreeWalk.WalkOrderExample | src/analyse.cc:2837-2901 | a root with children 2 and 3 gives pre 1, pre 3, post 3, pre 2, post 2, post 1 |
| PageRanges.RangeInfo.Size | src/analyse.cc:325-332 | a range holds endAddr − startAddr + 1 ≥ 1 pages |
| PageRanges.StepProps | src/analyse.cc:359-367 | folding a range that does not start before the last one keeps the list separated and adds exactly its pages |
| PageRanges.MergeSortedRanges | src/analyse.cc:349-373 | empty input stays empty; a start-sorted list collapses into separated ranges (each ends before the next starts) covering the same pages, no longer than the input |
| PageRanges.MergeHeads | src/analyse.cc:413-470 | the main loop takes the list with the lower start each time; the result stays separated and covers the pages taken from both lists |
| PageRanges.AbsorbRest | src/analyse.cc:472-496 | folding the rest of one list keeps the result separated and adds that rest's pages |
| PageRanges.MergeRanges | src/analyse.cc:392-510 | an empty source leaves dest unchanged; an empty dest becomes source; otherwise the result is separated and covers the union of the pages |
| PageRanges.CountPages | src/analyse.cc:377-388 | the count is the sum of endAddr − startAddr + 1 over the ranges |
| PageRanges.RangePagesCard | src/analyse.cc:325-332 | a range's size is the number of pages it covers |
| PageRanges.SumSizesIsCard | src/analyse.cc:377-388 | for separated ranges the page count is the number of distinct pages covered |
| PageRanges.ParentCoversChild | src/analyse.cc:1320-1328 | after merging a child's cumulative ranges into its parent's, the parent counts at least as many pages as the child |
| PageRanges.AccumulateRanges | src/analyse.cc:1312-1328 | the parent's new cumulative ranges cover both page sets, and the asserted page inequality holds |
| PageRanges.SortWithLessMayLosePages | src/analyse.cc:320-323 | ranges 5–10 and 3–5 are already ordered for operator< (neither end is below the other's start), and collapsing them in that order loses page 3 |
| PageRanges.SortByStartProps | src/analyse.cc:2809-2812 | corrected ordering: sorting by start address keeps the ranges and their pages and makes the list start-sorted |
| PageRanges.AddLeakRanges | src/analyse.cc:2806-2813 | for the key counter, a node's leak ranges, sorted by start and collapsed, are merged into its ranges: the result covers both page sets; for any other counter, or with no leaks, the node's ranges are unchanged |
| PageRanges.LeakPageRange | src/analyse.cc:2794-2801 | without showPages the range is the leak's bytes from address to address + size + 1; with showPages it runs from the page holding address to the page holding address + size + 1 |
| BookMerge.KeyLeTotal | src/igprof-book.js:1746 | the default sort order of ids (their decimal strings compared) is total |
| BookMerge.KeyLeAntisymmetric | src/igprof-book.js:1746 | two ids that sort both ways are equal, so pruning adjacent repeats removes every duplicate |
| BookMerge.KeyLeTransitive | src/igprof-book.js:1746 | the string order of ids is transitive |
| BookMerge.TenBeforeNine | src/igprof-book.js:1746 | 10 sorts before 9: the order is not numeric |
| BookMerge.SortKeysSorted | src/igprof-book.js:1746 | ids.sort() yields the ids in string order, keeping every id |
| BookMerge.CollectIds | src/igprof-book.js:1742-1745 | the collected ids are every dump's ids, dump after dump, in each dump's order |
| BookMerge.PruneRepeats | src/igprof-book.js:1748-1757 | the pruning loop keeps one copy of each id and the result is strictly increasing in string order |
| BookMerge.MergeIds | src/igprof-book.js:1740-1759 | every id of every dump, and nothing else, appears once, in strictly increasing string order |
| BookMerge.Cursor | src/igprof-book.js:1793-1799 | a dump's cursor before row i is at most i and at most the number of its keys; it advances only on a join |
| BookMerge.Cells | src/igprof-book.js:1795-1799 | a dump contributes its next record when its next key is truthy and equals ids[i], else six zeros |
| BookMerge.RowCellsIndex | src/igprof-book.js:1801-1802 | cell 1 + di·6 + rii of a row is cell rii of dump di's contribution |
| BookMerge.JoinDump | src/igprof-book.js:1791-1804 | one dump's pass appends its six cells to every row |
| BookMerge.MergeDumps | src/igprof-book.js:1775-1808 | row i is ids[i] followed by six cells per dump, dump after dump; no ids gives no rows |
| BookMerge.CursorSplits | src/igprof-book.js:1793-1799 | for a dump whose keys are increasing in string order, the keys before the cursor are those already met among the ids |
| BookMerge.JoinFindsRecord | src/igprof-book.js:1791-1808 | row i holds the dump's record for ids[i] when the dump has that id, and six zeros when it does not |
| BookMerge.HandleFlatData | src/igprof-book.js:1825-1844 | for dumps whose ids are non-zero and strictly increasing in string order (`OrderedKeys`), the merged rows hold every id of every dump once, each with six cells per dump: that dump's record for the id or six zeros |
| BookMerge.ZeroIdNeverJoins | src/igprof-book.js:1796 | the id 0 is falsy, so a dump's record for it is replaced by zeros |
| BookMerge.NumericOrderLosesRecord | src/igprof-book.js:1746-1796 | a dump listing 9 before 10 against ids [10, 9] loses its record for 10 |
| BookCombine.Lookup | src/igprof-book.js:1127-1132 | the combinator table maps a style to the operator of that name, and only the four names have one |
| BookCombine.BinaryStylesHaveOperators | src/igprof-book.js:1122-1132 | isBinaryOperator accepts exactly the styles that have a combinator |
| BookCombine.Apply | src/igprof-book.js:1127-1132 | every combinator gives a finite number except ratio over a zero first cell |
| BookCombine.SecondAgainstFirst | src/igprof-book.js:1127-1132 | diff is b − a and ratio is b / a (second dump against the first): a + diff = b, a · ratio = b, swapping the dumps negates diff and inverts ratio, sum and mul are symmetric |
| BookCombine.CombineCells | src/igprof-book.js:1105-1106 | combined cell j is op(first dump's cell j, second dump's cell j) for j < 6 |
| BookCombine.FilterAppend | src/igprof-book.js:1111-1117 | filtering keeps the rows' relative order |
| BookCombine.CombineRow | src/igprof-book.js:1103-1107 | a row becomes its key followed by the six combined cells |
| BookCombine.KeepAccepted | src/igprof-book.js:1111-1117 | the filtering loop keeps exactly the accepted rows, in order |
| BookCombine.CreateCombinedResults | src/igprof-book.js:1096-1120 | without a filter, row i is [key, op(d0[j], d1[j]) for j < 6]; with one, the accepted combined rows in input order |
| BookCombine.Abs | src/igprof-book.js:1055-1061 | NaN counts as zero; a magnitude is never negative |
| BookCombine.FlatCompare | src/igprof-book.js:1050-1066 | the verdict is 0, desc or −desc |
| BookCombine.FlatCompareIsConsistent | src/igprof-book.js:1050-1066 | 0 exactly on equal magnitudes, antisymmetric, and negative exactly when a's magnitude is the larger (desc > 0) or the smaller (desc < 0) |
| BookCombine.FlatCompareTransitive | src/igprof-book.js:1050-1066 | the sorter's order is transitive, so it is a consistent comparator |
| BookCombine.NaNSortsAsZero | src/igprof-book.js:1055-1058 | a NaN cell sorts equal to a zero cell |
| BookCombine.SortRowsByMagnitude | src/igprof-book.js:1050-1066 | sorting with the flat sorter keeps the rows and orders them by decreasing magnitude for desc = 1, increasing for desc = −1; rows of equal magnitude keep their input order, as the stable Array.prototype.sort does |
| BookCombine.InsertRowKeepsTies | src/igprof-book.js:1050-1066 | inserting a row moves it past rows of other magnitudes only, so the rows of each magnitude keep their order |
| BookCombine.SortRowsStable | src/igprof-book.js:1050-1066 | for every magnitude, the sorted rows of that magnitude are the input rows of that magnitude in input order |
| BookFilters.FilterSpecsShape | src/igprof-book.js:105-114 | ten facets with distinct ids, none holding `&` or `=` |
| BookFilters.Pairs | src/igprof-book.js:369-370 | pair i of a path is `id=value` for facet i |
| BookFilters.BuildPath | src/igprof-book.js:363-372 | the path loop yields `c=v0&a=v1&…&o=v9`, one pair per facet in filterSpecs order |
| BookFilters.ParseState | src/igprof-book.js:1662-1675 | an undefined or empty text gives an empty state; otherwise each `&`-separated part sets key to value, later parts overriding earlier ones |
| BookFilters.StateOfPairs | src/igprof-book.js:1662-1675 | parsing pairs with distinct keys defines exactly those keys, each to its value |
| BookFilters.ParseStateInvertsPairs | src/igprof-book.js:1662-1675 | parseState reads back any `key=value&…` text whose keys are distinct and hold no separators |
| BookFilters.ParseStateReadsPath | src/igprof-book.js:363-372 | a dump's filter path parses back into its ten facet values |
| JsString.JsNumber | src/igprof-book.js:194-195 | Number() of a run of decimal digits is the value of the digits |
| JsString.NumberOfInt | src/igprof-book.js:194-195 | Number(String(n)) == n for every integer n, negative ones included |
| JsString.NumberOfNegative | src/igprof-book.js:194-195 | a '-' before a run of digits negates its value |
| JsString.NumberIgnoresSpaces | src/igprof-book.js:194-195 | white space before and after the literal does not change what Number() reads |
| JsString.NumberIsNaN | src/igprof-book.js:194-195 | Number() gives NaN exactly when the string, between white space, is neither a run of digits nor a signed non-empty one |
| JsString.TrimStartSkips | src/igprof-book.js:194-195 | leading white space is skipped |
| JsString.TrimEndSkips | src/igprof-book.js:194-195 | trailing white space is skipped |
| BookFilters.RemoveFirst | src/igprof-book.js:255-259 | removing a present entry shortens the list by one |
| BookFilters.ToggleList | src/igprof-book.js:246-264 | an undefined or empty list gives [what]; otherwise the first occurrence of what is dropped, or a truthy what is appended when absent |
| BookFilters.ToggleTwice | src/igprof-book.js:246-264 | toggling an absent entry twice gives the list back |
| BookFilters.ValuesCompare | src/igprof-book.js:335-342 | the verdict is always 1 or −1 |
| BookFilters.SeriesCompare | src/igprof-book.js:322-333 | the verdict is always 1 or −1 |
| BookFilters.SortersOrder | src/igprof-book.js:309-342 | "unknown" sorts after every other value for both sorters; filter values are alphabetical; series go by decreasing number; events without a suffix go by increasing number, for every value Number() reads as a number |
| BookFilters.EventsCompareInconsistent | src/igprof-book.js:309-318 | "10_a" and "10_b" each sort after the other: events_sort is not a consistent comparator |
| BookFilters.InsertWithSorted | src/igprof-book.js:390-395 | inserting with a consistent comparator keeps a list sorted |
| BookFilters.SortWithSorted | src/igprof-book.js:390-395 | sorting distinct values with a consistent comparator yields a sorted permutation |
| BookFilters.ValuesCompareConsistent | src/igprof-book.js:335-342 | filter_values_sorter is a consistent comparator |
| BookFilters.SeriesCompareConsistent | src/igprof-book.js:322-333 | series_sort is consistent on values whose numbers differ |
| BookFilters.SortedValuesUnknownLast | src/igprof-book.js:335-342 | sorted filter values are alphabetical with "unknown" last |
| BookFilters.SortedSeriesDescending | src/igprof-book.js:322-333 | sorted series are numerically decreasing with "unknown" last |
| BookFilters.FirstSeen | src/igprof-book.js:367-374 | the values once each, nothing else, in order of first appearance |
| BookFilters.RecordValues | src/igprof-book.js:363-372 | one dump's pass adds its facet values to the values already seen |
| BookFilters.CollectFacets | src/igprof-book.js:359-375 | each facet's distinct values over the dumps, and the distinct dump paths |
| BookFilters.SortFacets | src/igprof-book.js:383-396 | each facet is sorted with its own sorter (events, series, or the default) |
| BookFilters.FillUnset | src/igprof-book.js:399-404 | a facet that is unset or falsy gets its first sorted value (undefined with no dumps); a set facet, even one no dump offers, keeps its value; other keys are unchanged |
| BookFilters.GetFilterInfo | src/igprof-book.js:350-404 | the sorted distinct values of every facet, the distinct dump paths in first-seen order, and the selection with only unset or falsy facets filled |
| BookHistory.FilterDump | src/igprof-book.js:128-137 | a dump is skipped exactly when some facet value differs from the selected one |
| BookHistory.Kept | src/igprof-book.js:159-160 | the dumps that pass the filter, in input order |
| BookHistory.BuildFamilyLabel | src/igprof-book.js:162-166 | the label is the plot-invariant values joined by ", ", where leading empty values vanish with their separators |
| BookHistory.LabelOfNonEmptyCandle | src/igprof-book.js:162-166 | when the first invariant is non-empty the label joins all eleven values |
| BookHistory.AddDump | src/igprof-book.js:167-208 | one dump is appended to its family (created on first use) at the shared X of its release, and maxX, maxY and minY are updated |
| BookHistory.HistoryPlots | src/igprof-book.js:144-209 | the grouping loop adds every dump that passes the filter, in input order, starting from maxX 2, maxY 2, minY 0 |
| BookHistory.RunGroupsByLabel | src/igprof-book.js:162-208 | every family is listed once in creation order and holds exactly the dumps with its label, in input order |
| BookHistory.RunBounds | src/igprof-book.js:196-206 | every X is at most maxX, every numeric Y at most maxY, and both maxima stay at least 2 |
| BookHistory.RemapReusesOnlyNonzero | src/igprof-book.js:180-184 | a release recorded at a non-zero X keeps it; one recorded at X 0 reads as unset, so the dump takes its family's next position and the release moves there |
| BookHistory.SameReleaseSplitAtZero | src/igprof-book.js:180-184 | two dumps of one release, the first at X 0, land at X 0 and X 2 instead of sharing X 0 |
| BookHistory.StepKeepsNonzeroRecorded | src/igprof-book.js:180-184 | one dump never takes the last holder away from a non-zero X: a release is moved only off X 0 |
| BookHistory.RunNonzeroRecorded | src/igprof-book.js:167-208 | after the grouping loop every point at a non-zero X sits at an X some release still holds |
| BookHistory.RankedExactly | src/igprof-book.js:180-232 | with ranks for exactly the X values the releases hold, a family's points all have a rank if and only if no point sits at X 0 or some release still holds X 0 |
| BookHistory.SplitLeavesZeroUnranked | src/igprof-book.js:180-232 | two dumps of release "r" in one family leave the release at X 1 and the first point at X 0, which gets no rank |
| BookHistory.IntendedReusesX | src/igprof-book.js:180-184 | with the corrected test every dump of a release lands at the release's one X, and no recorded release moves |
| BookHistory.StepIntendedKeepsRecorded | src/igprof-book.js:180-184 | with the corrected test one dump keeps every point at an X some release holds |
| BookHistory.IntendedRecorded | src/igprof-book.js:167-208 | with the corrected test every point of the grouping loop sits at an X some release holds |
| BookHistory.IntendedRunRanked | src/igprof-book.js:180-232 | with the corrected test every family is fully ranked by the ranks of the X values the releases hold |
| BookHistory.MinYIsLowestCount | src/igprof-book.js:198-201 | when every count is a non-zero number, minY is the lowest count |
| BookHistory.ZeroMinimumForgotten | src/igprof-book.js:198-201 | a zero count is forgotten by the next dump: counts 5, 0, 3 leave minY at 3 |
| BookHistory.PairKeyInjective | src/igprof-book.js:211-215 | two [release, x] entries sort as the same string only when they are equal |
| BookHistory.PairCompareConsistent | src/igprof-book.js:215 | the default sort of the [release, x] entries is a consistent order |
| BookHistory.OrderReleases | src/igprof-book.js:211-221 | the releases sorted by their "release,x" strings; every recorded X gets the rank of the last sorted release holding it, no other X is defined, and no two X values share a rank |
| BookHistory.RankByX | src/igprof-book.js:218-220 | the ranking loop maps each X to the last position whose release holds it, so distinct X values get distinct ranks |
| BookHistory.RanksFollowReleaseOrder | src/igprof-book.js:211-221 | when releases do not share an X, a release that sorts first gets the smaller rank |
| BookHistory.SortByXSorted | src/igprof-book.js:233 | sorting by X (a[0] − b[0]) yields points in non-decreasing X |
| BookHistory.FamilySorterOrder | src/igprof-book.js:139-142 | dump_family_sorter puts a first exactly when the text of b is no larger than that of a, so two equal texts each go first |
| BookHistory.InsertByTextDescending | src/igprof-book.js:228 | inserting a point with dump_family_sorter keeps a family in descending text order |
| BookHistory.SortByTextDescending | src/igprof-book.js:228 | after the pre-sort every point's joined text [x, count, freq, id, name] is no smaller than the texts after it |
| BookHistory.SortByTextRanked | src/igprof-book.js:228-232 | the pre-sort keeps every X of the family among the ranked ones |
| BookHistory.RemapFamily | src/igprof-book.js:231-232 | for a family whose every X has a rank (see `RankedExactly`): the remapping loop replaces each point's X by its rank and changes nothing else |
| BookHistory.FinishFamily | src/igprof-book.js:228-234 | for a family whose every X has a rank (see `RankedExactly`): a family's plot is its points sorted with dump_family_sorter, with X replaced by its rank, stably sorted by X, cut to the last 22 |
| BookHistory.FinishedFamily | src/igprof-book.js:228-234 | for a family whose every X has a rank (see `RankedExactly`): a finished family holds min(n, 22) points sorted by X, a sub-multiset of the family's remapped points, and no dropped point has a larger X than a kept one |
| BookHistory.FinishedFamilyTies | src/igprof-book.js:228-234 | for a family whose every X has a rank (see `RankedExactly`): when no two X values share a rank, the points of a finished family at one X keep the descending text order the pre-sort gave them |
| BookHistory.RemappedPermutes | src/igprof-book.js:231-232 | remapping two permutations of a family gives two permutations |
| BookHistory.RemapKeepsTies | src/igprof-book.js:231-232 | with distinct ranks, points that share a new X shared their old one, and their text order is unchanged |
| BookHistory.SortByXKeepsTies | src/igprof-book.js:233 | the stable sort by X keeps the relative order of points that share an X |
| BookHistory.TailKeepsTies | src/igprof-book.js:234 | slice(-22) keeps the order of the points it keeps |
| BookHistory.TailOfSorted | src/igprof-book.js:234 | slice(-22) of a sorted family keeps min(n, 22) points, sorted, and drops only points of no larger X |
| Decimal.LexLeCommonPrefix | src/igprof-book.js:139-142 | a common prefix (the shared X of two points) does not change their string order |
| BookSelect.UnorderedSuffixIsAlwaysAmpersand | src/igprof-book.js:467-506 | the unordered score's `key == "o" && "" \|\| "&"` is "&" for every key, unlike the `? :` used for the path, which gives "" for the owner |
| BookSelect.CommonPrefix | src/igprof-book.js:493-499 | the common prefix length: the two strings agree up to it and differ right after it |
| BookSelect.OrderedScoreAtMostExact | src/igprof-book.js:493-499 | no path scores more ordered matches than the wanted path itself, which scores its own `&` count |
| BookSelect.OrderedMatchingScore | src/igprof-book.js:492-499 | the loop counts the `&` in the common prefix of the existing path and the wanted one |
| BookSelect.PresentAmongAdd | src/igprof-book.js:503-509 | adding one key to the scan adds one to the count exactly when its pair occurs in the path |
| BookSelect.UnorderedMatchingScore | src/igprof-book.js:503-509 | the loop counts the current pairs present anywhere in the path |
| BookSelect.MatchScore | src/igprof-book.js:513 | score = 100 × ordered matches + unordered matches |
| BookSelect.BestMatch | src/igprof-book.js:485-520 | no match exactly when no path contains the new pair; otherwise a candidate of the highest score, the last one on ties (`>=`) |
| BookSelect.CreateFilterSelector | src/igprof-book.js:441-528 | the link points to the current path with the one pair replaced when some dump has it; otherwise it is marked unavailable_choice and points to the best-scoring candidate, or to the new path when there is none |
| TraceTree.PlaceOfKid | src/IgProfTrace.cc:56-66 | the sibling scan, stopping at the first address not below the one sought, stops at a child exactly at that child's own position |
| TraceTree.AddChildSorted | src/IgProfTrace.cc:68-78 | inserting a new child at the scan's stopping point keeps every sibling list strictly sorted by address |
| TraceTree.Descend | src/IgProfTrace.cc:52-81 | childStackNode yields a node carrying the address that is a child of the parent, the tree only grows (old nodes keep address and children) and sibling lists stay sorted |
| TraceTree.DescendFinds | src/IgProfTrace.cc:57-66 | a new node is created if and only if the parent had no child with the address |
| TraceTree.FoundPersists | src/IgProfTrace.cc:52-81 | a child found once is found again, adding nothing, in any tree grown from that one |
| TraceTree.DescendIdempotent | src/IgProfTrace.cc:52-81 | descending twice by the same address from the same parent yields the same node and tree as descending once |
| TraceTree.CallPath | src/IgProfTrace.cc:255-266 | a negative depth counts as zero, at most MAX_DEPTH (800) frames are used, and the i-th step of the descent is stack[depth-i-1], outermost caller first |
| TraceTree.WalkStep | src/IgProfTrace.cc:264-274 | the frame for a path one address longer is one childStackNode step below the frame for the shorter path |
| TraceTree.FrameWalkAsWritten | src/IgProfTrace.cc:264-275 | dopush's frame loop as written: a cache slot is reused while every earlier slot matched, whether or not the previous push wrote that slot; the result is a grown, sorted tree |
| TraceTree.StaleCacheMisattributes | src/IgProfTrace.cc:264-275 | pushing a->b, then c, then c->b lands the third push in the frame of a->b (node 2) while the call path c->b names node 4 |
| TraceBuffer.Ticked | src/IgProfTrace.cc:298-306 | the tick of one record: TICK and TICK_PEAK add the amount, MAX keeps the larger value, TICK_PEAK raises the peak to the value, ticks always add |
| TraceBuffer.TickedMeaning | src/IgProfTrace.cc:298-306 | after a record the value is old value plus amount for TICK/TICK_PEAK and the maximum of the two for MAX; the peak moves only for TICK_PEAK and then bounds the value; definition, frame and live list are unchanged |
| TraceBuffer.PeakBoundsValue | src/IgProfTrace.cc:303-304 | a TICK_PEAK counter whose peak bounds its value keeps that invariant, the peak being the larger of the new value and the old peak |
| TraceBuffer.TickAfterFind | src/IgProfTrace.cc:288-306 | a counter found (or appended zeroed) and then ticked is the tick of its previous state, while every other counter keeps its definition and frame |
| TraceBuffer.CounterFrom | src/IgProfTrace.cc:288-292 | the position of the first counter of the chain with the definition, skipping none that has it, or the chain's length when there is none |
| TraceBuffer.ScanFrom | src/IgProfTrace.cc:98-120 | the scan of a chain stops only at a record matching the resource and definition (found) or at the end or a larger resource (not found) |
| TraceBuffer.ScanFacts | src/IgProfTrace.cc:98-120 | on a valid hash chain the scan reports found exactly when the chain holds a matching record; every record before where it stops neither matches nor exceeds the resource, and an unsuccessful scan stops at the end or at the first larger resource |
| TraceBuffer.CacheIsWalk | src/IgProfTrace.cc:264-275 | a call cache whose slots each hold a child of the previous slot's frame leads to the frame a plain walk from the root along its addresses reaches, adding no node |
| TraceBuffer.CountKeepsResources | src/IgProfTrace.cc:285-307 | a plain COUNT record leaves the resource records, the free list and the hash chains as they are |
| TraceBuffer.ReleaseKeepsCounters | src/IgProfTrace.cc:284-315 | a plain RELEASE record creates no counter and changes no frame's counter chain |
| TraceBuffer.NoBitsNoChange | src/IgProfTrace.cc:279-316 | a record with none of the COUNT, ACQUIRE and RELEASE bits leaves the buffer's state as it is |
| TraceBuffer.FoldedSnoc | src/IgProfTrace.cc:279-316 | the records are applied in order: the state after k + 1 records is record k applied to the state after the first k |
| TraceBuffer.Buffer.constructor | src/IgProfTrace.cc:13-44 | a new buffer has only the root frame, no counters, no resources, an empty free list and an empty call cache |
| TraceBuffer.Buffer.ChildStackNode | src/IgProfTrace.cc:52-81 | the sibling scan with early stop and sorted insertion computes exactly Descend; nothing but the node list changes |
| TraceBuffer.Buffer.FrameFor | src/IgProfTrace.cc:255-275 | the descent with the call cache reaches exactly the frame (and grows the tree exactly as) a plain walk from the root along the call path would; the cache then describes this push |
| TraceBuffer.Buffer.DescendStep | src/IgProfTrace.cc:267-274 | one step of the descent: a reused cache slot and a fresh childStackNode lookup yield the same node, and slot i then holds it |
| TraceBuffer.Buffer.FindCounter | src/IgProfTrace.cc:288-295 | the frame's counter for the definition: an existing one when the frame's chain has it (nothing changes), otherwise a zeroed counter appended to the counters and the chain; the new state and counter are FoundCounter of the old state, and the chain never holds the definition twice |
| TraceBuffer.Buffer.NewCounter | src/IgProfTrace.cc:84-96 | initCounter appends a zeroed counter for the definition at the end of the frame's chain and changes nothing else |
| TraceBuffer.Buffer.TickCounter | src/IgProfTrace.cc:298-306 | the counter becomes its Ticked state; the buffer invariant holds |
| TraceBuffer.Buffer.CountRecord | src/IgProfTrace.cc:285-307 | a COUNT or ACQUIRE record leaves the frame with a counter for its definition whose state is the tick of the previous one (or of a zeroed one); the new state is CountedState of the old, and counters of other definitions are kept |
| TraceBuffer.Buffer.FindResource | src/IgProfTrace.cc:98-120 | the scan of the resource's hash chain is ScanFrom from position 0: found exactly when the chain holds a record of that resource under the definition, stopping there or at the first larger resource |
| TraceBuffer.Buffer.ReleaseAt | src/IgProfTrace.cc:122-164 | releasing deducts the size and one tick from the owning counter, unlinks the record from its hash chain and from the counter's live list, and puts it at the head of the free list (the new state is ReleasedAt of the old); all other chains and counters of other definitions are untouched, and the invariant holds |
| TraceBuffer.Buffer.ReleaseRecord | src/IgProfTrace.cc:166-178 | a release of a resource with no record under the definition changes nothing; otherwise exactly one record is freed, and afterwards no record of the resource under the definition remains; the new state is Released of the old |
| TraceBuffer.Buffer.ReleaseStale | src/IgProfTrace.cc:185-209 | releasing the stale record found by the scan leaves no record of the resource under the definition in its chain, keeps the chain's resource order around the scan position, and is ReleasedAt of the old state |
| TraceBuffer.Buffer.AcquireResource | src/IgProfTrace.cc:180-226 | a stale record of the resource under the definition is released first; then a record with the resource, size, counter and definition is linked at the head of the counter's live list, and it is the only record of the resource under the definition; the new state and record are Acquired of the old state; without a stale record only the counter's live list changes |
| TraceBuffer.Buffer.LinkResource | src/IgProfTrace.cc:210-225 | the record is taken from the head of the free list (or allocated), inserted in the hash chain where the resource order puts it, where it is then the only record matching the resource and definition, and at the head of the counter's live list; the new state is LinkedAt of the old |
| TraceBuffer.Buffer.ResourceRecord | src/IgProfTrace.cc:310-315 | an ACQUIRE record leaves the resource recorded with its size under the counter, and without a stale record only that counter's live list changes; a RELEASE record leaves no record of the resource under the definition; neither bit changes nothing; the new state is ResourceApplied of the old |
| TraceBuffer.Buffer.ApplyRecord | src/IgProfTrace.cc:279-316 | one record of dopush: counter lookup and tick for COUNT/ACQUIRE, then acquisition, then release; the new state is Applied of the old, counters of other definitions are kept, and the buffer invariant holds |
| TraceBuffer.Buffer.ApplyRecords | src/IgProfTrace.cc:279-317 | the records are applied in order (the new state is Folded over them); each counted or acquired definition then has a counter in the frame, and every counter whose definition no record has is unchanged |
| TraceBuffer.Buffer.DoPush | src/IgProfTrace.cc:255-317 | dopush reaches the frame of the call path (as a plain walk from the root would), then applies the records in order (Folded), keeps the buffer invariant, leaves a counter in the frame for every counted or acquired definition and leaves every other counter unchanged |
| PerfStats.Plus | src/profile-trace.h:234-245 | the merged statistics are the componentwise sums reduced modulo 2^64, and always fit in 64 bits |
| PerfStats.PlusCommutes | src/profile-trace.h:234-245 | merging a into b gives the same statistics as merging b into a |
| PerfStats.PlusAssociates | src/profile-trace.h:234-245 | merging is associative under 64-bit wrap-around, so the order in which buffers merge does not matter |
| PerfStats.PlusZero | src/profile-trace.h:234-245 | merging the zeroed statistics of a new buffer changes nothing |
| PerfStats.StatFrom | src/profile-trace.h:247-262 | one trace: ntraces is 1; for a depth below 2^32 the depth sums are depth and depth squared; for a tick span below 2^32 the tick sums are the span and its square; without overflow the ticks-per-depth sum is span*16 divided by depth, truncated |
| PerfStats.TicksPerDepth | src/profile-trace.h:253 | the tick count shifted left by 4 (wrapping as uint64_t) over the depth fits in 64 bits, and is the exact truncated quotient when the shift does not overflow |
| PerfStats.Square | src/profile-trace.h:255-261 | a uint64_t square is exact for values below 2^32 |
| PerfStats.TotalCountsTraces | src/profile-trace.h:234-245 | merging n single-trace statistics counts n traces modulo 2^64 |
| PerfStats.PerfStat.constructor | src/IgProfTrace.cc:37-43 | new statistics are all zero |
| PerfStats.PerfStat.AddAssign | src/profile-trace.h:234-245 | operator+= leaves each field as the wrapped sum of the old field and the other's |
| FastOutput.HexTextRoundTrip | src/fastio.h:113-125 | the integer text reads back as its value, uses only lower-case hexadecimal digits, and starts with '0' exactly when the value is zero |
| FastOutput.HexExample | src/fastio.h:150-162 | 255 is written "ff", 16 "10" and 0 "0" |
| FastOutput.SignedTextMeaning | src/fastio.h:101-131 | a negative value is written as '-' followed by the hexadecimal of its magnitude; a non-negative one has no sign |
| FastOutput.PointerTextMeaning | src/fastio.h:168-191 | a pointer is written "0x" followed by its hexadecimal value |
| FastOutput.FastIO.constructor | src/fastio.h:17-20 | a new writer has an empty buffer and has written nothing |
| FastOutput.FastIO.Flush | src/fastio.h:32-36 | everything buffered reaches the descriptor and the buffer is empty; the total output is unchanged |
| FastOutput.FastIO.PutFast | src/fastio.h:40-48 | the output gains exactly s; the buffer is flushed first exactly when the room left is smaller than s |
| FastOutput.FastIO.PutFastRev | src/fastio.h:53-61 | the output gains s reversed, with the same flushing rule as put_fast |
| FastOutput.FastIO.Put | src/fastio.h:73-86 | text of any length is appended exactly, in buffer-sized chunks, and the buffer is never left full |
| FastOutput.FastIO.PutChunk | src/fastio.h:77-83 | one round copies as much as fits and flushes when the buffer becomes full; progress is made unless the buffer was already full |
| FastOutput.Reversed | src/fastio.h:150-162 | the digit loop yields the hexadecimal text least significant digit first, at most 16 digits for a 64-bit value |
| FastOutput.FastIO.PutUnsigned | src/fastio.h:146-165 | the output gains the hexadecimal text of the value |
| FastOutput.FastIO.PutSigned | src/fastio.h:101-131 | the output gains the signed hexadecimal text of the value |
| FastOutput.FastIO.PutPointer | src/fastio.h:168-191 | the output gains "0x" and the hexadecimal text of the address |
| MiniPrintf.NumeralRoundTrip | src/trace-mmap.cc:124-134 | the digits xntoa produces read back, in their base, as the value |
| MiniPrintf.Magnitude | src/trace-mmap.cc:116-122 | with SIGN, a value negative as a signed 64-bit number is printed as its two's-complement magnitude after a '-'; otherwise it is printed as is |
| MiniPrintf.NumTextLength | src/trace-mmap.cc:136-170 | the width is a minimum field size and the precision a minimum number of digits, the sign taking one more column |
| MiniPrintf.NumTextSign | src/trace-mmap.cc:116-150 | the text holds a '-' exactly when SIGN finds the value negative |
| MiniPrintf.NumTextDigits | src/trace-mmap.cc:152-166 | without LEFT the text ends with the value's digits |
| MiniPrintf.NumTextReadsBack | src/trace-mmap.cc:136-166 | without LEFT the last precision-many characters (the precision's zeros and the digits) read back as the magnitude |
| MiniPrintf.LeftClearsZeroPad | src/trace-mmap.cc:113-114 | with LEFT, ZEROPAD makes no difference |
| MiniPrintf.ZeroPrintsZero | src/trace-mmap.cc:126-127 | zero with no width or precision prints "0" |
| MiniPrintf.FirstRemainderAsWritten | src/trace-mmap.cc:131-132 | the first remainder of the digit loop as written: lldiv treats the unsigned value as a signed long long and truncates toward zero |
| MiniPrintf.LldivIndexesBeforeDigits | src/trace-mmap.cc:131-132 | for an unsigned value of 2^64-1 in base 16 that remainder is -1, an index before the digits table |
| MiniPrintf.ConvertDigits | src/trace-mmap.cc:124-134 | the corrected digit loop, dividing as unsigned, yields the numeral least significant digit first |
| MiniPrintf.XAtoi | src/trace-mmap.cc:98-105 | xatoi consumes exactly the maximal run of decimal digits and returns its value |
| MiniPrintf.ParseSpec | src/trace-mmap.cc:193-213 | a directive is an optional '-', a width, a '.' and a precision (an empty one being 0), and an 'l' or 'L' qualifier; an absent width or precision is -1 |
| MiniPrintf.SignedBits | src/trace-mmap.cc:260-265 | a %d argument without a qualifier is a signed int, sign-extended to 64 bits; with one it is taken modulo 2^64 |
| MiniPrintf.UnsignedBits | src/trace-mmap.cc:268-282 | a %u or %x argument without a qualifier is an unsigned int, with one an unsigned 64-bit value |
| MiniPrintf.Resume | src/trace-mmap.cc:183-296 | the corrected scan resumes after the conversion character, or stops at the end when the format ends inside a directive |
| MiniPrintf.ResumeAsWritten | src/trace-mmap.cc:183-296 | as written, the scan always steps past the conversion character, even when it is the terminating NUL |
| MiniPrintf.LonePercentReadsPastEnd | src/trace-mmap.cc:183-296 | for the format "ab%" the scan as written resumes one past the terminating NUL, while the corrected scan stops at the end |
| MiniPrintf.NilExample | src/trace-mmap.cc:220-222 | %s of a pointer below 4096 prints "(nil)" |
| MiniPrintf.PointerExample | src/trace-mmap.cc:241-257 | %p without a width prints "0x" and at least 16 hexadecimal digits that read back as the address |
| MiniPrintf.TerminatedMeaning | src/trace-mmap.cc:299-305 | a text shorter than the buffer is followed by a NUL and nothing after it changes; a longer one is cut so the buffer's last byte is the NUL |
| MiniPrintf.Terminate | src/trace-mmap.cc:299-305 | the buffer afterwards is Terminated of the buffer before: the NUL goes at the cursor, or in the last byte when the text filled the buffer, and nothing else changes |
| MiniPrintf.Fill | src/trace-mmap.cc:141-143 | a padding loop writes count copies of the character (none for a negative count), only inside the buffer, and moves the cursor by that count |
| MiniPrintf.PutReversed | src/trace-mmap.cc:164-166 | the digit copy writes the digits most significant first, only inside the buffer |
| MiniPrintf.XNtoa | src/trace-mmap.cc:107-173 | with the unsigned division the source evidently intends, xntoa writes exactly its text at the cursor, never outside the buffer, and moves the cursor by the text's full length |
| MiniPrintf.PutString | src/trace-mmap.cc:218-238 | %s writes the padding before the text unless LEFT, at most precision characters of the string, then the rest of the width |
| MiniPrintf.PutPointer | src/trace-mmap.cc:241-258 | %p writes "0x" and the address, two columns being taken off the width; no width means 18 columns padded with zeros |
| MiniPrintf.Convert | src/trace-mmap.cc:215-295 | one conversion writes exactly its piece: %s, %p, %d, %u, %x, %%, and nothing for any other character |
| MiniPrintf.XSprintf | src/trace-mmap.cc:175-308 | with the format scan corrected to stop at the end of the format, xsprintf returns the length of the whole formatted text, which may exceed the buffer; the buffer holds its prefix, is never written outside, and is NUL-terminated when it has room |
| X86Length.LegacyMeaning | src/instruction.cc:45-75 | the prefix scan consumes exactly the run of legacy prefixes and stops at the first other byte; each prefix adds one to the length, FS and GS five |
| X86Length.PatchStep | src/instruction.cc:267-273 | makePatch adds five bytes, six when a ModR/M byte is set, and records a patch word that fits in 32 bits, leaving the other fields alone |
| X86Length.PatchWordDecodes | src/instruction.cc:271 | the patch word gives back the displacement offset in its low byte and the instruction end above it, for offsets in range |
| X86Length.ModRMMatchesManual | src/instruction.cc:246-264 | the corrected evalModRM adds the opcode byte and exactly the ModR/M, SIB and displacement bytes of the manual's tables 2-2 and 2-3, and patches only an operand relative to the instruction pointer, whose displacement is two bytes after the offset and which ends six bytes after it |
| X86Length.SelectMap | src/instruction.cc:92-144 | the one-byte map is used exactly when the opcode is not an 0F, C4 or C5 escape; the escape bytes move the opcode by as many bytes as they add to the length; a C4 prefix maps 1 and 2 to themselves and anything else to 3 |
| X86Length.GroupOutcome | src/instruction.cc:146-243 | every group either rejects the instruction with length 0 or adds at least its opcode byte; the invalid, 3DNow! and SSE5A groups always reject; FF rejects every reg but 0, 1 and 6; 0F 00 rejects reg 6 |
| X86Length.OpcodeOutcome | src/instruction.cc:90-196 | decodeOpcode either rejects the instruction or adds at least one byte, and keeps the prologue size |
| X86Length.DecodeAccumulates | src/instruction.cc:32-40 | decodeInstruction records the given offset as the prologue size, and its length adds at least one byte to what earlier calls left, or is 0 |
| X86Length.PushExample | src/instruction.cc:146-151 | push %rbp (55) decodes as one byte |
| X86Length.MovExample | src/instruction.cc:77-82 | mov %rsp,%rbp (48 89 e5) decodes as three bytes: REX, opcode, register ModR/M |
| X86Length.SubExample | src/instruction.cc:161-164 | sub $16,%rsp (48 83 ec 10) decodes as four bytes |
| X86Length.JumpExample | src/instruction.cc:179-182 | the corrected near jump (e9 and a 32-bit offset) decodes as five bytes with the offset one byte in and the end five bytes in |
| X86Length.RipExample | src/instruction.cc:254-255 | mov disp(%rip),%rax after three bytes decodes as seven bytes, with the displacement at offset 6 and the end at offset 10 |
| X86Length.Instruction.constructor | src/instruction.cc:4-11 | a new decoder has every field zero |
| X86Length.Instruction.Clear | src/instruction.cc:13-20 | clear sets every field back to zero |
| X86Length.Instruction.DecodeInstruction | src/instruction.cc:32-40 | the decoder's new state is the prefix step and then the opcode step applied to its old state, and the returned length is its length field |
| X86Length.Instruction.DecodePrefix | src/instruction.cc:45-84 | the loop over legacy prefixes and the REX check compute exactly PrefixStep |
| X86Length.Instruction.DecodeOpcode | src/instruction.cc:90-196 | the map selection and the switch on the group compute exactly OpcodeStep, with the POP/XOP case on 8F |
| X86Length.Instruction.DecodeEscape | src/instruction.cc:106-136 | the escape bytes select the opcode map, the opcode position and the length added exactly as SelectMap gives them, and only C4 sets vex1 |
| X86Length.Instruction.ApplyGroup | src/instruction.cc:146-195 | the switch on the group computes exactly GroupStep |
| X86Length.Instruction.GroupF6F7Step | src/instruction.cc:199-210 | TEST (reg 0 or 1) adds one immediate byte after F6 and four after F7, then the ModR/M operand |
| X86Length.Instruction.GroupFFStep | src/instruction.cc:213-221 | INC, DEC and PUSH are decoded; any other FF instruction gets length 0 |
| X86Length.Instruction.Group0F00Step | src/instruction.cc:224-231 | every 0F 00 instruction but reg 6 is decoded |
| X86Length.Instruction.Group3dNow | src/instruction.cc:235-238 | 3DNow! instructions get length 0 |
| X86Length.Instruction.GroupSSE5A | src/instruction.cc:240-243 | SSE5A instructions get length 0 |
| X86Length.Instruction.EvalModRM | src/instruction.cc:246-264 | the corrected evalModRM computes exactly ModRMStep, counting the displacement after a SIB byte with base 101 |
| X86Length.Instruction.MakePatch | src/instruction.cc:267-273 | makePatch computes exactly PatchStep |
| X86Length.Instruction.JumpPatch | src/instruction.cc:179-182 | the corrected group 9 computes exactly JumpStep |
| X86Length.F8CaseAsWritten | src/instruction.cc:96-105 | the first case of decodeOpcode as written tests for F8, reading the byte after it as a ModR/M byte |
| X86Length.ClcReadAsPop | src/instruction.cc:96-105 | CLC followed by RET (f8 c3) decodes as two bytes as written, where the corrected decoder gives the one byte of CLC |
| X86Length.ModRMBytesAsWritten | src/instruction.cc:256-257 | evalModRM as written counts three bytes for mod 00 with a SIB byte, whatever the SIB base |
| X86Length.SibDisplacementMissed | src/instruction.cc:256-257 | for mov eax,[disp32] (8b 04 25 and four bytes) the source counts 3 operand bytes where the manual and the corrected decoder give 7 |
| X86Length.JumpStepAsWritten | src/instruction.cc:179-182 | group 9 as written adds five bytes and then makePatch adds five more |
| X86Length.JumpCountedTwice | src/instruction.cc:179-182 | a near jump from a cleared decoder comes out as ten bytes as written, and as five with the patch (1, 5) when corrected |
| DumpParse.StrToL | src/IgProfAnalyse.cc:1983-1985 | strtol reports no conversion by leaving the end where it started; otherwise the end moves forward and stays within the line |
| DumpParse.StrToLStops | src/IgProfAnalyse.cc:1983-1985 | a conversion ends right after a digit and before a character that is not one |
| DumpParse.StrToLReadsSigned | src/IgProfAnalyse.cc:2071-2081 | strtol reads the decimal text of any integer back as that integer, ending right after it |
| DumpParse.StrToLReadsHex | src/IgProfAnalyse.cc:2114 | strtoll in base 16 reads the lower-case hexadecimal text of a value back as that value |
| DumpParse.Index | src/IgProfAnalyse.cc:748-761 | index returns -1 exactly when the character does not occur, and otherwise the position of its first occurrence |
| DumpParse.StackLineAsWritten | src/IgProfAnalyse.cc:1976-2002 | parseStackLine as written: after the depth's digits it steps over one character, whatever it is, before skipping blanks |
| DumpParse.ParseStackLine | src/IgProfAnalyse.cc:1979-1985 | with the blank skip corrected to skip only blanks, a line is a stack line exactly when it starts with 'C' and a number follows; the new stack size is that number minus one, and the line goes on after the blanks, at a character that is not blank |
| DumpParse.StackLineSkipsCharacter | src/IgProfAnalyse.cc:1987-1991 | on "C1FN0+0" the source goes on at position 3, inside the function reference, where the pattern ^C(\d+)\s* ends at 2 |
| DumpParse.StackLineRoundTrip | src/IgProfAnalyse.cc:1976-2002 | the text "C" followed by the decimal of n reads back as stack size n - 1 |
| DumpParse.Resized | src/IgProfAnalyse.cc:1993-2000 | the node stack after resize or erase has exactly the new size, keeps its first entries and fills new ones with null |
| DumpParse.DumpReader.ParseStackLineAt | src/IgProfAnalyse.cc:1976-2002 | parseStackLine computes exactly ParseStackLine and sets the node stack to its new size; any other line leaves it alone |
| DumpParse.LowerBound | src/IgProfAnalyse.cc:2322-2324 | lower_bound returns the first position whose page is not below the one sought |
| DumpParse.DumpReader.AddPage | src/IgProfAnalyse.cc:2321-2328 | adding a page keeps the page list sorted and free of duplicates, holding exactly the old pages and the new one |
| DumpParse.DumpReader.AddLeakPages | src/IgProfAnalyse.cc:2321-2336 | a leak adds the pages of its first byte and of its end address (the address shifted right by 12) and no others |
| DumpParse.SkipBlanks | src/IgProfAnalyse.cc:2026-2027 | the blank loop stops at the first character that is neither a space nor a tab |
| DumpParse.FunctionRefAsWritten | src/IgProfAnalyse.cc:2010-2011 | parseFunctionRef as written rejects a position only when neither the F nor the N is there |
| DumpParse.ParseFunctionRef | src/IgProfAnalyse.cc:2004-2030 | a function reference is accepted only after "FN", a number, '+' and another number; the id is taken as an unsigned 32-bit value and the position moves past the blanks after it |
| DumpParse.FunctionRefAcceptsEitherLetter | src/IgProfAnalyse.cc:2010-2011 | "XN5+0" is taken as written for a reference to function 5, which the corrected parser rejects |
| DumpParse.FunctionRefReads | src/IgProfAnalyse.cc:2004-2030 | the text "FN<id>+<offset>" reads back as its id (modulo 2^32), with the position after the blanks that follow |
| DumpParse.FunctionDefAsWritten | src/IgProfAnalyse.cc:2037-2038 | parseFunctionDef as written has the same either-letter test |
| DumpParse.ParseFunctionDef | src/IgProfAnalyse.cc:2032-2052 | a definition head is accepted only as "FN", a number, "=(", and the position moves to just after the parenthesis |
| DumpParse.FunctionDefAcceptsEitherLetter | src/IgProfAnalyse.cc:2037-2038 | "FX7=(" is taken as written for the definition of function 7, which the corrected parser rejects |
| DumpParse.FunctionDefReads | src/IgProfAnalyse.cc:2032-2052 | the text "FN<id>=(" reads back as its id, with the position right after it |
| DumpParse.ParseCounterVal | src/IgProfAnalyse.cc:2054-2096 | a counter value is accepted only as 'V', a number, ":(", then three numbers separated by commas and a ')'; the id becomes a size_t and the position moves past the blanks after it |
| DumpParse.CounterValReads | src/IgProfAnalyse.cc:2054-2096 | the text "V<id>:(<freq>,<normal>,<peak>)" reads back as its four numbers |
| DumpParse.LeakAsWritten | src/IgProfAnalyse.cc:2104-2137 | parseLeak as written: its check for a missing size compares two pointers that always differ, so a missing size is read as 0 |
| DumpParse.ParseLeak | src/IgProfAnalyse.cc:2104-2137 | a leak is accepted only as ";LK=(0x", a hexadecimal address, ',', a decimal size and ')'; the position moves past the blanks after it |
| DumpParse.LeakWithoutSize | src/IgProfAnalyse.cc:2121-2124 | ";LK=(0x10,)" is read as written as a leak of size 0 at address 16, which the corrected parser rejects |
| DumpParse.LeakReads | src/IgProfAnalyse.cc:2104-2137 | the text ";LK=(0x<hex>,<size>)" reads back as its address and size |
| DumpParse.FunctionRefAt | src/IgProfAnalyse.cc:2004-2030 | on success the id is returned and the position moves past the reference; on failure the position is unchanged |
| DumpParse.FunctionDefAt | src/IgProfAnalyse.cc:2032-2052 | on success the id is returned and the position moves past "=("; on failure the position is unchanged |
| DumpParse.CounterValAt | src/IgProfAnalyse.cc:2054-2096 | on success the four numbers are returned and the position moves past them; on failure the position is unchanged |
| DumpParse.LeakAt | src/IgProfAnalyse.cc:2104-2137 | on success the address and size are returned and the position moves past the leak; on failure the position is unchanged |
| SymResolve.Stream.GetC | src/sym-resolve.h:79 | the next byte of the input, or EOF once it is used up |
| SymResolve.GrownMeaning | src/sym-resolve.h:68-77 | the token buffer only grows, in steps of 1024 bytes, and just enough to hold the token and its NUL |
| SymResolve.TokenBuffer.Grow | src/sym-resolve.h:70-71 | realloc makes the buffer 1024 bytes larger and keeps its contents |
| SymResolve.AsChar | src/sym-resolve.h:56 | a separator byte compared as a plain signed `char` lies in -128..127 and agrees with the byte modulo 256 |
| SymResolve.HighFirstSeparatorIgnored | src/sym-resolve.h:56-96 | a first separator of 0x80 or more never equals a byte read, so only the other separators end a token |
| SymResolve.FGetToken | src/sym-resolve.h:48-105 | with the first separator compared as a signed `char`, an EOF or separator as first character gives the empty token and leaves the input alone; otherwise the token is the first character and the bytes up to the next separator, stored NUL-terminated, the separator is handed back as the next first character, and input ending first is the premature-end error |
| SymResolve.ReadToken | src/sym-resolve.h:65-104 | the read loop stores the bytes up to the first separator, growing the buffer whenever it is full |
| SymResolve.TokenSplitsInput | src/sym-resolve.h:96-103 | the token and the separator after it are exactly the bytes read, and the token holds no separator |
| SymResolve.NulAlwaysSeparates | src/sym-resolve.h:96 | strchr finds the terminating NUL of the separators, so a NUL byte always ends a token |
| SymResolve.SkipChars | src/sym-resolve.h:108-113 | skipchars returns the first character strchr does not find in the skipped set, reading exactly the bytes skipped; a character already outside the set reads nothing, and at the end of input EOF is returned |
| SymResolve.SymbolByOffsetAsWritten | src/sym-resolve.h:155-172 | as written, the lookup returns null for an empty cache and reads the end() iterator exactly when every cached offset is below the one sought |
| SymResolve.PastLastSymbolReadsEnd | src/sym-resolve.h:160-163 | with one symbol at 16, looking up offset 32 reads past the end of the cache |
| SymResolve.SymbolByOffset | src/sym-resolve.h:155-172 | the corrected lookup finds nothing exactly for an empty cache |
| SymResolve.SymbolByOffsetAgrees | src/sym-resolve.h:155-172 | wherever the code reads a real entry, the corrected lookup returns the same name |
| SymResolve.SymbolByOffsetMeaning | src/sym-resolve.h:155-172 | the name found is that of the symbol at the greatest offset not above the one sought, or of the first symbol for an offset below all of them |
| SymResolve.Next | src/sym-resolve.h:174-182 | next returns the smallest cached offset above the given one, or 0 when there is none |
| SymResolve.FileInfo.constructor | src/sym-resolve.h:140-143 | a new file has an empty symbol cache |
| SymResolve.FileInfo.Insert | src/sym-resolve.h:309-313 | a symbol at the offset of the last one replaces its name; any other is appended; offsets stay strictly ascending |
| SymResolve.FileInfo.SymbolAt | src/sym-resolve.h:155-172 | the file's lookup finds nothing only in an empty cache, and past the last symbol it finds the last one |
| SymResolve.FileInfo.NextOffset | src/sym-resolve.h:174-182 | the file's next offset is above the given one, or 0 past the last symbol |
| SymResolve.LoadedMeaning | src/sym-resolve.h:305-313 | loading symbols listed in ascending order keeps one entry per offset, strictly ascending, each being the symbol listed last at its offset |
| SymResolve.LoadSymbols | src/sym-resolve.h:305-313 | inserting the listed symbols one by one builds exactly the loaded cache |

## Left out

- Reading and writing files: the dump pipes of `readDump`, `objdump`/`nm` runs and `FILE` error checks (`ferror`). The analyser's text I/O is a sequence of lines or bytes. The fast writer's file descriptor is a `written` sequence, which `Flush` extends.
- Allocation failure: `realloc`/`malloc` returning null, and the exit that follows. The buffer's allocator (`buffer.cc`) is an append to a sequence of nodes. `buffer.cc` is not part of this model.
- Concurrency: the trace buffer's mutexes and the per-thread buffers. Every operation is sequential.
- Floating point:
  - the book's `Math.round` to four decimals;
  - tick periods and percentages;
  - `thousands(double)`.
  Combinator results are exact rationals, with infinity and NaN as separate values.
- The hash function of the resource table: the bucket is a parameter of each operation.
- `IgProfTrace::mergeFrom` and the other buffer-wide operations outside `dopush` and the resource table: they are not part of this model.
- The DOM and HTML output of the book: `additionalPart`, link texts, and the `ssd` object of `createFilterSelector`. Only the scores and the chosen path are modelled.
- The enumeration order of JavaScript object keys: facet values are modelled as sequences in insertion order.
- The `events_sort` comparator: it is not a consistent ordering (`BookFilters.EventsCompareInconsistent`), so the order a JavaScript engine gives the events facet is unspecified. The model sorts that facet by insertion with `events_sort`, as it does the other facets, so the order that `BookFilters.SortFacets` and `BookFilters.GetFilterInfo` state for the events facet is one possible order, not the engine's. No sortedness result is stated for it.
- BookFilters.SortFacets: for the events facet the stated order is the insertion sort's, one of the orders an engine may give (see the `events_sort` line). What holds for every engine is that the facet holds exactly its distinct values, since `SortWith` is a permutation.
- BookFilters.GetFilterInfo: the available values of the events facet are in the insertion sort's order, as for `BookFilters.SortFacets`. The first value, which fills an unset events facet, is therefore the model's choice where the engine's order is unspecified.
- The Y values of the perf-ticks history plot, which the source computes as `total_count` times `tick_period`, rounded to two decimals (src/igprof-book.js:185-190). The model uses `total_count` as the Y of every dump, so its maxY and minY facts are about counts.
- Thousands.FormatThousands: integers are unbounded. Two int64 overflows are not modelled. One is the negation of `INT64_MIN`. The other is `n *= 10` in the digit-width loop (src/analyse.h:194-203), which overflows for |value| ≥ 10^18.
- Thousands.FormatThousands: the `leftPadding` argument (src/analyse.h:177, 206-210) is fixed at 0, its default. Every call of the integer overload uses the default, and the floating-point overload passes 0 too, so no padding is ever added.
- DumpParse.StrToL: integers are unbounded, so `strtol` never saturates at `LONG_MAX`/`LONG_MIN`.
- DumpParse.DumpReader.ParseStackLineAt: the depth is stored in an `int` in the source. The model does not truncate it to 32 bits.
- DumpParse.ParseCounterVal: the counter id passes through an `int` before it becomes a `size_t`. The model does not truncate ids of 2^31 or more on the way.
- SymResolve.SkipChars: requires that byte 0xff is not among the skipped characters. For such a set the source loops forever at the end of input, because `EOF` converted to `char` is 0xff.
- SymResolve.FileInfo.Insert: requires symbols to arrive in ascending offset order. The cache is filled from `nm -n`, which lists them that way, and the source relies on this without checking it.
- BookHistory.FinishFamily: requires every point's X to have a rank, and so do `BookHistory.RemapFamily`, `BookHistory.FinishedFamily` and `BookHistory.FinishedFamilyTies`. After the grouping loop as written this holds exactly when no point sits at X 0 or some release still holds X 0 (`BookHistory.RankedExactly`). It fails only through the split release in "## Findings". There the source gives the point an undefined X and sorts on NaN differences, which leaves the order to the JavaScript engine, so no result is stated for such a family. With the corrected test it always holds (`BookHistory.IntendedRunRanked`).
- BookHistory.RemapFamily: see `BookHistory.FinishFamily`.
- BookHistory.FinishedFamily: see `BookHistory.FinishFamily`.
- BookHistory.FinishedFamilyTies: see `BookHistory.FinishFamily`.
- BookMerge.HandleFlatData: requires every dump's ids to be non-zero and strictly increasing in string order, the order `mergeIds` sorts into. `igprof-book.js` does not check this. On other input the source fills zeros where a record exists. A dump's record for id 0 is never joined, because 0 is falsy (`BookMerge.ZeroIdNeverJoins`). A dump that lists its ids in another order loses every record the merge cursor has passed (`BookMerge.NumericOrderLosesRecord`). The model states no merged rows for such dumps.
- BookHistory.SortByText: two points with the same text (equal fields, or an undefined name against an empty one) each sort first under `dump_family_sorter`. For them the engine's order is unspecified; the model puts the point being inserted first.
- Decimal.LexLe: compares characters as Unicode scalar values, where JavaScript compares UTF-16 code units. The two orders differ only for strings holding characters outside the Basic Multilingual Plane.
- JsString.JsNumber: reads integers written in decimal only. Fractions ("5.5"), exponents ("1e3"), hexadecimal, octal and binary literals ("0x10") and "Infinity" read as NaN here, where `Number()` gives a number.
- BookFilters.SortersOrder: the numeric orders are stated over the values `JsString.JsNumber` reads, so a fractional or exponent value counts as NaN.
- BookFilters.SeriesCompareConsistent: holds over the values `JsString.JsNumber` reads, so a fractional or exponent value counts as NaN.
- BookFilters.SortedSeriesDescending: holds over the values `JsString.JsNumber` reads, so a fractional or exponent value counts as NaN.
- BookHistory.MinYIsLowestCount: counts are the values `JsString.JsNumber` reads, so a fractional count counts as NaN.
- JsString.ReplaceFirst: the replacement is inserted as it is. The `$` patterns of JavaScript's `replace` (`$&`, `$1` and the rest) are not expanded.
- MiniPrintf.XSprintf: a `va_arg` past the last argument passed reads as 0. In C that read is undefined.
- MiniPrintf.XAtoi: the width and precision are unbounded. The source's `int` overflows for more than nine or ten digits.
- DumpParse.ParseStackLine: skips blanks (space and tab) after the depth. The comment in the source says `\s*`, which would also skip the other white space characters, but the code tests blanks only.
- TreeWalk.Walk: the progress report of the walk (src/analyse.cc:2894-2899), which prints a dot whenever the percentage of nodes visited grows. It is output only and does not change the walk.
- TreeWalk.Walk: pre is a function from a node to the children it leaves, so a pre that reads or changes anything other than that node (the collapsing filter's symbol tables, the massif builder's sort order) is modelled only through the children it returns. Walk requires that each returned child be smaller than the node (`Shrinks`), which holds for the filters in `analyse.cc`, as they build the new children from the node's own subtree.
- TraceBuffer.Ticked: counter values, peaks, ticks, resource sizes and record amounts are unbounded integers, where the source's `Value` is `uintmax_t` (src/profile-trace.h:78). So `c->value += amount` and `c->ticks += ...` (src/IgProfTrace.cc:299, 306) do not wrap modulo 2^64 here, and `TraceBuffer.TickedMeaning` states the plain sum. Negative amounts and sizes are not excluded either.
- TraceBuffer.Buffer.ReleaseAt: deducting the size and one tick (src/IgProfTrace.cc:136-137) gives a negative value here where the source's unsigned subtraction would wrap. The source only guards this with debug assertions (src/IgProfTrace.cc:134-135).
- Counters.AccumulateCounts: the three slots are unbounded integers, where the source's are `int64_t` (src/analyse.cc:2331-2344). Their sums do not overflow here.
- Counters.Combine: the counts and frees are unbounded integers, where `Counter`'s fields are `int64_t` (src/analyse.h:72-80). The same holds for `Counters.Counter.Add` and `Counters.Counter.Accumulate`. Their sums do not overflow here.
- Counters.Counter.Add: see `Counters.Combine`; the `int64_t` sums do not overflow here.
- Counters.Counter.Accumulate: see `Counters.Combine`; the `int64_t` sums do not overflow here.
- PageRanges.LeakPageRange: address and size are unbounded naturals. The source computes `leakAddress + leakSize + 1` in `int64_t` (src/analyse.cc:2783-2796), which overflows for an address and size near 2^63. Negative addresses and sizes are not modelled either.
- PerfStats.StatFrom: requires a nonzero depth. For depth 0 the source divides by zero when it computes `sumTPerD`.

## Findings

| source | as written | input that shows it | evidently intended | confidence | as-written member | corrected member |
|---|---|---|---|---|---|---|
| src/analyse.cc:2014-2037 | `removeSuffix` and `splitSuffix` keep `tickPos - 1` characters, dropping the character before the tick (modelled by `SymbolNames.RemoveSuffixAsWritten`) | "foo'2" gives "fo" | keep the name up to the tick ("foo") | high; not executed | SymbolNames.SuffixOpsDropOneCharacter | SymbolNames.SplitSuffixRoundTrip |
| src/analyse.cc:320-323 | `RangeInfo::operator<` compares an end with the other's start, which is not a strict weak order, so the sort before `mergeSortedRanges` need not order by start | ranges 5–10 then 3–5 are left in that order, and collapsing them loses page 3 | sort by start address | medium; not executed | PageRanges.SortWithLessMayLosePages | PageRanges.SortByStartProps |
| src/IgProfTrace.cc:264-275 | the call cache is reused while every earlier slot matched, even where the previous push did not go that deep, so a stale slot is followed (modelled by `TraceTree.FrameWalkAsWritten`) | pushes a→b, then c, then c→b: the third lands in the frame of a→b | follow the cache only where it matches the current call path | medium; not executed | TraceTree.StaleCacheMisattributes | TraceBuffer.Buffer.FrameFor |
| src/instruction.cc:96-105 | the POP Ev/XOP case tests for opcode F8 (modelled by `X86Length.F8CaseAsWritten`) | CLC then RET (f8 c3) decodes as one two-byte instruction | the case for 8F | high; not executed | X86Length.ClcReadAsPop | X86Length.Instruction.DecodeOpcode |
| src/instruction.cc:256-257 | mod 00 with a SIB byte always counts 3 bytes (modelled by `X86Length.ModRMBytesAsWritten`) | mov eax,[disp32] (8b 04 25 and four bytes) counts 3 | add four displacement bytes when the SIB base is 101 | high; not executed | X86Length.SibDisplacementMissed | X86Length.ModRMMatchesManual |
| src/instruction.cc:179-182 | group 9 adds 5 to the length, and then `makePatch` adds 5 more (modelled by `X86Length.JumpStepAsWritten`) | a near jump (e9 and four bytes) from a cleared decoder comes out as 10 bytes | count the jump's 5 bytes once | high; not executed | X86Length.JumpCountedTwice | X86Length.Instruction.JumpPatch |
| src/IgProfAnalyse.cc:1987-1991 | `do ++endptr while blank` steps over the character after the depth digits, whatever it is (modelled by `DumpParse.StackLineAsWritten`) | "C1FN0+0" goes on at position 3 instead of 2 | skip only blanks | medium; not executed | DumpParse.StackLineSkipsCharacter | DumpParse.ParseStackLine |
| src/IgProfAnalyse.cc:2010-2011 | `parseFunctionRef` rejects only when both the F and the N are missing (modelled by `DumpParse.FunctionRefAsWritten`) | "XN5+0" is read as a reference to function 5 | reject when either letter is missing | high; not executed | DumpParse.FunctionRefAcceptsEitherLetter | DumpParse.ParseFunctionRef |
| src/IgProfAnalyse.cc:2037-2038 | `parseFunctionDef` has the same either-letter test (modelled by `DumpParse.FunctionDefAsWritten`) | "FX7=(" is read as the definition of function 7 | reject when either letter is missing | high; not executed | DumpParse.FunctionDefAcceptsEitherLetter | DumpParse.ParseFunctionDef |
| src/IgProfAnalyse.cc:2121-2124 | the missing-size check compares `endptr` with `line`, which always differ there (modelled by `DumpParse.LeakAsWritten`) | ";LK=(0x10,)" is read as a leak of size 0 | compare the end of the size with its start | high; not executed | DumpParse.LeakWithoutSize | DumpParse.ParseLeak |
| src/trace-mmap.cc:131-132 | `lldiv` divides the unsigned value as a signed `long long` (modelled by `MiniPrintf.FirstRemainderAsWritten`) | 2^64−1 in base 16 gives remainder −1, an index before the digit table | unsigned division | medium; not executed | MiniPrintf.LldivIndexesBeforeDigits | MiniPrintf.ConvertDigits |
| src/trace-mmap.cc:183-296 | the format scan always steps past the conversion character (modelled by `MiniPrintf.ResumeAsWritten`) | the format "ab%" resumes one past the terminating NUL | stop at the end of the format | medium; not executed | MiniPrintf.LonePercentReadsPastEnd | MiniPrintf.Resume |
| src/sym-resolve.h:155-172 | an offset above the last symbol reads the `end()` iterator (modelled by `SymResolve.SymbolByOffsetAsWritten`) | one symbol at 16, offset 32 | give the last symbol's name | high; not executed | SymResolve.PastLastSymbolReadsEnd | SymResolve.SymbolByOffsetAgrees |
| src/igprof-book.js:180-184 | `if (globalXRemapping[release])` reads a release recorded at X 0 as unset, so the release's next dump takes its family's next position and the release moves there; the first point keeps X 0, which `orderedRemapping` (216-220) no longer ranks, and the sort at 233 compares NaN (modelled by `BookHistory.Step`) | two dumps of release "r" in one family: the points sit at X 0 and X 1, and only X 1 is ranked | test whether the release has an entry, so every dump of a release shares its X | high; not executed | BookHistory.SplitLeavesZeroUnranked | BookHistory.IntendedRunRanked |

