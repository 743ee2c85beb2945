/** The dump browser's history plots: the dumps that pass the current
    filter are grouped into families (one plot series each) by the values
    of the plot invariants, and each dump becomes a point whose X value is
    shared by dumps of the same release. */
module BookHistory {
  import opened Options
  import opened JsString
  import opened BookFilters
  import Sequences

  /** plotInvariants: the fields that name a family ("counter" twice). */
  const PlotInvariants: seq<string> := ["candle", "tier", "pileup", "counter", "events",
    "architecture", "series", "conditions", "counter", "sequence", "owner"]

  datatype DumpEntry = DumpEntry(id: nat, info: Info)

  /** One plotted point `[x, total_count, total_freq, dumpId, name]`;
      None stands for NaN or undefined. */
  datatype Point = Point(x: nat, y: Option<int>, freq: Option<int>, dumpId: nat, name: Option<string>)

  /** The families in creation order, the release-to-X table and the
      ranges in globalInfo. */
  datatype Plots = Plots(families: map<string, seq<Point>>, order: seq<string>,
                         remap: map<string, nat>, maxX: nat, maxY: int, minY: Option<int>)

  /** `{maxX: 2, maxY: 2, minY: 0}` and nothing grouped yet. */
  function Initial(): Plots
  {
    Plots(map[], [], map[], 2, 2, Some(0))
  }

  // ---------------------------------------------------------------------
  // filterDump

  function InfoOpt(info: Info, name: string): Option<string>
  {
    if name in info then Some(info[name]) else None
  }

  function StateOpt(st: State, key: string): Option<string>
  {
    if key in st then st[key] else None
  }

  /** A dump is left out when some facet value differs from the selected
      one (undefined equals only undefined). */
  predicate Filtered(info: Info, filterInfo: State)
  {
    exists fi :: 0 <= fi < FacetCount &&
      InfoOpt(info, FilterSpecs[fi].name) != StateOpt(filterInfo, FilterSpecs[fi].id)
  }

  method FilterDump(info: Info, filterInfo: State) returns (skip: bool)
    ensures skip <==> Filtered(info, filterInfo)
  {
    FilterSpecsShape();
    for fi := 0 to FacetCount
      invariant forall k :: 0 <= k < fi ==>
                  InfoOpt(info, FilterSpecs[k].name) == StateOpt(filterInfo, FilterSpecs[k].id)
    {
      var spec := FilterSpecs[fi];
      if InfoOpt(info, spec.name) != StateOpt(filterInfo, spec.id) {
        return true;
      }
    }
    return false;
  }

  /** The dumps that pass the filter, in input order. */
  function Kept(dumps: seq<DumpEntry>, filterInfo: State): (kept: seq<DumpEntry>)
    ensures |kept| <= |dumps|
    ensures forall k :: 0 <= k < |kept| ==> kept[k] in dumps && !Filtered(kept[k].info, filterInfo)
  {
    if dumps == [] then []
    else
      var last := dumps[|dumps| - 1];
      Kept(dumps[..|dumps| - 1], filterInfo) + (if Filtered(last.info, filterInfo) then [] else [last])
  }

  // ---------------------------------------------------------------------
  // Family labels

  function JoinWith(parts: seq<string>, sep: string): (s: string)
  {
    if parts == [] then "" else if |parts| == 1 then parts[0] else parts[0] + sep + JoinWith(parts[1..], sep)
  }

  lemma {:induction false} JoinWithSnoc(parts: seq<string>, sep: string, last: string)
    requires parts != []
    ensures JoinWith(parts + [last], sep) == JoinWith(parts, sep) + sep + last
    decreases |parts|
  {
    if |parts| > 1 {
      assert (parts + [last])[1..] == parts[1..] + [last];
      JoinWithSnoc(parts[1..], sep, last);
    }
  }

  lemma {:induction false} JoinWithNonEmpty(parts: seq<string>, sep: string)
    requires parts != [] && parts[0] != ""
    ensures JoinWith(parts, sep) != ""
  {
    if |parts| > 1 {
      assert |JoinWith(parts, sep)| >= |parts[0]|;
    }
  }

  function DropLeadingEmpty(s: seq<string>): (r: seq<string>)
    ensures r != [] ==> r[0] != ""
  {
    if s == [] then [] else if s[0] == "" then DropLeadingEmpty(s[1..]) else s
  }

  lemma {:induction false} DropLeadingEmptySnoc(s: seq<string>, v: string)
    ensures DropLeadingEmpty(s + [v]) ==
              if DropLeadingEmpty(s) == [] then (if v == "" then [] else [v]) else DropLeadingEmpty(s) + [v]
    decreases |s|
  {
    if s == [] {
      assert [] + [v] == [v];
    } else {
      assert (s + [v])[1..] == s[1..] + [v];
      DropLeadingEmptySnoc(s[1..], v);
    }
  }

  function PlotValues(info: Info): (vals: seq<string>)
    ensures |vals| == |PlotInvariants|
  {
    seq(|PlotInvariants|, i requires 0 <= i < |PlotInvariants| => InfoValue(info, PlotInvariants[i]))
  }

  /** The family a dump belongs to: its plot-invariant values joined by
      ", ", where leading empty values vanish with their separators. */
  function FamilyLabel(info: Info): string
  {
    JoinWith(DropLeadingEmpty(PlotValues(info)), ", ")
  }

  /** The label loop, which adds ", " only once the label is non-empty. */
  method BuildFamilyLabel(info: Info) returns (dumpFamily: string)
    ensures dumpFamily == FamilyLabel(info)
  {
    var vals := PlotValues(info);
    dumpFamily := "";
    for pii := 0 to |PlotInvariants|
      invariant dumpFamily == JoinWith(DropLeadingEmpty(vals[..pii]), ", ")
    {
      var v := InfoValue(info, PlotInvariants[pii]);
      assert vals[..pii + 1] == vals[..pii] + [v];
      DropLeadingEmptySnoc(vals[..pii], v);
      var d := DropLeadingEmpty(vals[..pii]);
      if d != [] {
        JoinWithNonEmpty(d, ", ");
        JoinWithSnoc(d, ", ", v);
      }
      dumpFamily := dumpFamily + (if dumpFamily != "" then ", " else "") + v;
    }
    assert vals[..|PlotInvariants|] == vals;
  }

  /** When the first plot value is non-empty the label joins all of them. */
  lemma LabelOfNonEmptyCandle(info: Info)
    requires InfoValue(info, "candle") != ""
    ensures FamilyLabel(info) == JoinWith(PlotValues(info), ", ")
  {
  }

  // ---------------------------------------------------------------------
  // Grouping

  /** `if (!globalInfo.minY) minY = v; if (v < minY) minY = v;` where
      both 0 and NaN are falsy. */
  function NextMinY(minY: Option<int>, y: Option<int>): (r: Option<int>)
  {
    var seeded := if minY == None || minY == Some(0) then y else minY;
    if y.Some? && seeded.Some? && y.value < seeded.value then y else seeded
  }

  /** `if (globalXRemapping[release])`: a release whose recorded X is 0
      reads as unset. */
  predicate ReusesX(remap: map<string, nat>, release: string)
  {
    release in remap && remap[release] != 0
  }

  function Count(info: Info): Option<int>
  {
    JsNumber(InfoValue(info, "total_count"))
  }

  /** One dump added to its family; `reuse` says whether it takes the X
      its release already holds or its family's next position. */
  function Place(p: Plots, d: DumpEntry, reuse: bool): Plots
    requires reuse ==> InfoValue(d.info, "release") in p.remap
  {
    var fam := FamilyLabel(d.info);
    var isNew := fam !in p.families;
    var families := if isNew then p.families[fam := []] else p.families;
    var order := if isNew then p.order + [fam] else p.order;
    var j := |families[fam]|;
    var release := InfoValue(d.info, "release");
    var x := if reuse then p.remap[release] else j;
    var remap := if reuse then p.remap else p.remap[release := j];
    var y := Count(d.info);
    var pt := Point(x, y, JsNumber(InfoValue(d.info, "total_freq")), d.id, InfoOpt(d.info, "name"));
    var maxY := if y.Some? && y.value > p.maxY then y.value else p.maxY;
    var maxX := if j > p.maxX then j else p.maxX;
    Plots(families[fam := families[fam] + [pt]], order, remap, maxX, maxY, NextMinY(p.minY, y))
  }

  /** One dump that passed the filter, placed as the source does. */
  function Step(p: Plots, d: DumpEntry): Plots
  {
    Place(p, d, ReusesX(p.remap, InfoValue(d.info, "release")))
  }

  function Run(p: Plots, ds: seq<DumpEntry>): Plots
  {
    if ds == [] then p else Step(Run(p, ds[..|ds| - 1]), ds[|ds| - 1])
  }

  lemma KeptNext(dumps: seq<DumpEntry>, i: nat, filterInfo: State)
    requires i < |dumps|
    ensures Kept(dumps[..i + 1], filterInfo) ==
              Kept(dumps[..i], filterInfo) + (if Filtered(dumps[i].info, filterInfo) then [] else [dumps[i]])
  {
    assert dumps[..i + 1][..i] == dumps[..i];
  }

  lemma RunSnoc(p: Plots, ds: seq<DumpEntry>, d: DumpEntry)
    ensures Run(p, ds + [d]) == Step(Run(p, ds), d)
  {
    assert (ds + [d])[..|ds|] == ds;
  }

  /** The body of the grouping loop for a dump that passed the filter. */
  method AddDump(p: Plots, d: DumpEntry, dumpFamily: string) returns (q: Plots)
    requires dumpFamily == FamilyLabel(d.info)
    ensures q == Step(p, d)
  {
    var families, order, remap := p.families, p.order, p.remap;
    var maxX, maxY, minY := p.maxX, p.maxY, p.minY;
    if dumpFamily !in families {
      families := families[dumpFamily := []];
      order := order + [dumpFamily];
    }
    var j := |families[dumpFamily]|;
    var release := InfoValue(d.info, "release");
    var remappedX := j;
    if release in remap && remap[release] != 0 {
      remappedX := remap[release];
    } else {
      remap := remap[release := j];
    }
    var y := JsNumber(InfoValue(d.info, "total_count"));
    var v := Point(remappedX, y, JsNumber(InfoValue(d.info, "total_freq")), d.id, InfoOpt(d.info, "name"));
    if y.Some? && y.value > maxY {
      maxY := y.value;
    }
    if minY == None || minY == Some(0) {
      minY := y;
    }
    if y.Some? && minY.Some? && y.value < minY.value {
      minY := y;
    }
    if j > maxX {
      maxX := j;
    }
    families := families[dumpFamily := families[dumpFamily] + [v]];
    q := Plots(families, order, remap, maxX, maxY, minY);
  }

  /** The grouping loop of historyPlots. */
  method HistoryPlots(dumps: seq<DumpEntry>, filterInfo: State) returns (plots: Plots)
    ensures plots == Run(Initial(), Kept(dumps, filterInfo))
  {
    plots := Plots(map[], [], map[], 2, 2, Some(0));
    assert dumps[..0] == [];
    for i := 0 to |dumps|
      invariant plots == Run(Initial(), Kept(dumps[..i], filterInfo))
    {
      KeptNext(dumps, i, filterInfo);
      var skip := FilterDump(dumps[i].info, filterInfo);
      if skip {
        assert Kept(dumps[..i + 1], filterInfo) == Kept(dumps[..i], filterInfo);
        continue;
      }
      RunSnoc(Initial(), Kept(dumps[..i], filterInfo), dumps[i]);
      var dumpFamily := BuildFamilyLabel(dumps[i].info);
      plots := AddDump(plots, dumps[i], dumpFamily);
    }
    assert dumps[..|dumps|] == dumps;
  }

  // ---------------------------------------------------------------------
  // What the grouping guarantees

  /** The ids of the dumps labelled l, in input order. */
  function MemberIds(ds: seq<DumpEntry>, l: string): seq<nat>
  {
    if ds == [] then []
    else MemberIds(ds[..|ds| - 1], l) + (if FamilyLabel(ds[|ds| - 1].info) == l then [ds[|ds| - 1].id] else [])
  }

  function PointIds(pts: seq<Point>): (ids: seq<nat>)
    ensures |ids| == |pts|
    ensures forall k :: 0 <= k < |pts| ==> ids[k] == pts[k].dumpId
  {
    if pts == [] then [] else PointIds(pts[..|pts| - 1]) + [pts[|pts| - 1].dumpId]
  }

  predicate DistinctLabels(order: seq<string>)
  {
    forall a, b :: 0 <= a < b < |order| ==> order[a] != order[b]
  }

  /** The families of p group the dumps ds by their fam: every family is
      listed once in creation order and holds exactly the dumps with its
      fam, in input order, and no other fam has a dump. */
  ghost predicate GroupedBy(p: Plots, ds: seq<DumpEntry>)
  {
    DistinctLabels(p.order) &&
    (forall l :: l in p.families <==> l in p.order) &&
    (forall l :: l in p.families ==> PointIds(p.families[l]) == MemberIds(ds, l) != []) &&
    (forall l :: l !in p.families ==> MemberIds(ds, l) == [])
  }

  /** Every family is listed once in creation order and holds exactly the
      dumps with its fam, in input order. */
  lemma {:induction false} RunGroupsByLabel(ds: seq<DumpEntry>)
    ensures GroupedBy(Run(Initial(), ds), ds)
  {
    if ds != [] {
      RunGroupsByLabel(ds[..|ds| - 1]);
      Sequences.InitLast(ds);
      StepGroups(Run(Initial(), ds[..|ds| - 1]), ds[..|ds| - 1], ds[|ds| - 1]);
    }
  }

  lemma MemberIdsSnoc(ds: seq<DumpEntry>, d: DumpEntry, l: string)
    ensures MemberIds(ds + [d], l) == MemberIds(ds, l) + (if FamilyLabel(d.info) == l then [d.id] else [])
  {
    assert (ds + [d])[..|ds|] == ds;
  }

  /** One more dump joins the family of its fam, which is created at the
      end of the order when it is new. */
  lemma StepGroups(p: Plots, ds: seq<DumpEntry>, d: DumpEntry)
    requires GroupedBy(p, ds)
    ensures GroupedBy(Step(p, d), ds + [d])
  {
    StepOrder(p, d);
    var q := Step(p, d);
    forall l | l in q.families
      ensures PointIds(q.families[l]) == MemberIds(ds + [d], l) != []
    {
      StepFamily(p, ds, d, l);
    }
    forall l | l !in q.families
      ensures MemberIds(ds + [d], l) == []
    {
      StepFamily(p, ds, d, l);
    }
  }

  lemma StepOrder(p: Plots, d: DumpEntry)
    requires DistinctLabels(p.order) && (forall l :: l in p.families <==> l in p.order)
    ensures var q := Step(p, d);
      DistinctLabels(q.order) && (forall l :: l in q.families <==> l in q.order)
  {
    var q := Step(p, d);
    var fam := FamilyLabel(d.info);
    assert q.families.Keys == p.families.Keys + {fam};
    assert q.order == if fam in p.families then p.order else p.order + [fam];
  }

  lemma StepFamily(p: Plots, ds: seq<DumpEntry>, d: DumpEntry, l: string)
    requires l in p.families ==> PointIds(p.families[l]) == MemberIds(ds, l) != []
    requires l !in p.families ==> MemberIds(ds, l) == []
    ensures var q := Step(p, d);
      (l in q.families ==> PointIds(q.families[l]) == MemberIds(ds + [d], l) != []) &&
      (l !in q.families ==> MemberIds(ds + [d], l) == [])
  {
    var q := Step(p, d);
    var fam := FamilyLabel(d.info);
    MemberIdsSnoc(ds, d, l);
    if l == fam {
      var pts := q.families[l];
      assert pts[..|pts| - 1] == if fam in p.families then p.families[l] else [];
    } else {
      assert l in q.families <==> l in p.families;
      assert l in q.families ==> q.families[l] == p.families[l];
    }
  }

  predicate XWithin(p: Plots)
  {
    (forall l, k :: l in p.families && 0 <= k < |p.families[l]| ==> p.families[l][k].x <= p.maxX) &&
    (forall r :: r in p.remap ==> p.remap[r] <= p.maxX)
  }

  predicate YWithin(p: Plots)
  {
    forall l, k :: l in p.families && 0 <= k < |p.families[l]| && p.families[l][k].y.Some? ==>
      p.families[l][k].y.value <= p.maxY
  }

  /** globalInfo bounds the plot: every X is at most maxX, every numeric Y
      at most maxY, and both maxima are at least 2. */
  lemma {:induction false} RunBounds(ds: seq<DumpEntry>)
    ensures var p := Run(Initial(), ds);
      XWithin(p) && YWithin(p) && p.maxX >= 2 && p.maxY >= 2
  {
    if ds != [] {
      RunBounds(ds[..|ds| - 1]);
      StepBounds(Run(Initial(), ds[..|ds| - 1]), ds[|ds| - 1]);
    }
  }

  lemma StepBounds(p: Plots, d: DumpEntry)
    requires XWithin(p) && YWithin(p) && p.maxX >= 2 && p.maxY >= 2
    ensures var q := Step(p, d);
      XWithin(q) && YWithin(q) && q.maxX >= 2 && q.maxY >= 2
  {
    StepXBounds(p, d);
    StepYBounds(p, d);
  }

  /** A step keeps every X within maxX. */
  lemma StepXBounds(p: Plots, d: DumpEntry)
    requires XWithin(p)
    ensures XWithin(Step(p, d)) && Step(p, d).maxX >= p.maxX
  {
    var q := Step(p, d);
    var fam := FamilyLabel(d.info);
    var old_pts := if fam in p.families then p.families[fam] else [];
    assert q.families[fam] == old_pts + [q.families[fam][|old_pts|]];
    forall l, k | l in q.families && 0 <= k < |q.families[l]|
      ensures q.families[l][k].x <= q.maxX
    {
      if l != fam || k < |old_pts| {
        assert q.families[l][k] == p.families[l][k];
      }
    }
  }

  /** A step keeps every numeric Y within maxY. */
  lemma StepYBounds(p: Plots, d: DumpEntry)
    requires YWithin(p)
    ensures YWithin(Step(p, d)) && Step(p, d).maxY >= p.maxY
  {
    var q := Step(p, d);
    var fam := FamilyLabel(d.info);
    var old_pts := if fam in p.families then p.families[fam] else [];
    assert q.families[fam] == old_pts + [q.families[fam][|old_pts|]];
    forall l, k | l in q.families && 0 <= k < |q.families[l]| && q.families[l][k].y.Some?
      ensures q.families[l][k].y.value <= q.maxY
    {
      if l != fam || k < |old_pts| {
        assert q.families[l][k] == p.families[l][k];
      }
    }
  }

  /** A release recorded at a non-zero X keeps it; one recorded at X 0
      reads as unset, so the next dump of that release takes its family's
      next position and moves the release there. */
  lemma RemapReusesOnlyNonzero(p: Plots, d: DumpEntry)
    ensures var release := InfoValue(d.info, "release");
      var fam := FamilyLabel(d.info);
      var q := Step(p, d);
      var pt := q.families[fam][|q.families[fam]| - 1];
      (ReusesX(p.remap, release) ==> pt.x == p.remap[release] && q.remap == p.remap) &&
      (!ReusesX(p.remap, release) ==>
         pt.x == (if fam in p.families then |p.families[fam]| else 0) &&
         q.remap == p.remap[release := pt.x])
  {
  }

  /** Two dumps of release "r" in one family, the first at X 0, land at
      X 0 and X 2 instead of sharing X 0. */
  lemma SameReleaseSplitAtZero(p: Plots, fam: string, a: Point, b: Point, d: DumpEntry)
    requires p.families == map[fam := [a, b]] && p.remap == map["r" := 0, "s" := 1]
    requires FamilyLabel(d.info) == fam && InfoValue(d.info, "release") == "r"
    ensures var q := Step(p, d);
      q.families[fam][2].x == 2 && q.remap["r"] == 2
  {
  }

  // ---------------------------------------------------------------------
  // Which X values get a rank

  /** Every point at a non-zero X sits at an X some release still holds. */
  predicate NonzeroXsRecorded(p: Plots)
  {
    forall l, k :: l in p.families && 0 <= k < |p.families[l]| && p.families[l][k].x != 0 ==>
      p.families[l][k].x in p.remap.Values
  }

  /** Every point sits at an X some release still holds. */
  predicate XsRecorded(p: Plots)
  {
    forall l, k :: l in p.families && 0 <= k < |p.families[l]| ==> p.families[l][k].x in p.remap.Values
  }

  /** Only a release at X 0 is ever moved, so only X 0 can lose its last
      holder. */
  lemma StepKeepsNonzeroRecorded(p: Plots, d: DumpEntry)
    requires NonzeroXsRecorded(p)
    ensures NonzeroXsRecorded(Step(p, d))
  {
    var q := Step(p, d);
    var release := InfoValue(d.info, "release");
    var fam := FamilyLabel(d.info);
    var before := if fam in p.families then p.families[fam] else [];
    assert q.families[fam] == before + [q.families[fam][|before|]];
    forall v | v in p.remap.Values && v != 0 ensures v in q.remap.Values {
      var r :| r in p.remap && p.remap[r] == v;
      assert r in q.remap && q.remap[r] == v;
    }
    assert q.families[fam][|before|].x in q.remap.Values by {
      assert q.remap[release] == q.families[fam][|before|].x;
    }
    forall l, k | l in q.families && 0 <= k < |q.families[l]| && q.families[l][k].x != 0
      ensures q.families[l][k].x in q.remap.Values
    {
      if l != fam || k < |before| {
        assert q.families[l][k] == p.families[l][k];
      }
    }
  }

  lemma {:induction false} RunNonzeroRecorded(p: Plots, ds: seq<DumpEntry>)
    requires NonzeroXsRecorded(p)
    ensures NonzeroXsRecorded(Run(p, ds))
  {
    if ds != [] {
      RunNonzeroRecorded(p, ds[..|ds| - 1]);
      StepKeepsNonzeroRecorded(Run(p, ds[..|ds| - 1]), ds[|ds| - 1]);
    }
  }

  /** With ranks for exactly the X values releases hold (what
      OrderReleases builds), a family of the grouping loop is fully ranked
      exactly when it has no point at X 0 or some release holds X 0. */
  lemma RankedExactly(ds: seq<DumpEntry>, ordered: map<nat, nat>)
    requires forall x :: x in ordered <==> x in Run(Initial(), ds).remap.Values
    ensures var p := Run(Initial(), ds);
      forall l :: l in p.families ==>
        (XsRanked(p.families[l], ordered) <==> 0 in ordered || forall pt :: pt in p.families[l] ==> pt.x != 0)
  {
    RunNonzeroRecorded(Initial(), ds);
  }

  /** Two dumps of release "r" in one family: the first takes X 0, the
      second moves "r" to X 1, and X 0 is left without a rank. */
  lemma SplitLeavesZeroUnranked(d0: DumpEntry, d: DumpEntry, ordered: map<nat, nat>)
    requires FamilyLabel(d.info) == FamilyLabel(d0.info)
    requires InfoValue(d0.info, "release") == "r" && InfoValue(d.info, "release") == "r"
    requires forall x :: x in ordered <==> x in Run(Initial(), [d0, d]).remap.Values
    ensures var q := Run(Initial(), [d0, d]);
      q.remap == map["r" := 1] && q.families[FamilyLabel(d.info)][0].x == 0 &&
      !XsRanked(q.families[FamilyLabel(d.info)], ordered)
  {
    var p := Step(Initial(), d0);
    assert [d0, d][..1] == [d0];
    assert Run(Initial(), [d0]) == p;
    var q := Step(p, d);
    assert q.families[FamilyLabel(d.info)][0] in q.families[FamilyLabel(d.info)];
  }

  /** A dump whose release has any recorded X, 0 included, takes that X. */
  function StepIntended(p: Plots, d: DumpEntry): Plots
  {
    Place(p, d, InfoValue(d.info, "release") in p.remap)
  }

  function RunIntended(p: Plots, ds: seq<DumpEntry>): Plots
  {
    if ds == [] then p else StepIntended(RunIntended(p, ds[..|ds| - 1]), ds[|ds| - 1])
  }

  /** Every dump of a release lands at the release's one X, and no release
      ever moves. */
  lemma IntendedReusesX(p: Plots, d: DumpEntry)
    ensures var release := InfoValue(d.info, "release");
      var fam := FamilyLabel(d.info);
      var q := StepIntended(p, d);
      var pt := q.families[fam][|q.families[fam]| - 1];
      release in q.remap && pt.x == q.remap[release] &&
      (release in p.remap ==> pt.x == p.remap[release]) &&
      forall r :: r in p.remap ==> r in q.remap && q.remap[r] == p.remap[r]
  {
  }

  lemma StepIntendedKeepsRecorded(p: Plots, d: DumpEntry)
    requires XsRecorded(p)
    ensures XsRecorded(StepIntended(p, d))
  {
    var q := StepIntended(p, d);
    IntendedReusesX(p, d);
    forall v | v in p.remap.Values ensures v in q.remap.Values {
      var r :| r in p.remap && p.remap[r] == v;
      assert r in q.remap && q.remap[r] == v;
    }
    var release := InfoValue(d.info, "release");
    assert q.remap[release] in q.remap.Values;
  }

  /** With the intended placement every family is fully ranked by ranks
      for the X values releases hold. */
  lemma {:induction false} IntendedRunRanked(ds: seq<DumpEntry>, ordered: map<nat, nat>)
    requires forall x :: x in ordered <==> x in RunIntended(Initial(), ds).remap.Values
    ensures var p := RunIntended(Initial(), ds);
      forall l :: l in p.families ==> XsRanked(p.families[l], ordered)
  {
    IntendedRecorded(ds);
  }

  lemma {:induction false} IntendedRecorded(ds: seq<DumpEntry>)
    ensures XsRecorded(RunIntended(Initial(), ds))
  {
    if ds != [] {
      IntendedRecorded(ds[..|ds| - 1]);
      StepIntendedKeepsRecorded(RunIntended(Initial(), ds[..|ds| - 1]), ds[|ds| - 1]);
    }
  }

  /** The lowest count of a non-empty sequence of dumps. */
  function MinCount(ds: seq<DumpEntry>): int
    requires ds != [] && forall k :: 0 <= k < |ds| ==> Count(ds[k].info).Some?
  {
    var last := Count(ds[|ds| - 1].info).value;
    if |ds| == 1 then last
    else
      var m := MinCount(ds[..|ds| - 1]);
      if last < m then last else m
  }

  /** When every count is a non-zero number, minY is the lowest count. */
  lemma {:induction false} MinYIsLowestCount(ds: seq<DumpEntry>)
    requires ds != []
    requires forall k :: 0 <= k < |ds| ==> Count(ds[k].info).Some? && Count(ds[k].info).value != 0
    ensures Run(Initial(), ds).minY == Some(MinCount(ds))
  {
    if |ds| > 1 {
      MinYIsLowestCount(ds[..|ds| - 1]);
    }
  }

  /** A zero count is forgotten by the next dump: counts 5, 0, 3 leave
      minY at 3. */
  lemma ZeroMinimumForgotten()
    ensures NextMinY(NextMinY(NextMinY(Some(0), Some(5)), Some(0)), Some(3)) == Some(3)
  {
  }

  // ---------------------------------------------------------------------
  // Ordering the releases: `sortable[j++] = [release, x]; sortable.sort()`
  // compares the pairs as the strings "release,x", and
  // `orderedRemapping[x] = i` gives every X the rank of its pair.

  /** The string an entry [release, x] of sortable sorts as. */
  function PairKey(release: string, x: nat): string
  {
    release + "," + Decimal.Dec(x)
  }

  function XOf(remap: map<string, nat>, release: string): nat
  {
    if release in remap then remap[release] else 0
  }

  /** sortable.sort(): the string order of the pairs. */
  function PairCompare(remap: map<string, nat>): (string, string) -> int
  {
    (a: string, b: string) => if Decimal.LexLe(PairKey(a, XOf(remap, a)), PairKey(b, XOf(remap, b))) then -1 else 1
  }

  /** Two releases never give the same pair string: the text after the
      last comma is the X, and the text before it the release. */
  lemma {:induction false} PairKeyInjective(a: string, x: nat, b: string, y: nat)
    requires PairKey(a, x) == PairKey(b, y)
    ensures a == b && x == y
  {
    var da, db := Decimal.Dec(x), Decimal.Dec(y);
    var ka, kb := PairKey(a, x), PairKey(b, y);
    CommaBeforeDigits(a, da);
    CommaBeforeDigits(b, db);
    assert |da| == |db|;
    assert da == ka[|ka| - |da|..] == kb[|kb| - |db|..] == db;
    assert a == ka[..|a|] == kb[..|b|] == b;
    Decimal.DecInjective(x, y);
  }

  /** In "release,digits" the comma before the digits is the last one. */
  lemma CommaBeforeDigits(pre: string, d: string)
    requires forall i :: 0 <= i < |d| ==> '0' <= d[i] <= '9'
    ensures var k := pre + "," + d;
      k[|k| - |d| - 1] == ',' && forall i :: |k| - |d| <= i < |k| ==> k[i] != ','
  {
  }

  lemma PairCompareConsistent(remap: map<string, nat>, vals: set<string>)
    ensures ConsistentOn(PairCompare(remap), vals)
  {
    var cmp := PairCompare(remap);
    forall a, b | a in vals && b in vals && a != b && cmp(a, b) > 0
      ensures cmp(b, a) <= 0
    {
      Decimal.LexLeTotal(PairKey(a, XOf(remap, a)), PairKey(b, XOf(remap, b)));
    }
    forall a, b, c | a in vals && b in vals && c in vals && cmp(a, b) <= 0 && cmp(b, c) <= 0
      ensures cmp(a, c) <= 0
    {
      Decimal.LexLeTransitive(PairKey(a, XOf(remap, a)), PairKey(b, XOf(remap, b)), PairKey(c, XOf(remap, c)));
    }
  }

  /** The last position in the sorted releases whose X is x. */
  predicate LastWithX(remap: map<string, nat>, sorted: seq<string>, x: nat, i: nat)
  {
    i < |sorted| && XOf(remap, sorted[i]) == x &&
    forall k :: i < k < |sorted| ==> XOf(remap, sorted[k]) != x
  }

  /** No two X values get the same rank. */
  predicate RanksDistinct(ordered: map<nat, nat>)
  {
    forall a, b :: a in ordered && b in ordered && a != b ==> ordered[a] != ordered[b]
  }

  /** orderedRemapping: each X maps to the rank of the last sorted pair
      with that X; an X that no release holds is left undefined. */
  method OrderReleases(remap: map<string, nat>, releases: seq<string>)
    returns (sorted: seq<string>, ordered: map<nat, nat>)
    requires Distinct(releases) && forall r :: r in remap <==> r in releases
    ensures multiset(sorted) == multiset(releases)
    ensures SortedWith(PairCompare(remap), sorted)
    ensures forall x :: x in ordered <==> exists r :: r in remap && remap[r] == x
    ensures forall x :: x in ordered ==> LastWithX(remap, sorted, x, ordered[x])
    ensures RanksDistinct(ordered)
  {
    sorted := SortWith(PairCompare(remap), releases);
    PairCompareConsistent(remap, set r | r in releases);
    SortWithSorted(PairCompare(remap), releases, set r | r in releases);
    ordered := RankByX(remap, sorted);
    RanksCoverRemap(remap, releases, sorted, ordered);
  }

  /** The loop `orderedRemapping[sortable[i][1]] = i`. */
  method RankByX(remap: map<string, nat>, sorted: seq<string>) returns (ordered: map<nat, nat>)
    ensures forall x :: x in ordered <==> exists k :: 0 <= k < |sorted| && XOf(remap, sorted[k]) == x
    ensures forall x :: x in ordered ==> LastWithX(remap, sorted, x, ordered[x])
    ensures RanksDistinct(ordered)
  {
    ordered := map[];
    for i := 0 to |sorted|
      invariant forall x :: x in ordered <==> exists k :: 0 <= k < i && XOf(remap, sorted[k]) == x
      invariant forall x :: x in ordered ==>
        ordered[x] < i && XOf(remap, sorted[ordered[x]]) == x &&
        forall k :: ordered[x] < k < i ==> XOf(remap, sorted[k]) != x
    {
      ordered := ordered[XOf(remap, sorted[i]) := i];
    }
  }

  lemma RanksCoverRemap(remap: map<string, nat>, releases: seq<string>, sorted: seq<string>, ordered: map<nat, nat>)
    requires forall r :: r in remap <==> r in releases
    requires multiset(sorted) == multiset(releases)
    requires forall x :: x in ordered <==> exists k :: 0 <= k < |sorted| && XOf(remap, sorted[k]) == x
    ensures forall x :: x in ordered <==> exists r :: r in remap && remap[r] == x
  {
    forall x ensures x in ordered <==> exists r :: r in remap && remap[r] == x {
      if x in ordered {
        var k :| 0 <= k < |sorted| && XOf(remap, sorted[k]) == x;
        assert sorted[k] in multiset(releases);
      }
      if exists r :: r in remap && remap[r] == x {
        var r :| r in remap && remap[r] == x;
        assert r in multiset(sorted);
        var k :| 0 <= k < |sorted| && sorted[k] == r;
      }
    }
  }

  /** When no two releases share an X, the ranks follow the string order
      of the pairs: a release that sorts first gets the smaller X. */
  lemma RanksFollowReleaseOrder(remap: map<string, nat>, sorted: seq<string>, ordered: map<nat, nat>,
                                a: string, b: string)
    requires SortedWith(PairCompare(remap), sorted) && Distinct(sorted)
    requires forall x :: x in ordered ==> LastWithX(remap, sorted, x, ordered[x])
    requires a in remap && b in remap && a in sorted && b in sorted
    requires remap[a] in ordered && remap[b] in ordered && remap[a] != remap[b]
    requires forall r :: r in sorted && r != a ==> XOf(remap, r) != remap[a]
    requires forall r :: r in sorted && r != b ==> XOf(remap, r) != remap[b]
    requires Decimal.LexLe(PairKey(a, remap[a]), PairKey(b, remap[b]))
    ensures ordered[remap[a]] < ordered[remap[b]]
  {
    var i, j := ordered[remap[a]], ordered[remap[b]];
    assert sorted[i] == a && sorted[j] == b;
    if j < i {
      assert PairCompare(remap)(sorted[j], sorted[i]) <= 0;
      assert Decimal.LexLe(PairKey(b, remap[b]), PairKey(a, remap[a]));
      Decimal.LexLeAntisymmetric(PairKey(a, remap[a]), PairKey(b, remap[b]));
      PairKeyInjective(a, remap[a], b, remap[b]);
    }
  }

  // ---------------------------------------------------------------------
  // The pre-sort `dumpFamilies[dfi][0].sort(dump_family_sorter)`: `a < b`
  // on two point arrays compares the strings `join` makes of them, and the
  // sorter `a < b && 1 || -1` puts the larger string first.

  /** A number as `join` writes it; None is NaN. */
  function NumText(v: Option<int>): string
  {
    if v.None? then "NaN" else IntText(v.value)
  }

  /** The text of a point after its X and the comma that follows it; an
      undefined name is written as nothing. */
  function RestText(p: Point): string
  {
    NumText(p.y) + "," + NumText(p.freq) + "," + Decimal.Dec(p.dumpId) + "," +
    (if p.name.Some? then p.name.value else "")
  }

  /** The string a point `[x, y, freq, dumpId, name]` compares as. */
  function PointText(p: Point): string
  {
    Decimal.Dec(p.x) + "," + RestText(p)
  }

  /** dump_family_sorter: 1 (a goes after b) when a's text is strictly
      smaller, -1 otherwise. */
  function FamilySorter(a: Point, b: Point): (r: int)
    ensures r == 1 || r == -1
  {
    if Decimal.LexLe(PointText(a), PointText(b)) && PointText(a) != PointText(b) then 1 else -1
  }

  /** The sorter puts a first exactly when b's text is no larger. */
  lemma FamilySorterOrder(a: Point, b: Point)
    ensures FamilySorter(a, b) < 0 <==> Decimal.LexLe(PointText(b), PointText(a))
  {
    var ta, tb := PointText(a), PointText(b);
    Decimal.LexLeTotal(ta, tb);
    if ta == tb {
      Decimal.LexLeReflexive(ta);
    } else if Decimal.LexLe(ta, tb) && Decimal.LexLe(tb, ta) {
      Decimal.LexLeAntisymmetric(ta, tb);
    }
  }

  function InsertByText(p: Point, s: seq<Point>): (res: seq<Point>)
    ensures multiset(res) == multiset(s) + multiset{p}
    ensures |res| == |s| + 1
  {
    if s == [] || FamilySorter(p, s[0]) <= 0 then [p] + s
    else
      HeadTail(s);
      [s[0]] + InsertByText(p, s[1..])
  }

  lemma HeadTail(s: seq<Point>)
    requires s != []
    ensures multiset(s) == multiset{s[0]} + multiset(s[1..])
  {
    assert s == [s[0]] + s[1..];
  }

  /** The family sorted with dump_family_sorter. */
  function SortByText(s: seq<Point>): (res: seq<Point>)
    ensures multiset(res) == multiset(s)
    ensures |res| == |s|
  {
    if s == [] then []
    else
      assert s == [s[0]] + s[1..];
      InsertByText(s[0], SortByText(s[1..]))
  }

  /** Every point's text is no smaller than the texts after it. */
  predicate TextDescending(s: seq<Point>)
  {
    forall i, j :: 0 <= i < j < |s| ==> Decimal.LexLe(PointText(s[j]), PointText(s[i]))
  }

  lemma {:induction false} InsertByTextDescending(p: Point, s: seq<Point>)
    requires TextDescending(s)
    ensures TextDescending(InsertByText(p, s))
    decreases |s|
  {
    if s == [] {
    } else if FamilySorter(p, s[0]) <= 0 {
      FamilySorterOrder(p, s[0]);
      InsertFrontDescending(p, s);
    } else {
      FamilySorterOrder(p, s[0]);
      Decimal.LexLeTotal(PointText(p), PointText(s[0]));
      InsertByTextDescending(p, s[1..]);
      InsertLaterDescending(p, s);
    }
  }

  lemma InsertFrontDescending(p: Point, s: seq<Point>)
    requires TextDescending(s) && s != [] && Decimal.LexLe(PointText(s[0]), PointText(p))
    ensures TextDescending([p] + s)
  {
    var res := [p] + s;
    forall i, j | 0 <= i < j < |res|
      ensures Decimal.LexLe(PointText(res[j]), PointText(res[i]))
    {
      if i == 0 && j > 1 {
        assert res[j] == s[j - 1];
        Decimal.LexLeTransitive(PointText(s[j - 1]), PointText(s[0]), PointText(p));
      }
    }
  }

  lemma InsertLaterDescending(p: Point, s: seq<Point>)
    requires TextDescending(s) && s != [] && Decimal.LexLe(PointText(p), PointText(s[0]))
    requires TextDescending(InsertByText(p, s[1..]))
    ensures TextDescending([s[0]] + InsertByText(p, s[1..]))
  {
    var tail := InsertByText(p, s[1..]);
    forall k | 0 <= k < |tail|
      ensures Decimal.LexLe(PointText(tail[k]), PointText(s[0]))
    {
      InsertByTextFrom(p, s[1..], k);
      if tail[k] != p {
        var m :| 0 <= m < |s[1..]| && s[1..][m] == tail[k];
        assert s[m + 1] == tail[k];
      }
    }
    ConsDescending(s[0], tail);
  }

  lemma InsertByTextFrom(p: Point, s: seq<Point>, k: nat)
    requires k < |InsertByText(p, s)|
    ensures InsertByText(p, s)[k] == p || InsertByText(p, s)[k] in s
  {
    var res := InsertByText(p, s);
    assert res[k] in multiset(res);
  }

  lemma ConsDescending(a: Point, t: seq<Point>)
    requires TextDescending(t) && forall k :: 0 <= k < |t| ==> Decimal.LexLe(PointText(t[k]), PointText(a))
    ensures TextDescending([a] + t)
  {
    var res := [a] + t;
    forall i, j | 0 <= i < j < |res|
      ensures Decimal.LexLe(PointText(res[j]), PointText(res[i]))
    {
      assert res[j] == t[j - 1];
      if i > 0 {
        assert res[i] == t[i - 1];
      }
    }
  }

  lemma {:induction false} SortByTextDescending(s: seq<Point>)
    ensures TextDescending(SortByText(s))
    decreases |s|
  {
    if s != [] {
      SortByTextDescending(s[1..]);
      InsertByTextDescending(s[0], SortByText(s[1..]));
    }
  }

  // ---------------------------------------------------------------------
  // Finishing a family: its X values go through orderedRemapping, the
  // points are sorted by X (`a[0] - b[0]`, a stable sort) and only the
  // last 22 are kept (`slice(-22)`).

  const MaxPoints: nat := 22

  predicate SortedByX(pts: seq<Point>)
  {
    forall i, j :: 0 <= i < j < |pts| ==> pts[i].x <= pts[j].x
  }

  function InsertByX(p: Point, s: seq<Point>): (res: seq<Point>)
    ensures multiset(res) == multiset(s) + multiset{p}
    ensures |res| == |s| + 1
  {
    if s == [] || p.x <= s[0].x then [p] + s
    else
      assert s == [s[0]] + s[1..];
      [s[0]] + InsertByX(p, s[1..])
  }

  /** A stable sort by X: points with equal X keep their order. */
  function SortByX(s: seq<Point>): (res: seq<Point>)
    ensures multiset(res) == multiset(s)
    ensures |res| == |s|
  {
    if s == [] then []
    else
      assert s == s[..|s| - 1] + [s[|s| - 1]];
      InsertLast(SortByX(s[..|s| - 1]), s[|s| - 1])
  }

  /** Placing p after every point of no greater X. */
  function InsertLast(s: seq<Point>, p: Point): (res: seq<Point>)
    ensures multiset(res) == multiset(s) + multiset{p}
    ensures |res| == |s| + 1
  {
    if s == [] || s[|s| - 1].x <= p.x then s + [p]
    else
      assert s == s[..|s| - 1] + [s[|s| - 1]];
      InsertLast(s[..|s| - 1], p) + [s[|s| - 1]]
  }

  lemma {:induction false} InsertLastSorted(s: seq<Point>, p: Point)
    requires SortedByX(s)
    ensures SortedByX(InsertLast(s, p))
    decreases |s|
  {
    if s != [] && s[|s| - 1].x > p.x {
      var init, last := s[..|s| - 1], s[|s| - 1];
      InsertLastSorted(init, p);
      var r := InsertLast(init, p);
      forall k | 0 <= k < |r| ensures r[k].x <= last.x {
        assert r[k] in multiset(r);
        assert r[k] == p || r[k] in init;
      }
    }
  }

  lemma {:induction false} SortByXSorted(s: seq<Point>)
    ensures SortedByX(SortByX(s))
    decreases |s|
  {
    if s != [] {
      SortByXSorted(s[..|s| - 1]);
      InsertLastSorted(SortByX(s[..|s| - 1]), s[|s| - 1]);
    }
  }

  /** Every X of the family has a rank in orderedRemapping. */
  predicate XsRanked(pts: seq<Point>, ordered: map<nat, nat>)
  {
    forall p :: p in pts ==> p.x in ordered
  }

  /** The points of one family after the remapping loop. */
  function Remapped(pts: seq<Point>, ordered: map<nat, nat>): (res: seq<Point>)
    requires XsRanked(pts, ordered)
    ensures |res| == |pts|
    ensures forall k :: 0 <= k < |pts| ==> res[k] == pts[k].(x := ordered[pts[k].x])
  {
    seq(|pts|, k requires 0 <= k < |pts| => pts[k].(x := ordered[pts[k].x]))
  }

  lemma SortByTextRanked(pts: seq<Point>, ordered: map<nat, nat>)
    requires XsRanked(pts, ordered)
    ensures XsRanked(SortByText(pts), ordered)
  {
    var family := SortByText(pts);
    forall p | p in family ensures p.x in ordered {
      assert p in multiset(pts);
    }
  }

  /** A family after the pre-sort, the remapping and the sort by X. */
  function FamilySorted(pts: seq<Point>, ordered: map<nat, nat>): seq<Point>
    requires XsRanked(pts, ordered)
  {
    SortByTextRanked(pts, ordered);
    SortByX(Remapped(SortByText(pts), ordered))
  }

  /** One family's plot: sorted with dump_family_sorter, remapped, sorted
      by X, and cut to its last 22 points. */
  method FinishFamily(pts: seq<Point>, ordered: map<nat, nat>) returns (plot: seq<Point>)
    requires XsRanked(pts, ordered)
    ensures plot == Tail(FamilySorted(pts, ordered))
  {
    var family := SortByText(pts);
    SortByTextRanked(pts, ordered);
    var remapped := RemapFamily(family, ordered);
    var sorted := SortByX(remapped);
    plot := if |sorted| > MaxPoints then sorted[|sorted| - MaxPoints..] else sorted;
  }

  /** The loop `plots[pi][i][0] = orderedRemapping[plots[pi][i][0]]`. */
  method RemapFamily(family: seq<Point>, ordered: map<nat, nat>) returns (remapped: seq<Point>)
    requires XsRanked(family, ordered)
    ensures remapped == Remapped(family, ordered)
  {
    remapped := family;
    for i := 0 to |family|
      invariant |remapped| == |family|
      invariant forall k :: 0 <= k < i ==> remapped[k] == family[k].(x := ordered[family[k].x])
      invariant forall k :: i <= k < |family| ==> remapped[k] == family[k]
    {
      remapped := remapped[i := remapped[i].(x := ordered[remapped[i].x])];
    }
  }

  /** slice(-22). */
  function Tail(s: seq<Point>): seq<Point>
  {
    if |s| > MaxPoints then s[|s| - MaxPoints..] else s
  }

  /** Points that share an X are in descending text order. */
  predicate TiesDescending(s: seq<Point>)
  {
    forall i, j :: 0 <= i < j < |s| && s[i].x == s[j].x ==> Decimal.LexLe(PointText(s[j]), PointText(s[i]))
  }

  /** A finished family holds at most 22 points, sorted by X, each one a
      remapped point of the family; when points are dropped, none of them
      has a larger X than a point kept. */
  lemma FinishedFamily(pts: seq<Point>, ordered: map<nat, nat>)
    requires XsRanked(pts, ordered)
    ensures var all := FamilySorted(pts, ordered);
      var plot := Tail(all);
      |plot| == (if |pts| > MaxPoints then MaxPoints else |pts|) &&
      SortedByX(plot) &&
      multiset(plot) <= multiset(Remapped(pts, ordered)) &&
      forall i, j :: 0 <= i < |all| - |plot| <= j < |all| ==> all[i].x <= all[j].x
  {
    SortByTextRanked(pts, ordered);
    var family := SortByText(pts);
    var remapped := Remapped(family, ordered);
    SortByXSorted(remapped);
    TailOfSorted(SortByX(remapped));
    RemappedPermutes(family, pts, ordered);
  }

  /** As no two X values share a rank, points of a finished family that
      share an X keep the descending text order of the pre-sort. */
  lemma FinishedFamilyTies(pts: seq<Point>, ordered: map<nat, nat>)
    requires XsRanked(pts, ordered) && RanksDistinct(ordered)
    ensures TiesDescending(Tail(FamilySorted(pts, ordered)))
  {
    SortByTextRanked(pts, ordered);
    var family := SortByText(pts);
    var remapped := Remapped(family, ordered);
    SortByTextDescending(pts);
    RemapKeepsTies(family, ordered);
    SortByXKeepsTies(remapped);
    TailKeepsTies(SortByX(remapped));
  }

  /** slice(-22) of a sequence sorted by X keeps its last points. */
  lemma TailOfSorted(all: seq<Point>)
    requires SortedByX(all)
    ensures var plot := Tail(all);
      |plot| == (if |all| > MaxPoints then MaxPoints else |all|) &&
      SortedByX(plot) &&
      multiset(plot) <= multiset(all) &&
      forall i, j :: 0 <= i < |all| - |plot| <= j < |all| ==> all[i].x <= all[j].x
  {
    var plot := Tail(all);
    if |all| > MaxPoints {
      assert all == all[..|all| - MaxPoints] + plot;
      assert multiset(all) == multiset(all[..|all| - MaxPoints]) + multiset(plot);
    }
  }

  /** Remapping two permutations of a family gives two permutations. */
  lemma {:induction false} RemappedPermutes(s: seq<Point>, t: seq<Point>, ordered: map<nat, nat>)
    requires multiset(s) == multiset(t)
    requires XsRanked(s, ordered) && XsRanked(t, ordered)
    ensures multiset(Remapped(s, ordered)) == multiset(Remapped(t, ordered))
    decreases |s|
  {
    if s != [] {
      var x, rest := s[0], s[1..];
      assert x in multiset(t);
      var i :| 0 <= i < |t| && t[i] == x;
      var pre, post := t[..i], t[i + 1..];
      assert t == pre + [x] + post;
      assert s == [x] + rest;
      RemoveOne(x, rest, pre, post);
      RemappedPieces(x, rest, pre, post, ordered);
      RemappedPermutes(rest, pre + post, ordered);
      var a, b := Remapped(pre, ordered), Remapped(post, ordered);
      var f := x.(x := ordered[x.x]);
      var ma, mb, mf := multiset(a), multiset(b), multiset{f};
      assert multiset(Remapped(s, ordered)) == mf + (ma + mb) by {
        assert multiset(Remapped(pre + post, ordered)) == multiset(a + b);
      }
      assert multiset(Remapped(t, ordered)) == ma + mf + mb;
      assert mf + (ma + mb) == ma + mf + mb;
    }
  }

  /** The remapped pieces of `[x] + rest` and of `pre + [x] + post`. */
  lemma RemappedPieces(x: Point, rest: seq<Point>, pre: seq<Point>, post: seq<Point>, ordered: map<nat, nat>)
    requires XsRanked([x] + rest, ordered) && XsRanked(pre + [x] + post, ordered)
    ensures XsRanked(rest, ordered) && XsRanked(pre, ordered) && XsRanked(post, ordered)
    ensures x.x in ordered && XsRanked(pre + post, ordered)
    ensures Remapped([x] + rest, ordered) == [x.(x := ordered[x.x])] + Remapped(rest, ordered)
    ensures Remapped(pre + [x] + post, ordered) ==
              Remapped(pre, ordered) + [x.(x := ordered[x.x])] + Remapped(post, ordered)
    ensures Remapped(pre + post, ordered) == Remapped(pre, ordered) + Remapped(post, ordered)
  {
    assert x in [x] + rest;
    forall p | p in rest ensures p.x in ordered {
      assert p in [x] + rest;
    }
    forall p | p in pre || p in post ensures p.x in ordered {
      assert p in pre + [x] + post;
    }
  }

  lemma RemoveOne(x: Point, s: seq<Point>, pre: seq<Point>, post: seq<Point>)
    requires multiset([x] + s) == multiset(pre + [x] + post)
    ensures multiset(s) == multiset(pre + post)
  {
    assert multiset([x] + s) == multiset{x} + multiset(s);
    assert multiset(pre + [x] + post) == multiset{x} + (multiset(pre) + multiset(post));
    assert multiset(pre + post) == multiset(pre) + multiset(post);
    assert multiset(s) == multiset([x] + s) - multiset{x};
  }

  /** Remapping with distinct ranks turns the pre-sort's order into the
      order of the points sharing each new X. */
  lemma RemapKeepsTies(s: seq<Point>, ordered: map<nat, nat>)
    requires forall k :: 0 <= k < |s| ==> s[k].x in ordered
    requires RanksDistinct(ordered) && TextDescending(s)
    ensures TiesDescending(Remapped(s, ordered))
  {
    var r := Remapped(s, ordered);
    forall i, j | 0 <= i < j < |r| && r[i].x == r[j].x
      ensures Decimal.LexLe(PointText(r[j]), PointText(r[i]))
    {
      SameXTexts(s[i], s[j], r[i], r[j]);
    }
  }

  /** Two points with a common X compare as their texts after the X. */
  lemma SameXTexts(a: Point, b: Point, a': Point, b': Point)
    requires a.x == b.x && a'.x == b'.x
    requires RestText(a') == RestText(a) && RestText(b') == RestText(b)
    requires Decimal.LexLe(PointText(b), PointText(a))
    ensures Decimal.LexLe(PointText(b'), PointText(a'))
  {
    Decimal.LexLeCommonPrefix(Decimal.Dec(a.x) + ",", RestText(b), RestText(a));
    Decimal.LexLeCommonPrefix(Decimal.Dec(a'.x) + ",", RestText(b'), RestText(a'));
  }

  /** The stable sort by X keeps the order of points that share an X. */
  lemma {:induction false} SortByXKeepsTies(s: seq<Point>)
    requires TiesDescending(s)
    ensures TiesDescending(SortByX(s))
    decreases |s|
  {
    if s != [] {
      var init, last := s[..|s| - 1], s[|s| - 1];
      assert TiesDescending(init) by {
        forall i, j | 0 <= i < j < |init| && init[i].x == init[j].x
          ensures Decimal.LexLe(PointText(init[j]), PointText(init[i]))
        {
          assert init[i] == s[i] && init[j] == s[j];
        }
      }
      SortByXKeepsTies(init);
      var r := SortByX(init);
      forall k | 0 <= k < |r| && r[k].x == last.x
        ensures Decimal.LexLe(PointText(last), PointText(r[k]))
      {
        assert r[k] in multiset(init);
        var m :| 0 <= m < |init| && init[m] == r[k];
        assert s[m] == r[k];
      }
      InsertLastKeepsTies(r, last);
    }
  }

  lemma TailKeepsTies(all: seq<Point>)
    requires TiesDescending(all)
    ensures TiesDescending(Tail(all))
  {
    if |all| > MaxPoints {
      var plot := Tail(all);
      var d := |all| - MaxPoints;
      forall i, j | 0 <= i < j < |plot| && plot[i].x == plot[j].x
        ensures Decimal.LexLe(PointText(plot[j]), PointText(plot[i]))
      {
        assert plot[i] == all[d + i] && plot[j] == all[d + j];
      }
    }
  }

  lemma {:induction false} InsertLastKeepsTies(r: seq<Point>, p: Point)
    requires TiesDescending(r)
    requires forall k :: 0 <= k < |r| && r[k].x == p.x ==> Decimal.LexLe(PointText(p), PointText(r[k]))
    ensures TiesDescending(InsertLast(r, p))
    decreases |r|
  {
    if r == [] || r[|r| - 1].x <= p.x {
      var res := r + [p];
      forall i, j | 0 <= i < j < |res| && res[i].x == res[j].x
        ensures Decimal.LexLe(PointText(res[j]), PointText(res[i]))
      {
        assert res[i] == r[i];
        if j < |r| {
          assert res[j] == r[j];
        }
      }
    } else {
      var init, last := r[..|r| - 1], r[|r| - 1];
      assert TiesDescending(init) by {
        forall i, j | 0 <= i < j < |init| && init[i].x == init[j].x
          ensures Decimal.LexLe(PointText(init[j]), PointText(init[i]))
        {
          assert init[i] == r[i] && init[j] == r[j];
        }
      }
      InsertLastKeepsTies(init, p);
      var mid := InsertLast(init, p);
      forall k | 0 <= k < |mid| && mid[k].x == last.x
        ensures Decimal.LexLe(PointText(last), PointText(mid[k]))
      {
        assert mid[k] in multiset(init) + multiset{p};
        var m :| 0 <= m < |init| && init[m] == mid[k];
        assert r[m] == mid[k];
      }
      SnocTies(mid, last);
    }
  }

  lemma SnocTies(t: seq<Point>, a: Point)
    requires TiesDescending(t)
    requires forall k :: 0 <= k < |t| && t[k].x == a.x ==> Decimal.LexLe(PointText(a), PointText(t[k]))
    ensures TiesDescending(t + [a])
  {
    var res := t + [a];
    forall i, j | 0 <= i < j < |res| && res[i].x == res[j].x
      ensures Decimal.LexLe(PointText(res[j]), PointText(res[i]))
    {
      assert res[i] == t[i];
      if j < |t| {
        assert res[j] == t[j];
      }
    }
  }

}
