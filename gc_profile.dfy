/**
 * GC-content profile of a nucleotide sequence (gc_profile.py).
 *
 * The windowed GC scan with its high-GC region detector, the clustering of
 * nearby regions into the lines of the region report, the rows of the CSV
 * export with their offset bookkeeping, and the circularisation of a
 * sequence before the scan.
 */
module GcProfile {
  import opened Options
  import opened Text

  // =====================================================================
  // Sequences and GC percentage
  // =====================================================================

  predicate IsNucleotide(c: char) {
    c in "ACGTacgt"
  }

  /** A sequence over A/C/G/T in either case. */
  predicate IsDna(s: string) {
    forall i :: 0 <= i < |s| ==> IsNucleotide(s[i])
  }

  predicate IsGc(c: char) {
    c in "GCgc"
  }

  /** The number of G and C characters in `s`. */
  function GcCount(s: string): (n: nat)
    ensures n <= |s|
  {
    if s == [] then 0 else GcCount(s[..|s| - 1]) + (if IsGc(s[|s| - 1]) then 1 else 0)
  }

  /**
   * `gc_fraction(window) * 100` over A/C/G/T: the percentage of G and C in
   * the window, 0 for an empty window.
   */
  function GcPercent(window: string): (p: real)
    ensures 0.0 <= p <= 100.0
    ensures |window| > 0 ==> p * (|window| as real) == 100.0 * (GcCount(window) as real)
  {
    if |window| == 0 then 0.0
    else
      var n := |window| as real;
      var g := GcCount(window) as real;
      assert g / n <= 1.0;
      100.0 * (g / n)
  }

  lemma {:induction false} GcCountOfUniform(s: string, gc: bool)
    requires forall i :: 0 <= i < |s| ==> IsGc(s[i]) == gc
    ensures GcCount(s) == if gc then |s| else 0
  {
    if s != [] {
      GcCountOfUniform(s[..|s| - 1], gc);
    }
  }

  /** A window made only of G/C scores exactly 100, one made only of A/T exactly 0. */
  lemma GcPercentOfUniform(window: string, gc: bool)
    requires |window| > 0
    requires forall i :: 0 <= i < |window| ==> IsGc(window[i]) == gc
    ensures GcPercent(window) == if gc then 100.0 else 0.0
  {
    GcCountOfUniform(window, gc);
  }

  /** How many starts `range(len(seq) - window_len + 1)` visits. */
  function NumWindows(length: nat, windowLen: nat): nat {
    if windowLen <= length then length - windowLen + 1 else 0
  }

  // =====================================================================
  // High-GC region detection
  // =====================================================================

  /** A half-open `(start, end)` range of window starts. */
  type Region = (int, int)

  /** The detector's state: the start of the region still open, and the regions emitted so far. */
  datatype Detector = Detector(open: Option<nat>, regions: seq<Region>)

  /**
   * The region detector of `gc_profile_calc` after the windows `values`:
   * a window at or above the threshold opens a region when none is open, a
   * window below it closes the open region `(start, i)`. A region still open
   * when the windows run out stays open and is never emitted.
   */
  function Detect(values: seq<real>, threshold: real): Detector
  {
    if values == [] then Detector(None, [])
    else
      var i := |values| - 1;
      var d := Detect(values[..i], threshold);
      if d.open.None? && values[i] >= threshold then Detector(Some(i), d.regions)
      else if d.open.Some? && values[i] < threshold then Detector(None, d.regions + [(d.open.value, i)])
      else d
  }

  /** One more window steps the detector by the rule above. */
  lemma DetectSnoc(values: seq<real>, v: real, threshold: real)
    ensures var d := Detect(values, threshold);
      Detect(values + [v], threshold)
      == if d.open.None? && v >= threshold then Detector(Some(|values|), d.regions)
         else if d.open.Some? && v < threshold then Detector(None, d.regions + [(d.open.value, |values|)])
         else d
  {
    assert (values + [v])[..|values|] == values;
  }

  /** The regions `gc_profile_calc` reports for a series of GC values. */
  function HighGcRegions(values: seq<real>, threshold: real): seq<Region> {
    Detect(values, threshold).regions
  }

  /**
   * `[s, e)` is a maximal run of windows at or above the threshold that is
   * closed by window `e` falling below it.
   */
  ghost predicate ClosedRun(values: seq<real>, threshold: real, s: int, e: int) {
    && 0 <= s < e < |values|
    && (forall k :: s <= k < e ==> values[k] >= threshold)
    && values[e] < threshold
    && (s == 0 || values[s - 1] < threshold)
  }

  /**
   * What the detector's open region says after `values`: none is open when
   * the last window is below the threshold, otherwise one is open from the
   * start of the final run of windows at or above it.
   */
  ghost predicate OpenAtEnd(values: seq<real>, threshold: real, open: Option<nat>) {
    match open
    case None => values == [] || values[|values| - 1] < threshold
    case Some(s) =>
      && s < |values|
      && (forall k :: s <= k < |values| ==> values[k] >= threshold)
      && (s == 0 || values[s - 1] < threshold)
  }

  /** Two runs at or above the threshold that both reach window `i - 1` and are both maximal on the left start at the same window. */
  lemma MaximalStartUnique(values: seq<real>, threshold: real, s: nat, s0: nat, i: nat)
    requires s < i && s0 < i && i <= |values|
    requires forall k :: s <= k < i ==> values[k] >= threshold
    requires forall k :: s0 <= k < i ==> values[k] >= threshold
    requires s == 0 || values[s - 1] < threshold
    requires s0 == 0 || values[s0 - 1] < threshold
    ensures s == s0
  {
  }

  lemma ClosedRunOfPrefix(values: seq<real>, threshold: real, s: int, e: int)
    requires values != []
    ensures ClosedRun(values[..|values| - 1], threshold, s, e)
        <==> ClosedRun(values, threshold, s, e) && e < |values| - 1
  {
  }

  lemma {:induction false} DetectOpen(values: seq<real>, threshold: real)
    ensures OpenAtEnd(values, threshold, Detect(values, threshold).open)
  {
    if values != [] {
      DetectOpen(values[..|values| - 1], threshold);
    }
  }

  /** The detector has emitted exactly the closed runs of `values`. */
  lemma {:induction false} DetectMembers(values: seq<real>, threshold: real, s: int, e: int)
    ensures (s, e) in Detect(values, threshold).regions <==> ClosedRun(values, threshold, s, e)
  {
    if values != [] {
      var i := |values| - 1;
      var prefix := values[..i];
      var d := Detect(prefix, threshold);
      DetectMembers(prefix, threshold, s, e);
      ClosedRunOfPrefix(values, threshold, s, e);
      DetectOpen(prefix, threshold);
      if d.open.Some? && values[i] < threshold && ClosedRun(values, threshold, s, e) && e == i {
        MaximalStartUnique(values, threshold, s, d.open.value, i);
      }
    }
  }

  /** Regions are non-empty, ascending and separated by at least one window below the threshold. */
  ghost predicate StrictlySeparated(rs: seq<Region>) {
    && (forall j :: 0 <= j < |rs| ==> rs[j].0 < rs[j].1)
    && (forall j :: 0 <= j < |rs| - 1 ==> rs[j].1 < rs[j + 1].0)
  }

  /** Every region ends before `bound`. */
  ghost predicate EndsBefore(rs: seq<Region>, bound: int) {
    forall j :: 0 <= j < |rs| ==> 0 <= rs[j].0 && rs[j].1 < bound
  }

  lemma {:induction false} DetectOrdered(values: seq<real>, threshold: real)
    ensures var d := Detect(values, threshold);
      && StrictlySeparated(d.regions)
      && EndsBefore(d.regions, if d.open.Some? then d.open.value else |values|)
  {
    if values != [] {
      var i := |values| - 1;
      DetectOrdered(values[..i], threshold);
      DetectOpen(values[..i], threshold);
    }
  }

  /** `(s, e)` is reported exactly when `[s, e)` is a maximal high-GC run closed by a window below the threshold. */
  lemma HighGcRegionsExact(values: seq<real>, threshold: real, s: int, e: int)
    ensures (s, e) in HighGcRegions(values, threshold) <==> ClosedRun(values, threshold, s, e)
  {
    DetectMembers(values, threshold, s, e);
  }

  /** Reported regions are non-empty, in increasing order, strictly separated, and end inside the series. */
  lemma HighGcRegionsOrdered(values: seq<real>, threshold: real)
    ensures StrictlySeparated(HighGcRegions(values, threshold))
    ensures EndsBefore(HighGcRegions(values, threshold), |values|)
  {
    DetectOrdered(values, threshold);
    DetectOpen(values, threshold);
  }

  /** A run that is still at or above the threshold at the last window is dropped. */
  lemma OpenRunDropped(values: seq<real>, threshold: real, s: int, e: int)
    requires 0 <= s < |values|
    requires forall k :: s <= k < |values| ==> values[k] >= threshold
    ensures (s, e) !in HighGcRegions(values, threshold)
  {
    HighGcRegionsExact(values, threshold, s, e);
  }

  /** No window reaching the threshold means no region. */
  lemma {:induction false} NoRegionWhenAllBelow(values: seq<real>, threshold: real)
    requires forall k :: 0 <= k < |values| ==> values[k] < threshold
    ensures Detect(values, threshold) == Detector(None, [])
    ensures HighGcRegions(values, threshold) == []
  {
    if values != [] {
      var i := |values| - 1;
      NoRegionWhenAllBelow(values[..i], threshold);
    }
  }

  /** `values[k]` is the GC percentage of the window starting at `k`, for every `k`. */
  ghost predicate WindowValues(sequence: string, windowLen: nat, values: seq<real>) {
    forall k :: 0 <= k < |values| ==> k + windowLen <= |sequence| && values[k] == GcPercent(sequence[k..k + windowLen])
  }

  /** The next window's percentage extends the series. */
  lemma WindowValuesSnoc(sequence: string, windowLen: nat, values: seq<real>)
    requires WindowValues(sequence, windowLen, values)
    requires |values| + windowLen <= |sequence|
    ensures WindowValues(sequence, windowLen, values + [GcPercent(sequence[|values|..|values| + windowLen])])
  {
    var next := values + [GcPercent(sequence[|values|..|values| + windowLen])];
    assert forall k :: 0 <= k < |values| ==> next[k] == values[k];
  }

  /**
   * `gc_profile_calc`: one GC percentage per window start, in start order,
   * and the high-GC regions found on the way. A window longer than the
   * sequence gives no windows and no regions.
   */
  method GcProfileCalc(sequence: string, windowLen: nat, threshold: real)
    returns (gcValues: seq<real>, highGcRegions: seq<Region>)
    requires IsDna(sequence)
    ensures |gcValues| == NumWindows(|sequence|, windowLen)
    ensures forall k :: 0 <= k < |gcValues| ==>
      k + windowLen <= |sequence| && gcValues[k] == GcPercent(sequence[k..k + windowLen])
    ensures highGcRegions == HighGcRegions(gcValues, threshold)
  {
    gcValues := [];
    highGcRegions := [];
    var regionStart: Option<nat> := None;
    var regionEnd: Option<nat> := None;
    for i := 0 to NumWindows(|sequence|, windowLen)
      invariant |gcValues| == i
      invariant WindowValues(sequence, windowLen, gcValues)
      invariant regionStart.Some? ==> regionEnd.None?
      invariant Detect(gcValues, threshold) == Detector(regionStart, highGcRegions)
    {
      var subseq := sequence[i..i + windowLen];
      var gcPercSubseq := GcPercent(subseq);
      DetectSnoc(gcValues, gcPercSubseq, threshold);
      WindowValuesSnoc(sequence, windowLen, gcValues);
      gcValues := gcValues + [gcPercSubseq];
      if regionStart.None? && gcPercSubseq >= threshold {
        regionStart := Some(i);
        regionEnd := None;
      }
      if regionEnd.None? && regionStart.Some? && gcPercSubseq < threshold {
        regionEnd := Some(i);
        highGcRegions := highGcRegions + [(regionStart.value, i)];
        regionStart := None;
      }
    }
  }

  // =====================================================================
  // Clustering of high-GC regions
  // =====================================================================

  /** Regions at most this far apart are merged. */
  const MergeGap: int := 100

  /** The first line of the region report. */
  const ClusterHeader: string := "start, end\n"

  /** One line of the region report: `f"{start}, {end}\n"`. */
  function RegionLine(r: Region): string {
    IntToString(r.0) + ", " + IntToString(r.1) + "\n"
  }

  /** The region report for a list of clusters: the header, then one line per cluster. */
  function ReportLines(rs: seq<Region>): (lines: seq<string>)
    ensures |lines| == |rs| + 1 && lines[0] == ClusterHeader
  {
    if rs == [] then [ClusterHeader] else ReportLines(rs[..|rs| - 1]) + [RegionLine(rs[|rs| - 1])]
  }

  /** Line `j + 1` of the report describes cluster `j`. */
  lemma {:induction false} ReportLinesAt(rs: seq<Region>, j: nat)
    requires j < |rs|
    ensures ReportLines(rs)[j + 1] == RegionLine(rs[j])
  {
    if j < |rs| - 1 {
      ReportLinesAt(rs[..|rs| - 1], j);
    }
  }

  /** Writing one more cluster appends its line to the report. */
  lemma ReportLinesAppend(rs: seq<Region>, r: Region)
    ensures ReportLines(rs + [r]) == ReportLines(rs) + [RegionLine(r)]
  {
    assert (rs + [r])[..|rs|] == rs;
  }

  /** Reads a report line back into its region. */
  function ParseRegionLine(line: string): Option<Region> {
    if |line| == 0 || line[|line| - 1] != '\n' then None
    else
      var fields := SplitOn(line[..|line| - 1], ',');
      if |fields| != 2 || |fields[1]| == 0 || fields[1][0] != ' ' then None
      else
        match (ParseInt(fields[0]), ParseInt(fields[1][1..]))
        case (Some(s), Some(e)) => Some((s, e))
        case _ => None
  }

  /** Every report line reads back as the region it was written from. */
  lemma RegionLineParses(r: Region)
    ensures ParseRegionLine(RegionLine(r)) == Some(r)
  {
    var a, b := IntToString(r.0), IntToString(r.1);
    var line := RegionLine(r);
    assert line[..|line| - 1] == Join([','], [a, " " + b]);
    assert ',' !in a;
    assert ',' !in " " + b by {
      assert forall k :: 0 <= k < |" " + b| ==> (" " + b)[k] != ',';
    }
    SplitOfJoin([a, " " + b], ',');
    assert (" " + b)[1..] == b;
    IntToStringParses(r.0);
    IntToStringParses(r.1);
  }

  /**
   * The clusters `cluster_high_gc_regions` emits while it visits regions
   * `i ..` with accumulator `cur`: a region at most `MergeGap` past the
   * accumulator's end extends it, any other region first emits the
   * accumulator and then replaces it; and whenever the visited region is
   * equal to the list's last element the accumulator is emitted as well.
   */
  function ClusterFold(rs: seq<Region>, i: nat, cur: Region): seq<Region>
    requires 1 <= i <= |rs|
    decreases |rs| - i
  {
    if i == |rs| then []
    else ClusterEmit(rs, i, cur) + ClusterFold(rs, i + 1, ClusterNext(rs, i, cur))
  }

  /** The accumulator after visiting `rs[i]`. */
  function ClusterNext(rs: seq<Region>, i: nat, cur: Region): Region
    requires i < |rs|
  {
    if rs[i].0 - cur.1 <= MergeGap then (cur.0, rs[i].1) else rs[i]
  }

  /** The clusters emitted while visiting `rs[i]`. */
  function ClusterEmit(rs: seq<Region>, i: nat, cur: Region): seq<Region>
    requires i < |rs|
  {
    (if rs[i].0 - cur.1 <= MergeGap then [] else [cur])
    + (if rs[i] == rs[|rs| - 1] then [ClusterNext(rs, i, cur)] else [])
  }

  /**
   * The clusters of `rs`, or `None` when indexing the first region of an
   * empty list raises. A single region yields no cluster at all.
   */
  function Clusters(rs: seq<Region>): (r: Option<seq<Region>>)
    ensures r.None? <==> |rs| == 0
    ensures |rs| == 1 ==> r == Some([])
  {
    if |rs| == 0 then None else Some(ClusterFold(rs, 1, rs[0]))
  }

  /**
   * The usual greedy merge of near intervals, the reference for
   * clustering: it always emits the final accumulator.
   */
  function MergeFrom(rs: seq<Region>, i: nat, cur: Region): (out: seq<Region>)
    requires i <= |rs|
    ensures |out| >= 1 && out[0].0 == cur.0
    decreases |rs| - i
  {
    if i == |rs| then [cur]
    else if rs[i].0 - cur.1 <= MergeGap then MergeFrom(rs, i + 1, (cur.0, rs[i].1))
    else [cur] + MergeFrom(rs, i + 1, rs[i])
  }

  lemma {:induction false} FoldIsMerge(rs: seq<Region>, i: nat, cur: Region)
    requires 1 <= i < |rs|
    requires forall j :: i <= j < |rs| - 1 ==> rs[j] != rs[|rs| - 1]
    ensures ClusterFold(rs, i, cur) == MergeFrom(rs, i, cur)
    decreases |rs| - i
  {
    var next := ClusterNext(rs, i, cur);
    var merged := if rs[i].0 - cur.1 <= MergeGap then [] else [cur];
    assert ClusterFold(rs, i, cur) == ClusterEmit(rs, i, cur) + ClusterFold(rs, i + 1, next);
    if i < |rs| - 1 {
      assert ClusterEmit(rs, i, cur) == merged + [];
      FoldIsMerge(rs, i + 1, next);
    } else {
      assert ClusterFold(rs, i + 1, next) == [];
      assert ClusterEmit(rs, i, cur) == merged + [next];
      assert MergeFrom(rs, i + 1, next) == [next];
    }
    assert MergeFrom(rs, i, cur) == merged + MergeFrom(rs, i + 1, next);
  }

  /**
   * When the last region is not repeated earlier in the list, clustering a
   * list of two or more regions is the greedy merge: the final accumulator
   * is emitted exactly once.
   */
  lemma ClustersAreMerge(rs: seq<Region>)
    requires |rs| >= 2
    requires forall j :: 1 <= j < |rs| - 1 ==> rs[j] != rs[|rs| - 1]
    ensures Clusters(rs) == Some(MergeFrom(rs, 1, rs[0]))
  {
    FoldIsMerge(rs, 1, rs[0]);
  }

  /** Regions are non-empty and sorted without overlap. */
  ghost predicate Ordered(rs: seq<Region>) {
    && (forall j :: 0 <= j < |rs| ==> rs[j].0 < rs[j].1)
    && (forall j :: 0 <= j < |rs| - 1 ==> rs[j].1 <= rs[j + 1].0)
  }

  /** Clusters are non-empty and more than `MergeGap` apart. */
  ghost predicate Spaced(cs: seq<Region>) {
    && (forall j :: 0 <= j < |cs| ==> cs[j].0 < cs[j].1)
    && (forall j :: 0 <= j < |cs| - 1 ==> cs[j + 1].0 - cs[j].1 > MergeGap)
  }

  ghost predicate Inside(r: Region, c: Region) {
    c.0 <= r.0 && r.1 <= c.1
  }

  lemma {:induction false} OrderedChain(rs: seq<Region>, j: int, k: int)
    requires Ordered(rs)
    requires 0 <= j < k < |rs|
    ensures rs[j].1 <= rs[k].0
    decreases k - j
  {
    if j + 1 < k {
      OrderedChain(rs, j + 1, k);
    }
  }

  lemma {:induction false} SpacedChain(cs: seq<Region>, j: int, k: int)
    requires Spaced(cs)
    requires 0 <= j < k < |cs|
    ensures cs[j].1 < cs[k].0
    decreases k - j
  {
    if j + 1 < k {
      SpacedChain(cs, j + 1, k);
    }
  }

  lemma {:induction false} MergeProperties(rs: seq<Region>, i: nat, cur: Region)
    requires Ordered(rs)
    requires i <= |rs|
    requires cur.0 < cur.1
    requires i < |rs| ==> cur.1 <= rs[i].0
    ensures var out := MergeFrom(rs, i, cur);
      && Spaced(out)
      && out[0].1 >= cur.1
      && forall k :: i <= k < |rs| ==> exists c :: 0 <= c < |out| && Inside(rs[k], out[c])
    decreases |rs| - i
  {
    if i < |rs| {
      var out := MergeFrom(rs, i, cur);
      if rs[i].0 - cur.1 <= MergeGap {
        var next := (cur.0, rs[i].1);
        MergeProperties(rs, i + 1, next);
        assert Inside(rs[i], out[0]);
      } else {
        var rest := MergeFrom(rs, i + 1, rs[i]);
        MergeProperties(rs, i + 1, rs[i]);
        assert out == [cur] + rest;
        assert Inside(rs[i], out[1]);
        forall k | i + 1 <= k < |rs|
          ensures exists c :: 0 <= c < |out| && Inside(rs[k], out[c])
        {
          var c :| 0 <= c < |rest| && Inside(rs[k], rest[c]);
          assert out[c + 1] == rest[c];
        }
      }
    }
  }

  /**
   * Clustering two or more sorted, non-overlapping regions yields clusters
   * in increasing order that are more than `MergeGap` apart, and each input
   * region lies inside exactly one of them.
   */
  lemma ClusterProperties(rs: seq<Region>)
    requires |rs| >= 2
    requires Ordered(rs)
    ensures Clusters(rs).Some?
    ensures Spaced(Clusters(rs).value)
    ensures var out := Clusters(rs).value;
      forall k :: 0 <= k < |rs| ==>
        exists c :: 0 <= c < |out| && Inside(rs[k], out[c])
                    && forall c' :: 0 <= c' < |out| && Inside(rs[k], out[c']) ==> c' == c
  {
    forall j | 1 <= j < |rs| - 1
      ensures rs[j] != rs[|rs| - 1]
    {
      OrderedChain(rs, j, |rs| - 1);
    }
    ClustersAreMerge(rs);
    var out := MergeFrom(rs, 1, rs[0]);
    OrderedChain(rs, 0, 1);
    MergeProperties(rs, 1, rs[0]);
    forall k | 0 <= k < |rs|
      ensures exists c :: 0 <= c < |out| && Inside(rs[k], out[c])
                          && forall c' :: 0 <= c' < |out| && Inside(rs[k], out[c']) ==> c' == c
    {
      var c: int;
      if k == 0 {
        c := 0;
      } else {
        c :| 0 <= c < |out| && Inside(rs[k], out[c]);
      }
      InsideOnce(out, rs[k], c);
    }
  }

  /** A non-empty region lies inside at most one of a series of spaced clusters. */
  lemma InsideOnce(out: seq<Region>, r: Region, c: int)
    requires Spaced(out) && r.0 < r.1
    requires 0 <= c < |out| && Inside(r, out[c])
    ensures forall c' :: 0 <= c' < |out| && Inside(r, out[c']) ==> c' == c
  {
    forall c' | 0 <= c' < |out| && Inside(r, out[c'])
      ensures c' == c
    {
      if c < c' {
        SpacedChain(out, c, c');
      } else if c' < c {
        SpacedChain(out, c', c);
      }
    }
  }

  /** The detector's regions satisfy the clustering's precondition. */
  lemma DetectedRegionsOrdered(values: seq<real>, threshold: real)
    ensures Ordered(HighGcRegions(values, threshold))
  {
    HighGcRegionsOrdered(values, threshold);
  }

  /** Records cluster `c` and writes its line to the report. */
  method EmitCluster(clusters: seq<Region>, lines: seq<string>, c: Region)
    returns (clusters': seq<Region>, lines': seq<string>)
    requires lines == ReportLines(clusters)
    ensures clusters' == clusters + [c]
    ensures lines' == ReportLines(clusters') && lines' == lines + [RegionLine(c)]
  {
    ReportLinesAppend(clusters, c);
    clusters' := clusters + [c];
    lines' := lines + [RegionLine(c)];
  }

  /**
   * One pass of the clustering loop: `region` is merged into the
   * accumulator or closes it, and the accumulator is also emitted when
   * `region` equals the list's last element.
   */
  method VisitRegion(highGcRegions: seq<Region>, i: nat, currentRegion: Region,
                     clusters: seq<Region>, lines: seq<string>)
    returns (currentRegion': Region, clusters': seq<Region>, lines': seq<string>)
    requires i < |highGcRegions|
    requires lines == ReportLines(clusters)
    ensures currentRegion' == ClusterNext(highGcRegions, i, currentRegion)
    ensures clusters' == clusters + ClusterEmit(highGcRegions, i, currentRegion)
    ensures lines' == ReportLines(clusters')
  {
    var region := highGcRegions[i];
    currentRegion', clusters', lines' := currentRegion, clusters, lines;
    if region.0 - currentRegion'.1 <= MergeGap {
      currentRegion' := (currentRegion'.0, region.1);
    } else if region.0 - currentRegion'.1 > MergeGap {
      clusters', lines' := EmitCluster(clusters', lines', currentRegion');
      currentRegion' := region;
    }
    if region == highGcRegions[|highGcRegions| - 1] {
      clusters', lines' := EmitCluster(clusters', lines', currentRegion');
    }
  }

  /** One step of the clustering loop, with the clusters emitted so far in front. */
  lemma ClusterFoldStep(rs: seq<Region>, i: nat, cur: Region, before: seq<Region>)
    requires 1 <= i < |rs|
    ensures before + ClusterFold(rs, i, cur)
            == (before + ClusterEmit(rs, i, cur)) + ClusterFold(rs, i + 1, ClusterNext(rs, i, cur))
  {
    var e := ClusterEmit(rs, i, cur);
    var f := ClusterFold(rs, i + 1, ClusterNext(rs, i, cur));
    assert (before + e) + f == before + (e + f);
  }

  /**
   * `cluster_high_gc_regions`: the clusters and the lines written to the
   * region report. The header is written before the first region is read,
   * so an empty list leaves a report holding the header alone and the call
   * fails (`ok` false).
   */
  method ClusterHighGcRegions(highGcRegions: seq<Region>)
    returns (ok: bool, clusters: seq<Region>, lines: seq<string>)
    ensures Clusters(highGcRegions) == if ok then Some(clusters) else None
    ensures !ok ==> clusters == []
    ensures lines == ReportLines(clusters)
  {
    lines := [ClusterHeader];
    clusters := [];
    if |highGcRegions| == 0 {
      ok := false;
      return;
    }
    ok := true;
    var currentRegion := highGcRegions[0];
    ghost var target := ClusterFold(highGcRegions, 1, currentRegion);
    for i := 1 to |highGcRegions|
      invariant clusters + ClusterFold(highGcRegions, i, currentRegion) == target
      invariant lines == ReportLines(clusters)
    {
      ClusterFoldStep(highGcRegions, i, currentRegion, clusters);
      currentRegion, clusters, lines := VisitRegion(highGcRegions, i, currentRegion, clusters, lines);
    }
    assert ClusterFold(highGcRegions, |highGcRegions|, currentRegion) == [];
    assert clusters + [] == clusters;
  }

  // =====================================================================
  // CSV export rows
  // =====================================================================

  /** One row of the GC-values CSV; the GC value is kept unrounded. */
  datatype CsvRow = CsvRow(
    subSequence: string,
    targetStart: nat,
    offset: int,
    strand: string,
    windowLength: nat,
    gcPercent: real)

  const CsvHeader: seq<string> :=
    ["sub_sequence", "target_start", "offset", "strand", "window_length", "GC_%"]

  /** Python's `s[lo:hi]` for non-negative bounds, which clamps at the end of `s`. */
  function PySlice(s: string, lo: nat, hi: nat): (r: string)
    ensures |r| == if lo < hi && lo < |s| then (if hi < |s| then hi else |s|) - lo else 0
    ensures |r| == 0 || (lo + |r| <= |s| && r == s[lo..lo + |r|])
  {
    if lo < hi && lo < |s| then s[lo..if hi < |s| then hi else |s|] else []
  }

  /**
   * The offset written in row `k` when the first row starts from
   * `offset0`: each row's offset is the previous row's plus one, and for a
   * circular sequence an offset above `limit` (`len(seq) - window_len`) is
   * reset to 0 before the row is written.
   */
  function OffsetAt(offset0: int, k: nat, limit: int, circular: bool): int {
    var candidate := if k == 0 then offset0 else OffsetAt(offset0, k - 1, limit, circular) + 1;
    if circular && candidate > limit then 0 else candidate
  }

  /** Without circularity the offset simply counts up from `offset0`. */
  lemma {:induction false} OffsetLinear(offset0: int, k: nat, limit: int)
    ensures OffsetAt(offset0, k, limit, false) == offset0 + k
  {
    if k > 0 {
      OffsetLinear(offset0, k - 1, limit);
    }
  }

  lemma MulSign(d: int, p: int)
    requires p >= 1
    ensures d >= 1 ==> d * p >= p
    ensures d <= -1 ==> d * p <= -p
  {
  }

  /** The remainder of Euclidean division is the unique `r` with `x == q * p + r` and `0 <= r < p`. */
  lemma ModUnique(x: int, p: int, q: int, r: int)
    requires p >= 1 && 0 <= r < p && x == q * p + r
    ensures x % p == r
  {
    var d := q - x / p;
    assert d * p == x % p - r;
    MulSign(d, p);
  }

  /**
   * With circularity and a start within `0 .. limit`, the offset counts up
   * to `limit` and then cycles through `0 .. limit`.
   */
  lemma {:induction false} OffsetWraps(offset0: int, k: nat, limit: int)
    requires 0 <= offset0 <= limit
    ensures OffsetAt(offset0, k, limit, true) == (offset0 + k) % (limit + 1)
  {
    var period := limit + 1;
    if k == 0 {
      ModUnique(offset0, period, 0, offset0);
    } else {
      OffsetWraps(offset0, k - 1, limit);
      var x := offset0 + k;
      var q, r := (x - 1) / period, (x - 1) % period;
      if r == limit {
        ModUnique(x, period, q + 1, 0);
      } else {
        ModUnique(x, period, q, r + 1);
      }
    }
  }

  /** A start above `limit` is reset at once, so the rows count from 0. */
  lemma {:induction false} OffsetResetAtStart(offset0: int, k: nat, limit: int)
    requires 0 <= limit < offset0
    ensures OffsetAt(offset0, k, limit, true) == OffsetAt(0, k, limit, true)
  {
    if k > 0 {
      OffsetResetAtStart(offset0, k - 1, limit);
    }
  }

  /** For a circular sequence and a non-negative start every written offset lies in `0 .. limit`. */
  lemma OffsetInRange(offset0: int, k: nat, limit: int)
    requires 0 <= limit && 0 <= offset0
    ensures 0 <= OffsetAt(offset0, k, limit, true) <= limit
  {
    if offset0 > limit {
      OffsetResetAtStart(offset0, k, limit);
      OffsetWraps(0, k, limit);
    } else {
      OffsetWraps(offset0, k, limit);
    }
  }

  /** Row `k` of the CSV for the given arguments of `create_csv_file`. */
  function RowAt(sequence: string, gcValues: seq<real>, windowLen: nat, strand: string,
                 offset: int, circular: bool, k: nat): CsvRow
    requires k < |gcValues|
  {
    CsvRow(PySlice(sequence, k, k + windowLen), k,
           OffsetAt(offset, k, |sequence| - windowLen, circular),
           strand, windowLen, gcValues[k])
  }

  /**
   * The rows `create_csv_file` writes under its header: one per GC value,
   * with the window's subsequence, its start, the running offset, the
   * strand and the window length.
   */
  method CreateCsvRows(sequence: string, gcValues: seq<real>, windowLen: nat, strand: string,
                       offset: int, circular: bool)
    returns (header: seq<string>, rows: seq<CsvRow>)
    ensures header == CsvHeader
    ensures |rows| == |gcValues|
    ensures forall k :: 0 <= k < |rows| ==>
      rows[k] == RowAt(sequence, gcValues, windowLen, strand, offset, circular, k)
  {
    header := CsvHeader;
    rows := [];
    var limit := |sequence| - windowLen;
    var targetStart := 0;
    var off := offset;
    for k := 0 to |gcValues|
      invariant targetStart == k
      invariant off == if k == 0 then offset else OffsetAt(offset, k - 1, limit, circular) + 1
      invariant |rows| == k
      invariant forall j :: 0 <= j < k ==>
        rows[j] == RowAt(sequence, gcValues, windowLen, strand, offset, circular, j)
    {
      if circular && off > limit {
        off := 0;
      }
      var row := CsvRow(PySlice(sequence, targetStart, targetStart + windowLen), targetStart,
                        off, strand, windowLen, gcValues[k]);
      targetStart := targetStart + 1;
      off := off + 1;
      rows := rows + [row];
    }
  }

  // =====================================================================
  // Circularisation and the per-sequence run
  // =====================================================================

  /** `seq += seq[0:window_len]`: the first window's characters appended to the end. */
  function Circularize(sequence: string, windowLen: nat): (r: string)
    ensures |r| == |sequence| + (if windowLen < |sequence| then windowLen else |sequence|)
    ensures r[..|sequence|] == sequence
  {
    sequence + PySlice(sequence, 0, windowLen)
  }

  /**
   * A circularised sequence of length L has L + 1 windows; the last one
   * repeats the first, and every position reads the original sequence
   * modulo L.
   */
  lemma CircularizedWindows(sequence: string, windowLen: nat)
    requires 1 <= windowLen <= |sequence|
    ensures NumWindows(|Circularize(sequence, windowLen)|, windowLen) == |sequence| + 1
    ensures Circularize(sequence, windowLen)[|sequence|..|sequence| + windowLen] == sequence[..windowLen]
    ensures forall i :: 0 <= i < |Circularize(sequence, windowLen)| ==>
      Circularize(sequence, windowLen)[i] == sequence[i % |sequence|]
  {
    var c := Circularize(sequence, windowLen);
    var n := |sequence|;
    forall i | 0 <= i < |c|
      ensures c[i] == sequence[i % n]
    {
      if i < n {
        ModUnique(i, n, 0, i);
      } else {
        ModUnique(i, n, 1, i - n);
        assert c[i] == PySlice(sequence, 0, windowLen)[i - n];
      }
    }
  }

  lemma CircularizeKeepsDna(sequence: string, windowLen: nat)
    requires IsDna(sequence)
    ensures IsDna(Circularize(sequence, windowLen))
  {
  }

  /** Row k of the CSV carries window k of the scanned sequence and its GC value. */
  lemma RowsReadWindows(sequence: string, gcValues: seq<real>, windowLen: nat, strand: string,
                        offset: int, circular: bool, rows: seq<CsvRow>)
    requires |gcValues| == NumWindows(|sequence|, windowLen) == |rows|
    requires forall k :: 0 <= k < |rows| ==>
      rows[k] == RowAt(sequence, gcValues, windowLen, strand, offset, circular, k)
    ensures forall k :: 0 <= k < |rows| ==>
      k + windowLen <= |sequence| && rows[k].subSequence == sequence[k..k + windowLen] && rows[k].gcPercent == gcValues[k]
  {
    forall k | 0 <= k < |rows|
      ensures k + windowLen <= |sequence| && rows[k].subSequence == sequence[k..k + windowLen] && rows[k].gcPercent == gcValues[k]
    {
      assert rows[k] == RowAt(sequence, gcValues, windowLen, strand, offset, circular, k);
    }
  }

  /** With wrap-around and a non-negative start offset, every row's offset lies in `[0, len(seq) - window_len]`. */
  lemma RowsOffsetsInRange(sequence: string, gcValues: seq<real>, windowLen: nat, strand: string,
                           offset: int, rows: seq<CsvRow>)
    requires 0 <= offset && windowLen <= |sequence| && |rows| <= |gcValues|
    requires forall k :: 0 <= k < |rows| ==>
      rows[k] == RowAt(sequence, gcValues, windowLen, strand, offset, true, k)
    ensures forall k :: 0 <= k < |rows| ==> 0 <= rows[k].offset <= |sequence| - windowLen
  {
    forall k | 0 <= k < |rows|
      ensures 0 <= rows[k].offset <= |sequence| - windowLen
    {
      assert rows[k] == RowAt(sequence, gcValues, windowLen, strand, offset, true, k);
      OffsetInRange(offset, k, |sequence| - windowLen);
    }
  }

  /**
   * The body of `final_gc_profile_run_command` for one sequence:
   * circularise if asked, scan, build the CSV rows and cluster the regions.
   */
  method AnalyzeSequence(sequence: string, strand: string, windowLen: nat, threshold: real,
                         circular: bool, offset: int)
    returns (analyzed: string, gcValues: seq<real>, rows: seq<CsvRow>,
             clusterOk: bool, clusterLines: seq<string>)
    requires IsDna(sequence)
    ensures analyzed == if circular then Circularize(sequence, windowLen) else sequence
    ensures |gcValues| == |rows| == NumWindows(|analyzed|, windowLen)
    ensures forall k :: 0 <= k < |rows| ==>
      rows[k].subSequence == analyzed[k..k + windowLen] && rows[k].gcPercent == gcValues[k]
      && gcValues[k] == GcPercent(analyzed[k..k + windowLen])
    ensures circular && 1 <= windowLen <= |sequence| ==>
      |rows| == |sequence| + 1
      && (offset >= 0 ==> forall k :: 0 <= k < |rows| ==> 0 <= rows[k].offset <= |sequence|)
    ensures forall k :: 0 <= k < |rows| ==>
      rows[k] == RowAt(analyzed, gcValues, windowLen, strand, offset, circular, k)
    ensures clusterOk <==> HighGcRegions(gcValues, threshold) != []
    ensures clusterLines == ReportLines(if clusterOk then Clusters(HighGcRegions(gcValues, threshold)).value else [])
    ensures |clusterLines| >= 1 && clusterLines[0] == ClusterHeader
  {
    analyzed := sequence;
    if circular {
      var firstWindowSubseq := PySlice(analyzed, 0, windowLen);
      analyzed := analyzed + firstWindowSubseq;
      CircularizeKeepsDna(sequence, windowLen);
    }
    var highGcRegions;
    gcValues, highGcRegions := GcProfileCalc(analyzed, windowLen, threshold);
    var header;
    header, rows := CreateCsvRows(analyzed, gcValues, windowLen, strand, offset, circular);
    var clusters;
    clusterOk, clusters, clusterLines := ClusterHighGcRegions(highGcRegions);
    RowsReadWindows(analyzed, gcValues, windowLen, strand, offset, circular, rows);
    if circular && 1 <= windowLen <= |sequence| {
      CircularizedWindows(sequence, windowLen);
      if offset >= 0 {
        RowsOffsetsInRange(analyzed, gcValues, windowLen, strand, offset, rows);
      }
    }
  }
}
