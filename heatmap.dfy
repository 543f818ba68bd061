/**
 * The pre-processing rules of the heatmap generator: which directory
 * entries are read, the one-target-file rule, the transposition of the
 * ΔG columns into rows, the per-CSV fold that collects ΔG values and the
 * target range, the probe lengths and the R column names.
 */
module Heatmap {
  import opened Options
  import opened Text
  import opened NaturalSort

  // =====================================================================
  // File names (`pathlib.Path(name).suffix` / `.stem`)
  // =====================================================================

  /** `s.rfind(c)`: the last position holding `c`, if any. */
  function RFind(s: string, c: char): (r: Option<nat>)
    ensures r.Some? ==> r.value < |s| && s[r.value] == c
    ensures r.Some? ==> forall k :: r.value < k < |s| ==> s[k] != c
    ensures r.None? ==> forall k :: 0 <= k < |s| ==> s[k] != c
  {
    if s == [] then None
    else if s[|s| - 1] == c then Some(|s| - 1)
    else RFind(s[..|s| - 1], c)
  }

  /** The position of the last `c` is the one after which no `c` follows. */
  lemma RFindAt(s: string, c: char, i: nat)
    requires i < |s| && s[i] == c
    requires forall k :: i < k < |s| ==> s[k] != c
    ensures RFind(s, c) == Some(i)
  {
    if i < |s| - 1 {
      RFindAt(s[..|s| - 1], c, i);
    }
  }

  /** `PurePath(name).suffix`: from the last dot on, unless that dot is the name's first or last character. */
  function Suffix(name: string): string {
    var i := RFind(name, '.');
    if i.Some? && 0 < i.value < |name| - 1 then name[i.value..] else ""
  }

  /** `PurePath(name).stem`: the name without its suffix. */
  function Stem(name: string): string {
    var i := RFind(name, '.');
    if i.Some? && 0 < i.value < |name| - 1 then name[..i.value] else name
  }

  /** The stem and the suffix make up the name. */
  lemma StemSuffix(name: string)
    ensures Stem(name) + Suffix(name) == name
  {
    var i := RFind(name, '.');
    if i.Some? && 0 < i.value < |name| - 1 {
      assert name[..i.value] + name[i.value..] == name;
    } else {
      assert name + "" == name;
    }
  }

  predicate Hidden(name: string) {
    StartsWith(name, ".")
  }

  /** For a name that is not hidden, the suffix is `.e` exactly when the name ends with `.e`. */
  lemma SuffixMatches(name: string, e: string)
    requires |e| >= 1 && '.' !in e
    requires !Hidden(name)
    ensures Suffix(name) == "." + e <==> EndsWith(name, "." + e)
  {
    var ext := "." + e;
    if EndsWith(name, ext) {
      var p := |name| - |ext|;
      assert name[p..] == ext;
      forall k | p < k < |name|
        ensures name[k] != '.'
      {
        assert name[k] == ext[k - p] == e[k - p - 1];
      }
      assert name[p] == '.';
      assert name[..1] == [name[0]];
      RFindAt(name, '.', p);
    }
  }

  /** A directory entry `find_target_file` reads: not hidden, suffix `.json`, containing `target`. */
  predicate IsTargetFile(name: string) {
    !Hidden(name) && Suffix(name) == ".json" && Contains(name, "target")
  }

  /** A directory entry `prepare_heatmap` reads: not hidden, suffix `.csv`. */
  predicate IsCsvFile(name: string) {
    !Hidden(name) && Suffix(name) == ".csv"
  }

  lemma TargetFileExact(name: string)
    ensures IsTargetFile(name) <==> !Hidden(name) && EndsWith(name, ".json") && Contains(name, "target")
  {
    if !Hidden(name) {
      assert '.' !in "json";
      SuffixMatches(name, "json");
    }
  }

  lemma CsvFileExact(name: string)
    ensures IsCsvFile(name) <==> !Hidden(name) && EndsWith(name, ".csv")
  {
    if !Hidden(name) {
      assert '.' !in "csv";
      SuffixMatches(name, "csv");
    }
  }

  // =====================================================================
  // `find_target_file`
  // =====================================================================

  /** The entries of `names` that `keep` accepts, in order. */
  function Select(names: seq<string>, keep: string -> bool): (ss: seq<string>)
    ensures forall j :: 0 <= j < |ss| ==> keep(ss[j])
  {
    if names == [] then []
    else
      var last := names[|names| - 1];
      Select(names[..|names| - 1], keep) + (if keep(last) then [last] else [])
  }

  lemma {:induction false} SelectMultiplicity(names: seq<string>, keep: string -> bool, x: string)
    ensures multiset(Select(names, keep))[x] == if keep(x) then multiset(names)[x] else 0
  {
    if names != [] {
      var init := names[..|names| - 1];
      SelectMultiplicity(init, keep, x);
      assert names == init + [names[|names| - 1]];
    }
  }

  /** Reordering the directory listing reorders the selected entries and nothing more. */
  lemma SelectOfPermutation(a: seq<string>, b: seq<string>, keep: string -> bool)
    requires multiset(a) == multiset(b)
    ensures multiset(Select(a, keep)) == multiset(Select(b, keep))
  {
    forall x
      ensures multiset(Select(a, keep))[x] == multiset(Select(b, keep))[x]
    {
      SelectMultiplicity(a, keep, x);
      SelectMultiplicity(b, keep, x);
    }
  }

  /** The eligible target files among `names`, in order. */
  function Targets(names: seq<string>): seq<string> {
    Select(names, IsTargetFile)
  }

  /** Sorting the listing first changes neither how many target files there are nor, when there is one, which. */
  lemma TargetsOfSorted(names: seq<string>)
    ensures |Targets(SortedNicely(names))| == |Targets(names)|
    ensures |Targets(names)| == 1 ==> Targets(SortedNicely(names)) == Targets(names)
  {
    var listing := SortedNicely(names);
    SortedNicelyProperties(names, []);
    SelectOfPermutation(listing, names, IsTargetFile);
    assert |multiset(Targets(listing))| == |multiset(Targets(names))|;
    if |Targets(names)| == 1 {
      assert Targets(names)[0] in multiset(Targets(listing));
      assert Targets(listing) == [Targets(listing)[0]];
    }
  }

  /** The outcome of `find_target_file`. */
  datatype TargetLookup =
    | Found(length: nat)    // the target length read from the one eligible file
    | NotFound              // `FileNotFoundError`
    | Multiple              // `ValueError`

  /**
   * The loop of `find_target_file` over the sorted listing: the eligible
   * files in listing order, and the length read from the last of them.
   */
  method CollectTargets(listing: seq<string>, lengthOf: string -> nat)
    returns (found: seq<string>, lenTarget: nat)
    ensures found == Targets(listing)
    ensures found != [] ==> lenTarget == lengthOf(found[|found| - 1])
  {
    found := [];
    lenTarget := 0;
    for i := 0 to |listing|
      invariant found == Targets(listing[..i])
      invariant found != [] ==> lenTarget == lengthOf(found[|found| - 1])
    {
      var whichFile := listing[i];
      assert listing[..i + 1][..i] == listing[..i];
      if !StartsWith(whichFile, ".") {
        if Suffix(whichFile) != ".json" {
          continue;
        }
        if !Contains(whichFile, "target") {
          continue;
        }
        lenTarget := lengthOf(whichFile);
        found := found + [whichFile];
      }
    }
    assert listing[..|listing|] == listing;
  }

  /**
   * `find_target_file` over a directory listing; `lengthOf` stands for
   * reading a file's `sequence` and taking its length.
   */
  method FindTargetFile(names: seq<string>, lengthOf: string -> nat) returns (r: TargetLookup)
    ensures r == NotFound <==> |Targets(names)| == 0
    ensures r == Multiple <==> |Targets(names)| > 1
    ensures r.Found? ==> |Targets(names)| == 1 && r.length == lengthOf(Targets(names)[0])
  {
    var found, lenTarget := CollectTargets(SortedNicely(names), lengthOf);
    SortedTargets(names, found, lenTarget, lengthOf);
    if found == [] {
      r := NotFound;
    } else if |found| > 1 {
      r := Multiple;
    } else {
      r := Found(lenTarget);
    }
  }

  /** What the loop over the sorted listing collects decides the lookup as the unsorted listing would. */
  lemma SortedTargets(names: seq<string>, found: seq<string>, lenTarget: nat, lengthOf: string -> nat)
    requires found == Targets(SortedNicely(names))
    requires found != [] ==> lenTarget == lengthOf(found[|found| - 1])
    ensures |found| == |Targets(names)|
    ensures |found| == 1 ==> lenTarget == lengthOf(Targets(names)[0])
  {
    TargetsOfSorted(names);
    if |found| == 1 {
      assert found == Targets(names);
      assert found[|found| - 1] == found[0];
    }
  }

  // =====================================================================
  // `transpose_array`
  // =====================================================================

  /** The longest row's length. */
  function MaxLen(data: seq<seq<string>>): (m: nat)
    ensures forall r :: 0 <= r < |data| ==> |data[r]| <= m
  {
    if data == [] then 0
    else
      var m := MaxLen(data[..|data| - 1]);
      if |data[|data| - 1]| > m then |data[|data| - 1]| else m
  }

  /** Some row reaches the maximum. */
  lemma {:induction false} MaxLenAttained(data: seq<seq<string>>)
    ensures data != [] ==> exists r :: 0 <= r < |data| && |data[r]| == MaxLen(data)
  {
    if data != [] {
      var init := data[..|data| - 1];
      MaxLenAttained(init);
      if MaxLen(data) == |data[|data| - 1]| {
        assert |data[|data| - 1]| == MaxLen(data);
      } else {
        assert MaxLen(init) > 0;
        assert init != [];
        var r :| 0 <= r < |init| && |init[r]| == MaxLen(init);
        assert data[r] == init[r];
      }
    }
  }

  /** `max_col + 1`: the output's row count. */
  function Width(data: seq<seq<string>>): nat {
    if MaxLen(data) == 0 then 1 else MaxLen(data)
  }

  /** `max_row + 1`: the output's row length. */
  function Height(data: seq<seq<string>>): nat {
    if |data| == 0 then 1 else |data|
  }

  /** Cell `(r, c)` of a ragged matrix, `"NA"` where the row is short. */
  function Cell(data: seq<seq<string>>, r: int, c: int): string {
    if 0 <= r < |data| && 0 <= c < |data[r]| then data[r][c] else "NA"
  }

  /** The result of `transpose_array`: `out[c][r]` is cell `(r, c)` of the input. */
  function Transpose(data: seq<seq<string>>): (t: seq<seq<string>>)
    ensures |t| == Width(data)
    ensures forall c :: 0 <= c < |t| ==> |t[c]| == Height(data)
  {
    seq(Width(data), c => seq(Height(data), r => Cell(data, r, c)))
  }

  /** An empty input gives a single `"NA"`. */
  lemma TransposeEmpty()
    ensures Transpose([]) == [["NA"]]
  {
    var t := Transpose([]);
    assert |t| == 1 && |t[0]| == 1 && t[0][0] == "NA";
    assert t[0] == ["NA"];
  }

  /** Every input cell lands at the mirrored position, and a short row leaves `"NA"` behind. */
  lemma TransposeCells(data: seq<seq<string>>)
    ensures forall r, c :: 0 <= r < |data| && 0 <= c < |data[r]| ==> Transpose(data)[c][r] == data[r][c]
    ensures forall r, c :: 0 <= r < |data| && |data[r]| <= c < Width(data) ==> Transpose(data)[c][r] == "NA"
  {
  }

  predicate Rectangular(data: seq<seq<string>>, w: nat) {
    forall r :: 0 <= r < |data| ==> |data[r]| == w
  }

  /** Transposing a non-empty rectangular matrix twice gives it back. */
  lemma TransposeTwice(data: seq<seq<string>>, w: nat)
    requires |data| >= 1 && w >= 1 && Rectangular(data, w)
    ensures Transpose(Transpose(data)) == data
  {
    MaxLenAttained(data);
    assert MaxLen(data) == w by {
      assert |data[0]| <= MaxLen(data);
    }
    var t := Transpose(data);
    assert Rectangular(t, |data|);
    MaxLenAttained(t);
    assert MaxLen(t) == |data| by {
      assert |t[0]| <= MaxLen(t);
    }
    var tt := Transpose(t);
    assert |tt| == |data|;
    forall r | 0 <= r < |data|
      ensures tt[r] == data[r]
    {
      assert |tt[r]| == |data[r]|;
    }
  }

  /** `transpose_array`: measure, fill with `"NA"`, then copy every cell across. */
  method TransposeArray(data: seq<seq<string>>) returns (transposed: seq<seq<string>>)
    ensures transposed == Transpose(data)
  {
    var maxRow, maxCol := MeasureArray(data);
    transposed := FillMissing(maxCol + 1, maxRow + 1);
    transposed := CopyCells(data, transposed);
  }

  /** The first loops of `transpose_array`: the last row index and the last column index. */
  method MeasureArray(data: seq<seq<string>>) returns (maxRow: nat, maxCol: nat)
    ensures maxRow + 1 == Height(data)
    ensures maxCol + 1 == Width(data)
  {
    maxRow := 0;
    maxCol := 0;
    for nrow := 0 to |data|
      invariant maxRow == if nrow == 0 then 0 else nrow - 1
      invariant maxCol + 1 == Width(data[..nrow])
    {
      assert data[..nrow + 1][..nrow] == data[..nrow];
      if nrow > maxRow {
        maxRow := nrow;
      }
      for ncol := 0 to |data[nrow]|
        invariant maxCol + 1 == if ncol > MaxLen(data[..nrow]) then ncol else Width(data[..nrow])
      {
        if ncol > maxCol {
          maxCol := ncol;
        }
      }
    }
    assert data[..|data|] == data;
  }

  /** `[["NA"] * (max_row + 1) for _ in range(max_col + 1)]`, built cell by cell. */
  method FillMissing(width: nat, height: nat) returns (t: seq<seq<string>>)
    ensures |t| == width
    ensures forall c :: 0 <= c < width ==> t[c] == seq(height, _ => "NA")
  {
    t := [];
    for ncol := 0 to width
      invariant |t| == ncol
      invariant forall c :: 0 <= c < ncol ==> t[c] == seq(height, _ => "NA")
    {
      t := t + [[]];
      for nrow := 0 to height
        invariant |t| == ncol + 1
        invariant forall c :: 0 <= c < ncol ==> t[c] == seq(height, _ => "NA")
        invariant t[ncol] == seq(nrow, _ => "NA")
      {
        t := t[ncol := t[ncol] + ["NA"]];
      }
    }
  }

  /** The last loop of `transpose_array`: every cell `(r, c)` of the input is written to `(c, r)`. */
  method CopyCells(data: seq<seq<string>>, filled: seq<seq<string>>) returns (transposed: seq<seq<string>>)
    requires |filled| == Width(data)
    requires forall c :: 0 <= c < |filled| ==> filled[c] == seq(Height(data), _ => "NA")
    ensures transposed == Transpose(data)
  {
    transposed := filled;
    for nrow := 0 to |data|
      invariant |transposed| == Width(data)
      invariant forall c :: 0 <= c < |transposed| ==> |transposed[c]| == Height(data)
      invariant forall c, r :: 0 <= c < |transposed| && 0 <= r < Height(data) ==>
        transposed[c][r] == if r < nrow then Cell(data, r, c) else "NA"
    {
      assert |data[nrow]| <= MaxLen(data);
      for ncol := 0 to |data[nrow]|
        invariant |transposed| == Width(data)
        invariant forall c :: 0 <= c < |transposed| ==> |transposed[c]| == Height(data)
        invariant forall c, r :: 0 <= c < |transposed| && 0 <= r < Height(data) ==>
          transposed[c][r] == if r < nrow || (r == nrow && c < ncol) then Cell(data, r, c) else "NA"
      {
        transposed := transposed[ncol := transposed[ncol][nrow := data[nrow][ncol]]];
      }
    }
    assert |transposed| == |Transpose(data)|;
    forall c | 0 <= c < |transposed|
      ensures transposed[c] == Transpose(data)[c]
    {
    }
  }

  // =====================================================================
  // The per-file fold of `prepare_heatmap`
  // =====================================================================

  /** Why `prepare_heatmap` stops with an exception. */
  datatype HeatmapError =
    | ShortRow        // `row[13]` on a row with fewer than 14 fields: `IndexError`
    | MissingHeader   // the header's column 13 is not `duplex deltaG`: `AssertionError`
    | BadInt          // `int(row[8])` or `int(row[9])` rejects its field: `ValueError`
    | RowCountUnset   // `nrows_in_file` read before any file had a row: `UnboundLocalError`
    | NoCsvFile       // `data_list` read when no CSV file was found: `UnboundLocalError`

  datatype Result<T> = Ok(value: T) | Err(error: HeatmapError)

  const DeltaGColumn: nat := 13
  const StartColumn: nat := 8
  const EndColumn: nat := 9
  const DeltaGHeader: string := "duplex deltaG"

  /**
   * The variables the row loop updates. `nrows` and the two bounds live
   * across files: `nrows_in_file` keeps the previous file's value until a
   * row is read, and `minStart` is `None` while it still holds
   * `float("inf")`.
   */
  datatype FileState = FileState(dataList: seq<string>, nrows: Option<nat>, minStart: Option<int>, maxEnd: int)

  /** `target_start` is at least `target_from` and `target_end` at most `target_to` (`None` for infinity). */
  predicate InRange(start: int, end: int, targetFrom: int, targetTo: Option<int>) {
    !(start < targetFrom || (targetTo.Some? && end > targetTo.value))
  }

  function MinAfter(m: Option<int>, x: int): int {
    if m.Some? && m.value < x then m.value else x
  }

  function Max(a: int, b: int): int {
    if a >= b then a else b
  }

  /** `int(row[8])` and `int(row[9])` of a row long enough to have them. */
  function RowBounds(row: seq<string>): Option<(int, int)>
    requires |row| > EndColumn
  {
    var s := ParseInt(row[StartColumn]);
    var e := ParseInt(row[EndColumn]);
    if s.Some? && e.Some? then Some((s.value, e.value)) else None
  }

  /** One pass of the row loop on row number `i`. */
  function RowStep(st: FileState, i: nat, row: seq<string>, targetFrom: int, targetTo: Option<int>): Result<FileState> {
    var counted := st.(nrows := Some(i));
    if |row| <= DeltaGColumn then Err(ShortRow)
    else if i == 0 then
      if row[DeltaGColumn] == DeltaGHeader then Ok(counted) else Err(MissingHeader)
    else
      var collected := counted.(dataList := st.dataList + [row[DeltaGColumn]]);
      var b := RowBounds(row);
      if b.None? then Err(BadInt)
      else if !InRange(b.value.0, b.value.1, targetFrom, targetTo) then Ok(collected)
      else Ok(collected.(minStart := Some(MinAfter(st.minStart, b.value.0)), maxEnd := Max(st.maxEnd, b.value.1)))
  }

  /** The row loop over the rows of one CSV file, from state `st`. */
  function FoldRows(rows: seq<seq<string>>, st: FileState, targetFrom: int, targetTo: Option<int>): Result<FileState> {
    if rows == [] then Ok(st)
    else
      match FoldRows(rows[..|rows| - 1], st, targetFrom, targetTo)
      case Err(e) => Err(e)
      case Ok(s) => RowStep(s, |rows| - 1, rows[|rows| - 1], targetFrom, targetTo)
  }

  /** One more row folds the state reached so far. */
  lemma FoldRowsStep(rows: seq<seq<string>>, i: nat, st: FileState, targetFrom: int, targetTo: Option<int>, s: FileState)
    requires i < |rows|
    requires FoldRows(rows[..i], st, targetFrom, targetTo) == Ok(s)
    ensures FoldRows(rows[..i + 1], st, targetFrom, targetTo) == RowStep(s, i, rows[i], targetFrom, targetTo)
  {
    assert rows[..i + 1][..i] == rows[..i];
  }

  /** Once a row fails, the file fails with that error. */
  lemma {:induction false} FoldRowsErrSticky(rows: seq<seq<string>>, k: nat, st: FileState, targetFrom: int, targetTo: Option<int>)
    requires k <= |rows|
    requires FoldRows(rows[..k], st, targetFrom, targetTo).Err?
    ensures FoldRows(rows, st, targetFrom, targetTo) == FoldRows(rows[..k], st, targetFrom, targetTo)
    decreases |rows| - k
  {
    if k < |rows| {
      var next := rows[..k + 1];
      assert next[..k] == rows[..k];
      FoldRowsErrSticky(rows, k + 1, st, targetFrom, targetTo);
    } else {
      assert rows[..k] == rows;
    }
  }

  /** What a file must look like for the row loop to get through it. */
  predicate WellFormedRow(row: seq<string>, i: nat) {
    |row| > DeltaGColumn
    && (i == 0 ==> row[DeltaGColumn] == DeltaGHeader)
    && (i > 0 ==> RowBounds(row).Some?)
  }

  predicate WellFormedRows(rows: seq<seq<string>>) {
    forall j :: 0 <= j < |rows| ==> WellFormedRow(rows[j], j)
  }

  predicate RowInRange(row: seq<string>, targetFrom: int, targetTo: Option<int>) {
    |row| > EndColumn && RowBounds(row).Some? && InRange(RowBounds(row).value.0, RowBounds(row).value.1, targetFrom, targetTo)
  }

  /** The row loop gets through a file exactly when every row is well formed. */
  lemma {:induction false} FoldRowsOk(rows: seq<seq<string>>, st: FileState, targetFrom: int, targetTo: Option<int>)
    ensures FoldRows(rows, st, targetFrom, targetTo).Ok? <==> WellFormedRows(rows)
  {
    if rows != [] {
      var init := rows[..|rows| - 1];
      FoldRowsOk(init, st, targetFrom, targetTo);
      assert forall j :: 0 <= j < |init| ==> init[j] == rows[j];
    }
  }

  /**
   * A file read to the end appends column 13 of every data row, in order,
   * whether or not the row is in the target range, and leaves the row
   * count at the last row's index.
   */
  lemma {:induction false} FoldRowsCollects(rows: seq<seq<string>>, st: FileState, targetFrom: int, targetTo: Option<int>)
    requires FoldRows(rows, st, targetFrom, targetTo).Ok?
    ensures Collected(rows, st, FoldRows(rows, st, targetFrom, targetTo).value)
  {
    if rows != [] {
      var init := rows[..|rows| - 1];
      FoldRowsCollects(init, st, targetFrom, targetTo);
      var mid := FoldRows(init, st, targetFrom, targetTo).value;
      CollectedSnoc(init, rows[|rows| - 1], st, mid, RowStep(mid, |init|, rows[|rows| - 1], targetFrom, targetTo).value,
                    targetFrom, targetTo);
      assert init + [rows[|rows| - 1]] == rows;
    }
  }

  /** One more row that the loop gets through keeps `Collected`. */
  lemma CollectedSnoc(init: seq<seq<string>>, row: seq<string>, st: FileState, mid: FileState, out: FileState,
                      targetFrom: int, targetTo: Option<int>)
    requires Collected(init, st, mid)
    requires RowStep(mid, |init|, row, targetFrom, targetTo) == Ok(out)
    ensures Collected(init + [row], st, out)
  {
    var rows := init + [row];
    assert forall j :: 0 <= j < |init| ==> rows[j] == init[j];
    assert rows[|init|] == row;
    if |init| > 0 {
      assert out.dataList == mid.dataList + [row[DeltaGColumn]];
      assert out.dataList[..|st.dataList|] == mid.dataList[..|st.dataList|];
    }
  }

  /**
   * What the row loop's result `out` on `rows` from `st` holds: the row
   * count, and the ΔG column of every data row appended in order.
   */
  ghost predicate Collected(rows: seq<seq<string>>, st: FileState, out: FileState) {
    && out.nrows == (if rows == [] then st.nrows else Some(|rows| - 1))
    && |out.dataList| == |st.dataList| + (if rows == [] then 0 else |rows| - 1)
    && out.dataList[..|st.dataList|] == st.dataList
    && forall j :: 1 <= j < |rows| ==> |rows[j]| > DeltaGColumn && out.dataList[|st.dataList| + j - 1] == rows[j][DeltaGColumn]
  }

  /**
   * The bounds only look at rows in the target range: the minimum start
   * is at most every such row's start and is the initial value or one of
   * those starts, and likewise for the maximum end.
   */
  lemma {:induction false} FoldRowsBounds(rows: seq<seq<string>>, st: FileState, targetFrom: int, targetTo: Option<int>)
    requires FoldRows(rows, st, targetFrom, targetTo).Ok?
    ensures RowsBounded(rows, st, FoldRows(rows, st, targetFrom, targetTo).value, targetFrom, targetTo)
  {
    if rows != [] {
      var init := rows[..|rows| - 1];
      var s := FoldRows(init, st, targetFrom, targetTo).value;
      FoldRowsBounds(init, st, targetFrom, targetTo);
      RowStepBounds(init, rows[|rows| - 1], st, s, FoldRows(rows, st, targetFrom, targetTo).value, targetFrom, targetTo);
      assert init + [rows[|rows| - 1]] == rows;
    }
  }

  /**
   * What the row loop's bounds `out` say about `rows` folded from `st`: every
   * in-range data row lies within them, they only widen the starting ones,
   * and each is the starting value or attained by an in-range row.
   */
  ghost predicate RowsBounded(rows: seq<seq<string>>, st: FileState, out: FileState, targetFrom: int, targetTo: Option<int>) {
    && (forall j :: 1 <= j < |rows| && RowInRange(rows[j], targetFrom, targetTo) ==>
          out.minStart.Some? && out.minStart.value <= RowBounds(rows[j]).value.0
          && RowBounds(rows[j]).value.1 <= out.maxEnd)
    && (st.minStart.Some? ==> out.minStart.Some? && out.minStart.value <= st.minStart.value)
    && st.maxEnd <= out.maxEnd
    && (out.minStart == st.minStart
        || exists j :: 1 <= j < |rows| && RowInRange(rows[j], targetFrom, targetTo)
                       && out.minStart == Some(RowBounds(rows[j]).value.0))
    && (out.maxEnd == st.maxEnd
        || exists j :: 1 <= j < |rows| && RowInRange(rows[j], targetFrom, targetTo)
                       && out.maxEnd == RowBounds(rows[j]).value.1)
  }

  /** One more row keeps the bounds invariant. */
  lemma RowStepBounds(init: seq<seq<string>>, row: seq<string>, st: FileState, s: FileState, out: FileState,
                      targetFrom: int, targetTo: Option<int>)
    requires RowsBounded(init, st, s, targetFrom, targetTo)
    requires RowStep(s, |init|, row, targetFrom, targetTo) == Ok(out)
    ensures RowsBounded(init + [row], st, out, targetFrom, targetTo)
  {
    if |init| > 0 && RowInRange(row, targetFrom, targetTo) {
      var b := RowBounds(row).value;
      assert out.minStart == Some(MinAfter(s.minStart, b.0)) && out.maxEnd == Max(s.maxEnd, b.1);
      InRangeRowBounds(init, row, st, s, out, b.0, b.1, targetFrom, targetTo);
    } else {
      assert out.minStart == s.minStart && out.maxEnd == s.maxEnd;
      OutOfRangeRowBounds(init, row, st, s, out, targetFrom, targetTo);
    }
  }

  lemma OutOfRangeRowBounds(init: seq<seq<string>>, row: seq<string>, st: FileState, s: FileState, out: FileState,
                            targetFrom: int, targetTo: Option<int>)
    requires RowsBounded(init, st, s, targetFrom, targetTo)
    requires !(|init| > 0 && RowInRange(row, targetFrom, targetTo))
    requires out.minStart == s.minStart && out.maxEnd == s.maxEnd
    ensures RowsBounded(init + [row], st, out, targetFrom, targetTo)
  {
    var rows := init + [row];
    assert forall j :: 0 <= j < |init| ==> rows[j] == init[j];
    assert rows[|init|] == row;
  }

  lemma InRangeRowBounds(init: seq<seq<string>>, row: seq<string>, st: FileState, s: FileState, out: FileState,
                         lo: int, hi: int, targetFrom: int, targetTo: Option<int>)
    requires |init| > 0 && RowInRange(row, targetFrom, targetTo) && RowBounds(row) == Some((lo, hi))
    requires RowsBounded(init, st, s, targetFrom, targetTo)
    requires out.minStart == Some(MinAfter(s.minStart, lo)) && out.maxEnd == Max(s.maxEnd, hi)
    ensures RowsBounded(init + [row], st, out, targetFrom, targetTo)
  {
    var rows := init + [row];
    var i := |init|;
    assert forall j :: 0 <= j < |init| ==> rows[j] == init[j];
    assert rows[i] == row;
    if out.minStart != st.minStart && out.minStart != s.minStart {
      assert out.minStart == Some(RowBounds(rows[i]).value.0);
    }
    if out.maxEnd != st.maxEnd && out.maxEnd != s.maxEnd {
      assert out.maxEnd == RowBounds(rows[i]).value.1;
    }
  }

  /** The row loop for one file, as `prepare_heatmap` runs it. */
  method ReadCsvRows(rows: seq<seq<string>>, st: FileState, targetFrom: int, targetTo: Option<int>)
    returns (r: Result<FileState>)
    ensures r == FoldRows(rows, st, targetFrom, targetTo)
  {
    var dataList := st.dataList;
    var nrowsInFile := st.nrows;
    var minTargetStart := st.minStart;
    var maxTargetEnd := st.maxEnd;
    for iRow := 0 to |rows|
      invariant FoldRows(rows[..iRow], st, targetFrom, targetTo)
                == Ok(FileState(dataList, nrowsInFile, minTargetStart, maxTargetEnd))
    {
      var row := rows[iRow];
      FoldRowsStep(rows, iRow, st, targetFrom, targetTo, FileState(dataList, nrowsInFile, minTargetStart, maxTargetEnd));
      nrowsInFile := Some(iRow);
      if |row| <= DeltaGColumn {
        FoldRowsErrSticky(rows, iRow + 1, st, targetFrom, targetTo);
        return Err(ShortRow);
      }
      var deltaGDuplex := row[DeltaGColumn];
      if iRow == 0 {
        if deltaGDuplex != DeltaGHeader {
          FoldRowsErrSticky(rows, iRow + 1, st, targetFrom, targetTo);
          return Err(MissingHeader);
        }
      } else {
        dataList := dataList + [deltaGDuplex];
        var targetStart := ParseInt(row[StartColumn]);
        var targetEnd := ParseInt(row[EndColumn]);
        if targetStart.None? || targetEnd.None? {
          FoldRowsErrSticky(rows, iRow + 1, st, targetFrom, targetTo);
          return Err(BadInt);
        }
        if targetStart.value < targetFrom || (targetTo.Some? && targetEnd.value > targetTo.value) {
          continue;
        }
        minTargetStart := Some(MinAfter(minTargetStart, targetStart.value));
        maxTargetEnd := Max(maxTargetEnd, targetEnd.value);
      }
    }
    assert rows[..|rows|] == rows;
    r := Ok(FileState(dataList, nrowsInFile, minTargetStart, maxTargetEnd));
  }

  // =====================================================================
  // `prepare_heatmap`
  // =====================================================================

  /** The directory entries `prepare_heatmap` reads, in order. */
  function CsvFiles(names: seq<string>): seq<string> {
    Select(names, IsCsvFile)
  }

  /**
   * What the file loop carries from one CSV file to the next: the ΔG
   * lists and probe entries so far, and the three variables that outlive
   * a file (`nrows_in_file`, `min_target_start`, `max_target_end`).
   */
  datatype Prepared = Prepared(dataArray: seq<seq<string>>, probes: seq<(string, nat)>,
                               nrows: Option<nat>, minStart: Option<int>, maxEnd: int)

  /** The state before the first file: `min_target_start = inf`, `max_target_end = 0`. */
  const NoFilesYet: Prepared := Prepared([], [], None, None, 0)

  function Abs(x: int): nat {
    if x < 0 then -x else x
  }

  /** One CSV file: its rows folded from `[stem]`, then its `(stem, len_probe)` entry. */
  function FileStep(acc: Prepared, name: string, rows: seq<seq<string>>, lenTarget: nat,
                    targetFrom: int, targetTo: Option<int>): Result<Prepared>
  {
    var stem := Stem(name);
    match FoldRows(rows, FileState([stem], acc.nrows, acc.minStart, acc.maxEnd), targetFrom, targetTo)
    case Err(e) => Err(e)
    case Ok(out) =>
      if out.nrows.None? then Err(RowCountUnset)
      else Ok(Prepared(acc.dataArray + [out.dataList], acc.probes + [(stem, Abs(lenTarget - out.nrows.value))],
                       out.nrows, out.minStart, out.maxEnd))
  }

  /** The file loop over a sorted listing; `contents` stands for reading a file's CSV rows. */
  function PrepareFold(listing: seq<string>, contents: string -> seq<seq<string>>, lenTarget: nat,
                       targetFrom: int, targetTo: Option<int>): Result<Prepared>
  {
    if listing == [] then Ok(NoFilesYet)
    else
      var last := listing[|listing| - 1];
      match PrepareFold(listing[..|listing| - 1], contents, lenTarget, targetFrom, targetTo)
      case Err(e) => Err(e)
      case Ok(acc) =>
        if IsCsvFile(last) then FileStep(acc, last, contents(last), lenTarget, targetFrom, targetTo) else Ok(acc)
  }

  /** One more directory entry: a CSV file is folded in, anything else is skipped. */
  lemma PrepareFoldStep(listing: seq<string>, i: nat, acc: Prepared, contents: string -> seq<seq<string>>,
                        lenTarget: nat, targetFrom: int, targetTo: Option<int>)
    requires i < |listing|
    requires PrepareFold(listing[..i], contents, lenTarget, targetFrom, targetTo) == Ok(acc)
    ensures PrepareFold(listing[..i + 1], contents, lenTarget, targetFrom, targetTo)
            == if IsCsvFile(listing[i]) then FileStep(acc, listing[i], contents(listing[i]), lenTarget, targetFrom, targetTo)
               else Ok(acc)
  {
    assert listing[..i + 1][..i] == listing[..i];
  }

  lemma {:induction false} PrepareFoldErrSticky(listing: seq<string>, k: nat, contents: string -> seq<seq<string>>,
                                                lenTarget: nat, targetFrom: int, targetTo: Option<int>)
    requires k <= |listing|
    requires PrepareFold(listing[..k], contents, lenTarget, targetFrom, targetTo).Err?
    ensures PrepareFold(listing, contents, lenTarget, targetFrom, targetTo)
            == PrepareFold(listing[..k], contents, lenTarget, targetFrom, targetTo)
    decreases |listing| - k
  {
    if k < |listing| {
      assert listing[..k + 1][..k] == listing[..k];
      PrepareFoldErrSticky(listing, k + 1, contents, lenTarget, targetFrom, targetTo);
    } else {
      assert listing[..k] == listing;
    }
  }

  /** The CSV files of a listing with one more entry. */
  lemma CsvFilesSnoc(listing: seq<string>)
    requires listing != []
    ensures var last := listing[|listing| - 1];
      CsvFiles(listing) == CsvFiles(listing[..|listing| - 1]) + (if IsCsvFile(last) then [last] else [])
  {
  }

  /**
   * The files the loop gets through: every CSV file's rows are well
   * formed and the first CSV file has a row (otherwise `nrows_in_file` is
   * read before it is ever set).
   */
  predicate Readable(csv: seq<string>, contents: string -> seq<seq<string>>) {
    && (forall k :: 0 <= k < |csv| ==> WellFormedRows(contents(csv[k])))
    && (csv != [] ==> contents(csv[0]) != [])
  }

  lemma ReadableSnoc(csv: seq<string>, last: string, contents: string -> seq<seq<string>>)
    ensures Readable(csv + [last], contents)
            <==> Readable(csv, contents) && WellFormedRows(contents(last)) && (csv == [] ==> contents(last) != [])
  {
    var all := csv + [last];
    assert all[|csv|] == last;
    assert forall k :: 0 <= k < |csv| ==> all[k] == csv[k];
  }

  /** The loop gets through every file exactly when the CSV files are `Readable`; the row count is then set once any CSV file was read. */
  lemma {:induction false} PrepareFoldOk(listing: seq<string>, contents: string -> seq<seq<string>>, lenTarget: nat,
                                         targetFrom: int, targetTo: Option<int>)
    ensures PrepareFold(listing, contents, lenTarget, targetFrom, targetTo).Ok? <==> Readable(CsvFiles(listing), contents)
    ensures PrepareFold(listing, contents, lenTarget, targetFrom, targetTo).Ok? ==>
      (PrepareFold(listing, contents, lenTarget, targetFrom, targetTo).value.nrows.Some? <==> CsvFiles(listing) != [])
  {
    if listing != [] {
      var init := listing[..|listing| - 1];
      var last := listing[|listing| - 1];
      PrepareFoldOk(init, contents, lenTarget, targetFrom, targetTo);
      CsvFilesSnoc(listing);
      var csvInit := CsvFiles(init);
      var pre := PrepareFold(init, contents, lenTarget, targetFrom, targetTo);
      var r := PrepareFold(listing, contents, lenTarget, targetFrom, targetTo);
      if IsCsvFile(last) {
        ReadableSnoc(csvInit, last, contents);
        if pre.Ok? {
          var acc := pre.value;
          var st := FileState([Stem(last)], acc.nrows, acc.minStart, acc.maxEnd);
          assert r == FileStep(acc, last, contents(last), lenTarget, targetFrom, targetTo);
          FoldRowsOk(contents(last), st, targetFrom, targetTo);
          if FoldRows(contents(last), st, targetFrom, targetTo).Ok? {
            FoldRowsCollects(contents(last), st, targetFrom, targetTo);
          }
        } else {
          assert r == pre;
        }
      } else {
        assert CsvFiles(listing) == csvInit;
        assert r == pre;
      }
    }
  }

  /** The per-file facts the shape lemma states for file `k` of the CSV files. */
  predicate FileShaped(dataArray: seq<seq<string>>, probes: seq<(string, nat)>, csv: seq<string>, k: nat,
                       contents: string -> seq<seq<string>>, lenTarget: nat)
    requires k < |csv| && k < |dataArray| && k < |probes|
  {
    var rows := contents(csv[k]);
    var column := dataArray[k];
    && |column| == (if rows == [] then 1 else |rows|)
    && column[0] == Stem(csv[k])
    && (forall j :: 1 <= j < |rows| ==> |rows[j]| > DeltaGColumn && column[j] == rows[j][DeltaGColumn])
    && probes[k].0 == Stem(csv[k])
    && (rows != [] ==> probes[k].1 == Abs(lenTarget - (|rows| - 1)))
    && (rows == [] && k > 0 ==> probes[k].1 == probes[k - 1].1)
  }

  /** Appending a file's list and probe entry keeps the facts about the earlier files. */
  lemma FileShapedKept(acc: Prepared, p: Prepared, csv: seq<string>, last: string, k: nat,
                       contents: string -> seq<seq<string>>, lenTarget: nat)
    requires |acc.dataArray| == |csv| && |acc.probes| == |csv| && k < |csv|
    requires |p.dataArray| == |csv| + 1 && p.dataArray[..|csv|] == acc.dataArray
    requires |p.probes| == |csv| + 1 && p.probes[..|csv|] == acc.probes
    requires FileShaped(acc.dataArray, acc.probes, csv, k, contents, lenTarget)
    ensures FileShaped(p.dataArray, p.probes, csv + [last], k, contents, lenTarget)
  {
    assert (csv + [last])[k] == csv[k];
    assert p.dataArray[k] == acc.dataArray[k];
    assert p.probes[k] == acc.probes[k];
    if k > 0 {
      assert p.probes[k - 1] == acc.probes[k - 1];
    }
  }

  /** The facts about the file just read. */
  lemma FileShapedNew(acc: Prepared, p: Prepared, last: string, csv: seq<string>, contents: string -> seq<seq<string>>,
                      lenTarget: nat, targetFrom: int, targetTo: Option<int>)
    requires |acc.dataArray| == |csv| && |acc.probes| == |csv|
    requires acc.nrows.Some? <==> csv != []
    requires csv != [] ==> acc.nrows.Some? && acc.probes[|csv| - 1].1 == Abs(lenTarget - acc.nrows.value)
    requires FileStep(acc, last, contents(last), lenTarget, targetFrom, targetTo) == Ok(p)
    ensures AppendedShaped(acc, p, csv, last, contents, lenTarget)
  {
    var rows := contents(last);
    var st := FileState([Stem(last)], acc.nrows, acc.minStart, acc.maxEnd);
    FileStepOk(acc, last, rows, lenTarget, targetFrom, targetTo);
    var out := FoldRows(rows, st, targetFrom, targetTo).value;
    FoldRowsCollects(rows, st, targetFrom, targetTo);
    AppendShaped(acc, p, last, csv, rows, out, contents, lenTarget);
  }

  /** `p` is `acc` with one more ΔG list and probe entry, which describe CSV file `last`. */
  ghost predicate AppendedShaped(acc: Prepared, p: Prepared, csv: seq<string>, last: string,
                                 contents: string -> seq<seq<string>>, lenTarget: nat)
  {
    && |p.dataArray| == |csv| + 1 && p.dataArray[..|csv|] == acc.dataArray
    && |p.probes| == |csv| + 1 && p.probes[..|csv|] == acc.probes
    && FileShaped(p.dataArray, p.probes, csv + [last], |csv|, contents, lenTarget)
    && p.nrows.Some? && p.probes[|csv|].1 == Abs(lenTarget - p.nrows.value)
  }

  /** A file step that succeeds appends the row loop's list and the file's probe entry. */
  lemma FileStepOk(acc: Prepared, name: string, rows: seq<seq<string>>, lenTarget: nat, targetFrom: int, targetTo: Option<int>)
    requires FileStep(acc, name, rows, lenTarget, targetFrom, targetTo).Ok?
    ensures var st := FileState([Stem(name)], acc.nrows, acc.minStart, acc.maxEnd);
      && FoldRows(rows, st, targetFrom, targetTo).Ok?
      && var out := FoldRows(rows, st, targetFrom, targetTo).value;
      && out.nrows.Some?
      && FileStep(acc, name, rows, lenTarget, targetFrom, targetTo).value
         == Prepared(acc.dataArray + [out.dataList], acc.probes + [(Stem(name), Abs(lenTarget - out.nrows.value))],
                     out.nrows, out.minStart, out.maxEnd)
  {
  }

  /** The new entry built from the row loop's result `out` on the file's rows. */
  lemma AppendShaped(acc: Prepared, p: Prepared, last: string, csv: seq<string>, rows: seq<seq<string>>, out: FileState,
                     contents: string -> seq<seq<string>>, lenTarget: nat)
    requires rows == contents(last)
    requires |acc.dataArray| == |csv| && |acc.probes| == |csv|
    requires acc.nrows.Some? <==> csv != []
    requires csv != [] ==> acc.nrows.Some? && acc.probes[|csv| - 1].1 == Abs(lenTarget - acc.nrows.value)
    requires Collected(rows, FileState([Stem(last)], acc.nrows, acc.minStart, acc.maxEnd), out)
    requires out.nrows.Some?
    requires p == Prepared(acc.dataArray + [out.dataList], acc.probes + [(Stem(last), Abs(lenTarget - out.nrows.value))],
                           out.nrows, out.minStart, out.maxEnd)
    ensures AppendedShaped(acc, p, csv, last, contents, lenTarget)
  {
    var n := |csv|;
    assert (csv + [last])[n] == last;
    assert p.dataArray[n] == out.dataList;
    assert out.dataList[0] == out.dataList[..1][0];
    if rows == [] {
      assert p.probes[n - 1] == acc.probes[n - 1];
    }
    assert p.dataArray[..n] == acc.dataArray;
    assert p.probes[..n] == acc.probes;
  }


  /**
   * After the loop there is one ΔG list and one probe entry per CSV
   * file, in listing order. List `k` is the file's stem followed by column
   * 13 of each of its data rows (so position `j >= 1` is row `j`'s ΔG),
   * and its probe length is `|len_target - data rows|`, or the previous
   * file's when the file has no row at all.
   */
  lemma {:induction false} PrepareFoldShape(listing: seq<string>, contents: string -> seq<seq<string>>, lenTarget: nat,
                                            targetFrom: int, targetTo: Option<int>)
    requires PrepareFold(listing, contents, lenTarget, targetFrom, targetTo).Ok?
    ensures PreparedShaped(PrepareFold(listing, contents, lenTarget, targetFrom, targetTo).value, CsvFiles(listing), contents, lenTarget)
  {
    if listing != [] {
      var init := listing[..|listing| - 1];
      var last := listing[|listing| - 1];
      CsvFilesSnoc(listing);
      var pre := PrepareFold(init, contents, lenTarget, targetFrom, targetTo);
      var r := PrepareFold(listing, contents, lenTarget, targetFrom, targetTo);
      assert pre.Ok?;
      PrepareFoldShape(init, contents, lenTarget, targetFrom, targetTo);
      if IsCsvFile(last) {
        assert r == FileStep(pre.value, last, contents(last), lenTarget, targetFrom, targetTo);
        PrepareFoldOk(init, contents, lenTarget, targetFrom, targetTo);
        ShapedSnoc(pre.value, r.value, last, CsvFiles(init), contents, lenTarget, targetFrom, targetTo);
      } else {
        assert CsvFiles(listing) == CsvFiles(init);
        assert r == pre;
      }
    }
  }

  /** The per-file facts for every CSV file folded so far, and the probe length of the last one. */
  ghost predicate PreparedShaped(p: Prepared, csv: seq<string>, contents: string -> seq<seq<string>>, lenTarget: nat) {
    && |p.dataArray| == |csv| && |p.probes| == |csv|
    && (forall k :: 0 <= k < |csv| ==> FileShaped(p.dataArray, p.probes, csv, k, contents, lenTarget))
    && (csv != [] ==> p.nrows.Some? && p.probes[|csv| - 1].1 == Abs(lenTarget - p.nrows.value))
  }

  /** Folding one more CSV file keeps the shape facts. */
  lemma ShapedSnoc(acc: Prepared, p: Prepared, last: string, csv: seq<string>, contents: string -> seq<seq<string>>,
                   lenTarget: nat, targetFrom: int, targetTo: Option<int>)
    requires PreparedShaped(acc, csv, contents, lenTarget)
    requires acc.nrows.Some? <==> csv != []
    requires FileStep(acc, last, contents(last), lenTarget, targetFrom, targetTo) == Ok(p)
    ensures PreparedShaped(p, csv + [last], contents, lenTarget)
  {
    FileShapedNew(acc, p, last, csv, contents, lenTarget, targetFrom, targetTo);
    forall k | 0 <= k < |csv|
      ensures FileShaped(p.dataArray, p.probes, csv + [last], k, contents, lenTarget)
    {
      FileShapedKept(acc, p, csv, last, k, contents, lenTarget);
    }
  }


  /** Row `j` of CSV file `k` is a data row inside the target range. */
  predicate InRangeRow(csv: seq<string>, contents: string -> seq<seq<string>>, k: int, j: int,
                       targetFrom: int, targetTo: Option<int>)
  {
    0 <= k < |csv| && 1 <= j < |contents(csv[k])| && RowInRange(contents(csv[k])[j], targetFrom, targetTo)
  }

  function StartOf(row: seq<string>): int
    requires |row| > EndColumn && RowBounds(row).Some?
  {
    RowBounds(row).value.0
  }

  function EndOf(row: seq<string>): int
    requires |row| > EndColumn && RowBounds(row).Some?
  {
    RowBounds(row).value.1
  }

  /**
   * `min_target_start` and `max_target_end` over the in-range data rows
   * of the CSV files: every such row lies within them, the minimum is
   * `inf` (`None`) or some such row's start, and the maximum is the
   * initial 0 or some such row's end.
   */
  ghost predicate BoundsHold(minStart: Option<int>, maxEnd: int, csv: seq<string>, contents: string -> seq<seq<string>>,
                             targetFrom: int, targetTo: Option<int>)
  {
    && 0 <= maxEnd
    && (forall k, j :: InRangeRow(csv, contents, k, j, targetFrom, targetTo) ==>
          minStart.Some? && minStart.value <= StartOf(contents(csv[k])[j]) && EndOf(contents(csv[k])[j]) <= maxEnd)
    && (minStart.Some? ==> exists k, j :: InRangeRow(csv, contents, k, j, targetFrom, targetTo)
                                          && minStart.value == StartOf(contents(csv[k])[j]))
    && (maxEnd != 0 ==> exists k, j :: InRangeRow(csv, contents, k, j, targetFrom, targetTo)
                                       && maxEnd == EndOf(contents(csv[k])[j]))
  }

  /** Reading one more CSV file keeps the bounds exact. */
  lemma BoundsSnoc(acc: Prepared, csv: seq<string>, last: string, contents: string -> seq<seq<string>>, lenTarget: nat,
                   targetFrom: int, targetTo: Option<int>)
    requires BoundsHold(acc.minStart, acc.maxEnd, csv, contents, targetFrom, targetTo)
    requires FileStep(acc, last, contents(last), lenTarget, targetFrom, targetTo).Ok?
    ensures var p := FileStep(acc, last, contents(last), lenTarget, targetFrom, targetTo).value;
      BoundsHold(p.minStart, p.maxEnd, csv + [last], contents, targetFrom, targetTo)
  {
    var rows := contents(last);
    var st := FileState([Stem(last)], acc.nrows, acc.minStart, acc.maxEnd);
    var res := FoldRows(rows, st, targetFrom, targetTo);
    assert res.Ok? && res.value.nrows.Some?;
    var out := res.value;
    assert FileStep(acc, last, rows, lenTarget, targetFrom, targetTo).value.minStart == out.minStart;
    assert FileStep(acc, last, rows, lenTarget, targetFrom, targetTo).value.maxEnd == out.maxEnd;
    FoldRowsBounds(rows, st, targetFrom, targetTo);
    BoundsCover(csv, last, contents, st, out, targetFrom, targetTo);
    BoundsMinAttained(csv, last, contents, st, out, targetFrom, targetTo);
    BoundsMaxAttained(csv, last, contents, st, out, targetFrom, targetTo);
  }

  /** Every in-range row of the files read so far, the new one included, lies within the new bounds. */
  lemma BoundsCover(csv: seq<string>, last: string, contents: string -> seq<seq<string>>, st: FileState, out: FileState,
                    targetFrom: int, targetTo: Option<int>)
    requires BoundsHold(st.minStart, st.maxEnd, csv, contents, targetFrom, targetTo)
    requires RowsBounded(contents(last), st, out, targetFrom, targetTo)
    ensures forall k, j :: InRangeRow(csv + [last], contents, k, j, targetFrom, targetTo) ==>
      out.minStart.Some? && out.minStart.value <= StartOf(contents((csv + [last])[k])[j])
      && EndOf(contents((csv + [last])[k])[j]) <= out.maxEnd
  {
    var all := csv + [last];
    var n := |csv|;
    forall k, j | InRangeRow(all, contents, k, j, targetFrom, targetTo)
      ensures out.minStart.Some? && out.minStart.value <= StartOf(contents(all[k])[j])
              && EndOf(contents(all[k])[j]) <= out.maxEnd
    {
      if k < n {
        assert all[k] == csv[k];
        assert InRangeRow(csv, contents, k, j, targetFrom, targetTo);
      } else {
        assert all[k] == last;
        assert RowInRange(contents(last)[j], targetFrom, targetTo);
      }
    }
  }

  /** The new minimum is unset or the start of some in-range row read so far. */
  lemma BoundsMinAttained(csv: seq<string>, last: string, contents: string -> seq<seq<string>>, st: FileState, out: FileState,
                          targetFrom: int, targetTo: Option<int>)
    requires BoundsHold(st.minStart, st.maxEnd, csv, contents, targetFrom, targetTo)
    requires RowsBounded(contents(last), st, out, targetFrom, targetTo)
    ensures out.minStart.Some? ==> exists k, j :: InRangeRow(csv + [last], contents, k, j, targetFrom, targetTo)
                                                 && out.minStart.value == StartOf(contents((csv + [last])[k])[j])
  {
    var all := csv + [last];
    var rows := contents(last);
    if out.minStart.Some? {
      if out.minStart == st.minStart {
        var k, j :| InRangeRow(csv, contents, k, j, targetFrom, targetTo) && st.minStart.value == StartOf(contents(csv[k])[j]);
        assert all[k] == csv[k];
        assert InRangeRow(all, contents, k, j, targetFrom, targetTo);
      } else {
        var j :| 1 <= j < |rows| && RowInRange(rows[j], targetFrom, targetTo) && out.minStart == Some(RowBounds(rows[j]).value.0);
        assert all[|csv|] == last;
        assert InRangeRow(all, contents, |csv|, j, targetFrom, targetTo);
      }
    }
  }

  /** The new maximum is 0 or the end of some in-range row read so far. */
  lemma BoundsMaxAttained(csv: seq<string>, last: string, contents: string -> seq<seq<string>>, st: FileState, out: FileState,
                          targetFrom: int, targetTo: Option<int>)
    requires BoundsHold(st.minStart, st.maxEnd, csv, contents, targetFrom, targetTo)
    requires RowsBounded(contents(last), st, out, targetFrom, targetTo)
    ensures out.maxEnd != 0 ==> exists k, j :: InRangeRow(csv + [last], contents, k, j, targetFrom, targetTo)
                                              && out.maxEnd == EndOf(contents((csv + [last])[k])[j])
  {
    var all := csv + [last];
    var rows := contents(last);
    if out.maxEnd != 0 {
      if out.maxEnd == st.maxEnd {
        var k, j :| InRangeRow(csv, contents, k, j, targetFrom, targetTo) && st.maxEnd == EndOf(contents(csv[k])[j]);
        assert all[k] == csv[k];
        assert InRangeRow(all, contents, k, j, targetFrom, targetTo);
      } else {
        var j :| 1 <= j < |rows| && RowInRange(rows[j], targetFrom, targetTo) && out.maxEnd == RowBounds(rows[j]).value.1;
        assert all[|csv|] == last;
        assert InRangeRow(all, contents, |csv|, j, targetFrom, targetTo);
      }
    }
  }

  /** Across all CSV files, the bounds cover exactly the in-range data rows. */
  lemma {:induction false} PrepareFoldBounds(listing: seq<string>, contents: string -> seq<seq<string>>, lenTarget: nat,
                                             targetFrom: int, targetTo: Option<int>)
    requires PrepareFold(listing, contents, lenTarget, targetFrom, targetTo).Ok?
    ensures var p := PrepareFold(listing, contents, lenTarget, targetFrom, targetTo).value;
      BoundsHold(p.minStart, p.maxEnd, CsvFiles(listing), contents, targetFrom, targetTo)
  {
    if listing != [] {
      var init := listing[..|listing| - 1];
      var last := listing[|listing| - 1];
      CsvFilesSnoc(listing);
      var pre := PrepareFold(init, contents, lenTarget, targetFrom, targetTo);
      var r := PrepareFold(listing, contents, lenTarget, targetFrom, targetTo);
      assert pre.Ok?;
      PrepareFoldBounds(init, contents, lenTarget, targetFrom, targetTo);
      if IsCsvFile(last) {
        assert r == FileStep(pre.value, last, contents(last), lenTarget, targetFrom, targetTo);
        BoundsSnoc(pre.value, CsvFiles(init), last, contents, lenTarget, targetFrom, targetTo);
      } else {
        assert CsvFiles(listing) == CsvFiles(init);
        assert r == pre;
      }
    }
  }

  /** What `prepare_heatmap` returns, with the transposed array it writes to `out`. */
  datatype HeatmapData = HeatmapData(dataArray: seq<seq<string>>, probes: seq<(string, nat)>,
                                     minStart: Option<int>, maxEnd: int, transposed: seq<seq<string>>)

  /** `prepare_heatmap` over a directory listing. */
  function PrepareResult(names: seq<string>, contents: string -> seq<seq<string>>, lenTarget: nat,
                         targetFrom: int, targetTo: Option<int>): Result<HeatmapData>
  {
    match PrepareFold(SortedNicely(names), contents, lenTarget, targetFrom, targetTo)
    case Err(e) => Err(e)
    case Ok(p) =>
      if p.dataArray == [] then Err(NoCsvFile)
      else Ok(HeatmapData(p.dataArray, p.probes, p.minStart, p.maxEnd, Transpose(p.dataArray)))
  }

  /** The body of the file loop for one CSV file: its row loop, then its probe entry and ΔG list. */
  method ReadCsvFile(acc: Prepared, whichFile: string, contents: string -> seq<seq<string>>, lenTarget: nat,
                     targetFrom: int, targetTo: Option<int>) returns (r: Result<Prepared>)
    ensures r == FileStep(acc, whichFile, contents(whichFile), lenTarget, targetFrom, targetTo)
  {
    var fileName := Stem(whichFile);
    var fold := ReadCsvRows(contents(whichFile), FileState([fileName], acc.nrows, acc.minStart, acc.maxEnd),
                            targetFrom, targetTo);
    if fold.Err? {
      return Err(fold.error);
    }
    var nrowsInFile := fold.value.nrows;
    if nrowsInFile.None? {
      return Err(RowCountUnset);
    }
    var lenProbe := Abs(lenTarget - nrowsInFile.value);
    var probeArray := acc.probes + [(fileName, lenProbe)];
    var dataArray := acc.dataArray + [fold.value.dataList];
    r := Ok(Prepared(dataArray, probeArray, nrowsInFile, fold.value.minStart, fold.value.maxEnd));
  }

  /** One pass of the file loop: hidden and non-CSV entries are skipped, a CSV file is read. */
  method VisitEntry(acc: Prepared, whichFile: string, contents: string -> seq<seq<string>>, lenTarget: nat,
                    targetFrom: int, targetTo: Option<int>) returns (r: Result<Prepared>)
    ensures r == if IsCsvFile(whichFile) then FileStep(acc, whichFile, contents(whichFile), lenTarget, targetFrom, targetTo)
                 else Ok(acc)
  {
    r := Ok(acc);
    if !StartsWith(whichFile, ".") {
      if Suffix(whichFile) != ".csv" {
        return;
      }
      r := ReadCsvFile(acc, whichFile, contents, lenTarget, targetFrom, targetTo);
    }
  }

  /**
   * `prepare_heatmap` as written: the sorted listing, each entry visited,
   * then the transposition of the ΔG lists.
   */
  method PrepareHeatmap(names: seq<string>, contents: string -> seq<seq<string>>, lenTarget: nat,
                        targetFrom: int, targetTo: Option<int>) returns (r: Result<HeatmapData>)
    ensures r == PrepareResult(names, contents, lenTarget, targetFrom, targetTo)
  {
    var acc := NoFilesYet;
    var listing := SortedNicely(names);
    for i := 0 to |listing|
      invariant PrepareFold(listing[..i], contents, lenTarget, targetFrom, targetTo) == Ok(acc)
    {
      PrepareFoldStep(listing, i, acc, contents, lenTarget, targetFrom, targetTo);
      var next := VisitEntry(acc, listing[i], contents, lenTarget, targetFrom, targetTo);
      if next.Err? {
        PrepareFoldErrSticky(listing, i + 1, contents, lenTarget, targetFrom, targetTo);
        PrepareResultErr(names, contents, lenTarget, targetFrom, targetTo, next.error);
        return Err(next.error);
      }
      acc := next.value;
    }
    PrepareResultOk(names, contents, lenTarget, targetFrom, targetTo, acc);
    if acc.dataArray == [] {
      return Err(NoCsvFile);
    }
    var transposed := TransposeArray(acc.dataArray);
    r := Ok(HeatmapData(acc.dataArray, acc.probes, acc.minStart, acc.maxEnd, transposed));
  }

  /** A failing file loop is the outcome of `prepare_heatmap`. */
  lemma PrepareResultErr(names: seq<string>, contents: string -> seq<seq<string>>, lenTarget: nat,
                         targetFrom: int, targetTo: Option<int>, e: HeatmapError)
    requires PrepareFold(SortedNicely(names), contents, lenTarget, targetFrom, targetTo) == Err(e)
    ensures PrepareResult(names, contents, lenTarget, targetFrom, targetTo) == Err(e)
  {
  }

  /** After a file loop that gets through the whole listing, only the check for a CSV file and the transposition remain. */
  lemma PrepareResultOk(names: seq<string>, contents: string -> seq<seq<string>>, lenTarget: nat,
                        targetFrom: int, targetTo: Option<int>, acc: Prepared)
    requires PrepareFold(SortedNicely(names)[..|SortedNicely(names)|], contents, lenTarget, targetFrom, targetTo) == Ok(acc)
    ensures PrepareResult(names, contents, lenTarget, targetFrom, targetTo)
            == if acc.dataArray == [] then Err(NoCsvFile)
               else Ok(HeatmapData(acc.dataArray, acc.probes, acc.minStart, acc.maxEnd, Transpose(acc.dataArray)))
  {
    var listing := SortedNicely(names);
    assert listing[..|listing|] == listing;
  }

  /** The row loop fails only with the errors of a malformed row. */
  lemma {:induction false} FoldRowsErrKinds(rows: seq<seq<string>>, st: FileState, targetFrom: int, targetTo: Option<int>)
    ensures FoldRows(rows, st, targetFrom, targetTo).Err? ==>
      FoldRows(rows, st, targetFrom, targetTo).error in {ShortRow, MissingHeader, BadInt}
  {
    if rows != [] {
      FoldRowsErrKinds(rows[..|rows| - 1], st, targetFrom, targetTo);
    }
  }

  /** The file loop never reports a missing CSV file; that is decided after it. */
  lemma {:induction false} PrepareFoldErrKinds(listing: seq<string>, contents: string -> seq<seq<string>>, lenTarget: nat,
                                               targetFrom: int, targetTo: Option<int>)
    ensures PrepareFold(listing, contents, lenTarget, targetFrom, targetTo).Err? ==>
      PrepareFold(listing, contents, lenTarget, targetFrom, targetTo).error != NoCsvFile
  {
    if listing != [] {
      var init := listing[..|listing| - 1];
      var last := listing[|listing| - 1];
      PrepareFoldErrKinds(init, contents, lenTarget, targetFrom, targetTo);
      var pre := PrepareFold(init, contents, lenTarget, targetFrom, targetTo);
      if pre.Ok? && IsCsvFile(last) {
        var acc := pre.value;
        FoldRowsErrKinds(contents(last), FileState([Stem(last)], acc.nrows, acc.minStart, acc.maxEnd), targetFrom, targetTo);
      }
    }
  }

  /**
   * `prepare_heatmap` succeeds exactly when there is a CSV file and the
   * CSV files, in natural order, are `Readable`; it fails for want of a
   * CSV file exactly when the listing has none. Sorting first reads the
   * same CSV files, only reordered.
   */
  lemma PrepareHeatmapOutcome(names: seq<string>, contents: string -> seq<seq<string>>, lenTarget: nat,
                              targetFrom: int, targetTo: Option<int>)
    ensures multiset(CsvFiles(SortedNicely(names))) == multiset(CsvFiles(names))
    ensures PrepareResult(names, contents, lenTarget, targetFrom, targetTo).Ok?
            <==> CsvFiles(names) != [] && Readable(CsvFiles(SortedNicely(names)), contents)
    ensures PrepareResult(names, contents, lenTarget, targetFrom, targetTo) == Err(NoCsvFile) <==> CsvFiles(names) == []
  {
    var listing := SortedNicely(names);
    SortedNicelyProperties(names, []);
    SelectOfPermutation(listing, names, IsCsvFile);
    var csv := CsvFiles(listing);
    assert |multiset(csv)| == |multiset(CsvFiles(names))|;
    assert csv == [] <==> CsvFiles(names) == [];
    PrepareFoldOk(listing, contents, lenTarget, targetFrom, targetTo);
    PrepareFoldErrKinds(listing, contents, lenTarget, targetFrom, targetTo);
    var fold := PrepareFold(listing, contents, lenTarget, targetFrom, targetTo);
    if fold.Ok? {
      PrepareFoldShape(listing, contents, lenTarget, targetFrom, targetTo);
    }
  }

  /** `[item[1] for item in probe_array]`. */
  function ProbeVector(probes: seq<(string, nat)>): (v: seq<nat>)
    ensures |v| == |probes|
  {
    seq(|probes|, k requires 0 <= k < |probes| => probes[k].1)
  }

  /** One ΔG list and one probe entry per CSV file, each as `FileShaped` describes. */
  predicate AllShaped(dataArray: seq<seq<string>>, probes: seq<(string, nat)>, csv: seq<string>,
                      contents: string -> seq<seq<string>>, lenTarget: nat)
  {
    && |dataArray| == |csv| && |probes| == |csv|
    && forall k :: 0 <= k < |csv| ==> FileShaped(dataArray, probes, csv, k, contents, lenTarget)
  }

  /** The first row written out holds the file stems, in order. */
  predicate StemsFirst(t: seq<seq<string>>, csv: seq<string>) {
    |t| >= 1 && |t[0]| == |csv| && forall k :: 0 <= k < |csv| ==> t[0][k] == Stem(csv[k])
  }

  /** Row `j` of CSV file `k` is a data row. */
  predicate IsDataRow(csv: seq<string>, contents: string -> seq<seq<string>>, k: int, j: int) {
    0 <= k < |csv| && 1 <= j < |contents(csv[k])|
  }

  /** Row `j` written out holds, in column `k`, the ΔG of data row `j` of file `k`. */
  predicate DeltaGAt(t: seq<seq<string>>, csv: seq<string>, contents: string -> seq<seq<string>>, k: int, j: int)
    requires IsDataRow(csv, contents, k, j)
  {
    j < |t| && |t[j]| == |csv| && |contents(csv[k])[j]| > DeltaGColumn && t[j][k] == contents(csv[k])[j][DeltaGColumn]
  }

  ghost predicate DeltaGRows(t: seq<seq<string>>, csv: seq<string>, contents: string -> seq<seq<string>>) {
    forall k, j :: IsDataRow(csv, contents, k, j) ==> DeltaGAt(t, csv, contents, k, j)
  }

  /** The probe vector holds `|len_target - data rows|` for every file with a row. */
  predicate ProbeLengths(v: seq<nat>, csv: seq<string>, contents: string -> seq<seq<string>>, lenTarget: nat) {
    |v| == |csv|
    && forall k :: 0 <= k < |csv| && contents(csv[k]) != [] ==> v[k] == Abs(lenTarget - (|contents(csv[k])| - 1))
  }

  lemma TransposedLayout(dataArray: seq<seq<string>>, probes: seq<(string, nat)>, csv: seq<string>,
                         contents: string -> seq<seq<string>>, lenTarget: nat)
    requires csv != [] && AllShaped(dataArray, probes, csv, contents, lenTarget)
    ensures StemsFirst(Transpose(dataArray), csv)
    ensures DeltaGRows(Transpose(dataArray), csv, contents)
  {
    var t := Transpose(dataArray);
    TransposeCells(dataArray);
    forall k, j | IsDataRow(csv, contents, k, j)
      ensures DeltaGAt(t, csv, contents, k, j)
    {
      assert FileShaped(dataArray, probes, csv, k, contents, lenTarget);
      assert |dataArray[k]| <= MaxLen(dataArray);
    }
    forall k | 0 <= k < |csv|
      ensures t[0][k] == Stem(csv[k])
    {
      assert FileShaped(dataArray, probes, csv, k, contents, lenTarget);
    }
  }

  lemma ProbeVectorLayout(dataArray: seq<seq<string>>, probes: seq<(string, nat)>, csv: seq<string>,
                          contents: string -> seq<seq<string>>, lenTarget: nat)
    requires AllShaped(dataArray, probes, csv, contents, lenTarget)
    ensures ProbeLengths(ProbeVector(probes), csv, contents, lenTarget)
  {
    forall k | 0 <= k < |csv| && contents(csv[k]) != []
      ensures ProbeVector(probes)[k] == Abs(lenTarget - (|contents(csv[k])| - 1))
    {
      assert FileShaped(dataArray, probes, csv, k, contents, lenTarget);
    }
  }

  /**
   * The layout of a successful run over the CSV files in natural order:
   * the ΔG lists and probe entries are `AllShaped`, the array written out
   * has the stems first and the ΔG rows below, the probe vector holds the
   * probe lengths, and the target bounds cover exactly the in-range data
   * rows.
   */
  lemma PrepareHeatmapLayout(names: seq<string>, contents: string -> seq<seq<string>>, lenTarget: nat,
                             targetFrom: int, targetTo: Option<int>)
    requires PrepareResult(names, contents, lenTarget, targetFrom, targetTo).Ok?
    ensures var h := PrepareResult(names, contents, lenTarget, targetFrom, targetTo).value;
      var csv := CsvFiles(SortedNicely(names));
      && AllShaped(h.dataArray, h.probes, csv, contents, lenTarget)
      && StemsFirst(h.transposed, csv)
      && DeltaGRows(h.transposed, csv, contents)
      && ProbeLengths(ProbeVector(h.probes), csv, contents, lenTarget)
      && BoundsHold(h.minStart, h.maxEnd, csv, contents, targetFrom, targetTo)
  {
    var listing := SortedNicely(names);
    var csv := CsvFiles(listing);
    var p := PrepareFold(listing, contents, lenTarget, targetFrom, targetTo).value;
    var h := PrepareResult(names, contents, lenTarget, targetFrom, targetTo).value;
    assert h == HeatmapData(p.dataArray, p.probes, p.minStart, p.maxEnd, Transpose(p.dataArray));
    PrepareFoldShape(listing, contents, lenTarget, targetFrom, targetTo);
    PrepareFoldBounds(listing, contents, lenTarget, targetFrom, targetTo);
    assert AllShaped(p.dataArray, p.probes, csv, contents, lenTarget);
    TransposedLayout(p.dataArray, p.probes, csv, contents, lenTarget);
    ProbeVectorLayout(p.dataArray, p.probes, csv, contents, lenTarget);
  }

  // =====================================================================
  // `col_names`
  // =====================================================================

  /** `[str(i + 1) for i in range(n)]`. */
  function ColumnNumbers(n: nat): (ns: seq<string>)
    ensures |ns| == n
  {
    seq(n, i requires 0 <= i < n => NatToString(i + 1))
  }

  /** Each column name reads back as its 1-based column number and holds no separator. */
  lemma ColumnNumbersParse(n: nat)
    ensures forall i :: 0 <= i < n ==> ParseInt(ColumnNumbers(n)[i]) == Some(i + 1)
    ensures forall i :: 0 <= i < n ==> ',' !in ColumnNumbers(n)[i]
  {
    forall i | 0 <= i < n
      ensures ParseInt(ColumnNumbers(n)[i]) == Some(i + 1)
    {
      IntToStringParses(i + 1);
    }
  }

  /** The `col_names` loop and join in `final_heatmap_run_command`, for `n` ΔG lists. */
  method ColNames(n: nat) returns (colNames: string)
    ensures colNames == Join(", ", ColumnNumbers(n))
  {
    var names: seq<string> := [];
    for i := 0 to n
      invariant names == ColumnNumbers(i)
    {
      names := names + [NatToString(i + 1)];
    }
    colNames := Join(", ", names);
  }

  /** Three ΔG lists give `"1, 2, 3"`. */
  lemma ColNamesOfThree()
    ensures Join(", ", ColumnNumbers(3)) == "1, 2, 3"
  {
    assert ColumnNumbers(3) == ["1", "2", "3"];
  }
}
