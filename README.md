# someScriptsJP core, modelled in Dafny

This project models the computational core of four analysis scripts from a
genomics lab's script collection and proves properties of the model.

- **GC profile** (`gc_profile.py`)
  - Slides a window of `window_len` bases over a nucleotide sequence and records one GC percentage per start position.
  - Detects the half-open runs of windows whose GC percentage is at or above a threshold.
  - Clusters runs that lie within 100 bases of each other and writes the cluster report (`start, end` header, then one `s, e` line per cluster).
  - Exports one CSV row per window with a running offset, which wraps around for a circular sequence.
  - For a circular sequence, first appends the first window's bases to the end of the sequence.
- **Heatmap pre-processing** (`heatmap/src/heatmap.py`)
  - Sorts directory names "naturally": digit runs compare as numbers.
  - Picks the single target JSON file.
  - Reads the ΔG column of each duplex CSV file while tracking the smallest start and largest end among rows inside the target range.
  - Records one probe length per file.
  - Transposes the ragged ΔG matrix, padding short rows with `"NA"`.
  - Builds the `1, 2, …, n` column-name list.
- **RNAlfold parser** (`hairpins_rnalfold.py`)
  - Drops the last three pieces of RNAlfold's output.
  - Repairs the `( -9.9)` token split.
  - Strips the brackets from the free energy.
  - Rewrites each line as `<dot-bracket> <energy>  <start>`.
- **SAF writer** (`TT-seq/metadata-to-saf.py`)
  - Reads element 0 of each metadata array.
  - Writes a featureCounts SAF file: a header, the gene's feature, and its antisense twin `<gene>anti` on the opposite strand.

Modules:

| file | module | contents |
|---|---|---|
| `options.dfy` | `Options` | the `Option` type |
| `text.dfy` | `Text` | the Python string built-ins the scripts rely on: `str(int)`, `int()`, `str.split()`, `str.split(sep)`, `str.strip(chars)` and `sep.join` |
| `gc_profile.dfy` | `GcProfile` | the GC profile script |
| `natural_sort.dfy` | `NaturalSort` | `sorted_nicely` |
| `heatmap.dfy` | `Heatmap` | the rest of the heatmap module |
| `rnalfold.dfy` | `RnaLfold` | the RNAlfold parser |
| `saf.dfy` | `Saf` | the SAF writer |

Specification functions and methods:

- Where the script loops and updates variables, the model has a method with a loop:
  - the GC scan, the clustering sweep and the CSV row loop;
  - the `find_target_file` collection loop, `transpose_array`, and the row and file loops of `prepare_heatmap`;
  - the RNAlfold line loop and its `del` statements.
- Each such method is proved equal to a specification function.
- Lemmas state what the script promises about that function.
- Straight-line and expression-only code becomes functions: `sorted_nicely`, `probe_vector` and the SAF writer.

Choices where the code and its description disagree (the model follows the code):

- **Circularisation.** The code appends `seq[0:window_len]` and then scans the longer sequence. A sequence of length L therefore gives L + 1 windows, not L. The last window equals the first (`CircularizedWindows`).
- **Cluster padding.** The docstring of `cluster_high_gc_regions` says 100 bases are added to the ends of each cluster. The code adds nothing, and the model adds nothing.
- **One-region clustering.** An input with one region enumerates no pair, so no cluster is emitted. The final cluster is written only when a region *equal in value to the last region* is visited. A repeated last region therefore emits a cluster early. The model keeps that comparison (`Clusters`, `ClusterHighGcRegions`). The reference greedy merge `MergeFrom` agrees with it whenever the last region is not repeated earlier (`ClustersAreMerge`).
- **`nrows_in_file` across files.** In `prepare_heatmap`, `nrows_in_file` is set by the row loop and survives from one file to the next:
  - an empty CSV file reuses the previous file's count for its probe length;
  - an empty *first* CSV file reads it before it is set, which raises `NameError`. The model returns `Err(RowCountUnset)`.
- **No CSV file.** `data_list` is bound only when a CSV file is read. With no CSV file, evaluating `assert len(data_list) > 0` after the loop raises `UnboundLocalError`, which the model returns as `Err(NoCsvFile)`. Once a CSV file has been read, `data_list` holds at least its stem, so that assertion cannot fail. A row error in any CSV file stops the loop first, so it takes precedence.

## Model

| member | source | states |
|---|---|---|
| `Text.IntToStringParses` | TT-seq/metadata-to-saf.py:51-52 | the decimal text of any integer, as an f-string writes it, reads back through `int()` as the same integer |
| `Text.NatToStringValue` | gc_profile.py:190 | the digits written for a natural number have that number as their value |
| `Text.TokensOfJoin` | hairpins_rnalfold.py:49 | `str.split()` of words joined by single spaces gives back exactly those words |
| `Text.SplitOfJoin` | hairpins_rnalfold.py:33 | `str.split(c)` of pieces joined with `c`, none holding `c`, gives back the pieces |
| `Text.JoinOfSplit` | hairpins_rnalfold.py:33 | joining the pieces of `str.split(c)` with `c` restores the original text |
| `Text.StripNoop` | hairpins_rnalfold.py:62 | stripping characters from a text whose ends are not among them leaves it unchanged |
| `Text.SpanLenOfRun` | heatmap/src/heatmap.py:50-51 | the length of a leading run is attained: every character before it matches and the next one does not |
| `GcProfile.GcPercent` | gc_profile.py:76-77 | GC percentage lies in 0..100 and equals 100 × (G and C count) / window length |
| `GcProfile.GcPercentOfUniform` | gc_profile.py:76-77 | an all-G/C window is 100 % and a window without G or C is 0 % |
| `GcProfile.GcProfileCalc` | gc_profile.py:55-94 | yields max(0, len − window + 1) values, value k being the GC percentage of `seq[k:k+window_len]`, and the regions the two-state detector emits over them |
| `GcProfile.HighGcRegionsExact` | gc_profile.py:83-90 | `(s, e)` is emitted exactly when windows s..e−1 are at or above the threshold, window e is below it, and window s−1 (if any) is below it |
| `GcProfile.HighGcRegionsOrdered` | gc_profile.py:83-90 | emitted regions are non-empty, in increasing order, strictly separated, and end before the last window |
| `GcProfile.DetectOpen` | gc_profile.py:83-94 | after the scan the detector's open region is exactly the final run at or above the threshold, if any |
| `GcProfile.OpenRunDropped` | gc_profile.py:83-94 | a run still open at the last window is never emitted |
| `GcProfile.NoRegionWhenAllBelow` | gc_profile.py:83-94 | when every window is below the threshold no region is opened or emitted |
| `GcProfile.ReportLines` | gc_profile.py:174 | the report has one line per cluster after the `start, end` header |
| `GcProfile.ReportLinesAt` | gc_profile.py:190 | report line j + 1 is cluster j written as `s, e` |
| `GcProfile.RegionLineParses` | gc_profile.py:190 | every `s, e` report line reads back as the cluster it was written from |
| `GcProfile.Clusters` | gc_profile.py:176-202 | the sweep fails exactly for an empty list, and one region yields no cluster |
| `GcProfile.FoldIsMerge` | gc_profile.py:180-196 | from any position, the sweep equals the greedy merge when the last region is not repeated before the end |
| `GcProfile.ClustersAreMerge` | gc_profile.py:178-196 | for two or more regions with the last not repeated earlier, the clusters are the greedy merge starting from the first region |
| `GcProfile.MergeProperties` | gc_profile.py:186-191 | the greedy merge yields clusters more than 100 apart, starting at the first region, and every remaining region lies inside one of them |
| `GcProfile.ClusterProperties` | gc_profile.py:178-196 | for two or more ordered regions the clusters are more than 100 apart and every region lies inside exactly one cluster |
| `GcProfile.DetectedRegionsOrdered` | gc_profile.py:83-90 | the detector's regions meet the ordering the clustering properties need |
| `GcProfile.EmitCluster` | gc_profile.py:189-190 | appending a cluster appends its `s, e` line to the report |
| `GcProfile.VisitRegion` | gc_profile.py:186-196 | one loop step advances the accumulator and emits what the sweep emits at that region, keeping the report in step |
| `GcProfile.ClusterHighGcRegions` | gc_profile.py:160-202 | succeeds exactly when the sweep does, returning its clusters; on failure no cluster is kept; the lines written are the header plus one line per cluster |
| `GcProfile.PySlice` | gc_profile.py:123 | Python slicing clamps to the sequence and gives its contiguous part |
| `GcProfile.OffsetLinear` | gc_profile.py:121-131 | without circularity the k-th offset is `offset + k` |
| `GcProfile.OffsetWraps` | gc_profile.py:121-131 | with circularity and a start offset in range, the k-th offset is `(offset + k) mod (len − window + 1)` |
| `GcProfile.OffsetResetAtStart` | gc_profile.py:121 | a start offset beyond the limit is reset to 0 before the first row |
| `GcProfile.OffsetInRange` | gc_profile.py:121-131 | with circularity and a non-negative start offset, every offset lies in `[0, len − window]` |
| `GcProfile.CreateCsvRows` | gc_profile.py:101-135 | writes the six-column header and one row per GC value, row k holding the window text, k, the offset, the strand, the window length and value k |
| `GcProfile.RowsReadWindows` | gc_profile.py:122-129 | for a full scan, row k's subsequence is window k and its GC value is value k |
| `GcProfile.RowsOffsetsInRange` | gc_profile.py:121-131 | for a circular run from a non-negative offset, every row's offset is in `[0, len − window]` |
| `GcProfile.Circularize` | gc_profile.py:238-241 | the sequence grows by `min(window_len, len)` bases and keeps its own bases as a prefix |
| `GcProfile.CircularizedWindows` | gc_profile.py:238-246 | a circularised sequence of length L has L + 1 windows, the last equals the first, and base i is base `i mod L` of the original |
| `GcProfile.CircularizeKeepsDna` | gc_profile.py:238-241 | circularising a DNA sequence keeps it DNA |
| `GcProfile.AnalyzeSequence` | gc_profile.py:236-264 | one record's run: the scanned sequence; one CSV row per window, row k holding window k, k, the running offset, the strand, the window length and GC value k; L + 1 rows with offsets in range when circular; clustering succeeding exactly when a region was detected; and the report lines being the header plus one line per cluster of the detected regions (just the header when there are none) |
| `NaturalSort.SplitDigits` | heatmap/src/heatmap.py:51 | `re.split('([0-9]+)')` alternates text and digit runs, starting with the leading text |
| `NaturalSort.SplitDigitsConcat` | heatmap/src/heatmap.py:51 | the pieces concatenate back to the name |
| `NaturalSort.SplitDigitsUnique` | heatmap/src/heatmap.py:51 | any alternating decomposition is the split of its concatenation |
| `NaturalSort.KeyAlternates` | heatmap/src/heatmap.py:50-51 | a key has odd length with text exactly at even positions, so compared chunks always have the same kind (for the ASCII-digit conversion the model uses) |
| `NaturalSort.ChunkLessIsStrictOrder` | heatmap/src/heatmap.py:50-52 | chunk comparison is a strict order |
| `NaturalSort.LexTransitive` | heatmap/src/heatmap.py:52 | Python's lexicographic list comparison is transitive over a strict order |
| `NaturalSort.LexIrreflexive` | heatmap/src/heatmap.py:52 | no list compares before itself |
| `NaturalSort.BeforeTransitive` | heatmap/src/heatmap.py:52 | key order is transitive |
| `NaturalSort.BeforeIrreflexive` | heatmap/src/heatmap.py:52 | key order is irreflexive |
| `NaturalSort.KeyOfNumbered` | heatmap/src/heatmap.py:50-51 | a digit-free prefix followed by a number has key `[prefix, n, ""]` |
| `NaturalSort.NumberedNamesOrder` | heatmap/src/heatmap.py:42-52 | names sharing a digit-free prefix sort by their numbers |
| `NaturalSort.DocstringOrder` | heatmap/src/heatmap.py:42-48 | `1`, `11`, `100` sort in numeric order |
| `NaturalSort.Insert` | heatmap/src/heatmap.py:52 | inserting adds exactly the element |
| `NaturalSort.SortByIsSorted` | heatmap/src/heatmap.py:52 | the result is ordered by key |
| `NaturalSort.SortByPermutes` | heatmap/src/heatmap.py:52 | the result is a permutation of the input |
| `NaturalSort.InsertSameKey` | heatmap/src/heatmap.py:52 | an inserted name goes after the names sharing its key |
| `NaturalSort.SortByStable` | heatmap/src/heatmap.py:52 | names with equal keys keep their input order |
| `NaturalSort.SortedNicelyProperties` | heatmap/src/heatmap.py:42-52 | `sorted_nicely` returns a stable, key-ordered permutation of its input |
| `Heatmap.RFind` | heatmap/src/heatmap.py:97 | gives the last occurrence of the character, or none when it is absent |
| `Heatmap.StemSuffix` | heatmap/src/heatmap.py:97 | a name's stem followed by its suffix is the name |
| `Heatmap.SuffixMatches` | heatmap/src/heatmap.py:97 | for a name not starting with `.` and a non-empty extension `e` without a dot, the suffix is `.e` exactly when the name ends in `.e` |
| `Heatmap.TargetFileExact` | heatmap/src/heatmap.py:93-102 | a target file is exactly a non-hidden name ending in `.json` and containing `target` |
| `Heatmap.CsvFileExact` | heatmap/src/heatmap.py:212-218 | a CSV file is exactly a non-hidden name ending in `.csv` |
| `Heatmap.Select` | heatmap/src/heatmap.py:93-110 | every kept name passes the filter |
| `Heatmap.SelectMultiplicity` | heatmap/src/heatmap.py:93-110 | each passing name is kept as often as it occurs, others never |
| `Heatmap.TargetsOfSorted` | heatmap/src/heatmap.py:90-110 | sorting first changes neither how many target files there are nor, when there is one, which |
| `Heatmap.CollectTargets` | heatmap/src/heatmap.py:93-110 | the collected names are the target files in order, with the length of the last one found |
| `Heatmap.FindTargetFile` | heatmap/src/heatmap.py:72-126 | fails as not found exactly when no target file exists and as ambiguous exactly when several do; otherwise gives the single file's length |
| `Heatmap.MaxLen` | heatmap/src/heatmap.py:142-152 | bounds every row's length |
| `Heatmap.MaxLenAttained` | heatmap/src/heatmap.py:142-152 | some row reaches the maximum length |
| `Heatmap.Transpose` | heatmap/src/heatmap.py:129-169 | the result has (max column index + 1) rows of (max row index + 1) cells |
| `Heatmap.TransposeEmpty` | heatmap/src/heatmap.py:142-162 | an empty input gives `[["NA"]]` |
| `Heatmap.TransposeCells` | heatmap/src/heatmap.py:159-167 | `out[c][r]` is cell (r, c) wherever the input has one and `"NA"` where a row is short |
| `Heatmap.TransposeTwice` | heatmap/src/heatmap.py:129-169 | a non-empty rectangular matrix transposed twice is itself |
| `Heatmap.TransposeArray` | heatmap/src/heatmap.py:129-169 | computes the transposition |
| `Heatmap.MeasureArray` | heatmap/src/heatmap.py:142-152 | finds the largest row and column index, 0 for an empty input |
| `Heatmap.FillMissing` | heatmap/src/heatmap.py:157-162 | builds a width × height matrix of `"NA"` |
| `Heatmap.CopyCells` | heatmap/src/heatmap.py:165-167 | copying every cell into the `"NA"` matrix gives the transposition |
| `Heatmap.FoldRowsErrSticky` | heatmap/src/heatmap.py:233-254 | once a row raises, the file's result is that error |
| `Heatmap.FoldRowsOk` | heatmap/src/heatmap.py:233-254 | a file reads through exactly when every row has column 13, the header is `duplex deltaG`, and every data row has integer start and end |
| `Heatmap.FoldRowsCollects` | heatmap/src/heatmap.py:226-244 | a file read through leaves the row count and appends the ΔG of every data row, in range or not, in order |
| `Heatmap.FoldRowsBounds` | heatmap/src/heatmap.py:246-254 | the bounds only widen the incoming ones, every in-range data row lies within them, and each bound is either its incoming value or attained by an in-range data row |
| `Heatmap.ReadCsvRows` | heatmap/src/heatmap.py:233-254 | computes the row fold |
| `Heatmap.PrepareFoldErrSticky` | heatmap/src/heatmap.py:212-263 | once a file raises, the whole result is that error |
| `Heatmap.PrepareFoldOk` | heatmap/src/heatmap.py:212-263 | the file loop succeeds exactly when every CSV file reads through and the first has a row; a row count is set exactly when some CSV file was read |
| `Heatmap.PrepareFoldShape` | heatmap/src/heatmap.py:225-263 | file k's column starts with its stem and holds the ΔG of its data rows, and its probe length is \|len_target − data rows\| (the previous one for an empty file) |
| `Heatmap.PrepareFoldBounds` | heatmap/src/heatmap.py:204-254 | min start is the smallest start among the in-range rows over all files (`None` when there are none), and max end is max(0, largest in-range end) |
| `Heatmap.ReadCsvFile` | heatmap/src/heatmap.py:225-263 | reads one file as the file step |
| `Heatmap.VisitEntry` | heatmap/src/heatmap.py:212-218 | reads an entry exactly when it is a CSV file |
| `Heatmap.PrepareHeatmap` | heatmap/src/heatmap.py:184-283 | computes the pre-processing result over the naturally sorted listing |
| `Heatmap.FoldRowsErrKinds` | heatmap/src/heatmap.py:237-247 | a file fails only by a short row, a wrong header or a non-integer coordinate |
| `Heatmap.PrepareFoldErrKinds` | heatmap/src/heatmap.py:212-263 | the file loop never reports the missing-CSV error |
| `Heatmap.PrepareHeatmapOutcome` | heatmap/src/heatmap.py:212-283 | succeeds exactly when a CSV file exists and all read through; fails with the missing-CSV error exactly when there is none |
| `Heatmap.ProbeVector` | heatmap/src/heatmap.py:286-292 | one probe length per file |
| `Heatmap.TransposedLayout` | heatmap/src/heatmap.py:263-278 | the first written row holds the file stems in order, and row j holds each file's ΔG of data row j |
| `Heatmap.ProbeVectorLayout` | heatmap/src/heatmap.py:257-261 | the probe vector holds \|len_target − data rows\| for every non-empty file, in file order |
| `Heatmap.PrepareHeatmapLayout` | heatmap/src/heatmap.py:184-292 | a successful run's columns, transposed rows, probe vector and bounds are as described above |
| `Heatmap.ColumnNumbers` | heatmap/src/heatmap.py:340-343 | one column number per file |
| `Heatmap.ColumnNumbersParse` | heatmap/src/heatmap.py:340-343 | column name i reads back as i + 1 and holds no comma |
| `Heatmap.ColNames` | heatmap/src/heatmap.py:340-343 | builds the column numbers joined by `, ` |
| `Heatmap.ColNamesOfThree` | heatmap/src/heatmap.py:340-343 | three files give `1, 2, 3` |
| `RnaLfold.Repair` | hairpins_rnalfold.py:54-56 | removes one token exactly from a four-token line whose second token is `(`; any other line is unchanged |
| `RnaLfold.RepairDropsParen` | hairpins_rnalfold.py:54-56 | the split `(` token is the one removed |
| `RnaLfold.EnergyOfField` | hairpins_rnalfold.py:62 | `(e)`, `e)` and `e` all strip to the bare number `e` |
| `RnaLfold.RemoveTrailingOfJoin` | hairpins_rnalfold.py:33-38 | of the output split into lines, the three trailing pieces are dropped and the body is kept |
| `RnaLfold.WriteLinesFailureSticky` | hairpins_rnalfold.py:48-68 | after a line raises, later lines write nothing |
| `RnaLfold.LfoldLinesWritten` | hairpins_rnalfold.py:48-68 | the lines written are the parses of the input lines in order, one each, up to the first line that cannot be parsed |
| `RnaLfold.TokensOfOutputLine` | hairpins_rnalfold.py:68 | an output line splits into its three fields |
| `RnaLfold.ParseWhole` | hairpins_rnalfold.py:49-68 | a three-token line with `(e)` gives `<dot-bracket> e  <start>` |
| `RnaLfold.ParseSplit` | hairpins_rnalfold.py:49-68 | a four-token line split as `(`, `e)` gives the same output |
| `RnaLfold.LfoldLineOfShapes` | hairpins_rnalfold.py:49-68 | the joined and the split energy forms of a line give the same output line |
| `RnaLfold.LfoldLineIdempotent` | hairpins_rnalfold.py:49-68 | parsing an output line again reproduces it |
| `RnaLfold.ParseThree` | hairpins_rnalfold.py:61-63 | a line's first three tokens give the dot-bracket, the stripped energy and the start |
| `RnaLfold.LfoldLineIgnoresExtra` | hairpins_rnalfold.py:61-63 | tokens beyond the third do not change the output line |
| `RnaLfold.RepairSplit` | hairpins_rnalfold.py:54-56 | performs the token repair |
| `RnaLfold.DeleteLastThree` | hairpins_rnalfold.py:36-38 | drops the last three pieces, failing when there are fewer |
| `RnaLfold.ParseLine` | hairpins_rnalfold.py:49-68 | gives the line written for one line |
| `RnaLfold.ParseLfoldOutput` | hairpins_rnalfold.py:33-68 | gives the lines written for RNAlfold's output |
| `Saf.FirstGene` | TT-seq/metadata-to-saf.py:22-32 | succeeds exactly when every metadata array is non-empty, with element 0 of each |
| `Saf.SignsOpposite` | TT-seq/metadata-to-saf.py:30-37 | sense is `+` exactly for a positive strand value; the antisense sign is always the other one |
| `Saf.RowLineIsJoin` | TT-seq/metadata-to-saf.py:51-52 | a feature row is its five fields joined by tabs |
| `Saf.RowLineReadsBack` | TT-seq/metadata-to-saf.py:51-52 | splitting a row on tabs gives its five fields, and start and end read back as integers |
| `Saf.SafLayout` | TT-seq/metadata-to-saf.py:43-54 | the file is `<gene>.saf` and starts with the header; when the gene name and chromosome hold no tab or newline, it holds exactly the header, the sense row and the `<gene>anti` row with the opposite sign and the same chromosome, start and end, each row splitting back into its five fields |
| `Saf.SafTextLayout` | TT-seq/metadata-to-saf.py:48-54 | the text starts with the header line; when the gene name and chromosome hold no tab or newline, it is the header and the two rows, each newline-terminated and splitting back into its fields |
| `Saf.SafRowsPlain` | TT-seq/metadata-to-saf.py:51-52 | when the gene name and chromosome hold no tab or newline, both rows hold no newline and split back into their five fields |

## Left out

- Plotting (`plot_gc_profile`): graphics only.
- Input loading (`open_json_file`, `load_seq_file_or_meth`, `determine_target_length_and_seq`): JSON and pandas I/O. The sequence is a parameter; a target file's length is the parameter `lengthOf`.
- The per-record loop in `final_gc_profile_run_command`: `AnalyzeSequence` models one record's run.
- Directory listing, `os.path.exists` asserts and CSV parsing in `prepare_heatmap`: I/O. The listing is a list of names, and a file's rows are the parameter `contents`.
- `save_transposed_data_array_to_csv` and all file writes: I/O. The model returns what would be written.
- `find_target_file` joins the directory path to the name; the model keeps names only.
- `round(item, 1)` in the CSV rows: floating point. Rows carry the exact value.
- The GC fraction's floating-point division: the model computes an exact `real`.
- The `y_axis_increment` division: floating point.
- The `float("inf")` sentinel and the infinite default of `target_to`: both are an `Option` whose `None` means unbounded.
- The R stage of `final_heatmap_run_command`: reading the template, substitution, `mkdir` and `os.system("Rscript …")`. It is a shell call on a template file that is not part of this model.
- `heatmap/run_heatmap.py` is not part of this model.
- The `ViennaAPI.RNALfold` call and the `sort`/`head` shell commands: external tools. The RNAlfold output text is a parameter.
- The `.lfold` output file name: I/O.
- Printing, and the broad `try/except` blocks that print and return `None`: these are modelled as `None`/`Err` results or a failure flag.
- The metadata JSON itself: its load and a missing key (`KeyError`) are not modelled. The arrays are a record. Strand and coordinates are integers; name and chromosome are strings.
- `GcProfile.GcProfileCalc`: requires a sequence over A/C/G/T in either case, because how Biopython's `gc_fraction` counts ambiguity codes is not visible here.
- `GcProfile.AnalyzeSequence`: inherits the same A/C/G/T requirement from `GcProfile.GcProfileCalc`.
- `GcProfile.GcProfileCalc`: does not model negative window lengths, because the window length is typed `nat`.
- `NaturalSort.Convert`: treats a piece as a number only when all its characters are ASCII digits. Python's `isdigit()` also accepts other Unicode digits, such as `٣` or `²`. On such names Python's `int()` can raise `ValueError`, or the sort can raise `TypeError` comparing an int with a str; neither is modelled. The model keys those pieces as text, and `NaturalSort.KeyAlternates` holds for the model's key only.
- `Text.ParseInt`: reads an optional sign and ASCII digits only. It does not model `int()`'s acceptance of surrounding white space, underscores and non-ASCII digits.
