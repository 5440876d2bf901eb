# A verified model of the mass-spec benchmark prediction driver

`run_predictors.py` runs a peptide–MHC predictor over every peptide × allele pair
of a benchmark. It writes one column file per `(allele, kind)` pair. It can reuse the
columns of earlier runs and recompute only what is still missing. This project models
the driver's own logic in Dafny and proves what that logic guarantees:

- **Inputs** (`inputs.dfy`). The allele list is `sorted(set(...))`. The peptide list
  is read with an optional row cap, de-duplicated, filtered by the amino-acid pattern
  and made unique. `PREDICTOR_TO_COLS` gives each predictor's kinds of value. The
  manifest has one row per allele and kind, holding the column id `allele kind` and a
  file path with `*` removed, spaces turned into dots, and `.npz` appended.
- **The result table** (`frames.dfy`). The table is a map from (peptide, column) to an
  optional value. NaN is an absent key. `.loc[labels, col] = values` is modelled with
  pandas' failure modes: an unknown label, or a length mismatch.
- **Loading and saving** (`store.dfy`). `load_results` has two branches:
  - a fresh table over the stored peptides and columns;
  - a load into an existing table, which keeps only shared columns and masks the
    arrays to shared peptides.

  It also covers the old-style manifest upgrade, the sequential loading of reuse
  directories (blank and missing directory names are skipped), and the final flush of
  every column file. A re-run can name its own output directory as a reuse entry. By
  then it has already overwritten that directory's peptide and allele lists, so the
  earlier run's arrays are read against the new lists. Saving and then loading returns the same table, provided the
  peptides, the column ids and the file paths are each free of repeats.
- **Blocks of missing cells** (`blocks.dfy`). `blocks_of_ones` turns the 0/1 "missing"
  matrix into rectangles of 1s. The loop and its assertion are modelled as written,
  next to the version with a `break` that the assertion evidently expects.
- **Chunks** (`chunks.dfy`). `int(math.ceil(n / chunk_size))` followed by
  `numpy.array_split`.
- **Scheduling** (`plan.dfy`, `tasks.dfy`):
  - the missing matrix;
  - the jobs of a fresh run and of a reuse run;
  - work-item numbering;
  - the stable sort of work items by size;
  - the greedy packing of work items into tasks.
- **Merging** (`merge.dfy`). Each worker result `(work_item_num, {col: predictions})`
  is written into the table. When results write disjoint cells, their arrival order
  does not matter.

Where a program operation can raise, the model returns a `Result`. The error names
the raising site: division by zero, `array_split` with no sections, a failed
`blocks_of_ones` assertion, a missing file, an unknown column, an out-of-range work
item number, or a `.loc` length or label error.

## Model

Source paths are relative to the repository root. Every row cites
`downloads-generation/data_mass_spec_benchmark/run_predictors.py`.

| member | source | states |
|---|---|---|
| Blocks.FirstRowWithOne | downloads-generation/data_mass_spec_benchmark/run_predictors.py:148 | the seed row is the first row that holds a 1; every earlier row is all 0 |
| Blocks.ArgMax | downloads-generation/data_mass_spec_benchmark/run_predictors.py:152 | numpy `argmax` on a boolean vector is the first `true`, or 0 when there is none |
| Blocks.HasOneIffOnes | downloads-generation/data_mass_spec_benchmark/run_predictors.py:147 | the loop condition `arr.sum() > 0` holds exactly when the matrix has a 1 |
| Blocks.SeedIsFirstOne | downloads-generation/data_mass_spec_benchmark/run_predictors.py:148 | the seed `unravel_index(argmax)` is a 1, and no 1 precedes it in row-major order |
| Blocks.DownEdge | downloads-generation/data_mass_spec_benchmark/run_predictors.py:151-157 | the downward extension stays inside the matrix, below or at the seed row |
| Blocks.DownEdgeIsRunEnd | downloads-generation/data_mass_spec_benchmark/run_predictors.py:151-157 | the block's bottom row ends the run of 1s below the seed: all rows down to it are 1 in the seed column, and the row after it is 0 |
| Blocks.ScanRight | downloads-generation/data_mass_spec_benchmark/run_predictors.py:159-162 | the loop without `break` ends at the last full column; no later column is full |
| Blocks.ScanRightToGap | downloads-generation/data_mass_spec_benchmark/run_predictors.py:159-162 | with a `break`, the scan ends at the last column of the run of full columns from the seed; the next column is not full |
| Blocks.NextBlockShape | downloads-generation/data_mass_spec_benchmark/run_predictors.py:148-162 | one round's proposed block: the seed is the first 1, the bottom ends the run, and the right edge is the last full column (as written) or the end of the contiguous full run (with `break`) |
| Blocks.AssertionFiresIffGap | downloads-generation/data_mass_spec_benchmark/run_predictors.py:159-166 | the assertion fails exactly when some column strictly between the seed column and the last full column is not full |
| Blocks.RoundsAgree | downloads-generation/data_mass_spec_benchmark/run_predictors.py:159-166 | whenever the assertion passes, the block as written equals the block the `break` version proposes |
| Blocks.StopAtGapRoundIsOnes | downloads-generation/data_mass_spec_benchmark/run_predictors.py:159-166 | with a `break`, the proposed block is all 1s |
| Blocks.Clear | downloads-generation/data_mass_spec_benchmark/run_predictors.py:167 | zeroing the block changes exactly the block's cells, to 0 |
| Blocks.ClearOnes | downloads-generation/data_mass_spec_benchmark/run_predictors.py:167 | after zeroing, the set of 1s is the old set minus the block's cells |
| Blocks.ClearShrinks | downloads-generation/data_mass_spec_benchmark/run_predictors.py:147-167 | zeroing a block that holds a 1 strictly lowers the count of 1s, so the loop terminates |
| Blocks.ExtendCover | downloads-generation/data_mass_spec_benchmark/run_predictors.py:164-169 | prepending the zeroed block to an exact, disjoint cover of the rest gives an exact, disjoint cover of the matrix |
| Blocks.Extract | downloads-generation/data_mass_spec_benchmark/run_predictors.py:131-170 | `blocks_of_ones`: on success the blocks are in-bounds rectangles of 1s, pairwise disjoint, covering exactly the 1s; a failed assertion is an error |
| Blocks.StopAtGapNeverFails | downloads-generation/data_mass_spec_benchmark/run_predictors.py:145-170 | with a `break` in the rightward loop, `blocks_of_ones` succeeds on every matrix |
| Blocks.AsWrittenAgreesWhenOk | downloads-generation/data_mass_spec_benchmark/run_predictors.py:145-170 | whenever the program's version returns, it returns the same blocks as the `break` version |
| Blocks.GapBreaksAssertion | downloads-generation/data_mass_spec_benchmark/run_predictors.py:159-166 | on `[[1, 0, 1]]` the program's version proposes `(0, 0, 0, 2)` and its assertion fails |
| Chunks.CeilDiv | downloads-generation/data_mass_spec_benchmark/run_predictors.py:275 | `math.ceil(a / b)` is the least `q` with `a <= q * b` for positive `b` (mirrored for negative `b`) |
| Chunks.NumChunks | downloads-generation/data_mass_spec_benchmark/run_predictors.py:275 | a zero chunk size raises; a positive one gives just enough chunks to hold `n` items; a negative one gives at most 0 |
| Chunks.CutSizes | downloads-generation/data_mass_spec_benchmark/run_predictors.py:277 | cutting at `array_split`'s boundaries makes every piece `q` long, and the first `m` pieces one longer |
| Chunks.FlattenCutPrefix | downloads-generation/data_mass_spec_benchmark/run_predictors.py:277 | the first `k` pieces concatenate to the prefix of the list up to boundary `k` |
| Chunks.ArraySplit | downloads-generation/data_mass_spec_benchmark/run_predictors.py:277 | `numpy.array_split`: fewer than one section raises; otherwise the pieces concatenate back to the list, and the first `len % n` pieces hold one element more |
| Chunks.PieceSizeBound | downloads-generation/data_mass_spec_benchmark/run_predictors.py:275-277 | with `ceil(total / c)` sections, no piece is longer than `c` |
| Chunks.PiecesNonEmpty | downloads-generation/data_mass_spec_benchmark/run_predictors.py:275-277 | with `ceil(total / c)` sections of a non-empty list, every piece is non-empty |
| Chunks.Chunk | downloads-generation/data_mass_spec_benchmark/run_predictors.py:274-277 | the fresh-run split fails exactly when the chunk size is not positive or the list is empty; otherwise the pieces concatenate back in order, are just enough in number, are non-empty and within the chunk size, and differ in size by at most one with the larger first |
| Common.Slice | downloads-generation/data_mass_spec_benchmark/run_predictors.py:259-260 | Python slicing with non-negative bounds: in range it is the subsequence; an end past the list is clipped to it; a start at or past the end, or not before the end, gives the empty list |
| Inputs.InsertSorted | downloads-generation/data_mass_spec_benchmark/run_predictors.py:187 | inserting into a strictly increasing list keeps it strictly increasing, with exactly the old elements and the new one |
| Inputs.SortedUnique | downloads-generation/data_mass_spec_benchmark/run_predictors.py:187 | `sorted(set(xs))` is strictly increasing under Python's string order and holds exactly the elements of `xs` |
| Inputs.SortedIsCanonical | downloads-generation/data_mass_spec_benchmark/run_predictors.py:187 | two strictly increasing lists with the same elements are equal |
| Inputs.SortedUniqueIgnoresOrder | downloads-generation/data_mass_spec_benchmark/run_predictors.py:186-187 | the allele list depends only on which alleles were given, not on their order or repetition |
| Inputs.StrictlySortedDistinct | downloads-generation/data_mass_spec_benchmark/run_predictors.py:187 | a strictly increasing list has no repeats |
| Inputs.PeptidePatternExamples | downloads-generation/data_mass_spec_benchmark/run_predictors.py:192 | the pattern accepts upper-case amino-acid strings, and one trailing newline (Python's `$`); it rejects the empty string, other letters, lower case and two newlines |
| Inputs.DropDuplicates | downloads-generation/data_mass_spec_benchmark/run_predictors.py:189-190 | `drop_duplicates` keeps each value once, the same set of values, in order of first appearance |
| Inputs.DropDuplicatesOfDistinct | downloads-generation/data_mass_spec_benchmark/run_predictors.py:194 | on a list without repeats, `unique()` changes nothing |
| Inputs.Filter | downloads-generation/data_mass_spec_benchmark/run_predictors.py:192 | boolean selection keeps exactly the elements that satisfy the predicate, and keeps a repeat-free list repeat-free |
| Inputs.FilterKeepsOrder | downloads-generation/data_mass_spec_benchmark/run_predictors.py:192 | on a repeat-free list, selection keeps the order of the original |
| Inputs.KeepValid | downloads-generation/data_mass_spec_benchmark/run_predictors.py:192 | the pattern filter keeps exactly the valid peptides, without repeats and in their original order |
| Inputs.Taken | downloads-generation/data_mass_spec_benchmark/run_predictors.py:189-190 | `nrows=max_peptides` reads a prefix of the rows: all of them without a cap, otherwise `min(max_peptides, len(rows))` |
| Inputs.KeepValidKeepsFirstOrder | downloads-generation/data_mass_spec_benchmark/run_predictors.py:189-194 | after de-duplicating and filtering, peptides are in the order they first appear in the file |
| Inputs.NormalizePeptides | downloads-generation/data_mass_spec_benchmark/run_predictors.py:189-195 | the peptide list has no repeats, holds exactly the valid peptides of the rows read, and keeps their order of first appearance |
| Inputs.KindsOf | downloads-generation/data_mass_spec_benchmark/run_predictors.py:84-87 | the kinds map knows exactly the two predictors; each predictor's kinds are non-empty, start with `affinity`, have no repeats and contain no space |
| Inputs.SanitizeClean | downloads-generation/data_mass_spec_benchmark/run_predictors.py:221-222 | the cleaned name has no `*` and no space, and is no longer than the original |
| Inputs.SanitizeKeepsPlain | downloads-generation/data_mass_spec_benchmark/run_predictors.py:221-222 | a name without `*` or space is left as it is |
| Inputs.PathOfShape | downloads-generation/data_mass_spec_benchmark/run_predictors.py:221-222 | a column file name has no `*` and no space, and ends in `.npz` |
| Inputs.PathLayout | downloads-generation/data_mass_spec_benchmark/run_predictors.py:219-222 | a path is the cleaned allele, a dot, the cleaned kind, then `.npz` |
| Inputs.PathsCanCollide | downloads-generation/data_mass_spec_benchmark/run_predictors.py:219-222 | two different columns (`HLA-A*02:01 affinity` and `HLA-A02:01 affinity`) share one file path |
| Inputs.ManifestOnlyRows | downloads-generation/data_mass_spec_benchmark/run_predictors.py:213-222 | every manifest row belongs to a given allele and a given kind, with the column id and path those determine |
| Inputs.ManifestSize | downloads-generation/data_mass_spec_benchmark/run_predictors.py:213-218 | the manifest has `alleles × kinds` rows |
| Inputs.RowInManifest | downloads-generation/data_mass_spec_benchmark/run_predictors.py:213-218 | every (allele, kind) pair has its row in the manifest |
| Inputs.ManifestLayout | downloads-generation/data_mass_spec_benchmark/run_predictors.py:213-218 | row `i * |kinds| + j` is allele `i` with kind `j`: alleles in the outer loop, kinds in the inner one |
| Inputs.RowAt | downloads-generation/data_mass_spec_benchmark/run_predictors.py:213-218 | the row at offset `i * |kinds| + j` is in range and holds allele `i` and kind `j` |
| Inputs.ColumnNameInjective | downloads-generation/data_mass_spec_benchmark/run_predictors.py:219-220 | with space-free kinds, a column id determines its allele and kind |
| Inputs.ManifestColumnsDistinct | downloads-generation/data_mass_spec_benchmark/run_predictors.py:213-222 | with distinct alleles and distinct, space-free kinds, every manifest row names a different column |
| Frames.Empty | downloads-generation/data_mass_spec_benchmark/run_predictors.py:229-231 | a new table has the given index and columns and is NaN everywhere |
| Frames.Column | downloads-generation/data_mass_spec_benchmark/run_predictors.py:352 | `result_df[col].values` lists the column's cells in index order |
| Frames.WriteCells | downloads-generation/data_mass_spec_benchmark/run_predictors.py:361-364 | writing values at labels in order: each listed label ends with the value at its last occurrence; other cells are untouched |
| Frames.Assign | downloads-generation/data_mass_spec_benchmark/run_predictors.py:361-364 | `.loc[labels, col] = values` fails exactly when a label is not in the index or the lengths differ; on success it adds the column if new, sets each label's cell in that column, and leaves everything else |
| Frames.AssignIdempotent | downloads-generation/data_mass_spec_benchmark/run_predictors.py:361-364 | repeating an assignment changes nothing |
| Frames.AssignCommute | downloads-generation/data_mass_spec_benchmark/run_predictors.py:361-364 | assignments to different columns, or to disjoint labels, can be done in either order |
| Store.Save | downloads-generation/data_mass_spec_benchmark/run_predictors.py:223-224 | the manifest file the program writes has `kind` and `col` columns and one line per row |
| Store.Upgrade | downloads-generation/data_mass_spec_benchmark/run_predictors.py:102-106 | reading a stored manifest keeps one row per stored line, each upgraded on its own (what each case yields is stated by `Store.UpgradeSaved`, `Store.UpgradeOldStyle` and `Store.UpgradeOneMissing`) |
| Store.UpgradeSaved | downloads-generation/data_mass_spec_benchmark/run_predictors.py:102-106 | a manifest the current code wrote reads back unchanged |
| Store.UpgradeOneMissing | downloads-generation/data_mass_spec_benchmark/run_predictors.py:102-106 | a manifest without `col` gets `allele kind` ids at the stored paths; one without `kind` gets affinity rows that keep their stored ids and paths |
| Store.UpgradeOldStyle | downloads-generation/data_mass_spec_benchmark/run_predictors.py:102-106 | an old-style manifest reads back as `affinity` rows with column id `allele affinity`, at the stored paths |
| Store.RowFor | downloads-generation/data_mass_spec_benchmark/run_predictors.py:121-126 | the row that supplies a column is a manifest row naming that column (the last one, which the loop writes last) |
| Store.InTarget | downloads-generation/data_mass_spec_benchmark/run_predictors.py:116 | `peptides.isin(index)` marks exactly the peptides in the target index |
| Store.Mask | downloads-generation/data_mass_spec_benchmark/run_predictors.py:116-117 | boolean indexing keeps as many elements as marks, all from the input |
| Store.MaskMember | downloads-generation/data_mass_spec_benchmark/run_predictors.py:116-117 | the masked peptide list holds exactly the stored peptides that are also in the target |
| Store.MaskLast | downloads-generation/data_mass_spec_benchmark/run_predictors.py:124-126 | masking the values with the same mask keeps each kept peptide aligned with its own stored value |
| Store.LoadRows | downloads-generation/data_mass_spec_benchmark/run_predictors.py:121-126 | the column loop fails exactly when a listed file is missing or has the wrong length; the table keeps its index and columns |
| Store.LoadRowsContent | downloads-generation/data_mass_spec_benchmark/run_predictors.py:121-126 | after the loop, each transferred peptide of each listed column holds its value from the last row naming that column; every other cell is unchanged |
| Store.KeepCols | downloads-generation/data_mass_spec_benchmark/run_predictors.py:115 | `col.isin(result_df.columns)` keeps exactly the rows whose column the target has |
| Store.KeepColsRowFor | downloads-generation/data_mass_spec_benchmark/run_predictors.py:115-126 | dropping the target's missing columns does not change which row supplies a column the target has |
| Store.LoadFresh | downloads-generation/data_mass_spec_benchmark/run_predictors.py:108-128 | loading with no target fails exactly when a listed file is missing or misshapen; the table's index is the stored peptides and its columns the manifest's |
| Store.LoadFreshContent | downloads-generation/data_mass_spec_benchmark/run_predictors.py:108-128 | a freshly loaded table holds exactly what the files hold, and NaN elsewhere |
| Store.LoadInto | downloads-generation/data_mass_spec_benchmark/run_predictors.py:114-128 | loading into a target fails exactly when a shared column's file is missing or misshapen; it keeps the target's shape, overwrites exactly the cells whose column and peptide are in both, and leaves every other cell |
| Store.ApplyReuse | downloads-generation/data_mass_spec_benchmark/run_predictors.py:233-241 | loading the reuse directories in turn fails exactly when some present directory lacks a file it would read or holds one of the wrong length; otherwise the table keeps its index and columns |
| Store.LaterSourceWins | downloads-generation/data_mass_spec_benchmark/run_predictors.py:233-241 | the last directory loaded decides every cell it covers, whatever earlier directories held |
| Store.LaterUncoveringKeep | downloads-generation/data_mass_spec_benchmark/run_predictors.py:233-241 | directories after the first `k` entries that do not cover a cell leave it as those entries left it |
| Store.LastCoveringDecides | downloads-generation/data_mass_spec_benchmark/run_predictors.py:233-241 | the last present directory that covers a cell decides its value, whatever comes before or after it |
| Store.InPlaceStale | downloads-generation/data_mass_spec_benchmark/run_predictors.py:209-241 | reading the output directory in place fails when a column of this run has no file of the right length there, as for a new allele or a changed peptide count |
| Store.InPlaceCountChanged | downloads-generation/data_mass_spec_benchmark/run_predictors.py:209-241 | a re-run over the same manifest with a different number of peptides fails to read the earlier run's arrays in place |
| Store.InPlaceLoads | downloads-generation/data_mass_spec_benchmark/run_predictors.py:209-241 | with as many peptides as the earlier run, reading in place succeeds |
| Store.InPlaceByPosition | downloads-generation/data_mass_spec_benchmark/run_predictors.py:209-241 | values read in place land by position: peptide `i` of this run takes the earlier run's value for its peptide `i`, whatever that peptide was |
| Store.InPlaceResumes | downloads-generation/data_mass_spec_benchmark/run_predictors.py:209-241 | with unchanged peptides and manifest, reading in place restores the earlier table exactly |
| Store.UncoveredUnchanged | downloads-generation/data_mass_spec_benchmark/run_predictors.py:233-241 | a cell that no loaded directory covers keeps its value; blank and absent entries change nothing |
| Store.WriteColumns | downloads-generation/data_mass_spec_benchmark/run_predictors.py:369-371 | the final flush fails exactly when a column has no manifest row (the `col_to_filename` lookup); otherwise every column's path is written |
| Store.WriteColumnsPaths | downloads-generation/data_mass_spec_benchmark/run_predictors.py:349-352 | every file written is the path of some flushed column |
| Store.DistinctPaths | downloads-generation/data_mass_spec_benchmark/run_predictors.py:221-226 | with distinct paths in the manifest, distinct columns go to distinct files |
| Store.WriteColumnsContent | downloads-generation/data_mass_spec_benchmark/run_predictors.py:349-352 | with distinct paths, each column's file holds exactly that column's values in index order |
| Store.Persist | downloads-generation/data_mass_spec_benchmark/run_predictors.py:369-371 | the output directory after the final flush holds the table's peptides and the manifest, which reads back unchanged |
| Store.RoundTrip | downloads-generation/data_mass_spec_benchmark/run_predictors.py:90-128 | with distinct peptides, column ids and paths, loading the flushed output directory gives back exactly the table that was written |
| Plan.AlleleMissing | downloads-generation/data_mass_spec_benchmark/run_predictors.py:247-248 | an allele is missing for a peptide exactly when one of its manifest columns is NaN there |
| Plan.MissingMatrix | downloads-generation/data_mass_spec_benchmark/run_predictors.py:245-248 | `is_null_matrix` has one row per peptide and one column per allele; a cell is set exactly when some manifest column of that allele is NaN for that peptide |
| Plan.MissingIffSomeKindNull | downloads-generation/data_mass_spec_benchmark/run_predictors.py:243-248 | over the program's manifest, a cell is set exactly when one of the allele's kinds is NaN for the peptide |
| Plan.JobsFor | downloads-generation/data_mass_spec_benchmark/run_predictors.py:267-272 | one work item per piece, in order, each for the given alleles |
| Plan.ScheduledPieces | downloads-generation/data_mass_spec_benchmark/run_predictors.py:267-272 | jobs cut from one list schedule exactly the pairs of a listed peptide with one of their alleles |
| Plan.FreshJobs | downloads-generation/data_mass_spec_benchmark/run_predictors.py:274-285 | a fresh run fails exactly when the chunk size is not positive or there are no peptides; otherwise its jobs cover the peptides in order, within the chunk size, and schedule exactly every (peptide, allele) pair |
| Plan.WholeListJobs | downloads-generation/data_mass_spec_benchmark/run_predictors.py:263-265 | the reuse branch as written cuts the whole peptide list into `ceil(|block rows| / chunk_size)` pieces |
| Plan.BlockRowsJobs | downloads-generation/data_mass_spec_benchmark/run_predictors.py:263-265 | the corrected split cuts the block's own rows into pieces within the chunk size, covering them in order |
| Plan.BlockJobs | downloads-generation/data_mass_spec_benchmark/run_predictors.py:258-272 | a block's jobs fail exactly when the chunk size is not positive or the block has no rows; they are for the block's alleles and cover all peptides (as written) or the block's rows within the chunk size (corrected) |
| Plan.BlockJobsCount | downloads-generation/data_mass_spec_benchmark/run_predictors.py:263 | a block yields `ceil(|block rows| / chunk_size)` jobs, whichever list is split |
| Plan.JoinAll | downloads-generation/data_mass_spec_benchmark/run_predictors.py:257-272 | the concatenated job list fails exactly when one block's jobs fail |
| Plan.ReuseJobs | downloads-generation/data_mass_spec_benchmark/run_predictors.py:257-272 | the reuse schedule fails exactly when some block's jobs fail |
| Plan.ReuseJobsScheduled | downloads-generation/data_mass_spec_benchmark/run_predictors.py:257-272 | a pair is in the reuse schedule exactly when some block's jobs schedule it |
| Plan.BlockScheduled | downloads-generation/data_mass_spec_benchmark/run_predictors.py:258-272 | a corrected block schedules exactly its rows' peptides against its alleles |
| Plan.BlockSchedulesItsCells | downloads-generation/data_mass_spec_benchmark/run_predictors.py:258-272 | with distinct peptides and alleles, a corrected block schedules peptide `i` against allele `j` exactly when it contains cell `(i, j)` |
| Plan.CellInSomeBlock | downloads-generation/data_mass_spec_benchmark/run_predictors.py:139-142 | after a successful extraction, a cell is 1 exactly when some block contains it |
| Plan.ReuseScheduleExact | downloads-generation/data_mass_spec_benchmark/run_predictors.py:243-272 | the corrected reuse schedule is exact: peptide `i` is scheduled against allele `j` exactly when the missing matrix marks `(i, j)` |
| Plan.OneBlock | downloads-generation/data_mass_spec_benchmark/run_predictors.py:257-272 | a reuse run with a single block schedules that block's jobs |
| Plan.WholeListExample | downloads-generation/data_mass_spec_benchmark/run_predictors.py:263-265 | as written, block `(0,0,0,0)` over peptides `P, Q` with chunk size 1 yields one job of both peptides |
| Plan.BlockRowsExample | downloads-generation/data_mass_spec_benchmark/run_predictors.py:263-265 | corrected, the same block yields one job of `P` alone |
| Plan.WholeListOverschedules | downloads-generation/data_mass_spec_benchmark/run_predictors.py:263-265 | with only `(P, A)` missing, the schedule as written recomputes `Q`, whose value is present, in a job larger than the chunk size; the corrected one schedules `P` alone |
| Tasks.Number | downloads-generation/data_mass_spec_benchmark/run_predictors.py:288-289 | numbering keeps every job's peptides and alleles, one item per job |
| Tasks.NumberLocates | downloads-generation/data_mass_spec_benchmark/run_predictors.py:288-289 | an item's number is its position, so `work_items[num]` finds it again |
| Tasks.Insert | downloads-generation/data_mass_spec_benchmark/run_predictors.py:295 | insertion adds exactly the one item |
| Tasks.InsertKeepsSorted | downloads-generation/data_mass_spec_benchmark/run_predictors.py:295 | inserting into a size-sorted list keeps it sorted |
| Tasks.InsertOfSize | downloads-generation/data_mass_spec_benchmark/run_predictors.py:295 | the inserted item goes first among the items of its size; other sizes are untouched |
| Tasks.SortBySize | downloads-generation/data_mass_spec_benchmark/run_predictors.py:294-295 | `sorted(..., key=len(peptides))` is in ascending size, a permutation, and stable: the items of each size keep their order |
| Tasks.StableSortUnique | downloads-generation/data_mass_spec_benchmark/run_predictors.py:295 | two size-sorted lists with the same items of every size, in the same order, are equal |
| Tasks.SortBySizeIsTheStableSort | downloads-generation/data_mass_spec_benchmark/run_predictors.py:295 | any size-sorted arrangement that keeps the order within each size is exactly the sort's result |
| Tasks.Place | downloads-generation/data_mass_spec_benchmark/run_predictors.py:296-306 | after one turn of the packing loop there is a last task and a running count |
| Tasks.JoinLast | downloads-generation/data_mass_spec_benchmark/run_predictors.py:296-302 | adding an item to the last task keeps the packing invariant |
| Tasks.OpenNew | downloads-generation/data_mass_spec_benchmark/run_predictors.py:303-306 | opening a new task keeps the packing invariant |
| Tasks.PackAll | downloads-generation/data_mass_spec_benchmark/run_predictors.py:292-306 | the tasks concatenate back to the items; none is empty; the counter is the last task's size; a task of two or more items stays below the chunk size; and each task was closed because the next item would reach it |
| Tasks.Pack | downloads-generation/data_mass_spec_benchmark/run_predictors.py:291-306 | the tasks hold the items in stable size order, each item exactly once, none empty, and any task with several items below the chunk size |
| Merge.WriteColumns | downloads-generation/data_mass_spec_benchmark/run_predictors.py:360-367 | a result's column loop fails exactly when a column is unknown (the per-column bookkeeping lookup) or an array or label does not fit; otherwise each listed column takes its last array at the item's peptides, and nothing else changes |
| Merge.MergeResult | downloads-generation/data_mass_spec_benchmark/run_predictors.py:358-364 | a result without columns changes nothing and never fails, since the item is looked up only per column; any other result fails exactly when it is not applicable, with an index error for a number that names no item; otherwise exactly the touched cells change, each to the value the result gives it |
| Merge.MergeIdempotent | downloads-generation/data_mass_spec_benchmark/run_predictors.py:358-364 | merging the same result twice is merging it once |
| Merge.MergeAll | downloads-generation/data_mass_spec_benchmark/run_predictors.py:358-364 | merging a stream fails exactly when some result with columns is not applicable; results without columns never fail; the table keeps its shape |
| Merge.MergeAllCell | downloads-generation/data_mass_spec_benchmark/run_predictors.py:358-364 | with disjoint results, each cell holds what the result touching it wrote, or its original value when none does |
| Merge.FreshRunDisjoint | downloads-generation/data_mass_spec_benchmark/run_predictors.py:274-290 | in a fresh run over repeat-free peptides, results naming distinct work items never write the same cell |
| Merge.CellAgrees | downloads-generation/data_mass_spec_benchmark/run_predictors.py:338-364 | two orders of the same disjoint results agree on every cell |
| Merge.ArrivalOrderIrrelevant | downloads-generation/data_mass_spec_benchmark/run_predictors.py:338-364 | results arriving in any order (as from `imap_unordered`) give the same final table when they write disjoint cells |
| Merge.FreshRunOrderIrrelevant | downloads-generation/data_mass_spec_benchmark/run_predictors.py:338-364 | in a fresh run, results naming distinct work items give the same final table in any arrival order |

## Left out

- Command-line parsing, logging, the stack-trace signal handler, progress bars and
  every `print`: none affects the computed values.
- File and CSV I/O is modelled by values. A directory is its peptide list, its manifest
  and a map from path to array. `os.path.exists` on a reuse entry becomes the `Absent`
  case. Absolute paths are not modelled (`os.path.abspath` and the join with `--out`).
- Inputs.NormalizePeptides: the rows are strings, so cells that `read_csv` reads as
  NaN (an empty cell, or a default NaN marker such as `NA`) are not modelled. In the
  program such a row makes `str.match` yield NaN and the boolean selection at line 192
  raise `ValueError`. The model instead drops an empty row, because it does not match
  the pattern, and keeps `NA` as a valid peptide.
- `normalize_allele_name` (line 186) is a foreign library: the model takes the alleles
  as already normalised.
- The predictors (`do_predictions_mhcflurry`, `do_predictions_mhctools`) and the
  executors (serial generator, cluster runner, worker pool, lines 311-341) are left
  out. Their output enters the model as a stream of `ItemResult`s in any order.
- The periodic flush every 180 seconds (lines 365-367) depends on the clock. Only the
  final flush is modelled, and it overwrites every column file anyway.
- Chunks.CeilDiv: `math.ceil(n / chunk_size)` at lines 263 and 275 divides in floating
  point, while the model takes the exact integer ceiling. The two agree while the
  peptide count is below 2^53. A quotient that is not a whole number then lies at least
  `1 / chunk_size` from one, which is more than the rounding error. Larger counts are
  not modelled.
- Values are reals with no `float32` rounding. NaN is an absent cell rather than a
  floating-point value.
- The `Fraction null` statistic and the timing of block computation are printed only.
- Merge.MergeAllCell: states cell contents only for streams whose results write
  disjoint cells. In the reuse branch as written, the blocks' jobs overlap, so the
  last writer wins and this lemma does not apply.
- Store.ApplyReuse: its contract states the failure condition and the shape. The value
  of each cell is stated by `Store.LastCoveringDecides` (some present directory covers
  it) and `Store.UncoveredUnchanged` (none does).
- Store.WriteColumns, Store.LoadFresh: a manifest that repeats a column id resolves to
  its last row. pandas instead raises in `write_col` (the lookup yields several paths)
  and builds a table with a repeated column. The program's own manifest never repeats
  an id (`Inputs.ManifestColumnsDistinct`), so only hand-edited manifests differ.
- Unreadable reuse entries: an existing reuse entry that is a regular file, or a directory
  without `peptides.csv` or `alleles.csv`, makes `read_csv` raise (lines 91-93). The
  model's `Present` always carries both files, so it does not express this error.
- Inputs.Taken: a negative `--max-peptides` makes `read_csv` raise. The cap is a
  natural number in the model, so that error is not expressed.
- Blocks.DownEdge: its contract states only the bounds. The run it ends is stated by
  `Blocks.DownEdgeIsRunEnd`.
- Store.Mask: its contract states the length and membership only. Alignment with the
  values is stated by `Store.MaskMember` and `Store.MaskLast`.
- Tasks.Place: its contract states only that a last task exists. What a turn keeps
  true is stated by `Tasks.JoinLast` and `Tasks.OpenNew`.

The model follows the code where the code and the program's documented behaviour
differ:

- A reuse entry that names the output directory is read after this run has rewritten
  its `peptides.csv` and `alleles.csv` (lines 209-224 come before 233-241). Only
  unchanged inputs give the earlier table back (`Store.InPlaceResumes`). A changed
  peptide count or a new allele raises (`Store.InPlaceStale`). A reordered or replaced
  peptide list of the same length silently moves values onto other peptides
  (`Store.InPlaceByPosition`).
- Only empty or nonexistent reuse directory names are skipped (lines 235-241). A
  manifest row whose file is missing or has the wrong length inside an existing
  directory is an error, not a skipped column.
- Cleaning a column name into a path can make two columns share a file
  (`Inputs.PathsCanCollide`). The save/load round trip therefore assumes distinct
  paths. The collision is a property of the path function alone. The witness pair
  (`HLA-A*02:01`, `HLA-A02:01`) names one allele, so `normalize_allele_name` would map
  both to the same name. Whether two normalised alleles can collide is not shown.

## Findings

| source | as written | input that shows it | evidently intended | confidence | as-written member | corrected member |
|---|---|---|---|---|---|---|
| downloads-generation/data_mass_spec_benchmark/run_predictors.py:159-166 | the rightward loop has no `break`: the right edge becomes the last full column even past a column that is not full, so the assertion after it fails | the matrix `[[1, 0, 1]]`, a peptide missing for alleles 0 and 2 but present for allele 1 | stop at the first column that is not full, so every proposed block is all 1s | high; not executed | Blocks.GapBreaksAssertion | Blocks.StopAtGapNeverFails |
| downloads-generation/data_mass_spec_benchmark/run_predictors.py:265 | each block's chunks are cut from the whole peptide list, not from the block's rows, so every block recomputes every peptide and a job can exceed the chunk size | peptides `P`, `Q`; allele `A`; chunk size 1; only `(P, A)` missing | `numpy.array_split(block_peptides, num_chunks)` | high; not executed | Plan.WholeListOverschedules | Plan.ReuseScheduleExact |
