# Uni-Dock benchmark drivers, modelled in Dafny

The Uni-Dock benchmark repository drives the `unidock` docking program over
two kinds of datasets and records how it performs.

- **Pose accuracy** (`scripts/test_molecular_docking.py`). For every
  dataset, search mode, round and protein structure, the driver:
  - builds a `unidock` command and runs it;
  - has the RMSD of each pose computed against the crystal ligand;
  - records an entry in a nested `results` map and, for a case that
    produced poses, a line of `results.csv`;
  - aggregates a success rate and a mean time per dataset, mode and round.
- **Virtual screening** (`scripts/test_virtual_screening.py`). For every
  selected dataset, the driver:
  - splits the actives and inactives SDF files into one file per molecule;
  - runs one screen per search mode over the list of those files;
  - writes one CSV row per dataset and mode.
- **Helpers** (`scripts/utils/`):
  - `read_unidock_score` reads the docking scores back out of an SDF
    result file;
  - `ef_score` checks and sorts labelled scores before an enrichment
    computation.

The model has seven modules.

- `Wrappers`: `Option` and `Result`.
- `Text`:
  - `str.split(sep)` with its join round trip;
  - `readlines()`;
  - whitespace `split()`;
  - `partition` and prefix tests.
- `RunConfig`:
  - the JSON configuration;
  - Python's insertion-ordered dict with `update`, and the "defaults
    updated by `unidock_args`" merge.
- `ReadScore`: the score reader. The loop is a method, proved equal to a
  recursive scan, and the scan is characterised by lemmas.
- `Metric`: `ef_score`'s validation, pairing and stable sort.
- `MolecularDocking`:
  - the command and the Top-1/3/10 tests;
  - the `results` map and `results.csv` as fields of a `DockingSweep`
    class whose loop methods are proved against recursive functions;
  - the metrics aggregation.
- `VirtualScreening`:
  - dataset selection;
  - ligand staging (loops proved against a function on the split pieces);
  - the command;
  - the CSV rows.

Things outside the drivers are parameters of the model:

- the clock and the `unidock` process: an outcome per case;
- the repository's `calc_rmsd`: a list of reals per case;
- the directory listings: sequences;
- `float()` parsing and `:.4f` formatting: functions;
- rdkit's `CalcEnrichment`: a function.

## Model

| member | source | states |
|---|---|---|
| RunConfig.UpdateGet | scripts/test_molecular_docking.py:38 | after `d[k] = v`, `k` maps to `v` and every other key keeps its value |
| RunConfig.UpdateKeys | scripts/test_molecular_docking.py:38 | `d[k] = v` keeps an existing key's place, appends a new key at the end, and keeps keys distinct |
| RunConfig.MergeGet | scripts/test_molecular_docking.py:37-38 | after `deepcopy(defaults).update(overrides)` a key listed in the overrides takes their value, and every other key keeps the default's |
| RunConfig.MergeKeys | scripts/test_molecular_docking.py:37-38 | the merged dict lists every default key in its original place, then the keys only the overrides list, in their order, with no key twice |
| RunConfig.EffectiveArgsSpec | scripts/test_virtual_screening.py:42-43 | the effective options are the defaults overridden by `unidock_args`: order, values and distinctness together |
| RunConfig.SearchModes | scripts/test_virtual_screening.py:41 | the modes listed under `search_mode_list` when present, otherwise fast, balance and detail |
| ReadScore.MarkersFromSpec | scripts/utils/read_score.py:7-8 | the tag positions found are exactly tag lines, in increasing file order |
| ReadScore.ScanOk | scripts/utils/read_score.py:3-12 | reading succeeds exactly when every `> <Uni-Dock RESULT>` tag is followed by a parseable line; the result then has one score per tag, in file order, each read from the line after its tag |
| ReadScore.ScanErr | scripts/utils/read_score.py:7-11 | a failure names the first tag that is the last line (IndexError) or whose next line does not parse (ValueError); every earlier tag had a score |
| ReadScore.ReadUnidockScore | scripts/utils/read_score.py:3-12 | the indexed loop over `readlines()` returns exactly what the recursive scan characterised by `ScanOk` and `ScanErr` returns |
| ReadScore.NoMarkersNoScores | scripts/utils/read_score.py:7-12 | a file without tag lines yields the empty score list |
| ReadScore.EnergyTextDropsByLength | scripts/utils/read_score.py:9-10 | the score text is the part before the first `LOWER_BOUND=` with seven characters dropped, whatever they are; the whole line is used when that tag is absent |
| ReadScore.MarkerIsPrefixTest | scripts/utils/read_score.py:8 | the tag test accepts a line that starts with the tag whatever follows it, and rejects a line with text before the tag whose first character is not `>` |
| Text.SplitJoin | scripts/test_virtual_screening.py:64 | joining the pieces of `s.split(sep)` with `sep` gives `s` back |
| Text.SplitPiecesFree | scripts/test_virtual_screening.py:64 | no piece of `s.split(sep)` contains `sep` |
| Text.SplitEndsEmpty | scripts/test_virtual_screening.py:64 | when the separator's last character occurs nowhere else in it, as for `$$$$\n`, a text that ends with the separator splits into pieces whose last piece is empty |
| Text.ReadLinesConcat | scripts/utils/read_score.py:6 | the lines from `readlines()` put back together give the file text |
| Text.WordsOfSpaceJoined | scripts/test_virtual_screening.py:102 | `split()` on words without whitespace joined by single spaces gives the words back |
| Metric.EfScore | scripts/utils/metric.py:4-14 | each of the three assertions fails exactly on its own condition, checked in source order; success exactly when lengths match, fractions are given and every label is 0 or 1 |
| Metric.ValidationFirst | scripts/utils/metric.py:6-14 | a rejected input fails whatever the enrichment routine does; an accepted one hands it the sorted zipped pairs and the fractions unchanged |
| Metric.InsertSorted | scripts/utils/metric.py:12 | inserting into a sorted list keeps it sorted |
| Metric.InsertPermutes | scripts/utils/metric.py:12 | inserting adds exactly the inserted pair |
| Metric.SortSortsAndPermutes | scripts/utils/metric.py:12 | `sorted(..., key=score, reverse=flag)` is ordered in the requested direction and is a permutation of its input |
| Metric.SortIsStable | scripts/utils/metric.py:12 | for every score, the pairs with that score keep their input order, in both directions |
| Metric.SortedPairs | scripts/utils/metric.py:11-14 | what the enrichment routine receives has the input's length, is sorted, stable and a permutation, and pairs every label with its own score |
| Metric.TiesKeepOrderDescending | scripts/utils/metric.py:12 | `reverse=True` does not reverse ties |
| MolecularDocking.MisspelledModeKeyIgnoresModes | scripts/test_molecular_docking.py:36 | as written, a configuration without `srarch_mode_list` runs the three default modes even when it lists modes under `search_mode_list` |
| MolecularDocking.DockingArgsSpec | scripts/test_molecular_docking.py:22-38 | the docking options list the five default keys first and in order, take a configured value in place of its default, append keys only the configuration names, and list no key twice |
| MolecularDocking.FixedFlags | scripts/test_molecular_docking.py:66-79 | the command starts with 22 fixed words, with the receptor, the ligand, the six box numbers, the output directory and the mode each right after its flag |
| MolecularDocking.DockingCommand | scripts/test_molecular_docking.py:66-81 | the argument list is the 22 fixed words followed, for each option in dict order, by `--name` and its value as two separate arguments |
| MolecularDocking.SuccessLadder | scripts/test_molecular_docking.py:104 | Top-3 success means one of the first three poses is below 2.0 Å; Top-1 implies Top-3 and Top-3 implies Top-10 |
| MolecularDocking.EntryFor | scripts/test_molecular_docking.py:96-113 | the recorded entry is the failure sentinel exactly when the case raised or produced no RMSD; otherwise it holds the time, the return code and the RMSD list |
| MolecularDocking.EmptyRmsdLeavesHalfRow | scripts/test_molecular_docking.py:103-104 | as written, a case with an empty RMSD list is recorded as failed yet leaves an unterminated half row in `results.csv` |
| MolecularDocking.CaseRows | scripts/test_molecular_docking.py:103-104 | a case adds no row when recorded as failed, and one row otherwise |
| MolecularDocking.CaseRowMatchesEntry | scripts/test_molecular_docking.py:96-113 | a failed case adds no CSV row; any other case adds one whole row whose fields agree with its recorded entry and success tests |
| MolecularDocking.PdbRowsOfSuccesses | scripts/test_molecular_docking.py:57-104 | every row of one round belongs to a listed structure whose case succeeded; no success means no rows |
| MolecularDocking.RoundRowsOfSuccesses | scripts/test_molecular_docking.py:54-104 | the same over every round of one mode |
| MolecularDocking.ModeRowsOfSuccesses | scripts/test_molecular_docking.py:53-104 | every row a dataset's sweep appends is the row of one of its succeeded cases; a sweep without successes appends nothing |
| MolecularDocking.PutCaseAt | scripts/test_molecular_docking.py:96-98 | recording a case sets its own entry and leaves every other structure, mode and round as it was |
| MolecularDocking.FillPdbsAt | scripts/test_molecular_docking.py:57-113 | after one round over the structures, each listed structure holds that round's entry, and all else is unchanged |
| MolecularDocking.FillRoundsAt | scripts/test_molecular_docking.py:54-113 | the same over every round of one mode |
| MolecularDocking.FillModesAt | scripts/test_molecular_docking.py:53-113 | the same over every mode |
| MolecularDocking.SweptDatasetSpec | scripts/test_molecular_docking.py:50-113 | after a dataset's sweep, its map holds exactly one entry per structure, mode and round run, namely that case's entry |
| MolecularDocking.SweepResultsSpec | scripts/test_molecular_docking.py:48-57 | after the sweep, `results` holds one entry per dataset found, each that dataset's sweep |
| MolecularDocking.SweepRowsOfSuccesses | scripts/test_molecular_docking.py:49-104 | every `results.csv` row of the whole run belongs to a swept dataset, one of its structures, a listed mode and a round run, and that case succeeded |
| MolecularDocking.SuccessCount | scripts/test_molecular_docking.py:126-127 | a successful count never exceeds the group size |
| MolecularDocking.SuccessCountSpec | scripts/test_molecular_docking.py:126-127 | the count succeeds exactly when every entry has poses; it then equals the group size exactly when every first pose is below 2.0 Å, and is zero exactly when none is |
| MolecularDocking.TimeSumSpec | scripts/test_molecular_docking.py:128-129 | the time sum succeeds exactly when every entry has a time, and lies between the group size times any lower and upper bound of the times |
| MolecularDocking.GroupMetrics | scripts/test_molecular_docking.py:126-129 | a computed success rate lies in [0, 1] |
| MolecularDocking.GroupMetricsOk | scripts/test_molecular_docking.py:126-129 | metrics exist exactly when the group is non-empty and every entry has poses and a time |
| MolecularDocking.SuccessRateExtremes | scripts/test_molecular_docking.py:126-127 | the success rate is the share of correct first poses: 1 exactly when all are correct, 0 exactly when none is |
| MolecularDocking.MeanTimeBounds | scripts/test_molecular_docking.py:128-129 | the mean time lies between the least and the greatest time |
| MolecularDocking.AverageTimeBounds | scripts/test_molecular_docking.py:128-129 | the reported average time is the mean time and lies between the least and the greatest time |
| MolecularDocking.RowsFromSpec | scripts/test_molecular_docking.py:124-130 | the metrics loops finish exactly when every group they reach has metrics; every row then names the dataset and has a success rate in [0, 1] |
| MolecularDocking.RowsFromRows | scripts/test_molecular_docking.py:124-130 | finished metrics loops give one row per mode and round, and the row of mode `j`, round `q` stands at position `j * rounds + q` and holds that mode, that round and the group's success rate and average time |
| MolecularDocking.RowsFromFirstError | scripts/test_molecular_docking.py:124-130 | stopped metrics loops stop with the error of the first group, in loop order, whose metrics cannot be computed; every earlier group had metrics |
| MolecularDocking.KeyOrderLength | scripts/test_molecular_docking.py:126-129 | walking a dataset's map in key order visits `len(results[dataset])` structures, the divisor of both metrics |
| MolecularDocking.SweptGroupMetrics | scripts/test_molecular_docking.py:50-129 | a swept group has metrics exactly when the dataset has structures and every case of the group succeeded |
| MolecularDocking.SweptDatasetMetrics | scripts/test_molecular_docking.py:50-130 | a swept dataset's metrics rows are written exactly when it has structures and none of its cases failed |
| MolecularDocking.DockingSweep.constructor | scripts/test_molecular_docking.py:45-46 | the run starts with an empty results map and no CSV rows |
| MolecularDocking.DockingSweep.RecordCase | scripts/test_molecular_docking.py:96-113 | recording a case puts its entry in its dataset's map, changes no other dataset, and appends its CSV rows |
| MolecularDocking.DockingSweep.RunRound | scripts/test_molecular_docking.py:57-113 | the structure loop leaves the map and the CSV as the round's specification functions say |
| MolecularDocking.DockingSweep.RunMode | scripts/test_molecular_docking.py:54-113 | the round loop leaves the map and the CSV as the mode's specification functions say |
| MolecularDocking.DockingSweep.RunDataset | scripts/test_molecular_docking.py:50-113 | `results[dataset]` becomes the dataset's sweep, other datasets are untouched, and the CSV gains the dataset's rows |
| MolecularDocking.DockingSweep.RunSweep | scripts/test_molecular_docking.py:48-113 | the whole loop over datasets leaves `results` and the CSV as `SweepResults` and `SweepRows` say |
| MolecularDocking.DockingSweep.SummarizeDataset | scripts/test_molecular_docking.py:124-130 | walking the dataset's map in key order, the metrics loops return one row per mode and round in loop order, each with its group's metrics, or the error of the first group whose metrics cannot be computed |
| VirtualScreening.ScreeningArgsSpec | scripts/test_virtual_screening.py:26-43 | the screening options keep the five defaults in place, take configured values, keep one pose per ligand unless configured otherwise, and list no option twice |
| VirtualScreening.KeepListedSpec | scripts/test_virtual_screening.py:55 | the filter keeps exactly the listed datasets, in their on-disk order |
| VirtualScreening.SelectDatasets | scripts/test_virtual_screening.py:54-55 | an absent or empty name list keeps every dataset |
| VirtualScreening.SelectDatasetsSpec | scripts/test_virtual_screening.py:54-55 | a non-empty name list keeps exactly the listed datasets found on disk, in order; unknown names are ignored |
| VirtualScreening.StagedEntries | scripts/test_virtual_screening.py:65-69 | every staged ligand comes from a non-empty piece, holds it with the separator put back, and indices increase |
| VirtualScreening.StagedComplete | scripts/test_virtual_screening.py:65-69 | every non-empty piece is staged |
| VirtualScreening.StagedCount | scripts/test_virtual_screening.py:65-69 | there are exactly as many staged ligands as non-empty pieces |
| VirtualScreening.StagedRoundTrip | scripts/test_virtual_screening.py:64-68 | for a separator-terminated file without blank records, the written records put back together are the original file |
| VirtualScreening.RecordHasOneSeparator | scripts/test_virtual_screening.py:64-68 | each written record contains the separator exactly once, at its end |
| VirtualScreening.BlankRecordSkipped | scripts/test_virtual_screening.py:65-69 | a blank record is skipped but still counts towards the numbering of later files |
| VirtualScreening.AppendRecords | scripts/test_virtual_screening.py:64-69 | the loop appends exactly the ligands staged from the split file |
| VirtualScreening.StageLigands | scripts/test_virtual_screening.py:60-79 | the ligand list is the staged actives then the staged inactives, and `total_num` is its length |
| VirtualScreening.StagedLigandsSpec | scripts/test_virtual_screening.py:60-79 | every active precedes every inactive, and `total_num` counts the non-empty records of both files |
| VirtualScreening.CommandPieces | scripts/test_virtual_screening.py:96-101 | the command f-string has 22 words, with the receptor, the ligand index file, the six box numbers, the output directory and the mode each right after its flag |
| VirtualScreening.ScreeningCommand | scripts/test_virtual_screening.py:96-104 | the argument list is the split f-string followed by one `--name value` argument per option, in dict order |
| VirtualScreening.CommandSplitsIntoPieces | scripts/test_virtual_screening.py:96-102 | when no path, mode or number contains whitespace, splitting the f-string gives back its 22 words |
| VirtualScreening.SpacedPathIsCut | scripts/test_virtual_screening.py:97-102 | a path containing a space is cut into two arguments by the split |
| VirtualScreening.RowFor | scripts/test_virtual_screening.py:130-134 | a finished screen reports its success count, its time and a per-ligand time that multiplies back to it; an exception, including division by an empty ligand list, reports zeros |
| VirtualScreening.ScreenDataset | scripts/test_virtual_screening.py:84-134 | one row per search mode, in order, each the row of that mode's screen |
| VirtualScreening.ScreenRowsSpec | scripts/test_virtual_screening.py:84-134 | every row names its dataset, mode and ligand count, and reports no more time per ligand than the screen took |

## Left out

- Process execution, the clock, file reads and writes, directory
  creation and removal, logging and `tqdm` progress bars: each case's
  outcome, each dataset's structure list and each file's text are
  parameters.
- `calc_rmsd` (scripts/utils/calc_rmsd.py, imported at
  scripts/utils/__init__.py:8) is not part of this model. Its RMSD list
  is part of a case's outcome.
- `CalcEnrichment` (rdkit) is not part of this model. `ef_score` takes it
  as a function parameter.
- `float()` parsing and the `:.4f`, `:.6f` and default float formatting
  are parameters or left as reals. The CSV is modelled as rows of
  values, not as text.
- MolecularDocking.SummarizeDataset: the aggregation's outer
  `for dataset in results` loop (line 123) is not modelled as a method.
  `SummarizeDataset` models one pass of it.
- MolecularDocking.SummarizeDataset: the `metrics.csv` header and file
  write are not modelled.
- The exit when the data root is missing (both drivers, lines 40-43 and
  45-48) is not modelled.
- The JSON dump of `results` is not modelled.
- The virtual-screening driver's outer loop over datasets (line 57) is
  not modelled as a method. Staging, command and rows are modelled per
  dataset.
- The screening driver's temporary directory, `ligand_list.txt`, the
  merged `{dataset}_{mode}_results.sdf` file and `shutil.rmtree` are not
  modelled. `success_num` is part of a screen's outcome.
- A missing receptor file makes `glob(...)[0]` raise inside the `try`.
  This, like any other exception in that block, is the `ScreenRaised`
  outcome.
- `EF_FRACTION_LIST` is declared in the screening driver but never used
  there. It is not modelled.
- RunConfig.WellTyped: a configuration value of the wrong JSON type
  (e.g. a string for `round`) is excluded rather than modelled as the
  exception Python would raise later.
- MolecularDocking.RoundCount: a negative round count is modelled as
  `range()` treats it, as no rounds. Non-integer counts are excluded by
  `WellTyped`.
- When any case of a group was recorded as failed, the driver raises in
  the metrics loop: `None[0]` on the sentinel's RMSD. The same happens on
  a missing key, and on a division by zero for a dataset without
  structures. The model gives these as an `AggError`.
- MolecularDocking.DockingSweep.RecordCase: follows the corrected half
  of the second Findings row. It appends `CaseRows`, which never leaves
  a half row; `CaseRowsAsWritten` models the code as written. The CSV
  described by `RunRound`, `RunMode`, `RunDataset`, `RunSweep` and the
  `*RowsOfSuccesses` lemmas is therefore the corrected one.
- MolecularDocking.DockingSweep.RunSweep: follows the corrected half of
  the first Findings row. Its modes are `SearchModes`, read from
  `search_mode_list`; the driver as written reads `srarch_mode_list`
  (`SearchModesAsWritten`) and so always runs the three default modes.
- A case's outcome is keyed by dataset, structure,
  mode and round (and, for the screens, by mode). A mode list that names
  a mode twice therefore gets the same outcome both times, while the
  real runs could differ.

## Findings

| source | as written | input that shows it | evidently intended | confidence | as-written member | corrected member |
|---|---|---|---|---|---|---|
| scripts/test_molecular_docking.py:36 | the mode list is read from the key `srarch_mode_list` | a configuration `{"search_mode_list": ["fast"]}` still runs fast, balance and detail | read `search_mode_list`, the key the screening driver reads at scripts/test_virtual_screening.py:41 | high (not executed) | MolecularDocking.MisspelledModeKeyIgnoresModes | RunConfig.SearchModes |
| scripts/test_molecular_docking.py:103-104 | the first half of the CSV row is appended before `rmsd[0]` is evaluated | a case whose `calc_rmsd` returns `[]`: the entry is the failure sentinel, but `results.csv` keeps an unterminated half row that the next row is glued onto | append the row only once it is complete | medium (not executed) | MolecularDocking.EmptyRmsdLeavesHalfRow | MolecularDocking.CaseRowMatchesEntry |
