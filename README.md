# Pymaceuticals cleaning, selection and outlier pipeline in Dafny

The Pymaceuticals notebook (`pymaceuticals_finished.py`) studies tumour growth in
mice under several drug regimens. Before any statistics or plots, it runs a short
record-level pipeline. This project models that pipeline and proves what each step
guarantees:

1. **Join.** `pd.merge(study_results, mouse_metadata, how="left", on="Mouse ID")`
   attaches each mouse's Drug Regimen, Sex, Age and Weight to every measurement
   row. A row whose mouse has no metadata keeps missing (NaN) metadata columns.
2. **Duplicate detection.** `duplicated(subset=["Mouse ID", "Timepoint"])` marks
   every repeat of a (Mouse ID, Timepoint) pair. `["Mouse ID"].unique()` then lists
   the distinct Mouse IDs of the marked rows.
3. **Whole-mouse exclusion.** `isin(duplicated_mouse_ids) == False` drops every row
   of each listed mouse, at every Timepoint.
4. **Per-regimen counts.** `["Drug Regimen"].value_counts()` counts the cleaned rows
   per regimen.
5. **Last-Timepoint selection.** `groupby(["Mouse ID"])["Timepoint"].max()` finds
   each mouse's greatest Timepoint. A left merge back onto the cleaned table on
   (Mouse ID, Timepoint) fetches the row there.
6. **IQR outlier loop.** For each of Capomulin, Ramicane, Infubinol and Ceftamin:
   - collect the final tumour volumes;
   - append them to `tumor_vol_list`;
   - compute the quartiles by linear interpolation;
   - build the fences Q1 − 1.5·IQR and Q3 + 1.5·IQR;
   - report the volumes strictly outside the fences.

Tables are sequences of datatype rows (`Records`). Tumour volume and weight are
`real`, an exact idealisation of pandas' float64 columns. A missing metadata match
is `None`, standing for pandas' NaN. NaN never equals a regimen name, so such rows
are counted by no regimen and selected by no drug.

The modules:
- `Join` (left join), `Dedup` (detection and exclusion), `Counts` (value_counts).
- `StrOrder` (the key order of `groupby`, which is Python's `<` on `str`).
- `LastTimepoint` (group-by-max and merge).
- `Quantiles` (sorting and linear-interpolation quantiles).
- `OutlierAnalysis` (the loop, as a method over a growing list).
- `Pipeline` (the steps composed, plus two small worked scenarios).

An empty group would get NaN quartiles from pandas. Every comparison with NaN is
false, so such a group has no outliers. The model represents this with
`bounds == None` and an empty outlier list. It does not require the groups to be
non-empty.

Quartiles follow `Series.quantile`'s default linear interpolation: the value at
position (n − 1)·q of the sorted volumes. For [10, 12, 13, 14, 15, 16, 100] that
gives:
- Q1 = 12.5 (position 1.5);
- median = 14 (position 3);
- Q3 = 15.5 (position 4.5);
- IQR = 3, fences 8 and 20, and only 100 flagged.

The model proves these figures in `OutlierAnalysis.WorkedExample`.

## Model

| member | source | states |
|---|---|---|
| Records.Distinct | pymaceuticals_finished.py:46 | `unique()`: every input value appears in the result, every result value comes from the input, and no value appears twice |
| Join.Lookup | pymaceuticals_finished.py:29 | a mouse's metadata is found exactly when some metadata row has its Mouse ID, and what is found is that row's attributes |
| Join.JoinOneRows | pymaceuticals_finished.py:29 | a results row gives one joined row per matching metadata row, in metadata order, or one row without metadata when nothing matches; the metadata is absent exactly when no metadata row has the mouse |
| Join.JoinOne | pymaceuticals_finished.py:29 | every joined row of a results row keeps that row's Mouse ID, Timepoint, Tumor Volume and Metastatic Sites, and there is at least one |
| Join.LeftJoin | pymaceuticals_finished.py:29 | the combined table: at least one row per results row; `LeftJoinAppend` and `JoinOneRows` fix its rows exactly, and `LeftJoinUniqueKeys` gives one row per results row when metadata IDs are unique |
| Join.MatchesAppend | pymaceuticals_finished.py:29 | the metadata matches of a mouse in a concatenated metadata table are those of the first part followed by those of the second, so matches keep metadata order |
| Join.LeftJoinAppend | pymaceuticals_finished.py:29 | the join works row by row: joining a concatenation concatenates the joins, so results order is kept |
| Join.LeftJoinUniqueKeys | pymaceuticals_finished.py:29 | with unique metadata IDs the join has exactly one row per results row, in order, carrying that row's measurement and its mouse's metadata (None when the mouse has none) |
| Join.MatchesUnique | pymaceuticals_finished.py:29 | with unique metadata IDs a mouse has at most one metadata match, the one Lookup finds |
| Dedup.DuplicatedIds | pymaceuticals_finished.py:46 | `duplicated_mouse_ids` lists no Mouse ID twice; `DuplicatedIdsIff` states exactly which IDs it lists |
| Dedup.MarkedRowListed | pymaceuticals_finished.py:46 | every row that `duplicated` marks contributes its Mouse ID |
| Dedup.ListedIdMarked | pymaceuticals_finished.py:46 | every listed Mouse ID comes from a marked row |
| Dedup.DuplicatedIdsIff | pymaceuticals_finished.py:46 | a Mouse ID is in `duplicated_mouse_ids` exactly when two different rows share it and a Timepoint, and it is listed once |
| Dedup.NoDuplicatesIff | pymaceuticals_finished.py:46 | detection finds nothing exactly when no two rows share a (Mouse ID, Timepoint) pair |
| Dedup.DropMice | pymaceuticals_finished.py:62 | the `isin(...) == False` filter never adds rows; `DropMiceMembership`, `DropMiceMultiset` and `DropMiceAppend` state which rows it keeps, how often and in what order |
| Dedup.Clean | pymaceuticals_finished.py:62 | the cleaned table holds exactly the rows whose mouse is not listed: none of a listed mouse, at any Timepoint, and all of every other mouse |
| Dedup.DropMiceMembership | pymaceuticals_finished.py:62 | a row survives the `isin(...) == False` filter exactly when it is in the table and its mouse is not listed |
| Dedup.DropMiceMultiset | pymaceuticals_finished.py:62 | each kept row keeps its multiplicity, and each dropped mouse has no row left |
| Dedup.DropMiceAppend | pymaceuticals_finished.py:62 | filtering a concatenation concatenates the filtered parts, so the filter keeps table order |
| Dedup.DropMiceSubsequence | pymaceuticals_finished.py:62 | two positions of the cleaned table come from two positions of the combined table in the same order |
| Dedup.DropMiceIndex | pymaceuticals_finished.py:62 | every cleaned row is a row of the combined table |
| Dedup.DropMiceNone | pymaceuticals_finished.py:62 | with no mouse listed, the filter keeps the table unchanged |
| Dedup.CleanHasUniqueKeys | pymaceuticals_finished.py:46-62 | the cleaned table has no repeated (Mouse ID, Timepoint) pair |
| Dedup.CleanIdempotent | pymaceuticals_finished.py:46-62 | detection on the cleaned table finds nothing, and cleaning it again changes nothing |
| Counts.Regimens | pymaceuticals_finished.py:118 | the listed regimens are exactly the regimens present, NaN excluded, each once |
| Counts.ValueCounts | pymaceuticals_finished.py:118 | `value_counts` has one entry per regimen present; `ValueCountsEntries` and `CountsSumToRows` state each entry's count and their total |
| Counts.CountRegimenIsMultiplicity | pymaceuticals_finished.py:118 | the count of a regimen is the number of rows carrying it |
| Counts.ValueCountsEntries | pymaceuticals_finished.py:118 | `value_counts` has one entry per regimen present, none for absent ones, each count equal to that regimen's number of rows and positive |
| Counts.CountsSumToRows | pymaceuticals_finished.py:118 | the counts sum to the number of rows with a regimen, which is every row when every mouse had metadata |
| Counts.SumOverCovering | pymaceuticals_finished.py:118 | summing per-regimen counts over any repeat-free list covering the regimens present gives the number of rows with a regimen |
| StrOrder.LessIrreflexive | pymaceuticals_finished.py:166 | no Mouse ID sorts before itself under Python's `str` order |
| StrOrder.LessTransitive | pymaceuticals_finished.py:166 | Python's `str` order is transitive |
| StrOrder.LessTotal | pymaceuticals_finished.py:166 | any two different Mouse IDs are ordered one way or the other |
| StrOrder.Insert | pymaceuticals_finished.py:166 | inserting a new key into an ascending key list keeps it strictly ascending and adds exactly that key |
| StrOrder.Sort | pymaceuticals_finished.py:166 | groupby's key sort: the distinct keys strictly ascending, with the same keys as its input |
| LastTimepoint.MaxTimepoint | pymaceuticals_finished.py:166 | a mouse's maximum Timepoint is one of its Timepoints, and no Timepoint of the mouse is greater |
| LastTimepoint.MouseKeys | pymaceuticals_finished.py:166 | the group keys are strictly ascending and are exactly the Mouse IDs of the table |
| LastTimepoint.MaxTimepoints | pymaceuticals_finished.py:166-167 | `max_tumor` has one entry per group key in key order, each pairing the mouse with its maximum Timepoint |
| LastTimepoint.RowsAtMembership | pymaceuticals_finished.py:170 | the rows matched on (Mouse ID, Timepoint) are exactly the table rows with that pair |
| LastTimepoint.RowsAtUnique | pymaceuticals_finished.py:170 | on a table with unique pairs, the match for a row's own pair is that row alone |
| LastTimepoint.MergeLeft | pymaceuticals_finished.py:170 | the left merge gives at least one entry per `max_tumor` row; `MergeLeftSource` and `MergeLeftOnePerGroup` state where each entry comes from and when there is exactly one |
| LastTimepoint.MergeOneEntry | pymaceuticals_finished.py:170 | a `max_tumor` row at its mouse's greatest Timepoint merges only with rows of that mouse at that Timepoint, and always finds one |
| LastTimepoint.MergeLeftSource | pymaceuticals_finished.py:170 | every merged entry comes from the merge of one `max_tumor` row |
| LastTimepoint.LastTimepointRows | pymaceuticals_finished.py:166-170 | `merged_data` has at least one entry per mouse; `LastTimepointRowsMatched` and `OneRowPerMouse` state its entries |
| LastTimepoint.MergedEntry | pymaceuticals_finished.py:166-170 | a merged entry carries a cleaned row of its mouse at its Timepoint, and no Timepoint of the mouse is later |
| LastTimepoint.LastTimepointRowsMatched | pymaceuticals_finished.py:166-170 | every entry of `merged_data` found its row: a cleaned row of that mouse at the mouse's greatest Timepoint |
| LastTimepoint.MergeLeftOnePerGroup | pymaceuticals_finished.py:170 | when every key pair matches one row, the merge has one entry per `max_tumor` row, in order |
| LastTimepoint.GroupMatchesOnce | pymaceuticals_finished.py:166-170 | on a table with unique pairs, the row at a mouse's greatest Timepoint is the only match for that mouse and Timepoint |
| LastTimepoint.EachGroupMatchesOnce | pymaceuticals_finished.py:166-170 | on a table with unique pairs, each `max_tumor` row matches exactly one row |
| LastTimepoint.OneRowPerMouse | pymaceuticals_finished.py:166-170 | on a table with unique pairs, `merged_data` has one entry per mouse, in strictly ascending Mouse ID order, and a mouse is in the table exactly when it has an entry |
| Quantiles.InsertSorted | pymaceuticals_finished.py:193 | inserting into a sorted list keeps it sorted and adds exactly that value |
| Quantiles.SortValues | pymaceuticals_finished.py:193 | the volumes in ascending order, as a permutation of the input |
| Quantiles.SortedUnique | pymaceuticals_finished.py:193 | two sorted lists holding the same values are equal, so the sorted order is unique |
| Quantiles.SortValuesOfSorted | pymaceuticals_finished.py:193 | sorting an already ascending list leaves it unchanged |
| Quantiles.Position | pymaceuticals_finished.py:193 | the interpolation position (n − 1)·q lies within the list |
| Quantiles.Interpolate | pymaceuticals_finished.py:193 | at a whole position the interpolated value is the sorted value there; `InterpolateBetween` and `InterpolateMonotone` bound it elsewhere |
| Quantiles.Quantile | pymaceuticals_finished.py:193 | every quantile lies between the smallest and the largest sorted value; `QuantileMonotone`, `QuantileRange` and `QuantileOrderIndependent` state the rest |
| Quantiles.QuantileEnds | pymaceuticals_finished.py:193 | the 0-quantile is the first sorted value and the 1-quantile the last |
| Quantiles.PositionMonotone | pymaceuticals_finished.py:193 | a larger q gives a later position |
| Quantiles.InterpolateBetween | pymaceuticals_finished.py:193 | an interpolated value lies between its two neighbouring sorted values |
| Quantiles.InterpolateMonotone | pymaceuticals_finished.py:193 | interpolation is monotone in the position |
| Quantiles.QuantileMonotone | pymaceuticals_finished.py:193 | a larger q never gives a smaller quantile, so Q1 ≤ median ≤ Q3 |
| Quantiles.QuantileRange | pymaceuticals_finished.py:193 | every quantile lies between the smallest and largest volume; the 0- and 1-quantiles are those extremes |
| Quantiles.QuantileOrderIndependent | pymaceuticals_finished.py:193 | the quantile depends on the volumes only, not on their row order |
| Quantiles.Min | pymaceuticals_finished.py:193 | the smallest volume: present and no larger than any |
| Quantiles.Max | pymaceuticals_finished.py:193 | the largest volume: present and no smaller than any |
| OutlierAnalysis.FinalVolumes | pymaceuticals_finished.py:187 | `final_tumor_vol` has at most one volume per `merged_data` entry; the lemmas below state which volumes, how often and in what order |
| OutlierAnalysis.FinalVolumesMembership | pymaceuticals_finished.py:187 | a volume is selected for a drug exactly when some `merged_data` entry on that regimen has it |
| OutlierAnalysis.FinalVolumesAppend | pymaceuticals_finished.py:187 | selection works entry by entry: selecting from a concatenation concatenates the selections, so volumes keep entry order |
| OutlierAnalysis.FinalVolumesOne | pymaceuticals_finished.py:187 | a single entry gives its volume exactly when it carries a row on the regimen, and nothing otherwise |
| OutlierAnalysis.FinalVolumesCount | pymaceuticals_finished.py:187 | each volume is selected as many times as there are entries on the regimen carrying it, so repeated volumes are kept |
| OutlierAnalysis.IqrBounds | pymaceuticals_finished.py:193-198 | no bounds exactly for an empty group; otherwise lowerq, median and upperq are the 0.25, 0.5 and 0.75 quantiles, iqr is upperq − lowerq, and the fences lie 1.5·iqr beyond them |
| OutlierAnalysis.IqrBoundsOrdered | pymaceuticals_finished.py:193-198 | for a non-empty group: IQR ≥ 0 and lower fence ≤ Q1 ≤ median ≤ Q3 ≤ upper fence, with min ≤ Q1 and Q3 ≤ max |
| OutlierAnalysis.Outside | pymaceuticals_finished.py:200 | the `.loc` filter never adds values; `OutsideMembership`, `OutsideNone` and `OutsideAppend` state which values it keeps and in what order |
| OutlierAnalysis.OutsideMembership | pymaceuticals_finished.py:200 | a volume is flagged exactly when it is in the group and strictly below the lower or above the upper fence |
| OutlierAnalysis.OutsideNone | pymaceuticals_finished.py:200 | a group entirely within the fences has no outliers |
| OutlierAnalysis.OutsideAppend | pymaceuticals_finished.py:200 | flagging keeps input order: flagging a concatenation concatenates the flagged parts |
| OutlierAnalysis.Outliers | pymaceuticals_finished.py:193-200 | an empty group, whose bounds are NaN, flags nothing; no group gets more outliers than volumes |
| OutlierAnalysis.AnalysisFlags | pymaceuticals_finished.py:193-200 | a regimen's report carries its bounds, and flags a volume exactly when the volume is in the group, the group is non-empty, and it lies strictly outside the fences |
| OutlierAnalysis.AnalyseRegimen | pymaceuticals_finished.py:193-200 | the loop body's step-by-step computation of quartiles, IQR, fences and outliers gives the regimen's report |
| OutlierAnalysis.FindOutliers | pymaceuticals_finished.py:178-201 | after the loop `tumor_vol_list` has one entry per regimen, in `treatment_list` order, each that regimen's final volumes, and each regimen gets its report |
| OutlierAnalysis.WorkedExample | pymaceuticals_finished.py:193-200 | for [10, 12, 13, 14, 15, 16, 100] the quartiles are 12.5, 14 and 15.5, the fences 8 and 20, and only 100 is flagged |
| Pipeline.FinalTableOnePerMouse | pymaceuticals_finished.py:62-170 | after cleaning, `merged_data` has one entry per remaining mouse in ascending order; each is a cleaned row, and no mouse with a duplicated pair appears |
| Pipeline.RunStudy | pymaceuticals_finished.py:29-201 | the whole pipeline: counts and `merged_data` are those of the cleaned join, and the loop runs over `treatment_list` (`OutlierAnalysis.TREATMENTS`: Capomulin, Ramicane, Infubinol, Ceftamin, in that order), its lists and reports being those of `merged_data` |
| Pipeline.JoinExample | pymaceuticals_finished.py:29 | mouse m1 of group A at 20 g, measured twice, gives two joined rows, both with group A and 20 g |
| Pipeline.DedupExample | pymaceuticals_finished.py:46-62 | mouse g989 with two rows at Timepoint 5 is listed, and all of its rows are dropped while the other mouse stays |

## Left out

- CSV loading of `Mouse_metadata.csv` and `Study_results.csv` (pymaceuticals_finished.py:21-26) is I/O. The two tables are parameters of the model.
- Plotting (bar, pie, box, line and scatter charts) and the printing of each regimen's outliers are presentation only. The model returns each regimen's outliers in its report instead.
- The summary statistics (mean, median, variance, standard deviation, SEM per regimen, pymaceuticals_finished.py:83-109) are floating-point numerics behind library calls. SEM needs a square root.
- The Pearson correlation and linear regression through `scipy.stats` are foreign floating-point library calls. The per-mouse `groupby().mean()` that feeds them is left out with them.
- The display-only lookup of mouse `'g989'` (pymaceuticals_finished.py:54) is left out. So are the bare notebook expression lines that only display a value, including the two `len(...unique())` mouse counts (pymaceuticals_finished.py:39, 70). Nothing later uses them.
- The Sex `value_counts` for the pie charts only feeds the plots.
- Records.Distinct: the values are kept in order of first appearance, as `unique()` returns them, but the contract states only which values are present and that each is present once. Only membership is used later, by `isin`.
- Counts.ValueCounts: entries come in order of first appearance. pandas orders them by descending count, and the tie order among equal counts is not specified. The entries themselves, one per regimen with its number of rows, are as pandas gives them.
- OutlierAnalysis.FindOutliers: pandas carries each selected volume's row label (its index in `merged_data`). The model keeps the volumes only, in the same order.
- Floating-point rounding is not modelled. Volumes are exact reals, so fences and comparisons are exact.
- NaN in the Mouse ID, Timepoint or Tumor Volume columns is not modelled. Only missing metadata after the join, the case the pipeline can produce, is represented.
