# omero-screen-analysis plotting core, modelled in Dafny

omero-screen-analysis turns per-cell tables from an imaging screen into summary figures.
It counts cells per well, condition and plate. It works out cell-cycle phase percentages
and classification percentages. It marks conditions that differ significantly from the
first (control) condition. It also scores drug synergy (Bliss independence and highest
single agent, HSA) from a dose-by-dose grid. This project models the computations behind
these figures, and what each plotting function decides: which error it raises, which
marks it draws, and which title and file name it uses.

Files and modules:

- `frame.dfy` (`Frame`): the data-frame vocabulary shared by all modules.
  - A table is a sequence of rows; a row maps column names to cells (text, number or missing).
  - `groupby(...).agg().reset_index()` is `GroupAgg`, with groups in order of first appearance.
  - `unique()` is `Unique`.
  - Proved here: how group sums partition a table, and how counts and means are bounded.
- `titles.dfy` (`Titles`): the title default and the spaces-to-underscores file name.
- `stats.py` → `stats.dfy` (`Stats`): p-values, significance markers and marks.
- `cellcycleplot.py` → `cellcycle.dfy` (`CellCycle`): `cc_phase` and `cellcycle_plot`.
- `countplot.py` → `countplot.dfy` (`CountPlot`): `norm_count` and `count_plot`.
- `classification_plot.py` → `classification.dfy` (`Classification`): `quantify_classification` and `plot_classification`.
- `featureplot.py` → `featureplot.dfy` (`FeaturePlot`): `feature_plot`.
- `synergy.py` → `synergy.dfy` (`Synergy`): `normalize_cell_counts`, `bliss_analysis`, `hsa_analysis` and `plot_synergies`.

Most of the source is pandas expressions, and those become functions and lemmas.
Two exceptions become methods with loops and invariants:

- `set_significance_marks` builds its marks in a loop.
- `bliss_analysis` and `hsa_analysis` fill a data frame cell by cell, modelled as `array2<Cell>`.

A plotting function becomes a function or method that returns `Result<Figure>`.
A `Figure` record holds what the figure shows: the bars' data, the marks, the title, and the file name used when saving.
A Python exception is a `Failure` carrying the exception's class and message.

## Model

| member | source | states |
|---|---|---|
| Frame.PresentIsCountKey | src/omero_screen_analysis/cellcycleplot.py:31-36 | a group's `count()` of a column, its non-missing cells, is the group's number of rows once the rows missing that column are dropped |
| Frame.NUniqueSkipsMissing | src/omero_screen_analysis/countplot.py:110 | `nunique()` counts the distinct plate ids without the missing one: one fewer than `unique()` exactly when a plate id is missing |
| Frame.PlateCountBounds | src/omero_screen_analysis/featureplot.py:68 | `len(unique())` of the plate ids, a missing one included, is at most the number of rows, and at least 1 for a non-empty table |
| Frame.GroupAggRows | src/omero_screen_analysis/countplot.py:37-42 | row i of a `groupby(...).agg().reset_index()` holds the i-th key and the aggregate of the rows with that key |
| Frame.CountIsSizeOfDropna | src/omero_screen_analysis/countplot.py:37-42 | a grouped `count()` of a column is the grouped `size()` of the rows that have that column |
| Frame.GroupCountsSum | src/omero_screen_analysis/countplot.py:37-42 | the per-subgroup counts of a column add up to the number of the group's rows that have that column |
| Titles.SpacesToUnderscores | src/omero_screen_analysis/cellcycleplot.py:100 | the file name has the title's length, every space of the title becomes `_`, every other character is kept, and no space remains |
| Titles.NoSpacesUnchanged | src/omero_screen_analysis/countplot.py:122 | a title without spaces is its own file name |
| Titles.TitleOrDefault | src/omero_screen_analysis/cellcycleplot.py:97-98 | a missing or empty title gives the default; any other title is kept |
| Stats.SignificanceMarker | src/omero_screen_analysis/stats.py:19-29 | "ns" exactly when p > 0.05, "*" exactly on (0.01, 0.05], "**" exactly on (0.001, 0.01], "***" exactly when p <= 0.001; a NaN p-value gives "ns" |
| Stats.MarkerMonotone | src/omero_screen_analysis/stats.py:19-29 | a smaller p-value never gets fewer stars |
| Stats.MarkerBoundaries | src/omero_screen_analysis/stats.py:22-27 | the thresholds are strict: 0.05 is "*", 0.01 is "**", 0.001 is "***" |
| Stats.MarkerAsWritten | src/omero_screen_analysis/stats.py:19-29 | the match as written: a NaN p-value gets "***"; a real p-value gets "ns" exactly above 0.05, "*" on (0.01, 0.05], "**" on (0.001, 0.01] and "***" at or below 0.001 |
| Stats.NaNMarkedHighlySignificant | src/omero_screen_analysis/stats.py:21-29 | the match as written marks a NaN p-value "***"; on every real p-value it agrees with the corrected marker |
| Stats.CalculatePValues | src/omero_screen_analysis/stats.py:7-16 | fails exactly when the table has no `condition` column (AttributeError), or has conditions but no value column; otherwise one p-value per non-first condition, the t-test of the first condition's values against that condition's values |
| Stats.PreFilterKeepsValues | src/omero_screen_analysis/stats.py:9-13 | restricting the table to the listed conditions first does not change any condition's values |
| Stats.SignificanceMarks | src/omero_screen_analysis/stats.py:31-41 | succeeds exactly when the p-values can be computed and fails with their error otherwise; mark i-1 is condition i's marker at (i, y_max), for every condition after the first |
| Stats.SetSignificanceMarks | src/omero_screen_analysis/stats.py:31-41 | the loop produces exactly the marks of `SignificanceMarks` |
| CellCycle.PhaseColumnsDistinct | src/omero_screen_analysis/cellcycleplot.py:31 | the grouping columns are distinct and do not include `percent` |
| CellCycle.Share | src/omero_screen_analysis/cellcycleplot.py:31-37 | a part of a whole as a percentage: missing (NaN) exactly when the whole is 0; otherwise in [0, 100], 0 exactly when the part is 0 and 100 exactly when the part is the whole |
| CellCycle.ExperimentsWithinGroup | src/omero_screen_analysis/cellcycleplot.py:31-36 | a phase subgroup never has more non-missing `experiment` cells than its (plate, cell line, condition) group |
| CellCycle.Percent | src/omero_screen_analysis/cellcycleplot.py:31-37 | a phase key's percent is missing exactly when its group has no non-missing `experiment` cell, and lies in [0, 100] otherwise |
| CellCycle.PercentRows | src/omero_screen_analysis/cellcycleplot.py:29-41 | one output row per phase key |
| CellCycle.PercentRowsSnoc | src/omero_screen_analysis/cellcycleplot.py:29-41 | appending a phase key appends exactly its row |
| CellCycle.CcPhase | src/omero_screen_analysis/cellcycleplot.py:27-41 | one row per (plate, cell line, condition, phase) that occurs |
| CellCycle.CcPhaseRow | src/omero_screen_analysis/cellcycleplot.py:27-41 | row i carries the i-th distinct key, exactly the key columns and `percent`, and its phase's share of the group's non-missing `experiment` cells |
| CellCycle.CcPhaseRows | src/omero_screen_analysis/cellcycleplot.py:27-41 | each row has exactly the four key columns plus `percent`, its key is the i-th distinct key, its percent is the phase's count of non-missing `experiment` cells as a share of its group's (with phase count <= group count), keys are never repeated, and every input row's key has a row |
| CellCycle.PercentRowKey | src/omero_screen_analysis/cellcycleplot.py:39-40 | a result row carries its key, its group, only the key columns and `percent`, and the phase share of its group |
| CellCycle.PercentsOfGroup | src/omero_screen_analysis/cellcycleplot.py:31-37 | over any list of phase keys, the percents of a group's rows add up to those phases' counted `experiment` cells over the group's, times 100, and to 0 when the group has none |
| CellCycle.PercentsOfGroupSnoc | src/omero_screen_analysis/cellcycleplot.py:31-37 | adding a phase key adds its percent to its own group's sum and leaves every other group's sum unchanged |
| CellCycle.PercentsSumTo100 | src/omero_screen_analysis/cellcycleplot.py:27-41 | the phase percents of a group add up to 100, or to 0 (all NaN) when no `experiment` cell of the group is present |
| CellCycle.CcPhaseKeys | src/omero_screen_analysis/cellcycleplot.py:39 | row i carries the i-th distinct (plate, line, condition, phase) key |
| CellCycle.RowGroupOccurs | src/omero_screen_analysis/cellcycleplot.py:34-36 | a result row's group occurs in the input |
| CellCycle.RowGroupsOccur | src/omero_screen_analysis/cellcycleplot.py:34-36 | every result row's group occurs in the input |
| CellCycle.AllPercentsSumTo100 | src/omero_screen_analysis/cellcycleplot.py:27-41 | for every group of the input, its percents add up to 100, or to 0 when none of its `experiment` cells is present |
| CellCycle.CountedRowGroup | src/omero_screen_analysis/cellcycleplot.py:31-37 | a row whose percent is a number belongs to a group with a present `experiment` cell |
| CellCycle.PercentTotal | src/omero_screen_analysis/cellcycleplot.py:27-41 | the percent column, NaN skipped, adds up to 100 times the number of groups with a present `experiment` cell |
| CellCycle.MeanPercent | tests/test_cellcycleplot.py:6-9 | when the present percents number `phases` per counted group, the mean percent (NaN skipped) is 100 / phases, 20 for five phases |
| CellCycle.PhaseRows | src/omero_screen_analysis/cellcycleplot.py:65-67 | a panel's rows are exactly the rows of that phase whose condition is listed |
| CellCycle.PhasePanel | src/omero_screen_analysis/cellcycleplot.py:63-86 | a panel shows its phase's rows and, when gated, the significance marks; it fails exactly when gated marks fail |
| CellCycle.PhasePanels | src/omero_screen_analysis/cellcycleplot.py:62-63 | the panels, in phase order, succeed exactly when every one does |
| CellCycle.Figure | src/omero_screen_analysis/cellcycleplot.py:60-108 | succeeds exactly when each of the four phase panels does; four panels, marks gated on three or more distinct plate ids (`nunique`, a missing id not counted), the title, and the underscored file name when saving with a path |
| CellCycle.CellcyclePlot | src/omero_screen_analysis/cellcycleplot.py:44-108 | a missing filtered table fails its assert; missing columns give a KeyError; otherwise the figure is drawn from `cc_phase` of the unfiltered table, with the default title |
| CellCycle.FilteredTableUnused | src/omero_screen_analysis/cellcycleplot.py:57-59 | the figure does not depend on the selector-filtered table |
| CellCycle.NoConditionField | src/omero_screen_analysis/cellcycleplot.py:39-40 | with another condition column name, the percent table has no `condition` column |
| CellCycle.NoConditionInRow | src/omero_screen_analysis/cellcycleplot.py:39-40 | no percent row has a `condition` column when the condition column has another name |
| CellCycle.NoConditionInPhaseRow | src/omero_screen_analysis/cellcycleplot.py:39-40 | a grouped row keyed on another condition column has no `condition` column |
| CellCycle.CustomConditionColumnFails | src/omero_screen_analysis/cellcycleplot.py:82-85 | with another condition column name, a gated panel fails with AttributeError("condition") |
| CellCycle.PhaseRowsLackCondition | src/omero_screen_analysis/cellcycleplot.py:65-67 | a panel's rows then lack `condition` |
| CellCycle.CustomConditionFigureFails | src/omero_screen_analysis/cellcycleplot.py:82-85 | with three plates and another condition column name, the whole figure fails |
| CountPlot.CountColumn | src/omero_screen_analysis/countplot.py:86-88 | `normalized_count` exactly for the normalised plot type, `count` otherwise |
| CountPlot.WellColumnsDistinct | src/omero_screen_analysis/countplot.py:38-46 | the grouping columns are distinct and do not include the columns they create |
| CountPlot.Ratio | src/omero_screen_analysis/countplot.py:56 | a number exactly when both cells are numbers and the divisor is non-zero, and then ratio times divisor is the dividend |
| CountPlot.NormRowFields | src/omero_screen_analysis/countplot.py:58-69 | a merged row holds the plate, the condition, the mean count, and the count divided by the control's count on that plate |
| CountPlot.PlateRows | src/omero_screen_analysis/countplot.py:58-63 | one row per plate |
| CountPlot.NormCount | src/omero_screen_analysis/countplot.py:32-69 | succeeds exactly when the columns exist and the control is one of the conditions; missing columns give a KeyError, and a control that is not a condition gives KeyError(control); success is the merged melt over every plate and condition |
| CountPlot.MeltOnly | src/omero_screen_analysis/countplot.py:58-69 | every result row is the row of some plate and condition |
| CountPlot.MeltHas | src/omero_screen_analysis/countplot.py:58-69 | every plate-and-condition pair has its row |
| CountPlot.Melt | src/omero_screen_analysis/countplot.py:58-69 | the result has conditions × plates rows |
| CountPlot.MeltControlOne | src/omero_screen_analysis/countplot.py:56 | a control row with a non-zero count is normalised to 1 |
| CountPlot.ControlNormalisedToOne | src/omero_screen_analysis/countplot.py:32-69 | in `norm_count`'s result, every control row with a non-zero count has `normalized_count` 1 |
| CountPlot.NormCountShape | src/omero_screen_analysis/countplot.py:53-69 | the result has one row per plate and condition, and holds the row of every pair |
| CountPlot.EqualCountsTotal | src/omero_screen_analysis/countplot.py:56-63 | on one plate where every condition matches the control's non-zero count, the normalised counts add up to the number of conditions |
| CountPlot.TwoEqualConditionsSumToTwo | tests/test_countplot.py:6-8 | one plate, two conditions with the control's non-zero count: the normalised counts add up to 2 |
| CountPlot.WellCounts | src/omero_screen_analysis/countplot.py:37-42 | one row per (plate, condition, well) that occurs, in order of first appearance, holding its key and its number of non-missing `experiment` cells |
| CountPlot.MeanCounts | src/omero_screen_analysis/countplot.py:45-50 | one row per plate-and-condition of the well counts, holding its key and the mean of its well counts |
| CountPlot.CountAtGroup | src/omero_screen_analysis/countplot.py:45-53 | for any well-count table, a plate-and-condition's pivot cell is the mean of its well counts, and missing when it has no wells |
| CountPlot.WellCountsTotal | src/omero_screen_analysis/countplot.py:37-42 | a plate-and-condition's well counts add up to its number of rows with an `experiment` value (`dropna`); with a value in every row, to its number of rows |
| CountPlot.CountAtMean | src/omero_screen_analysis/countplot.py:45-50 | the count of a plate-and-condition is the mean of its well counts, and missing when it has no wells |
| CountPlot.WellCountsPresent | src/omero_screen_analysis/countplot.py:37-47 | every well count is present, so the mean is over all the wells |
| CountPlot.CountIsRowsPerWell | src/omero_screen_analysis/countplot.py:37-50 | the count is the number of rows with an `experiment` value divided by the number of wells, a well with no such row included; with a value in every row, rows per well |
| CountPlot.WellGroupHasRows | src/omero_screen_analysis/countplot.py:37-42 | a plate-and-condition with wells has input rows |
| CountPlot.RowsGiveWellGroup | src/omero_screen_analysis/countplot.py:37-42 | every input row's plate-and-condition has wells |
| CountPlot.AbsentIsMissing | src/omero_screen_analysis/countplot.py:53-60 | a count is missing exactly when no input row has that plate and condition |
| CountPlot.CountPlotAsWritten | src/omero_screen_analysis/countplot.py:71-131 | as written, succeeds exactly when the filtered table exists, `norm_count` succeeds, there are fewer than three plates (`nunique`, a missing plate id not counted) and no axes are passed; it then shows `norm_count`'s bars with no marks |
| CountPlot.SixArgumentCallFails | src/omero_screen_analysis/countplot.py:110-118 | as written, three or more plates fail with a TypeError at the six-argument call |
| CountPlot.AxesGivenFails | src/omero_screen_analysis/countplot.py:90-123 | as written, passing the axes fails at `fig.suptitle` |
| CountPlot.CountPlot | src/omero_screen_analysis/countplot.py:71-131 | a missing filtered table fails its assert; `norm_count` errors pass through; success shows `norm_count`'s bars in the y column of the plot type, in the given order, with marks exactly when there are three distinct plate ids (`nunique`, a missing id not counted), the title only on a figure the function made, and the underscored file name |
| CountPlot.AxesGivenDrawn | src/omero_screen_analysis/countplot.py:90-131 | corrected, a call that passes the axes draws without a title or file |
| Classification.ColumnsDistinct | src/omero_screen_analysis/classification_plot.py:19-44 | the grouping columns are distinct and do not include the columns they create |
| Classification.ClassCounts | src/omero_screen_analysis/classification_plot.py:19-26 | one row per (plate, line, well, condition, class) that occurs, in order of first appearance, holding its key and its number of non-missing `experiment` cells |
| Classification.WithSharesRows | src/omero_screen_analysis/classification_plot.py:27-33 | assigning the percentages keeps every key and class count, and a percentage is missing exactly when its well's class counts add up to 0 |
| Classification.ClassPercentages | src/omero_screen_analysis/classification_plot.py:27-33 | the class-count rows in order, each keeping its key and class count, with a percentage that is missing exactly when its well's class counts add up to 0 |
| Classification.ClassMeans | src/omero_screen_analysis/classification_plot.py:34-40 | one row per (plate, line, condition, class) of the percentage table, holding its key and the mean of its wells' percentages |
| Classification.ZeroedKeys | src/omero_screen_analysis/classification_plot.py:50-52 | zeroing the percentages keeps every key |
| Classification.ClassSpreads | src/omero_screen_analysis/classification_plot.py:41-52 | the spread table lines up row by row with the mean table, same length and same keys, whether it holds the spreads or the single-plate zeros |
| Classification.WithShares | src/omero_screen_analysis/classification_plot.py:27-33 | one percentage per class-count row |
| Classification.Zeroed | src/omero_screen_analysis/classification_plot.py:50-52 | the single-plate spread table has one row per mean row |
| Classification.WithSharesSnoc | src/omero_screen_analysis/classification_plot.py:27-33 | percentages are computed row by row |
| Classification.SharesSum | src/omero_screen_analysis/classification_plot.py:27-33 | a well's percentages add up to its share of the well total, times 100 |
| Classification.WellPercentagesSumTo100 | src/omero_screen_analysis/classification_plot.py:27-33 | a well with counted cells has percentages adding up to 100 |
| Classification.CountsNonNegative | src/omero_screen_analysis/classification_plot.py:19-26 | every class count is non-negative |
| Classification.ShareBounded | src/omero_screen_analysis/classification_plot.py:27-33 | a percentage is missing (0/0) or lies in [0, 100] |
| Classification.PercentagesBounded | src/omero_screen_analysis/classification_plot.py:27-33 | every percentage is missing or lies in [0, 100] |
| Classification.MeansBounded | src/omero_screen_analysis/classification_plot.py:34-40 | every mean percentage is missing or lies in [0, 100] |
| Classification.CountedWellHasTotal | src/omero_screen_analysis/classification_plot.py:19-31 | a well with a counted row has a class total of at least 1 |
| Classification.CountedWellSumsTo100 | src/omero_screen_analysis/classification_plot.py:19-33 | every well of the input has percentages adding up to 100 |
| Classification.SinglePlateSpreadsZero | src/omero_screen_analysis/classification_plot.py:49-52 | with one plate, the spread table copies the mean table's keys with spread 0 |
| Classification.SpreadWithinPlate | src/omero_screen_analysis/classification_plot.py:41-48 | the spread groups include the plate, so each group's spread is over the wells of that one plate |
| Classification.MeanOfWells | src/omero_screen_analysis/classification_plot.py:34-40 | each mean row is the mean of its group's well percentages, and groups that do not occur have no row |
| Classification.PlotClassification | src/omero_screen_analysis/classification_plot.py:59-131 | succeeds exactly when the table is present, non-empty and has the grouping columns; fails its asserts on a missing or empty table, and gives a KeyError on missing columns; success shows the means and spreads of `quantify_classification`, with the default title and the file saved under the title itself |
| FeaturePlot.FeatureTitle | src/omero_screen_analysis/featureplot.py:82-90 | with a selector value, the title is the title string (or the feature), a space and the value; without one, it is the feature, or the title string followed by a space |
| FeaturePlot.TitleStartsWithName | src/omero_screen_analysis/featureplot.py:82-90 | the title begins with the title string, or with the feature when there is none |
| FeaturePlot.TitleEndsWithSelector | src/omero_screen_analysis/featureplot.py:82-90 | a given selector value ends the title, after a space |
| FeaturePlot.TitleOnlyTrailingUnderscore | src/omero_screen_analysis/featureplot.py:85-92 | a title string without a selector value leaves the file name ending in `_` |
| FeaturePlot.MarkedFigure | src/omero_screen_analysis/featureplot.py:68-77 | missing columns give a KeyError; otherwise the medians per plate and condition, marked, or the marks' error |
| FeaturePlot.FeaturePlot | src/omero_screen_analysis/featureplot.py:26-100 | succeeds exactly when the filtered table exists, holds `condition`, the feature and `plate_id` with at most three plates, the screen has `plate_id`, and, at three plates, the medians can be marked; errors in source order: the assert, the box plot's ValueError, AttributeError(plate_id), IndexError for a fourth plate colour, AttributeError(plate_id) on the screen; success has medians exactly when the screen has three plates, marks from those medians, the four-way title, and the underscored file name |
| FeaturePlot.BoxenPlot | src/omero_screen_analysis/featureplot.py:42-50 | the box plot fails exactly when the table lacks `condition` (x axis) or the feature (y axis), with a ValueError naming the first missing one |
| FeaturePlot.FewPlatesNoMarks | src/omero_screen_analysis/featureplot.py:42-77 | with fewer than three plates in the screen, the box plot's columns present and the plates coloured, the plot always succeeds |
| FeaturePlot.Medians | src/omero_screen_analysis/featureplot.py:69-73 | one row per plate and condition that occurs, holding its key and the median of that group's feature values |
| FeaturePlot.FirstMedianRow | src/omero_screen_analysis/featureplot.py:69-73 | the median frame of a non-empty table has a first row, holding only the plate, the condition column and the feature |
| FeaturePlot.MedianPerPlateCondition | src/omero_screen_analysis/featureplot.py:69-73 | per plate and condition that occurs, one row holds the median of that group's feature values; no other group has a row |
| FeaturePlot.MedianRowColumns | src/omero_screen_analysis/featureplot.py:69-73 | a median row holds exactly the plate, the condition column and the feature |
| FeaturePlot.MediansLackCondition | src/omero_screen_analysis/featureplot.py:69-77 | a non-empty median frame keyed on another condition column cannot be marked: AttributeError("condition") |
| FeaturePlot.CustomConditionColumnFails | src/omero_screen_analysis/featureplot.py:42-77 | with three plates, another condition column name and a `condition` column for the box plot, the plot fails with AttributeError("condition") |
| Synergy.CountColumnsDistinct | src/omero_screen_analysis/synergy.py:10 | the grouping columns are distinct and do not include `cell_count` |
| Synergy.CellCounts | src/omero_screen_analysis/synergy.py:9-13 | one row per well and dose pair that occurs, holding its key and its number of rows |
| Synergy.WellCellsTotal | src/omero_screen_analysis/synergy.py:9-13 | a well's cell counts add up to its number of rows |
| Synergy.MaxOf | src/omero_screen_analysis/synergy.py:14 | the maximum is one of the counts and no count exceeds it |
| Synergy.MinOf | src/omero_screen_analysis/synergy.py:15 | the minimum is one of the counts and no count is below it |
| Synergy.WithNormalized | src/omero_screen_analysis/synergy.py:16-18 | every row gains `normalized_cell_count` and keeps every other column and value |
| Synergy.NormalizedBounds | src/omero_screen_analysis/synergy.py:14-18 | a normalised count is missing exactly when max equals min; otherwise it lies in [0, 1], with the maximum count at 0 and the minimum at 1 |
| Synergy.NormalizedReversesOrder | src/omero_screen_analysis/synergy.py:16-18 | more cells never gives a higher normalised count |
| Synergy.NormalizedWithinUnit | src/omero_screen_analysis/synergy.py:16-18 | every normalised count is missing or in [0, 1] |
| Synergy.Pivot | src/omero_screen_analysis/synergy.py:20-22 | fails with ValueError exactly when a dose pair repeats; otherwise the rows and columns are the distinct doses, and each cell is that pair's normalised count, or missing |
| Synergy.PivotPlacesRow | src/omero_screen_analysis/synergy.py:20-22 | every counted row's value sits at its doses in the pivot |
| Synergy.NormalizeCellCounts | src/omero_screen_analysis/synergy.py:8-23 | missing columns give a KeyError; otherwise the normalised counts and their pivot, or the pivot's error |
| Synergy.PivotWithinUnit | src/omero_screen_analysis/synergy.py:8-23 | every observed cell is missing or in [0, 1] |
| Synergy.BlissAnalysis | src/omero_screen_analysis/synergy.py:26-55 | succeeds exactly when both axes have a zero dose, and otherwise fails with KeyError(0); success is a fresh grid of the pivot's shape holding the Bliss score of each cell |
| Synergy.BlissScore | src/omero_screen_analysis/synergy.py:49-53 | always a number: the observed minus the expected effect when both are numbers, and 0 (`fillna(0)`) otherwise |
| Synergy.BlissZeroOnAxes | src/omero_screen_analysis/synergy.py:39-40 | cells with a zero dose score 0 |
| Synergy.IndependentBounds | src/omero_screen_analysis/synergy.py:42-46 | for single effects in [0, 1], the expected effect is at least each of them and at most 1 |
| Synergy.BlissScoreWithinUnit | src/omero_screen_analysis/synergy.py:34-53 | on a grid within [0, 1], every Bliss score is a number in [-1, 1] |
| Synergy.BlissScoresWithinUnit | src/omero_screen_analysis/synergy.py:26-55 | the Bliss scores of normalised counts lie in [-1, 1], the colour range of the heat map |
| Synergy.HsaAnalysis | src/omero_screen_analysis/synergy.py:58-69 | fails with KeyError(0) exactly when the grid is non-empty and a zero dose is missing; otherwise a fresh grid holding each cell minus the larger single-agent effect |
| Synergy.HsaScore | src/omero_screen_analysis/synergy.py:63-69 | a number exactly when the observed cell and the agent-1 single effect are numbers (Python's `max` keeps its first argument when a comparison with NaN fails); then it is at most the observed minus each single effect, and equals one of the two differences |
| Synergy.HsaZeroAtOrigin | src/omero_screen_analysis/synergy.py:63-69 | the (0, 0) cell scores 0 |
| Synergy.HsaNonPositiveOnAxes | src/omero_screen_analysis/synergy.py:63-69 | a single-agent cell never beats itself, so cells on the axes score at most 0 |
| Synergy.HsaScoreWithinUnit | src/omero_screen_analysis/synergy.py:63-69 | on a grid within [0, 1], HSA scores lie in [-1, 1] |
| Synergy.ScoreSynergies | src/omero_screen_analysis/synergy.py:76-77 | both analyses succeed exactly when the zero doses exist, and otherwise fail with KeyError(0); success gives the Bliss and HSA scores |
| Synergy.CellLine | src/omero_screen_analysis/synergy.py:73-75 | no `cell_line` column gives AttributeError, several lines give ValueError, and an empty table gives IndexError; it succeeds exactly with one line, which every row carries |
| Synergy.PlotSynergies | src/omero_screen_analysis/synergy.py:72-128 | succeeds exactly when the cell line, the counts and the zero doses are there and a save has a path; errors arrive in source order (cell line, counts, zero doses, then ValueError for a save without a path); success shows the pivot, the HSA and Bliss scores, the default title naming the agents and the line, and the file under the title |

## Left out

- Drawing (seaborn, matplotlib), colours, axis labels, `show_repeat_points`, `select_datapoints` and the progress message `cellcycle_plot` prints are not modelled. A figure is the record of its data, marks, title and file name.
- `save_fig` is not modelled. The file name is recorded in the figure, not written.
- `selector_val_filter` is not modelled. Its result is an input, `None` or a table.
- The two-sample t-test, the median and the standard deviation are parameters. `Stats.TTest` returns a p-value or NaN.
- Floating point is modelled as exact reals. NaN and a missing value are both `Missing`. Infinity is not modelled: a division by a zero control is `Missing`, and so is 0/0.
- pandas puts groups in sorted key order. The model keeps first-appearance order. Only order-independent properties are proved.
- pandas' `groupby` drops rows whose key is NaN. The model keeps them as a group keyed by `Missing`.
- The categorical dtype that `plot_classification` sets, and its `pivot_table` and `std_data[classes]` steps, are not modelled. Only `quantify_classification` and the title and save logic are.
- On an empty table, every column counts as present. pandas looks columns up in the schema, which a list of rows does not carry.
- A path is `Option<string>`: an empty path string counts as given.
- Synergy.PlotSynergies: the cell line's text comes from a parameter `display` (Python's `str`), and the figure object itself is not returned.
- Synergy.BlissAnalysis and Synergy.HsaAnalysis: loops run over label indices in label order, not over `unique()` values. The loops fill every cell either way.
- Synergy.HsaAnalysis: with no rows or no columns it does not fail. pandas would also give an empty result.
- Synergy.Pivot: `astype(float)` is not modelled. Every cell is already a number or missing.
- FeaturePlot.FeaturePlot: the trailing space in a title string without a selector value is kept, as written.
- CellCycle.CellcyclePlot, FeaturePlot.FeaturePlot and CountPlot.CountPlot: a condition column other than `condition` is modelled as written. Its marks fail with AttributeError, as `CellCycle.CustomConditionColumnFails` and `FeaturePlot.CustomConditionColumnFails` prove. In `feature_plot` the box plot reads `condition` too, so a table without that column fails earlier, with the box plot's ValueError.
- FeaturePlot.BoxenPlot: seaborn's message is shortened to the column and its axis.
- CellCycle.PercentsSumTo100: holds only because the model keeps rows whose `cell_cycle` is missing as a phase of their own. pandas drops them from the phase counts but still counts them in the group total, so a group with such rows sums to less than 100.
- CellCycle.AllPercentsSumTo100: same reason as `CellCycle.PercentsSumTo100`; with a missing `cell_cycle` in a group, pandas' percents of that group sum to less than 100.
- CellCycle.PercentTotal: same reason as `CellCycle.PercentsSumTo100`; pandas' total is lower by the share of rows with a missing `cell_cycle`.
- CellCycle.MeanPercent: same reason as `CellCycle.PercentsSumTo100`; it counts the row the model keeps for a missing `cell_cycle`, which pandas does not have.

## Findings

| source | as written | input that shows it | evidently intended | confidence | as-written member | corrected member |
|---|---|---|---|---|---|---|
| src/omero_screen_analysis/stats.py:21-29 | a NaN p-value fails every `>` guard and gets "***" | two conditions whose values are constant and equal, so the t-test gives NaN | a comparison that cannot be made is marked "ns" | not executed | Stats.MarkerAsWritten, Stats.NaNMarkedHighlySignificant | Stats.SignificanceMarker |
| src/omero_screen_analysis/countplot.py:110-118 | `set_significance_marks` is called with six arguments but takes five | any table with three or more plates | the five-argument call, with the axes' top as y_max | not executed | CountPlot.CountPlotAsWritten, CountPlot.SixArgumentCallFails | CountPlot.CountPlot |
| src/omero_screen_analysis/countplot.py:90-123 | when the caller passes `ax`, `fig` stays `None`, and `fig.suptitle` raises AttributeError | a call with `ax` given and fewer than three plates | draw on the given axes and skip the figure title and the save | not executed | CountPlot.CountPlotAsWritten, CountPlot.AxesGivenFails | CountPlot.CountPlot, CountPlot.AxesGivenDrawn |
