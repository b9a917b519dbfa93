# Rail grinding planner — a verified model

The repository plans the grinding of a metre-gauge railway line. It has five
steps:

1. **Curve analysis** (`Analysis_curve_tpf.py`). The rail-corrugation
   measurements of one line are filtered by line name and curve radius.
   They are cut into curves: a new group id starts wherever the radius
   changes from the previous row.
2. **Curve summary.** Each curve gets one row: its start, end and radius,
   the median, mean, skewness and kurtosis of six defect channels, the
   worst median per rail side, and the wear margin left before the wear
   limit `gw`.
3. **Superstructure recording** (`test_superstructure_2.py`). The
   infrastructure segments are cleaned: reversed bounds are swapped, pieces
   longer than 20 km are dropped and two rail profiles are renamed. The
   segments are then stacked into lanes per category, and the segments that
   land on the base lane are recorded once each.
4. **Attribution** (`jointure_interval.py`, `attribution_StdE.py`).
   - The interval join gives each curve the dominant infrastructure
     segment it overlaps.
   - The recorded segments are cut at curve boundaries.
   - Each piece receives an 8-character standard-element code and a wear
     frequency from a fixed table.
   - From the curve's margin, each piece gets the number of years left
     before grinding is due (`annee`).
5. **Scheduling** (`detemination_troncon_a_meuler.py`). Pieces due within a
   year are sorted by start. Neighbouring pieces are merged into runs. The
   runs are sorted by urgency and taken greedily while they fit into the
   yearly budget.

Where the code does a step by step update, the model does too:

- the lane search and the three recording passes are methods with loops;
- the nested intersection loop is a method;
- the merge sweep and the budget loop are methods.

Each method is proved equal to a specification function, and the
properties are proved about those functions. The pandas operations are
functions over sequences:

- masks, `groupby`/`transform`, `map`/`fillna`, `merge`, `clip`;
- `sort_values`, as a parameter `sort` that is known only to return its
  input sorted and permuted (`Common.IsSort`). The order it gives to equal
  keys is left open, so every property about a sorted table holds for
  each such order.

A missing cell (NaN) is an `Option`. pandas' `inf`/NaN arithmetic in the
years column is an explicit `Years` datatype.

The files are:

| file | module |
|---|---|
| `common.dfy` | `Common`: option/result types, substring search, the sort, row-wise `apply` with an exception |
| `curve_analysis.dfy` | `CurveAnalysis`: `fun_groupe`, `safe_skew`, `output_riffel` |
| `superstructure.dfy` | `Superstructure`: clean-up and `enregistrer_troncons` |
| `interval_join.dfy` | `IntervalJoin`: `attribuer_parametres` and the join |
| `attribution.dfy` | `Attribution`: intersection loop, element code, frequency, years |
| `scheduler.dfy` | `Scheduler`: due filter, merge sweep, budget selection |

Five behaviours of the code are kept exactly as written:

- **No backfill.** The selection stops at the first run that does not
  fit. When that run is the last one, the lookahead `loc[i+1]` raises,
  which the model returns as an error.
- **Years are clipped.** The years left are clipped at zero
  (`clip(lower=0)`).
- **Radii are used as given.** `fun_groupe` filters and groups on the
  radius column as it is stored.
- **Every group is kept.** Every group id from 1 to the last gets a row of
  the curve table. When a channel has no values in a group, only that
  channel's statistics are missing.
- **The join overlap is closed.** The join uses a closed-interval overlap,
  where touching ends count. The intersection loop and the lane placement
  use strict overlaps.

## Model

| member | source | states |
|---|---|---|
| Common.SortBy | test_superstructure_2.py:108 | an insertion sort whose result is in ascending key order and is a permutation of the input (the same length and the same multiset of rows) |
| Common.SortByIsSort | test_superstructure_2.py:108 | the insertion sort meets everything `sort_values` promises, so the sort parameters can be met |
| Common.Contains | attribution_StdE.py:101 | Python's `sub in s` holds exactly when `sub` occurs at some position of `s` |
| Common.MapResult | jointure_interval.py:49 | a row-wise `apply` that may raise: it succeeds iff every row succeeds, then gives one value per row in order; otherwise it fails with the error of a row whose predecessors all succeeded |
| CurveAnalysis.Filter | Analysis_curve_tpf.py:21-23 | every row of the filtered frame is on the line and has a present radius within `[r_min, r_max]`; the result is no longer than the input |
| CurveAnalysis.FilterMembers | Analysis_curve_tpf.py:21-23 | a row is in the filtered frame iff it is an input row on the line whose radius is present and within `[r_min, r_max]` |
| CurveAnalysis.FilterAppend | Analysis_curve_tpf.py:21-23 | the row mask works row by row: filtering a concatenation concatenates the filtered parts |
| CurveAnalysis.FilterNone | Analysis_curve_tpf.py:21-23 | a stretch of rows none of which passes the mask leaves nothing |
| CurveAnalysis.FilterPosition | Analysis_curve_tpf.py:21-23 | a kept row lands in the filtered frame at the position given by the number of kept rows before it |
| CurveAnalysis.FilterPositionsIncrease | Analysis_curve_tpf.py:21-23 | the boolean mask keeps the row order: an earlier kept row sits at an earlier position |
| CurveAnalysis.FilterIndex | Analysis_curve_tpf.py:21-23 | every row of the filtered frame is a kept input row, at the position given by the number of kept rows before it |
| CurveAnalysis.FilterSource | Analysis_curve_tpf.py:21-23 | names the kept input row behind each position of the filtered frame, with the number of kept rows before it equal to that position |
| CurveAnalysis.FilterAdjacent | Analysis_curve_tpf.py:21-23 | two kept rows with only dropped rows between them are adjacent in the filtered frame |
| CurveAnalysis.GroupIds | Analysis_curve_tpf.py:24 | one id per row; the first id is 1; each id is its predecessor's, plus one exactly when the radius differs from the previous row's |
| CurveAnalysis.GroupIdsConsecutive | Analysis_curve_tpf.py:24 | the ids start at 1 and grow by 0 or 1 from row to row |
| CurveAnalysis.GroupIdsRun | Analysis_curve_tpf.py:24 | ids never decrease along the rows, and two rows share an id iff the radius does not change anywhere between them (a curve is a maximal constant-radius run) |
| CurveAnalysis.SameGroupSameRadius | Analysis_curve_tpf.py:24 | rows with the same id have the same radius |
| CurveAnalysis.ConsecutiveCovers | Analysis_curve_tpf.py:117-118 | every id from 1 to the last id is carried by some row, so no group is empty |
| CurveAnalysis.GroupValsMembers | Analysis_curve_tpf.py:29-31 | the values gathered for group `g` are exactly the values of the rows with id `g` |
| CurveAnalysis.AddOpt | Analysis_curve_tpf.py:25-28 | the sum of two cells is present iff both are present, and is then their sum (NaN propagates) |
| CurveAnalysis.Combine | Analysis_curve_tpf.py:25-28 | CAL 10-100 is ATM 10-30 + ATM 30-100 and CAL 30-300 is ATM 30-100 + ATM 100-300, each missing iff one of its bands is missing; ATM 300-1000 is passed on |
| CurveAnalysis.MeanOfConstant | Analysis_curve_tpf.py:31 | the mean of a group whose values are all `c` is `c`, so the group's mean radius is its radius |
| CurveAnalysis.Grouped | Analysis_curve_tpf.py:24-32 | one output row per kept row, carrying that row and its group id; the ids are consecutive from 1 |
| CurveAnalysis.GroupedAt | Analysis_curve_tpf.py:24-32 | row `i` of the grouped frame carries measurement `i` and its id; CAL 10-100 / CAL 30-300 / ATM 300-1000 per side are the band sums of that row; `long = bis - von`; `rayon_courbe` is the row's radius; `km_debut` is the least `von` and `km_fin` the greatest `bis` over the rows with the same id, each attained by such a row |
| CurveAnalysis.GroupedChannels | Analysis_curve_tpf.py:25-32 | row `i` of the grouped frame carries the band sums of measurement `i` and `long = bis - von` |
| CurveAnalysis.GroupedRadius | Analysis_curve_tpf.py:24-31 | `rayon_courbe`, the group's mean radius, is the row's own radius |
| CurveAnalysis.GroupedBounds | Analysis_curve_tpf.py:29-30 | `km_debut` is the least `von` and `km_fin` the greatest `bis` over the rows with the same id, each attained by such a row |
| CurveAnalysis.GroupedUniform | Analysis_curve_tpf.py:29-31 | two rows with the same id carry the same `km_debut`, `km_fin` and `rayon_courbe` |
| CurveAnalysis.FunGroupe | Analysis_curve_tpf.py:20-34 | one row per measurement that passes the filter, in filter order; the first id is 1 and each id is the previous one plus 1 exactly when the radius changes from the previous kept row; each row has the combined channels, `long = bis - von` and its radius as `rayon_courbe` |
| CurveAnalysis.KeptNeighboursIds | Analysis_curve_tpf.py:21-24 | two kept rows separated only by dropped rows are neighbours in the grouped frame and share an id exactly when their radii are equal |
| CurveAnalysis.GroupedIds | Analysis_curve_tpf.py:24 | in the grouped frame the first id is 1, and each id is the previous one plus 1 exactly when the radius changes |
| CurveAnalysis.GroupedSameRadius | Analysis_curve_tpf.py:24 | rows of the grouped frame with the same id come from measurements with the same radius |
| CurveAnalysis.GroupedShape | Analysis_curve_tpf.py:29-31 | `rayon_courbe` is the row's radius. `km_debut` and `km_fin` are the same on every row of the group, enclose all its `[von, bis]`, and are attained by some row of the group |
| CurveAnalysis.StdPositiveIffVaried | Analysis_curve_tpf.py:72 | with at least two values, the standard deviation is positive iff the values are not all equal |
| CurveAnalysis.SafeSkew | Analysis_curve_tpf.py:71-75 | 0 for fewer than two values or for values that are all equal; otherwise the skewness estimator's value |
| CurveAnalysis.ChannelValuesMembers | Analysis_curve_tpf.py:81 | after `dropna` and `groupby`, a channel's values for group `g` are exactly the present values of that channel on rows of group `g` |
| CurveAnalysis.StatsOf | Analysis_curve_tpf.py:81-85 | a channel's statistics are missing iff it has no value in the group; otherwise the mean is the mean, the median and kurtosis are the estimators', the skewness is `safe_skew`'s, and a degenerate group has skewness 0 |
| CurveAnalysis.StatsOfConstant | Analysis_curve_tpf.py:71-85 | a channel constant over a group has that constant as mean and skewness 0 |
| CurveAnalysis.MaxOpt | Analysis_curve_tpf.py:151-159 | the row-wise `max` skipping NaN is missing only when both are missing, is one of them, and bounds every present one |
| CurveAnalysis.MinOpt | Analysis_curve_tpf.py:162 | the row-wise `min` skipping NaN is missing only when both are missing, is one of them, and is bounded by every present one |
| CurveAnalysis.WearMargins | Analysis_curve_tpf.py:151-162 | `max_l`/`max_r` is the largest present median of the side's three channels, missing iff all three are; `max` is the larger side; `reserve_usure_l/r` is `gw - max_l/r`; `reserve_usure_min` is both `gw - max` and the smaller reserve |
| CurveAnalysis.GroupMax | Analysis_curve_tpf.py:117-120 | the `groupby().max()` of a column is the value of some row of the group and no row of the group exceeds it |
| CurveAnalysis.GroupStats | Analysis_curve_tpf.py:117-162 | a curve row carries its id; `km_debut`, `km_fin` and `rayon` are values of rows of that group; `length = km_fin - km_debut`; `reserve_usure_min = gw - max` |
| CurveAnalysis.GroupStatsFields | Analysis_curve_tpf.py:77-162 | `km_debut`, `km_fin` and `rayon` are the group maxima of those columns; the per-side statistics are those of the group's channels; `max_l`, `max_r`, `max` and the three reserves are the wear margins of those statistics |
| CurveAnalysis.OutputRiffel | Analysis_curve_tpf.py:77-163 | the curve table has exactly one row per group id 1..n, in id order; row `k` summarises group `k+1` |
| CurveAnalysis.GroupedIdInRange | Analysis_curve_tpf.py:117-118 | each grouped row's id names a row of the curve table |
| CurveAnalysis.UniformGroupStats | Analysis_curve_tpf.py:117-120 | when bounds and radius are uniform over a group, its curve row takes exactly those values |
| CurveAnalysis.CurveTableCoversGroup | Analysis_curve_tpf.py:20-163 | for every kept measurement, the curve row of its group encloses `[von, bis]` and has the measurement's radius |
| Superstructure.SwapBounds | test_superstructure_2.py:53-56 | the bounds are the original ones or swapped, ordered whenever both are present, and unchanged when already ordered or one is missing; attributes unchanged |
| Superstructure.RenameRail | test_superstructure_2.py:62-67 | "CFF I" becomes "46 E1" and "CFF IV" becomes "54 E2"; every other profile, and a missing one, is kept; neither old name remains |
| Superstructure.RenameRailIdempotent | test_superstructure_2.py:62-67 | renaming twice is renaming once |
| Superstructure.CleanRow | test_superstructure_2.py:53-67 | a kept row is cleaned: its bounds are those of the swap (ordered), no more than 20 km apart; its profile is the renamed one; sleeper and steel unchanged |
| Superstructure.Clean | test_superstructure_2.py:53-67 | the clean-up never adds rows and every output row is cleaned |
| Superstructure.CleanMembers | test_superstructure_2.py:53-67 | a row is in the cleaned table iff it is the cleaned form of an input row that passes the 20 km filter |
| Superstructure.FirstFreeSpec | test_superstructure_2.py:27-28 | the lane found is free of strict overlaps, and every lane tried before it is blocked |
| Superstructure.FindLane | test_superstructure_2.py:24-28 | the `while any(...)` search yields the first free lane from the base lane down |
| Superstructure.RecordPass | test_superstructure_2.py:15-42 | one category pass appends to the record, in row order, the base-lane tuples not yet recorded; the seen set stays the set of recorded tuples |
| Superstructure.EnregistrerTroncons | test_superstructure_2.py:9-42 | the three category passes record exactly the deduplicated base-lane tuples of one pass |
| Superstructure.DedupIntoExtends | test_superstructure_2.py:34-42 | recording only appends: the earlier record is a prefix of the new one |
| Superstructure.DedupIntoElements | test_superstructure_2.py:34-42 | a tuple is recorded iff it was recorded before or occurs in the pass |
| Superstructure.DedupIntoSeen | test_superstructure_2.py:34 | a pass whose tuples are all recorded changes nothing |
| Superstructure.LaterPassAddsNothing | test_superstructure_2.py:13-15 | since every category places the rows identically, the second and third passes add nothing |
| Superstructure.DedupIntoDistinct | test_superstructure_2.py:34-36 | the record never holds a tuple twice |
| Superstructure.DedupProperties | test_superstructure_2.py:34-42 | deduplication keeps exactly the tuples of its input, each once |
| Superstructure.ActiveFromPresentRows | test_superstructure_2.py:21-30 | every placed segment comes from a row whose bounds are both present |
| Superstructure.SameLaneDisjoint | test_superstructure_2.py:27-30 | two segments placed on the same lane never strictly overlap |
| Superstructure.BaseTuplesOnLaneZero | test_superstructure_2.py:30-33 | every base tuple was placed on the base lane |
| Superstructure.BaseTuplesDisjoint | test_superstructure_2.py:32-33 | the base tuples pairwise do not strictly overlap |
| Superstructure.BaseTuplesFromRows | test_superstructure_2.py:32-33 | a tuple is a base tuple iff it is the tuple of a row that lands on the base lane |
| Superstructure.RecordedPartition | test_superstructure_2.py:9-42 | the recorded segments are distinct, pairwise non-overlapping, and exactly the tuples of the rows that land on the base lane |
| Superstructure.RecordSuperstructure | test_superstructure_2.py:53-108 | for any sort by start that orders and permutes its input, whatever it does with equal starts: the record is the deduplicated base tuples of the sorted cleaned table, and each recorded segment is ordered, at most 20 km long and carries a renamed profile |
| Superstructure.TieOrderChangesBaseLane | test_superstructure_2.py:24-33 | two overlapping rows with the same start, in either order: the first one takes the base lane and the other does not, so the order among equal starts changes the record |
| IntervalJoin.OverlapsIffCommonPoint | jointure_interval.py:23-28 | two closed intervals overlap iff they share a point |
| IntervalJoin.OverlapsSymmetric | jointure_interval.py:28 | the overlap test is symmetric |
| IntervalJoin.Normalise | jointure_interval.py:17-19 | `pk_debut_corr`/`pk_fin_corr` are the smaller and larger bound (the present one when only one is present, missing when both are), enclose both bounds, and the rail profile is renamed |
| IntervalJoin.Length | jointure_interval.py:21 | the length is present iff both corrected bounds are, is then `pk_fin_corr - pk_debut_corr`, and is non-negative for ordered bounds |
| IntervalJoin.MatchIndices | jointure_interval.py:28-29 | the matches are exactly the segments whose interval overlaps the curve's, in table order |
| IntervalJoin.FirstMax | jointure_interval.py:32-34 | `idxmax` picks a longest match, and the first one among equals |
| IntervalJoin.AttribuerParametres | jointure_interval.py:26-46 | a curve with reversed bounds or a segment without an interval raises. Otherwise the curve is kept, and its attribution is missing iff no segment overlaps it |
| IntervalJoin.AttributionShape | jointure_interval.py:31-42 | a curve with matches carries the lists of all its matches and the sleeper, steel and rail of the first longest match |
| IntervalJoin.Jointure | jointure_interval.py:16-49 | the join succeeds iff every curve (in km) can be attributed; then it gives one row per curve, in order; otherwise it fails with the error of the first curve that cannot be attributed |
| Attribution.Cut | attribution_StdE.py:44-55 | a piece lies inside both the segment and the curve, is non-empty (ordered) when both are, keeps the segment's attributes, and takes the curve's radius and id |
| Attribution.Intersect | attribution_StdE.py:36-57 | the nested loops produce, segment by segment and curve by curve, the pieces of every intersecting pair |
| Attribution.PiecesOfMembers | attribution_StdE.py:41-57 | a segment's pieces are exactly the cuts with the curves it strictly intersects, at most one per curve |
| Attribution.PiecesOfEmpty | attribution_StdE.py:41-43 | a segment yields no piece iff it intersects no curve |
| Attribution.PiecesOfAppend | attribution_StdE.py:43 | the pieces over a concatenation of curve tables are the concatenated pieces |
| Attribution.IntersectAllAppend | attribution_StdE.py:36 | the pieces of concatenated segment tables are the concatenated pieces |
| Attribution.IntersectAllMembers | attribution_StdE.py:36-57 | a piece is produced iff it is the cut of some intersecting (segment, curve) pair |
| Attribution.RadiusDigit | attribution_StdE.py:83-94 | the radius class is 1 above 600, 2 in (300, 600], 3 in (120, 300], 4 in (80, 120], 5 at or below 80, F when the radius is missing |
| Attribution.SleeperDigit | attribution_StdE.py:97-104 | the sleeper digit is 1 for concrete, 3 for wood, 4 for any other type containing "Acier", else F |
| Attribution.RailDigit | attribution_StdE.py:107-112 | the rail digit is 2 when the profile contains "46 E1", else 1 when it contains "54 E2", else E |
| Attribution.SteelDigit | attribution_StdE.py:115-118 | the steel digit is 1 for R 260, 2 for R 350 HT, F when missing, else 3 |
| Attribution.ElementCode | attribution_StdE.py:120-125 | the code has 8 characters: the fixed digits 3, 1, then the radius, sleeper, rail and steel digits, then 1, 1 |
| Attribution.RadiusDigitAntitone | attribution_StdE.py:85-94 | a larger radius never has a higher class digit |
| Attribution.RenamedRailsClassified | attribution_StdE.py:107-110 | the renamed profiles "CFF I" and "CFF IV" classify as 2 and 1 |
| Attribution.Frequence | attribution_StdE.py:131-141 | the frequency lies in [0, 0.25], and is 0.15 for a code absent from the table |
| Attribution.KeyDigits | attribution_StdE.py:131-138 | every table key is an 8-character code `31cd2f11` with radius class c in 1-5, sleeper d in {1,3,4} and steel f in {1,2} |
| Attribution.KeyRate | attribution_StdE.py:131-138 | every table entry agrees with the rate grid indexed by radius class, sleeper and steel |
| Attribution.GridListed | attribution_StdE.py:131-138 | every code of the grid is a key of the table |
| Attribution.KnownCodes | attribution_StdE.py:120-138 | the code of a curved piece is in the table iff the rail digit is 2, the sleeper is classified and the steel is R 260 or R 350 HT |
| Attribution.FrequenceOnGrid | attribution_StdE.py:120-141 | the frequency of a piece is its grid rate when its code is listed, and 0.15 otherwise |
| Attribution.ZeroFrequence | attribution_StdE.py:131-141 | the frequency is 0 iff the code is listed and the radius exceeds 300 |
| Attribution.SharperCurveWearsFaster | attribution_StdE.py:83-141 | with the same superstructure, a tighter curve never has a lower frequency |
| Attribution.Annee | attribution_StdE.py:148-149 | the years left are never negative; they are undefined (NaN) iff the reserve is missing or both reserve and frequency are 0; infinite iff the frequency is 0 and the reserve positive |
| Attribution.AnneeRecoversReserve | attribution_StdE.py:148 | for a positive frequency, years × 0.08 × frequency gives back a non-negative reserve |
| Attribution.WornOutIsDue | attribution_StdE.py:148-149 | a negative reserve gives 0 years (the clip) |
| Attribution.AnneeAntitone | attribution_StdE.py:148 | for a fixed reserve, a higher frequency never gives more years |
| Attribution.AnneeHalves | attribution_StdE.py:148 | doubling the frequency halves the years |
| Attribution.ZeroRateReachable | attribution_StdE.py:131-149 | a listed code with rate 0 exists, and a zero rate on a positive reserve gives an infinite number of years |
| Attribution.ReserveOf | attribution_StdE.py:147 | the left merge gives a reserve only from a curve with that id; an id no curve has gives a missing reserve |
| Attribution.ReserveOfCurve | attribution_StdE.py:147 | with distinct ids, the merge finds exactly the reserve of the curve with that id |
| Attribution.TableGroupesDistinct | attribution_StdE.py:147 | the curve table's ids are distinct, so the merge on `groupe` is one-to-one |
| Attribution.StandardiseAll | attribution_StdE.py:128-149 | one standardised row per piece, in order |
| Attribution.AttribuerElementStandard | attribution_StdE.py:26-149 | the script's rows are the standardised pieces of every segment × curve intersection, with the curves converted to km |
| Attribution.RowsFromPairs | attribution_StdE.py:36-149 | every output row is the cut of an intersecting pair, with the element code of its radius, sleeper, rail and steel, that code's frequency, and the years computed from that curve's reserve |
| Scheduler.Eligible | detemination_troncon_a_meuler.py:9-12 | only rows due within a year (`annee <= 1`) are kept; never more rows than given |
| Scheduler.EligibleMembers | detemination_troncon_a_meuler.py:9-12 | a section is eligible iff it comes from a row whose years are finite and at most 1 |
| Scheduler.SummaryBounds | detemination_troncon_a_meuler.py:32-35 | a merged run starts at its first section, ends at the furthest end of its sections, and has the smallest years of its sections |
| Scheduler.Blocks | detemination_troncon_a_meuler.py:28-42 | a non-empty input gives at least one run, never more runs than sections, and no empty run |
| Scheduler.BlocksPartition | detemination_troncon_a_meuler.py:28-42 | the runs, concatenated, are exactly the sorted sections: every section is in exactly one run, in order |
| Scheduler.BlocksAddLast | detemination_troncon_a_meuler.py:28-42 | read in order, the blocks of a table are those of its prefix followed by its last section, whether that section joins the last run or opens one |
| Scheduler.SummaryExtend | detemination_troncon_a_meuler.py:33-35 | extending a run's summary by a section gives the summary of the extended run |
| Scheduler.BlocksJoinInside | detemination_troncon_a_meuler.py:32-35 | inside a run, every section lies within 0.19 km of the run so far, and that run is at most 0.85 km long |
| Scheduler.BlocksSplitWhereNoJoin | detemination_troncon_a_meuler.py:32-39 | a new run starts only where the next section does not join the previous run |
| Scheduler.MergeRuns | detemination_troncon_a_meuler.py:24-42 | an empty input raises at `iloc[0]`; otherwise the sweep returns the summaries of the runs, in order |
| Scheduler.SweepStep | detemination_troncon_a_meuler.py:28-39 | one loop iteration keeps the sweep invariant: closed runs and current run summarise the runs of the prefix |
| Scheduler.FirstMisfit | detemination_troncon_a_meuler.py:53-59 | the first run that does not fit after all earlier runs were taken, or none when every run fits |
| Scheduler.Select | detemination_troncon_a_meuler.py:49-59 | the selection loop gives the runs before the first misfit, all runs when none misfits, and an error when the misfit is the last run |
| Scheduler.FirstMisfitAt | detemination_troncon_a_meuler.py:53-59 | a misfit at `i` with every earlier run fitting is the first misfit |
| Scheduler.SelectWithinBudget | detemination_troncon_a_meuler.py:19-21 | the selected runs total at most 4.2 km (42000 CHF at 10 CHF per metre) |
| Scheduler.SelectMaximal | detemination_troncon_a_meuler.py:53-59 | the selection is a prefix of the runs and stops only at a run that does not fit; it fails iff that run is the last one |
| Scheduler.SelectMostUrgent | detemination_troncon_a_meuler.py:49-56 | with the runs sorted by years, no unselected run is more urgent than a selected one |
| Scheduler.Schedule | detemination_troncon_a_meuler.py:9-59 | for the two given sorts, the script filters, sorts by start, merges, sorts by years and selects, exactly as the specification function with the same sorts |
| Scheduler.TieOrderChangesRuns | detemination_troncon_a_meuler.py:16-39 | two sections with the same start, both orders sorted: one order merges them into one run and the other keeps two runs |
| Scheduler.ScheduleMostUrgent | detemination_troncon_a_meuler.py:49-59 | for any sorts that order and permute their input, the programme is a prefix of the runs sorted by years and no run left out is more urgent than a selected one |
| Scheduler.RunsDue | detemination_troncon_a_meuler.py:35 | merged runs of due sections are still due |
| Scheduler.ScheduleDueAndWithinBudget | detemination_troncon_a_meuler.py:9-59 | for any sorts that order and permute their input, every run of the programme is due within a year and the programme fits the budget |

## Left out

- Reading and writing CSV files, plotting with Plotly, the Dash application and the JSON figure are not modelled. The model takes and returns the tables as sequences.
- The `print` calls are not modelled. The `print` on line 58 of `detemination_troncon_a_meuler.py` is modelled only by the `KeyError` it raises when it reads past the last run.
- The median (pandas), skewness and kurtosis (scipy) are parameters (`CurveAnalysis.Estimators`). Their formulas are not modelled; the `safe_skew` guard is.
- `cause_max_l` and `cause_max_r` (`idxmax` over the medians, lines 155-158 of `Analysis_curve_tpf.py`) are display columns and are not modelled.
- Floating-point arithmetic is modelled with exact reals. The lane step of 0.1 in the placement loop is a lane index, since `y_pos == y_base` holds exactly when no step was taken.
- The algorithm behind `sort_values` is not modelled. The default pandas sort is not stable, so the sorts are parameters. They are constrained only by sortedness and permutation (`Common.IsSort`). `Common.SortBy`, a stable insertion sort, only witnesses that such a sort exists.
- Measurement positions `von` and `bis` are always present in the model (`real`, not an optional cell). The transform `min`/`max` of lines 29-30 of `Analysis_curve_tpf.py` would skip a missing position; that case is not represented.
- `category_value`, the category offsets and the colours only affect the drawing. Every category pass places the rows the same way.
- Python's tuple equality treats a NaN attribute as equal to itself only by identity. The model compares missing attributes structurally (None equals None).
- Attribution.ReserveOf: the left merge would duplicate a piece if two curve rows shared an id. The model takes the first such row; `TableGroupesDistinct` shows the ids of the curve table are distinct.
- Scheduler sections keep only the bounds and the years. The other columns carried along by `copy()` play no part in the merge or the selection.
- `transformer_rationnels`, applied to the radius column at line 16 of `attribution_StdE.py`, is not defined in any of the modelled files and is not part of this model. The radii enter the curve analysis as given.
- The tables written to CSV and read back (`segments_superieurs.csv`, `segments_superieurs_avec_rayon.csv`) are modelled as passed on unchanged.
