# Solar suitability scoring, modelled in Dafny

This project models the scoring and overlay logic of `script/solar_suitability.py`. That script ranks terrain for solar installations. It takes four criterion rasters derived from an elevation model and a road network: slope, aspect, summer solar radiation and distance to roads. It scores each cell 1 to 5 on every criterion and combines the four scores into a weighted suitability surface. Then it keeps the cells scoring at least 4.5 and the regions of them that cover at least 2 hectares.

The model is pure: functions over rasters and lemmas about them. A raster (`Raster.Grid`) is a header (cell size, rows, columns) plus row-major cells of type `Option<T>`, where `None` is NoData.

- `raster.dfy`: the raster datatype, grid alignment, mask membership.
- `reclassify.dfy`: range-remap tables and the boundary rule; classification of one value and of a raster; general facts about gap-free ascending tables ("chains").
- `criteria.dfy`: the slope, aspect and distance tables as the script writes them, with their domain, uniqueness, monotonicity and ideal-class lemmas.
- `quantile.dfy`: the positive solar sample, sorting, percentiles with linear interpolation, the six breaks, the five-row solar table and the solar score raster.
- `overlay.dfy`: the weights 0.3 / 0.2 / 0.4 / 0.1, the per-cell weighted sum with NoData propagation, the mask and the suitability raster.
- `zones.dfy`: the 4.5 threshold, the best-zone raster, region areas in hectares and the minimum-area filter.
- `pipeline.dfy`: the four criteria composed into the suitability surface, plus the selection rule and the all-fives scenario (a 3×3 grid of 100 m cells).

Decisions the script leaves to the GIS library, made explicit here:

- Boundary rule. Each row `[lo, hi, score]` covers `lo <= v < hi`, except one closed row. The closed row is the one that reaches the table's greatest upper bound (the last such row in table order), and it also covers `v == hi`. When several rows cover a value, the first row in table order wins. This closes the last row of the slope, distance and solar tables. In the aspect table the flat row `[-1, 0]` is listed last, and the rule closes the `[315, 360]` row instead, so the table stays in the script's order. A slope of exactly 5 degrees scores 4.
- Unmatched values. A value that no row covers becomes NoData.
- Percentiles. The percentile at `20 * j` percent of a sorted sample of `n` values sits at position `(n - 1) * j / 5`. It interpolates linearly between the two order statistics around that position. The model computes this with exact integer and real arithmetic.
- Empty solar sample. An empty sample makes the percentile computation raise an error. The model returns `None` for it (`SolarBreaks`, `SolarScores`, `SuitabilitySurface`).
- Plateaus. The script does not merge equal breaks, and neither does the model. On a plateau of equal lowest values the first solar row is empty, and the sample minimum scores above 1 (`SolarMinimumScoresOneIff`). The sample maximum always scores 5 (`SolarMaximumScoresFive`).

## Model

| member | source | states |
|---|---|---|
| Reclassify.ClosedAt | script/solar_suitability.py:68-75 | the closed row reaches every other row's upper bound, and no later row shares it |
| Reclassify.ClosedAtUnique | script/solar_suitability.py:68-75 | at most one row of a table is closed |
| Reclassify.ClosedAtExists | script/solar_suitability.py:68-75 | every non-empty table has a closed row |
| Reclassify.Covers | script/solar_suitability.py:68-75 | a covering row has lo <= v <= hi; every v in [lo, hi) is covered; v == hi is covered exactly by the closed row |
| Reclassify.FirstCover | script/solar_suitability.py:75 | returns the first row in table order that covers the value under the boundary rule, or none exactly when no row covers it |
| Reclassify.Classify | script/solar_suitability.py:75 | a value is scored iff some row covers it, and its score is that of a covering row |
| Reclassify.ReclassifyGrid | script/solar_suitability.py:75 | keeps the header; NoData stays NoData; a valid cell is scored iff a row covers its value; the score comes from a covering row and equals the classification of the cell's value |
| Reclassify.ChainOrdered | script/solar_suitability.py:68-74 | in a gap-free ascending table every row ends at or before any later row starts |
| Reclassify.ChainClosedAtLast | script/solar_suitability.py:68-74 | in a gap-free ascending table the closed row is exactly the last one |
| Reclassify.ChainDomain | script/solar_suitability.py:68-75 | a gap-free ascending table scores a value iff it lies in [first lo, last hi], and then exactly one row covers it |
| Reclassify.ChainRowMonotone | script/solar_suitability.py:68-74 | in such a table a larger value is covered by the same row or a later one |
| Reclassify.ChainClassifyRow | script/solar_suitability.py:75 | a scored value's score is that of the unique row covering it |
| Reclassify.ChainAntitone | script/solar_suitability.py:68-74 | with scores falling along the table, a larger value never scores higher |
| Reclassify.ChainMonotone | script/solar_suitability.py:126-132 | with scores rising along the table, a larger value never scores lower |
| Reclassify.ReclassifyChain | script/solar_suitability.py:75 | a raster reclassified by such a table is scored exactly at the valid cells inside the domain, within the table's score range |
| Reclassify.ClassifyUniqueRow | script/solar_suitability.py:75 | when exactly one row covers a value, that row's score is the result |
| Criteria.SlopeScore | script/solar_suitability.py:68-75 | a slope is scored iff it is in [0, 90], and then in 1..5 |
| Criteria.AspectScore | script/solar_suitability.py:88-96 | an aspect is scored iff it is in [-1, 360], and then in 1..5 |
| Criteria.DistanceScore | script/solar_suitability.py:148-155 | a distance is scored iff it is in [0, 100000], and then in 1..5 |
| Criteria.SlopeTableIsChain | script/solar_suitability.py:68-74 | the slope table (`Criteria.SlopeTable`, the script's rows in order) is gap-free ascending, with falling scores in 1..5 |
| Criteria.SlopeDomain | script/solar_suitability.py:68-74 | a slope is scored iff it is in [0, 90], then by exactly one row and in 1..5 |
| Criteria.SlopeAntitone | script/solar_suitability.py:68-74 | a steeper slope in [0, 90] never scores higher |
| Criteria.SlopeIdeal | script/solar_suitability.py:69-70 | a slope scores 5 iff it is in [0, 5); exactly 5 degrees scores 4 |
| Criteria.DistanceTableIsChain | script/solar_suitability.py:148-154 | the distance table (`Criteria.DistanceTable`, the script's rows in order) is gap-free ascending, with falling scores in 1..5 |
| Criteria.DistanceDomain | script/solar_suitability.py:148-154 | a distance is scored iff it is in [0, 100000], then by exactly one row and in 1..5 |
| Criteria.DistanceAntitone | script/solar_suitability.py:148-154 | a cell farther from the roads never scores higher |
| Criteria.DistanceIdeal | script/solar_suitability.py:149 | a distance scores 5 iff it is in [0, 500) |
| Criteria.AspectClosedRow | script/solar_suitability.py:88-95 | of the rows of the aspect table (`Criteria.AspectTable`, the script's rows in order, flat row last) only the 315–360 row is closed |
| Criteria.AspectCovers | script/solar_suitability.py:88-95 | an aspect row covers exactly its half-open range, and the 315–360 row also covers 360 |
| Criteria.AspectRow | script/solar_suitability.py:88-95 | every aspect in [-1, 360] is covered by a row |
| Criteria.AspectDomain | script/solar_suitability.py:88-95 | an aspect is scored iff it is in [-1, 360], then by exactly one row and in 1..5 |
| Criteria.AspectSouth | script/solar_suitability.py:91 | aspects in [135, 225) score 5 |
| Criteria.AspectFlat | script/solar_suitability.py:94 | the flat value -1 scores 3 |
| Criteria.SlopeScores | script/solar_suitability.py:68-77 | the slope score raster keeps the header, is scored exactly at valid slopes in [0, 90], each valid cell holds the slope score of its value, and each score is in 1..5 |
| Criteria.AspectScores | script/solar_suitability.py:88-98 | the aspect score raster keeps the header, is scored exactly at valid aspects in [-1, 360], each valid cell holds the aspect score of its value, each score in 1..5 |
| Criteria.DistanceScores | script/solar_suitability.py:148-157 | the distance score raster keeps the header, is scored exactly at valid distances in [0, 100000], each valid cell holds the distance score of its value, each score in 1..5 |
| Criteria.SlopeScoresAntitone | script/solar_suitability.py:68-75 | on the slope score raster a steeper scored cell never scores higher than a gentler one |
| Criteria.DistanceScoresAntitone | script/solar_suitability.py:148-155 | on the distance score raster a farther scored cell never scores higher than a nearer one |
| Quantile.PositiveSample | script/solar_suitability.py:118-119 | each value above 0 occurs in the sample exactly as often as valid cells hold it, and no other value occurs; never longer than the raster |
| Quantile.Insert | script/solar_suitability.py:123 | inserting into a sorted sample stays sorted and adds exactly one occurrence |
| Quantile.Sort | script/solar_suitability.py:123 | the sorted sample is in ascending order and a permutation of the sample |
| Quantile.Percentile | script/solar_suitability.py:122-123 | the 0th percentile is the first value of the sample and the 100th the last (for a sorted sample its minimum and maximum, by `SortedMinMax`) |
| Quantile.PercentileWeighted | script/solar_suitability.py:123 | at a fractional position (n - 1) * j / 5 = k + rem / 5 the percentile is the linear interpolation (5 - rem) / 5 * s[k] + rem / 5 * s[k + 1] |
| Quantile.PercentileBetween | script/solar_suitability.py:123 | a percentile lies between the two order statistics around its position (n - 1) * j / 5, and equals the order statistic there when the position is whole |
| Quantile.PercentileMonotone | script/solar_suitability.py:122-123 | percentiles of a sorted sample never decrease as the percentage grows |
| Quantile.BreaksBracketed | script/solar_suitability.py:122-123 | every one of the six breaks sits between the order statistics around its position |
| Quantile.BreaksNonDecreasing | script/solar_suitability.py:122-123 | the six breaks never decrease |
| Quantile.SortedMinMax | script/solar_suitability.py:123 | the first and last sorted values are the sample's minimum and maximum |
| Quantile.SolarBreaks | script/solar_suitability.py:119-123 | none iff the sample is empty; otherwise six non-decreasing breaks, the first the sample minimum, the last its maximum, and break j between the sorted values at positions floor((n - 1) * j / 5) and the next, equal to the first of them when the position is whole; each break is the linearly interpolated percentile of the sorted sample |
| Quantile.SolarBreaksOfTwo | script/solar_suitability.py:122-123 | the sample 2, 1 has breaks 1, 1.2, 1.4, 1.6, 1.8, 2: interpolated, not the lower order statistic |
| Quantile.BreaksOfOneTwo | script/solar_suitability.py:122-123 | the six linearly interpolated percentiles of the sorted sample 1, 2 are 1, 1.2, 1.4, 1.6, 1.8, 2 |
| Quantile.SolarTable | script/solar_suitability.py:126-132 | five rows, row i running from break i to break i + 1 with score i + 1; from non-decreasing breaks a gap-free ascending table scored 1..5 |
| Quantile.ReclassifiedWithin | script/solar_suitability.py:126-134 | positive non-decreasing breaks enclosing every valid positive cell score exactly those cells, each in 1..5 |
| Quantile.SolarReclassified | script/solar_suitability.py:126-134 | reclassifying by the sample's breaks scores exactly the valid positive cells, each in 1..5 |
| Quantile.SolarScores | script/solar_suitability.py:117-136 | none iff no cell is valid and positive (iff there are no breaks); otherwise scored exactly at valid positive cells, each in 1..5, and each valid cell holds the classification of its value by the table of the sample's breaks |
| Quantile.SolarMonotone | script/solar_suitability.py:126-132 | within the breaks, higher radiation never scores lower |
| Quantile.SolarCellInBreaks | script/solar_suitability.py:119-123 | every valid positive cell lies between the first and the last break |
| Quantile.SolarScoresMonotone | script/solar_suitability.py:126-134 | on the solar score raster a scored cell with more radiation never scores lower than one with less |
| Quantile.SolarMaximumScoresFive | script/solar_suitability.py:131 | the top break (the sample maximum) scores 5 |
| Quantile.SolarMinimumScoresOneIff | script/solar_suitability.py:127 | the bottom break (the sample minimum) scores 1 iff the first two breaks differ |
| Overlay.WeightedSum | script/solar_suitability.py:165-168 | the suitability lies between the smallest and largest of the four scores; four equal scores give that score |
| Overlay.WeightsSumToOne | script/solar_suitability.py:165-168 | the four weights are non-negative and sum to 1 |
| Overlay.WeightedSumInScoreRange | script/solar_suitability.py:165-168 | scores in [1, 5] give a suitability in [1, 5] |
| Overlay.WeightedSumMonotone | script/solar_suitability.py:165-168 | raising any score never lowers the suitability |
| Overlay.CellSuitability | script/solar_suitability.py:165-168 | a cell is NoData iff some score is NoData; otherwise it lies between its smallest and largest score |
| Overlay.ApplyMask | script/solar_suitability.py:171-172 | cells outside the mask become NoData; the others are unchanged; no mask changes nothing |
| Overlay.Suitability | script/solar_suitability.py:164-172 | the surface is aligned with the inputs; a cell is valid iff it is inside the mask and all four scores are valid; it then holds their weighted sum |
| Overlay.SuitabilityInScoreRange | script/solar_suitability.py:165-168 | where the four scores lie in 1..5, the valid suitability lies in [1, 5] |
| Zones.BestZones | script/solar_suitability.py:182 | the zone raster is 1 iff the suitability is valid and at least the threshold 4.5, and NoData elsewhere |
| Zones.AreaHaHectares | script/solar_suitability.py:191-192 | a region of 100 m cells covers one hectare per cell |
| Zones.AreaMonotone | script/solar_suitability.py:191-192 | a region's area is non-negative and never smaller for more cells |
| Zones.SelectRegions | script/solar_suitability.py:194-197 | a region is kept iff it is an input region of at least the minimum area; never more regions than given |
| Zones.SelectRegionsExact | script/solar_suitability.py:196-197 | the selection is the input restricted to increasing positions, exactly those whose region reaches the minimum area |
| Zones.SelectRegionsDefault | script/solar_suitability.py:177 | without an explicit minimum, exactly the regions of at least 2 hectares are kept |
| Pipeline.SurfaceCell | script/solar_suitability.py:249-258 | one cell of the composed surface is valid iff it is inside the mask and every criterion is valid and inside its domain; it then lies in [1, 5] and is the weighted sum of the slope, aspect, solar and distance scores of the cell's values |
| Pipeline.SuitabilitySurface | script/solar_suitability.py:249-258 | none iff the solar raster has no valid positive cell; otherwise aligned, valid exactly where every criterion is in its domain inside the mask, and a valid cell lies in [1, 5] and is the weighted sum of the four criterion scores of its values, the solar one by the table of the quantile breaks |
| Pipeline.SelectedIff | script/solar_suitability.py:165-182 | a cell is selected iff it is inside the mask, all four scores are valid, and their weighted sum is at least 4.5 |
| Pipeline.IdealCellSelected | script/solar_suitability.py:165-182 | a cell inside the mask scoring 5 on every criterion has suitability 5 and is selected |
| Pipeline.AllFivesScenario | script/solar_suitability.py:165-197 | a 3×3 grid of 100 m cells scoring 5 everywhere has suitability 5 and is fully selected; its 9-cell region covers 9 ha and is kept at minimum 0 and at the default 2 |

## Left out

- Environment setup and input checks (`setup_environment`, `check_input_data`, lines 11–57): workspace, license and file-existence checks and projection comparison are I/O.
- Deriving the criteria (`Slope`, `Aspect`, `AreaSolarRadiation`, `EucDistance`, lines 64, 84, 105–114, 144): library computations. Their output rasters are inputs to the model, and so is the `latitude` parameter's effect.
- Every `.save(...)`, `RasterToNumPyArray` and the shapefile steps (lines 187–200): persistence and vector conversion. The model takes the NoData cells of the solar raster to be `None`. If the array's NoData value were positive, the script would put it into the sample; the model does not.
- Finding connected regions happens inside the raster-to-polygon conversion. Regions are given to the model as cell counts. `Zones.AreaHa` computes the area as cell count × cell size² / 10000, standing in for the polygon area in hectares.
- `create_hillshade_map` (lines 204–233) and the error reporting in `main` (lines 235–272): rendering and reporting.
- Floating point: the weights and the percentile interpolation are exact reals. IEEE rounding of 0.3, 0.2, 0.4, 0.1 and of `q * 100` is not modelled.
- Grid alignment: the script never checks it, and the library reconciles extents and cell sizes implicitly. The model instead requires the four rasters and the mask to share one grid (`CriteriaAligned`, `OverlayInputs`). It does not model resampling.
- Unmatched values: the library's `Reclassify` has a `missing_values` argument, which the script leaves at its default. That default (`DATA`) is documented to keep a value no remap row covers as it is, rather than writing NoData. The model writes NoData for such values (`Classify`, `ReclassifyGrid`). Under the default, a distance above 100000 m would enter the weighted sum unscored, as a raw distance. The library's behaviour is not part of this model and cannot be shown from the script alone, so it is not recorded as a finding.
- Merging equal quantile breaks into fewer classes: the script does not do it, so the model does not either.
- The mask is a per-cell inside flag aligned with the grid. Clipping by a polygon mask's geometry is not modelled.
