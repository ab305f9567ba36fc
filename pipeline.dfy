/**
 * The scoring pipeline from the four derived criterion rasters (slope,
 * aspect, solar radiation, distance to roads) to the suitability surface
 * and the best-zone raster.
 */
module Pipeline {
  import opened Raster
  import opened Reclassify
  import opened Criteria
  import opened Quantile
  import opened Overlay
  import opened Zones

  /** The four criterion rasters share one grid, and so does the mask when there is one. */
  predicate CriteriaAligned(slope: Grid<real>, aspect: Grid<real>, solar: Grid<real>, distance: Grid<real>, mask: Option<seq<bool>>)
  {
    && Aligned(slope, aspect) && Aligned(slope, solar) && Aligned(slope, distance)
    && (mask.Some? ==> |mask.value| == |slope.cells|)
  }

  /** A criterion cell is valid and lies within [lo, hi]. */
  predicate ValidWithin(c: Option<real>, lo: real, hi: real)
  {
    c.Some? && lo <= c.value <= hi
  }

  /**
   * What cell `k` of the suitability surface holds, given the table the
   * solar raster is scored by: valid exactly when the cell is inside the
   * mask and every criterion is valid and inside its table's domain there
   * (solar: positive), and then the weighted sum of the four criterion
   * scores, which lies in [1, 5].
   */
  predicate SurfaceCellIs(slope: Grid<real>, aspect: Grid<real>, solar: Grid<real>, distance: Grid<real>,
                          mask: Option<seq<bool>>, solarTable: Table, k: nat, c: Option<real>)
    requires k < |slope.cells| && k < |aspect.cells| && k < |solar.cells| && k < |distance.cells|
  {
    && (c.Some? <==>
         && Inside(mask, k)
         && ValidWithin(slope.cells[k], 0.0, 90.0)
         && ValidWithin(aspect.cells[k], -1.0, 360.0)
         && solar.cells[k].Some? && solar.cells[k].value > 0.0
         && ValidWithin(distance.cells[k], 0.0, 100000.0))
    && (c.Some? ==>
         && 1.0 <= c.value <= 5.0
         && Classify(solarTable, solar.cells[k].value).Some?
         && c.value == WeightedSum(SlopeScore(slope.cells[k].value).value,
                                   AspectScore(aspect.cells[k].value).value,
                                   Classify(solarTable, solar.cells[k].value).value,
                                   DistanceScore(distance.cells[k].value).value))
  }

  /** One cell of the surface built from the criteria and a solar table that scores exactly the positive cells. */
  lemma SurfaceCell(slope: Grid<real>, aspect: Grid<real>, solar: Grid<real>, distance: Grid<real>,
                    mask: Option<seq<bool>>, solarTable: Table, k: nat)
    requires CriteriaAligned(slope, aspect, solar, distance, mask)
    requires ScoredWherePositive(solar, ReclassifyGrid(solar, solarTable))
    requires k < |slope.cells|
    ensures OverlayInputs(SlopeScores(slope), AspectScores(aspect), ReclassifyGrid(solar, solarTable), DistanceScores(distance), mask)
    ensures SurfaceCellIs(slope, aspect, solar, distance, mask, solarTable, k,
      Suitability(SlopeScores(slope), AspectScores(aspect), ReclassifyGrid(solar, solarTable), DistanceScores(distance), mask).cells[k])
  {
    var s, a, o, d := SlopeScores(slope), AspectScores(aspect), ReclassifyGrid(solar, solarTable), DistanceScores(distance);
    assert OverlayInputs(s, a, o, d, mask);
    if Suitability(s, a, o, d, mask).cells[k].Some? {
      SuitabilityInScoreRange(s, a, o, d, mask, k);
    }
  }

  /**
   * The suitability surface, or `None` when the solar raster has no valid
   * positive cell to take quantiles from. Each cell is as `SurfaceCellIs`
   * describes, with the solar table built from the quantile breaks of the
   * positive solar sample.
   */
  function SuitabilitySurface(slope: Grid<real>, aspect: Grid<real>, solar: Grid<real>, distance: Grid<real>, mask: Option<seq<bool>>): (r: Option<Grid<real>>)
    requires CriteriaAligned(slope, aspect, solar, distance, mask)
    ensures r.None? <==> forall k :: 0 <= k < |solar.cells| ==> !(solar.cells[k].Some? && solar.cells[k].value > 0.0)
    ensures r.Some? <==> SolarBreaks(PositiveSample(solar.cells)).Some?
    ensures r.Some? ==> Aligned(r.value, slope)
    ensures r.Some? ==> forall k :: 0 <= k < |r.value.cells| ==>
      SurfaceCellIs(slope, aspect, solar, distance, mask,
                    SolarTable(SolarBreaks(PositiveSample(solar.cells)).value), k, r.value.cells[k])
  {
    var solarScores := SolarScores(solar);
    if solarScores.None? then None
    else
      var t := SolarTable(SolarBreaks(PositiveSample(solar.cells)).value);
      assert solarScores.value == ReclassifyGrid(solar, t);
      SolarReclassified(solar, SolarBreaks(PositiveSample(solar.cells)).value);
      SurfaceCell(slope, aspect, solar, distance, mask, t, 0);
      forall k | 0 <= k < |slope.cells|
        ensures SurfaceCellIs(slope, aspect, solar, distance, mask, t, k,
          Suitability(SlopeScores(slope), AspectScores(aspect), ReclassifyGrid(solar, t), DistanceScores(distance), mask).cells[k])
      {
        SurfaceCell(slope, aspect, solar, distance, mask, t, k);
      }
      Some(Suitability(SlopeScores(slope), AspectScores(aspect), ReclassifyGrid(solar, t), DistanceScores(distance), mask))
  }

  /**
   * A cell is selected as a best zone exactly when it is inside the mask,
   * its four scores are all valid, and their weighted sum is at least 4.5.
   */
  lemma SelectedIff(slope: Grid<int>, aspect: Grid<int>, solar: Grid<int>, distance: Grid<int>, mask: Option<seq<bool>>, k: nat)
    requires OverlayInputs(slope, aspect, solar, distance, mask) && k < |slope.cells|
    ensures BestZones(Suitability(slope, aspect, solar, distance, mask)).cells[k] == Some(1) <==>
      && Inside(mask, k)
      && slope.cells[k].Some? && aspect.cells[k].Some? && solar.cells[k].Some? && distance.cells[k].Some?
      && WeightedSum(slope.cells[k].value, aspect.cells[k].value, solar.cells[k].value, distance.cells[k].value) >= Threshold
  {
  }

  /** A cell inside the mask where every criterion scores 5 has suitability 5 and is selected. */
  lemma IdealCellSelected(slope: Grid<int>, aspect: Grid<int>, solar: Grid<int>, distance: Grid<int>, mask: Option<seq<bool>>, k: nat)
    requires OverlayInputs(slope, aspect, solar, distance, mask) && k < |slope.cells| && Inside(mask, k)
    requires slope.cells[k] == aspect.cells[k] == solar.cells[k] == distance.cells[k] == Some(5)
    ensures Suitability(slope, aspect, solar, distance, mask).cells[k] == Some(5.0)
    ensures BestZones(Suitability(slope, aspect, solar, distance, mask)).cells[k] == Some(1)
  {
  }

  /**
   * A 3 by 3 grid of 100 m cells scoring 5 on every criterion: every cell
   * has suitability 5 and is selected, and the one region of 9 cells covers
   * 9 hectares and is kept, with a minimum of 0 hectares and with the
   * default of 2.
   */
  lemma AllFivesScenario()
    ensures var fives := Grid(Header(100.0, 3, 3), seq(9, _ => Some(5)));
      var surface := Suitability(fives, fives, fives, fives, None);
      && (forall k :: 0 <= k < 9 ==> surface.cells[k] == Some(5.0))
      && (forall k :: 0 <= k < 9 ==> BestZones(surface).cells[k] == Some(1))
    ensures AreaHa(Region(9), 100.0) == 9.0
    ensures SelectRegions([Region(9)], 100.0, 0.0) == [Region(9)]
    ensures SelectRegions([Region(9)], 100.0) == [Region(9)]
  {
    var fives := Grid(Header(100.0, 3, 3), seq(9, _ => Some(5)));
    assert Valid(fives);
    forall k | 0 <= k < 9
      ensures Suitability(fives, fives, fives, fives, None).cells[k] == Some(5.0)
    {
      IdealCellSelected(fives, fives, fives, fives, None, k);
    }
  }
}
