/**
 * The weighted overlay: the suitability of a cell is
 * 0.3 * slope + 0.2 * aspect + 0.4 * solar + 0.1 * distance, NoData when
 * any of the four scores is NoData, and NoData outside the optional mask.
 * Weights are exact reals.
 */
module Overlay {
  import opened Raster

  const SlopeWeight: real := 0.3
  const AspectWeight: real := 0.2
  const SolarWeight: real := 0.4
  const DistanceWeight: real := 0.1

  function Min4(a: int, b: int, c: int, d: int): int
  {
    var ab := if a <= b then a else b;
    var cd := if c <= d then c else d;
    if ab <= cd then ab else cd
  }

  function Max4(a: int, b: int, c: int, d: int): int
  {
    var ab := if a >= b then a else b;
    var cd := if c >= d then c else d;
    if ab >= cd then ab else cd
  }

  /**
   * The weighted sum of four scores. Because the weights are non-negative
   * and sum to 1, it lies between the smallest and the largest score, and
   * four equal scores give that score back.
   */
  function WeightedSum(slope: int, aspect: int, solar: int, distance: int): (r: real)
    ensures Min4(slope, aspect, solar, distance) as real <= r <= Max4(slope, aspect, solar, distance) as real
    ensures slope == aspect == solar == distance ==> r == slope as real
  {
    SlopeWeight * slope as real + AspectWeight * aspect as real
      + SolarWeight * solar as real + DistanceWeight * distance as real
  }

  lemma WeightsSumToOne()
    ensures SlopeWeight + AspectWeight + SolarWeight + DistanceWeight == 1.0
    ensures SlopeWeight >= 0.0 && AspectWeight >= 0.0 && SolarWeight >= 0.0 && DistanceWeight >= 0.0
  {
  }

  /** Scores in [1, 5] give a suitability in [1, 5]. */
  lemma WeightedSumInScoreRange(slope: int, aspect: int, solar: int, distance: int)
    requires 1 <= slope <= 5 && 1 <= aspect <= 5 && 1 <= solar <= 5 && 1 <= distance <= 5
    ensures 1.0 <= WeightedSum(slope, aspect, solar, distance) <= 5.0
  {
    assert 1 <= Min4(slope, aspect, solar, distance);
    assert Max4(slope, aspect, solar, distance) <= 5;
  }

  /** Raising any one score never lowers the suitability. */
  lemma WeightedSumMonotone(a: int, b: int, c: int, d: int, a': int, b': int, c': int, d': int)
    requires a <= a' && b <= b' && c <= c' && d <= d'
    ensures WeightedSum(a, b, c, d) <= WeightedSum(a', b', c', d')
  {
  }

  /** One cell of the overlay: NoData if any score is NoData. */
  function CellSuitability(slope: Option<int>, aspect: Option<int>, solar: Option<int>, distance: Option<int>): (r: Option<real>)
    ensures r.None? <==> slope.None? || aspect.None? || solar.None? || distance.None?
    ensures r.Some? ==>
      Min4(slope.value, aspect.value, solar.value, distance.value) as real <= r.value
      <= Max4(slope.value, aspect.value, solar.value, distance.value) as real
  {
    if slope.Some? && aspect.Some? && solar.Some? && distance.Some?
    then Some(WeightedSum(slope.value, aspect.value, solar.value, distance.value))
    else None
  }

  /** Cells outside the mask become NoData; the others keep their values. */
  function ApplyMask(g: Grid<real>, mask: Option<seq<bool>>): (r: Grid<real>)
    requires mask.Some? ==> |mask.value| == |g.cells|
    ensures r.header == g.header && |r.cells| == |g.cells|
    ensures forall k :: 0 <= k < |g.cells| ==> r.cells[k] == if Inside(mask, k) then g.cells[k] else None
  {
    match mask
    case None => g
    case Some(m) => Grid(g.header, seq(|g.cells|, k requires 0 <= k < |g.cells| => if m[k] then g.cells[k] else None))
  }

  /** The four score rasters are aligned, and so is the mask when there is one. */
  predicate OverlayInputs(slope: Grid<int>, aspect: Grid<int>, solar: Grid<int>, distance: Grid<int>, mask: Option<seq<bool>>)
  {
    && Aligned(slope, aspect) && Aligned(slope, solar) && Aligned(slope, distance)
    && (mask.Some? ==> |mask.value| == |slope.cells|)
  }

  /**
   * The suitability raster. A cell is valid exactly when it is inside the
   * mask and all four scores are valid there, and then holds their
   * weighted sum, between the smallest and the largest of the four.
   */
  function Suitability(slope: Grid<int>, aspect: Grid<int>, solar: Grid<int>, distance: Grid<int>, mask: Option<seq<bool>>): (r: Grid<real>)
    requires OverlayInputs(slope, aspect, solar, distance, mask)
    ensures Aligned(r, slope)
    ensures forall k :: 0 <= k < |r.cells| ==>
      (r.cells[k].Some? <==>
         Inside(mask, k) && slope.cells[k].Some? && aspect.cells[k].Some? && solar.cells[k].Some? && distance.cells[k].Some?)
    ensures forall k :: 0 <= k < |r.cells| && r.cells[k].Some? ==>
      r.cells[k].value == WeightedSum(slope.cells[k].value, aspect.cells[k].value, solar.cells[k].value, distance.cells[k].value)
  {
    var n := |slope.cells|;
    var sum := Grid(slope.header, seq(n, k requires 0 <= k < n =>
      CellSuitability(slope.cells[k], aspect.cells[k], solar.cells[k], distance.cells[k])));
    ApplyMask(sum, mask)
  }

  /** A score cell that is NoData or a score in 1..5. */
  predicate ScoreInRange(c: Option<int>)
  {
    c.Some? ==> 1 <= c.value <= 5
  }

  /** Where the four scores lie in [1, 5], so does the suitability. */
  lemma SuitabilityInScoreRange(slope: Grid<int>, aspect: Grid<int>, solar: Grid<int>, distance: Grid<int>, mask: Option<seq<bool>>, k: nat)
    requires OverlayInputs(slope, aspect, solar, distance, mask)
    requires k < |slope.cells|
    requires ScoreInRange(slope.cells[k]) && ScoreInRange(aspect.cells[k])
    requires ScoreInRange(solar.cells[k]) && ScoreInRange(distance.cells[k])
    requires Suitability(slope, aspect, solar, distance, mask).cells[k].Some?
    ensures 1.0 <= Suitability(slope, aspect, solar, distance, mask).cells[k].value <= 5.0
  {
    WeightedSumInScoreRange(slope.cells[k].value, aspect.cells[k].value, solar.cells[k].value, distance.cells[k].value);
  }
}
