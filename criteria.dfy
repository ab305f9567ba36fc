/**
 * The three fixed-breakpoint criteria of the script: slope in degrees,
 * aspect in degrees (with -1 for flat cells) and Euclidean distance to the
 * nearest road in metres. Each table is the script's literal data, rows in
 * the script's order.
 */
module Criteria {
  import opened Raster
  import opened Reclassify

  /** Slope: gentle terrain is ideal. */
  const SlopeTable: Table := [
    Range(0.0, 5.0, 5),
    Range(5.0, 10.0, 4),
    Range(10.0, 15.0, 3),
    Range(15.0, 20.0, 2),
    Range(20.0, 90.0, 1)
  ]

  /** Aspect: south-facing is ideal; the flat row is listed last. */
  const AspectTable: Table := [
    Range(0.0, 45.0, 2),
    Range(45.0, 135.0, 4),
    Range(135.0, 225.0, 5),
    Range(225.0, 315.0, 4),
    Range(315.0, 360.0, 2),
    Range(-1.0, 0.0, 3)
  ]

  /** Distance to roads: close to a road is ideal. */
  const DistanceTable: Table := [
    Range(0.0, 500.0, 5),
    Range(500.0, 1000.0, 4),
    Range(1000.0, 2000.0, 3),
    Range(2000.0, 3000.0, 2),
    Range(3000.0, 100000.0, 1)
  ]

  /** The aspect value the aspect derivation writes for a flat cell. */
  const Flat: real := -1.0

  /** The slope score of a value: defined exactly on [0, 90], and then in 1..5. */
  function SlopeScore(v: real): (r: Option<int>)
    ensures r.Some? <==> 0.0 <= v <= 90.0
    ensures r.Some? ==> 1 <= r.value <= 5
  {
    SlopeDomain(v);
    Classify(SlopeTable, v)
  }

  /** The aspect score of a value: defined exactly on [-1, 360], and then in 1..5. */
  function AspectScore(v: real): (r: Option<int>)
    ensures r.Some? <==> -1.0 <= v <= 360.0
    ensures r.Some? ==> 1 <= r.value <= 5
  {
    AspectDomain(v);
    Classify(AspectTable, v)
  }

  /** The distance score of a value: defined exactly on [0, 100000], and then in 1..5. */
  function DistanceScore(v: real): (r: Option<int>)
    ensures r.Some? <==> 0.0 <= v <= 100000.0
    ensures r.Some? ==> 1 <= r.value <= 5
  {
    DistanceDomain(v);
    Classify(DistanceTable, v)
  }

  lemma SlopeTableIsChain()
    ensures Chain(SlopeTable) && ScoresDescending(SlopeTable) && ScoresWithin(SlopeTable, 1, 5)
  {
  }

  lemma DistanceTableIsChain()
    ensures Chain(DistanceTable) && ScoresDescending(DistanceTable) && ScoresWithin(DistanceTable, 1, 5)
  {
  }

  /** Every slope in [0, 90] gets exactly one score, in 1..5; any other slope gets none. */
  lemma SlopeDomain(v: real)
    ensures Classify(SlopeTable, v).Some? <==> 0.0 <= v <= 90.0
    ensures 0.0 <= v <= 90.0 ==> ExactlyOneRow(SlopeTable, v)
    ensures Classify(SlopeTable, v).Some? ==> 1 <= Classify(SlopeTable, v).value <= 5
  {
    SlopeTableIsChain();
    ChainDomain(SlopeTable, v);
  }

  /** A steeper slope never scores higher. */
  lemma SlopeAntitone(v: real, w: real)
    requires 0.0 <= v <= w <= 90.0
    ensures SlopeScore(v).Some? && SlopeScore(w).Some?
    ensures SlopeScore(w).value <= SlopeScore(v).value
  {
    SlopeDomain(v);
    SlopeDomain(w);
    SlopeTableIsChain();
    ChainAntitone(SlopeTable, v, w);
  }

  /** Slopes of 0 up to (not including) 5 degrees are ideal; exactly 5 degrees falls in the next class. */
  lemma SlopeIdeal(v: real)
    ensures SlopeScore(v) == Some(5) <==> 0.0 <= v < 5.0
    ensures SlopeScore(5.0) == Some(4)
  {
    SlopeTableIsChain();
    if 0.0 <= v < 5.0 {
      ChainDomain(SlopeTable, v);
      ClassifyUniqueRow(SlopeTable, v, 0);
    }
    if SlopeScore(v) == Some(5) {
      var i := ChainClassifyRow(SlopeTable, v);
    }
    ChainDomain(SlopeTable, 5.0);
    ClassifyUniqueRow(SlopeTable, 5.0, 1);
  }

  /** Every distance in [0, 100000] gets exactly one score, in 1..5; any other distance gets none. */
  lemma DistanceDomain(v: real)
    ensures Classify(DistanceTable, v).Some? <==> 0.0 <= v <= 100000.0
    ensures 0.0 <= v <= 100000.0 ==> ExactlyOneRow(DistanceTable, v)
    ensures Classify(DistanceTable, v).Some? ==> 1 <= Classify(DistanceTable, v).value <= 5
  {
    DistanceTableIsChain();
    ChainDomain(DistanceTable, v);
  }

  /** A cell farther from the roads never scores higher. */
  lemma DistanceAntitone(v: real, w: real)
    requires 0.0 <= v <= w <= 100000.0
    ensures DistanceScore(v).Some? && DistanceScore(w).Some?
    ensures DistanceScore(w).value <= DistanceScore(v).value
  {
    DistanceDomain(v);
    DistanceDomain(w);
    DistanceTableIsChain();
    ChainAntitone(DistanceTable, v, w);
  }

  /** Distances of 0 up to (not including) 500 m are ideal. */
  lemma DistanceIdeal(v: real)
    ensures DistanceScore(v) == Some(5) <==> 0.0 <= v < 500.0
  {
    DistanceTableIsChain();
    if 0.0 <= v < 500.0 {
      ChainDomain(DistanceTable, v);
      ClassifyUniqueRow(DistanceTable, v, 0);
    }
    if DistanceScore(v) == Some(5) {
      var i := ChainClassifyRow(DistanceTable, v);
    }
  }

  /** Of the aspect rows, only the 315-360 row is closed at its upper end. */
  lemma AspectClosedRow(i: nat)
    requires i < |AspectTable|
    ensures ClosedAt(AspectTable, i) <==> i == 4
  {
    assert AspectTable[4].hi == 360.0;
    assert MaxHi(AspectTable) == 360.0;
  }

  /** The row of the aspect table that covers `v`, if any. */
  function AspectRow(v: real): (i: nat)
    requires -1.0 <= v <= 360.0
    ensures i < |AspectTable| && Covers(AspectTable, i, v)
  {
    AspectClosedRow(4);
    if v < 0.0 then 5
    else if v < 45.0 then 0
    else if v < 135.0 then 1
    else if v < 225.0 then 2
    else if v < 315.0 then 3
    else 4
  }

  /** Which aspect rows cover `v`: each its half-open range, and the closed row also 360. */
  lemma AspectCovers(i: nat, v: real)
    requires i < |AspectTable|
    ensures Covers(AspectTable, i, v) <==>
      (AspectTable[i].lo <= v < AspectTable[i].hi || (i == 4 && v == 360.0))
  {
    AspectClosedRow(i);
  }

  /**
   * Every aspect in [-1, 360] (flat or a compass direction) gets exactly one
   * score, in 1..5; any other value gets none.
   */
  lemma AspectDomain(v: real)
    ensures Classify(AspectTable, v).Some? <==> -1.0 <= v <= 360.0
    ensures -1.0 <= v <= 360.0 ==> ExactlyOneRow(AspectTable, v)
    ensures Classify(AspectTable, v).Some? ==> 1 <= Classify(AspectTable, v).value <= 5
  {
    forall i | 0 <= i < |AspectTable|
      ensures Covers(AspectTable, i, v) <==>
        (AspectTable[i].lo <= v < AspectTable[i].hi || (i == 4 && v == 360.0))
    {
      AspectCovers(i, v);
    }
    if -1.0 <= v <= 360.0 {
      var r := AspectRow(v);
    }
  }

  /** South-facing cells are ideal. */
  lemma AspectSouth(v: real)
    requires 135.0 <= v < 225.0
    ensures AspectScore(v) == Some(5)
  {
    AspectDomain(v);
    ClassifyUniqueRow(AspectTable, v, 2);
  }

  /** Flat cells score 3. */
  lemma AspectFlat()
    ensures AspectScore(Flat) == Some(3)
  {
    AspectDomain(Flat);
    ClassifyUniqueRow(AspectTable, Flat, 5);
  }

  /**
   * The slope score raster: scored exactly where the slope is valid and
   * within [0, 90], each cell with the slope score of its value.
   */
  function SlopeScores(slope: Grid<real>): (r: Grid<int>)
    ensures r.header == slope.header && |r.cells| == |slope.cells|
    ensures forall k :: 0 <= k < |r.cells| ==>
      (r.cells[k].Some? <==> slope.cells[k].Some? && 0.0 <= slope.cells[k].value <= 90.0)
    ensures forall k :: 0 <= k < |r.cells| && slope.cells[k].Some? ==> r.cells[k] == SlopeScore(slope.cells[k].value)
    ensures forall k :: 0 <= k < |r.cells| && r.cells[k].Some? ==> 1 <= r.cells[k].value <= 5
  {
    ReclassifyGrid(slope, SlopeTable)
  }

  /**
   * The aspect score raster: scored exactly where the aspect is valid and
   * within [-1, 360], each cell with the aspect score of its value.
   */
  function AspectScores(aspect: Grid<real>): (r: Grid<int>)
    ensures r.header == aspect.header && |r.cells| == |aspect.cells|
    ensures forall k :: 0 <= k < |r.cells| ==>
      (r.cells[k].Some? <==> aspect.cells[k].Some? && -1.0 <= aspect.cells[k].value <= 360.0)
    ensures forall k :: 0 <= k < |r.cells| && aspect.cells[k].Some? ==> r.cells[k] == AspectScore(aspect.cells[k].value)
    ensures forall k :: 0 <= k < |r.cells| && r.cells[k].Some? ==> 1 <= r.cells[k].value <= 5
  {
    ReclassifyGrid(aspect, AspectTable)
  }

  /**
   * The distance score raster: scored exactly where the distance is valid
   * and within [0, 100000], each cell with the distance score of its value.
   */
  function DistanceScores(distance: Grid<real>): (r: Grid<int>)
    ensures r.header == distance.header && |r.cells| == |distance.cells|
    ensures forall k :: 0 <= k < |r.cells| ==>
      (r.cells[k].Some? <==> distance.cells[k].Some? && 0.0 <= distance.cells[k].value <= 100000.0)
    ensures forall k :: 0 <= k < |r.cells| && distance.cells[k].Some? ==> r.cells[k] == DistanceScore(distance.cells[k].value)
    ensures forall k :: 0 <= k < |r.cells| && r.cells[k].Some? ==> 1 <= r.cells[k].value <= 5
  {
    ReclassifyGrid(distance, DistanceTable)
  }

  /** On the slope raster, a steeper valid cell never scores higher than a gentler one. */
  lemma SlopeScoresAntitone(slope: Grid<real>, k: nat, l: nat)
    requires k < |slope.cells| && l < |slope.cells|
    requires SlopeScores(slope).cells[k].Some? && SlopeScores(slope).cells[l].Some?
    requires slope.cells[k].value <= slope.cells[l].value
    ensures SlopeScores(slope).cells[l].value <= SlopeScores(slope).cells[k].value
  {
    SlopeAntitone(slope.cells[k].value, slope.cells[l].value);
  }

  /** On the distance raster, a farther valid cell never scores higher than a nearer one. */
  lemma DistanceScoresAntitone(distance: Grid<real>, k: nat, l: nat)
    requires k < |distance.cells| && l < |distance.cells|
    requires DistanceScores(distance).cells[k].Some? && DistanceScores(distance).cells[l].Some?
    requires distance.cells[k].value <= distance.cells[l].value
    ensures DistanceScores(distance).cells[l].value <= DistanceScores(distance).cells[k].value
  {
    DistanceAntitone(distance.cells[k].value, distance.cells[l].value);
  }
}
