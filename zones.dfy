/**
 * Selection of the best zones: cells scoring at least 4.5 qualify, the
 * qualifying cells form regions, and only regions of at least the minimum
 * area (2 hectares unless the caller says otherwise) are kept. Finding the
 * connected regions is done by the vector conversion and is outside this
 * model; a region is given by its number of cells.
 */
module Zones {
  import opened Raster

  /** The suitability a cell needs to qualify. */
  const Threshold: real := 4.5

  /** The minimum region area, in hectares, when the caller gives none. */
  const DefaultMinAreaHa: real := 2.0

  predicate Qualifies(c: Option<real>)
  {
    c.Some? && c.value >= Threshold
  }

  /**
   * The best-zone raster: 1 where the suitability is valid and at least
   * the threshold, NoData everywhere else (NoData cells included).
   */
  function BestZones(g: Grid<real>): (r: Grid<int>)
    ensures r.header == g.header && |r.cells| == |g.cells|
    ensures forall k :: 0 <= k < |g.cells| ==>
      (r.cells[k] == Some(1) <==> g.cells[k].Some? && g.cells[k].value >= Threshold)
    ensures forall k :: 0 <= k < |g.cells| ==> r.cells[k] == None || r.cells[k] == Some(1)
  {
    Grid(g.header, seq(|g.cells|, k requires 0 <= k < |g.cells| => if Qualifies(g.cells[k]) then Some(1) else None))
  }

  /** A connected region of qualifying cells. */
  datatype Region = Region(cellCount: nat)

  /** A region's area in hectares: its cells are squares of side `cellSize` metres. */
  function AreaHa(region: Region, cellSize: real): real
  {
    region.cellCount as real * cellSize * cellSize / 10000.0
  }

  /**
   * A hectare is 10000 square metres: a cell of side 100 m is one hectare,
   * and a region of such cells has one hectare per cell.
   */
  lemma AreaHaHectares(region: Region)
    ensures AreaHa(Region(1), 100.0) == 1.0
    ensures AreaHa(region, 100.0) == region.cellCount as real
  {
  }

  /** More cells never make a smaller region, and a region's area never falls below zero. */
  lemma AreaMonotone(a: Region, b: Region, cellSize: real)
    requires a.cellCount <= b.cellCount
    ensures 0.0 <= AreaHa(a, cellSize) <= AreaHa(b, cellSize)
  {
    var sq := cellSize * cellSize;
    assert sq >= 0.0;
    assert a.cellCount as real * sq <= b.cellCount as real * sq;
  }

  /**
   * The regions of at least `minAreaHa` hectares, in their original order.
   */
  function SelectRegions(regions: seq<Region>, cellSize: real, minAreaHa: real := DefaultMinAreaHa): (r: seq<Region>)
    ensures |r| <= |regions|
    ensures forall x :: x in r <==> x in regions && AreaHa(x, cellSize) >= minAreaHa
  {
    if regions == [] then []
    else
      var rest := SelectRegions(regions[1..], cellSize, minAreaHa);
      assert forall x :: x in regions <==> x == regions[0] || x in regions[1..];
      if AreaHa(regions[0], cellSize) >= minAreaHa then [regions[0]] + rest else rest
  }

  /** `r` is `s` restricted to the strictly increasing positions `idx`. */
  ghost predicate SubsequenceAt<T>(r: seq<T>, s: seq<T>, idx: seq<nat>)
  {
    && |idx| == |r|
    && (forall i :: 0 <= i < |idx| ==> idx[i] < |s| && r[i] == s[idx[i]])
    && (forall i, j :: 0 <= i < j < |idx| ==> idx[i] < idx[j])
  }

  /** Positions `idx` shifted one place to the right. */
  function Shift(idx: seq<nat>): (r: seq<nat>)
    ensures |r| == |idx| && forall i :: 0 <= i < |idx| ==> r[i] == idx[i] + 1
  {
    seq(|idx|, i requires 0 <= i < |idx| => idx[i] + 1)
  }

  lemma ShiftMembership(idx: seq<nat>, k: nat)
    ensures k + 1 in Shift(idx) <==> k in idx
    ensures 0 !in Shift(idx)
  {
    if k in idx {
      var i :| 0 <= i < |idx| && idx[i] == k;
      assert Shift(idx)[i] == k + 1;
    }
  }

  lemma SubsequenceCons<T>(x: T, r: seq<T>, s: seq<T>, idx: seq<nat>, keep: bool)
    requires |s| > 0 && x == s[0] && SubsequenceAt(r, s[1..], idx)
    ensures SubsequenceAt(if keep then [x] + r else r, s, if keep then [0] + Shift(idx) else Shift(idx))
  {
    var sh := Shift(idx);
    assert SubsequenceAt(r, s, sh);
    if keep {
      var r', idx' := [x] + r, [0] + sh;
      forall i | 0 <= i < |idx'|
        ensures idx'[i] < |s| && r'[i] == s[idx'[i]]
      {
        if i > 0 { assert r'[i] == r[i - 1] && idx'[i] == sh[i - 1]; }
      }
    }
  }

  /**
   * The selection is the subsequence of the input at exactly the positions
   * whose region reaches the minimum area.
   */
  lemma {:induction false} SelectRegionsExact(regions: seq<Region>, cellSize: real, minAreaHa: real) returns (idx: seq<nat>)
    ensures SubsequenceAt(SelectRegions(regions, cellSize, minAreaHa), regions, idx)
    ensures forall k :: 0 <= k < |regions| ==> (k in idx <==> AreaHa(regions[k], cellSize) >= minAreaHa)
  {
    if regions == [] {
      idx := [];
    } else {
      var tail := SelectRegionsExact(regions[1..], cellSize, minAreaHa);
      var keep := AreaHa(regions[0], cellSize) >= minAreaHa;
      var rest := SelectRegions(regions[1..], cellSize, minAreaHa);
      assert SelectRegions(regions, cellSize, minAreaHa) == if keep then [regions[0]] + rest else rest;
      SubsequenceCons(regions[0], rest, regions, tail, keep);
      idx := if keep then [0] + Shift(tail) else Shift(tail);
      forall k | 0 <= k < |regions|
        ensures k in idx <==> AreaHa(regions[k], cellSize) >= minAreaHa
      {
        if k == 0 {
          ShiftMembership(tail, 0);
          assert k in idx <==> keep;
        } else {
          ShiftMembership(tail, k - 1);
          assert k in idx <==> k - 1 in tail;
          assert regions[k] == regions[1..][k - 1];
        }
      }
    }
  }

  /** Without an explicit minimum, exactly the regions of at least 2 hectares are kept. */
  lemma SelectRegionsDefault(regions: seq<Region>, cellSize: real, x: Region)
    ensures x in SelectRegions(regions, cellSize) <==> x in regions && AreaHa(x, cellSize) >= 2.0
  {
  }
}
