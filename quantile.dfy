/**
 * Solar radiation scoring by quantile breaks: keep the positive cells,
 * take the 0th, 20th, 40th, 60th, 80th and 100th percentiles of them with
 * linear interpolation between order statistics, and reclassify the raster
 * with the five rows those six breaks delimit, scored 1 (lowest fifth) to
 * 5 (highest fifth).
 */
module Quantile {
  import opened Raster
  import opened Reclassify

  /** Number of quantile classes; the breaks sit at percentiles 100 * j / Classes. */
  const Classes: nat := 5

  /**
   * The values of the valid cells that are strictly positive, in row-major
   * order: each positive value occurs as often as valid cells hold it.
   */
  function PositiveSample(cells: seq<Option<real>>): (s: seq<real>)
    ensures |s| <= |cells|
    ensures forall x :: multiset(s)[x] == if x > 0.0 then multiset(cells)[Some(x)] else 0
    ensures forall x :: x in s <==> Some(x) in cells && x > 0.0
    ensures forall k :: 0 <= k < |cells| && cells[k].Some? && cells[k].value > 0.0 ==> cells[k].value in s
  {
    if cells == [] then []
    else
      var rest := PositiveSample(cells[1..]);
      assert cells == [cells[0]] + cells[1..];
      assert multiset(cells) == multiset{cells[0]} + multiset(cells[1..]);
      assert forall c :: c in cells <==> c == cells[0] || c in cells[1..];
      match cells[0]
      case Some(v) => if v > 0.0 then [v] + rest else rest
      case None => rest
  }

  predicate Sorted(s: seq<real>)
  {
    forall i, j :: 0 <= i <= j < |s| ==> s[i] <= s[j]
  }

  lemma InsertLowerBound(m: real, x: real, s: seq<real>, r: seq<real>)
    requires m <= x && forall i :: 0 <= i < |s| ==> m <= s[i]
    requires multiset(r) == multiset(s) + multiset{x}
    ensures forall i :: 0 <= i < |r| ==> m <= r[i]
  {
    forall i | 0 <= i < |r|
      ensures m <= r[i]
    {
      assert r[i] in multiset(r);
      if r[i] != x {
        assert r[i] in multiset(s);
        assert r[i] in s;
      }
    }
  }

  function Insert(x: real, s: seq<real>): (r: seq<real>)
    requires Sorted(s)
    ensures |r| == |s| + 1
    ensures Sorted(r) && multiset(r) == multiset(s) + multiset{x}
  {
    if s == [] || x <= s[0] then [x] + s
    else
      var rest := Insert(x, s[1..]);
      assert s == [s[0]] + s[1..];
      InsertLowerBound(s[0], x, s[1..], rest);
      [s[0]] + rest
  }

  /** The sample in ascending order. */
  function Sort(s: seq<real>): (r: seq<real>)
    ensures |r| == |s|
    ensures Sorted(r) && multiset(r) == multiset(s)
  {
    if s == [] then []
    else
      assert s == [s[0]] + s[1..];
      Insert(s[0], Sort(s[1..]))
  }

  /** The point a fraction `t` of the way from `a` to `b`. */
  function Interpolate(a: real, b: real, t: real): real
  {
    a + t * (b - a)
  }

  lemma Lerp(a: real, b: real, t: real)
    requires a <= b && 0.0 <= t <= 1.0
    ensures a <= Interpolate(a, b, t) <= b
  {
    var d := b - a;
    assert 0.0 <= t * d;
    assert 0.0 <= (1.0 - t) * d;
    assert t * d + (1.0 - t) * d == d;
  }

  lemma LerpMonotone(a: real, b: real, t: real, u: real)
    requires a <= b && 0.0 <= t <= u
    ensures Interpolate(a, b, t) <= Interpolate(a, b, u)
  {
    var d := b - a;
    assert 0.0 <= (u - t) * d;
    assert t * d + (u - t) * d == u * d;
  }

  lemma PositionBounds(n: nat, j: nat)
    requires j <= Classes
    ensures (n * j) / Classes <= n
    ensures (n * j) % Classes != 0 ==> (n * j) / Classes < n
  {
    assert n * j <= n * Classes;
  }

  /**
   * The percentile 100 * j / Classes of a sorted sample, interpolated
   * linearly: at position (n - 1) * j / Classes, between the order
   * statistics on either side of it.
   */
  function Percentile(s: seq<real>, j: nat): (r: real)
    requires |s| > 0 && j <= Classes
    ensures j == 0 ==> r == s[0]
    ensures j == Classes ==> r == s[|s| - 1]
  {
    var pos := (|s| - 1) * j;
    var k := pos / Classes;
    var rem := pos % Classes;
    PositionBounds(|s| - 1, j);
    if rem == 0 then s[k]
    else Interpolate(s[k], s[k + 1], rem as real / Classes as real)
  }

  lemma PercentileBetween(s: seq<real>, j: nat)
    requires |s| > 0 && j <= Classes && Sorted(s)
    ensures var k := ((|s| - 1) * j) / Classes;
      && k < |s| && s[k] <= Percentile(s, j) && (k + 1 < |s| ==> Percentile(s, j) <= s[k + 1])
      && (((|s| - 1) * j) % Classes == 0 ==> Percentile(s, j) == s[k])
  {
    PositionBounds(|s| - 1, j);
    var pos := (|s| - 1) * j;
    var k := pos / Classes;
    var rem := pos % Classes;
    if rem != 0 {
      var f := rem as real / Classes as real;
      assert k + 1 < |s|;
      Lerp(s[k], s[k + 1], f);
    } else {
      assert Percentile(s, j) == s[k];
    }
  }

  lemma PositionMonotone(n: nat, i: nat, j: nat)
    requires i <= j
    ensures (n * i) / Classes <= (n * j) / Classes
    ensures (n * i) / Classes == (n * j) / Classes ==> (n * i) % Classes <= (n * j) % Classes
  {
    assert n * i <= n * j;
  }

  /**
   * At a fractional position the percentile is the weighted average of the
   * two order statistics around it, weighted by the distance to each:
   * 5 * p == (5 - rem) * s[k] + rem * s[k + 1].
   */
  lemma PercentileWeighted(s: seq<real>, j: nat)
    requires |s| > 0 && j <= Classes
    ensures var k := ((|s| - 1) * j) / Classes;
      var rem := ((|s| - 1) * j) % Classes;
      rem != 0 ==>
        && k + 1 < |s|
        && Classes as real * Percentile(s, j) == (Classes - rem) as real * s[k] + rem as real * s[k + 1]
  {
    PositionBounds(|s| - 1, j);
  }

  /** Percentiles of a sorted sample never decrease as the percentage grows. */
  lemma PercentileMonotone(s: seq<real>, i: nat, j: nat)
    requires |s| > 0 && i <= j <= Classes && Sorted(s)
    ensures Percentile(s, i) <= Percentile(s, j)
  {
    var n := |s| - 1;
    var ki, kj := (n * i) / Classes, (n * j) / Classes;
    var ri, rj := (n * i) % Classes, (n * j) % Classes;
    PositionMonotone(n, i, j);
    PositionBounds(n, i);
    PositionBounds(n, j);
    PercentileBetween(s, i);
    PercentileBetween(s, j);
    if ki == kj {
      if ri != 0 {
        LerpMonotone(s[ki], s[ki + 1], ri as real / Classes as real, rj as real / Classes as real);
      }
    } else {
      assert s[ki + 1] <= s[kj];
    }
  }

  /** The six breaks of a non-empty sample, before any check on them. */
  function BreaksOf(sorted: seq<real>): seq<real>
    requires |sorted| > 0
  {
    seq(Classes + 1, j requires 0 <= j <= Classes => Percentile(sorted, j))
  }

  predicate NonDecreasing(b: seq<real>)
  {
    forall i, j :: 0 <= i <= j < |b| ==> b[i] <= b[j]
  }

  lemma SortedMinMax(sample: seq<real>, sorted: seq<real>)
    requires multiset(sorted) == multiset(sample) && Sorted(sorted) && |sample| > 0
    ensures |sorted| == |sample|
    ensures sorted[0] in sample && sorted[|sorted| - 1] in sample
    ensures forall x :: x in sample ==> sorted[0] <= x <= sorted[|sorted| - 1]
  {
    assert |sorted| == |multiset(sorted)| == |multiset(sample)| == |sample|;
    assert sorted[0] in multiset(sorted);
    assert sorted[|sorted| - 1] in multiset(sorted);
    forall x | x in sample
      ensures sorted[0] <= x <= sorted[|sorted| - 1]
    {
      assert x in multiset(sample);
      assert x in sorted;
    }
  }

  /**
   * Break `j` sits at position (n - 1) * j / Classes of the sorted sample:
   * between the order statistics on either side, and equal to the order
   * statistic when the position is whole.
   */
  predicate Bracketed(sorted: seq<real>, b: seq<real>)
    requires |b| == Classes + 1
  {
    forall j :: 0 <= j <= Classes ==>
      var k := ((|sorted| - 1) * j) / Classes;
      && 0 <= k < |sorted|
      && sorted[k] <= b[j]
      && (k + 1 < |sorted| ==> b[j] <= sorted[k + 1])
      && (((|sorted| - 1) * j) % Classes == 0 ==> b[j] == sorted[k])
  }

  lemma BreaksBracketed(sorted: seq<real>)
    requires |sorted| > 0 && Sorted(sorted)
    ensures Bracketed(sorted, BreaksOf(sorted))
  {
    var b := BreaksOf(sorted);
    forall j | 0 <= j <= Classes
      ensures var k := ((|sorted| - 1) * j) / Classes;
        && 0 <= k < |sorted| && sorted[k] <= b[j] && (k + 1 < |sorted| ==> b[j] <= sorted[k + 1])
        && (((|sorted| - 1) * j) % Classes == 0 ==> b[j] == sorted[k])
    {
      PercentileBetween(sorted, j);
    }
  }

  lemma BreaksNonDecreasing(sorted: seq<real>)
    requires |sorted| > 0 && Sorted(sorted)
    ensures NonDecreasing(BreaksOf(sorted))
  {
    var b := BreaksOf(sorted);
    forall i, j | 0 <= i <= j < |b|
      ensures b[i] <= b[j]
    {
      PercentileMonotone(sorted, i, j);
    }
  }

  /**
   * The quantile breaks of the sample, or `None` for an empty sample (the
   * percentile of an empty array is an error). The breaks never decrease;
   * the first is the sample's minimum and the last its maximum, and each
   * sits at its interpolated position in the sorted sample.
   */
  function SolarBreaks(sample: seq<real>): (r: Option<seq<real>>)
    ensures r.None? <==> |sample| == 0
    ensures r.Some? ==> |r.value| == Classes + 1 && NonDecreasing(r.value)
    ensures r.Some? ==> r.value[0] in sample && r.value[Classes] in sample
    ensures r.Some? ==> forall x :: x in sample ==> r.value[0] <= x <= r.value[Classes]
    ensures r.Some? ==> Bracketed(Sort(sample), r.value)
    ensures r.Some? ==> forall j :: 0 <= j <= Classes ==> r.value[j] == Percentile(Sort(sample), j)
  {
    if |sample| == 0 then None
    else
      var sorted := Sort(sample);
      SortedMinMax(sample, sorted);
      BreaksBracketed(sorted);
      BreaksNonDecreasing(sorted);
      Some(BreaksOf(sorted))
  }

  /**
   * Two values 1 and 2 (in either order) give breaks spaced evenly between
   * them: the percentiles interpolate rather than pick an order statistic.
   */
  lemma SolarBreaksOfTwo()
    ensures SolarBreaks([2.0, 1.0]) == Some([1.0, 1.2, 1.4, 1.6, 1.8, 2.0])
  {
    assert Sort([1.0]) == [1.0];
    assert Sort([2.0, 1.0]) == Insert(2.0, [1.0]) == [1.0, 2.0];
    BreaksOfOneTwo();
  }

  lemma BreaksOfOneTwo()
    ensures BreaksOf([1.0, 2.0]) == [1.0, 1.2, 1.4, 1.6, 1.8, 2.0]
  {
    var s := [1.0, 2.0];
    assert Percentile(s, 1) == Interpolate(1.0, 2.0, 0.2);
    assert Percentile(s, 2) == Interpolate(1.0, 2.0, 0.4);
    assert Percentile(s, 3) == Interpolate(1.0, 2.0, 0.6);
    assert Percentile(s, 4) == Interpolate(1.0, 2.0, 0.8);
  }

  /**
   * The five-row table built from six breaks, scored 1..5 from the bottom:
   * row `i` runs from break `i` to break `i + 1`. Non-decreasing breaks
   * make it a gap-free ascending table.
   */
  function SolarTable(b: seq<real>): (t: Table)
    requires |b| == Classes + 1
    ensures |t| == Classes
    ensures forall i :: 0 <= i < Classes ==> t[i].lo == b[i] && t[i].hi == b[i + 1] && t[i].score == i + 1
    ensures NonDecreasing(b) ==> Chain(t) && ScoresAscending(t) && ScoresWithin(t, 1, 5)
  {
    [ Range(b[0], b[1], 1),
      Range(b[1], b[2], 2),
      Range(b[2], b[3], 3),
      Range(b[3], b[4], 4),
      Range(b[4], b[5], 5) ]
  }

  /** The solar score raster scores exactly the valid positive cells, each in 1..5. */
  predicate ScoredWherePositive(solar: Grid<real>, scores: Grid<int>)
  {
    && scores.header == solar.header && |scores.cells| == |solar.cells|
    && (forall k :: 0 <= k < |solar.cells| ==>
          (scores.cells[k].Some? <==> solar.cells[k].Some? && solar.cells[k].value > 0.0))
    && (forall k :: 0 <= k < |solar.cells| && scores.cells[k].Some? ==> 1 <= scores.cells[k].value <= 5)
  }

  /**
   * Reclassifying by positive non-decreasing breaks that enclose every
   * valid positive cell scores exactly the valid positive cells, in 1..5.
   */
  lemma ReclassifiedWithin(solar: Grid<real>, b: seq<real>)
    requires |b| == Classes + 1 && NonDecreasing(b) && b[0] > 0.0
    requires forall k :: 0 <= k < |solar.cells| && solar.cells[k].Some? && solar.cells[k].value > 0.0 ==>
      b[0] <= solar.cells[k].value <= b[Classes]
    ensures ScoredWherePositive(solar, ReclassifyGrid(solar, SolarTable(b)))
  {
    var t := SolarTable(b);
    ReclassifyChain(solar, t, 1, 5);
    assert t[0].lo == b[0] && t[|t| - 1].hi == b[Classes];
  }

  /** Reclassifying by the sample's breaks scores exactly the valid positive cells, in 1..5. */
  lemma SolarReclassified(solar: Grid<real>, b: seq<real>)
    requires SolarBreaks(PositiveSample(solar.cells)) == Some(b)
    ensures ScoredWherePositive(solar, ReclassifyGrid(solar, SolarTable(b)))
  {
    var sample := PositiveSample(solar.cells);
    assert b[0] > 0.0 by {
      assert b[0] in sample;
    }
    forall k | 0 <= k < |solar.cells| && solar.cells[k].Some? && solar.cells[k].value > 0.0
      ensures b[0] <= solar.cells[k].value <= b[Classes]
    {
      SolarCellInBreaks(solar, b, k);
    }
    ReclassifiedWithin(solar, b);
  }

  /**
   * The solar score raster, or `None` when no cell is valid and positive.
   * Exactly the valid positive cells are scored, each in 1..5, and a valid
   * cell's score is that of its value in the table built from the breaks
   * of the positive sample.
   */
  function SolarScores(solar: Grid<real>): (r: Option<Grid<int>>)
    ensures r.None? <==> forall k :: 0 <= k < |solar.cells| ==> !(solar.cells[k].Some? && solar.cells[k].value > 0.0)
    ensures r.None? <==> SolarBreaks(PositiveSample(solar.cells)).None?
    ensures r.Some? ==> ScoredWherePositive(solar, r.value)
    ensures r.Some? ==> forall k :: 0 <= k < |solar.cells| && solar.cells[k].Some? ==>
      r.value.cells[k] == Classify(SolarTable(SolarBreaks(PositiveSample(solar.cells)).value), solar.cells[k].value)
  {
    var sample := PositiveSample(solar.cells);
    var breaks := SolarBreaks(sample);
    if breaks.None? then
      None
    else
      SolarReclassified(solar, breaks.value);
      Some(ReclassifyGrid(solar, SolarTable(breaks.value)))
  }

  /** A higher radiation value never scores lower. */
  lemma SolarMonotone(b: seq<real>, v: real, w: real)
    requires |b| == Classes + 1 && NonDecreasing(b)
    requires b[0] <= v <= w <= b[Classes]
    ensures Classify(SolarTable(b), v).Some? && Classify(SolarTable(b), w).Some?
    ensures Classify(SolarTable(b), v).value <= Classify(SolarTable(b), w).value
  {
    ChainDomain(SolarTable(b), v);
    ChainDomain(SolarTable(b), w);
    ChainMonotone(SolarTable(b), v, w);
  }

  /** The top break (the sample maximum) always scores 5: the top row is closed. */
  lemma SolarMaximumScoresFive(b: seq<real>)
    requires |b| == Classes + 1 && NonDecreasing(b)
    ensures Classify(SolarTable(b), b[Classes]) == Some(5)
  {
    var t := SolarTable(b);
    ChainDomain(t, b[Classes]);
    ChainClosedAtLast(t, 4);
    ClassifyUniqueRow(t, b[Classes], 4);
  }

  /**
   * The bottom break (the sample minimum) scores 1 exactly when the first
   * two breaks differ; on a plateau of equal lowest values the first row is
   * empty and the minimum falls into a higher class.
   */
  lemma SolarMinimumScoresOneIff(b: seq<real>)
    requires |b| == Classes + 1 && NonDecreasing(b)
    ensures Classify(SolarTable(b), b[0]) == Some(1) <==> b[0] < b[1]
  {
    var t := SolarTable(b);
    ChainDomain(t, b[0]);
    var i := ChainClassifyRow(t, b[0]);
    ChainClosedAtLast(t, 0);
    if b[0] < b[1] {
      ClassifyUniqueRow(t, b[0], 0);
    }
  }

  /** On the solar raster, a valid cell with more radiation never scores lower than one with less. */
  lemma SolarScoresMonotone(solar: Grid<real>, k: nat, l: nat)
    requires SolarScores(solar).Some? && k < |solar.cells| && l < |solar.cells|
    requires SolarScores(solar).value.cells[k].Some? && SolarScores(solar).value.cells[l].Some?
    requires solar.cells[k].value <= solar.cells[l].value
    ensures SolarScores(solar).value.cells[k].value <= SolarScores(solar).value.cells[l].value
  {
    var b := SolarBreaks(PositiveSample(solar.cells)).value;
    SolarCellInBreaks(solar, b, k);
    SolarCellInBreaks(solar, b, l);
    SolarMonotone(b, solar.cells[k].value, solar.cells[l].value);
  }

  /** A valid positive solar cell lies between the first and last break. */
  lemma SolarCellInBreaks(solar: Grid<real>, b: seq<real>, k: nat)
    requires SolarBreaks(PositiveSample(solar.cells)) == Some(b)
    requires k < |solar.cells| && solar.cells[k].Some? && solar.cells[k].value > 0.0
    ensures b[0] <= solar.cells[k].value <= b[Classes]
  {
  }
}
