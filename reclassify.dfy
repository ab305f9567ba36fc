/**
 * Reclassification of a continuous raster by a breakpoint table, the role
 * the `RemapRange` tables play in the script.
 *
 * Boundary rule (the script delegates it to the GIS library and does not
 * state it): a row covers [lo, hi), lower bound included and upper bound
 * excluded, except the row that reaches the table's greatest upper bound
 * (the last such row in table order), which is closed, [lo, hi]. The first
 * row in table order that covers a value gives its score; a value no row
 * covers stays unscored.
 */
module Reclassify {
  import opened Raster

  /** One row `[lo, hi, score]` of a range remap table. */
  datatype Range = Range(lo: real, hi: real, score: int)

  type Table = seq<Range>

  /** The greatest upper bound of the table. */
  function MaxHi(t: Table): (m: real)
    requires |t| > 0
    ensures forall i :: 0 <= i < |t| ==> t[i].hi <= m
    ensures exists i :: 0 <= i < |t| && t[i].hi == m
  {
    if |t| == 1 then t[0].hi
    else
      var rest := MaxHi(t[1..]);
      assert forall i :: 1 <= i < |t| ==> t[i] == t[1..][i - 1];
      if t[0].hi >= rest then t[0].hi else rest
  }

  /**
   * Row `i` is the one closed at its upper end: it reaches the table's
   * greatest upper bound and no later row does.
   */
  predicate ClosedAt(t: Table, i: nat)
    requires i < |t|
    ensures ClosedAt(t, i) ==> forall j :: 0 <= j < |t| ==> t[j].hi <= t[i].hi
    ensures ClosedAt(t, i) ==> forall j :: i < j < |t| ==> t[j].hi != t[i].hi
  {
    t[i].hi == MaxHi(t) && forall j :: i < j < |t| ==> t[j].hi < t[i].hi
  }

  /** At most one row of a table is closed. */
  lemma ClosedAtUnique(t: Table, i: nat, j: nat)
    requires i < |t| && j < |t| && ClosedAt(t, i) && ClosedAt(t, j)
    ensures i == j
  {
  }

  /** Some row of a non-empty table is closed. */
  lemma {:induction false} ClosedAtExists(t: Table) returns (i: nat)
    requires |t| > 0
    ensures i < |t| && ClosedAt(t, i)
  {
    var m := MaxHi(t);
    var k :| 0 <= k < |t| && t[k].hi == m;
    i := LastWithHi(t, m, k);
  }

  /** The last row at or after `k` whose upper bound is `m`, where row `k`'s is. */
  lemma {:induction false} LastWithHi(t: Table, m: real, k: nat) returns (i: nat)
    requires k < |t| && t[k].hi == m && forall j :: 0 <= j < |t| ==> t[j].hi <= m
    ensures k <= i < |t| && t[i].hi == m && forall j :: i < j < |t| ==> t[j].hi < m
    decreases |t| - k
  {
    if exists j :: k < j < |t| && t[j].hi == m {
      var j :| k < j < |t| && t[j].hi == m;
      i := LastWithHi(t, m, j);
    } else {
      i := k;
    }
  }

  /**
   * Row `i` covers value `v` under the boundary rule: the row's lower bound
   * is included, its upper bound only when the row is the closed one.
   */
  predicate Covers(t: Table, i: nat, v: real)
    requires i < |t|
    ensures Covers(t, i, v) ==> t[i].lo <= v <= t[i].hi
    ensures t[i].lo <= v < t[i].hi ==> Covers(t, i, v)
    ensures v == t[i].hi ==> (Covers(t, i, v) <==> t[i].lo <= v && ClosedAt(t, i))
  {
    t[i].lo <= v && (v < t[i].hi || (v == t[i].hi && ClosedAt(t, i)))
  }

  /** The first row at or after `k` that covers `v`. */
  function FirstCover(t: Table, k: nat, v: real): (r: Option<nat>)
    requires k <= |t|
    ensures r.None? <==> forall i :: k <= i < |t| ==> !Covers(t, i, v)
    ensures r.Some? ==> k <= r.value < |t| && Covers(t, r.value, v)
    ensures r.Some? ==> forall j :: k <= j < r.value ==> !Covers(t, j, v)
    decreases |t| - k
  {
    if k == |t| then None
    else if Covers(t, k, v) then Some(k)
    else FirstCover(t, k + 1, v)
  }

  /** The score of value `v`, or `None` when no row covers it. */
  function Classify(t: Table, v: real): (r: Option<int>)
    ensures r.None? <==> forall i :: 0 <= i < |t| ==> !Covers(t, i, v)
    ensures r.Some? ==> exists i :: 0 <= i < |t| && Covers(t, i, v) && t[i].score == r.value
  {
    match FirstCover(t, 0, v)
    case None => None
    case Some(i) => Some(t[i].score)
  }

  /** Exactly one row of the table covers `v`. */
  predicate ExactlyOneRow(t: Table, v: real)
  {
    && (exists i :: 0 <= i < |t| && Covers(t, i, v))
    && (forall i, j :: 0 <= i < |t| && 0 <= j < |t| && Covers(t, i, v) && Covers(t, j, v) ==> i == j)
  }

  lemma ClassifyUniqueRow(t: Table, v: real, i: nat)
    requires i < |t| && ExactlyOneRow(t, v) && Covers(t, i, v)
    ensures Classify(t, v) == Some(t[i].score)
  {
    var f := FirstCover(t, 0, v);
    assert f.Some?;
  }

  /** Every score of the table lies in [lo, hi]. */
  predicate ScoresWithin(t: Table, lo: int, hi: int)
  {
    forall i :: 0 <= i < |t| ==> lo <= t[i].score <= hi
  }

  /**
   * A table written in ascending order with no gaps: each row ends where
   * the next begins. Rows may be empty (lo == hi), as quantile rows are on
   * a plateau of equal values.
   */
  predicate Chain(t: Table)
  {
    && |t| > 0
    && (forall i :: 0 <= i < |t| ==> t[i].lo <= t[i].hi)
    && (forall i :: 0 <= i < |t| - 1 ==> t[i].hi == t[i + 1].lo)
  }

  predicate ScoresDescending(t: Table)
  {
    forall i, j :: 0 <= i <= j < |t| ==> t[j].score <= t[i].score
  }

  predicate ScoresAscending(t: Table)
  {
    forall i, j :: 0 <= i <= j < |t| ==> t[i].score <= t[j].score
  }

  lemma {:induction false} ChainOrdered(t: Table, i: nat, j: nat)
    requires Chain(t) && i < j < |t|
    ensures t[i].hi <= t[j].lo
    decreases j - i
  {
    if i + 1 < j {
      ChainOrdered(t, i + 1, j);
    }
  }

  /** In a chain only the last row is closed. */
  lemma ChainClosedAtLast(t: Table, i: nat)
    requires Chain(t) && i < |t|
    ensures ClosedAt(t, i) <==> i == |t| - 1
  {
    var last := |t| - 1;
    forall k | 0 <= k < last
      ensures t[k].hi <= t[last].hi
    {
      ChainOrdered(t, k, last);
    }
    assert MaxHi(t) == t[last].hi;
    if i < last {
      ChainOrdered(t, i, last);
    }
  }

  lemma {:induction false} ChainCoversFrom(t: Table, k: nat, v: real)
    requires Chain(t) && k < |t|
    requires t[k].lo <= v <= t[|t| - 1].hi
    ensures exists i :: k <= i < |t| && Covers(t, i, v)
    decreases |t| - k
  {
    if k == |t| - 1 {
      ChainClosedAtLast(t, k);
      assert Covers(t, k, v);
    } else if v < t[k].hi {
      assert Covers(t, k, v);
    } else {
      ChainCoversFrom(t, k + 1, v);
    }
  }

  /**
   * A chain scores exactly the values of its domain [first lo, last hi],
   * each by exactly one row.
   */
  lemma ChainDomain(t: Table, v: real)
    requires Chain(t)
    ensures Classify(t, v).Some? <==> t[0].lo <= v <= t[|t| - 1].hi
    ensures t[0].lo <= v <= t[|t| - 1].hi ==> ExactlyOneRow(t, v)
  {
    var last := |t| - 1;
    forall i | 0 <= i < |t| && Covers(t, i, v)
      ensures t[0].lo <= v <= t[last].hi
    {
      if 0 < i { ChainOrdered(t, 0, i); }
      if i < last { ChainOrdered(t, i, last); }
    }
    if t[0].lo <= v <= t[last].hi {
      ChainCoversFrom(t, 0, v);
      forall i, j | 0 <= i < |t| && 0 <= j < |t| && Covers(t, i, v) && Covers(t, j, v)
        ensures i == j
      {
        if i < j {
          ChainOrdered(t, i, j);
          ChainClosedAtLast(t, i);
        } else if j < i {
          ChainOrdered(t, j, i);
          ChainClosedAtLast(t, j);
        }
      }
    }
  }

  /** In a chain, a larger value is covered by the same row or a later one. */
  lemma ChainRowMonotone(t: Table, v: real, w: real, i: nat, j: nat)
    requires Chain(t) && i < |t| && j < |t|
    requires Covers(t, i, v) && Covers(t, j, w) && v <= w
    ensures i <= j
  {
    if j < i {
      ChainOrdered(t, j, i);
      ChainClosedAtLast(t, j);
    }
  }

  lemma ChainClassifyRow(t: Table, v: real) returns (i: nat)
    requires Chain(t) && Classify(t, v).Some?
    ensures i < |t| && Covers(t, i, v) && Classify(t, v) == Some(t[i].score)
  {
    ChainDomain(t, v);
    i :| 0 <= i < |t| && Covers(t, i, v);
    ClassifyUniqueRow(t, v, i);
  }

  /** A chain whose scores fall along the table never scores a larger value higher. */
  lemma ChainAntitone(t: Table, v: real, w: real)
    requires Chain(t) && ScoresDescending(t)
    requires Classify(t, v).Some? && Classify(t, w).Some? && v <= w
    ensures Classify(t, w).value <= Classify(t, v).value
  {
    var i := ChainClassifyRow(t, v);
    var j := ChainClassifyRow(t, w);
    ChainRowMonotone(t, v, w, i, j);
  }

  /** A chain whose scores rise along the table never scores a larger value lower. */
  lemma ChainMonotone(t: Table, v: real, w: real)
    requires Chain(t) && ScoresAscending(t)
    requires Classify(t, v).Some? && Classify(t, w).Some? && v <= w
    ensures Classify(t, v).value <= Classify(t, w).value
  {
    var i := ChainClassifyRow(t, v);
    var j := ChainClassifyRow(t, w);
    ChainRowMonotone(t, v, w, i, j);
  }

  function ReclassifyCell(t: Table, c: Option<real>): Option<int>
  {
    match c
    case None => None
    case Some(v) => Classify(t, v)
  }

  /**
   * Reclassify a raster cell by cell: NoData stays NoData, a valid value
   * gets the score of a row covering it, and a valid value no row covers
   * becomes NoData.
   */
  function ReclassifyGrid(g: Grid<real>, t: Table): (r: Grid<int>)
    ensures r.header == g.header && |r.cells| == |g.cells|
    ensures forall k :: 0 <= k < |g.cells| ==>
      (r.cells[k].Some? <==> g.cells[k].Some? && exists i :: 0 <= i < |t| && Covers(t, i, g.cells[k].value))
    ensures forall k :: 0 <= k < |g.cells| && r.cells[k].Some? ==>
      exists i :: 0 <= i < |t| && Covers(t, i, g.cells[k].value) && t[i].score == r.cells[k].value
    ensures forall k :: 0 <= k < |g.cells| && g.cells[k].Some? ==> r.cells[k] == Classify(t, g.cells[k].value)
  {
    Grid(g.header, seq(|g.cells|, k requires 0 <= k < |g.cells| => ReclassifyCell(t, g.cells[k])))
  }

  /** Reclassifying by a chain scores exactly the valid cells inside the chain's domain. */
  lemma ReclassifyChain(g: Grid<real>, t: Table, lo: int, hi: int)
    requires Chain(t) && ScoresWithin(t, lo, hi)
    ensures forall k :: 0 <= k < |g.cells| ==>
      (ReclassifyGrid(g, t).cells[k].Some? <==>
         g.cells[k].Some? && t[0].lo <= g.cells[k].value <= t[|t| - 1].hi)
    ensures forall k :: 0 <= k < |g.cells| && ReclassifyGrid(g, t).cells[k].Some? ==>
      lo <= ReclassifyGrid(g, t).cells[k].value <= hi
  {
    forall k | 0 <= k < |g.cells| && g.cells[k].Some?
      ensures ReclassifyGrid(g, t).cells[k].Some? <==> t[0].lo <= g.cells[k].value <= t[|t| - 1].hi
    {
      ChainDomain(t, g.cells[k].value);
    }
  }
}
