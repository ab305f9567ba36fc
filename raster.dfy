/**
 * Rasters as the scoring code sees them: a spatial header (cell size and
 * dimensions) and one value per cell, stored row-major. A cell holding
 * `None` is NoData.
 */
module Raster {

  datatype Option<+T> = None | Some(value: T)

  /** The spatial header shared by every raster derived from one elevation model. */
  datatype Header = Header(cellSize: real, rows: nat, cols: nat)

  /** A raster: its header and its cells in row-major order. */
  datatype Grid<T> = Grid(header: Header, cells: seq<Option<T>>)

  /** A well-formed raster: positive cell size, one cell per (row, column). */
  predicate Valid<T>(g: Grid<T>)
  {
    g.header.cellSize > 0.0 && |g.cells| == g.header.rows * g.header.cols
  }

  /** Two rasters that may be combined cell by cell. */
  predicate Aligned<A, B>(a: Grid<A>, b: Grid<B>)
  {
    Valid(a) && Valid(b) && a.header == b.header
  }

  /** Whether cell `k` lies inside an optional mask (no mask: every cell is inside). */
  predicate Inside(mask: Option<seq<bool>>, k: nat)
  {
    match mask
    case None => true
    case Some(m) => k < |m| && m[k]
  }
}
