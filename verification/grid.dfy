/** Two-dimensional rasters (numpy 2D arrays) as sequences of rows. */
module Grids {

  /** A raster: `g[r][c]` is the sample at row `r`, column `c`. */
  type Grid<T> = seq<seq<T>>

  /** Number of columns; numpy's `shape[1]` (taken from the first row). */
  function Width<T>(g: Grid<T>): nat {
    if |g| == 0 then 0 else |g[0]|
  }

  /** A numpy array is rectangular: every row has the same length. */
  predicate IsRect<T>(g: Grid<T>) {
    forall r :: 0 <= r < |g| ==> |g[r]| == Width(g)
  }

  /** `a` and `b` have the same shape, row by row. */
  predicate SameShape<T, U>(a: Grid<T>, b: Grid<U>) {
    |a| == |b| && forall r :: 0 <= r < |a| ==> |a[r]| == |b[r]|
  }

  /** `(r, c)` addresses a sample of `g`. */
  predicate InBounds<T>(g: Grid<T>, r: int, c: int) {
    0 <= r < |g| && 0 <= c < |g[r]|
  }

  /** The samples of `g` in row-major order (numpy's `ravel`). */
  function Flatten<T>(g: Grid<T>): (s: seq<T>)
    ensures forall r, c :: InBounds(g, r, c) ==> g[r][c] in s
    ensures forall x :: x in s ==> exists r, c :: InBounds(g, r, c) && g[r][c] == x
  {
    if |g| == 0 then []
    else
      var init := g[..|g| - 1];
      var s := Flatten(init) + g[|g| - 1];
      assert forall r, c :: InBounds(init, r, c) ==> init[r][c] == g[r][c];
      s
  }
}
