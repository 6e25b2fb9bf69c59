/** The sub-pixel alignment applied to the instrument map and to the
    pixel-position grids (`shift_image`, always called with an integer
    offset of (-1, -1)). For an integer offset the shift moves every cell
    by whole rows and columns and wraps around the edges, so it is modelled
    as a cyclic roll of a rectangular grid. */
module Alignment {

  /** A grid with at least one row, at least one column, and rows of equal
      length. */
  predicate IsRect<T>(g: seq<seq<T>>)
  {
    |g| > 0 && |g[0]| > 0 && forall i :: 0 <= i < |g| ==> |g[i]| == |g[0]|
  }

  /** The grid shifted by `dy` rows and `dx` columns with wrap-around: the
      cell at (i, j) moves to ((i + dy) mod rows, (j + dx) mod columns). */
  function Shift<T>(g: seq<seq<T>>, dy: int, dx: int): (r: seq<seq<T>>)
    requires IsRect(g)
    ensures IsRect(r) && |r| == |g| && |r[0]| == |g[0]|
    ensures forall i, j :: 0 <= i < |g| && 0 <= j < |g[0]| ==>
      r[(i + dy) % |g|][(j + dx) % |g[0]|] == g[i][j]
  {
    var h, w := |g|, |g[0]|;
    var r := seq(h, i requires 0 <= i < h => seq(w, j requires 0 <= j < w => g[(i - dy) % h][(j - dx) % w]));
    forall i, j | 0 <= i < h && 0 <= j < w
      ensures r[(i + dy) % h][(j + dx) % w] == g[i][j]
    {
      ModShift(i, dy, h);
      ModShift(j, dx, w);
    }
    r
  }

  /** Moving forward by `d` and back by `d` returns to the start. */
  lemma ModShift(i: int, d: int, n: int)
    requires 0 <= i < n
    ensures ((i + d) % n - d) % n == i
  {
    var q := (i + d) / n;
    assert (i + d) % n == i + d - q * n;
    assert (i + d) % n - d == i + (-q) * n;
    ModMultiple(i, -q, n);
  }

  /** Adding a multiple of `n` does not change a residue. */
  lemma ModMultiple(i: int, q: int, n: int)
    requires 0 <= i < n
    ensures (i + q * n) % n == i
  {
    var s := i + q * n;
    var t, r := s / n, s % n;
    assert s == t * n + r && 0 <= r < n;
    var d := q - t;
    assert d * n == r - i by {
      assert q * n - t * n == d * n;
    }
  }

  /** Every cell of a shifted grid holds the cell `dy` rows and `dx` columns
      before it, with wrap-around. */
  lemma ShiftCell<T>(g: seq<seq<T>>, dy: int, dx: int, i: int, j: int)
    requires IsRect(g) && 0 <= i < |g| && 0 <= j < |g[0]|
    ensures Shift(g, dy, dx)[i][j] == g[(i - dy) % |g|][(j - dx) % |g[0]|]
  {
    var h, w := |g|, |g[0]|;
    ModShift(i, -dy, h);
    ModShift(j, -dx, w);
    assert ((i - dy) % h + dy) % h == i && ((j - dx) % w + dx) % w == j;
  }

  /** After the (-1, -1) alignment, cell (i, j) holds what was at
      (i + 1, j + 1); the last row and column take the first ones. */
  lemma AlignedCell<T>(g: seq<seq<T>>, i: int, j: int)
    requires IsRect(g) && 0 <= i < |g| && 0 <= j < |g[0]|
    ensures Shift(g, -1, -1)[i][j] == g[(i + 1) % |g|][(j + 1) % |g[0]|]
  {
    ShiftCell(g, -1, -1, i, j);
  }

  /** Shifting by (dy, dx) and then by (-dy, -dx) reproduces the grid: the
      (-1, -1) alignment loses nothing and is undone by (+1, +1). */
  lemma ShiftRoundTrip<T>(g: seq<seq<T>>, dy: int, dx: int)
    requires IsRect(g)
    ensures Shift(Shift(g, dy, dx), -dy, -dx) == g
  {
    var s := Shift(g, dy, dx);
    var r := Shift(s, -dy, -dx);
    var h, w := |g|, |g[0]|;
    forall i | 0 <= i < h
      ensures r[i] == g[i]
    {
      forall j | 0 <= j < w
        ensures r[i][j] == g[i][j]
      {
        ModShift(i, dy, h);
        ModShift(j, dx, w);
        assert r[((i + dy) % h + -dy) % h][((j + dx) % w + -dx) % w] == s[(i + dy) % h][(j + dx) % w];
      }
    }
  }

  /** The cells of an array, row by row. */
  function Grid<T>(a: array2<T>): (g: seq<seq<T>>)
    reads a
    ensures |g| == a.Length0
    ensures forall i :: 0 <= i < |g| ==> |g[i]| == a.Length1
  {
    seq(a.Length0, i requires 0 <= i < a.Length0 reads a =>
      seq(a.Length1, j requires 0 <= j < a.Length1 reads a => a[i, j]))
  }

  /** `shift_image` with an integer offset: a new array holding the input
      rolled by `dy` rows and `dx` columns. */
  method ShiftImage<T(0)>(a: array2<T>, dy: int, dx: int) returns (b: array2<T>)
    requires a.Length0 > 0 && a.Length1 > 0
    ensures fresh(b) && b.Length0 == a.Length0 && b.Length1 == a.Length1
    ensures Grid(b) == Shift(Grid(a), dy, dx)
  {
    var h, w := a.Length0, a.Length1;
    b := new T[h, w];
    forall i, j | 0 <= i < h && 0 <= j < w {
      b[i, j] := a[(i - dy) % h, (j - dx) % w];
    }
    var g, r := Grid(a), Grid(b);
    forall i | 0 <= i < h
      ensures r[i] == Shift(g, dy, dx)[i]
    {
      forall j | 0 <= j < w
        ensures r[i][j] == Shift(g, dy, dx)[i][j]
      {
        ShiftCell(g, dy, dx, i, j);
      }
    }
  }
}
