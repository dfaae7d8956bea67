/** Pixels and image buffers shared by every stage of the pipeline. */
module Images {

  /** An 8-bit colour channel (Go's `uint8`). */
  type Channel = v: int | 0 <= v < 256

  /** One `color.RGBA` sample: red, green, blue and alpha, 8 bits each. */
  datatype Pixel = Pixel(r: Channel, g: Channel, b: Channel, a: Channel)

  /** `p` and `q` agree on red, green and blue (alpha may differ). */
  predicate SameRgb(p: Pixel, q: Pixel)
  {
    p.r == q.r && p.g == q.g && p.b == q.b
  }

  /** A row-major image value: `g[y][x]` is the pixel in column `x` of row `y`,
      with the origin at the top-left corner. */
  type Grid = seq<seq<Pixel>>

  /** `g` is a rectangular grid `w` pixels wide and `h` pixels high. */
  predicate IsGrid(g: Grid, w: int, h: int)
  {
    0 <= w && |g| == h && forall y :: 0 <= y < h ==> |g[y]| == w
  }

  /** `(x1, y1)` comes strictly before `(x2, y2)` in the left-to-right,
      top-to-bottom scan. */
  predicate ScanBefore(x1: int, y1: int, x2: int, y2: int)
  {
    y1 < y2 || (y1 == y2 && x1 < x2)
  }

  /** Two grids of the same shape that agree on every cell are equal. */
  lemma GridExt(g1: Grid, g2: Grid, w: int, h: int)
    requires IsGrid(g1, w, h) && IsGrid(g2, w, h)
    requires forall j, i :: 0 <= j < h && 0 <= i < w ==> g1[j][i] == g2[j][i]
    ensures g1 == g2
  {
    forall j | 0 <= j < h
      ensures g1[j] == g2[j]
    {
      assert forall i :: 0 <= i < w ==> g1[j][i] == g2[j][i];
    }
  }

  /** An `image.RGBA` buffer: `a[y, x]` holds the pixel at column `x` of row `y`,
      so `a.Length0` is the height and `a.Length1` the width. `Holds(a, g)`
      says the buffer currently holds the image value `g`. */
  ghost predicate Holds(a: array2<Pixel>, g: Grid)
    reads a
  {
    IsGrid(g, a.Length1, a.Length0) &&
    forall y, x :: 0 <= y < a.Length0 && 0 <= x < a.Length1 ==> a[y, x] == g[y][x]
  }

  /** The image value a buffer currently holds: reading the buffer through
      `image.Image`'s `At`. */
  function Snapshot(a: array2<Pixel>): (g: Grid)
    reads a
    ensures Holds(a, g)
  {
    seq(a.Length0, (y: int) requires 0 <= y < a.Length0 reads a =>
      seq(a.Length1, (x: int) requires 0 <= x < a.Length1 reads a => a[y, x]))
  }

  /** A buffer holds exactly one image value. */
  lemma HoldsSnapshot(a: array2<Pixel>, g: Grid)
    requires Holds(a, g)
    ensures Snapshot(a) == g
  {
    GridExt(Snapshot(a), g, a.Length1, a.Length0);
  }
}
