/** Floyd–Steinberg error diffusion over an RGBA buffer (internal/dither). */
module Dither {
  import opened GoArith
  import opened Images

  /** The colour lookup the ditherer is given (`FindClosestColorFunc`). */
  type FindClosest = Pixel -> Pixel

  /** `clamp`: the value of [0, 255] nearest to `v`. */
  function Clamp(v: int): (c: Channel)
    ensures 0 <= v <= 255 ==> c == v
    ensures v < 0 ==> c == 0
    ensures v > 255 ==> c == 255
  {
    if v < 0 then 0 else if v > 255 then 255 else v
  }

  /** Clamping leaves a channel value alone and otherwise picks the channel
      value closest to `v`. */
  lemma ClampNearest(v: int)
    ensures 0 <= v <= 255 ==> Clamp(v) == v
    ensures forall u: Channel :: Gap(Clamp(v), v) <= Gap(u, v)
  {
  }

  function Gap(a: int, b: int): nat
  {
    Abs(a - b)
  }

  /** Signed per-channel quantisation error. */
  datatype Error = Error(r: int, g: int, b: int)

  /** The error left at a pixel whose accumulated colour `acc` was replaced by `q`. */
  function QuantError(acc: Pixel, q: Pixel): (e: Error)
    ensures -255 <= e.r <= 255 && -255 <= e.g <= 255 && -255 <= e.b <= 255
    ensures q.r + e.r == acc.r && q.g + e.g == acc.g && q.b + e.b == acc.b
    ensures SameRgb(acc, q) <==> e == Error(0, 0, 0)
  {
    Error(acc.r - q.r, acc.g - q.g, acc.b - q.b)
  }

  /** `int(float64(err) * k/16)`. With |err| <= 255 the float product is exact,
      so the conversion is a truncation toward zero of `err * k / 16`. */
  function Share(err: int, k: int): (s: int)
    ensures k >= 0 && err >= 0 ==> s >= 0
    ensures k >= 0 && err <= 0 ==> s <= 0
    ensures err == 0 || k == 0 ==> s == 0
  {
    assert k >= 0 && err >= 0 ==> err * k >= 0 by {
      if k >= 0 && err >= 0 {
        MulMonotone(k, 0, err);
      }
    }
    assert k >= 0 && err <= 0 ==> err * k <= 0 by {
      if k >= 0 && err <= 0 {
        MulMonotone(k, err, 0);
      }
    }
    Quo(err * k, 16)
  }

  /** The pixel `p` after the share `k`/16 of error `e` is added to it. */
  function Adjusted(p: Pixel, e: Error, k: int): (q: Pixel)
    ensures q.a == p.a
  {
    Pixel(Clamp(p.r + Share(e.r, k)), Clamp(p.g + Share(e.g, k)), Clamp(p.b + Share(e.b, k)), p.a)
  }

  /** A share of at most 16/16 of an error has the error's sign and is no
      larger than the error, because the truncation is toward zero. */
  lemma ShareBounds(err: int, k: int)
    requires 0 <= k <= 16
    ensures err >= 0 ==> 0 <= Share(err, k) <= err
    ensures err <= 0 ==> err <= Share(err, k) <= 0
  {
    QuoBounds(err * k, 16);
    if err >= 0 {
      MulMonotone(err, k, 16);
    } else {
      MulMonotone(-err, k, 16);
    }
  }

  /** One channel after its share of the error is added and clamped: it moves
      in the direction of the error and never past the full error. */
  lemma ChannelStep(c: Channel, err: int, k: int)
    requires 0 <= k <= 16
    ensures err >= 0 ==> c <= Clamp(c + Share(err, k)) <= c + err
    ensures err <= 0 ==> c + err <= Clamp(c + Share(err, k)) <= c
  {
    ShareBounds(err, k);
  }

  /** Adjusting does nothing for a zero error and moves each
      colour channel in the direction of its error, never past the error. */
  lemma AdjustedFacts(p: Pixel, e: Error, k: int)
    requires 0 <= k <= 16
    ensures e == Error(0, 0, 0) ==> Adjusted(p, e, k) == p
    ensures e.r >= 0 ==> p.r <= Adjusted(p, e, k).r <= p.r + e.r
    ensures e.r <= 0 ==> p.r + e.r <= Adjusted(p, e, k).r <= p.r
    ensures e.g >= 0 ==> p.g <= Adjusted(p, e, k).g <= p.g + e.g
    ensures e.g <= 0 ==> p.g + e.g <= Adjusted(p, e, k).g <= p.g
    ensures e.b >= 0 ==> p.b <= Adjusted(p, e, k).b <= p.b + e.b
    ensures e.b <= 0 ==> p.b + e.b <= Adjusted(p, e, k).b <= p.b
  {
    ChannelStep(p.r, e.r, k);
    ChannelStep(p.g, e.g, k);
    ChannelStep(p.b, e.b, k);
  }

  /** Floyd–Steinberg weights, in sixteenths, for the neighbour at offset
      (dx, dy) from the visited cell: right 7, below-left 3, below 5,
      below-right 1, nothing else. */
  function Kernel(dx: int, dy: int): int
  {
    if dx == 1 && dy == 0 then 7
    else if dx == -1 && dy == 1 then 3
    else if dx == 0 && dy == 1 then 5
    else if dx == 1 && dy == 1 then 1
    else 0
  }

  /** The offsets, from a cell, of the cells that push error into it, in the
      order the scan visits them: up-left, up, up-right, left. The cell at
      offset (dx, dy) pushes from (i - dx, j - dy) into (i, j). */
  const SourceOffsets: seq<(int, int)> := [(1, 1), (0, 1), (-1, 1), (1, 0)]

  /** The number of cells that can push error into a cell. */
  const Sources := |SourceOffsets|

  /** The position of (dx, dy) among the source offsets, or `Sources` when
      (dx, dy) is not a source offset. */
  function SourceIndex(dx: int, dy: int): (m: nat)
    ensures m <= Sources
    ensures m < Sources <==> (dx, dy) in SourceOffsets
    ensures m < Sources ==> SourceOffsets[m] == (dx, dy)
  {
    if (dx, dy) == (1, 1) then 0
    else if (dx, dy) == (0, 1) then 1
    else if (dx, dy) == (-1, 1) then 2
    else if (dx, dy) == (1, 0) then 3
    else Sources
  }

  /** The weights sum to 16; exactly the four kernel offsets carry weight,
      and each of them points to a cell later in the scan, so error never
      flows into a cell that has already been visited. */
  lemma KernelFacts(dx: int, dy: int)
    ensures Kernel(1, 0) + Kernel(-1, 1) + Kernel(0, 1) + Kernel(1, 1) == 16
    ensures Kernel(dx, dy) != 0 <==> SourceIndex(dx, dy) < Sources
    ensures Kernel(dx, dy) != 0 ==> ScanBefore(0, 0, dx, dy) && Kernel(dx, dy) > 0
  {
  }

  /** Colour of cell (i, j) once every in-bounds cell among its first `n`
      sources that comes before (x, y) in the scan has pushed its error. */
  function Received(g: Grid, w: int, h: int, fc: FindClosest, i: int, j: int, n: nat, x: int, y: int): Pixel
    requires IsGrid(g, w, h) && 0 <= i < w && 0 <= j < h && n <= Sources
    decreases j, i, n
  {
    if n == 0 then g[j][i]
    else
      var p := Received(g, w, h, fc, i, j, n - 1, x, y);
      var d := SourceOffsets[n - 1];
      var si, sj := i - d.0, j - d.1;
      if 0 <= si < w && 0 <= sj && ScanBefore(si, sj, x, y)
      then Pushed(g, w, h, fc, p, si, sj, Kernel(d.0, d.1))
      else p
  }

  /** The colour accumulated at (i, j) when the scan reaches it: the input
      pixel plus the shares of error of all its in-bounds sources. */
  function Acc(g: Grid, w: int, h: int, fc: FindClosest, i: int, j: int): Pixel
    requires IsGrid(g, w, h) && 0 <= i < w && 0 <= j < h
    decreases j, i, Sources + 1
  {
    Received(g, w, h, fc, i, j, Sources, i, j)
  }

  /** The quantisation error left at (i, j). */
  function ErrorAt(g: Grid, w: int, h: int, fc: FindClosest, i: int, j: int): Error
    requires IsGrid(g, w, h) && 0 <= i < w && 0 <= j < h
    decreases j, i, Sources + 2
  {
    var a := Acc(g, w, h, fc, i, j);
    QuantError(a, fc(a))
  }

  /** `p` after the share `k`/16 of the error left at (si, sj) is added to it. */
  function Pushed(g: Grid, w: int, h: int, fc: FindClosest, p: Pixel, si: int, sj: int, k: int): Pixel
    requires IsGrid(g, w, h) && 0 <= si < w && 0 <= sj < h
    decreases sj, si, Sources + 3
  {
    Adjusted(p, ErrorAt(g, w, h, fc, si, sj), k)
  }

  /** The image the Floyd–Steinberg pass produces: each cell is the lookup of
      the colour accumulated there. */
  function Dithered(g: Grid, w: int, h: int, fc: FindClosest): (d: Grid)
    requires IsGrid(g, w, h)
    ensures IsGrid(d, w, h)
    ensures forall j, i :: 0 <= j < h && 0 <= i < w ==> d[j][i] == fc(Acc(g, w, h, fc, i, j))
  {
    seq(h, (j: int) requires 0 <= j < h =>
      seq(w, (i: int) requires 0 <= i < w => fc(Acc(g, w, h, fc, i, j))))
  }

  /** Moving the scan past (x, y) changes the colour a cell has received only
      if (x, y) is one of its sources, and then by exactly (x, y)'s share. */
  lemma {:induction false} ReceivedStep(g: Grid, w: int, h: int, fc: FindClosest, i: int, j: int, n: nat, x: int, y: int)
    requires IsGrid(g, w, h) && 0 <= i < w && 0 <= j < h && n <= Sources
    requires 0 <= x < w && 0 <= y < h
    ensures Received(g, w, h, fc, i, j, n, x + 1, y) ==
      if SourceIndex(i - x, j - y) < n
      then Pushed(g, w, h, fc, Received(g, w, h, fc, i, j, n, x, y), x, y, Kernel(i - x, j - y))
      else Received(g, w, h, fc, i, j, n, x, y)
  {
    if n > 0 {
      ReceivedStep(g, w, h, fc, i, j, n - 1, x, y);
      var k := SourceIndex(i - x, j - y);
      if k < n - 1 {
        ReceivedStepEarlier(g, w, h, fc, i, j, n, x, y);
      } else if k == n - 1 {
        ReceivedBeforeSource(g, w, h, fc, i, j, n, x, y);
        ReceivedStepAt(g, w, h, fc, i, j, n, x, y);
      } else {
        ReceivedStepLater(g, w, h, fc, i, j, n, x, y);
      }
    }
  }

  /** `ReceivedStep` for source `n - 1` when (x, y) is an earlier source: that
      source comes after (x, y) in the scan, so it pushes at neither point. */
  lemma ReceivedStepEarlier(g: Grid, w: int, h: int, fc: FindClosest, i: int, j: int, n: nat, x: int, y: int)
    requires IsGrid(g, w, h) && 0 <= i < w && 0 <= j < h && 0 < n <= Sources
    requires 0 <= x < w && 0 <= y < h && SourceIndex(i - x, j - y) < n - 1
    requires Received(g, w, h, fc, i, j, n - 1, x + 1, y) ==
      Pushed(g, w, h, fc, Received(g, w, h, fc, i, j, n - 1, x, y), x, y, Kernel(i - x, j - y))
    ensures Received(g, w, h, fc, i, j, n, x + 1, y) ==
      Pushed(g, w, h, fc, Received(g, w, h, fc, i, j, n, x, y), x, y, Kernel(i - x, j - y))
  {
    var d := SourceOffsets[n - 1];
    assert !ScanBefore(i - d.0, j - d.1, x + 1, y);
  }

  /** `ReceivedStep` for source `n - 1` when it is (x, y) itself: it has not
      pushed yet while the scan is at (x, y). */
  lemma ReceivedBeforeSource(g: Grid, w: int, h: int, fc: FindClosest, i: int, j: int, n: nat, x: int, y: int)
    requires IsGrid(g, w, h) && 0 <= i < w && 0 <= j < h && 0 < n <= Sources
    requires 0 <= x < w && 0 <= y < h && SourceIndex(i - x, j - y) == n - 1
    ensures Received(g, w, h, fc, i, j, n, x, y) == Received(g, w, h, fc, i, j, n - 1, x, y)
  {
    var d := SourceOffsets[n - 1];
    assert i - d.0 == x && j - d.1 == y;
  }

  /** `ReceivedStep` for source `n - 1` when it is (x, y) itself: it has
      pushed its share once the scan is past (x, y). */
  lemma ReceivedStepAt(g: Grid, w: int, h: int, fc: FindClosest, i: int, j: int, n: nat, x: int, y: int)
    requires IsGrid(g, w, h) && 0 <= i < w && 0 <= j < h && 0 < n <= Sources
    requires 0 <= x < w && 0 <= y < h && SourceOffsets[n - 1] == (i - x, j - y)
    ensures Received(g, w, h, fc, i, j, n, x + 1, y) ==
      Pushed(g, w, h, fc, Received(g, w, h, fc, i, j, n - 1, x + 1, y), x, y, Kernel(i - x, j - y))
  {
  }

  /** `ReceivedStep` for source `n - 1` when (x, y) is not among the first `n`
      sources: the source is not (x, y), so it pushes at both points or at
      neither. */
  lemma ReceivedStepLater(g: Grid, w: int, h: int, fc: FindClosest, i: int, j: int, n: nat, x: int, y: int)
    requires IsGrid(g, w, h) && 0 <= i < w && 0 <= j < h && 0 < n <= Sources
    requires 0 <= x < w && 0 <= y < h && SourceIndex(i - x, j - y) >= n
    requires Received(g, w, h, fc, i, j, n - 1, x + 1, y) == Received(g, w, h, fc, i, j, n - 1, x, y)
    ensures Received(g, w, h, fc, i, j, n, x + 1, y) == Received(g, w, h, fc, i, j, n, x, y)
  {
    var d := SourceOffsets[n - 1];
    assert (i - d.0, j - d.1) != (x, y);
  }

  /** The end of a row and the start of the next are the same scan position. */
  lemma {:induction false} ReceivedRowEnd(g: Grid, w: int, h: int, fc: FindClosest, i: int, j: int, n: nat, y: int)
    requires IsGrid(g, w, h) && 0 <= i < w && 0 <= j < h && n <= Sources
    ensures Received(g, w, h, fc, i, j, n, w, y) == Received(g, w, h, fc, i, j, n, 0, y + 1)
  {
    if n > 0 {
      ReceivedRowEnd(g, w, h, fc, i, j, n - 1, y);
    }
  }

  /** Before the scan starts, no cell has received anything. */
  lemma {:induction false} ReceivedAtStart(g: Grid, w: int, h: int, fc: FindClosest, i: int, j: int, n: nat)
    requires IsGrid(g, w, h) && 0 <= i < w && 0 <= j < h && n <= Sources
    ensures Received(g, w, h, fc, i, j, n, 0, 0) == g[j][i]
  {
    if n > 0 {
      ReceivedAtStart(g, w, h, fc, i, j, n - 1);
    }
  }

  /** When the lookup keeps the RGB of every input pixel, every error is zero,
      so every cell accumulates exactly its input pixel. */
  lemma {:induction false} AccOnFixedPoints(g: Grid, w: int, h: int, fc: FindClosest, i: int, j: int)
    requires IsGrid(g, w, h) && 0 <= i < w && 0 <= j < h
    requires forall b, a :: 0 <= b < h && 0 <= a < w ==> SameRgb(fc(g[b][a]), g[b][a])
    ensures Acc(g, w, h, fc, i, j) == g[j][i]
    decreases j, i, Sources + 1
  {
    ReceivedOnFixedPoints(g, w, h, fc, i, j, Sources);
  }

  /** The same for every prefix of the sources: with all errors zero, no
      push changes the colour a cell has received. */
  lemma {:induction false} ReceivedOnFixedPoints(g: Grid, w: int, h: int, fc: FindClosest, i: int, j: int, n: nat)
    requires IsGrid(g, w, h) && 0 <= i < w && 0 <= j < h && n <= Sources
    requires forall b, a :: 0 <= b < h && 0 <= a < w ==> SameRgb(fc(g[b][a]), g[b][a])
    ensures Received(g, w, h, fc, i, j, n, i, j) == g[j][i]
    decreases j, i, n
  {
    if n > 0 {
      ReceivedOnFixedPoints(g, w, h, fc, i, j, n - 1);
      var d := SourceOffsets[n - 1];
      var si, sj := i - d.0, j - d.1;
      if 0 <= si < w && 0 <= sj && ScanBefore(si, sj, i, j) {
        AccOnFixedPoints(g, w, h, fc, si, sj);
        assert ErrorAt(g, w, h, fc, si, sj) == Error(0, 0, 0);
        AdjustedFacts(Received(g, w, h, fc, i, j, n - 1, i, j), Error(0, 0, 0), Kernel(d.0, d.1));
        assert Pushed(g, w, h, fc, Received(g, w, h, fc, i, j, n - 1, i, j), si, sj, Kernel(d.0, d.1))
            == Received(g, w, h, fc, i, j, n - 1, i, j);
      }
    }
  }

  /** An image whose every pixel the lookup maps to a colour of the same RGB
      (for the real quantiser: an image drawn only in palette colours) comes
      out of the pass with its RGB unchanged. */
  lemma DitheredKeepsFixedPoints(g: Grid, w: int, h: int, fc: FindClosest)
    requires IsGrid(g, w, h)
    requires forall j, i :: 0 <= j < h && 0 <= i < w ==> SameRgb(fc(g[j][i]), g[j][i])
    ensures forall j, i :: 0 <= j < h && 0 <= i < w ==> SameRgb(Dithered(g, w, h, fc)[j][i], g[j][i])
  {
    forall j, i | 0 <= j < h && 0 <= i < w
      ensures SameRgb(Dithered(g, w, h, fc)[j][i], g[j][i])
    {
      AccOnFixedPoints(g, w, h, fc, i, j);
    }
  }

  /** `adjustPixel`: adds the share `k`/16 of `e` to the cell (x, y), clamping
      each channel and keeping its alpha; no other cell changes. */
  method AdjustPixel(img: array2<Pixel>, x: int, y: int, e: Error, k: int)
    requires 0 <= y < img.Length0 && 0 <= x < img.Length1
    modifies img
    ensures img[y, x] == Adjusted(old(img[y, x]), e, k)
    ensures forall j, i :: 0 <= j < img.Length0 && 0 <= i < img.Length1 && (i != x || j != y) ==>
      img[j, i] == old(img[j, i])
  {
    var pixel := img[y, x];
    var r := Clamp(pixel.r + Share(e.r, k));
    var g := Clamp(pixel.g + Share(e.g, k));
    var b := Clamp(pixel.b + Share(e.b, k));
    img[y, x] := Pixel(r, g, b, pixel.a);
  }

  /** The state of the buffer when the scan is at (x, y): every cell already
      visited holds its final colour, every other cell the colour it has
      received so far. */
  ghost predicate Scanned(a: array2<Pixel>, g: Grid, fc: FindClosest, x: int, y: int)
    requires IsGrid(g, a.Length1, a.Length0)
    reads a
  {
    forall j, i {:trigger a[j, i]} :: 0 <= j < a.Length0 && 0 <= i < a.Length1 ==>
      a[j, i] == if ScanBefore(i, j, x, y) then fc(Acc(g, a.Length1, a.Length0, fc, i, j))
                 else Received(g, a.Length1, a.Length0, fc, i, j, Sources, x, y)
  }

  /** A fresh copy of the input is the state before the first visit. */
  lemma ScannedAtStart(a: array2<Pixel>, g: Grid, fc: FindClosest)
    requires Holds(a, g)
    ensures Scanned(a, g, fc, 0, 0)
  {
    forall j, i | 0 <= j < a.Length0 && 0 <= i < a.Length1
      ensures a[j, i] == Received(g, a.Length1, a.Length0, fc, i, j, Sources, 0, 0)
    {
      ReceivedAtStart(g, a.Length1, a.Length0, fc, i, j, Sources);
    }
  }

  /** Finishing a row is starting the next one. */
  lemma ScannedRowEnd(a: array2<Pixel>, g: Grid, fc: FindClosest, x: int, y: int)
    requires IsGrid(g, a.Length1, a.Length0) && x == a.Length1 && 0 <= y
    requires Scanned(a, g, fc, x, y)
    ensures Scanned(a, g, fc, 0, y + 1)
  {
    forall j, i | 0 <= j < a.Length0 && 0 <= i < a.Length1
      ensures Received(g, a.Length1, a.Length0, fc, i, j, Sources, a.Length1, y)
           == Received(g, a.Length1, a.Length0, fc, i, j, Sources, 0, y + 1)
    {
      ReceivedRowEnd(g, a.Length1, a.Length0, fc, i, j, Sources, y);
    }
  }

  /** Once every row is visited the buffer holds the dithered image. */
  lemma ScannedAtEnd(a: array2<Pixel>, g: Grid, fc: FindClosest)
    requires IsGrid(g, a.Length1, a.Length0)
    requires Scanned(a, g, fc, 0, a.Length0)
    ensures Snapshot(a) == Dithered(g, a.Length1, a.Length0, fc)
  {
    HoldsSnapshot(a, Dithered(g, a.Length1, a.Length0, fc));
  }

  /** Pushes the error `e` of the cell (x, y) into its kernel neighbours that
      lie inside the image, with weights 7, 3, 5 and 1; no other cell changes. */
  method Diffuse(result: array2<Pixel>, x: int, y: int, e: Error)
    requires 0 <= x < result.Length1 && 0 <= y < result.Length0
    modifies result
    ensures forall j, i :: 0 <= j < result.Length0 && 0 <= i < result.Length1 ==>
      result[j, i] == if SourceIndex(i - x, j - y) < Sources then Adjusted(old(result[j, i]), e, Kernel(i - x, j - y))
                      else old(result[j, i])
  {
    var width, height := result.Length1, result.Length0;
    if x + 1 < width {
      AdjustPixel(result, x + 1, y, e, 7);
    }
    if x - 1 >= 0 && y + 1 < height {
      AdjustPixel(result, x - 1, y + 1, e, 3);
    }
    if y + 1 < height {
      AdjustPixel(result, x, y + 1, e, 5);
    }
    if x + 1 < width && y + 1 < height {
      AdjustPixel(result, x + 1, y + 1, e, 1);
    }
    forall j, i | 0 <= j < height && 0 <= i < width
      ensures result[j, i] ==
        if SourceIndex(i - x, j - y) < Sources then Adjusted(old(result[j, i]), e, Kernel(i - x, j - y))
        else old(result[j, i])
    {
      KernelFacts(i - x, j - y);
      if i == x + 1 && j == y {
      } else if i == x - 1 && j == y + 1 {
      } else if i == x && j == y + 1 {
      } else if i == x + 1 && j == y + 1 {
      } else {
      }
    }
  }

  /** One iteration of the scan: quantise the cell (x, y) and diffuse its
      error to the kernel neighbours that lie inside the image. */
  method Visit(result: array2<Pixel>, ghost g0: Grid, fc: FindClosest, x: int, y: int)
    requires IsGrid(g0, result.Length1, result.Length0)
    requires 0 <= x < result.Length1 && 0 <= y < result.Length0
    requires Scanned(result, g0, fc, x, y)
    modifies result
    ensures Scanned(result, g0, fc, x + 1, y)
  {
    var width, height := result.Length1, result.Length0;
    var oldPixel := result[y, x];
    var newPixel := fc(oldPixel);
    result[y, x] := newPixel;
    var e := QuantError(oldPixel, newPixel);
    Diffuse(result, x, y, e);
    assert e == ErrorAt(g0, width, height, fc, x, y);
    forall j, i | 0 <= j < height && 0 <= i < width
      ensures result[j, i] == if ScanBefore(i, j, x + 1, y) then fc(Acc(g0, width, height, fc, i, j))
                              else Received(g0, width, height, fc, i, j, Sources, x + 1, y)
    {
      ReceivedStep(g0, width, height, fc, i, j, Sources, x, y);
      KernelFacts(i - x, j - y);
    }
  }

  /** `draw.Draw(result, bounds, img, bounds.Min, draw.Src)` into a new
      buffer of the same bounds: a copy of `img`. */
  method Copy(img: array2<Pixel>) returns (result: array2<Pixel>)
    ensures fresh(result)
    ensures result.Length0 == img.Length0 && result.Length1 == img.Length1
    ensures Holds(result, Snapshot(img))
  {
    result := new Pixel[img.Length0, img.Length1]((y: int, x: int) requires 0 <= y < img.Length0 && 0 <= x < img.Length1 reads img => img[y, x]);
  }

  /** `FloydSteinberg`: dithers a copy of `img` in place, scanning row-major. */
  method FloydSteinberg(img: array2<Pixel>, fc: FindClosest) returns (result: array2<Pixel>)
    ensures fresh(result)
    ensures result.Length0 == img.Length0 && result.Length1 == img.Length1
    ensures unchanged(img)
    ensures Snapshot(result) == Dithered(Snapshot(img), img.Length1, img.Length0, fc)
  {
    ghost var g0 := Snapshot(img);
    result := Copy(img);
    var width, height := result.Length1, result.Length0;
    ScannedAtStart(result, g0, fc);
    var y := 0;
    while y < height
      invariant 0 <= y <= height
      invariant Scanned(result, g0, fc, 0, y)
    {
      var x := 0;
      while x < width
        invariant 0 <= x <= width
        invariant Scanned(result, g0, fc, x, y)
      {
        Visit(result, g0, fc, x, y);
        x := x + 1;
      }
      ScannedRowEnd(result, g0, fc, x, y);
      y := y + 1;
    }
    ScannedAtEnd(result, g0, fc);
  }
}
