/** Rotation and aspect-preserving resize (internal/resize). */
module Resize {
  import opened GoArith
  import opened Images

  // ---------------------------------------------------------------- rotation

  /** The image turned 90° clockwise: `h` wide and `w` high. */
  function RotatedCw(g: Grid, w: int, h: int): (r: Grid)
    requires IsGrid(g, w, h)
    ensures IsGrid(r, h, w)
    ensures forall y, x :: 0 <= y < h && 0 <= x < w ==> r[x][h - 1 - y] == g[y][x]
  {
    seq(w, (i: int) requires 0 <= i < w =>
      seq(h, (j: int) requires 0 <= j < h => g[h - 1 - j][i]))
  }

  /** The image turned 90° counter-clockwise: `h` wide and `w` high. */
  function RotatedCcw(g: Grid, w: int, h: int): (r: Grid)
    requires IsGrid(g, w, h)
    ensures IsGrid(r, h, w)
    ensures forall y, x :: 0 <= y < h && 0 <= x < w ==> r[w - 1 - x][y] == g[y][x]
  {
    seq(w, (i: int) requires 0 <= i < w =>
      seq(h, (j: int) requires 0 <= j < h => g[j][w - 1 - i]))
  }

  /** Turning clockwise and then counter-clockwise gives back the image. */
  lemma CcwUndoesCw(g: Grid, w: int, h: int)
    requires IsGrid(g, w, h)
    ensures RotatedCcw(RotatedCw(g, w, h), h, w) == g
  {
    var r := RotatedCw(g, w, h);
    var back := RotatedCcw(r, h, w);
    forall y, x | 0 <= y < h && 0 <= x < w
      ensures back[y][x] == g[y][x]
    {
      assert back[y][x] == r[x][h - 1 - y];
    }
    GridExt(back, g, w, h);
  }

  /** Turning counter-clockwise and then clockwise gives back the image. */
  lemma CwUndoesCcw(g: Grid, w: int, h: int)
    requires IsGrid(g, w, h)
    ensures RotatedCw(RotatedCcw(g, w, h), h, w) == g
  {
    var r := RotatedCcw(g, w, h);
    var back := RotatedCw(r, h, w);
    forall y, x | 0 <= y < h && 0 <= x < w
      ensures back[y][x] == g[y][x]
    {
      assert back[y][x] == r[w - 1 - x][y];
    }
    GridExt(back, g, w, h);
  }

  /** The pixel `image.NewRGBA` starts every cell with (transparent black). */
  const Transparent := Pixel(0, 0, 0, 0)

  /** The cells of `a` whose source pixel comes before `(x, y)` in the scan
      already hold that pixel turned clockwise. */
  ghost predicate CwFilled(a: array2<Pixel>, img: Grid, width: int, height: int, x: int, y: int)
    requires IsGrid(img, width, height) && a.Length0 == width && a.Length1 == height
    reads a
  {
    forall i, j {:trigger a[i, j]} :: 0 <= i < width && 0 <= j < height && ScanBefore(i, height - 1 - j, x, y) ==>
      a[i, j] == img[height - 1 - j][i]
  }

  /** The cells of `a` whose source pixel comes before `(x, y)` in the scan
      already hold that pixel turned counter-clockwise. */
  ghost predicate CcwFilled(a: array2<Pixel>, img: Grid, width: int, height: int, x: int, y: int)
    requires IsGrid(img, width, height) && a.Length0 == width && a.Length1 == height
    reads a
  {
    forall i, j {:trigger a[i, j]} :: 0 <= i < width && 0 <= j < height && ScanBefore(width - 1 - i, j, x, y) ==>
      a[i, j] == img[j][width - 1 - i]
  }

  /** The clockwise branch of `RotateImage`: `(x, y)` goes to column
      `height-y-1` of row `x`. */
  method TurnClockwise(img: Grid, width: int, height: int, rotated: array2<Pixel>)
    requires IsGrid(img, width, height) && rotated.Length0 == width && rotated.Length1 == height
    modifies rotated
    ensures Holds(rotated, RotatedCw(img, width, height))
  {
    var y := 0;
    while y < height
      invariant 0 <= y <= height
      invariant CwFilled(rotated, img, width, height, 0, y)
    {
      var x := 0;
      while x < width
        invariant 0 <= x <= width
        invariant CwFilled(rotated, img, width, height, x, y)
      {
        rotated[x, height - y - 1] := img[y][x];
        x := x + 1;
      }
      y := y + 1;
    }
  }

  /** The counter-clockwise branch of `RotateImage`: `(x, y)` goes to
      column `y` of row `width-x-1`. */
  method TurnCounterClockwise(img: Grid, width: int, height: int, rotated: array2<Pixel>)
    requires IsGrid(img, width, height) && rotated.Length0 == width && rotated.Length1 == height
    modifies rotated
    ensures Holds(rotated, RotatedCcw(img, width, height))
  {
    var y := 0;
    while y < height
      invariant 0 <= y <= height
      invariant CcwFilled(rotated, img, width, height, 0, y)
    {
      var x := 0;
      while x < width
        invariant 0 <= x <= width
        invariant CcwFilled(rotated, img, width, height, x, y)
      {
        rotated[width - x - 1, y] := img[y][x];
        x := x + 1;
      }
      y := y + 1;
    }
  }

  /** `RotateImage`: a new buffer with the sides swapped, holding the source
      turned a quarter clockwise or counter-clockwise. */
  method RotateImage(img: Grid, width: int, height: int, clockwise: bool) returns (rotated: array2<Pixel>)
    requires IsGrid(img, width, height)
    ensures fresh(rotated)
    ensures rotated.Length0 == width && rotated.Length1 == height
    ensures Snapshot(rotated) == if clockwise then RotatedCw(img, width, height) else RotatedCcw(img, width, height)
  {
    rotated := new Pixel[width, height]((i: int, j: int) => Transparent);
    if clockwise {
      TurnClockwise(img, width, height, rotated);
      HoldsSnapshot(rotated, RotatedCw(img, width, height));
    } else {
      TurnCounterClockwise(img, width, height, rotated);
      HoldsSnapshot(rotated, RotatedCcw(img, width, height));
    }
  }

  // ------------------------------------------------------------- orientation

  /** A source image together with its size. */
  datatype Sized = Sized(img: Grid, width: int, height: int)

  /** The image `ResizeImage` goes on with: turned clockwise, with the sizes
      swapped to match, when auto-rotation is on and the source is portrait
      (`width/height < 1.0` is `width < height` for positive sizes). */
  function Oriented(img: Grid, width: int, height: int, autoRotate: bool): (s: Sized)
    requires IsGrid(img, width, height)
    ensures IsGrid(s.img, s.width, s.height)
    ensures autoRotate && width < height ==> s == Sized(RotatedCw(img, width, height), height, width)
    ensures !(autoRotate && width < height) ==> s == Sized(img, width, height)
  {
    if autoRotate && width < height then Sized(RotatedCw(img, width, height), height, width)
    else Sized(img, width, height)
  }

  /** With rotation on, the image the crop works on is never portrait, and it
      has the same pixels up to the turn. */
  lemma OrientedIsLandscape(img: Grid, width: int, height: int)
    requires IsGrid(img, width, height)
    ensures Oriented(img, width, height, true).width >= Oriented(img, width, height, true).height
    ensures width < height ==> RotatedCcw(Oriented(img, width, height, true).img, height, width) == img
  {
    if width < height {
      CcwUndoesCw(img, width, height);
    }
  }

  // -------------------------------------------------------------------- crop

  /** `image.Rectangle`: columns `x0..x1` and rows `y0..y1`, ends exclusive. */
  datatype Rect = Rect(x0: int, y0: int, x1: int, y1: int)

  /** `r` lies within a `w` x `h` image. */
  predicate Inside(r: Rect, w: int, h: int)
  {
    0 <= r.x0 <= r.x1 <= w && 0 <= r.y0 <= r.y1 <= h
  }

  /** `r` covers the whole of a `w` x `h` image and possibly more. */
  predicate Covers(r: Rect, w: int, h: int)
  {
    r.x0 <= 0 && r.y0 <= 0 && w <= r.x1 && h <= r.y1
  }

  /** The source rectangle exactly as `ResizeImage` computes it: for a source
      wider than the target it keeps the full width and takes
      `width / dstAspect` rows centred vertically, otherwise the full height
      and `height * dstAspect` columns centred horizontally. The computed side
      is never shorter than the source's own, so the rectangle always covers
      the whole source; `CropAsWrittenFits` gives its centring and aspect. */
  function CropRectAsWritten(w: int, h: int, tw: int, th: int): (r: Rect)
    requires w > 0 && h > 0 && tw > 0 && th > 0
    ensures Covers(r, w, h)
  {
    if w * th > tw * h then
      var newHeight := (w * th) / tw;
      var y := Quo(h - newHeight, 2);
      assert newHeight >= h && h - newHeight <= y <= 0 by {
        DivAtLeast(w * th, tw, h);
        QuoBounds(h - newHeight, 2);
      }
      Rect(0, y, w, y + newHeight)
    else
      var newWidth := (h * tw) / th;
      var x := Quo(w - newWidth, 2);
      assert newWidth >= w && w - newWidth <= x <= 0 by {
        DivAtLeast(h * tw, th, w);
        QuoBounds(w - newWidth, 2);
      }
      Rect(x, 0, x + newWidth, h)
  }

  /** The rectangle as written keeps one full side of the source, overhangs
      the other side evenly (the two overhangs differ by at most one pixel,
      from Go's truncating `/ 2`), and has the target's aspect up to the
      truncation of the computed side. */
  lemma CropAsWrittenFits(w: int, h: int, tw: int, th: int)
    requires w > 0 && h > 0 && tw > 0 && th > 0
    ensures var r := CropRectAsWritten(w, h, tw, th);
      w * th > tw * h ==>
        r.x0 == 0 && r.x1 == w && -r.y0 <= r.y1 - h <= -r.y0 + 1 &&
        tw * (r.y1 - r.y0) <= w * th < tw * (r.y1 - r.y0) + tw
    ensures var r := CropRectAsWritten(w, h, tw, th);
      w * th <= tw * h ==>
        r.y0 == 0 && r.y1 == h && -r.x0 <= r.x1 - w <= -r.x0 + 1 &&
        th * (r.x1 - r.x0) <= h * tw < th * (r.x1 - r.x0) + th
  {
    if w * th > tw * h {
      DivBounds(w * th, tw);
    } else {
      DivBounds(h * tw, th);
    }
  }

  /** The rectangle as written never crops: it lies inside the source only
      when it is the source itself. */
  lemma CropAsWrittenNeverCrops(w: int, h: int, tw: int, th: int)
    requires w > 0 && h > 0 && tw > 0 && th > 0
    ensures Inside(CropRectAsWritten(w, h, tw, th), w, h) <==> CropRectAsWritten(w, h, tw, th) == Rect(0, 0, w, h)
  {
  }

  /** A source already at the target's aspect is used whole by the rectangle
      as written too. */
  lemma CropAsWrittenOfSameAspect(w: int, h: int, tw: int, th: int)
    requires w > 0 && h > 0 && tw > 0 && th > 0 && w * th == tw * h
    ensures CropRectAsWritten(w, h, tw, th) == Rect(0, 0, w, h)
  {
    var a := h * tw;
    assert a == th * w;
    assert a / th == w by {
      DivAtMost(a, th, w);
      DivAtLeast(a, th, w);
    }
  }

  /** A 1001 x 500 photo for the 800 x 480 panel: the rectangle as written
      reaches 50 rows above and below the photo instead of cutting columns. */
  lemma CropAsWrittenLetterboxes()
    ensures CropRectAsWritten(1001, 500, 800, 480) == Rect(0, -50, 1001, 550)
    ensures CropRectAsWritten(1600, 1200, 800, 480) == Rect(-200, 0, 1800, 1200)
    ensures !Inside(CropRectAsWritten(1001, 500, 800, 480), 1001, 500)
  {
  }

  /** The centred crop of the target's aspect: a source wider than the target
      keeps its full height and loses columns on both sides, any other source
      keeps its full width and loses rows at top and bottom. */
  function CropRect(w: int, h: int, tw: int, th: int): (r: Rect)
    requires w > 0 && h > 0 && tw > 0 && th > 0
    ensures Inside(r, w, h)
    ensures w * th > tw * h ==> r.y0 == 0 && r.y1 == h
    ensures w * th <= tw * h ==> r.x0 == 0 && r.x1 == w
  {
    if w * th > tw * h then
      var newWidth := (h * tw) / th;
      assert 0 <= newWidth <= w by {
        MulMonotone(h, 0, tw);
        KeptSide(h * tw, th, w);
      }
      var x := (w - newWidth) / 2;
      Rect(x, 0, x + newWidth, h)
    else
      var newHeight := (w * th) / tw;
      assert 0 <= newHeight <= h by {
        MulMonotone(w, 0, th);
        KeptSide(w * th, tw, h);
      }
      var y := (h - newHeight) / 2;
      Rect(0, y, w, y + newHeight)
  }

  /** A span of `m` centred in `n` leaves margins that differ by at most one. */
  lemma Centred(n: int, m: int)
    requires 0 <= m <= n
    ensures 0 <= (n - m) / 2 <= n - ((n - m) / 2 + m) <= (n - m) / 2 + 1
  {
  }

  /** The kept side `a / d` of a crop is within `[0, limit]`, and `a` is
      matched up to the truncation. */
  lemma KeptSide(a: int, d: int, limit: int)
    requires d > 0 && 0 <= a <= d * limit
    ensures 0 <= a / d <= limit
    ensures d * (a / d) <= a < d * (a / d) + d
  {
    DivAtMost(a, d, limit);
    DivBounds(a, d);
  }

  /** The crop is centred (the two margins differ by at most one pixel) and
      has the target's aspect up to the truncation of the cropped side. */
  lemma CropRectFits(w: int, h: int, tw: int, th: int)
    requires w > 0 && h > 0 && tw > 0 && th > 0
    ensures var r := CropRect(w, h, tw, th);
      r.x0 <= w - r.x1 <= r.x0 + 1 && r.y0 <= h - r.y1 <= r.y0 + 1
    ensures var r := CropRect(w, h, tw, th);
      if w * th > tw * h then
        th * (r.x1 - r.x0) <= h * tw < th * (r.x1 - r.x0) + th
      else
        tw * (r.y1 - r.y0) <= w * th < tw * (r.y1 - r.y0) + tw
  {
    var a, b := h * tw, w * th;
    assert a >= 0 && b >= 0 by {
      MulMonotone(h, 0, tw);
      MulMonotone(w, 0, th);
    }
    assert b == th * w && a == tw * h;
    if b > a {
      KeptSide(a, th, w);
      Centred(w, a / th);
    } else {
      KeptSide(b, tw, h);
      Centred(h, b / tw);
    }
  }

  /** When the source already has the target's aspect the crop is the whole
      source. */
  lemma CropRectOfSameAspect(w: int, h: int, tw: int, th: int)
    requires w > 0 && h > 0 && tw > 0 && th > 0 && w * th == tw * h
    ensures CropRect(w, h, tw, th) == Rect(0, 0, w, h)
  {
    var b := w * th;
    assert b == tw * h;
    assert b / tw == h by {
      DivBounds(b, tw);
      DivAtMost(b, tw, h);
      DivAtLeast(b, tw, h);
    }
  }

  // ------------------------------------------------------------------ resize

  /** What the bilinear scaler is asked to do: map rectangle `sr` of the
      `w` x `h` image `src` onto a `tw` x `th` destination. */
  datatype ScaleJob = ScaleJob(src: Grid, w: int, h: int, sr: Rect, tw: int, th: int)

  /** `draw.ApproxBiLinear.Scale`, seen through the colour it gives the
      destination cell (x, y) of a job. Its numerics are not modelled. */
  type Sampler = (ScaleJob, int, int) -> Pixel

  /** The destination buffer the scaler fills: one sample per cell. */
  function Scaled(job: ScaleJob, sample: Sampler): (d: Grid)
    requires job.tw >= 0 && job.th >= 0
    ensures IsGrid(d, job.tw, job.th)
    ensures forall y, x :: 0 <= y < job.th && 0 <= x < job.tw ==> d[y][x] == sample(job, x, y)
  {
    seq(job.th, (y: int) requires 0 <= y < job.th =>
      seq(job.tw, (x: int) requires 0 <= x < job.tw => sample(job, x, y)))
  }

  /** The scaling job `ResizeImage` hands to the scaler: the oriented image and
      the source rectangle as written, which covers the whole image (so the
      scaler letterboxes rather than crops). */
  function ResizeJob(img: Grid, width: int, height: int, tw: int, th: int, autoRotate: bool): (job: ScaleJob)
    requires IsGrid(img, width, height) && width > 0 && height > 0 && tw > 0 && th > 0
    ensures IsGrid(job.src, job.w, job.h) && Covers(job.sr, job.w, job.h)
    ensures job.tw == tw && job.th == th
    ensures autoRotate ==> job.w >= job.h
  {
    var s := Oriented(img, width, height, autoRotate);
    ScaleJob(s.img, s.width, s.height, CropRectAsWritten(s.width, s.height, tw, th), tw, th)
  }

  /** The scaling job the resize step is meant to hand over: the oriented
      image and its centred crop, which lies inside it. */
  function ResizeJobIntended(img: Grid, width: int, height: int, tw: int, th: int, autoRotate: bool): (job: ScaleJob)
    requires IsGrid(img, width, height) && width > 0 && height > 0 && tw > 0 && th > 0
    ensures IsGrid(job.src, job.w, job.h) && Inside(job.sr, job.w, job.h)
    ensures job.tw == tw && job.th == th
    ensures autoRotate ==> job.w >= job.h
  {
    var s := Oriented(img, width, height, autoRotate);
    ScaleJob(s.img, s.width, s.height, CropRect(s.width, s.height, tw, th), tw, th)
  }

  /** The two jobs differ only when the oriented source's aspect differs from
      the target's: at the same aspect both use the whole image. */
  lemma ResizeJobsAgreeOnSameAspect(img: Grid, width: int, height: int, tw: int, th: int, autoRotate: bool)
    requires IsGrid(img, width, height) && width > 0 && height > 0 && tw > 0 && th > 0
    requires var s := Oriented(img, width, height, autoRotate); s.width * th == tw * s.height
    ensures ResizeJob(img, width, height, tw, th, autoRotate) == ResizeJobIntended(img, width, height, tw, th, autoRotate)
    ensures var job := ResizeJob(img, width, height, tw, th, autoRotate); job.sr == Rect(0, 0, job.w, job.h)
  {
    var s := Oriented(img, width, height, autoRotate);
    CropAsWrittenOfSameAspect(s.width, s.height, tw, th);
    CropRectOfSameAspect(s.width, s.height, tw, th);
  }

  /** The image `ResizeImage` returns. */
  function Resized(img: Grid, width: int, height: int, tw: int, th: int, autoRotate: bool, sample: Sampler): (d: Grid)
    requires IsGrid(img, width, height) && width > 0 && height > 0 && tw > 0 && th > 0
    ensures IsGrid(d, tw, th)
  {
    Scaled(ResizeJob(img, width, height, tw, th, autoRotate), sample)
  }

  /** `ResizeImage`: rotates a portrait source when asked, computes the source
      rectangle and scales it into a new `tw` x `th` buffer. */
  method ResizeImage(img: Grid, width: int, height: int, targetWidth: int, targetHeight: int, autoRotate: bool, sample: Sampler)
    returns (dst: array2<Pixel>)
    requires IsGrid(img, width, height) && width > 0 && height > 0 && targetWidth > 0 && targetHeight > 0
    ensures fresh(dst)
    ensures dst.Length0 == targetHeight && dst.Length1 == targetWidth
    ensures Snapshot(dst) == Resized(img, width, height, targetWidth, targetHeight, autoRotate, sample)
  {
    var src, w, h := img, width, height;
    if autoRotate && width < height {
      var rotated := RotateImage(img, width, height, true);
      src, w, h := Snapshot(rotated), height, width;
    }
    assert Oriented(img, width, height, autoRotate) == Sized(src, w, h);
    var sr := CropRectAsWritten(w, h, targetWidth, targetHeight);
    var job := ScaleJob(src, w, h, sr, targetWidth, targetHeight);
    assert job == ResizeJob(img, width, height, targetWidth, targetHeight, autoRotate);
    dst := new Pixel[targetHeight, targetWidth]((y: int, x: int) => sample(job, x, y));
    HoldsSnapshot(dst, Scaled(job, sample));
  }
}
