/** The six-colour palette, the nearest-colour lookup and the conversion
    pipeline (internal/convert). */
module Convert {
  import opened GoArith
  import opened Images
  import opened Dither
  import opened Resize

  /** A colour or Go's `nil`. */
  datatype Option<T> = None | Some(value: T)

  const Black := Pixel(0, 0, 0, 255)
  const White := Pixel(255, 255, 255, 255)
  const Red := Pixel(255, 0, 0, 255)
  const Green := Pixel(0, 255, 0, 255)
  const Blue := Pixel(0, 0, 255, 255)
  const Yellow := Pixel(255, 255, 0, 255)

  /** The colours the PhotoPainter (B) panel can show, in lookup order. */
  const Palette: seq<Pixel> := [Black, White, Red, Green, Blue, Yellow]

  /** The panel's colours are opaque and no two share their RGB. */
  lemma PaletteWellFormed()
    ensures |Palette| == 6
    ensures forall k :: 0 <= k < |Palette| ==> Palette[k].a == 255
    ensures forall k, m :: 0 <= k < |Palette| && 0 <= m < |Palette| && SameRgb(Palette[k], Palette[m]) ==> k == m
  {
  }

  /** The squared Euclidean distance between the RGB parts of two colours. */
  function Distance(c: Pixel, p: Pixel): (d: nat)
    ensures SameRgb(c, p) ==> d == 0
  {
    SquarePositive(c.r - p.r);
    SquarePositive(c.g - p.g);
    SquarePositive(c.b - p.b);
    (c.r - p.r) * (c.r - p.r) + (c.g - p.g) * (c.g - p.g) + (c.b - p.b) * (c.b - p.b)
  }

  /** The distance is zero exactly for colours of the same RGB. */
  lemma DistanceZero(c: Pixel, p: Pixel)
    ensures Distance(c, p) == 0 <==> SameRgb(c, p)
  {
    SquarePositive(c.r - p.r);
    SquarePositive(c.g - p.g);
    SquarePositive(c.b - p.b);
  }

  /** A square is positive unless its root is zero. */
  lemma SquarePositive(d: int)
    ensures d != 0 ==> d * d > 0
  {
    if d > 0 {
      MulMonotone(d, 1, d);
    } else if d < 0 {
      MulMonotone(-d, 1, -d);
    }
  }

  /** The index of the first colour among the first `n` palette entries that
      is closest to `c`: no entry is closer, and every earlier entry is
      strictly farther. */
  function FirstNearest(c: Pixel, n: nat): (k: nat)
    requires 0 < n <= |Palette|
    ensures k < n
    ensures forall m :: 0 <= m < n ==> Distance(c, Palette[k]) <= Distance(c, Palette[m])
    ensures forall m :: 0 <= m < k ==> Distance(c, Palette[k]) < Distance(c, Palette[m])
  {
    if n == 1 then 0
    else
      var k := FirstNearest(c, n - 1);
      if Distance(c, Palette[n - 1]) < Distance(c, Palette[k]) then n - 1 else k
  }

  /** Only one index is the first closest one. */
  lemma FirstNearestUnique(c: Pixel, n: nat, k: nat)
    requires 0 < n <= |Palette| && k < n
    requires forall m :: 0 <= m < n ==> Distance(c, Palette[k]) <= Distance(c, Palette[m])
    requires forall m :: 0 <= m < k ==> Distance(c, Palette[k]) < Distance(c, Palette[m])
    ensures k == FirstNearest(c, n)
  {
    var f := FirstNearest(c, n);
    assert Distance(c, Palette[k]) <= Distance(c, Palette[f]);
    assert Distance(c, Palette[f]) <= Distance(c, Palette[k]);
  }

  /** The palette colour `findClosestColor` answers for `c`: the closest one,
      the earliest in the palette on a tie. It is opaque. */
  function Nearest(c: Pixel): (p: Pixel)
    ensures p in Palette && p.a == 255
    ensures forall q :: q in Palette ==> Distance(c, p) <= Distance(c, q)
  {
    var k := FirstNearest(c, |Palette|);
    assert forall q :: q in Palette ==> exists m :: 0 <= m < |Palette| && Palette[m] == q;
    Palette[k]
  }

  /** The lookup reads only the RGB of a colour, never its alpha. */
  lemma {:induction false} NearestIgnoresAlpha(c: Pixel, d: Pixel)
    requires SameRgb(c, d)
    ensures Nearest(c) == Nearest(d)
  {
    assert forall p :: Distance(c, p) == Distance(d, p);
    FirstNearestSameDistances(c, d, |Palette|);
  }

  /** Two colours at the same distance from every palette entry have the
      same first closest entry. */
  lemma {:induction false} FirstNearestSameDistances(c: Pixel, d: Pixel, n: nat)
    requires 0 < n <= |Palette|
    requires forall p :: Distance(c, p) == Distance(d, p)
    ensures FirstNearest(c, n) == FirstNearest(d, n)
  {
    if n > 1 {
      FirstNearestSameDistances(c, d, n - 1);
    }
  }

  /** A palette colour is its own nearest colour. */
  lemma NearestOfPaletteColour(p: Pixel)
    requires p in Palette
    ensures Nearest(p) == p
  {
    var q := Nearest(p);
    assert Distance(p, q) <= Distance(p, p) == 0;
    DistanceZero(p, q);
    PaletteWellFormed();
  }

  /** A colour with the RGB of a palette colour maps to that colour, whatever
      its own alpha. */
  lemma NearestOfPaletteRgb(c: Pixel, p: Pixel)
    requires p in Palette && SameRgb(c, p)
    ensures Nearest(c) == p
  {
    NearestIgnoresAlpha(c, p);
    NearestOfPaletteColour(p);
  }

  /** On a tie the earlier palette entry wins: magenta (200, 0, 200) is as
      far from red as from blue, and maps to red. */
  lemma NearestTieExample()
    ensures Distance(Pixel(200, 0, 200, 255), Red) == Distance(Pixel(200, 0, 200, 255), Blue) == 43025
    ensures Nearest(Pixel(200, 0, 200, 255)) == Red
  {
    var c := Pixel(200, 0, 200, 255);
    assert Distance(c, Black) == 80000;
    assert Distance(c, White) == 71075;
    assert Distance(c, Red) == 43025;
    assert Distance(c, Green) == 145025;
    assert Distance(c, Blue) == 43025;
    assert Distance(c, Yellow) == 108050;
    FirstNearestUnique(c, |Palette|, 2);
  }

  /** `color.RGBA.RGBA()`: an 8-bit channel widened to 16 bits. */
  function Wide(v: Channel): (r: int)
    ensures 0 <= r <= 0xFFFF
  {
    v * 0x101
  }

  /** Narrowing with `>> 8` gives back the 8-bit channel. */
  lemma NarrowWide(v: Channel)
    ensures Wide(v) / 256 == v
  {
  }

  /** The starting `minDistance`, `float64(3*255*255)`. */
  const Sentinel := 3 * 255 * 255

  /** A channel's square is at most 255², and reaches it only at 255. */
  lemma SquareAtMost(v: Channel)
    ensures v * v <= 255 * 255
    ensures v * v == 255 * 255 ==> v == 255
  {
    if v < 255 {
      assert v * v <= v * 254 by {
        MulMonotone(v, v, 254);
      }
    }
  }

  /** Black or white is always strictly closer than the starting distance,
      so the lookup never comes back empty. */
  lemma BlackOrWhiteBeatsSentinel(c: Pixel)
    ensures Distance(c, Black) < Sentinel || Distance(c, White) < Sentinel
  {
    SquareAtMost(c.r);
    SquareAtMost(c.g);
    SquareAtMost(c.b);
    if Distance(c, Black) >= Sentinel {
      assert c.r == 255 && c.g == 255 && c.b == 255;
      assert Distance(c, White) == 0;
    }
  }

  /** `findClosestColor`: keeps the first palette entry strictly closer than
      everything seen so far, starting from the sentinel distance. */
  method FindClosestColor(c: Pixel) returns (closest: Option<Pixel>)
    ensures closest == Some(Nearest(c))
  {
    NarrowWide(c.r);
    NarrowWide(c.g);
    NarrowWide(c.b);
    var r, g, b := Wide(c.r) / 256, Wide(c.g) / 256, Wide(c.b) / 256;
    var minDistance := Sentinel;
    closest := None;
    ghost var k := 0;
    var n := 0;
    while n < |Palette|
      invariant 0 <= n <= |Palette|
      invariant closest == None ==> minDistance == Sentinel && forall m :: 0 <= m < n ==> Sentinel <= Distance(c, Palette[m])
      invariant closest != None ==> k < n && closest == Some(Palette[k]) && minDistance == Distance(c, Palette[k])
      invariant closest != None ==> forall m :: 0 <= m < n ==> minDistance <= Distance(c, Palette[m])
      invariant closest != None ==> forall m :: 0 <= m < k ==> minDistance < Distance(c, Palette[m])
      invariant closest != None ==> minDistance < Sentinel
    {
      var paletteColor := Palette[n];
      NarrowWide(paletteColor.r);
      NarrowWide(paletteColor.g);
      NarrowWide(paletteColor.b);
      var pr, pg, pb := Wide(paletteColor.r) / 256, Wide(paletteColor.g) / 256, Wide(paletteColor.b) / 256;
      var distance := (r - pr) * (r - pr) + (g - pg) * (g - pg) + (b - pb) * (b - pb);
      assert distance == Distance(c, paletteColor);
      if distance < minDistance {
        minDistance := distance;
        closest := Some(paletteColor);
        k := n;
      }
      n := n + 1;
    }
    BlackOrWhiteBeatsSentinel(c);
    assert Palette[0] == Black && Palette[1] == White;
    assert closest != None;
    FirstNearestUnique(c, |Palette|, k);
  }

  /** Every cell of an image dithered with the lookup is an opaque palette
      colour. */
  lemma DitheredUsesPalette(g: Grid, w: int, h: int)
    requires IsGrid(g, w, h)
    ensures forall j, i :: 0 <= j < h && 0 <= i < w ==>
      Dithered(g, w, h, Nearest)[j][i] in Palette && Dithered(g, w, h, Nearest)[j][i].a == 255
  {
  }

  /** An image drawn only in palette colours comes out of the pass as it
      went in. */
  lemma DitherKeepsPaletteImage(g: Grid, w: int, h: int)
    requires IsGrid(g, w, h)
    requires forall j, i :: 0 <= j < h && 0 <= i < w ==> g[j][i] in Palette
    ensures Dithered(g, w, h, Nearest) == g
  {
    forall j, i | 0 <= j < h && 0 <= i < w
      ensures SameRgb(Nearest(g[j][i]), g[j][i])
    {
      NearestOfPaletteColour(g[j][i]);
    }
    DitheredKeepsFixedPoints(g, w, h, Nearest);
    var d := Dithered(g, w, h, Nearest);
    forall j, i | 0 <= j < h && 0 <= i < w
      ensures d[j][i] == g[j][i]
    {
      PaletteWellFormed();
      assert d[j][i] in Palette && g[j][i] in Palette && SameRgb(d[j][i], g[j][i]);
    }
    GridExt(d, g, w, h);
  }

  /** Dithering an already dithered image changes nothing. */
  lemma DitherIdempotent(g: Grid, w: int, h: int)
    requires IsGrid(g, w, h)
    ensures Dithered(Dithered(g, w, h, Nearest), w, h, Nearest) == Dithered(g, w, h, Nearest)
  {
    DitheredUsesPalette(g, w, h);
    DitherKeepsPaletteImage(Dithered(g, w, h, Nearest), w, h);
  }

  /** The conversion settings. */
  datatype Options = Options(width: int, height: int, autoRotate: bool, verbose: bool)

  /** The panel image produced from a decoded source. */
  function Converted(src: Grid, w: int, h: int, opts: Options, sample: Sampler): (d: Grid)
    requires IsGrid(src, w, h) && w > 0 && h > 0 && opts.width > 0 && opts.height > 0
    ensures IsGrid(d, opts.width, opts.height)
    ensures forall j, i :: 0 <= j < opts.height && 0 <= i < opts.width ==> d[j][i] in Palette && d[j][i].a == 255
  {
    var resized := Resized(src, w, h, opts.width, opts.height, opts.autoRotate, sample);
    DitheredUsesPalette(resized, opts.width, opts.height);
    Dithered(resized, opts.width, opts.height, Nearest)
  }

  /** `ConvertImage` after decoding and before encoding: resize (rotating a
      portrait source when asked), copy into a fresh RGBA buffer, and dither
      to the palette. The result is `opts.width` x `opts.height` and uses
      only opaque palette colours. */
  method ConvertImage(src: Grid, w: int, h: int, opts: Options, sample: Sampler) returns (result: array2<Pixel>)
    requires IsGrid(src, w, h) && w > 0 && h > 0 && opts.width > 0 && opts.height > 0
    ensures fresh(result)
    ensures result.Length0 == opts.height && result.Length1 == opts.width
    ensures Snapshot(result) == Converted(src, w, h, opts, sample)
  {
    var resizedImg := ResizeImage(src, w, h, opts.width, opts.height, opts.autoRotate, sample);
    var rgbaImg := Copy(resizedImg);
    HoldsSnapshot(rgbaImg, Snapshot(resizedImg));
    result := FloydSteinberg(rgbaImg, Nearest);
  }
}
