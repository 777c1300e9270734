/** The canvas of `analysis/tape-v2/sketch.py`: pixels written in place and the
    incremental line, proved to plot the rounded true line. */
module Raster {
  import opened Prelude

  type Byte = n: nat | n < 256

  datatype Rgb = Rgb(r: Byte, g: Byte, b: Byte)

  datatype Pixel = Pixel(x: int, y: int)

  // ------------------------------------------------------- the true line

  /** `num / den` rounded to the nearest integer, halves up. */
  function Nearest(num: int, den: int): int {
    if den == 0 then 0 else (2 * num + den) / (2 * den)
  }

  datatype Segment = Segment(x0: int, y0: int, x1: int, y1: int)
  {
    function Dx(): int { Abs(x1 - x0) }
    function Dy(): int { Abs(y1 - y0) }
    function Sx(): int { if x0 < x1 then 1 else -1 }
    function Sy(): int { if y0 < y1 then 1 else -1 }
    function Steps(): int { if Dx() >= Dy() then Dx() else Dy() }

    /** The pixel `k` steps along the major axis: the true line's minor
        coordinate there, rounded. */
    function At(k: int): Pixel {
      if Dx() >= Dy() then Pixel(x0 + k * Sx(), y0 + Nearest(k * Dy(), Dx()) * Sy())
      else Pixel(x0 + Nearest(k * Dx(), Dy()) * Sx(), y0 + k * Sy())
    }

    function Pixels(): seq<Pixel> {
      seq(Steps() + 1, k requires 0 <= k <= Steps() => At(k))
    }
  }

  lemma DivUnique(a: int, d: int, q: int)
    requires d > 0 && q * d <= a < q * d + d
    ensures a / d == q
  {
    var p := a / d;
    assert p * d <= a < p * d + d;
    if p < q {
      MulMonotone(p + 1, q, d);
    } else if q < p {
      MulMonotone(q + 1, p, d);
    }
  }

  /** A value within half a step of the fraction, the upper half excluded, is the
      nearest integer. */
  lemma NearestUnique(num: int, den: int, j: int)
    requires den > 0 && -den <= 2 * (num - j * den) < den
    ensures j == Nearest(num, den)
  {
    assert j * (2 * den) == 2 * (j * den);
    DivUnique(2 * num + den, 2 * den, j);
  }

  lemma NearestBounds(num: int, den: int)
    requires den > 0
    ensures -den <= 2 * (num - Nearest(num, den) * den) <= den
  {
    var q := (2 * num + den) / (2 * den);
    assert q * (2 * den) == 2 * (q * den);
  }

  /** Every plotted pixel is within half a pixel of the true line on the minor axis. */
  lemma WithinHalfPixel(s: Segment, k: int)
    requires 0 <= k <= s.Steps()
    ensures s.Dx() >= s.Dy() ==>
      2 * Abs(Abs(s.At(k).y - s.y0) * s.Dx() - k * s.Dy()) <= s.Dx() && Abs(s.At(k).x - s.x0) == k
    ensures s.Dx() < s.Dy() ==>
      2 * Abs(Abs(s.At(k).x - s.x0) * s.Dy() - k * s.Dx()) <= s.Dy() && Abs(s.At(k).y - s.y0) == k
  {
    hide Nearest;
    if s.Dx() > 0 && s.Dx() >= s.Dy() {
      NearestBounds(k * s.Dy(), s.Dx());
      NearestEnds(s.Dx(), s.Dy());
      NearestMonotone(0, k, s.Dy(), s.Dx());
    } else if s.Dx() < s.Dy() {
      NearestBounds(k * s.Dx(), s.Dy());
      NearestEnds(s.Dy(), s.Dx());
      NearestMonotone(0, k, s.Dx(), s.Dy());
    }
  }

  lemma NearestEnds(n: int, m: int)
    requires 0 <= m <= n
    ensures Nearest(0 * m, n) == 0 && Nearest(n * m, n) == m
  {
    if n > 0 {
      NearestUnique(0, n, 0);
      NearestUnique(n * m, n, m);
    }
  }

  lemma NearestMonotone(k: int, l: int, m: int, n: int)
    requires k <= l && m >= 0 && n > 0
    ensures Nearest(k * m, n) <= Nearest(l * m, n)
  {
    MulMonotone(k, l, m);
    DivMonotone(2 * (k * m) + n, 2 * (l * m) + n, 2 * n);
  }

  /** From one step to the next the minor coordinate moves by at most one. */
  lemma NearestStep(k: int, m: int, n: int)
    requires 0 <= m <= n && n > 0
    ensures Nearest(k * m, n) <= Nearest((k + 1) * m, n) <= Nearest(k * m, n) + 1
  {
    NearestMonotone(k, k + 1, m, n);
    var a := 2 * (k * m) + n;
    assert (k + 1) * m == k * m + m;
    DivMonotone(a + 2 * m, a + 2 * n, 2 * n);
    var q := a / (2 * n);
    assert (q + 1) * (2 * n) == q * (2 * n) + 2 * n;
    DivUnique(a + 2 * n, 2 * n, q + 1);
  }

  /** The plotted pixels are one more than the major extent and run from one end
      of the segment to the other. */
  lemma PixelsReachBothEnds(s: Segment)
    ensures |s.Pixels()| == Max(s.Dx(), s.Dy()) + 1
    ensures s.Pixels()[0] == Pixel(s.x0, s.y0) && s.Pixels()[s.Steps()] == Pixel(s.x1, s.y1)
  {
    hide Nearest;
    NearestEnds(s.Steps(), if s.Dx() >= s.Dy() then s.Dy() else s.Dx());
  }

  /** Every plotted pixel is inside the segment's bounding box. */
  lemma PixelsStayInBox(s: Segment, k: int)
    requires 0 <= k <= s.Steps()
    ensures Min(s.x0, s.x1) <= s.At(k).x <= Max(s.x0, s.x1)
    ensures Min(s.y0, s.y1) <= s.At(k).y <= Max(s.y0, s.y1)
  {
    hide Nearest;
    var n := s.Steps();
    var m := if s.Dx() >= s.Dy() then s.Dy() else s.Dx();
    NearestEnds(n, m);
    if n > 0 {
      NearestMonotone(0, k, m, n);
      NearestMonotone(k, n, m, n);
    }
  }

  /** Every step advances one on the major axis and at most one on the minor. */
  lemma PixelsAdvance(s: Segment, k: int)
    requires 0 <= k < s.Steps()
    ensures if s.Dx() >= s.Dy() then s.At(k + 1).x == s.At(k).x + s.Sx()
                                     && (s.At(k + 1).y == s.At(k).y || s.At(k + 1).y == s.At(k).y + s.Sy())
            else s.At(k + 1).y == s.At(k).y + s.Sy()
                 && (s.At(k + 1).x == s.At(k).x || s.At(k + 1).x == s.At(k).x + s.Sx())
  {
    hide Nearest;
    NearestStep(k, if s.Dx() >= s.Dy() then s.Dy() else s.Dx(), s.Steps());
  }

  /** No pixel is plotted twice. */
  lemma PixelsDistinct(s: Segment, k: int, l: int)
    requires 0 <= k < l <= s.Steps()
    ensures s.At(k) != s.At(l)
  {
  }

  // --------------------------------------------------------------- painting

  function Index(w: nat, x: nat, y: nat): nat { 3 * (y * w + x) }

  predicate OnCanvas(w: nat, h: nat, p: Pixel) { 0 <= p.x < w && 0 <= p.y < h }

  lemma IndexFits(w: nat, h: nat, x: nat, y: nat)
    requires x < w && y < h
    ensures Index(w, x, y) + 3 <= 3 * (w * h)
  {
    MulMonotone(y + 1, h, w);
  }

  lemma RowApart(w: nat, y: int, z: int)
    requires y < z
    ensures y * w + w <= z * w
  {
    MulMonotone(y + 1, z, w);
  }

  lemma IndexApart(w: nat, p: Pixel, q: Pixel)
    requires 0 <= p.x < w && 0 <= q.x < w && p.y >= 0 && q.y >= 0 && p != q
    ensures Index(w, p.x, p.y) + 3 <= Index(w, q.x, q.y) || Index(w, q.x, q.y) + 3 <= Index(w, p.x, p.y)
  {
    if p.y < q.y {
      RowApart(w, p.y, q.y);
    } else if q.y < p.y {
      RowApart(w, q.y, p.y);
    }
  }

  function Put(px: seq<Byte>, w: nat, h: nat, p: Pixel, c: Rgb): (r: seq<Byte>)
    requires |px| == 3 * (w * h)
    ensures |r| == |px|
  {
    if OnCanvas(w, h, p) then
      IndexFits(w, h, p.x, p.y);
      var i := Index(w, p.x, p.y);
      px[..i] + [c.r, c.g, c.b] + px[i + 3..]
    else px
  }

  function Paint(px: seq<Byte>, w: nat, h: nat, points: seq<Pixel>, c: Rgb): (r: seq<Byte>)
    requires |px| == 3 * (w * h)
    ensures |r| == |px|
  {
    if points == [] then px
    else Put(Paint(px, w, h, Front(points), c), w, h, Last(points), c)
  }

  function Colour(px: seq<Byte>, w: nat, h: nat, p: Pixel): Rgb
    requires |px| == 3 * (w * h) && OnCanvas(w, h, p)
  {
    IndexFits(w, h, p.x, p.y);
    var i := Index(w, p.x, p.y);
    Rgb(px[i], px[i + 1], px[i + 2])
  }

  lemma PutColours(px: seq<Byte>, w: nat, h: nat, p: Pixel, c: Rgb, q: Pixel)
    requires |px| == 3 * (w * h) && OnCanvas(w, h, q)
    ensures Colour(Put(px, w, h, p, c), w, h, q) == if p == q then c else Colour(px, w, h, q)
  {
    IndexFits(w, h, q.x, q.y);
    if OnCanvas(w, h, p) {
      IndexFits(w, h, p.x, p.y);
      if p != q {
        IndexApart(w, p, q);
      }
    }
  }

  /** After painting, a canvas pixel carries the colour exactly when it is one of
      the points, and is otherwise as it was. */
  lemma {:induction false} PaintColours(px: seq<Byte>, w: nat, h: nat, points: seq<Pixel>, c: Rgb, q: Pixel)
    requires |px| == 3 * (w * h) && OnCanvas(w, h, q)
    ensures Colour(Paint(px, w, h, points, c), w, h, q) == if q in points then c else Colour(px, w, h, q)
  {
    if points != [] {
      var n := |points| - 1;
      PaintColours(px, w, h, points[..n], c, q);
      PutColours(Paint(px, w, h, points[..n], c), w, h, points[n], c, q);
      assert points == points[..n] + [points[n]];
    }
  }

  /** The bytes themselves: pixel (x, y) is the three from 3 * (y * w + x), its red, green
      and blue in that order. */
  lemma PaintedBytes(px: seq<Byte>, w: nat, h: nat, points: seq<Pixel>, c: Rgb, x: nat, y: nat)
    requires |px| == 3 * (w * h) && x < w && y < h
    ensures 3 * (y * w + x) + 3 <= |px|
    ensures var i := 3 * (y * w + x);
            Paint(px, w, h, points, c)[i..i + 3] == if Pixel(x, y) in points then [c.r, c.g, c.b] else px[i..i + 3]
  {
    hide Paint;
    IndexFits(w, h, x, y);
    PaintColours(px, w, h, points, c, Pixel(x, y));
  }

  // ------------------------------------------------------------- the object

  class Canvas {
    const w: nat
    const h: nat
    const px: array<Byte>

    ghost predicate Valid() { px.Length == 3 * (w * h) }

    constructor (width: nat, height: nat, bg: Rgb)
      ensures Valid() && w == width && h == height && fresh(px)
      ensures forall i :: 0 <= i < width * height ==>
        px[3 * i] == bg.r && px[3 * i + 1] == bg.g && px[3 * i + 2] == bg.b
    {
      w, h := width, height;
      px := new Byte[3 * (width * height)](i => if i % 3 == 0 then bg.r else if i % 3 == 1 then bg.g else bg.b);
    }

    method PutPixel(x: int, y: int, c: Rgb)
      requires Valid()
      modifies px
      ensures px[..] == Put(old(px[..]), w, h, Pixel(x, y), c)
    {
      if 0 <= x < w && 0 <= y < h {
        IndexFits(w, h, x, y);
        var i := 3 * (y * w + x);
        px[i], px[i + 1], px[i + 2] := c.r, c.g, c.b;
      }
    }

    /** The incremental line plots exactly the rounded true line, in order. */
    method Line(s: Segment, c: Rgb)
      requires Valid()
      modifies px
      ensures px[..] == Paint(old(px[..]), w, h, s.Pixels(), c)
    {
      var x, y := s.x0, s.y0;
      var dx := Abs(s.x1 - s.x0);
      var dy := -Abs(s.y1 - s.y0);
      var sx := if s.x0 < s.x1 then 1 else -1;
      var sy := if s.y0 < s.y1 then 1 else -1;
      var err := dx + dy;
      ghost var i, j, k := 0, 0, 0;
      hide OnTrack, Put, Paint, Segment.At, Segment.Pixels;
      StartsAtOrigin(s);
      AllPixels(s);
      PaintNone(px[..], w, h, s, c);
      while true
        invariant 0 <= k <= s.Steps() && OnTrack(s, i, j, k, err)
        invariant x == s.x0 + i * sx && y == s.y0 + j * sy
        invariant px[..] == Paint(old(px[..]), w, h, s.Pixels()[..k], c)
        decreases s.Steps() - k
      {
        TrackIsPixel(s, i, j, k, err);
        PutPixel(x, y, c);
        PaintNext(old(px[..]), w, h, s, k, c);
        if x == s.x1 && y == s.y1 {
          TrackEnds(s, i, j, k, err);
          AllPixels(s);
          return;
        }
        TrackEnds(s, i, j, k, err);
        TrackAdvances(s, i, j, k, err);
        var e2 := 2 * err;
        if e2 >= dy {
          err := err + dy;
          x := x + sx;
          i := i + 1;
        }
        if e2 <= dx {
          err := err + dx;
          y := y + sy;
          j := j + 1;
        }
        k := k + 1;
      }
    }
  }

  lemma PaintNone(px: seq<Byte>, w: nat, h: nat, s: Segment, c: Rgb)
    requires |px| == 3 * (w * h)
    ensures |s.Pixels()| > 0 && Paint(px, w, h, s.Pixels()[..0], c) == px
  {
  }

  lemma AllPixels(s: Segment)
    ensures |s.Pixels()| == s.Steps() + 1 && s.Pixels()[..s.Steps() + 1] == s.Pixels()
  {
  }

  lemma PaintNext(px: seq<Byte>, w: nat, h: nat, s: Segment, k: int, c: Rgb)
    requires |px| == 3 * (w * h) && 0 <= k <= s.Steps()
    ensures Paint(px, w, h, s.Pixels()[..k + 1], c) == Put(Paint(px, w, h, s.Pixels()[..k], c), w, h, s.At(k), c)
  {
    hide Segment.At, Put;
    assert s.Pixels()[..k + 1][..k] == s.Pixels()[..k];
  }

  // ------------------------------------------------------ the error's track

  /** After `k` iterations the loop has stepped `i` times on x and `j` on y, the
      major count is `k`, and the minor offset is off by at most half a step. */
  ghost predicate OnTrack(s: Segment, i: int, j: int, k: int, err: int) {
    var a, b := s.Dx(), s.Dy();
    && i >= 0 && j >= 0 && err == (j + 1) * a - (i + 1) * b
    && (if a >= b then i == k && (a > 0 ==> -a <= 2 * (i * b - j * a) < a) && (a == 0 ==> j == 0)
        else j == k && -b <= 2 * (j * a - i * b) < b)
  }

  lemma StartsAtOrigin(s: Segment)
    ensures OnTrack(s, 0, 0, 0, s.Dx() - s.Dy())
  {
  }

  lemma TrackIsPixel(s: Segment, i: int, j: int, k: int, err: int)
    requires OnTrack(s, i, j, k, err)
    ensures s.At(k) == Pixel(s.x0 + i * s.Sx(), s.y0 + j * s.Sy())
  {
    hide Nearest;
    NearestEnds(0, 0);
    if s.Dx() >= s.Dy() {
      if s.Dx() > 0 { NearestUnique(i * s.Dy(), s.Dx(), j); }
    } else {
      NearestUnique(j * s.Dx(), s.Dy(), i);
    }
  }

  /** The loop stands on the end point exactly when its major count is spent. */
  lemma TrackEnds(s: Segment, i: int, j: int, k: int, err: int)
    requires OnTrack(s, i, j, k, err) && 0 <= k <= s.Steps()
    ensures s.x0 + i * s.Sx() == s.x1 && s.y0 + j * s.Sy() == s.y1 <==> k == s.Steps()
  {
    TrackIsPixel(s, i, j, k, err);
    PixelsReachBothEnds(s);
  }

  lemma TrackAdvances(s: Segment, i: int, j: int, k: int, err: int)
    requires OnTrack(s, i, j, k, err) && 0 <= k < s.Steps()
    ensures var a, b := s.Dx(), s.Dy();
            var onX, onY := 2 * err >= -b, 2 * err <= a;
            OnTrack(s, if onX then i + 1 else i, if onY then j + 1 else j, k + 1,
                    err + (if onX then -b else 0) + (if onY then a else 0))
  {
    var a, b := s.Dx(), s.Dy();
    assert (i + 2) * b == (i + 1) * b + b && (i + 1) * b == i * b + b;
    assert (j + 2) * a == (j + 1) * a + a && (j + 1) * a == j * a + a;
  }
}
