/** The pixel loop of `Scene.Render` (src/scene/Scene.cs): the aspect ratio,
    the mapping of a sub-pixel position to the camera plane, the regular
    anti-aliasing grid of `n * n` sub-pixel samples and the box filter that
    averages their colours.  Shading a sample (`castRay`) is a parameter. */
module Rendering {
  import opened Wrappers
  import opened Vectors
  import opened Geometry

  // --------------------------------------------------------- aspect ratio

  /** `outputImage.Width / outputImage.Height` as written: a C# division of
      two non-negative `int`s, which truncates before the quotient is widened
      to `double`.  A zero height raises `DivideByZeroException`, modelled as
      `None`. */
  function TruncatedAspect(width: nat, height: nat): (r: Option<nat>)
    ensures r.None? <==> height == 0
    ensures r.Some? ==> r.value * height <= width < (r.value + 1) * height
  {
    if height == 0 then None else Some(width / height)
  }

  /** The aspect ratio the camera mapping needs: the real quotient. */
  function ExactAspect(width: nat, height: nat): (r: real)
    requires height > 0
    ensures r * height as real == width as real
    ensures r >= 0.0 && (width > 0 ==> r > 0.0)
  {
    width as real / height as real
  }

  /** The horizontal camera-plane coordinate of the sub-pixel position `px`
      (pixel column plus offset): `(2 px / width - 1) tan(fov / 2)`.  The
      tangent is the parameter `tanHalf`. */
  function ScreenX(width: nat, tanHalf: real, px: real): real
    requires width > 0
  {
    ((px / width as real) * 2.0 - 1.0) * tanHalf
  }

  /** The vertical coordinate: `(1 - 2 py / height) tan(fov / 2) / aspect`. */
  function ScreenY(height: nat, aspect: real, tanHalf: real, py: real): real
    requires height > 0 && aspect != 0.0
  {
    (1.0 - (py / height as real) * 2.0) * (tanHalf / aspect)
  }

  /** The image spans the whole field of view horizontally: its left edge
      maps to `-tanHalf` and its right edge to `tanHalf`, and each pixel
      column is `2 tanHalf / width` wide. */
  lemma ScreenSpansFieldOfView(width: nat, tanHalf: real, px: real)
    requires width > 0
    ensures ScreenX(width, tanHalf, 0.0) == -tanHalf
    ensures ScreenX(width, tanHalf, width as real) == tanHalf
    ensures ScreenX(width, tanHalf, px + 1.0) - ScreenX(width, tanHalf, px) == 2.0 * tanHalf / width as real
  {
    var w := width as real;
    assert (px + 1.0) / w == px / w + 1.0 / w;
    assert ScreenX(width, tanHalf, px + 1.0) - ScreenX(width, tanHalf, px) == (2.0 / w) * tanHalf;
  }

  /** Each pixel row is `2 tanHalf / (height aspect)` high. */
  lemma ScreenRowHeight(height: nat, aspect: real, tanHalf: real, py: real)
    requires height > 0 && aspect != 0.0
    ensures ScreenY(height, aspect, tanHalf, py) - ScreenY(height, aspect, tanHalf, py + 1.0)
            == 2.0 * tanHalf / (height as real * aspect)
  {
    var h := height as real;
    assert (py + 1.0) / h == py / h + 1.0 / h;
    assert ScreenY(height, aspect, tanHalf, py) - ScreenY(height, aspect, tanHalf, py + 1.0)
           == (2.0 / h) * (tanHalf / aspect);
  }

  /** With the real aspect ratio the pixels are square on the camera plane:
      one column is exactly as wide as one row is high. */
  lemma ExactAspectSquarePixels(width: nat, height: nat, tanHalf: real, px: real, py: real)
    requires width > 0 && height > 0
    ensures ScreenX(width, tanHalf, px + 1.0) - ScreenX(width, tanHalf, px)
            == ScreenY(height, ExactAspect(width, height), tanHalf, py)
               - ScreenY(height, ExactAspect(width, height), tanHalf, py + 1.0)
  {
    var aspect := ExactAspect(width, height);
    ScreenSpansFieldOfView(width, tanHalf, px);
    ScreenRowHeight(height, aspect, tanHalf, py);
    assert height as real * aspect == width as real;
  }

  /** The camera-space vector of sample offset `o` in pixel `(x, y)`, before
      the camera's rotation, as written: the sub-pixel position mapped onto
      the image plane at depth 1, the vertical coordinate divided by the
      truncated aspect ratio.  That ratio is non-zero only for an image at
      least as wide as it is high. */
  function CameraPlanePoint(width: nat, height: nat, tanHalf: real, x: nat, y: nat, o: SubPixel): (p: Vector3)
    requires 0 < height <= width
    ensures p.z == 1.0
    ensures p.x == tanHalf * (2.0 * (x as real + o.dx) / width as real - 1.0)
    ensures p.y * TruncatedAspect(width, height).value as real
            == tanHalf * (1.0 - 2.0 * (y as real + o.dy) / height as real)
  {
    TruncatedQuotient(width, height);
    var aspect := TruncatedAspect(width, height).value as real;
    var p := Vector3(ScreenX(width, tanHalf, x as real + o.dx),
                     ScreenY(height, aspect, tanHalf, y as real + o.dy),
                     1.0);
    ScreenCoordinates(width, height, aspect, tanHalf, x as real + o.dx, y as real + o.dy);
    p
  }

  /** The same vector with the real aspect ratio: the vertical coordinate
      is `tanHalf (height - 2 py) / width`, so a unit step in `py` moves it
      exactly as far as a unit step in `px` moves the horizontal one. */
  function CameraPlanePointExact(width: nat, height: nat, tanHalf: real, x: nat, y: nat, o: SubPixel): (p: Vector3)
    requires width > 0 && height > 0
    ensures p.z == 1.0
    ensures p.x == tanHalf * (2.0 * (x as real + o.dx) / width as real - 1.0)
    ensures p.y * width as real == tanHalf * (height as real - 2.0 * (y as real + o.dy))
  {
    var aspect := ExactAspect(width, height);
    var p := Vector3(ScreenX(width, tanHalf, x as real + o.dx),
                     ScreenY(height, aspect, tanHalf, y as real + o.dy),
                     1.0);
    ScreenCoordinates(width, height, aspect, tanHalf, x as real + o.dx, y as real + o.dy);
    ExactVertical(width, height, tanHalf, y as real + o.dy, p.y);
    p
  }

  /** The two screen mappings in closed form. */
  lemma ScreenCoordinates(width: nat, height: nat, aspect: real, tanHalf: real, px: real, py: real)
    requires width > 0 && height > 0 && aspect != 0.0
    ensures ScreenX(width, tanHalf, px) == tanHalf * (2.0 * px / width as real - 1.0)
    ensures ScreenY(height, aspect, tanHalf, py) * aspect == tanHalf * (1.0 - 2.0 * py / height as real)
  {
    assert (px / width as real) * 2.0 == 2.0 * px / width as real;
    assert (py / height as real) * 2.0 == 2.0 * py / height as real;
    var c := 1.0 - 2.0 * py / height as real;
    assert ScreenY(height, aspect, tanHalf, py) == c * (tanHalf / aspect);
    assert c * (tanHalf / aspect) * aspect == c * tanHalf;
  }

  /** Dividing by the real aspect ratio turns `1 - 2 py / height` into
      `(height - 2 py) / width`. */
  lemma ExactVertical(width: nat, height: nat, tanHalf: real, py: real, v: real)
    requires width > 0 && height > 0
    requires v * ExactAspect(width, height) == tanHalf * (1.0 - 2.0 * py / height as real)
    ensures v * width as real == tanHalf * (height as real - 2.0 * py)
  {
    var w, h := width as real, height as real;
    assert ExactAspect(width, height) * h == w;
    calc {
      v * w;
      v * ExactAspect(width, height) * h;
      tanHalf * (1.0 - 2.0 * py / h) * h;
      { assert (1.0 - 2.0 * py / h) * h == h - 2.0 * py; }
      tanHalf * (h - 2.0 * py);
    }
  }

  /** Where the height divides the width, the truncated ratio is the real
      one and the two mappings agree. */
  lemma CameraPlaneAgreesWhenDivides(width: nat, height: nat, tanHalf: real, x: nat, y: nat, o: SubPixel)
    requires 0 < height <= width && width % height == 0
    ensures CameraPlanePoint(width, height, tanHalf, x, y, o) == CameraPlanePointExact(width, height, tanHalf, x, y, o)
  {
    TruncatedQuotient(width, height);
    var q := TruncatedAspect(width, height).value;
    CastProduct(q, height, width);
    assert q as real * height as real == ExactAspect(width, height) * height as real;
    assert q as real == ExactAspect(width, height);
  }

  /** Neighbouring pixels' samples are as far apart across as down: with
      the corrected ratio, the same offset one pixel to the right moves as
      far as one pixel down. */
  lemma CameraPlaneSquare(width: nat, height: nat, tanHalf: real, x: nat, y: nat, o: SubPixel)
    requires width > 0 && height > 0
    ensures CameraPlanePointExact(width, height, tanHalf, x + 1, y, o).x - CameraPlanePointExact(width, height, tanHalf, x, y, o).x
            == CameraPlanePointExact(width, height, tanHalf, x, y, o).y - CameraPlanePointExact(width, height, tanHalf, x, y + 1, o).y
  {
    var px, py := x as real + o.dx, y as real + o.dy;
    assert (x + 1) as real + o.dx == px + 1.0;
    assert (y + 1) as real + o.dy == py + 1.0;
    ExactAspectSquarePixels(width, height, tanHalf, px, py);
  }

  /** The truncated ratio gives square pixels only when the height divides
      the width: for a landscape image whose sides do not divide, such as
      800 x 600 (ratio 1 instead of 4/3), the picture is stretched
      vertically. */
  lemma TruncatedAspectSquareIffDivides(width: nat, height: nat, tanHalf: real, px: real, py: real)
    requires 0 < height <= width && tanHalf != 0.0
    ensures var aspect := TruncatedAspect(width, height).value as real;
            aspect > 0.0
            && (ScreenX(width, tanHalf, px + 1.0) - ScreenX(width, tanHalf, px)
                == ScreenY(height, aspect, tanHalf, py) - ScreenY(height, aspect, tanHalf, py + 1.0)
                <==> width % height == 0)
  {
    var q := TruncatedAspect(width, height).value;
    TruncatedQuotient(width, height);
    var aspect := q as real;
    ScreenSpansFieldOfView(width, tanHalf, px);
    ScreenRowHeight(height, aspect, tanHalf, py);
    EqualSteps(width as real, height as real * aspect, tanHalf);
    CastProduct(height, q, width);
  }

  /** For `0 < height <= width` the truncated quotient is at least 1, and
      it is exact precisely when the height divides the width. */
  lemma TruncatedQuotient(width: nat, height: nat)
    requires 0 < height <= width
    ensures var q := TruncatedAspect(width, height).value;
            q >= 1 && (width % height == 0 <==> q * height == width)
  {
    var q := width / height;
    assert width == q * height + width % height;
    MultipleBound(q - 1, height);
    MultipleBound(q, height);
  }

  /** Multiplication commutes with the conversion to `real`. */
  lemma CastProduct(a: int, b: int, c: int)
    ensures a * b == c <==> a as real * b as real == c as real
  {
    assert (a * b) as real == a as real * b as real;
  }

  /** `2 t / a == 2 t / b` exactly when `a == b`, for positive `a`, `b` and
      non-zero `t`. */
  lemma EqualSteps(a: real, b: real, t: real)
    requires a > 0.0 && b > 0.0 && t != 0.0
    ensures 2.0 * t / a == 2.0 * t / b <==> a == b
  {
    if 2.0 * t / a == 2.0 * t / b {
      assert (2.0 * t / a) * a * b == 2.0 * t * b;
      assert (2.0 * t / b) * a * b == 2.0 * t * a;
    }
  }

  /** The concrete cases: 800 x 600 truncates to 1, and any portrait image
      truncates to 0, a ratio the vertical mapping then divides by. */
  lemma TruncatedAspectCounterexamples()
    ensures TruncatedAspect(800, 600) == Some(1)
    ensures ExactAspect(800, 600) * 3.0 == 4.0
    ensures forall width: nat, height: nat :: 0 < width < height ==> TruncatedAspect(width, height) == Some(0)
  {
  }

  // ---------------------------------------------------- anti-aliasing grid

  /** A sample's offset from the pixel's top-left corner, in pixels. */
  datatype SubPixel = SubPixel(dx: real, dy: real)

  /** `pixel_dist`: half a pixel for a single sample, `1 / n` of a pixel on
      an `n x n` grid.  The source tests `n * n != 1`. */
  function PixelSpacing(n: nat): (pd: real)
    requires n >= 1
    ensures n == 1 ==> pd == 0.5
    ensures n > 1 ==> pd * n as real == 1.0
    ensures 0.0 < pd <= 0.5
  {
    if n * n != 1 then 1.0 / n as real else 0.5
  }

  /** The offset of sample `i` in closed form: column `i % n` and row
      `i / n` of the grid, each counted from 1. */
  function SampleOffset(n: nat, i: int): SubPixel
    requires n >= 1 && i >= 0
  {
    var pd := PixelSpacing(n);
    SubPixel(pd * (1 + i % n) as real, pd * (1 + i / n) as real)
  }

  /** The sample loop as written: `x_pixel` and `y_pixel` start at
      `pixel_dist`; after each sample `x_pixel` grows by `pixel_dist`, and
      every `n`-th sample it returns to the first column while `y_pixel`
      moves down a row.  It produces the closed-form offsets. */
  method SampleOffsets(n: nat) returns (offsets: seq<SubPixel>)
    requires n >= 1
    ensures |offsets| == n * n
    ensures forall i :: 0 <= i < n * n ==> offsets[i] == SampleOffset(n, i)
  {
    var pd := PixelSpacing(n);
    var mult := n * n;
    var xPixel, yPixel := pd, pd;
    var turn := 0;
    offsets := [];
    var i := 0;
    while i < mult
      invariant 0 <= i <= mult && turn == i && |offsets| == i
      invariant forall j :: 0 <= j < i ==> offsets[j] == SampleOffset(n, j)
      invariant SubPixel(xPixel, yPixel) == SampleOffset(n, i)
    {
      offsets := offsets + [SubPixel(xPixel, yPixel)];
      SampleStep(n, i, xPixel, yPixel);
      xPixel := xPixel + pd;
      turn := turn + 1;
      if turn % n == 0 {
        xPixel := pd;
        yPixel := yPixel + pd;
      }
      i := i + 1;
    }
  }

  /** One pass of the loop body moves `x_pixel` and `y_pixel` from the
      offset of sample `i` to that of sample `i + 1`. */
  lemma SampleStep(n: nat, i: nat, x: real, y: real)
    requires n >= 1 && SubPixel(x, y) == SampleOffset(n, i)
    ensures var pd := PixelSpacing(n);
            && ((i + 1) % n == 0 ==> SubPixel(pd, y + pd) == SampleOffset(n, i + 1))
            && ((i + 1) % n != 0 ==> SubPixel(x + pd, y) == SampleOffset(n, i + 1))
  {
    ModStep(i, n);
  }

  /** Counting up by one: either the column advances, or it wraps to 0 and
      the row advances. */
  lemma ModStep(i: nat, n: nat)
    requires n >= 1
    ensures (i + 1) % n == 0 ==> (i + 1) / n == i / n + 1
    ensures (i + 1) % n != 0 ==> (i + 1) % n == i % n + 1 && (i + 1) / n == i / n
  {
    var q, r := i / n, i % n;
    assert i == q * n + r && 0 <= r < n;
    if r + 1 == n {
      DivModUnique(i + 1, n, q + 1, 0);
    } else {
      DivModUnique(i + 1, n, q, r + 1);
    }
  }

  /** Euclidean division has only one quotient and remainder. */
  lemma DivModUnique(a: int, n: int, q: int, r: int)
    requires n >= 1 && a == q * n + r && 0 <= r < n
    ensures a / n == q && a % n == r
  {
    var q', r' := a / n, a % n;
    assert a == q' * n + r' && 0 <= r' < n;
    var d := q - q';
    assert d * n == r' - r;
    MultipleBound(d, n);
  }

  /** A non-zero multiple of `n` is at least `n` away from 0. */
  lemma MultipleBound(k: int, n: int)
    requires n >= 1
    ensures k > 0 ==> k * n >= n
    ensures k < 0 ==> k * n <= -n
  {
    if k > 0 {
      NonNegativeProduct(k - 1, n);
      assert (k - 1) * n == k * n - n;
    } else if k < 0 {
      NonNegativeProduct(-k - 1, n);
      assert (-k - 1) * n == -(k * n) - n;
    }
  }

  lemma NonNegativeProduct(a: int, b: int)
    requires a >= 0 && b >= 0
    ensures a * b >= 0
  {
  }

  /** Every sample of the grid lies in the pixel, in `(0, 1]` on both axes
      (the last column and row sit on the far edges). */
  lemma SamplesInPixel(n: nat, i: int)
    requires n >= 1 && 0 <= i < n * n
    ensures var o := SampleOffset(n, i);
            0.0 < o.dx <= 1.0 && 0.0 < o.dy <= 1.0
  {
    var pd := PixelSpacing(n);
    var c, r := i % n, i / n;
    assert i == r * n + c;
    RowInGrid(n, r, c);
    UnitStep(n, pd, 1 + c);
    UnitStep(n, pd, 1 + r);
  }

  /** A sample index below `n * n` is in one of the `n` rows. */
  lemma RowInGrid(n: nat, r: int, c: int)
    requires n >= 1 && 0 <= c < n && 0 <= r * n + c < n * n
    ensures 0 <= r < n
  {
    MultipleBound(r - n, n);
    MultipleBound(r + 1, n);
    assert (r - n) * n == r * n - n * n;
    assert (r + 1) * n == r * n + n;
  }

  /** `pd k` lies in `(0, 1]` for `1 <= k <= n`. */
  lemma UnitStep(n: nat, pd: real, k: int)
    requires n >= 1 && 1 <= k <= n && pd == PixelSpacing(n)
    ensures 0.0 < pd * k as real <= 1.0
  {
    if n == 1 {
      assert k == 1;
    } else {
      assert pd * k as real <= pd * n as real;
    }
  }

  /** Sample `b n + a` is the one in column `a` and row `b`: the `n * n`
      samples cover every cell of the grid. */
  lemma GridCovered(n: nat, a: nat, b: nat)
    requires n >= 1 && a < n && b < n
    ensures b * n + a < n * n
    ensures SampleOffset(n, b * n + a)
            == SubPixel(PixelSpacing(n) * (1 + a) as real, PixelSpacing(n) * (1 + b) as real)
  {
    assert b * n + a < (b + 1) * n <= n * n;
    DivModUnique(b * n + a, n, b, a);
  }

  /** No two samples share a position. */
  lemma SamplesDistinct(n: nat, i: int, j: int)
    requires n >= 1 && 0 <= i < n * n && 0 <= j < n * n && i != j
    ensures SampleOffset(n, i) != SampleOffset(n, j)
  {
    var pd := PixelSpacing(n);
    if SampleOffset(n, i) == SampleOffset(n, j) {
      ScaledEqual(pd, 1 + i % n, 1 + j % n);
      ScaledEqual(pd, 1 + i / n, 1 + j / n);
    }
  }

  lemma ScaledEqual(pd: real, a: int, b: int)
    requires pd > 0.0 && pd * a as real == pd * b as real
    ensures a == b
  {
    assert pd * (a - b) as real == 0.0;
  }

  /** A single sample sits at the centre of the pixel. */
  lemma SingleSampleAtCentre()
    ensures SampleOffset(1, 0) == SubPixel(0.5, 0.5)
  {
  }

  // ------------------------------------------------------------ averaging

  /** The running sum `C += castRay(...)` over the samples, in order. */
  function SumColors(cs: seq<Color>): Color {
    if |cs| == 0 then Black else AddColor(SumColors(cs[..|cs| - 1]), cs[|cs| - 1])
  }

  /** `C / mult`: the box filter over the `n * n` sample colours. */
  function PixelColor(samples: seq<Color>, n: nat): Color
    requires n >= 1 && |samples| == n * n
  {
    DivColor(SumColors(samples), (n * n) as real)
  }

  /** A pixel whose samples all have the same colour gets that colour. */
  lemma UniformPixel(samples: seq<Color>, n: nat, c: Color)
    requires n >= 1 && |samples| == n * n
    requires forall i :: 0 <= i < |samples| ==> samples[i] == c
    ensures PixelColor(samples, n) == c
  {
    UniformSum(samples, c);
    var m := |samples| as real;
    assert m == (n * n) as real && m > 0.0;
    assert (m * c.r) / m == c.r && (m * c.g) / m == c.g && (m * c.b) / m == c.b;
    assert PixelColor(samples, n) == DivColor(Color(m * c.r, m * c.g, m * c.b), m);
  }

  lemma {:induction false} UniformSum(cs: seq<Color>, c: Color)
    requires forall i :: 0 <= i < |cs| ==> cs[i] == c
    ensures SumColors(cs) == Color(|cs| as real * c.r, |cs| as real * c.g, |cs| as real * c.b)
  {
    if |cs| > 0 {
      UniformSum(cs[..|cs| - 1], c);
    }
  }

  /** The average stays within any channel bounds all samples keep. */
  lemma AverageWithinBounds(samples: seq<Color>, n: nat, lo: real, hi: real)
    requires n >= 1 && |samples| == n * n
    requires forall i :: 0 <= i < |samples| ==> InRange(samples[i], lo, hi)
    ensures InRange(PixelColor(samples, n), lo, hi)
  {
    SumBounds(samples, lo, hi);
    var s := SumColors(samples);
    var m := (n * n) as real;
    ChannelAverage(s.r, |samples|, m, lo, hi);
    ChannelAverage(s.g, |samples|, m, lo, hi);
    ChannelAverage(s.b, |samples|, m, lo, hi);
  }

  /** One channel of `AverageWithinBounds`. */
  lemma ChannelAverage(s: real, k: nat, m: real, lo: real, hi: real)
    requires k >= 1 && m == k as real && Times(k, lo) <= s <= Times(k, hi)
    ensures lo <= s / m <= hi
  {
    TimesIsProduct(k, lo);
    TimesIsProduct(k, hi);
    DivideBounds(s, m, lo, hi);
  }

  predicate InRange(c: Color, lo: real, hi: real) {
    lo <= c.r <= hi && lo <= c.g <= hi && lo <= c.b <= hi
  }

  lemma {:induction false} SumBounds(cs: seq<Color>, lo: real, hi: real)
    requires forall i :: 0 <= i < |cs| ==> InRange(cs[i], lo, hi)
    ensures InRange(SumColors(cs), Times(|cs|, lo), Times(|cs|, hi))
  {
    if |cs| > 0 {
      var front := cs[..|cs| - 1];
      assert forall i :: 0 <= i < |front| ==> front[i] == cs[i];
      SumBounds(front, lo, hi);
      assert InRange(cs[|cs| - 1], lo, hi);
    }
  }

  /** `k x` as `k` repeated additions, the way the sum builds up. */
  function Times(k: nat, x: real): real {
    if k == 0 then 0.0 else Times(k - 1, x) + x
  }

  lemma {:induction false} TimesIsProduct(k: nat, x: real)
    ensures Times(k, x) == k as real * x
  {
    if k > 0 {
      TimesIsProduct(k - 1, x);
      assert (k - 1) as real * x + x == k as real * x;
    }
  }

  lemma DivideBounds(s: real, m: real, lo: real, hi: real)
    requires m > 0.0 && m * lo <= s <= m * hi
    ensures lo <= s / m <= hi
  {
    var q := s / m;
    assert q * m == s;
    assert (q - lo) * m == s - m * lo;
    assert (hi - q) * m == m * hi - s;
    NonNegativeFactor(q - lo, m);
    NonNegativeFactor(hi - q, m);
  }

  /** A factor of a non-negative product with a positive factor is
      non-negative. */
  lemma NonNegativeFactor(x: real, y: real)
    requires y > 0.0 && x * y >= 0.0
    ensures x >= 0.0
  {
  }

  // ---------------------------------------------------------------- pixel

  /** The colours `castRay` returns for the grid samples, in loop order. */
  function Samples(n: nat, shade: SubPixel -> Color): (cs: seq<Color>)
    requires n >= 1
    ensures |cs| == n * n
  {
    seq(n * n, i requires 0 <= i => shade(SampleOffset(n, i)))
  }

  /** One pixel as the loop computes it: walk the grid, add up the shades
      of the samples, and divide by the number of samples.  The shading of
      a sample (the camera ray and `castRay`) is the parameter `shade`. */
  method RenderPixel(n: nat, shade: SubPixel -> Color) returns (c: Color)
    requires n >= 1
    ensures c == PixelColor(Samples(n, shade), n)
  {
    var offsets := SampleOffsets(n);
    var sum := Black;
    var i := 0;
    while i < n * n
      invariant 0 <= i <= n * n
      invariant sum == SumColors(Samples(n, shade)[..i])
    {
      var all := Samples(n, shade);
      assert all[..i + 1][..i] == all[..i];
      sum := AddColor(sum, shade(offsets[i]));
      i := i + 1;
    }
    assert Samples(n, shade)[..n * n] == Samples(n, shade);
    c := DivColor(sum, (n * n) as real);
  }
}
