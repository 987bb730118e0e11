/**
 * The per-pixel and neighbourhood stages that `detect` in
 * sawdust_watcher/detection.py delegates to OpenCV: median denoising,
 * saturating subtraction, grayscale conversion and binary thresholding.
 */
module Filters {
  import opened Image

  // ---------------------------------------------------------------------------
  // Median denoising (`cv.medianBlur`)
  // ---------------------------------------------------------------------------

  /** Number of samples that are at most `v`. */
  function CountAtMost(vals: seq<Byte>, v: int): (n: nat)
    ensures n <= |vals|
  {
    if |vals| == 0 then 0
    else CountAtMost(vals[..|vals| - 1], v) + (if vals[|vals| - 1] <= v then 1 else 0)
  }

  lemma {:induction false} CountAtMostTop(vals: seq<Byte>, v: int)
    requires v >= 255
    ensures CountAtMost(vals, v) == |vals|
  {
    if |vals| > 0 {
      CountAtMostTop(vals[..|vals| - 1], v);
    }
  }

  /**
   * The lower median of an odd-sized sample: the least value that more than
   * half of the samples are at most.  For `n` samples this is the sample of
   * rank `n / 2` in sorted order.
   */
  function Median(vals: seq<Byte>): (m: Byte)
    requires |vals| > 0
    ensures 2 * CountAtMost(vals, m) > |vals|
    ensures forall v :: 0 <= v < m ==> 2 * CountAtMost(vals, v) <= |vals|
  {
    MedianFrom(vals, 0)
  }

  /** Search for the median upward from `v`, below which no value qualifies. */
  function MedianFrom(vals: seq<Byte>, v: Byte): (m: Byte)
    requires |vals| > 0
    requires forall u :: 0 <= u < v ==> 2 * CountAtMost(vals, u) <= |vals|
    ensures v <= m
    ensures 2 * CountAtMost(vals, m) > |vals|
    ensures forall u :: 0 <= u < m ==> 2 * CountAtMost(vals, u) <= |vals|
    decreases 255 - v
  {
    CountAtMostTop(vals, 255);
    if 2 * CountAtMost(vals, v) > |vals| || v == 255 then v
    else MedianFrom(vals, v + 1)
  }

  lemma {:induction false} CountAtMostConstant(vals: seq<Byte>, c: Byte, v: int)
    requires forall t :: 0 <= t < |vals| ==> vals[t] == c
    ensures CountAtMost(vals, v) == if c <= v then |vals| else 0
  {
    if |vals| > 0 {
      CountAtMostConstant(vals[..|vals| - 1], c, v);
    }
  }

  /** The median of a constant sample is that constant. */
  lemma MedianOfConstant(vals: seq<Byte>, c: Byte)
    requires |vals| > 0
    requires forall t :: 0 <= t < |vals| ==> vals[t] == c
    ensures Median(vals) == c
  {
    var m := Median(vals);
    CountAtMostConstant(vals, c, m);
    CountAtMostConstant(vals, c, c);
  }

  lemma {:induction false} CountAtMostSkip(vals: seq<Byte>, v: int)
    requires forall t :: 0 <= t < |vals| ==> vals[t] != v
    ensures CountAtMost(vals, v) == CountAtMost(vals, v - 1)
  {
    if |vals| > 0 {
      CountAtMostSkip(vals[..|vals| - 1], v);
    }
  }

  /** The median is one of the samples, so it lies between their minimum and maximum. */
  lemma MedianIsSample(vals: seq<Byte>)
    requires |vals| > 0
    ensures exists t :: 0 <= t < |vals| && vals[t] == Median(vals)
  {
    var m := Median(vals);
    if forall t :: 0 <= t < |vals| ==> vals[t] != m {
      CountAtMostSkip(vals, m);
      if m == 0 {
        CountAtMostNegative(vals, -1);
      }
      assert false;
    }
  }

  lemma {:induction false} CountAtMostNegative(vals: seq<Byte>, v: int)
    requires v < 0
    ensures CountAtMost(vals, v) == 0
  {
    if |vals| > 0 {
      CountAtMostNegative(vals[..|vals| - 1], v);
    }
  }

  /** `x` clamped into `[0, n)`: the replicated border of OpenCV's `BORDER_REPLICATE`. */
  function Clamp(x: int, n: nat): (c: nat)
    requires n > 0
    ensures c < n
    ensures 0 <= x < n ==> c == x
  {
    if x < 0 then 0 else if x >= n then n - 1 else x
  }

  /** One channel of a pixel: 0 is blue, 1 green, 2 red. */
  function Channel(p: Bgr, ch: nat): Byte
    requires ch < 3
  {
    if ch == 0 then p.b else if ch == 1 then p.g else p.r
  }

  /**
   * The `k * k` samples of channel `ch` in the square centred on `(i, j)`,
   * row-major, with coordinates outside the frame replaced by the nearest
   * border coordinate.
   */
  function Neighbourhood(img: Color, i: nat, j: nat, k: nat, ch: nat): (w: seq<Byte>)
    requires Rect(img) && i < |img| && j < Width(img) && 0 < k && ch < 3
    ensures |w| == k * k
  {
    var h := k / 2;
    seq(k * k, t requires 0 <= t < k * k =>
      Channel(img[Clamp(i + t / k - h, |img|)][Clamp(j + t % k - h, Width(img))], ch))
  }

  /**
   * Median filter with a `k * k` aperture, each channel on its own.  OpenCV
   * accepts only a positive odd aperture.
   */
  function MedianBlur(img: Color, k: int): (r: Color)
    requires Rect(img) && k > 0 && k % 2 == 1
    ensures SameShape(r, img)
  {
    seq(|img|, i requires 0 <= i < |img| =>
      seq(Width(img), j requires 0 <= j < Width(img) =>
        Bgr(Median(Neighbourhood(img, i, j, k, 0)),
            Median(Neighbourhood(img, i, j, k, 1)),
            Median(Neighbourhood(img, i, j, k, 2)))))
  }

  /** In a uniform frame every neighbourhood holds one value. */
  lemma NeighbourhoodUniform(img: Color, i: nat, j: nat, k: nat, ch: nat, p: Bgr)
    requires Rect(img) && i < |img| && j < Width(img) && 0 < k && ch < 3
    requires Filled(img, p)
    ensures forall t :: 0 <= t < k * k ==> Neighbourhood(img, i, j, k, ch)[t] == Channel(p, ch)
  {
  }

  /** Denoising a uniform frame gives the same frame back. */
  lemma MedianBlurUniform(img: Color, k: int, p: Bgr)
    requires Rect(img) && k > 0 && k % 2 == 1
    requires Filled(img, p)
    ensures MedianBlur(img, k) == img
  {
    var r := MedianBlur(img, k);
    forall i | 0 <= i < |img|
      ensures r[i] == img[i]
    {
      forall j | 0 <= j < Width(img)
        ensures r[i][j] == img[i][j]
      {
        forall ch | 0 <= ch < 3
          ensures Median(Neighbourhood(img, i, j, k, ch)) == Channel(p, ch)
        {
          NeighbourhoodUniform(img, i, j, k, ch, p);
          MedianOfConstant(Neighbourhood(img, i, j, k, ch), Channel(p, ch));
        }
        assert r[i][j] == Bgr(Channel(p, 0), Channel(p, 1), Channel(p, 2));
      }
    }
  }

  // ---------------------------------------------------------------------------
  // Saturating difference (`cv.subtract` on 8-bit arrays)
  // ---------------------------------------------------------------------------

  /** `a - b` clamped at zero, as 8-bit saturating arithmetic does. */
  function SatSub(a: Byte, b: Byte): (d: Byte)
    ensures d <= a
    ensures d + b >= a
    ensures d == 0 <==> a <= b
    ensures b <= a ==> d + b == a
  {
    if a >= b then a - b else 0
  }

  /** Channel-wise saturating difference of two pixels. */
  function PixelSub(p: Bgr, q: Bgr): (d: Bgr)
    ensures forall ch :: 0 <= ch < 3 ==> Channel(d, ch) == SatSub(Channel(p, ch), Channel(q, ch))
  {
    Bgr(SatSub(p.b, q.b), SatSub(p.g, q.g), SatSub(p.r, q.r))
  }

  /** Pixel-wise saturating difference of two frames of the same shape. */
  function Subtract(x: Color, y: Color): (d: Color)
    requires SameShape(x, y)
    ensures SameShape(d, x)
    ensures forall i, j :: 0 <= i < |d| && 0 <= j < |d[i]| ==> d[i][j] == PixelSub(x[i][j], y[i][j])
  {
    seq(|x|, i requires 0 <= i < |x| =>
      seq(Width(x), j requires 0 <= j < Width(x) => PixelSub(x[i][j], y[i][j])))
  }

  /** A frame minus itself is black. */
  lemma SubtractSelf(x: Color)
    requires Rect(x)
    ensures Filled(Subtract(x, x), Bgr(0, 0, 0))
  {
  }

  // ---------------------------------------------------------------------------
  // Grayscale conversion (`cv.cvtColor` with `COLOR_BGR2GRAY`)
  // ---------------------------------------------------------------------------

  /**
   * Luma of one pixel.  The body uses the standard weights 0.114, 0.587 and
   * 0.299 in 14-bit fixed point with rounding; the contracts and every lemma
   * rely only on the result being a byte that equals the common value of a
   * gray pixel.
   */
  function Luma(p: Bgr): (y: Byte)
    ensures p.b == p.g == p.r ==> y == p.b
  {
    LumaBound(p);
    (p.b * 1868 + p.g * 9617 + p.r * 4899 + 8192) / 16384
  }

  lemma LumaBound(p: Bgr)
    ensures 0 <= (p.b * 1868 + p.g * 9617 + p.r * 4899 + 8192) / 16384 <= 255
    ensures p.b == p.g == p.r ==> (p.b * 1868 + p.g * 9617 + p.r * 4899 + 8192) / 16384 == p.b
  {
    var s := p.b * 1868 + p.g * 9617 + p.r * 4899;
    assert s <= 255 * 16384;
    if p.b == p.g == p.r {
      assert s == p.b * 16384;
    }
  }

  /** Grayscale frame of a color frame. */
  function Grayscale(img: Color): (g: Gray)
    requires Rect(img)
    ensures SameShape(g, img)
    ensures forall i, j :: 0 <= i < |g| && 0 <= j < |g[i]| ==> g[i][j] == Luma(img[i][j])
  {
    seq(|img|, i requires 0 <= i < |img| =>
      seq(Width(img), j requires 0 <= j < Width(img) => Luma(img[i][j])))
  }

  /** A black color frame has a black grayscale frame. */
  lemma GrayscaleOfBlack(img: Color)
    requires Rect(img) && Filled(img, Bgr(0, 0, 0))
    ensures Filled(Grayscale(img), 0)
  {
  }

  // ---------------------------------------------------------------------------
  // Binary threshold (`cv.threshold` with `THRESH_BINARY` and maximum 255)
  // ---------------------------------------------------------------------------

  /** Cells strictly above `t` become 255, all others 0. */
  function Threshold(g: Gray, t: int): (b: Gray)
    requires Rect(g)
    ensures SameShape(b, g)
    ensures Binary(b)
    ensures forall i, j :: 0 <= i < |b| && 0 <= j < |b[i]| ==> (b[i][j] == White <==> g[i][j] > t)
  {
    seq(|g|, i requires 0 <= i < |g| =>
      seq(Width(g), j requires 0 <= j < Width(g) => if g[i][j] > t then White else 0))
  }

  /** Thresholding a binary frame again at any level below 255 leaves it unchanged. */
  lemma ThresholdIdempotent(g: Gray, t: int, t': int)
    requires Rect(g) && 0 <= t' < 255
    ensures Threshold(Threshold(g, t), t') == Threshold(g, t)
  {
    var b := Threshold(g, t);
    var b' := Threshold(b, t');
    assert |b'| == |b|;
    forall i | 0 <= i < |b| ensures b'[i] == b[i] {
      assert |b'[i]| == |b[i]|;
    }
  }

  /** A black frame stays black under any non-negative threshold. */
  lemma ThresholdOfBlack(g: Gray, t: int)
    requires Rect(g) && Filled(g, 0) && t >= 0
    ensures Filled(Threshold(g, t), 0)
  {
  }
}
