/**
 * Morphological closing of a single-channel frame with an all-ones square
 * kernel (`cv.morphologyEx` with `MORPH_CLOSE`).  With OpenCV's default
 * border value, pixels outside the frame never win a maximum or a minimum,
 * so each window is simply clipped to the frame.  A kernel of odd size
 * `2 * h + 1` has its anchor in the centre, so the window of `(i, j)` holds
 * the cells at most `h` rows and `h` columns away.
 */
module Morphology {
  import opened Image

  /** `a` lies within `h` of `i`. */
  predicate Near(a: int, i: int, h: nat)
  {
    i - h <= a <= i + h
  }

  /** First index of the clipped window around `i`. */
  function Lo(i: nat, h: nat): nat
  {
    if i >= h then i - h else 0
  }

  /** Last index of the clipped window around `i` in a dimension of length `n`. */
  function Hi(i: nat, h: nat, n: nat): nat
    requires i < n
  {
    if i + h < n then i + h else n - 1
  }

  /** The clipped window around `i` is exactly the in-range indices near `i`. */
  lemma WindowRange(i: nat, h: nat, n: nat)
    requires i < n
    ensures var lo, hi := Lo(i, h), Hi(i, h, n);
      forall a: int :: lo <= a <= hi <==> 0 <= a < n && Near(a, i, h)
  {
  }

  /** Largest of `row[lo..hi]`, both ends included. */
  function RangeMax(row: seq<Byte>, lo: nat, hi: nat): (m: Byte)
    requires lo <= hi < |row|
    ensures forall b :: lo <= b <= hi ==> row[b] <= m
    ensures exists b :: lo <= b <= hi && row[b] == m
    decreases hi - lo
  {
    if lo == hi then row[lo]
    else
      var rest := RangeMax(row, lo, hi - 1);
      if row[hi] > rest then row[hi] else rest
  }

  /** Largest cell of rows `r0..r1` and columns `c0..c1`, all ends included. */
  function BoxMax(img: Gray, r0: nat, r1: nat, c0: nat, c1: nat): (m: Byte)
    requires Rect(img) && r0 <= r1 < |img| && c0 <= c1 < Width(img)
    ensures forall a, b :: r0 <= a <= r1 && c0 <= b <= c1 ==> img[a][b] <= m
    ensures exists a, b :: r0 <= a <= r1 && c0 <= b <= c1 && img[a][b] == m
    decreases r1 - r0
  {
    var last := RangeMax(img[r1], c0, c1);
    if r0 == r1 then last
    else
      var rest := BoxMax(img, r0, r1 - 1, c0, c1);
      if last > rest then last else rest
  }

  /** Largest cell within `h` rows and `h` columns of `(i, j)`. */
  function WindowMax(img: Gray, i: nat, j: nat, h: nat): (m: Byte)
    requires Rect(img) && i < |img| && j < Width(img)
    ensures forall a, b :: 0 <= a < |img| && 0 <= b < Width(img) && Near(a, i, h) && Near(b, j, h) ==> img[a][b] <= m
    ensures exists a, b :: 0 <= a < |img| && 0 <= b < Width(img) && Near(a, i, h) && Near(b, j, h) && img[a][b] == m
  {
    WindowRange(i, h, |img|);
    WindowRange(j, h, Width(img));
    BoxAttained(img, i, j, h);
    BoxMax(img, Lo(i, h), Hi(i, h, |img|), Lo(j, h), Hi(j, h, Width(img)))
  }

  lemma BoxAttained(img: Gray, i: nat, j: nat, h: nat)
    requires Rect(img) && i < |img| && j < Width(img)
    ensures exists a, b ::
      && 0 <= a < |img| && 0 <= b < Width(img) && Near(a, i, h) && Near(b, j, h)
      && img[a][b] == BoxMax(img, Lo(i, h), Hi(i, h, |img|), Lo(j, h), Hi(j, h, Width(img)))
  {
    var r0, r1, c0, c1 := Lo(i, h), Hi(i, h, |img|), Lo(j, h), Hi(j, h, Width(img));
    WindowRange(i, h, |img|);
    WindowRange(j, h, Width(img));
    var a, b :| r0 <= a <= r1 && c0 <= b <= c1 && img[a][b] == BoxMax(img, r0, r1, c0, c1);
    assert Near(a, i, h) && Near(b, j, h);
  }

  /** The photographic negative of a frame. */
  function Invert(img: Gray): (r: Gray)
    requires Rect(img)
    ensures SameShape(r, img)
    ensures forall i, j :: 0 <= i < |r| && 0 <= j < |r[i]| ==> r[i][j] == 255 - img[i][j]
  {
    var w := Width(img);
    seq(|img|, i requires 0 <= i < |img| =>
      seq(w, j requires 0 <= j < w => 255 - img[i][j]))
  }

  /** Smallest cell within `h` rows and `h` columns of `(i, j)`, via the negative. */
  function WindowMin(img: Gray, i: nat, j: nat, h: nat): (m: Byte)
    requires Rect(img) && i < |img| && j < Width(img)
    ensures forall a, b :: 0 <= a < |img| && 0 <= b < Width(img) && Near(a, i, h) && Near(b, j, h) ==> m <= img[a][b]
    ensures exists a, b :: 0 <= a < |img| && 0 <= b < Width(img) && Near(a, i, h) && Near(b, j, h) && img[a][b] == m
  {
    var neg := Invert(img);
    var m := WindowMax(neg, i, j, h);
    assert forall a, b :: 0 <= a < |img| && 0 <= b < Width(img) ==> neg[a][b] == 255 - img[a][b];
    255 - m
  }

  /** Dilation: each cell becomes the largest cell of its clipped window. */
  function Dilate(img: Gray, h: nat): (r: Gray)
    requires Rect(img)
    ensures SameShape(r, img)
    ensures forall i, j :: 0 <= i < |r| && 0 <= j < Width(r) ==> r[i][j] == WindowMax(img, i, j, h)
  {
    var w := Width(img);
    seq(|img|, i requires 0 <= i < |img| =>
      seq(w, j requires 0 <= j < w => WindowMax(img, i, j, h)))
  }

  /** Erosion: each cell becomes the smallest cell of its clipped window. */
  function Erode(img: Gray, h: nat): (r: Gray)
    requires Rect(img)
    ensures SameShape(r, img)
    ensures forall i, j :: 0 <= i < |r| && 0 <= j < Width(r) ==> r[i][j] == WindowMin(img, i, j, h)
  {
    var w := Width(img);
    seq(|img|, i requires 0 <= i < |img| =>
      seq(w, j requires 0 <= j < w => WindowMin(img, i, j, h)))
  }

  /** `n` dilations in a row. */
  function DilateN(img: Gray, h: nat, n: nat): (r: Gray)
    requires Rect(img)
    ensures SameShape(r, img)
    decreases n
  {
    if n == 0 then img else DilateN(Dilate(img, h), h, n - 1)
  }

  /** `n` erosions in a row. */
  function ErodeN(img: Gray, h: nat, n: nat): (r: Gray)
    requires Rect(img)
    ensures SameShape(r, img)
    decreases n
  {
    if n == 0 then img else ErodeN(Erode(img, h), h, n - 1)
  }

  /**
   * Closing with `n` iterations: OpenCV dilates `n` times and then erodes
   * `n` times (it does not alternate the two).
   */
  function Close(img: Gray, h: nat, n: nat): (r: Gray)
    requires Rect(img)
    ensures SameShape(r, img)
  {
    ErodeN(DilateN(img, h, n), h, n)
  }

  /** `a` is nowhere brighter than `b`, and both have one shape. */
  predicate Below(a: Gray, b: Gray)
  {
    SameShape(a, b) &&
    forall i, j :: 0 <= i < |a| && 0 <= j < |a[i]| ==> a[i][j] <= b[i][j]
  }

  // ---------------------------------------------------------------------------
  // Binary frames stay binary, constant frames stay constant
  // ---------------------------------------------------------------------------

  /** Dilation only ever copies a cell of the window. */
  lemma DilateKeeps(img: Gray, h: nat, v: Byte)
    requires Rect(img)
    ensures Binary(img) ==> Binary(Dilate(img, h))
    ensures Filled(img, v) ==> Filled(Dilate(img, h), v)
  {
    var d := Dilate(img, h);
    forall i, j | 0 <= i < |img| && 0 <= j < Width(img)
      ensures exists a, b :: 0 <= a < |img| && 0 <= b < Width(img) && img[a][b] == d[i][j]
    {
      // the window maximum is attained at some cell of the window
      assert d[i][j] == WindowMax(img, i, j, h);
    }
  }

  /** Erosion only ever copies a cell of the window. */
  lemma ErodeKeeps(img: Gray, h: nat, v: Byte)
    requires Rect(img)
    ensures Binary(img) ==> Binary(Erode(img, h))
    ensures Filled(img, v) ==> Filled(Erode(img, h), v)
  {
    var e := Erode(img, h);
    forall i, j | 0 <= i < |img| && 0 <= j < Width(img)
      ensures exists a, b :: 0 <= a < |img| && 0 <= b < Width(img) && img[a][b] == e[i][j]
    {
      // the window minimum is attained at some cell of the window
      assert e[i][j] == WindowMin(img, i, j, h);
    }
  }

  lemma {:induction false} DilateNKeeps(img: Gray, h: nat, n: nat, v: Byte)
    requires Rect(img)
    ensures Binary(img) ==> Binary(DilateN(img, h, n))
    ensures Filled(img, v) ==> Filled(DilateN(img, h, n), v)
    decreases n
  {
    if n > 0 {
      var d := Dilate(img, h);
      DilateKeeps(img, h, v);
      DilateNKeeps(d, h, n - 1, v);
    }
  }

  lemma ErodeNKeeps(img: Gray, h: nat, n: nat, v: Byte)
    requires Rect(img)
    ensures Binary(img) ==> Binary(ErodeN(img, h, n))
    ensures Filled(img, v) ==> Filled(ErodeN(img, h, n), v)
  {
    if Binary(img) {
      ErodeNBinary(img, h, n);
    }
    if Filled(img, v) {
      ErodeNFilled(img, h, n, v);
    }
  }

  lemma {:induction false} ErodeNBinary(img: Gray, h: nat, n: nat)
    requires Rect(img) && Binary(img)
    ensures Binary(ErodeN(img, h, n))
    decreases n
  {
    if n > 0 {
      var e := Erode(img, h);
      ErodeKeeps(img, h, 0);
      ErodeNBinary(e, h, n - 1);
    }
  }

  lemma {:induction false} ErodeNFilled(img: Gray, h: nat, n: nat, v: Byte)
    requires Rect(img) && Filled(img, v)
    ensures Filled(ErodeN(img, h, n), v)
    decreases n
  {
    if n > 0 {
      var e := Erode(img, h);
      ErodeKeeps(img, h, v);
      ErodeNFilled(e, h, n - 1, v);
    }
  }

  /** Closing maps a binary frame to a binary frame and a constant frame to itself. */
  lemma CloseKeeps(img: Gray, h: nat, n: nat, v: Byte)
    requires Rect(img)
    ensures Binary(img) ==> Binary(Close(img, h, n))
    ensures Filled(img, v) ==> Filled(Close(img, h, n), v)
  {
    DilateNKeeps(img, h, n, v);
    ErodeNKeeps(DilateN(img, h, n), h, n, v);
  }

  // ---------------------------------------------------------------------------
  // Closing never darkens a cell
  // ---------------------------------------------------------------------------

  /** One cell of the erosion of `x` is at most the same cell of the erosion of a brighter `y`. */
  lemma ErodeMonotoneCell(x: Gray, y: Gray, h: nat, i: nat, j: nat)
    requires Below(x, y) && i < |x| && j < Width(x)
    ensures WindowMin(x, i, j, h) <= WindowMin(y, i, j, h)
  {
    assert SameShape(x, y);
    var m := WindowMin(y, i, j, h);
    // the cell of y where its minimum is attained
    var a, b :| 0 <= a < |y| && 0 <= b < Width(y) && Near(a, i, h) && Near(b, j, h) && y[a][b] == m;
    WindowMinCovers(x, i, j, h, a, b);
    assert x[a][b] <= y[a][b];
  }

  /** The window minimum is at most every cell within reach. */
  lemma WindowMinCovers(x: Gray, i: nat, j: nat, h: nat, a: nat, b: nat)
    requires Rect(x) && i < |x| && j < Width(x) && a < |x| && b < Width(x)
    requires Near(a, i, h) && Near(b, j, h)
    ensures WindowMin(x, i, j, h) <= x[a][b]
  {
  }

  /** Erosion is monotone. */
  lemma ErodeMonotone(x: Gray, y: Gray, h: nat)
    requires Below(x, y)
    ensures Below(Erode(x, h), Erode(y, h))
  {
    var ex, ey := Erode(x, h), Erode(y, h);
    forall i, j | 0 <= i < |ex| && 0 <= j < |ex[i]|
      ensures ex[i][j] <= ey[i][j]
    {
      ErodeMonotoneCell(x, y, h, i, j);
    }
  }

  lemma {:induction false} ErodeNMonotone(x: Gray, y: Gray, h: nat, n: nat)
    requires Below(x, y)
    ensures Below(ErodeN(x, h, n), ErodeN(y, h, n))
    decreases n
  {
    if n > 0 {
      ErodeMonotone(x, y, h);
      ErodeNMonotone(Erode(x, h), Erode(y, h), h, n - 1);
    }
  }

  /** One cell of `x` is at most the same cell after a dilation and an erosion. */
  lemma ErodeDilateCell(x: Gray, h: nat, i: nat, j: nat)
    requires Rect(x) && i < |x| && j < Width(x)
    ensures x[i][j] <= WindowMin(Dilate(x, h), i, j, h)
  {
    var d := Dilate(x, h);
    forall a, b | 0 <= a < |d| && 0 <= b < Width(d) && Near(a, i, h) && Near(b, j, h)
      ensures x[i][j] <= d[a][b]
    {
      assert Near(i, a, h) && Near(j, b, h);
      WindowMaxCovers(x, a, b, h, i, j);
    }
    MinOfDominating(x, d, h, i, j);
  }

  /** A cell below every cell of its window in `d` is below the window minimum of `d`. */
  lemma MinOfDominating(x: Gray, d: Gray, h: nat, i: nat, j: nat)
    requires SameShape(d, x) && i < |x| && j < Width(x)
    requires forall a, b :: 0 <= a < |d| && 0 <= b < Width(d) && Near(a, i, h) && Near(b, j, h) ==> x[i][j] <= d[a][b]
    ensures x[i][j] <= WindowMin(d, i, j, h)
  {
    var m := WindowMin(d, i, j, h);
    // the cell of d where the minimum is attained
    var a, b :| 0 <= a < |d| && 0 <= b < Width(d) && Near(a, i, h) && Near(b, j, h) && d[a][b] == m;
  }

  /** A cell is at most the window maximum of every centre within reach. */
  lemma WindowMaxCovers(x: Gray, a: nat, b: nat, h: nat, i: nat, j: nat)
    requires Rect(x) && a < |x| && b < Width(x) && i < |x| && j < Width(x)
    requires Near(i, a, h) && Near(j, b, h)
    ensures x[i][j] <= WindowMax(x, a, b, h)
  {
  }

  /** Eroding a dilation gives back at least the original. */
  lemma ErodeDilateAbove(x: Gray, h: nat)
    requires Rect(x)
    ensures Below(x, Erode(Dilate(x, h), h))
  {
    var e := Erode(Dilate(x, h), h);
    forall i, j | 0 <= i < |x| && 0 <= j < |x[i]|
      ensures x[i][j] <= e[i][j]
    {
      ErodeDilateCell(x, h, i, j);
    }
  }

  /** The last of `n` dilations can be peeled off the outside. */
  lemma {:induction false} DilateNLast(x: Gray, h: nat, n: nat)
    requires Rect(x) && n > 0
    ensures DilateN(x, h, n) == Dilate(DilateN(x, h, n - 1), h)
    decreases n
  {
    if n > 1 {
      DilateNLast(Dilate(x, h), h, n - 1);
    }
  }

  lemma BelowTransitive(x: Gray, y: Gray, z: Gray)
    requires Below(x, y) && Below(y, z)
    ensures Below(x, z)
  {
  }

  /** Closing is extensive: every cell of the closed frame is at least the original cell. */
  lemma {:induction false} CloseExtensive(x: Gray, h: nat, n: nat)
    requires Rect(x)
    ensures Below(x, Close(x, h, n))
    decreases n
  {
    if n > 0 {
      var dn := DilateN(x, h, n - 1);
      DilateNLast(x, h, n);
      // E^n (D^n x) = E^(n-1) (E (D (D^(n-1) x))) and E (D y) >= y
      ErodeDilateAbove(dn, h);
      ErodeNMonotone(dn, Erode(Dilate(dn, h), h), h, n - 1);
      CloseExtensive(x, h, n - 1);
      BelowTransitive(x, Close(x, h, n - 1), Close(x, h, n));
    }
  }

  // ---------------------------------------------------------------------------
  // A brighter frame has at least as many white cells
  // ---------------------------------------------------------------------------

  lemma {:induction false} CountRowMonotone(x: seq<Byte>, y: seq<Byte>)
    requires |x| == |y| && forall j :: 0 <= j < |x| ==> x[j] <= y[j]
    ensures CountRow(x) <= CountRow(y)
  {
    if |x| > 0 {
      CountRowMonotone(x[..|x| - 1], y[..|y| - 1]);
    }
  }

  /** Brightening cells never removes a white cell. */
  lemma {:induction false} CountWhiteMonotone(x: Gray, y: Gray)
    requires Below(x, y)
    ensures CountWhite(x) <= CountWhite(y)
  {
    if |x| > 0 {
      var x', y' := x[..|x| - 1], y[..|y| - 1];
      assert Below(x', y') by {
        assert forall i :: 0 <= i < |x'| ==> x'[i] == x[i] && y'[i] == y[i];
      }
      CountWhiteMonotone(x', y');
      CountRowMonotone(x[|x| - 1], y[|y| - 1]);
    }
  }
}
