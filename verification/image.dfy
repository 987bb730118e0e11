/**
 * Image buffers as nested sequences of 8-bit samples, and the white-pixel
 * ratio that turns a binary frame into a coverage figure
 * (`white_pixel_ratio` in sawdust_watcher/detection.py).
 */
module Image {

  /** One unsigned 8-bit sample, as stored by a `uint8` array. */
  type Byte = x: int | 0 <= x <= 255

  /** The "on" value of a binary frame. */
  const White: Byte := 255

  /** A single-channel (grayscale or binary) frame, row-major. */
  type Gray = seq<seq<Byte>>

  /** One pixel of a 3-channel frame, in OpenCV's blue-green-red channel order. */
  datatype Bgr = Bgr(b: Byte, g: Byte, r: Byte)

  /** A 3-channel color frame, row-major. */
  type Color = seq<seq<Bgr>>

  /** Number of columns: the length of the first row, 0 for a frame without rows. */
  function Width<T>(img: seq<seq<T>>): nat
  {
    if |img| == 0 then 0 else |img[0]|
  }

  /** Every row has the same length, as in any 2-D array. */
  predicate Rect<T>(img: seq<seq<T>>)
  {
    forall i :: 0 <= i < |img| ==> |img[i]| == Width(img)
  }

  /** Two frames have the same number of rows and columns. */
  predicate SameShape<T, U>(a: seq<seq<T>>, b: seq<seq<U>>)
  {
    Rect(a) && Rect(b) && |a| == |b| && Width(a) == Width(b)
  }

  /** Number of cells of a frame (the array's `size` for one channel). */
  function Size<T>(img: seq<seq<T>>): nat
  {
    |img| * Width(img)
  }

  /** Every cell is 0 or 255. */
  predicate Binary(img: Gray)
  {
    forall i, j :: 0 <= i < |img| && 0 <= j < |img[i]| ==> img[i][j] == 0 || img[i][j] == White
  }

  /** Every cell (a sample or a whole pixel) holds the value `v`. */
  predicate Filled<T(==)>(img: seq<seq<T>>, v: T)
  {
    forall i, j :: 0 <= i < |img| && 0 <= j < |img[i]| ==> img[i][j] == v
  }

  /** The cells of a frame in row-major order, as numpy's `ravel` lists them. */
  function Flatten<T>(img: seq<seq<T>>): seq<T>
  {
    if |img| == 0 then [] else Flatten(img[..|img| - 1]) + img[|img| - 1]
  }

  /** Number of cells equal to 255 in one row. */
  function CountRow(row: seq<Byte>): (n: nat)
    ensures n <= |row|
  {
    if |row| == 0 then 0
    else CountRow(row[..|row| - 1]) + (if row[|row| - 1] == White then 1 else 0)
  }

  /** Number of cells equal to 255 in a frame. */
  function CountWhite(img: Gray): nat
  {
    if |img| == 0 then 0
    else CountWhite(img[..|img| - 1]) + CountRow(img[|img| - 1])
  }

  /**
   * A coverage ratio kept as the exact fraction `white / total`.  A `total`
   * of 0 stands for the floating-point NaN that 0/0 produces for an empty
   * array; every ordered comparison with it is false.
   */
  datatype Ratio = Ratio(white: nat, total: nat)
  {
    predicate IsNaN() { total == 0 }

    /** The number the floating-point division stands for. */
    function Value(): real
      requires !IsNaN()
    {
      white as real / total as real
    }
  }

  /** The fraction of cells equal to 255. */
  function WhitePixelRatio(img: Gray): (r: Ratio)
    requires Rect(img)
    ensures r.white == multiset(Flatten(img))[White]
    ensures r.total == |Flatten(img)| == |img| * Width(img)
    ensures r.white <= r.total
    ensures r.IsNaN() <==> |img| == 0 || Width(img) == 0
  {
    CountWhiteBound(img);
    CountWhiteIsMultiplicity(img);
    FlattenSize(img);
    Ratio(CountWhite(img), Size(img))
  }

  /** The row count is the number of occurrences of 255 in the row. */
  lemma {:induction false} CountRowIsMultiplicity(row: seq<Byte>)
    ensures CountRow(row) == multiset(row)[White]
  {
    if |row| > 0 {
      var init := row[..|row| - 1];
      CountRowIsMultiplicity(init);
      assert row == init + [row[|row| - 1]];
    }
  }

  /** The frame count is the number of occurrences of 255 among all cells. */
  lemma {:induction false} CountWhiteIsMultiplicity(img: Gray)
    ensures CountWhite(img) == multiset(Flatten(img))[White]
  {
    if |img| > 0 {
      CountWhiteIsMultiplicity(img[..|img| - 1]);
      CountRowIsMultiplicity(img[|img| - 1]);
    }
  }

  /** A rectangular frame has rows × columns cells. */
  lemma {:induction false} FlattenSize<T>(img: seq<seq<T>>)
    requires Rect(img)
    ensures |Flatten(img)| == |img| * Width(img)
  {
    if |img| > 0 {
      var init := img[..|img| - 1];
      assert Rect(init) && (|init| > 0 ==> Width(init) == Width(img));
      FlattenSize(init);
      var w := Width(img);
      assert |init| * Width(init) == (|img| - 1) * w;
      assert (|img| - 1) * w + w == |img| * w;
    }
  }

  lemma {:induction false} CountRowNone(row: seq<Byte>)
    ensures CountRow(row) == 0 <==> forall j :: 0 <= j < |row| ==> row[j] != White
  {
    if |row| > 0 {
      var init := row[..|row| - 1];
      CountRowNone(init);
      assert forall j :: 0 <= j < |init| ==> init[j] == row[j];
    }
  }

  lemma {:induction false} CountRowAll(row: seq<Byte>)
    ensures CountRow(row) == |row| <==> forall j :: 0 <= j < |row| ==> row[j] == White
  {
    if |row| > 0 {
      var init := row[..|row| - 1];
      CountRowAll(init);
      assert forall j :: 0 <= j < |init| ==> init[j] == row[j];
    }
  }

  /** A frame never has more white cells than cells. */
  lemma {:induction false} CountWhiteBound(img: Gray)
    requires Rect(img)
    ensures CountWhite(img) <= |img| * Width(img)
  {
    if |img| > 0 {
      var init := img[..|img| - 1];
      assert Rect(init) && (|init| > 0 ==> Width(init) == Width(img));
      CountWhiteBound(init);
      var w := Width(img);
      assert |init| * Width(init) == (|img| - 1) * w;
      assert (|img| - 1) * w + w == |img| * w;
    }
  }

  /** The white count is zero exactly when no cell is 255. */
  lemma {:induction false} CountWhiteZero(img: Gray)
    ensures CountWhite(img) == 0 <==>
      forall i, j :: 0 <= i < |img| && 0 <= j < |img[i]| ==> img[i][j] != White
  {
    if |img| > 0 {
      var init := img[..|img| - 1];
      CountWhiteZero(init);
      CountRowNone(img[|img| - 1]);
      assert forall i :: 0 <= i < |init| ==> init[i] == img[i];
    }
  }

  /** In a rectangular frame the white count equals the cell count exactly when every cell is 255. */
  lemma {:induction false} CountWhiteFull(img: Gray)
    requires Rect(img)
    ensures CountWhite(img) == |img| * Width(img) <==> Filled(img, White)
  {
    if |img| > 0 {
      var init := img[..|img| - 1];
      var last := img[|img| - 1];
      assert Rect(init) && (|init| > 0 ==> Width(init) == Width(img));
      assert forall i :: 0 <= i < |init| ==> init[i] == img[i];
      CountWhiteFull(init);
      CountWhiteBound(init);
      CountRowAll(last);
      assert |init| * Width(init) == (|img| - 1) * Width(img);
      assert |img| * Width(img) == (|img| - 1) * Width(img) + |last|;
    }
  }

  /** The coverage of a non-empty frame lies in [0, 1], is 0 without white cells and 1 when all are white. */
  lemma CoverageBounds(img: Gray)
    requires Rect(img) && |img| > 0 && Width(img) > 0
    ensures !WhitePixelRatio(img).IsNaN()
    ensures 0.0 <= WhitePixelRatio(img).Value() <= 1.0
    ensures WhitePixelRatio(img).Value() == 0.0 <==>
      forall i, j :: 0 <= i < |img| && 0 <= j < |img[i]| ==> img[i][j] != White
    ensures WhitePixelRatio(img).Value() == 1.0 <==> Filled(img, White)
  {
    var r := WhitePixelRatio(img);
    CountWhiteZero(img);
    CountWhiteFull(img);
    FractionBounds(r.white, r.total);
  }

  /** Facts about a fraction w / t of naturals with w <= t. */
  lemma FractionBounds(w: nat, t: nat)
    requires 0 < t && w <= t
    ensures 0.0 <= w as real / t as real <= 1.0
    ensures w as real / t as real == 0.0 <==> w == 0
    ensures w as real / t as real == 1.0 <==> w == t
  {
    var q := w as real / t as real;
    assert q * t as real == w as real;
  }

  /** One white cell in each row of a three-row frame gives three white cells. */
  lemma {:induction false} ThreeRowCount(img: Gray)
    requires |img| == 3
    requires CountRow(img[0]) == 1 && CountRow(img[1]) == 1 && CountRow(img[2]) == 1
    ensures CountWhite(img) == 3
  {
    assert img[..2][..1][..0] == [];
    assert img[..2][..1][0] == img[0] && img[..2][1] == img[1];
    assert CountWhite(img[..2][..1]) == 1;
    assert CountWhite(img[..2]) == 2;
  }

  /** A three-sample row with its single 255 at position `k`. */
  lemma {:induction false} OneWhiteRow(row: seq<Byte>, k: nat)
    requires |row| == 3 && k < 3 && row[k] == White
    requires forall m :: 0 <= m < 3 && m != k ==> row[m] == 0
    ensures CountRow(row) == 1
  {
    assert row[..2][..1] == row[..1] && row[..1][..0] == [];
    assert CountRow(row[..1]) == (if k == 0 then 1 else 0);
    assert CountRow(row[..2]) == (if k <= 1 then 1 else 0);
  }

  /** The 3x3 diagonal frame has one white cell in three. */
  lemma DiagonalRatio()
    ensures WhitePixelRatio([[255, 0, 0], [0, 255, 0], [0, 0, 255]]) == Ratio(3, 9)
    ensures WhitePixelRatio([[255, 0, 0], [0, 255, 0], [0, 0, 255]]).Value() == 1.0 / 3.0
  {
    var img: Gray := [[255, 0, 0], [0, 255, 0], [0, 0, 255]];
    OneWhiteRow(img[0], 0);
    OneWhiteRow(img[1], 1);
    OneWhiteRow(img[2], 2);
    ThreeRowCount(img);
    assert Size(img) == 9;
  }
}
