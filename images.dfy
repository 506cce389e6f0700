/** Single-channel 8-bit raster images, the values every part of the engine
    reads and produces. A matrix keeps its own dimensions, so an image with
    zero rows still has a column count, as a matrix of the imaging library does. */
module Images {

  /** One 8-bit unsigned intensity. */
  type Pixel = x: int | 0 <= x < 256

  /** Pixel codes of a binary image: black is "member of the set". */
  const Black: Pixel := 0
  const White: Pixel := 255

  /** Pixels strictly above this value binarise to white. */
  const ThresholdValue: Pixel := 127

  /** Row-major pixel storage with explicit dimensions. */
  datatype Mat = Mat(rows: nat, cols: nat, px: seq<seq<Pixel>>) {
    predicate WellFormed() {
      |px| == rows && forall i | 0 <= i < rows :: |px[i]| == cols
    }
  }

  /** A rectangular matrix: `rows` rows of `cols` pixels each. */
  type Image = m: Mat | m.WellFormed() witness Mat(0, 0, [])

  /** An image without any pixel. */
  predicate Empty(img: Image) {
    img.rows == 0 || img.cols == 0
  }

  predicate SameSize(a: Image, b: Image) {
    a.rows == b.rows && a.cols == b.cols
  }

  /** Every pixel is one of the two codes. */
  predicate IsBinary(img: Image) {
    forall i, j | 0 <= i < img.rows && 0 <= j < img.cols :: img.px[i][j] == Black || img.px[i][j] == White
  }

  /** What every image an engine stores satisfies once it has been accepted. */
  predicate Acceptable(img: Image) {
    !Empty(img) && IsBinary(img)
  }

  /** An image of the given size with every pixel `v`. */
  function Filled(rows: nat, cols: nat, v: Pixel): (img: Image)
    ensures img.rows == rows && img.cols == cols
    ensures forall i, j | 0 <= i < rows && 0 <= j < cols :: img.px[i][j] == v
  {
    Mat(rows, cols, seq(rows, _ => seq(cols, _ => v)))
  }

  /** The photographic negative: every intensity v becomes 255 - v. */
  function Invert(img: Image): (neg: Image)
    ensures SameSize(neg, img)
    ensures forall i, j | 0 <= i < img.rows && 0 <= j < img.cols :: neg.px[i][j] as int + img.px[i][j] as int == 255
  {
    Mat(img.rows, img.cols,
        seq(img.rows, i requires 0 <= i < img.rows =>
          seq(img.cols, j requires 0 <= j < img.cols => 255 - img.px[i][j])))
  }

  /** The coordinates of the black pixels: the set a binary image stands for. */
  function BlackSet(img: Image): set<(int, int)> {
    set i, j | 0 <= i < img.rows && 0 <= j < img.cols && img.px[i][j] == Black :: (i, j)
  }

  /** The current contents of an output buffer, as an image. */
  function Snapshot(a: array2<Pixel>): (img: Image)
    reads a
    ensures img.rows == a.Length0 && img.cols == a.Length1
    ensures forall i, j | 0 <= i < a.Length0 && 0 <= j < a.Length1 :: img.px[i][j] == a[i, j]
  {
    Mat(a.Length0, a.Length1,
        seq(a.Length0, i requires 0 <= i < a.Length0 reads a =>
          seq(a.Length1, j requires 0 <= j < a.Length1 reads a => a[i, j])))
  }

  /** Two images of the same size with the same pixels are the same image. */
  lemma Extensionality(a: Image, b: Image)
    requires SameSize(a, b)
    requires forall i, j | 0 <= i < a.rows && 0 <= j < a.cols :: a.px[i][j] == b.px[i][j]
    ensures a == b
  {
    assert forall i | 0 <= i < a.rows :: a.px[i] == b.px[i];
  }

  lemma BlackSetMember(img: Image, i: int, j: int)
    requires 0 <= i < img.rows && 0 <= j < img.cols
    ensures (i, j) in BlackSet(img) <==> img.px[i][j] == Black
  {
  }

  lemma BlackSetBounds(img: Image, p: (int, int))
    requires p in BlackSet(img)
    ensures 0 <= p.0 < img.rows && 0 <= p.1 < img.cols && img.px[p.0][p.1] == Black
  {
  }

  /** A binary image is determined by its size and its set of black pixels. */
  lemma BinaryDeterminedByBlackSet(a: Image, b: Image)
    requires SameSize(a, b) && IsBinary(a) && IsBinary(b)
    requires BlackSet(a) == BlackSet(b)
    ensures a == b
  {
    forall i, j | 0 <= i < a.rows && 0 <= j < a.cols
      ensures a.px[i][j] == b.px[i][j]
    {
      BlackSetMember(a, i, j);
      BlackSetMember(b, i, j);
    }
    Extensionality(a, b);
  }
}
