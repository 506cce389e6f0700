/** The two checks every image passes through before the engine keeps it:
    the emptiness check with binarisation, and the size check of a companion
    element against the foreground element. */
module Validation {
  import opened Images

  /** Both are thrown as std::invalid_argument; they differ in the message. */
  datatype Error =
    | EmptyImage  // "The uploaded image was empty"
    | WrongSize   // "The uploaded images have wrong size"

  /** The value of an operation that may throw. */
  datatype Result<T> = Success(value: T) | Failure(error: Error) {
    predicate IsFailure() {
      Failure?
    }

    function PropagateFailure<U>(): Result<U>
      requires Failure?
    {
      Failure(error)
    }

    function Extract(): T
      requires Success?
    {
      value
    }
  }

  /** The outcome of an operation that may throw and returns nothing. */
  datatype Outcome = Pass | Fail(error: Error) {
    predicate IsFailure() {
      Fail?
    }

    function PropagateFailure<U>(): Result<U>
      requires Fail?
    {
      Failure(error)
    }
  }

  /** Fixed-level binary thresholding at ThresholdValue with maximum White. */
  function Binarize(src: Image): (dst: Image)
    ensures SameSize(dst, src) && IsBinary(dst)
    ensures forall i, j | 0 <= i < src.rows && 0 <= j < src.cols ::
      dst.px[i][j] == White <==> src.px[i][j] > ThresholdValue
  {
    Mat(src.rows, src.cols,
        seq(src.rows, i requires 0 <= i < src.rows =>
          seq(src.cols, j requires 0 <= j < src.cols =>
            if src.px[i][j] > ThresholdValue then White else Black)))
  }

  /** Rejects an empty image, binarises any other one. The 8-bit single-channel
      assertion is carried by the Pixel type. */
  function TypeCheck(src: Image): (r: Result<Image>)
    ensures r.Failure? <==> Empty(src)
    ensures r.Failure? ==> r.error == EmptyImage
    ensures r.Success? ==> Acceptable(r.value) && r.value == Binarize(src)
  {
    if Empty(src) then
      Failure(EmptyImage)
    else
      Success(Binarize(src))
  }

  /** `check` must have the dimensions of `origin`, unless it is at most 1x1. */
  function SizeCheck(origin: Image, check: Image): (r: Outcome)
    ensures r.Fail? ==> r.error == WrongSize
    ensures r.Pass? <==> (check.rows <= 1 && check.cols <= 1) || SameSize(check, origin)
  {
    if check.cols > 1 || check.rows > 1 then
      if check.rows != origin.rows || check.cols != origin.cols then Fail(WrongSize) else Pass
    else
      Pass
  }

  /** Thresholding leaves a binary image as it is. */
  lemma BinarizeFixesBinary(img: Image)
    requires IsBinary(img)
    ensures Binarize(img) == img
  {
    Extensionality(Binarize(img), img);
  }

  /** Accepting an image already accepted changes nothing. */
  lemma TypeCheckIdempotent(src: Image)
    requires !Empty(src)
    ensures TypeCheck(TypeCheck(src).value) == TypeCheck(src)
  {
    BinarizeFixesBinary(Binarize(src));
  }
}
