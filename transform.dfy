/** The two public transforms as functions of the four images an engine
    holds: Hit-or-Miss ANDs a foreground scan with a background scan, and
    Boundary Extraction removes the Hit-or-Miss result from the image. */
module Transform {
  import opened Images
  import opened Validation
  import opened SetAlgebra
  import opened Scanner

  /** The four images of an engine. */
  datatype Config = Config(image: Image, kernelForeground: Image, kernelBackground: Image, hitHighlight: Image)

  /** Every stored image has been accepted: non-empty and binary. */
  predicate AcceptableConfig(c: Config) {
    Acceptable(c.image) && Acceptable(c.kernelForeground)
    && Acceptable(c.kernelBackground) && Acceptable(c.hitHighlight)
  }

  /** Both scans are taken over the whole image and combined pixel by pixel
      afterwards, not window by window. */
  ghost function HitOrMissOf(c: Config): (r: Result<Image>)
    ensures r.Failure? <==> SizeCheck(c.kernelForeground, c.kernelBackground).Fail?
    ensures r.Failure? ==> r.error == WrongSize
    ensures r.Success? ==> SameSize(r.value, c.image) && IsBinary(r.value)
  {
    if SizeCheck(c.kernelForeground, c.kernelBackground).Fail? then
      Failure(WrongSize)
    else
      Success(Pointwise(And, Scan(c.image, c.kernelForeground, c.hitHighlight, true),
                             Scan(c.image, c.kernelBackground, c.hitHighlight, false)))
  }

  ghost function BoundaryExtractionOf(c: Config): (r: Result<Image>)
    ensures r.Failure? <==> SizeCheck(c.kernelForeground, c.kernelBackground).Fail?
    ensures r.Failure? ==> r.error == WrongSize
    ensures r.Success? ==> SameSize(r.value, c.image) && BlackSet(r.value) <= BlackSet(c.image)
  {
    match HitOrMissOf(c)
    case Failure(e) => Failure(e)
    case Success(h) =>
      SubtractIsDifference(c.image, h);
      Success(Pointwise(Subtract, c.image, h))
  }

  /** A pixel survives Hit-or-Miss exactly when both scans marked it. */
  lemma HitOrMissIsIntersection(c: Config)
    requires SizeCheck(c.kernelForeground, c.kernelBackground).Pass?
    ensures HitOrMissOf(c).Success?
    ensures BlackSet(HitOrMissOf(c).value) ==
      BlackSet(Scan(c.image, c.kernelForeground, c.hitHighlight, true))
      * BlackSet(Scan(c.image, c.kernelBackground, c.hitHighlight, false))
  {
    AndIsIntersection(Scan(c.image, c.kernelForeground, c.hitHighlight, true),
                      Scan(c.image, c.kernelBackground, c.hitHighlight, false));
  }

  /** The boundary is the image's black set minus what Hit-or-Miss marked. */
  lemma BoundaryIsDifference(c: Config)
    requires SizeCheck(c.kernelForeground, c.kernelBackground).Pass?
    ensures BoundaryExtractionOf(c).Success? && HitOrMissOf(c).Success?
    ensures BlackSet(BoundaryExtractionOf(c).value) == BlackSet(c.image) - BlackSet(HitOrMissOf(c).value)
  {
    SubtractIsDifference(c.image, HitOrMissOf(c).value);
  }

  /** With a 1x1 black background element (the default) and a highlight that
      is 1x1 or stamps its first cell, the background scan marks everything and
      Hit-or-Miss is just the foreground scan. */
  lemma BlackDotBackgroundIsNeutral(c: Config)
    requires c.kernelBackground.rows == 1 && c.kernelBackground.cols == 1
    requires c.kernelBackground.px[0][0] == Black
    requires IsPoint(c.hitHighlight) || (!Empty(c.hitHighlight) && c.hitHighlight.px[0][0] == Black)
    ensures HitOrMissOf(c) == Success(Scan(c.image, c.kernelForeground, c.hitHighlight, true))
  {
    var fg := Scan(c.image, c.kernelForeground, c.hitHighlight, true);
    BlackDotBackgroundMarksAll(c.image, c.kernelBackground, c.hitHighlight);
    AndWithBlackIsIdentity(fg);
  }
}
