/** The engine object: four stored images, replaced wholesale by the
    constructors, the setters and assignment, and read by the two transforms. */
module Engine {
  import opened Images
  import opened Validation
  import opened SetAlgebra
  import opened Scanner
  import opened Transform

  /** Sizes of the default images. */
  const DefaultImageDimension: nat := 200
  const DefaultKernelForeground: nat := 3
  const DefaultKernelBackground: nat := 1
  const DefaultHitHighlight: nat := 1

  /** A white 200x200 image, a black 3x3 foreground element, a black 1x1
      background element and a black 1x1 highlight. */
  function DefaultConfig(): (c: Config)
    ensures AcceptableConfig(c)
    ensures c.image.rows == c.image.cols == 200 && c.kernelForeground.rows == c.kernelForeground.cols == 3
    ensures c.kernelBackground.rows == c.kernelBackground.cols == 1 && IsPoint(c.hitHighlight)
  {
    Config(Filled(DefaultImageDimension, DefaultImageDimension, White),
           Filled(DefaultKernelForeground, DefaultKernelForeground, Black),
           Filled(DefaultKernelBackground, DefaultKernelBackground, Black),
           Filled(DefaultHitHighlight, DefaultHitHighlight, Black))
  }

  /** What the copy constructor as written produces from an engine: the
      background element lands in the foreground slot and the background slot
      keeps an empty matrix. */
  function CopiedAsWritten(rhs: Config): Config {
    Config(rhs.image, rhs.kernelBackground, Mat(0, 0, []), rhs.hitHighlight)
  }

  /** The copy as written is no copy: it breaks the engine's invariant. */
  lemma CopyAsWrittenLosesBackground(c: Config)
    requires AcceptableConfig(c)
    ensures CopiedAsWritten(c) != c && !AcceptableConfig(CopiedAsWritten(c))
  {
  }

  /** On the default engine the 3x3 black element finds no window in the
      white image: Hit-or-Miss and Boundary Extraction are both all white. */
  lemma DefaultEngineYieldsWhite()
    ensures HitOrMissOf(DefaultConfig()) == Success(Filled(200, 200, White))
    ensures BoundaryExtractionOf(DefaultConfig()) == Success(Filled(200, 200, White))
  {
    var c := DefaultConfig();
    forall r, c' | InRange(c.image, c.kernelForeground, r, c')
      ensures !WindowHit(c.image, c.kernelForeground, true, r, c')
    {
      assert !CellMatches(c.image, c.kernelForeground, true, r, c', 0, 0);
    }
    var fg := Scan(c.image, c.kernelForeground, c.hitHighlight, true);
    Extensionality(fg, Filled(200, 200, White));
    BlackDotBackgroundIsNeutral(c);
    var h := HitOrMissOf(c).value;
    Extensionality(Pointwise(Subtract, c.image, h), Filled(200, 200, White));
  }

  class HitOrMiss {
    var image: Image
    var kernelForeground: Image
    var kernelBackground: Image
    var hitHighlight: Image

    /** The four stored images as one value. */
    function State(): Config
      reads this
    {
      Config(image, kernelForeground, kernelBackground, hitHighlight)
    }

    ghost predicate Valid()
      reads this
    {
      AcceptableConfig(State())
    }

    /** The element a scan in the given role uses. */
    function Kernel(foreground: bool): Image
      reads this
    {
      if foreground then kernelForeground else kernelBackground
    }

    // ---- construction ----

    constructor ()
      ensures Valid() && State() == DefaultConfig()
    {
      image := Filled(DefaultImageDimension, DefaultImageDimension, White);
      kernelForeground := Filled(DefaultKernelForeground, DefaultKernelForeground, Black);
      kernelBackground := Filled(DefaultKernelBackground, DefaultKernelBackground, Black);
      hitHighlight := Filled(DefaultHitHighlight, DefaultHitHighlight, Black);
    }

    /** From an image; the elements keep their defaults. */
    static method WithImage(image: Image) returns (r: Result<HitOrMiss>)
      ensures r.Failure? <==> Empty(image)
      ensures r.Failure? ==> r.error == EmptyImage
      ensures r.Success? ==>
        (fresh(r.value) && r.value.Valid() && r.value.State() == DefaultConfig().(image := Binarize(image)))
    {
      var engine := new HitOrMiss();
      var checked :- TypeCheck(image);
      engine.image := checked;
      r := Success(engine);
    }

    /** From an image and a foreground element. */
    static method WithForeground(image: Image, kernelForeground: Image) returns (r: Result<HitOrMiss>)
      ensures r.Failure? <==> Empty(image) || Empty(kernelForeground)
      ensures r.Failure? ==> r.error == EmptyImage
      ensures r.Success? ==>
        (fresh(r.value) && r.value.Valid()
         && r.value.State() == DefaultConfig().(image := Binarize(image), kernelForeground := Binarize(kernelForeground)))
    {
      var engine :- WithImage(image);
      var checked :- TypeCheck(kernelForeground);
      engine.kernelForeground := checked;
      r := Success(engine);
    }

    /** From an image and both elements; the background element is size-checked
        against the foreground element before it is type-checked. */
    static method WithBackground(image: Image, kernelForeground: Image, kernelBackground: Image)
      returns (r: Result<HitOrMiss>)
      ensures r.Failure? <==>
        Empty(image) || Empty(kernelForeground)
        || SizeCheck(kernelForeground, kernelBackground).Fail? || Empty(kernelBackground)
      ensures r.Failure? ==>
        (r.error == if !Empty(image) && !Empty(kernelForeground) && SizeCheck(kernelForeground, kernelBackground).Fail?
                    then WrongSize else EmptyImage)
      ensures r.Success? ==>
        (fresh(r.value) && r.value.Valid()
         && r.value.State() == DefaultConfig().(image := Binarize(image),
              kernelForeground := Binarize(kernelForeground), kernelBackground := Binarize(kernelBackground)))
    {
      var engine :- WithForeground(image, kernelForeground);
      :- SizeCheck(engine.kernelForeground, kernelBackground);
      var checked :- TypeCheck(kernelBackground);
      engine.kernelBackground := checked;
      r := Success(engine);
    }

    /** From all four images; both companions are size-checked. An engine built
        this way can always run both transforms. */
    static method WithHighlight(image: Image, kernelForeground: Image, kernelBackground: Image, hitHighlight: Image)
      returns (r: Result<HitOrMiss>)
      ensures r.Failure? <==>
        Empty(image) || Empty(kernelForeground)
        || SizeCheck(kernelForeground, kernelBackground).Fail? || Empty(kernelBackground)
        || SizeCheck(kernelForeground, hitHighlight).Fail? || Empty(hitHighlight)
      ensures r.Failure? ==>
        (r.error == if Empty(image) || Empty(kernelForeground) then EmptyImage
                    else if SizeCheck(kernelForeground, kernelBackground).Fail? then WrongSize
                    else if Empty(kernelBackground) then EmptyImage
                    else if SizeCheck(kernelForeground, hitHighlight).Fail? then WrongSize
                    else EmptyImage)
      ensures r.Success? ==>
        (fresh(r.value) && r.value.Valid()
         && r.value.State() == Config(Binarize(image), Binarize(kernelForeground),
                                      Binarize(kernelBackground), Binarize(hitHighlight))
         && HighlightFits(r.value.hitHighlight, r.value.kernelForeground)
         && SizeCheck(r.value.kernelForeground, r.value.kernelBackground).Pass?)
    {
      var engine :- WithBackground(image, kernelForeground, kernelBackground);
      // the repeated background check always passes once construction got here
      assert SizeCheck(engine.kernelForeground, kernelBackground).Pass?;
      :- SizeCheck(engine.kernelForeground, hitHighlight);
      var checked :- TypeCheck(hitHighlight);
      engine.hitHighlight := checked;
      r := Success(engine);
    }

    /** The copy constructor as written (see CopiedAsWritten). */
    constructor CopyAsWritten(rhs: HitOrMiss)
      ensures State() == CopiedAsWritten(rhs.State())
    {
      image := rhs.image;
      kernelForeground := rhs.kernelForeground;
      kernelForeground := rhs.kernelBackground;
      kernelBackground := Mat(0, 0, []);
      hitHighlight := rhs.hitHighlight;
    }

    /** The copy constructor as intended: a copy of all four images. */
    constructor Copy(rhs: HitOrMiss)
      requires rhs.Valid()
      ensures Valid() && State() == rhs.State()
    {
      image := rhs.image;
      kernelForeground := rhs.kernelForeground;
      kernelBackground := rhs.kernelBackground;
      hitHighlight := rhs.hitHighlight;
    }

    /** Assignment: the engine takes the other engine's four images. In the
        model images are values; the buffer sharing of the source's matrix
        assignment is not captured. */
    method Assign(rhs: HitOrMiss)
      modifies this
      ensures State() == old(rhs.State())
      ensures rhs != this ==> rhs.State() == old(rhs.State())
      ensures old(rhs.Valid()) ==> Valid()
    {
      if this == rhs {
        return;
      }
      image := rhs.image;
      kernelForeground := rhs.kernelForeground;
      kernelBackground := rhs.kernelBackground;
      hitHighlight := rhs.hitHighlight;
    }

    // ---- setters: each replaces its own image only, and nothing on a throw ----

    method SetImage(lhs: Image) returns (r: Outcome)
      requires Valid()
      modifies this
      ensures Valid()
      ensures r.Fail? <==> Empty(lhs)
      ensures r.Fail? ==> r.error == EmptyImage && State() == old(State())
      ensures r.Pass? ==> State() == old(State()).(image := Binarize(lhs))
    {
      var checked := TypeCheck(lhs);
      if checked.Failure? {
        return Fail(checked.error);
      }
      image := checked.value;
      r := Pass;
    }

    method SetKernelForeground(lhs: Image) returns (r: Outcome)
      requires Valid()
      modifies this
      ensures Valid()
      ensures r.Fail? <==> Empty(lhs)
      ensures r.Fail? ==> r.error == EmptyImage && State() == old(State())
      ensures r.Pass? ==> State() == old(State()).(kernelForeground := Binarize(lhs))
    {
      var checked := TypeCheck(lhs);
      if checked.Failure? {
        return Fail(checked.error);
      }
      kernelForeground := checked.value;
      r := Pass;
    }

    /** Size-checked against the current foreground element first. */
    method SetKernelBackground(lhs: Image) returns (r: Outcome)
      requires Valid()
      modifies this
      ensures Valid()
      ensures r.Fail? <==> SizeCheck(old(kernelForeground), lhs).Fail? || Empty(lhs)
      ensures r.Fail? ==> State() == old(State())
      ensures r.Fail? ==> r.error == if SizeCheck(old(kernelForeground), lhs).Fail? then WrongSize else EmptyImage
      ensures r.Pass? ==> State() == old(State()).(kernelBackground := Binarize(lhs))
    {
      r := SizeCheck(kernelForeground, lhs);
      if r.Fail? {
        return;
      }
      var checked := TypeCheck(lhs);
      if checked.Failure? {
        return Fail(checked.error);
      }
      kernelBackground := checked.value;
      r := Pass;
    }

    /** Not size-checked. */
    method SetHitHighlight(lhs: Image) returns (r: Outcome)
      requires Valid()
      modifies this
      ensures Valid()
      ensures r.Fail? <==> Empty(lhs)
      ensures r.Fail? ==> r.error == EmptyImage && State() == old(State())
      ensures r.Pass? ==> State() == old(State()).(hitHighlight := Binarize(lhs))
    {
      var checked := TypeCheck(lhs);
      if checked.Failure? {
        return Fail(checked.error);
      }
      hitHighlight := checked.value;
      r := Pass;
    }

    // ---- getters ----

    function GetImage(): (img: Image)
      reads this
      requires Valid()
      ensures img == image && Acceptable(img)
    {
      image
    }

    function GetKernelForeground(): (img: Image)
      reads this
      requires Valid()
      ensures img == kernelForeground && Acceptable(img)
    {
      kernelForeground
    }

    function GetKernelBackground(): (img: Image)
      reads this
      requires Valid()
      ensures img == kernelBackground && Acceptable(img)
    {
      kernelBackground
    }

    function GetHitHighlight(): (img: Image)
      reads this
      requires Valid()
      ensures img == hitHighlight && Acceptable(img)
    {
      hitHighlight
    }

    // ---- the transforms ----

    /** Slides the element of the given role over the image and stamps every
        hit into a fresh white buffer. */
    method MaskMatching(foreground: bool) returns (dst: Image, ghost tested: set<(int, int)>)
      requires Valid() && HighlightFits(hitHighlight, Kernel(foreground))
      ensures tested == Windows(image, Kernel(foreground))
      ensures dst == Scan(image, Kernel(foreground), hitHighlight, foreground)
    {
      var kernel := if foreground then kernelForeground else kernelBackground;
      var img, hl := image, hitHighlight;
      var buf := new Pixel[img.rows, img.cols]((_, _) => White);
      var maskRow := 0;
      tested := {};
      while maskRow <= img.rows - kernel.rows
        invariant 0 <= maskRow && (img.rows >= kernel.rows ==> maskRow <= img.rows - kernel.rows + 1)
        invariant forall r, c :: (r, c) in tested <==> InRange(img, kernel, r, c) && r < maskRow
        invariant forall pr, pc | 0 <= pr < img.rows && 0 <= pc < img.cols ::
          buf[pr, pc] == if MarkedBefore(img, kernel, hl, foreground, maskRow, 0, pr, pc) then Black else White
      {
        var maskCol := 0;
        while maskCol <= img.cols - kernel.cols
          invariant 0 <= maskCol && (img.cols >= kernel.cols ==> maskCol <= img.cols - kernel.cols + 1)
          invariant forall r, c :: (r, c) in tested <==>
            InRange(img, kernel, r, c) && (r < maskRow || (r == maskRow && c < maskCol))
          invariant forall pr, pc | 0 <= pr < img.rows && 0 <= pc < img.cols ::
            buf[pr, pc] == if MarkedBefore(img, kernel, hl, foreground, maskRow, maskCol, pr, pc) then Black else White
        {
          var hit := WindowMatches(img, kernel, foreground, maskRow, maskCol);
          if hit {
            StampHit(buf, img, kernel, hl, maskRow, maskCol);
          }
          MarkedBeforeStep(img, kernel, hl, foreground, maskRow, maskCol);
          tested := tested + {(maskRow, maskCol)};
          maskCol := maskCol + 1;
        }
        MarkedBeforeNextRow(img, kernel, hl, foreground, maskRow, maskCol);
        maskRow := maskRow + 1;
      }
      MarkedBeforeAll(img, kernel, hl, foreground, maskRow);
      forall p ensures p in tested <==> p in Windows(img, kernel) {
        var r, c := p.0, p.1;
        assert p == (r, c);
        assert (r, c) in tested <==> InRange(img, kernel, r, c) && r < maskRow;
        assert (r, c) in Windows(img, kernel) <==> InRange(img, kernel, r, c);
      }
      dst := Snapshot(buf);
      Extensionality(dst, Scan(img, kernel, hl, foreground));
    }

    /** ANDs the foreground scan with the background scan, once the background
        element has passed the size check. */
    method DoHitOrMiss() returns (r: Result<Image>)
      requires Valid() && (SizeCheck(kernelForeground, kernelBackground).Pass? ==> HighlightFits(hitHighlight, kernelForeground))
      ensures r == HitOrMissOf(State())
    {
      var sizes := SizeCheck(kernelForeground, kernelBackground);
      if sizes.Fail? {
        return Failure(sizes.error);
      }
      var dstForeground, _ := MaskMatching(true);
      var dstBackground, _ := MaskMatching(false);
      r := AndOperation(dstForeground, dstBackground);
    }

    /** Removes the Hit-or-Miss result from the image. */
    method DoBoundaryExtraction() returns (r: Result<Image>)
      requires Valid() && (SizeCheck(kernelForeground, kernelBackground).Pass? ==> HighlightFits(hitHighlight, kernelForeground))
      ensures r == BoundaryExtractionOf(State())
    {
      var sizes := SizeCheck(kernelForeground, kernelBackground);
      if sizes.Fail? {
        return Failure(sizes.error);
      }
      var hitOrMiss := DoHitOrMiss();
      r := SubstractionOperation(image, hitOrMiss.value);
    }
  }
}
