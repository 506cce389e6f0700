# Hit-or-Miss engine, modelled in Dafny

This project models `HitOrMiss`, a binary-image morphology engine. An engine stores four single-channel 8-bit images:

- the image to process;
- a foreground structuring element;
- a background structuring element;
- a "hit highlight" element, which says which pixels to mark when a window matches.

Every image the engine accepts is first checked for emptiness and then binarised at threshold 127. Black (0) means "in the set" and white (255) means "not in the set".

The engine offers two transforms:

- **Hit-or-Miss** slides each element over the image without padding and stamps black into a fresh white image wherever a window matches. In the foreground role white element cells are ignored; in the background role black element cells are ignored. It then ANDs the two scans.
- **Boundary Extraction** removes the Hit-or-Miss result from the image.

The project has six modules:

- `Images`: the pixel type, matrices with explicit dimensions, black sets and negatives.
- `Validation`: the emptiness check with binarisation (`TypeCheck`), the size check (`SizeCheck`), and the two `std::invalid_argument` errors they raise, modelled as `Result`/`Outcome` values.
- `SetAlgebra`: the three pointwise operations. Each is a method that fills an `array2` buffer cell by cell, proved equal to a pointwise specification function. Lemmas give their set meaning.
- `Scanner`: the sliding-window matcher.
  - One window test with early exit (`WindowMatches`).
  - One stamp (`StampHit`).
  - The declarative specification `Scan` (black exactly where some window that fits, matches and stamps).
  - The loop-progress lemmas and the window-range lemmas.
- `Transform`: both transforms as functions of the four stored images.
- `Engine`: the class `HitOrMiss`. It has the four fields, the default constructor, the 1-to-4-argument constructors, copy, assignment, setters, getters and the two transforms. `MaskMatching` keeps the source's four nested loops and is proved equal to `Scan`.

Two choices in how the source is rendered:

- The throwing 1-to-4-argument constructors become static factory methods returning `Result<HitOrMiss>`. They chain like the delegating C++ constructors.
- A thrown `std::invalid_argument` becomes a `Failure`/`Fail` value. Its message tells the two errors apart: `EmptyImage` or `WrongSize`.

Where the header's documentation and the code disagree, the model follows the code:

- The default constructor's doc comment (prj.lib/include/hitOrMiss/hit_or_miss.hpp:37) calls the default background element 3x3. The constant at hit_or_miss.hpp:223 and the default constructor (prj.lib/hit_or_miss.cpp:8) build a 1x1 black one. The model uses 1x1.
- The doc comment of `set_hit_highlight` asks for the foreground element's size, but the code does not check it. The model does not check it either: `SetHitHighlight` accepts any non-empty image.

## Model

| member | source | states |
|---|---|---|
| Validation.Binarize | prj.lib/hit_or_miss.cpp:221 | same size, binary, and a pixel is white exactly when the input pixel exceeds 127 |
| Validation.TypeCheck | prj.lib/hit_or_miss.cpp:214-224 | fails, with the empty-image error, exactly on an empty image; otherwise returns the binarised image, which is non-empty and binary |
| Validation.SizeCheck | prj.lib/hit_or_miss.cpp:226-230 | passes exactly when the checked image is at most 1x1 or has the origin's dimensions; a failure is the wrong-size error |
| Validation.BinarizeFixesBinary | prj.lib/hit_or_miss.cpp:221 | thresholding a binary image returns it unchanged |
| Validation.TypeCheckIdempotent | prj.lib/hit_or_miss.cpp:214-224 | re-checking an accepted image returns the same result |
| SetAlgebra.Pointwise | prj.lib/hit_or_miss.cpp:154 | the result has the left operand's size and is binary |
| SetAlgebra.AndOperation | prj.lib/hit_or_miss.cpp:150-167 | wrong-size failure when the size check fails, else the pointwise AND of the operands |
| SetAlgebra.OrOperation | prj.lib/hit_or_miss.cpp:169-186 | wrong-size failure when the size check fails, else the pointwise OR of the operands |
| SetAlgebra.SubstractionOperation | prj.lib/hit_or_miss.cpp:188-211 | wrong-size failure when the size check fails, else the pointwise difference of the operands |
| SetAlgebra.AndIsIntersection | prj.lib/hit_or_miss.cpp:158-163 | the black set of AND is the intersection of the operands' black sets |
| SetAlgebra.OrIsUnion | prj.lib/hit_or_miss.cpp:177-182 | the black set of OR is the union of the operands' black sets |
| SetAlgebra.SubtractIsDifference | prj.lib/hit_or_miss.cpp:196-206 | the black set of the difference is the left black set minus the right one |
| SetAlgebra.AndIdempotent | prj.lib/hit_or_miss.cpp:150-167 | AND(x, x) = x for binary x |
| SetAlgebra.OrIdempotent | prj.lib/hit_or_miss.cpp:169-186 | OR(x, x) = x for binary x |
| SetAlgebra.SubtractSelfIsWhite | prj.lib/hit_or_miss.cpp:188-211 | SUB(x, x) is all white |
| SetAlgebra.Reconstruction | prj.lib/hit_or_miss.cpp:150-211 | OR(SUB(x, y), AND(x, y)) = x for binary x |
| SetAlgebra.AndWithBlackIsIdentity | prj.lib/hit_or_miss.cpp:150-167 | an all-black right operand leaves a binary image unchanged under AND |
| Scanner.WindowCount | prj.lib/hit_or_miss.cpp:101-102 | the set of windows, which is the set of corners `MaskMatching` visits (0 <= r <= H-h, 0 <= c <= W-w), has (H-h+1)(W-w+1) members when the element fits and none otherwise |
| Scanner.OversizeKernelAllWhite | prj.lib/hit_or_miss.cpp:95-102 | an element larger than the image in either dimension tests no window and the output stays all white |
| Scanner.Scan | prj.lib/hit_or_miss.cpp:95 | a scan's output has the image's size and is binary |
| Scanner.WindowMatches | prj.lib/hit_or_miss.cpp:104-126 | the cell-by-cell test with skips and early exit is true exactly when every cell that matters equals the pixel under it |
| Scanner.StampHit | prj.lib/hit_or_miss.cpp:130-143 | writes black to exactly the pixels the hit stamps (centre for a 1x1 highlight, else the black stencil cells within the element) and leaves every other pixel unchanged |
| Scanner.StampInBounds | prj.lib/hit_or_miss.cpp:132-140 | every pixel a tested window stamps lies inside the image, so the bounds test at line 138 never fails |
| Scanner.CenterStamp | prj.lib/hit_or_miss.cpp:131-132 | with a 1x1 highlight a pixel is black exactly when the window with it at the floor-division centre exists and hits |
| Scanner.BackgroundIsDual | prj.lib/hit_or_miss.cpp:115-120 | the background scan equals the foreground scan of the negated image with the negated element |
| Scanner.BlackDotBackgroundMarksAll | prj.lib/hit_or_miss.cpp:118 | a 1x1 black background element, with a highlight that stamps its first cell, turns every pixel black |
| Scanner.MarkedBeforeStep | prj.lib/hit_or_miss.cpp:102-145 | the pixels marked so far after one more window are those before it plus the window's stamp if it hits |
| Scanner.MarkedBeforeNextRow | prj.lib/hit_or_miss.cpp:101-102 | finishing a row of windows is the same as starting the next row |
| Scanner.MarkedBeforeAll | prj.lib/hit_or_miss.cpp:101 | once the rows of windows are exhausted, "marked so far" is "marked by the scan" |
| Transform.HitOrMissOf | prj.lib/hit_or_miss.cpp:67-79 | wrong-size failure exactly when the background element fails the size check; otherwise a binary image of the image's size |
| Transform.BoundaryExtractionOf | prj.lib/hit_or_miss.cpp:81-89 | the same failure condition; otherwise an image of the image's size whose black pixels are a subset of the image's |
| Transform.HitOrMissIsIntersection | prj.lib/hit_or_miss.cpp:67-79 | the black set of Hit-or-Miss is the intersection of the two scans' black sets |
| Transform.BoundaryIsDifference | prj.lib/hit_or_miss.cpp:81-89 | the boundary's black set is the image's minus Hit-or-Miss's |
| Transform.BlackDotBackgroundIsNeutral | prj.lib/hit_or_miss.cpp:8 | with a 1x1 black background element and a highlight that is 1x1 or stamps its first cell, Hit-or-Miss equals the foreground scan |
| Engine.DefaultConfig | prj.lib/include/hitOrMiss/hit_or_miss.hpp:219-225 | all four default images are acceptable, 200x200, 3x3, 1x1 and 1x1 |
| Engine.DefaultEngineYieldsWhite | prj.lib/hit_or_miss.cpp:5-10 | on the default engine both transforms return an all-white 200x200 image |
| Engine.CopyAsWrittenLosesBackground | prj.lib/hit_or_miss.cpp:36-37 | the copy constructor as written yields a different engine with an empty background element |
| Engine.HitOrMiss.constructor | prj.lib/hit_or_miss.cpp:5-10 | the default engine holds the default images and is valid |
| Engine.HitOrMiss.WithImage | prj.lib/hit_or_miss.cpp:12-14 | empty-image failure exactly on an empty image; otherwise a fresh valid engine with the binarised image and default elements |
| Engine.HitOrMiss.WithForeground | prj.lib/hit_or_miss.cpp:15-17 | empty-image failure exactly when either argument is empty; otherwise the binarised image and foreground element with default rest |
| Engine.HitOrMiss.WithBackground | prj.lib/hit_or_miss.cpp:18-22 | fails exactly on an empty argument or a background element failing the size check, with the error of the first check that fails; otherwise the three binarised images and the default highlight |
| Engine.HitOrMiss.WithHighlight | prj.lib/hit_or_miss.cpp:23-29 | fails exactly on an empty argument or a companion failing the size check, with the first failing check's error; otherwise the four binarised images, an engine that can run both transforms |
| Engine.HitOrMiss.CopyAsWritten | prj.lib/hit_or_miss.cpp:31-39 | the copy-constructor body as written: background into the foreground slot, empty background |
| Engine.HitOrMiss.Copy | prj.lib/hit_or_miss.cpp:31-39 | the intended copy: the same four images, valid |
| Engine.HitOrMiss.Assign | prj.lib/hit_or_miss.cpp:41-51 | the engine takes the source engine's four images, the source is unchanged, and validity carries over; self-assignment changes nothing |
| Engine.HitOrMiss.SetImage | prj.lib/hit_or_miss.cpp:53-55 | fails exactly on an empty image and then changes nothing; otherwise only the image changes, to the binarised argument |
| Engine.HitOrMiss.SetKernelForeground | prj.lib/hit_or_miss.cpp:56-58 | fails exactly on an empty image and then changes nothing; otherwise only the foreground element changes |
| Engine.HitOrMiss.SetKernelBackground | prj.lib/hit_or_miss.cpp:59-62 | fails with wrong-size when the argument fails the size check against the current foreground, else with empty-image when it is empty, and then changes nothing; otherwise only the background element changes |
| Engine.HitOrMiss.SetHitHighlight | prj.lib/hit_or_miss.cpp:63-65 | fails exactly on an empty image and then changes nothing; otherwise only the highlight changes, with no size check |
| Engine.HitOrMiss.GetImage | prj.lib/include/hitOrMiss/hit_or_miss.hpp:152 | returns the stored image, which is non-empty and binary |
| Engine.HitOrMiss.GetKernelForeground | prj.lib/include/hitOrMiss/hit_or_miss.hpp:158 | returns the stored foreground element, non-empty and binary |
| Engine.HitOrMiss.GetKernelBackground | prj.lib/include/hitOrMiss/hit_or_miss.hpp:164 | returns the stored background element, non-empty and binary |
| Engine.HitOrMiss.GetHitHighlight | prj.lib/include/hitOrMiss/hit_or_miss.hpp:170 | returns the stored highlight, non-empty and binary |
| Engine.HitOrMiss.MaskMatching | prj.lib/hit_or_miss.cpp:91-148 | the two outer loops visit exactly the window corners 0 <= r <= H-h, 0 <= c <= W-w (a ghost record of the visited corners equals `Windows`), and the four nested loops produce exactly the scan specification for the chosen role's element |
| Engine.HitOrMiss.DoHitOrMiss | prj.lib/hit_or_miss.cpp:67-79 | returns the Hit-or-Miss function of the stored images and changes nothing |
| Engine.HitOrMiss.DoBoundaryExtraction | prj.lib/hit_or_miss.cpp:81-89 | returns the Boundary Extraction function of the stored images and changes nothing |

The checks that the source repeats are kept where they can fail and asserted where they cannot:

- The second background size check of the 4-argument constructor (prj.lib/hit_or_miss.cpp:26) always passes after the 3-argument constructor has run, so the model asserts it.
- `DoBoundaryExtraction` checks sizes itself (prj.lib/hit_or_miss.cpp:83). After that check, the inner `DoHitOrMiss` cannot fail.

## Left out

- Input and output, the command-line demo and its LaTeX exporter (prj.test/hit_or_miss.test.cpp) are not part of this model.
- `cv::Mat` reference counting is not modelled: images are values. So the in-place binarisation of the caller's buffer through `dst = src` (prj.lib/hit_or_miss.cpp:220) and the sharing of buffers between engines after copy or assignment are not captured.
- `cv::threshold` is modelled by its binary-threshold rule (`Binarize`), not by the library call.
- The `CV_Assert` on type and channel count (prj.lib/hit_or_miss.cpp:219) is carried by the `Pixel` type (0..255), so a wrong-type image cannot be expressed. Its assertion failure is not modelled.
- The `this == &rhs` test of the copy constructor (prj.lib/hit_or_miss.cpp:32-34) is left out: a fresh Dafny object can never be its own argument.
- Engine.HitOrMiss.Assign: returns nothing, whereas `operator=` returns a reference to the assigned engine (prj.lib/hit_or_miss.cpp:50), so chained assignment is not modelled.
- The destructor has no behaviour to model.
- The two exceptions are told apart by their message only; their text is not modelled.
- SetAlgebra.AndOperation: requires that a right operand passing the size check has the left operand's size. A 1x1 right operand against a larger left one would be read out of bounds in the source.
- SetAlgebra.OrOperation: the same requirement, for the same out-of-bounds read.
- SetAlgebra.SubstractionOperation: the same requirement, for the same out-of-bounds read.
- Engine.HitOrMiss.MaskMatching: requires the highlight to be 1x1 or at least as large as the element. `set_hit_highlight` does not check this, and a smaller stencil would be read out of bounds.
- Engine.HitOrMiss.DoHitOrMiss: requires the same highlight size, but only for an engine whose background element passes the size check. Only then does the source scan and read the highlight; otherwise it throws before any scan, and the model returns that wrong-size failure.
- Engine.HitOrMiss.DoBoundaryExtraction: requires the same highlight size, again only once the background element passes the size check; otherwise the wrong-size failure is modelled.
- The scan, Hit-or-Miss and Boundary Extraction specifications are ghost functions, because they quantify over window positions. The executable methods are proved equal to them.

## Findings

| source | as written | input that shows it | evidently intended | confidence | as-written member | corrected member |
|---|---|---|---|---|---|---|
| prj.lib/hit_or_miss.cpp:37 | the copy constructor assigns the background element to `kernel_foreground_` a second time and never sets `kernel_background_`, which stays an empty matrix | copying the default engine gives a 1x1 foreground element and an empty background element | copy all four images | not executed | Engine.HitOrMiss.CopyAsWritten, Engine.CopyAsWrittenLosesBackground | Engine.HitOrMiss.Copy |
