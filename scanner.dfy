/** The sliding-window matcher: a structuring element slides over the image
    without padding, its top-left corner on every position where it fits;
    a window that matches is stamped black into a white output, either at
    the window centre or through the highlight stencil. */
module Scanner {
  import opened Images

  /** Cells the element ignores: white ones in the foreground role, black
      ones in the background role. */
  predicate DontCare(foreground: bool, k: Pixel) {
    (foreground && k == White) || (!foreground && k == Black)
  }

  /** Top-left corners at which the element lies wholly inside the image. */
  predicate InRange(img: Image, ker: Image, r: int, c: int) {
    0 <= r <= img.rows - ker.rows && 0 <= c <= img.cols - ker.cols
  }

  /** The window positions the scan quantifies over: the top-left corners the
      two outer loops of the matcher visit. */
  function Windows(img: Image, ker: Image): (w: set<(int, int)>)
    ensures forall r, c :: (r, c) in w <==> InRange(img, ker, r, c)
  {
    set r, c | 0 <= r <= img.rows - ker.rows && 0 <= c <= img.cols - ker.cols :: (r, c)
  }

  /** Element cell (i, j) is ignored or equals the image pixel under it. */
  predicate CellMatches(img: Image, ker: Image, foreground: bool, r: int, c: int, i: int, j: int)
    requires InRange(img, ker, r, c) && 0 <= i < ker.rows && 0 <= j < ker.cols
  {
    DontCare(foreground, ker.px[i][j]) || img.px[r + i][c + j] == ker.px[i][j]
  }

  /** The window at (r, c) is a hit: no cell that matters disagrees. */
  predicate WindowHit(img: Image, ker: Image, foreground: bool, r: int, c: int)
    requires InRange(img, ker, r, c)
  {
    forall i, j | 0 <= i < ker.rows && 0 <= j < ker.cols :: CellMatches(img, ker, foreground, r, c, i, j)
  }

  /** A 1x1 highlight asks for the centre pixel only. */
  predicate IsPoint(hl: Image) {
    hl.rows == 1 && hl.cols == 1
  }

  /** What the scan demands of the highlight: the stamp reads it at every
      offset of the element unless it is 1x1. */
  predicate HighlightFits(hl: Image, ker: Image) {
    IsPoint(hl) || (hl.rows >= ker.rows && hl.cols >= ker.cols)
  }

  /** A hit at (r, c) turns pixel (pr, pc) black. */
  predicate Stamps(ker: Image, hl: Image, r: int, c: int, pr: int, pc: int) {
    if IsPoint(hl) then
      pr == r + ker.rows / 2 && pc == c + ker.cols / 2
    else
      r <= pr < r + ker.rows && c <= pc < c + ker.cols
      && pr - r < hl.rows && pc - c < hl.cols && hl.px[pr - r][pc - c] == Black
  }

  /** Some tested window hits and stamps (pr, pc). */
  ghost predicate Marked(img: Image, ker: Image, hl: Image, foreground: bool, pr: int, pc: int) {
    exists r, c :: InRange(img, ker, r, c) && WindowHit(img, ker, foreground, r, c) && Stamps(ker, hl, r, c, pr, pc)
  }

  /** The output of a scan: black exactly where some hit stamps. */
  ghost function Scan(img: Image, ker: Image, hl: Image, foreground: bool): (out: Image)
    ensures SameSize(out, img) && IsBinary(out)
  {
    Mat(img.rows, img.cols,
        seq(img.rows, pr => seq(img.cols, pc => if Marked(img, ker, hl, foreground, pr, pc) then Black else White)))
  }

  // ---- the scan's steps, as the nested loops perform them ----

  /** Tests one window cell by cell in row-major order, stopping at the first
      mismatch. */
  method WindowMatches(img: Image, ker: Image, foreground: bool, maskRow: int, maskCol: int) returns (hit: bool)
    requires InRange(img, ker, maskRow, maskCol)
    ensures hit == WindowHit(img, ker, foreground, maskRow, maskCol)
  {
    hit := true;
    for stepRow := 0 to ker.rows
      invariant hit
      invariant forall i, j | 0 <= i < stepRow && 0 <= j < ker.cols ::
        CellMatches(img, ker, foreground, maskRow, maskCol, i, j)
    {
      for stepCol := 0 to ker.cols
        invariant hit
        invariant forall j | 0 <= j < stepCol :: CellMatches(img, ker, foreground, maskRow, maskCol, stepRow, j)
      {
        var imagePixel := img.px[maskRow + stepRow][maskCol + stepCol];
        var kernelPixel := ker.px[stepRow][stepCol];
        if foreground && kernelPixel == White { continue; }
        if !foreground && kernelPixel == Black { continue; }
        if imagePixel != kernelPixel {
          assert !CellMatches(img, ker, foreground, maskRow, maskCol, stepRow, stepCol);
          hit := false;
          break;
        }
      }
      if !hit { break; }
    }
  }

  /** Pixels of the stencil stamped once the offsets before (sr, sc) in
      row-major order are done. */
  predicate StampedSoFar(ker: Image, hl: Image, r: int, c: int, sr: int, sc: int, pr: int, pc: int) {
    r <= pr && c <= pc < c + ker.cols && (pr < r + sr || (pr == r + sr && pc < c + sc))
    && pr - r < hl.rows && pc - c < hl.cols && hl.px[pr - r][pc - c] == Black
  }

  /** Stamps the hit at (maskRow, maskCol) into the output buffer. */
  method StampHit(dst: array2<Pixel>, img: Image, ker: Image, hl: Image, maskRow: int, maskCol: int)
    requires dst.Length0 == img.rows && dst.Length1 == img.cols
    requires InRange(img, ker, maskRow, maskCol) && !Empty(ker) && HighlightFits(hl, ker)
    modifies dst
    ensures forall pr, pc | 0 <= pr < img.rows && 0 <= pc < img.cols ::
      dst[pr, pc] == if Stamps(ker, hl, maskRow, maskCol, pr, pc) then Black else old(dst[pr, pc])
  {
    if hl.rows == 1 && hl.cols == 1 {
      dst[maskRow + ker.rows / 2, maskCol + ker.cols / 2] := Black;
    } else {
      for stepRow := 0 to ker.rows
        invariant forall pr, pc | 0 <= pr < img.rows && 0 <= pc < img.cols ::
          dst[pr, pc] == if StampedSoFar(ker, hl, maskRow, maskCol, stepRow, 0, pr, pc) then Black else old(dst[pr, pc])
      {
        for stepCol := 0 to ker.cols
          invariant forall pr, pc | 0 <= pr < img.rows && 0 <= pc < img.cols ::
            dst[pr, pc] == if StampedSoFar(ker, hl, maskRow, maskCol, stepRow, stepCol, pr, pc) then Black else old(dst[pr, pc])
        {
          // the defensive bounds test of the source; the window range makes it always true
          assert maskRow + stepRow < img.rows && maskCol + stepCol < img.cols;
          if maskRow + stepRow < img.rows && maskCol + stepCol < img.cols {
            if hl.px[stepRow][stepCol] == Black {
              dst[maskRow + stepRow, maskCol + stepCol] := Black;
            }
          }
        }
      }
    }
  }

  // ---- progress of the scan over the windows, in row-major order ----

  /** Some window before (mr, mc) in row-major order hits and stamps (pr, pc). */
  ghost predicate MarkedBefore(img: Image, ker: Image, hl: Image, foreground: bool, mr: int, mc: int, pr: int, pc: int) {
    exists r, c :: InRange(img, ker, r, c) && (r < mr || (r == mr && c < mc))
      && WindowHit(img, ker, foreground, r, c) && Stamps(ker, hl, r, c, pr, pc)
  }

  /** Testing window (mr, mc) adds its stamp, if it hits, to what is marked. */
  lemma MarkedBeforeStep(img: Image, ker: Image, hl: Image, foreground: bool, mr: int, mc: int)
    requires InRange(img, ker, mr, mc)
    ensures forall pr, pc ::
      MarkedBefore(img, ker, hl, foreground, mr, mc + 1, pr, pc) <==>
      MarkedBefore(img, ker, hl, foreground, mr, mc, pr, pc)
      || (WindowHit(img, ker, foreground, mr, mc) && Stamps(ker, hl, mr, mc, pr, pc))
  {
  }

  /** Past the last column of a row of windows, the next row starts. */
  lemma MarkedBeforeNextRow(img: Image, ker: Image, hl: Image, foreground: bool, mr: int, mc: int)
    requires mc > img.cols - ker.cols
    ensures forall pr, pc ::
      MarkedBefore(img, ker, hl, foreground, mr, mc, pr, pc) <==>
      MarkedBefore(img, ker, hl, foreground, mr + 1, 0, pr, pc)
  {
  }

  /** Past the last row of windows, every window has been tested. */
  lemma MarkedBeforeAll(img: Image, ker: Image, hl: Image, foreground: bool, mr: int)
    requires mr > img.rows - ker.rows
    ensures forall pr, pc ::
      MarkedBefore(img, ker, hl, foreground, mr, 0, pr, pc) <==> Marked(img, ker, hl, foreground, pr, pc)
  {
  }

  // ---- what the scan computes ----

  function Grid(n: int, m: int): set<(int, int)> {
    set r, c | 0 <= r < n && 0 <= c < m :: (r, c)
  }

  function GridRow(k: int, m: int): set<(int, int)> {
    set c | 0 <= c < m :: (k, c)
  }

  lemma {:induction false} GridRowSize(k: int, m: nat)
    ensures |GridRow(k, m)| == m
  {
    if m == 0 {
      assert GridRow(k, 0) == {};
    } else {
      GridRowSize(k, m - 1);
      assert GridRow(k, m) == GridRow(k, m - 1) + {(k, m - 1)};
    }
  }

  lemma DisjointUnionSize<T>(a: set<T>, b: set<T>)
    requires a !! b
    ensures |a + b| == |a| + |b|
  {
  }

  lemma RowsTimesColumns(n: nat, m: nat)
    requires n > 0
    ensures (n - 1) * m + m == n * m
  {
  }

  /** The grid with one more row is the smaller grid and that row, disjointly. */
  lemma GridSplit(n: nat, m: nat)
    requires n > 0
    ensures Grid(n, m) == Grid(n - 1, m) + GridRow(n - 1, m)
    ensures Grid(n - 1, m) !! GridRow(n - 1, m)
  {
    forall p | p in Grid(n, m) ensures p in Grid(n - 1, m) + GridRow(n - 1, m) {
    }
  }

  lemma {:induction false} GridSize(n: nat, m: nat)
    ensures |Grid(n, m)| == n * m
  {
    if n == 0 {
      assert Grid(0, m) == {};
    } else {
      GridSize(n - 1, m);
      GridRowSize(n - 1, m);
      GridSplit(n, m);
      DisjointUnionSize(Grid(n - 1, m), GridRow(n - 1, m));
      RowsTimesColumns(n, m);
    }
  }

  /** An H x W image and an h x w element give (H - h + 1)(W - w + 1) windows
      when the element fits, and none when it does not. */
  lemma WindowCount(img: Image, ker: Image)
    ensures |Windows(img, ker)| ==
      if img.rows >= ker.rows && img.cols >= ker.cols
      then (img.rows - ker.rows + 1) * (img.cols - ker.cols + 1)
      else 0
  {
    if img.rows >= ker.rows && img.cols >= ker.cols {
      assert Windows(img, ker) == Grid(img.rows - ker.rows + 1, img.cols - ker.cols + 1);
      GridSize(img.rows - ker.rows + 1, img.cols - ker.cols + 1);
    } else {
      assert Windows(img, ker) == {};
    }
  }

  /** An element larger than the image in either dimension tests no window,
      and the output stays all white. */
  lemma OversizeKernelAllWhite(img: Image, ker: Image, hl: Image, foreground: bool)
    requires img.rows < ker.rows || img.cols < ker.cols
    ensures Windows(img, ker) == {}
    ensures Scan(img, ker, hl, foreground) == Filled(img.rows, img.cols, White)
  {
    Extensionality(Scan(img, ker, hl, foreground), Filled(img.rows, img.cols, White));
  }

  /** Every pixel a tested window stamps lies inside the image: the stamp
      loop's bounds test never fails and the centre write is in range. */
  lemma StampInBounds(img: Image, ker: Image, hl: Image, r: int, c: int, pr: int, pc: int)
    requires InRange(img, ker, r, c) && !Empty(ker) && Stamps(ker, hl, r, c, pr, pc)
    ensures 0 <= pr < img.rows && 0 <= pc < img.cols
  {
  }

  /** With a 1x1 highlight a pixel turns black exactly when the window of
      which it is the centre (floor division) exists and hits. */
  lemma CenterStamp(img: Image, ker: Image, hl: Image, foreground: bool, pr: int, pc: int)
    requires IsPoint(hl) && 0 <= pr < img.rows && 0 <= pc < img.cols
    ensures Scan(img, ker, hl, foreground).px[pr][pc] == Black <==>
      InRange(img, ker, pr - ker.rows / 2, pc - ker.cols / 2)
      && WindowHit(img, ker, foreground, pr - ker.rows / 2, pc - ker.cols / 2)
  {
    var r, c := pr - ker.rows / 2, pc - ker.cols / 2;
    if InRange(img, ker, r, c) && WindowHit(img, ker, foreground, r, c) {
      assert Stamps(ker, hl, r, c, pr, pc);
    }
  }

  /** The background role is the foreground role on the negatives: a white
      cell must find a white pixel exactly when, inverted, a black cell must
      find a black one. */
  lemma BackgroundIsDual(img: Image, ker: Image, hl: Image)
    ensures Scan(img, ker, hl, false) == Scan(Invert(img), Invert(ker), hl, true)
  {
    var nimg, nker := Invert(img), Invert(ker);
    forall r, c | InRange(img, ker, r, c)
      ensures WindowHit(img, ker, false, r, c) == WindowHit(nimg, nker, true, r, c)
    {
      forall i, j | 0 <= i < ker.rows && 0 <= j < ker.cols
        ensures CellMatches(img, ker, false, r, c, i, j) == CellMatches(nimg, nker, true, r, c, i, j)
      {
      }
    }
    forall pr, pc | 0 <= pr < img.rows && 0 <= pc < img.cols
      ensures Marked(img, ker, hl, false, pr, pc) == Marked(nimg, nker, hl, true, pr, pc)
    {
      if Marked(img, ker, hl, false, pr, pc) {
        var r, c :| InRange(img, ker, r, c) && WindowHit(img, ker, false, r, c) && Stamps(ker, hl, r, c, pr, pc);
        assert InRange(nimg, nker, r, c) && Stamps(nker, hl, r, c, pr, pc);
      }
      if Marked(nimg, nker, hl, true, pr, pc) {
        var r, c :| InRange(nimg, nker, r, c) && WindowHit(nimg, nker, true, r, c) && Stamps(nker, hl, r, c, pr, pc);
        assert InRange(img, ker, r, c) && Stamps(ker, hl, r, c, pr, pc);
      }
    }
    Extensionality(Scan(img, ker, hl, false), Scan(nimg, nker, hl, true));
  }

  /** A 1x1 black element in the background role ignores its only cell, so
      every position hits; with a 1x1 highlight, or a stencil whose first
      cell is black, every pixel is stamped. */
  lemma BlackDotBackgroundMarksAll(img: Image, ker: Image, hl: Image)
    requires ker.rows == 1 && ker.cols == 1 && ker.px[0][0] == Black
    requires IsPoint(hl) || (!Empty(hl) && hl.px[0][0] == Black)
    ensures Scan(img, ker, hl, false) == Filled(img.rows, img.cols, Black)
  {
    forall pr, pc | 0 <= pr < img.rows && 0 <= pc < img.cols
      ensures Marked(img, ker, hl, false, pr, pc)
    {
      assert InRange(img, ker, pr, pc);
      assert CellMatches(img, ker, false, pr, pc, 0, 0);
      assert WindowHit(img, ker, false, pr, pc);
      assert Stamps(ker, hl, pr, pc, pr, pc);
    }
    Extensionality(Scan(img, ker, hl, false), Filled(img.rows, img.cols, Black));
  }
}
