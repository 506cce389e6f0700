/** Pointwise set operations on binary images, black being logical 1 and
    white logical 0. Each operation fills a fresh white buffer of the
    left-hand side's size cell by cell. */
module SetAlgebra {
  import opened Images
  import opened Validation

  datatype SetOp = And | Or | Subtract

  /** The output pixel of `op` for one pair of input pixels. */
  function Apply(op: SetOp, a: Pixel, b: Pixel): Pixel {
    match op
    case And => if a == Black && b == Black then Black else White
    case Or => if a == Black || b == Black then Black else White
    case Subtract => if a == Black && b != Black then Black else White
  }

  /** The image an operation returns for two operands of the same size. */
  function Pointwise(op: SetOp, lhs: Image, rhs: Image): (r: Image)
    requires SameSize(lhs, rhs)
    ensures SameSize(r, lhs) && IsBinary(r)
  {
    Mat(lhs.rows, lhs.cols,
        seq(lhs.rows, i requires 0 <= i < lhs.rows =>
          seq(lhs.cols, j requires 0 <= j < lhs.cols => Apply(op, lhs.px[i][j], rhs.px[i][j]))))
  }

  /** What the three operations demand of their callers: an operand that the
      size check lets through must really have the left operand's size (a 1x1
      right operand against a larger left one would be read out of bounds). */
  predicate Operands(lhs: Image, rhs: Image) {
    SizeCheck(lhs, rhs).Pass? ==> SameSize(lhs, rhs)
  }

  method AndOperation(lhs: Image, rhs: Image) returns (r: Result<Image>)
    requires Operands(lhs, rhs)
    ensures r == if SameSize(lhs, rhs) then Success(Pointwise(And, lhs, rhs)) else Failure(WrongSize)
  {
    var sizes := SizeCheck(lhs, rhs);
    if sizes.Fail? {
      return Failure(sizes.error);
    }
    var result := new Pixel[lhs.rows, lhs.cols]((_, _) => White);
    for row := 0 to lhs.rows
      invariant forall i, j | 0 <= i < row && 0 <= j < lhs.cols ::
        result[i, j] == Apply(And, lhs.px[i][j], rhs.px[i][j])
    {
      for col := 0 to lhs.cols
        invariant forall i, j | 0 <= i < row && 0 <= j < lhs.cols ::
          result[i, j] == Apply(And, lhs.px[i][j], rhs.px[i][j])
        invariant forall j | 0 <= j < col :: result[row, j] == Apply(And, lhs.px[row][j], rhs.px[row][j])
      {
        if lhs.px[row][col] == Black && rhs.px[row][col] == Black {
          result[row, col] := Black;
        } else {
          result[row, col] := White;
        }
      }
    }
    Extensionality(Snapshot(result), Pointwise(And, lhs, rhs));
    r := Success(Snapshot(result));
  }

  method OrOperation(lhs: Image, rhs: Image) returns (r: Result<Image>)
    requires Operands(lhs, rhs)
    ensures r == if SameSize(lhs, rhs) then Success(Pointwise(Or, lhs, rhs)) else Failure(WrongSize)
  {
    var sizes := SizeCheck(lhs, rhs);
    if sizes.Fail? {
      return Failure(sizes.error);
    }
    var result := new Pixel[lhs.rows, lhs.cols]((_, _) => White);
    for row := 0 to lhs.rows
      invariant forall i, j | 0 <= i < row && 0 <= j < lhs.cols ::
        result[i, j] == Apply(Or, lhs.px[i][j], rhs.px[i][j])
    {
      for col := 0 to lhs.cols
        invariant forall i, j | 0 <= i < row && 0 <= j < lhs.cols ::
          result[i, j] == Apply(Or, lhs.px[i][j], rhs.px[i][j])
        invariant forall j | 0 <= j < col :: result[row, j] == Apply(Or, lhs.px[row][j], rhs.px[row][j])
      {
        if lhs.px[row][col] == Black || rhs.px[row][col] == Black {
          result[row, col] := Black;
        } else {
          result[row, col] := White;
        }
      }
    }
    Extensionality(Snapshot(result), Pointwise(Or, lhs, rhs));
    r := Success(Snapshot(result));
  }

  method SubstractionOperation(lhs: Image, rhs: Image) returns (r: Result<Image>)
    requires Operands(lhs, rhs)
    ensures r == if SameSize(lhs, rhs) then Success(Pointwise(Subtract, lhs, rhs)) else Failure(WrongSize)
  {
    var sizes := SizeCheck(lhs, rhs);
    if sizes.Fail? {
      return Failure(sizes.error);
    }
    var result := new Pixel[lhs.rows, lhs.cols]((_, _) => White);
    for row := 0 to lhs.rows
      invariant forall i, j | 0 <= i < row && 0 <= j < lhs.cols ::
        result[i, j] == Apply(Subtract, lhs.px[i][j], rhs.px[i][j])
    {
      for col := 0 to lhs.cols
        invariant forall i, j | 0 <= i < row && 0 <= j < lhs.cols ::
          result[i, j] == Apply(Subtract, lhs.px[i][j], rhs.px[i][j])
        invariant forall j | 0 <= j < col :: result[row, j] == Apply(Subtract, lhs.px[row][j], rhs.px[row][j])
      {
        if lhs.px[row][col] == Black && rhs.px[row][col] == Black {
          result[row, col] := White;
        } else if lhs.px[row][col] == Black && rhs.px[row][col] != Black {
          result[row, col] := Black;
        } else {
          result[row, col] := White;
        }
      }
    }
    Extensionality(Snapshot(result), Pointwise(Subtract, lhs, rhs));
    r := Success(Snapshot(result));
  }

  /** AND is the intersection of the black sets. */
  lemma AndIsIntersection(x: Image, y: Image)
    requires SameSize(x, y)
    ensures BlackSet(Pointwise(And, x, y)) == BlackSet(x) * BlackSet(y)
  {
    var r := Pointwise(And, x, y);
    forall p ensures p in BlackSet(r) <==> p in BlackSet(x) * BlackSet(y) {
      if p in BlackSet(r) {
        BlackSetBounds(r, p);
        BlackSetMember(x, p.0, p.1);
        BlackSetMember(y, p.0, p.1);
      }
      if p in BlackSet(x) * BlackSet(y) {
        BlackSetBounds(x, p);
        BlackSetBounds(y, p);
        BlackSetMember(r, p.0, p.1);
      }
    }
  }

  /** OR is the union of the black sets. */
  lemma OrIsUnion(x: Image, y: Image)
    requires SameSize(x, y)
    ensures BlackSet(Pointwise(Or, x, y)) == BlackSet(x) + BlackSet(y)
  {
    var r := Pointwise(Or, x, y);
    forall p ensures p in BlackSet(r) <==> p in BlackSet(x) + BlackSet(y) {
      if p in BlackSet(r) {
        BlackSetBounds(r, p);
        BlackSetMember(x, p.0, p.1);
        BlackSetMember(y, p.0, p.1);
      }
      if p in BlackSet(x) {
        BlackSetBounds(x, p);
        BlackSetMember(r, p.0, p.1);
      }
      if p in BlackSet(y) {
        BlackSetBounds(y, p);
        BlackSetMember(r, p.0, p.1);
      }
    }
  }

  /** Subtraction is the set difference of the black sets. */
  lemma SubtractIsDifference(x: Image, y: Image)
    requires SameSize(x, y)
    ensures BlackSet(Pointwise(Subtract, x, y)) == BlackSet(x) - BlackSet(y)
  {
    var r := Pointwise(Subtract, x, y);
    forall p ensures p in BlackSet(r) <==> p in BlackSet(x) - BlackSet(y) {
      if p in BlackSet(r) {
        BlackSetBounds(r, p);
        BlackSetMember(x, p.0, p.1);
        BlackSetMember(y, p.0, p.1);
      }
      if p in BlackSet(x) - BlackSet(y) {
        BlackSetBounds(x, p);
        BlackSetMember(y, p.0, p.1);
        BlackSetMember(r, p.0, p.1);
      }
    }
  }

  lemma AndIdempotent(x: Image)
    requires IsBinary(x)
    ensures Pointwise(And, x, x) == x
  {
    AndIsIntersection(x, x);
    BinaryDeterminedByBlackSet(Pointwise(And, x, x), x);
  }

  lemma OrIdempotent(x: Image)
    requires IsBinary(x)
    ensures Pointwise(Or, x, x) == x
  {
    OrIsUnion(x, x);
    BinaryDeterminedByBlackSet(Pointwise(Or, x, x), x);
  }

  /** Removing an image from itself leaves nothing black. */
  lemma SubtractSelfIsWhite(x: Image)
    ensures Pointwise(Subtract, x, x) == Filled(x.rows, x.cols, White)
  {
    Extensionality(Pointwise(Subtract, x, x), Filled(x.rows, x.cols, White));
  }

  /** What y removes from x, together with what x and y share, is x again. */
  lemma Reconstruction(x: Image, y: Image)
    requires SameSize(x, y) && IsBinary(x)
    ensures Pointwise(Or, Pointwise(Subtract, x, y), Pointwise(And, x, y)) == x
  {
    var d, m := Pointwise(Subtract, x, y), Pointwise(And, x, y);
    SubtractIsDifference(x, y);
    AndIsIntersection(x, y);
    OrIsUnion(d, m);
    assert BlackSet(x) - BlackSet(y) + BlackSet(x) * BlackSet(y) == BlackSet(x);
    BinaryDeterminedByBlackSet(Pointwise(Or, d, m), x);
  }

  /** An all-black operand is neutral for AND. */
  lemma AndWithBlackIsIdentity(x: Image)
    requires IsBinary(x)
    ensures Pointwise(And, x, Filled(x.rows, x.cols, Black)) == x
  {
    Extensionality(Pointwise(And, x, Filled(x.rows, x.cols, Black)), x);
  }
}
