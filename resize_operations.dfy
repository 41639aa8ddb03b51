/** Resize operation descriptors and the validating `CoverResizeOperation` constructor. */
module ResizeOperations {
  import opened Wrappers
  import opened Int32Text
  import opened Errors

  datatype ResizeType = Fit | Cover | Scale | Thumb

  /**
   * A resize request: the strategy and the target dimensions. The base class keeps
   * whatever it is given; only the named variants validate.
   */
  datatype ResizeOperation = ResizeOperation(resizeType: ResizeType, width: Option<int32>, height: Option<int32>)

  const WidthRequired := "You must specify a width"
  const HeightRequired := "You must specify a height"

  /** The invariant a cover operation keeps: both dimensions present and nonzero. */
  predicate CoverWellFormed(op: ResizeOperation)
  {
    op.resizeType == Cover ==>
      op.width.Some? && op.width.value != 0 && op.height.Some? && op.height.value != 0
  }

  /**
   * `new CoverResizeOperation(width, height)`: the width check comes first, and the
   * height error names the parameter "width", as the constructor is written.
   */
  function CoverResizeOperation(width: int32, height: int32): (r: Result<ResizeOperation, Error>)
    ensures r.Success? <==> width != 0 && height != 0
    ensures r.Success? ==> r.value.resizeType == Cover && r.value.width == Some(width) && r.value.height == Some(height)
    ensures r.Success? ==> CoverWellFormed(r.value)
    ensures width == 0 ==> r == Failure(Argument(WidthRequired, "width"))
    ensures width != 0 && height == 0 ==> r == Failure(Argument(HeightRequired, "width"))
  {
    if width == 0 then Failure(Argument(WidthRequired, "width"))
    else if height == 0 then Failure(Argument(HeightRequired, "width"))
    else Success(ResizeOperation(Cover, Some(width), Some(height)))
  }
}
