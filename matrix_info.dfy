/**
 * The dimension descriptor `MatrixInfo` of the two-party matrix multiplication: the shape
 * of a first matrix (first_row x first_col) and of a second matrix (second_row x
 * second_col), tagged with an index.  Its only constructor takes three dimensions and
 * uses the middle one for both inner dimensions, so the product is always defined.
 */
module Dimensions {
  import opened Wrappers

  /** The five fields of the descriptor; it is never changed after construction. */
  datatype MatrixInfo = MatrixInfo(idx: int, firstRow: int, firstCol: int, secondRow: int, secondCol: int)

  /** The shape of a matrix: its number of rows and of columns. */
  datatype Shape = Shape(rows: int, cols: int)

  /** A first matrix with `firstCol` columns can be multiplied by a second with `secondRow` rows. */
  predicate InnerDimensionsAgree(info: MatrixInfo)
  {
    info.secondRow == info.firstCol
  }

  /** The constructor `MatrixInfo(i, k, m, n)`: a k x m matrix times an m x n matrix. */
  function NewMatrixInfo(i: int, k: int, m: int, n: int): (r: MatrixInfo)
    ensures r.idx == i && r.firstRow == k && r.firstCol == m && r.secondCol == n
    ensures InnerDimensionsAgree(r)
  {
    MatrixInfo(i, k, m, m, n)
  }

  /** The constructor arguments (i, k, m, n) that a descriptor records. */
  function Arguments(info: MatrixInfo): (int, int, int, int)
  {
    (info.idx, info.firstRow, info.firstCol, info.secondCol)
  }

  /** The constructor arguments are recovered from the descriptor it builds. */
  lemma ArgumentsOfNew(i: int, k: int, m: int, n: int)
    ensures Arguments(NewMatrixInfo(i, k, m, n)) == (i, k, m, n)
  {
  }

  /**
   * A descriptor is one the constructor can build exactly when its inner dimensions
   * agree, and then it is the one built from its own arguments.
   */
  lemma ConstructibleIffInnerAgree(info: MatrixInfo)
    ensures (exists i, k, m, n :: NewMatrixInfo(i, k, m, n) == info) <==> InnerDimensionsAgree(info)
    ensures InnerDimensionsAgree(info) ==>
      NewMatrixInfo(Arguments(info).0, Arguments(info).1, Arguments(info).2, Arguments(info).3) == info
  {
    if InnerDimensionsAgree(info) {
      var a := Arguments(info);
      assert NewMatrixInfo(a.0, a.1, a.2, a.3) == info;
    }
  }

  /** The shape of the first matrix. */
  function LeftShape(info: MatrixInfo): Shape
  {
    Shape(info.firstRow, info.firstCol)
  }

  /** The shape of the second matrix, the one the server reads as its private input. */
  function RightShape(info: MatrixInfo): Shape
  {
    Shape(info.secondRow, info.secondCol)
  }

  /** The shape of the transpose of a matrix. */
  function Transpose(s: Shape): Shape
  {
    Shape(s.cols, s.rows)
  }

  /** The shape of the product of two matrices, or None when the inner dimensions differ. */
  function Product(a: Shape, b: Shape): (r: Option<Shape>)
    ensures r.Some? <==> a.cols == b.rows
    ensures r.Some? ==> r.value.rows == a.rows && r.value.cols == b.cols
  {
    if a.cols == b.rows then Some(Shape(a.rows, b.cols)) else None
  }

  /** Every constructed descriptor describes a product of shape first_row x second_col. */
  lemma ProductDefined(i: int, k: int, m: int, n: int)
    ensures Product(LeftShape(NewMatrixInfo(i, k, m, n)), RightShape(NewMatrixInfo(i, k, m, n))) == Some(Shape(k, n))
  {
  }

  /**
   * The shape rule behind computing A * B as (B^T * A^T)^T: the transposed operands multiply
   * exactly when the originals do, and give the transposed product.
   */
  lemma TransposedProduct(a: Shape, b: Shape)
    ensures Product(Transpose(b), Transpose(a)).Some? <==> Product(a, b).Some?
    ensures Product(a, b).Some? ==> Product(Transpose(b), Transpose(a)).value == Transpose(Product(a, b).value)
  {
  }
}
