/**
 * DSubmatrixD1: a rectangular window, rows row0 <= i < row1 and columns col0 <= j < col1,
 * onto a dense matrix it does not own. Reads and writes through the window are translated to
 * the original's cells; `Extract` copies the window into a new matrix. The dense matrix is
 * a two-dimensional array, and since elements are only copied the element type is generic.
 */
module Submatrix {

  class SubmatrixView<T(0)> {
    var original: array2<T>
    var row0: int
    var col0: int
    var row1: int
    var col1: int

    /** DSubmatrixD1(original, row0, row1, col0, col1). */
    constructor (original: array2<T>, row0: int, row1: int, col0: int, col1: int)
      ensures this.original == original
      ensures this.row0 == row0 && this.row1 == row1 && this.col0 == col0 && this.col1 == col1
    {
      this.original := original;
      this.row0, this.col0 := row0, col0;
      this.row1, this.col1 := row1, col1;
    }

    /** DSubmatrixD1(original): the whole of `original`. */
    constructor Whole(original: array2<T>)
      ensures this.original == original
      ensures row0 == 0 && col0 == 0 && row1 == original.Length0 && col1 == original.Length1
    {
      this.original := original;
      row0, col0 := 0, 0;
      row1, col1 := original.Length0, original.Length1;
    }

    /** The five-argument set: the window is exactly the one given. */
    method SetView(original: array2<T>, row0: int, row1: int, col0: int, col1: int)
      modifies this
      ensures this.original == original
      ensures this.row0 == row0 && this.row1 == row1 && this.col0 == col0 && this.col1 == col1
    {
      this.original := original;
      this.row0 := row0;
      this.col0 := col0;
      this.row1 := row1;
      this.col1 := col1;
    }

    /** set(original): the window now ends at the original's last row and column and still
        starts where it did. */
    method SetOriginal(original: array2<T>)
      modifies this
      ensures this.original == original
      ensures row1 == original.Length0 && col1 == original.Length1
      ensures row0 == old(row0) && col0 == old(col0)
    {
      this.original := original;
      row1 := original.Length0;
      col1 := original.Length1;
    }

    /** The window lies inside the original. */
    ghost predicate Inside()
      reads this
    {
      0 <= row0 <= row1 <= original.Length0 && 0 <= col0 <= col1 <= original.Length1
    }

    /** getRows: the height of the window, which fits in the original when the window lies
        inside it. */
    function Rows(): (r: int)
      reads this
      ensures Inside() ==> 0 <= r <= original.Length0 - row0
    {
      row1 - row0
    }

    /** getCols: the width of the window, which fits in the original when the window lies
        inside it. */
    function Cols(): (c: int)
      reads this
      ensures Inside() ==> 0 <= c <= original.Length1 - col0
    {
      col1 - col0
    }

    /** Whether window cell (row, col) falls on a cell of the original. */
    predicate OnOriginal(row: int, col: int)
      reads this
    {
      0 <= row + row0 < original.Length0 && 0 <= col + col0 < original.Length1
    }

    /** get(row, col): the original's cell (row + row0, col + col0). */
    function Get(row: int, col: int): T
      requires OnOriginal(row, col)
      reads this, original
    {
      original[row + row0, col + col0]
    }

    /** set(row, col, value): the original's cell (row + row0, col + col0) becomes `value`,
        every other cell of the original keeps its value, and the window is unchanged, so a
        get at the same place reads `value` back. */
    method SetCell(row: int, col: int, value: T)
      requires OnOriginal(row, col)
      modifies original
      ensures original[row + row0, col + col0] == value
      ensures forall i, j :: 0 <= i < original.Length0 && 0 <= j < original.Length1 ==>
        (i, j) == (row + row0, col + col0) || original[i, j] == old(original[i, j])
      ensures Get(row, col) == value
    {
      original[row + row0, col + col0] := value;
    }

    /** extract: a new Rows() by Cols() matrix whose cell (i, j) is Get(i, j). The original
        is not written (the method modifies nothing that exists). The window must not have
        negative dimensions, and when it is not empty it must lie inside the original. */
    method Extract() returns (ret: array2<T>)
      requires row0 <= row1 && col0 <= col1
      requires row0 < row1 && col0 < col1 ==> Inside()
      ensures fresh(ret)
      ensures ret.Length0 == Rows() && ret.Length1 == Cols()
      ensures forall i, j :: 0 <= i < ret.Length0 && 0 <= j < ret.Length1 ==>
        OnOriginal(i, j) && ret[i, j] == Get(i, j)
    {
      ret := new T[row1 - row0, col1 - col0];
      for i := 0 to ret.Length0
        invariant forall i', j :: 0 <= i' < i && 0 <= j < ret.Length1 ==>
          OnOriginal(i', j) && ret[i', j] == Get(i', j)
      {
        CopyRow(ret, i);
      }
    }

    /** The inner loop of extract: row i of the window copied into row i of `ret`, the other
        rows of `ret` kept. */
    method CopyRow(ret: array2<T>, i: int)
      requires ret != original && 0 <= i < ret.Length0 == Rows() && ret.Length1 == Cols()
      requires 0 < Cols() ==> Inside()
      modifies ret
      ensures forall j :: 0 <= j < ret.Length1 ==> OnOriginal(i, j) && ret[i, j] == Get(i, j)
      ensures forall i', j :: 0 <= i' < ret.Length0 && i' != i && 0 <= j < ret.Length1 ==>
        ret[i', j] == old(ret[i', j])
    {
      for j := 0 to ret.Length1
        invariant forall j' :: 0 <= j' < j ==> OnOriginal(i, j') && ret[i, j'] == Get(i, j')
        invariant forall i', j' :: 0 <= i' < ret.Length0 && i' != i && 0 <= j' < ret.Length1 ==>
          ret[i', j'] == old(ret[i', j'])
      {
        ret[i, j] := Get(i, j);
      }
    }
  }

  /** Two windows onto one original read each cell of it alike: a view shows the original's
      own cells and holds no copy of them. */
  lemma WindowsAgree<T(0)>(v: SubmatrixView<T>, w: SubmatrixView<T>, row: int, col: int)
    requires v.original == w.original && v.OnOriginal(row, col)
    ensures w.OnOriginal(row + v.row0 - w.row0, col + v.col0 - w.col0)
    ensures v.Get(row, col) == w.Get(row + v.row0 - w.row0, col + v.col0 - w.col0)
  {
  }

  /** A window of the whole original extracts a cell-for-cell copy of it. */
  method ExtractWhole<T(0)>(original: array2<T>) returns (copy: array2<T>)
    ensures fresh(copy) && copy.Length0 == original.Length0 && copy.Length1 == original.Length1
    ensures forall i, j :: 0 <= i < copy.Length0 && 0 <= j < copy.Length1 ==> copy[i, j] == original[i, j]
  {
    var view := new SubmatrixView.Whole(original);
    copy := view.Extract();
  }
}
