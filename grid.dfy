/** Row-major geometry of a size-by-size board: the neighbour arithmetic of
    class Puzzle. A neighbour helper returns the index of the adjacent cell,
    or the sentinel -1 when the cell lies on the grid edge in that direction. */
module Grid {

  /** Row of cell `index` (0 is the top row). */
  function Row(size: int, index: int): int
    requires size > 0
  {
    index / size
  }

  /** Column of cell `index` (0 is the leftmost column). */
  function Col(size: int, index: int): int
    requires size > 0
  {
    index % size
  }

  /** Two cells share a side: same row and neighbouring columns, or the reverse. */
  predicate Adjacent(size: int, i: int, j: int)
    requires size > 0
  {
    (Row(size, i) == Row(size, j) && (Col(size, i) - Col(size, j) == 1 || Col(size, j) - Col(size, i) == 1)) ||
    (Col(size, i) == Col(size, j) && (Row(size, i) - Row(size, j) == 1 || Row(size, j) - Row(size, i) == 1))
  }

  /** The row and column of a cell are unique: any decomposition of `i` into
      `q * size + c` with `0 <= c < size` is the row and the column. */
  lemma DivModUnique(size: int, i: int, q: int, c: int)
    requires size > 0 && 0 <= c < size && i == q * size + c
    ensures Row(size, i) == q && Col(size, i) == c
  {
    var q', c' := i / size, i % size;
    assert i == q' * size + c';
    assert (q - q') * size == c' - c;
    if q > q' {
      assert (q - q') * size >= size by { MulAtLeast(q - q', size); }
    } else if q < q' {
      assert (q' - q) * size >= size by { MulAtLeast(q' - q, size); }
    }
  }

  lemma MulAtLeast(k: int, size: int)
    requires k >= 1 && size > 0
    ensures k * size >= size
  {
  }

  /** Every cell of the board has a row and a column inside the grid. */
  lemma Decompose(size: int, i: int)
    requires size > 0 && 0 <= i < size * size
    ensures 0 <= Row(size, i) < size && 0 <= Col(size, i) < size
    ensures i == Row(size, i) * size + Col(size, i)
  {
    if i / size >= size {
      assert (i / size) * size >= size * size by { MulMono(size, i / size, size); }
    }
  }

  lemma MulMono(a: int, b: int, size: int)
    requires 0 <= a <= b && size > 0
    ensures a * size <= b * size
  {
  }

  /** The cell above `index`, or -1 in the top row (puzzle.cc `getIndexUp`). */
  function IndexUp(size: int, index: int): (r: int)
    requires size > 0 && 0 <= index < size * size
    ensures r == -1 <==> Row(size, index) == 0
    ensures r != -1 ==>
      0 <= r < size * size && r == index - size &&
      Row(size, r) == Row(size, index) - 1 && Col(size, r) == Col(size, index)
  {
    Decompose(size, index);
    if index / size != 0 then
      DivModUnique(size, index - size, Row(size, index) - 1, Col(size, index));
      index - size
    else
      -1
  }

  /** The cell below `index`, or -1 in the bottom row (puzzle.cc `getIndexDown`). */
  function IndexDown(size: int, index: int): (r: int)
    requires size > 0 && 0 <= index < size * size
    ensures r == -1 <==> Row(size, index) == size - 1
    ensures r != -1 ==>
      0 <= r < size * size && r == index + size &&
      Row(size, r) == Row(size, index) + 1 && Col(size, r) == Col(size, index)
  {
    Decompose(size, index);
    if index / size != size - 1 then
      DivModUnique(size, index + size, Row(size, index) + 1, Col(size, index));
      MulMono(Row(size, index) + 1, size - 1, size);
      index + size
    else
      -1
  }

  /** The cell to the left of `index`, or -1 in the leftmost column
      (puzzle.cc `getIndexLeft`). */
  function IndexLeft(size: int, index: int): (r: int)
    requires size > 0 && 0 <= index < size * size
    ensures r == -1 <==> Col(size, index) == 0
    ensures r != -1 ==>
      0 <= r < size * size && r == index - 1 &&
      Row(size, r) == Row(size, index) && Col(size, r) == Col(size, index) - 1
  {
    Decompose(size, index);
    if index % size != 0 then
      DivModUnique(size, index - 1, Row(size, index), Col(size, index) - 1);
      index - 1
    else
      -1
  }

  /** The cell to the right of `index`, or -1 in the rightmost column
      (puzzle.cc `getIndexRight`). */
  function IndexRight(size: int, index: int): (r: int)
    requires size > 0 && 0 <= index < size * size
    ensures r == -1 <==> Col(size, index) == size - 1
    ensures r != -1 ==>
      0 <= r < size * size && r == index + 1 &&
      Row(size, r) == Row(size, index) && Col(size, r) == Col(size, index) + 1
  {
    Decompose(size, index);
    if index % size != size - 1 then
      DivModUnique(size, index + 1, Row(size, index), Col(size, index) + 1);
      MulMono(Row(size, index), size - 1, size);
      assert index + 1 <= (size - 1) * size + size - 1;
      index + 1
    else
      -1
  }

  /** Going up and then down, or down and then up, returns to the start
      whenever the first step exists. */
  lemma UpDownInverse(size: int, index: int)
    requires size > 0 && 0 <= index < size * size
    ensures IndexUp(size, index) != -1 ==> IndexDown(size, IndexUp(size, index)) == index
    ensures IndexDown(size, index) != -1 ==> IndexUp(size, IndexDown(size, index)) == index
  {
    Decompose(size, index);
  }

  /** Going left and then right, or right and then left, returns to the start
      whenever the first step exists. */
  lemma LeftRightInverse(size: int, index: int)
    requires size > 0 && 0 <= index < size * size
    ensures IndexLeft(size, index) != -1 ==> IndexRight(size, IndexLeft(size, index)) == index
    ensures IndexRight(size, index) != -1 ==> IndexLeft(size, IndexRight(size, index)) == index
  {
    Decompose(size, index);
  }

  /** Each existing neighbour shares a side with the cell and differs from it. */
  lemma NeighboursAdjacent(size: int, index: int)
    requires size > 0 && 0 <= index < size * size
    ensures IndexUp(size, index) != -1 ==> Adjacent(size, index, IndexUp(size, index))
    ensures IndexDown(size, index) != -1 ==> Adjacent(size, index, IndexDown(size, index))
    ensures IndexLeft(size, index) != -1 ==> Adjacent(size, index, IndexLeft(size, index))
    ensures IndexRight(size, index) != -1 ==> Adjacent(size, index, IndexRight(size, index))
  {
  }
}
