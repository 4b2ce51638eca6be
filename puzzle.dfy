/** The puzzle engine of puzzle.cc: class Puzzle with its tile vector
    `pieces`, the blank position `blank_index` and the grid side `size`,
    updated in place by the four moves. */
module Engine {
  import opened Grid
  import opened Tiles
  import opened Moves

  /** The grid side the constructor uses: the requested size, raised to 3 when smaller. */
  function BoardSize(requested: int): (n: int)
    ensures n >= 3 && n >= requested
    ensures n == requested || n == 3
  {
    if requested > 3 then requested else 3
  }

  /** The effect of `std::random_shuffle` on the first m cells: afterwards they
      hold `shuffled`, which the library promises is a rearrangement of what
      they held; the remaining cells are untouched. */
  method Rearrange(a: array<int>, m: int, shuffled: seq<int>)
    requires 0 <= m <= a.Length && multiset(shuffled) == multiset(a[..m])
    modifies a
    ensures a[..m] == shuffled && a[m..] == old(a[m..])
  {
    assert |shuffled| == |multiset(a[..m])| == m;
    forall k | 0 <= k < m {
      a[k] := shuffled[k];
    }
  }

  /** The board-building part of the constructor: the tiles 1 .. n*n - 1
      in ascending order, shuffled into the order `shuffled`, the first two
      exchanged, and the blank in the last cell. */
  method Arrange(n: int, shuffled: seq<int>) returns (cells: array<int>)
    requires n >= 3 && |shuffled| == n * n - 1
    requires multiset(shuffled) == multiset(Range(1, n * n))
    ensures fresh(cells) && cells[..] == Initial(shuffled).tiles
  {
    var m := n * n - 1;
    cells := new int[m + 1];
    var x := 1;
    while x <= m
      invariant 1 <= x <= m + 1
      invariant forall k :: 0 <= k < x - 1 ==> cells[k] == k + 1
    {
      cells[x - 1] := x;
      x := x + 1;
    }
    assert cells[..m] == Range(1, m + 1);
    Rearrange(cells, m, shuffled);
    cells[0], cells[1] := cells[1], cells[0];
    cells[m] := 0;
    assert forall k :: 2 <= k < m ==> cells[k] == shuffled[k];
  }

  class Puzzle {
    var size: int
    var blankIndex: int
    var pieces: array<int>

    /** The board as a value: the tiles in row-major order and the blank position. */
    ghost function State(): Board
      reads this, pieces
    {
      Board(pieces[..], blankIndex)
    }

    /** The object invariant: the board is a valid size-by-size board. */
    ghost predicate Valid()
      reads this, pieces
    {
      ValidBoard(size, State())
    }

    /** Builds the starting board: tiles 1 .. size*size - 1 in ascending order,
        shuffled into the order `shuffled` (the output of the random shuffle),
        the first two exchanged, then the blank appended in the last cell. */
    constructor (requestedSize: int, shuffled: seq<int>)
      requires |shuffled| == BoardSize(requestedSize) * BoardSize(requestedSize) - 1
      requires multiset(shuffled) == multiset(Range(1, BoardSize(requestedSize) * BoardSize(requestedSize)))
      ensures Valid() && fresh(pieces)
      ensures size == BoardSize(requestedSize)
      ensures State() == Initial(shuffled)
      ensures blankIndex == size * size - 1
    {
      var n := BoardSize(requestedSize);
      InitialValid(n, shuffled);
      var cells := Arrange(n, shuffled);
      size, blankIndex, pieces := n, n * n - 1, cells;
    }

    /** Key Up: the tile below the blank slides up into it (puzzle.cc `moveUp`). */
    method MoveUp()
      requires Valid()
      modifies pieces, this`blankIndex
      ensures Valid()
      ensures State() == Move(size, old(State()), Up)
    {
      var moveIndex := IndexDown(size, blankIndex);
      if moveIndex == -1 {
        return;
      }
      pieces[blankIndex], pieces[moveIndex] := pieces[moveIndex], pieces[blankIndex];
      blankIndex := moveIndex;
    }

    /** Key Down: the tile above the blank slides down into it (puzzle.cc `moveDown`). */
    method MoveDown()
      requires Valid()
      modifies pieces, this`blankIndex
      ensures Valid()
      ensures State() == Move(size, old(State()), Down)
    {
      var moveIndex := IndexUp(size, blankIndex);
      if moveIndex == -1 {
        return;
      }
      pieces[blankIndex], pieces[moveIndex] := pieces[moveIndex], pieces[blankIndex];
      blankIndex := moveIndex;
    }

    /** Key Left: the tile right of the blank slides left into it (puzzle.cc `moveLeft`). */
    method MoveLeft()
      requires Valid()
      modifies pieces, this`blankIndex
      ensures Valid()
      ensures State() == Move(size, old(State()), Left)
    {
      var moveIndex := IndexRight(size, blankIndex);
      if moveIndex == -1 {
        return;
      }
      pieces[blankIndex], pieces[moveIndex] := pieces[moveIndex], pieces[blankIndex];
      blankIndex := moveIndex;
    }

    /** Key Right: the tile left of the blank slides right into it (puzzle.cc `moveRight`). */
    method MoveRight()
      requires Valid()
      modifies pieces, this`blankIndex
      ensures Valid()
      ensures State() == Move(size, old(State()), Right)
    {
      var moveIndex := IndexLeft(size, blankIndex);
      if moveIndex == -1 {
        return;
      }
      pieces[blankIndex], pieces[moveIndex] := pieces[moveIndex], pieces[blankIndex];
      blankIndex := moveIndex;
    }

    /** The completion test: scans every cell but the last for its index plus
        one and stops at the first that differs. On a valid board it holds
        exactly when the board is solved. */
    method IsComplete() returns (complete: bool)
      requires Valid()
      ensures complete <==> forall i :: 0 <= i < pieces.Length - 1 ==> pieces[i] == i + 1
      ensures complete <==> pieces[..] == Solved(size * size)
    {
      var i := 0;
      while i < pieces.Length - 1
        invariant 0 <= i <= pieces.Length - 1
        invariant forall k :: 0 <= k < i ==> pieces[k] == k + 1
      {
        if pieces[i] != i + 1 {
          CompleteIffSolved(pieces[..], size * size);
          return false;
        }
        i := i + 1;
      }
      CompleteIffSolved(pieces[..], size * size);
      return true;
    }
  }
}
