/** The puzzle's moves as values: a board is its arrangement of tiles and the
    position of the blank, and a move is named by the direction in which the
    blank appears to travel. This is the specification the methods of class
    Puzzle are proved against. */
module Moves {
  import opened Grid
  import opened Tiles

  datatype Direction = Up | Down | Left | Right

  /** The state of class Puzzle: `pieces` and `blank_index`. */
  datatype Board = Board(tiles: seq<int>, blank: int)

  /** The shape every board has: size*size cells and a blank position inside the grid. */
  predicate Shaped(size: int, b: Board) {
    size > 0 && |b.tiles| == size * size && 0 <= b.blank < size * size
  }

  /** The board invariant: a size-by-size grid holding each of 0 .. size*size - 1
      once, with the blank (0) at `blank`. */
  predicate ValidBoard(size: int, b: Board) {
    size >= 3 && Shaped(size, b) && b.tiles[b.blank] == 0 &&
    IsPermutation(b.tiles, size * size)
  }

  /** On a valid board the blank is the only cell holding 0. */
  lemma BlankIsUnique(size: int, b: Board, i: int)
    requires ValidBoard(size, b) && 0 <= i < |b.tiles|
    ensures b.tiles[i] == 0 <==> i == b.blank
  {
    if i < b.blank {
      PermutationDistinct(b.tiles, size * size, i, b.blank);
    } else if i > b.blank {
      PermutationDistinct(b.tiles, size * size, b.blank, i);
    }
  }

  /** The cell whose tile a move in direction `d` slides into the blank, or -1.
      The direction is that of the blank, so the tile comes from the opposite
      side: Up takes the tile below the blank. */
  function Source(size: int, d: Direction, blank: int): (r: int)
    requires size > 0 && 0 <= blank < size * size
    ensures r != -1 ==> 0 <= r < size * size && Adjacent(size, blank, r)
    ensures d == Up && r != -1 ==>
      Row(size, r) == Row(size, blank) + 1 && Col(size, r) == Col(size, blank)
    ensures d == Down && r != -1 ==>
      Row(size, r) == Row(size, blank) - 1 && Col(size, r) == Col(size, blank)
    ensures d == Left && r != -1 ==>
      Row(size, r) == Row(size, blank) && Col(size, r) == Col(size, blank) + 1
    ensures d == Right && r != -1 ==>
      Row(size, r) == Row(size, blank) && Col(size, r) == Col(size, blank) - 1
  {
    NeighboursAdjacent(size, blank);
    match d
    case Up => IndexDown(size, blank)
    case Down => IndexUp(size, blank)
    case Left => IndexRight(size, blank)
    case Right => IndexLeft(size, blank)
  }

  /** The blank sits on the edge that stops a move in direction `d`: the
      bottom row for Up, the top row for Down, the rightmost column for Left
      and the leftmost column for Right. */
  predicate AtEdge(size: int, d: Direction, blank: int)
    requires size > 0
  {
    match d
    case Up => Row(size, blank) == size - 1
    case Down => Row(size, blank) == 0
    case Left => Col(size, blank) == size - 1
    case Right => Col(size, blank) == 0
  }

  function Opposite(d: Direction): Direction {
    match d
    case Up => Down
    case Down => Up
    case Left => Right
    case Right => Left
  }

  /** One move: swap the blank with the source cell and follow the blank there,
      or leave the board alone at the edge. */
  function Move(size: int, b: Board, d: Direction): (r: Board)
    requires Shaped(size, b)
    ensures Shaped(size, r) && multiset(r.tiles) == multiset(b.tiles)
  {
    var t := Source(size, d, b.blank);
    if t == -1 then b else Board(Swap(b.tiles, b.blank, t), t)
  }

  /** Every move keeps the board invariant: the tiles stay an arrangement of
      0 .. size*size - 1 and the blank index follows the 0. */
  lemma MovePreservesValid(size: int, b: Board, d: Direction)
    requires ValidBoard(size, b)
    ensures ValidBoard(size, Move(size, b, d))
  {
  }

  /** A move changes the board exactly when the blank is not on the edge that
      stops it; at that edge it is a no-op. */
  lemma MoveNoOpIffAtEdge(size: int, b: Board, d: Direction)
    requires ValidBoard(size, b)
    ensures Move(size, b, d) == b <==> AtEdge(size, d, b.blank)
  {
    var t := Source(size, d, b.blank);
    if t != -1 {
      assert Move(size, b, d).blank == t != b.blank;
    }
  }

  /** A move that is not stopped slides one real tile from a cell adjacent to
      the blank into the blank's cell, puts the blank where that tile was, and
      leaves every other cell as it was. */
  lemma MoveSlidesOneTile(size: int, b: Board, d: Direction)
    requires ValidBoard(size, b) && !AtEdge(size, d, b.blank)
    ensures var t := Source(size, d, b.blank);
      var r := Move(size, b, d);
      t != -1 && Adjacent(size, b.blank, t) && b.tiles[t] != 0 &&
      r.blank == t && r.tiles[b.blank] == b.tiles[t] && r.tiles[t] == 0 &&
      forall k :: 0 <= k < size * size && k != b.blank && k != t ==> r.tiles[k] == b.tiles[k]
  {
    var t := Source(size, d, b.blank);
    if t < b.blank {
      PermutationDistinct(b.tiles, size * size, t, b.blank);
    } else {
      PermutationDistinct(b.tiles, size * size, b.blank, t);
    }
  }

  /** A move that is not stopped is undone by the opposite move: Up then Down,
      Down then Up, Left then Right and Right then Left restore both the tiles
      and the blank position. */
  lemma MoveThenOppositeRestores(size: int, b: Board, d: Direction)
    requires ValidBoard(size, b) && !AtEdge(size, d, b.blank)
    ensures Move(size, Move(size, b, d), Opposite(d)) == b
  {
    var t := Source(size, d, b.blank);
    UpDownInverse(size, b.blank);
    LeftRightInverse(size, b.blank);
    assert Source(size, Opposite(d), t) == b.blank;
    assert Swap(Swap(b.tiles, b.blank, t), t, b.blank) == b.tiles;
  }

  /** The board the constructor builds from the shuffled tiles 1 .. n - 1:
      the first two tiles exchanged, then the blank appended (puzzle.cc lines 68-70). */
  function Initial(shuffled: seq<int>): (b: Board)
    requires |shuffled| >= 2
    ensures |b.tiles| == |shuffled| + 1 && b.blank == |shuffled| && b.tiles[b.blank] == 0
  {
    Board([shuffled[1], shuffled[0]] + shuffled[2..] + [0], |shuffled|)
  }

  /** Whatever order the shuffle produced, the initial board satisfies the
      board invariant, with the blank in the last cell. */
  lemma InitialValid(size: int, shuffled: seq<int>)
    requires size >= 3 && multiset(shuffled) == multiset(Range(1, size * size))
    ensures |shuffled| == size * size - 1
    ensures ValidBoard(size, Initial(shuffled))
    ensures Initial(shuffled).blank == size * size - 1
  {
    var n := size * size;
    assert |shuffled| == n - 1 by {
      assert |shuffled| == |multiset(shuffled)| == |multiset(Range(1, n))| == |Range(1, n)|;
    }
    InitialMultiset(shuffled);
    RangeFromZero(n);
  }

  /** The initial board holds the shuffled tiles and one blank. */
  lemma InitialMultiset(shuffled: seq<int>)
    requires |shuffled| >= 2
    ensures multiset(Initial(shuffled).tiles) == multiset(shuffled) + multiset{0}
  {
    var rest := shuffled[2..];
    assert shuffled == [shuffled[0], shuffled[1]] + rest;
    assert Initial(shuffled).tiles == [shuffled[1], shuffled[0]] + rest + [0];
  }

  /** A shuffle outcome whose first two tiles are exchanged is a rearrangement
      of the same tiles, and the constructor's exchange restores their order. */
  lemma ExchangeFirstTwo(s: seq<int>)
    requires |s| >= 2
    ensures multiset([s[1], s[0]] + s[2..]) == multiset(s)
    ensures Initial([s[1], s[0]] + s[2..]).tiles == s + [0]
  {
    var e := [s[1], s[0]] + s[2..];
    assert s == [s[0], s[1]] + s[2..];
    assert e[2..] == s[2..];
  }

  /** The tiles 1 .. n - 1 begin with 1 and 2. */
  lemma RangeFromOne(n: int)
    requires n >= 3
    ensures Range(1, n) == [1, 2] + Range(3, n)
  {
    assert Range(1, n) == [1] + Range(2, n);
    assert Range(2, n) == [2] + Range(3, n);
  }

  /** The unconditional exchange of the first two tiles does not keep the
      solved board out of the starting positions: on every board of n cells
      the shuffle outcome 2, 1, 3, ..., n - 1, a rearrangement of the tiles,
      yields the solved board. */
  lemma InitialMayBeSolved(n: int)
    requires n >= 3
    ensures multiset([2, 1] + Range(3, n)) == multiset(Range(1, n))
    ensures Initial([2, 1] + Range(3, n)).tiles == Solved(n)
    ensures InOrder(Initial([2, 1] + Range(3, n)).tiles)
  {
    var tiles := Range(1, n);
    RangeFromOne(n);
    assert [2, 1] + Range(3, n) == [tiles[1], tiles[0]] + tiles[2..];
    ExchangeFirstTwo(tiles);
    SolvedIsPermutation(n);
    CompleteIffSolved(Solved(n), n);
  }

  /** On [1..7, 0, 8] with the blank in cell 7, Right pulls tile 7 into the
      blank, giving [1..6, 0, 7, 8] with the blank in cell 6. */
  lemma MoveRightExample()
    ensures Move(3, Board([1, 2, 3, 4, 5, 6, 7, 0, 8], 7), Right).blank == 6
    ensures Move(3, Board([1, 2, 3, 4, 5, 6, 7, 0, 8], 7), Right).tiles == [1, 2, 3, 4, 5, 6, 0, 7, 8]
  {
    assert IndexLeft(3, 7) == 6;
    var after := [1, 2, 3, 4, 5, 6, 7, 0, 8][7 := 7][6 := 0];
    assert after == [1, 2, 3, 4, 5, 6, 0, 7, 8];
  }

  /** With the blank in the top-left corner there is no tile above it, so Down is a no-op. */
  lemma MoveDownTopRowExample()
    ensures Move(3, Board([0, 1, 2, 3, 4, 5, 6, 7, 8], 0), Down) == Board([0, 1, 2, 3, 4, 5, 6, 7, 8], 0)
  {
    assert Source(3, Down, 0) == -1;
  }
}
