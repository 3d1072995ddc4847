/** The 9x9 board as a value: 81 cells, file-major, cell (x, y) at index
    (x-1)*9 + (y-1), matching the source's board[x-1][y-1]. */
module Boards {
  import opened Pieces

  type Board = b: seq<Option<Piece>> | |b| == 81 witness seq(81, _ => None)

  datatype Option<T> = None | Some(value: T)

  datatype Square = Square(x: int, y: int)

  predicate OnBoard(x: int, y: int) {
    1 <= x <= 9 && 1 <= y <= 9
  }

  function Idx(x: int, y: int): (i: nat)
    requires OnBoard(x, y)
    ensures i < 81
  {
    (x - 1) * 9 + (y - 1)
  }

  function SquareOf(i: nat): (s: Square)
    requires i < 81
    ensures OnBoard(s.x, s.y) && Idx(s.x, s.y) == i
  {
    Square(i / 9 + 1, i % 9 + 1)
  }

  lemma SquareOfIdx(x: int, y: int)
    requires OnBoard(x, y)
    ensures SquareOf(Idx(x, y)) == Square(x, y)
  {
  }

  lemma IdxInjective(x: int, y: int, x': int, y': int)
    requires OnBoard(x, y) && OnBoard(x', y')
    ensures Idx(x, y) == Idx(x', y') <==> x == x' && y == y'
  {
  }

  /** The source's get: a file outside 1..9 is a crash there (excluded by the
      requires); a rank outside 1..9 reads an undefined cell, i.e. empty. */
  function Peek(b: Board, x: int, y: int): (r: Option<Piece>)
    requires 1 <= x <= 9
    ensures r.Some? ==> OnBoard(x, y)
  {
    if 1 <= y <= 9 then b[Idx(x, y)] else None
  }

  function SetCell(b: Board, x: int, y: int, p: Option<Piece>): (r: Board)
    requires OnBoard(x, y)
    ensures Peek(r, x, y) == p
    ensures forall x', y' :: 1 <= x' <= 9 && !(x' == x && y' == y) ==> Peek(r, x', y') == Peek(b, x', y')
  {
    b[Idx(x, y) := p]
  }
}
