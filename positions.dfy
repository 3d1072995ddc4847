/** The position as a value and every state-changing operation of the engine
    as a function from the old position to the new one (or to the error the
    source throws). The class Engine.Shogi is proved against these. */
module Positions {
  import opened Pieces
  import opened Boards
  import opened MoveGen
  import opened DropGen

  /** The exceptions the source throws, one per cause. */
  datatype Error =
    | NoPieceAtSource
    | TurnViolation
    | IllegalMove
    | OccupiedDestination
    | IllegalDrop
    | HandShortage
    | EditModeRequired

  datatype Result<T> = Ok(value: T) | Err(error: Error)

  /** Board, both hands (kinds in insertion order; every piece in a hand has
      the hand's colour), side to move and the edit-mode flag. */
  datatype Position = Position(board: Board, blackHand: seq<Kind>, whiteHand: seq<Kind>, turn: Color, edit: bool)
  {
    function Hand(c: Color): seq<Kind> {
      if c == Black then blackHand else whiteHand
    }

    function WithHand(c: Color, h: seq<Kind>): (r: Position)
      ensures r.Hand(c) == h && r.Hand(OppositeColor(c)) == Hand(OppositeColor(c))
      ensures r.board == board && r.turn == turn && r.edit == edit
    {
      if c == Black then this.(blackHand := h) else this.(whiteHand := h)
    }
  }

  /** The same position up to the order of pieces within each hand. */
  predicate SameUpToHandOrder(s: Position, t: Position) {
    s.board == t.board && s.turn == t.turn && s.edit == t.edit
    && multiset(s.blackHand) == multiset(t.blackHand)
    && multiset(s.whiteHand) == multiset(t.whiteHand)
  }

  /** pushToHand: the piece joins the hand of its own colour. */
  function PushToHand(pos: Position, p: Piece): Position {
    pos.WithHand(p.color, pos.Hand(p.color) + [p.kind])
  }

  /** The hand with its first k removed. */
  function RemoveFirst(h: seq<Kind>, k: Kind): (r: seq<Kind>)
    requires k in h
    ensures |r| == |h| - 1
  {
    if h[0] == k then h[1..]
    else
      assert h == [h[0]] + h[1..];
      [h[0]] + RemoveFirst(h[1..], k)
  }

  /** Removing the first k takes exactly one k out of the hand's multiset. */
  lemma {:induction false} RemoveFirstMultiset(h: seq<Kind>, k: Kind)
    requires k in h
    ensures multiset(RemoveFirst(h, k)) == multiset(h) - multiset{k}
  {
    assert h == [h[0]] + h[1..];
    if h[0] != k {
      RemoveFirstMultiset(h[1..], k);
    }
  }

  /** Removing the first k is cutting out the first index that holds k. */
  lemma {:induction false} RemoveFirstAt(h: seq<Kind>, k: Kind, i: nat)
    requires i < |h| && h[i] == k && k !in h[..i]
    ensures RemoveFirst(h, k) == h[..i] + h[i + 1..]
  {
    if i > 0 {
      assert h[0] != k by { assert h[0] == h[..i][0]; }
      var t := h[1..];
      assert t[..i - 1] == h[..i][1..];
      assert k !in t[..i - 1];
      RemoveFirstAt(t, k, i - 1);
      assert RemoveFirst(h, k) == [h[0]] + RemoveFirst(t, k);
      assert h[..i] == [h[0]] + t[..i - 1];
      assert h[i + 1..] == t[i..];
    }
  }

  /** popFromHand: fails when colour c holds no k. */
  function PopFromHand(pos: Position, k: Kind, c: Color): Result<Position> {
    if k in pos.Hand(c) then Ok(pos.WithHand(c, RemoveFirst(pos.Hand(c), k)))
    else Err(HandShortage)
  }

  /** capture: the piece on (x, y) leaves the board, demoted and turned over,
      into the hand of the colour it now has. */
  function Capture(pos: Position, x: int, y: int): Position
    requires OnBoard(x, y) && pos.board[Idx(x, y)].Some?
  {
    var q := pos.board[Idx(x, y)].value;
    PushToHand(pos.(board := SetCell(pos.board, x, y, None)), InversePiece(Piece(Unpromote(q.kind), q.color)))
  }

  /** nextTurn (prevTurn is the same operation with two players). */
  function NextTurn(pos: Position): Position {
    if pos.edit then pos else pos.(turn := OppositeColor(pos.turn))
  }

  function PrevTurn(pos: Position): Position {
    if pos.edit then pos else NextTurn(pos)
  }

  /** checkTurn: a piece of colour c may act. */
  predicate TurnOk(pos: Position, c: Color) {
    pos.edit || c == pos.turn
  }

  /** The piece as it lands on rank y: promoted when asked or when y would
      be a dead end for it. */
  function Landed(p: Piece, y: int, promote: bool): Piece
    requires 1 <= y <= 9
    requires promote ==> CanPromote(p.kind)
  {
    if promote || DeadEnd(p.kind, y, p.color) then
      DeadEndRanks(p.kind, y, p.color);
      Piece(Promote(p.kind), p.color)
    else p
  }

  /** Preconditions shared by move's callers: the source file must be on the
      board, promotion only of promotable kinds, and in edit mode (where no
      geometry is checked) a target on the board and distinct from the source. */
  predicate MoveArgs(pos: Position, fx: int, fy: int, tx: int, ty: int, promote: bool) {
    && 1 <= fx <= 9
    && (pos.edit ==> OnBoard(tx, ty) && (fx != tx || fy != ty))
    && (promote && Peek(pos.board, fx, fy).Some? ==> CanPromote(Peek(pos.board, fx, fy).value.kind))
  }

  /** move(fromx, fromy, tox, toy, promote). */
  function MoveSpec(pos: Position, fx: int, fy: int, tx: int, ty: int, promote: bool): Result<Position>
    requires MoveArgs(pos, fx, fy, tx, ty, promote)
  {
    match Peek(pos.board, fx, fy)
    case None => Err(NoPieceAtSource)
    case Some(p) =>
      if !TurnOk(pos, p.color) then Err(TurnViolation)
      else if !pos.edit && Square(tx, ty) !in MovesFrom(pos.board, fx, fy) then Err(IllegalMove)
      else
        MovesFromSpec(pos.board, fx, fy, Square(tx, ty));
        Ok(MoveApply(pos, p, fx, fy, tx, ty, promote))
  }

  /** The part of move after its checks: capture whatever is on the target,
      land the piece there, empty the source, pass the turn. */
  function MoveApply(pos: Position, p: Piece, fx: int, fy: int, tx: int, ty: int, promote: bool): Position
    requires OnBoard(fx, fy) && OnBoard(tx, ty) && (fx != tx || fy != ty)
    requires promote ==> CanPromote(p.kind)
  {
    var s1 := if pos.board[Idx(tx, ty)].Some? then Capture(pos, tx, ty) else pos;
    var b := SetCell(SetCell(s1.board, tx, ty, Some(Landed(p, ty, promote))), fx, fy, None);
    NextTurn(s1.(board := b))
  }

  /** unmove(fromx, fromy, tox, toy, promote, capture): the caller passes
      the promote flag of the forward move and the captured piece's kind as
      it stood on the board. */
  function UnmoveSpec(pos: Position, fx: int, fy: int, tx: int, ty: int, promote: bool, capture: Option<Kind>): Result<Position>
    requires OnBoard(fx, fy) && 1 <= tx <= 9 && (fx != tx || fy != ty)
  {
    match Peek(pos.board, tx, ty)
    case None => Err(NoPieceAtSource)
    case Some(p) =>
      if !TurnOk(pos, OppositeColor(p.color)) then Err(TurnViolation)
      else
        var popped := if capture.Some? then PopFromHand(pos, Unpromote(capture.value), p.color) else Ok(pos);
        match popped
        case Err(e) => Err(e)
        case Ok(s1) => Ok(UnmoveApply(s1, p, fx, fy, tx, ty, promote, capture, pos.edit))
  }

  /** The part of unmove after its checks and the pop: move the piece back
      with an edit-mode move, demote it when promote is given, put the
      captured piece back, restore the edit flag and rewind the turn. */
  function UnmoveApply(s1: Position, p: Piece, fx: int, fy: int, tx: int, ty: int, promote: bool, capture: Option<Kind>, edit: bool): Position
    requires OnBoard(fx, fy) && OnBoard(tx, ty) && (fx != tx || fy != ty)
    requires s1.board[Idx(tx, ty)] == Some(p)
  {
    var inner := MoveSpec(s1.(edit := true), tx, ty, fx, fy, false);
    assert inner.Ok?;
    UnmoveRestore(inner.value, p, fx, fy, tx, ty, promote, capture, edit)
  }

  /** The end of unmove, after the piece is back on (fx, fy): demote it when
      promote is given, put the captured piece back on (tx, ty), restore the
      edit flag and rewind the turn. */
  function UnmoveRestore(s2: Position, p: Piece, fx: int, fy: int, tx: int, ty: int, promote: bool, capture: Option<Kind>, edit: bool): Position
    requires OnBoard(fx, fy) && OnBoard(tx, ty)
  {
    var back := Landed(p, fy, false);
    var b3 := if promote then SetCell(s2.board, fx, fy, Some(Piece(Unpromote(back.kind), back.color))) else s2.board;
    var b4 := if capture.Some? then SetCell(b3, tx, ty, Some(Restored(capture.value, OppositeColor(p.color)))) else b3;
    PrevTurn(s2.(board := b4, edit := edit))
  }

  /** The captured piece unmove puts back for a captured kind k: the
      demoted kind taken from the hand, turned to colour c, and promoted again
      when k was a promoted kind. */
  function Restored(k: Kind, c: Color): Piece {
    PromoteRoundTrip(k);
    Piece(if IsPromoted(k) then Promote(Unpromote(k)) else Unpromote(k), c)
  }

  /** drop(tox, toy, kind, color). */
  function DropSpec(pos: Position, tx: int, ty: int, k: Kind, c: Color): Result<Position>
    requires TurnOk(pos, c) ==> 1 <= tx <= 9
  {
    if !TurnOk(pos, c) then Err(TurnViolation)
    else if Peek(pos.board, tx, ty).Some? then Err(OccupiedDestination)
    else if DropMove(Square(tx, ty), k) !in DropsBy(pos.board, pos.Hand(c), c) then Err(IllegalDrop)
    else
      DropsBySpec(pos.board, pos.Hand(c), c, DropMove(Square(tx, ty), k));
      DropApply(pos, tx, ty, k, c)
  }

  /** The part of drop after its checks: take k from c's hand, place it,
      pass the turn. */
  function DropApply(pos: Position, tx: int, ty: int, k: Kind, c: Color): Result<Position>
    requires OnBoard(tx, ty)
  {
    match PopFromHand(pos, k, c)
    case Err(e) => Err(e)
    case Ok(s1) => Ok(NextTurn(s1.(board := SetCell(s1.board, tx, ty, Some(Piece(k, c))))))
  }

  /** undrop(tox, toy): the piece goes back, as it is, to its own colour's hand. */
  function UndropSpec(pos: Position, tx: int, ty: int): Result<Position>
    requires 1 <= tx <= 9
  {
    match Peek(pos.board, tx, ty)
    case None => Err(NoPieceAtSource)
    case Some(p) =>
      if !TurnOk(pos, OppositeColor(p.color)) then Err(TurnViolation)
      else
        var s1 := PushToHand(pos, p);
        Ok(PrevTurn(s1.(board := SetCell(s1.board, tx, ty, None))))
  }

  /** captureByColor(x, y, color): an empty cell is a crash in the source,
      so it is excluded in edit mode. */
  function CaptureByColorSpec(pos: Position, x: int, y: int, c: Color): Result<Position>
    requires pos.edit ==> OnBoard(x, y) && pos.board[Idx(x, y)].Some?
  {
    if !pos.edit then Err(EditModeRequired)
    else
      var q := pos.board[Idx(x, y)].value;
      Ok(PushToHand(pos.(board := SetCell(pos.board, x, y, None)), Piece(Unpromote(q.kind), c)))
  }

  /** The next state of a piece under flip. */
  function Flipped(p: Piece): Piece {
    if IsPromoted(p.kind) then InversePiece(Piece(Unpromote(p.kind), p.color))
    else if CanPromote(p.kind) then Piece(Promote(p.kind), p.color)
    else InversePiece(p)
  }

  /** flip(x, y): whether a piece was there, and the new position. */
  function FlipSpec(pos: Position, x: int, y: int): Result<(bool, Position)>
    requires pos.edit ==> 1 <= x <= 9
  {
    if !pos.edit then Err(EditModeRequired)
    else
      match Peek(pos.board, x, y)
      case None => Ok((false, pos))
      case Some(p) => Ok((true, pos.(board := SetCell(pos.board, x, y, Some(Flipped(p))))))
  }

  /** setTurn(color). */
  function SetTurnSpec(pos: Position, c: Color): Result<Position> {
    if !pos.edit then Err(EditModeRequired) else Ok(pos.(turn := c))
  }
}
