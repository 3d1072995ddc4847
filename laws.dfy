/** What the source promises about move, unmove, drop, undrop and the
    edit-mode operations, proved about the transition functions. */
module Laws {
  import opened Pieces
  import opened Boards
  import opened MoveGen
  import opened DropGen
  import opened Positions

  /** Whether the forward move promoted the piece (asked, or forced). */
  predicate Promoted(p: Piece, ty: int, promote: bool) {
    promote || DeadEnd(p.kind, ty, p.color)
  }

  /** The on-board kind of the piece a move onto (tx, ty) captures, if any. */
  function CapturedKind(s: Position, tx: int, ty: int): Option<Kind>
    requires 1 <= tx <= 9
  {
    match Peek(s.board, tx, ty)
    case None => None
    case Some(q) => Some(q.kind)
  }

  /** Every cell other than those listed holds what it held before. */
  predicate SameElsewhere(b: Board, b': Board, x1: int, y1: int, x2: int, y2: int) {
    forall x, y :: 1 <= x <= 9 && 1 <= y <= 9 && !(x == x1 && y == y1) && !(x == x2 && y == y2) ==> b'[Idx(x, y)] == b[Idx(x, y)]
  }

  /** move fails for an empty source, then (outside edit mode) for a piece
      not of the side to move, then (outside edit mode) for a target outside
      getMovesFrom; otherwise it succeeds, with the target on the board and
      distinct from the source. */
  lemma MoveErrors(s: Position, fx: int, fy: int, tx: int, ty: int, promote: bool)
    requires MoveArgs(s, fx, fy, tx, ty, promote)
    ensures var r := MoveSpec(s, fx, fy, tx, ty, promote);
      && (r == Err(NoPieceAtSource) <==> Peek(s.board, fx, fy).None?)
      && (r == Err(TurnViolation) <==> Peek(s.board, fx, fy).Some? && !TurnOk(s, Peek(s.board, fx, fy).value.color))
      && (r == Err(IllegalMove) <==>
            Peek(s.board, fx, fy).Some? && TurnOk(s, Peek(s.board, fx, fy).value.color)
            && !s.edit && Square(tx, ty) !in MovesFrom(s.board, fx, fy))
      && (r.Ok? ==>
            && OnBoard(fx, fy) && OnBoard(tx, ty) && (fx != tx || fy != ty)
            && r.value == MoveApply(s, Peek(s.board, fx, fy).value, fx, fy, tx, ty, promote))
  {
    if Peek(s.board, fx, fy).Some? {
      MovesFromSpec(s.board, fx, fy, Square(tx, ty));
    }
  }

  /** A successful move: the target holds the piece, promoted when asked or
      when the target is a dead end for it, the source is empty, nothing
      else on the board changes, a captured piece joins, demoted, the hand
      of its opposite colour, and the turn passes unless in edit mode. */
  lemma MoveEffects(s: Position, p: Piece, fx: int, fy: int, tx: int, ty: int, promote: bool)
    requires OnBoard(fx, fy) && OnBoard(tx, ty) && (fx != tx || fy != ty)
    requires promote ==> CanPromote(p.kind)
    ensures var s' := MoveApply(s, p, fx, fy, tx, ty, promote);
        && s'.board[Idx(tx, ty)] == Some(Landed(p, ty, promote))
        && (DeadEnd(p.kind, ty, p.color) ==> IsPromoted(Landed(p, ty, promote).kind))
        && (!Promoted(p, ty, promote) ==> Landed(p, ty, promote) == p)
        && s'.board[Idx(fx, fy)].None?
        && SameElsewhere(s.board, s'.board, fx, fy, tx, ty)
        && (s.board[Idx(tx, ty)].None? ==> s'.blackHand == s.blackHand && s'.whiteHand == s.whiteHand)
        && (s.board[Idx(tx, ty)].Some? ==>
              var q := s.board[Idx(tx, ty)].value;
              && s'.Hand(OppositeColor(q.color)) == s.Hand(OppositeColor(q.color)) + [Unpromote(q.kind)]
              && s'.Hand(q.color) == s.Hand(q.color))
        && s'.turn == (if s.edit then s.turn else OppositeColor(s.turn))
        && s'.edit == s.edit
  {
    DeadEndRanks(p.kind, ty, p.color);
    IdxInjective(fx, fy, tx, ty);
  }

  /** Outside edit mode a move never captures a piece of the mover's colour,
      so the captured piece always lands in the mover's hand. */
  lemma MoveCapturesOpponent(s: Position, fx: int, fy: int, tx: int, ty: int, promote: bool)
    requires MoveArgs(s, fx, fy, tx, ty, promote) && !s.edit
    requires MoveSpec(s, fx, fy, tx, ty, promote).Ok?
    ensures OnBoard(fx, fy) && OnBoard(tx, ty) && s.board[Idx(fx, fy)].Some?
    ensures s.board[Idx(tx, ty)].Some? ==> s.board[Idx(tx, ty)].value.color == OppositeColor(s.board[Idx(fx, fy)].value.color)
  {
    MovesFromSpec(s.board, fx, fy, Square(tx, ty));
  }

  lemma SameElsewhereRestores(b: Board, m: Board, b': Board, fx: int, fy: int, tx: int, ty: int)
    requires OnBoard(fx, fy) && OnBoard(tx, ty)
    requires SameElsewhere(b, m, fx, fy, tx, ty) && SameElsewhere(m, b', fx, fy, tx, ty)
    requires b'[Idx(fx, fy)] == b[Idx(fx, fy)] && b'[Idx(tx, ty)] == b[Idx(tx, ty)]
    ensures b' == b
  {
    forall i | 0 <= i < 81 ensures b'[i] == b[i] {
      var sq := SquareOf(i);
      IdxInjective(sq.x, sq.y, fx, fy);
      IdxInjective(sq.x, sq.y, tx, ty);
    }
  }

  /** On the way back the piece is not promoted again, and demoting it
      when the move promoted it gives the original piece. */
  lemma ReturnedPiece(p: Piece, fy: int, ty: int, promote: bool)
    requires 1 <= fy <= 9 && 1 <= ty <= 9
    requires promote ==> CanPromote(p.kind)
    requires !DeadEnd(p.kind, fy, p.color)
    ensures var back := Landed(Landed(p, ty, promote), fy, false);
      (if Promoted(p, ty, promote) then Piece(Unpromote(back.kind), back.color) else back) == p
  {
    var landed := Landed(p, ty, promote);
    DeadEndRanks(landed.kind, fy, landed.color);
    DeadEndRanks(p.kind, ty, p.color);
    PromoteRoundTrip(p.kind);
  }

  /** The target of a move holds nothing, or a piece of the other colour. */
  predicate CapturesOpponent(s: Position, fx: int, fy: int, tx: int, ty: int)
    requires 1 <= fx <= 9 && 1 <= tx <= 9
  {
    Peek(s.board, tx, ty).None? || Peek(s.board, fx, fy).None?
    || Peek(s.board, tx, ty).value.color != Peek(s.board, fx, fy).value.color
  }

  /** A successful unmove onto an empty source square: the piece returns to
      the source (forced promotion applied as move would, then demoted when
      promote is given), the captured piece (if any) reappears on the target
      with the other colour and its promotion, one demoted copy of its kind
      leaves the mover's hand, and the turn goes back unless in edit mode. */
  lemma UnmoveEffects(s: Position, fx: int, fy: int, tx: int, ty: int, promote: bool, capture: Option<Kind>)
    requires OnBoard(fx, fy) && OnBoard(tx, ty) && (fx != tx || fy != ty)
    requires s.board[Idx(fx, fy)].None? && s.board[Idx(tx, ty)].Some?
    requires TurnOk(s, OppositeColor(s.board[Idx(tx, ty)].value.color))
    requires capture.Some? ==> Unpromote(capture.value) in s.Hand(s.board[Idx(tx, ty)].value.color)
    ensures var pl := s.board[Idx(tx, ty)].value;
      var back := Landed(pl, fy, false);
      var r := UnmoveSpec(s, fx, fy, tx, ty, promote, capture);
      && r.Ok?
      && r.value.board[Idx(fx, fy)] == Some(if promote then Piece(Unpromote(back.kind), back.color) else back)
      && r.value.board[Idx(tx, ty)] == (if capture.Some? then Some(Restored(capture.value, OppositeColor(pl.color))) else None)
      && SameElsewhere(s.board, r.value.board, fx, fy, tx, ty)
      && r.value.Hand(pl.color) == (if capture.Some? then RemoveFirst(s.Hand(pl.color), Unpromote(capture.value)) else s.Hand(pl.color))
      && r.value.Hand(OppositeColor(pl.color)) == s.Hand(OppositeColor(pl.color))
      && r.value.turn == (if s.edit then s.turn else OppositeColor(s.turn))
      && r.value.edit == s.edit
  {
    var pl := s.board[Idx(tx, ty)].value;
    var sp := if capture.Some? then PopFromHand(s, Unpromote(capture.value), pl.color) else Ok(s);
    assert sp.Ok?;
    var t1 := sp.value;
    assert UnmoveSpec(s, fx, fy, tx, ty, promote, capture) == Ok(UnmoveApply(t1, pl, fx, fy, tx, ty, promote, capture, s.edit));
    UnmoveApplyEffects(t1, pl, fx, fy, tx, ty, promote, capture, s.edit);
  }

  /** After the pop, unmove's edit-mode move back, demotion and restoration
      touch only the two squares, leave the hands alone and rewind the turn. */
  lemma UnmoveApplyEffects(t1: Position, p: Piece, fx: int, fy: int, tx: int, ty: int, promote: bool, capture: Option<Kind>, edit: bool)
    requires OnBoard(fx, fy) && OnBoard(tx, ty) && (fx != tx || fy != ty)
    requires t1.board[Idx(fx, fy)].None? && t1.board[Idx(tx, ty)] == Some(p)
    ensures var back := Landed(p, fy, false);
      var u := UnmoveApply(t1, p, fx, fy, tx, ty, promote, capture, edit);
      && u.board[Idx(fx, fy)] == Some(if promote then Piece(Unpromote(back.kind), back.color) else back)
      && u.board[Idx(tx, ty)] == (if capture.Some? then Some(Restored(capture.value, OppositeColor(p.color))) else None)
      && SameElsewhere(t1.board, u.board, fx, fy, tx, ty)
      && u.blackHand == t1.blackHand && u.whiteHand == t1.whiteHand
      && u.turn == (if edit then t1.turn else OppositeColor(t1.turn))
      && u.edit == edit
  {
    var e1 := t1.(edit := true);
    MoveErrors(e1, tx, ty, fx, fy, false);
    MoveEffects(e1, p, tx, ty, fx, fy, false);
    IdxInjective(fx, fy, tx, ty);
  }

  /** unmove undoes move: given the same squares, whether the piece was
      promoted and the captured piece's on-board kind, it restores the board,
      the turn, the edit flag and both hands (up to the order within a hand).
      The source square must not be a dead end for the moving piece (unmove
      would otherwise promote it on the way back), and a capture must be of
      the other colour (which the move checks itself outside edit mode). */
  lemma {:induction false} MoveUnmoveRoundTrip(s: Position, fx: int, fy: int, tx: int, ty: int, promote: bool)
    requires MoveArgs(s, fx, fy, tx, ty, promote)
    requires MoveSpec(s, fx, fy, tx, ty, promote).Ok?
    requires Peek(s.board, fx, fy).Some? && !DeadEnd(Peek(s.board, fx, fy).value.kind, fy, Peek(s.board, fx, fy).value.color)
    requires 1 <= tx <= 9 && CapturesOpponent(s, fx, fy, tx, ty)
    ensures OnBoard(fx, fy) && (fx != tx || fy != ty)
    ensures var s1 := MoveSpec(s, fx, fy, tx, ty, promote).value;
      var r := UnmoveSpec(s1, fx, fy, tx, ty, Promoted(Peek(s.board, fx, fy).value, ty, promote), CapturedKind(s, tx, ty));
      r.Ok? && SameUpToHandOrder(r.value, s)
  {
    var p := Peek(s.board, fx, fy).value;
    MoveErrors(s, fx, fy, tx, ty, promote);
    var s1 := MoveApply(s, p, fx, fy, tx, ty, promote);
    MoveEffects(s, p, fx, fy, tx, ty, promote);
    var prom := Promoted(p, ty, promote);
    var cap := CapturedKind(s, tx, ty);
    if cap.Some? {
      var q := s.board[Idx(tx, ty)].value;
      assert q.color == OppositeColor(p.color);
      assert s1.Hand(p.color) == s.Hand(p.color) + [Unpromote(q.kind)];
    }
    UnmoveEffects(s1, fx, fy, tx, ty, prom, cap);
    var r := UnmoveSpec(s1, fx, fy, tx, ty, prom, cap).value;
    assert r.board == s.board by {
      ReturnedPiece(p, fy, ty, promote);
      if cap.Some? {
        PromoteRoundTrip(cap.value);
      }
      SameElsewhereRestores(s.board, s1.board, r.board, fx, fy, tx, ty);
    }
    assert multiset(r.Hand(p.color)) == multiset(s.Hand(p.color)) by {
      if cap.Some? {
        HandRestored(s.Hand(p.color), s1.Hand(p.color), r.Hand(p.color), Unpromote(cap.value));
      }
    }
    assert r.Hand(OppositeColor(p.color)) == s.Hand(OppositeColor(p.color));
  }

  /** Taking back the one kind a capture pushed leaves the hand's multiset as it was. */
  lemma HandRestored(h0: seq<Kind>, h1: seq<Kind>, h2: seq<Kind>, k: Kind)
    requires h1 == h0 + [k] && h2 == RemoveFirst(h1, k)
    ensures multiset(h2) == multiset(h0)
  {
    RemoveFirstMultiset(h1, k);
  }

  /** drop fails when colour c is not to move (outside edit mode), when the
      target is occupied, and when getDropsBy(c) does not offer the drop (in
      edit mode too); it never runs short of the kind, since getDropsBy only
      offers kinds in the hand. On success exactly one k leaves c's hand, the
      target holds c's k, which is no dead end there and no second pawn on
      its file, nothing else changes and the turn passes unless in edit mode. */
  lemma DropOutcome(s: Position, tx: int, ty: int, k: Kind, c: Color)
    requires TurnOk(s, c) ==> 1 <= tx <= 9
    ensures var r := DropSpec(s, tx, ty, k, c);
      && (r == Err(TurnViolation) <==> !TurnOk(s, c))
      && (r == Err(OccupiedDestination) <==> TurnOk(s, c) && Peek(s.board, tx, ty).Some?)
      && (r == Err(IllegalDrop) <==>
            TurnOk(s, c) && Peek(s.board, tx, ty).None? && DropMove(Square(tx, ty), k) !in DropsBy(s.board, s.Hand(c), c))
      && r != Err(HandShortage)
    ensures var r := DropSpec(s, tx, ty, k, c);
      r.Ok? ==>
        && OnBoard(tx, ty) && k in s.Hand(c)
        && !DeadEnd(k, ty, c) && !(k == FU && PawnOnFile(s.board, c, tx))
        && r.value.board == s.board[Idx(tx, ty) := Some(Piece(k, c))]
        && multiset(r.value.Hand(c)) == multiset(s.Hand(c)) - multiset{k}
        && r.value.Hand(OppositeColor(c)) == s.Hand(OppositeColor(c))
        && r.value.turn == (if s.edit then s.turn else OppositeColor(s.turn))
        && r.value.edit == s.edit
  {
    if TurnOk(s, c) && Peek(s.board, tx, ty).None? {
      DropsBySpec(s.board, s.Hand(c), c, DropMove(Square(tx, ty), k));
      if k in s.Hand(c) {
        RemoveFirstMultiset(s.Hand(c), k);
      }
    }
  }

  /** undrop fails on an empty cell and when the piece's own colour is to
      move (outside edit mode); otherwise the cell empties, the piece joins
      its own colour's hand unchanged, and the turn goes back. */
  lemma UndropEffects(s: Position, tx: int, ty: int)
    requires 1 <= tx <= 9
    ensures var r := UndropSpec(s, tx, ty);
      && (r == Err(NoPieceAtSource) <==> Peek(s.board, tx, ty).None?)
      && (r == Err(TurnViolation) <==> Peek(s.board, tx, ty).Some? && !TurnOk(s, OppositeColor(Peek(s.board, tx, ty).value.color)))
    ensures var r := UndropSpec(s, tx, ty);
      r.Ok? ==>
        var p := Peek(s.board, tx, ty).value;
        && OnBoard(tx, ty)
        && r.value.board == s.board[Idx(tx, ty) := None]
        && r.value.Hand(p.color) == s.Hand(p.color) + [p.kind]
        && r.value.Hand(OppositeColor(p.color)) == s.Hand(OppositeColor(p.color))
        && r.value.turn == (if s.edit then s.turn else OppositeColor(s.turn))
        && r.value.edit == s.edit
  {
  }

  /** undrop undoes drop: the board, the turn, the edit flag and both hands
      (up to order) are as before the drop. */
  lemma DropUndropRoundTrip(s: Position, tx: int, ty: int, k: Kind, c: Color)
    requires TurnOk(s, c) ==> 1 <= tx <= 9
    requires DropSpec(s, tx, ty, k, c).Ok?
    ensures UndropSpec(DropSpec(s, tx, ty, k, c).value, tx, ty).Ok?
    ensures SameUpToHandOrder(UndropSpec(DropSpec(s, tx, ty, k, c).value, tx, ty).value, s)
  {
    DropOutcome(s, tx, ty, k, c);
    UndoDrop(s, DropSpec(s, tx, ty, k, c).value, tx, ty, k, c);
  }

  /** undrop restores a position that a drop of k by c on (tx, ty) produced. */
  lemma UndoDrop(s: Position, s1: Position, tx: int, ty: int, k: Kind, c: Color)
    requires OnBoard(tx, ty) && s.board[Idx(tx, ty)].None? && k in s.Hand(c) && TurnOk(s, c)
    requires s1.board == s.board[Idx(tx, ty) := Some(Piece(k, c))]
    requires multiset(s1.Hand(c)) == multiset(s.Hand(c)) - multiset{k}
    requires s1.Hand(OppositeColor(c)) == s.Hand(OppositeColor(c))
    requires s1.turn == (if s.edit then s.turn else OppositeColor(s.turn)) && s1.edit == s.edit
    ensures UndropSpec(s1, tx, ty).Ok?
    ensures SameUpToHandOrder(UndropSpec(s1, tx, ty).value, s)
  {
    UndropEffects(s1, tx, ty);
    assert Peek(s1.board, tx, ty) == Some(Piece(k, c));
    var r := UndropSpec(s1, tx, ty).value;
    assert r.board == s.board;
    assert multiset(r.Hand(c)) == multiset(s.Hand(c));
  }

  /** Edit-only operations refuse to run outside edit mode. */
  lemma EditOnly(s: Position, x: int, y: int, c: Color)
    requires !s.edit
    ensures CaptureByColorSpec(s, x, y, c) == Err(EditModeRequired)
    ensures FlipSpec(s, x, y) == Err(EditModeRequired)
    ensures SetTurnSpec(s, c) == Err(EditModeRequired)
  {
  }

  /** captureByColor empties the cell and adds the piece, demoted, to c's
      hand, whatever its colour was. */
  lemma CaptureByColorEffects(s: Position, x: int, y: int, c: Color)
    requires s.edit && OnBoard(x, y) && s.board[Idx(x, y)].Some?
    ensures var r := CaptureByColorSpec(s, x, y, c);
      && r.Ok?
      && r.value.board == s.board[Idx(x, y) := None]
      && r.value.Hand(c) == s.Hand(c) + [Unpromote(s.board[Idx(x, y)].value.kind)]
      && r.value.Hand(OppositeColor(c)) == s.Hand(OppositeColor(c))
      && r.value.turn == s.turn && r.value.edit
  {
  }

  /** flip walks a promotable piece through black, black promoted, white,
      white promoted and back; any other piece just changes colour. */
  lemma {:induction false} FlipCycle(p: Piece)
    requires !IsPromoted(p.kind)
    ensures CanPromote(p.kind) ==>
      && Flipped(p) == Piece(Promote(p.kind), p.color)
      && Flipped(Flipped(p)) == Piece(p.kind, OppositeColor(p.color))
      && Flipped(Flipped(Flipped(Flipped(p)))) == p
    ensures !CanPromote(p.kind) ==> Flipped(p) == InversePiece(p) && Flipped(Flipped(p)) == p
  {
    if CanPromote(p.kind) {
      PromoteRoundTrip(p.kind);
      var q := Flipped(Flipped(p));
      PromoteRoundTrip(q.kind);
    }
  }

  /** flip on an empty cell answers false and changes nothing; on a piece it
      answers true and changes that cell only. */
  lemma FlipEffects(s: Position, x: int, y: int)
    requires s.edit && 1 <= x <= 9
    ensures var r := FlipSpec(s, x, y);
      && r.Ok?
      && (Peek(s.board, x, y).None? <==> !r.value.0)
      && (Peek(s.board, x, y).None? ==> r.value.1 == s)
      && (Peek(s.board, x, y).Some? ==>
            r.value.1 == s.(board := s.board[Idx(x, y) := Some(Flipped(Peek(s.board, x, y).value))]))
  {
  }
}
