/** The position engine as the source has it: a mutable object whose
    methods change the board, the hands, the turn and the edit-mode flag in
    place. Each method is proved to compute what the corresponding function
    of module Positions or MoveGen/DropGen prescribes. */
module Engine {
  import opened Pieces
  import opened Geometry
  import opened Boards
  import opened MoveGen
  import opened DropGen
  import opened Positions
  import opened Laws

  /** The kinds getHandsSummary counts. */
  const SummaryKinds: set<Kind> := {FU, KY, KE, GI, KI, KA, HI}

  /** Counting one more element of a hand. */
  lemma CountStep(hand: seq<Kind>, i: nat, k: Kind)
    requires i < |hand|
    ensures multiset(hand[..i + 1])[k] == multiset(hand[..i])[k] + (if hand[i] == k then 1 else 0)
  {
    assert hand[..i + 1] == hand[..i] + [hand[i]];
  }

  /** One step of getHandsSummary's tally: a count of the first i hand
      elements becomes a count of the first i + 1; a kind outside the seven
      is skipped. */
  lemma TallyStep(hand: seq<Kind>, i: nat, m: map<Kind, nat>)
    requires i < |hand| && m.Keys == SummaryKinds
    requires forall k :: k in SummaryKinds ==> m[k] == multiset(hand[..i])[k]
    ensures var m' := if hand[i] in m then m[hand[i] := m[hand[i]] + 1] else m;
      m'.Keys == SummaryKinds && forall k :: k in SummaryKinds ==> m'[k] == multiset(hand[..i + 1])[k]
  {
    forall k | k in SummaryKinds
      ensures (if hand[i] in m then m[hand[i] := m[hand[i]] + 1] else m)[k] == multiset(hand[..i + 1])[k]
    {
      CountStep(hand, i, k);
    }
  }

  class Shogi {
    /** The 81 cells, cell (x, y) at index (x-1)*9 + (y-1). */
    var board: array<Option<Piece>>
    var blackHand: seq<Kind>
    var whiteHand: seq<Kind>
    var turn: Color
    var flagEditMode: bool

    ghost predicate Valid()
      reads this
    {
      board.Length == 81
    }

    /** The position this object holds. */
    function Pos(): Position
      reads this, board
      requires Valid()
    {
      Position(board[..], blackHand, whiteHand, turn, flagEditMode)
    }

    /** Builds the position from a board, two hands and the side to move,
        with edit mode off (what initialize does once a preset or SFEN text
        has been decoded). */
    constructor (b: Board, black: seq<Kind>, white: seq<Kind>, t: Color)
      ensures Valid() && fresh(board)
      ensures Pos() == Position(b, black, white, t, false)
    {
      board := new Option<Piece>[81](i requires 0 <= i < 81 => b[i]);
      blackHand, whiteHand := black, white;
      turn := t;
      flagEditMode := false;
    }

    method EditMode(flag: bool)
      requires Valid()
      modifies this
      ensures Valid() && board == old(board)
      ensures Pos() == old(Pos()).(edit := flag)
    {
      flagEditMode := flag;
    }

    /** get: a rank outside 1..9 reads as an empty cell. */
    function Get(x: int, y: int): (r: Option<Piece>)
      reads this, board
      requires Valid() && 1 <= x <= 9
      ensures r == Peek(board[..], x, y)
    {
      if 1 <= y <= 9 then board[Idx(x, y)] else None
    }

    method Set(x: int, y: int, p: Option<Piece>)
      requires Valid() && OnBoard(x, y)
      modifies board
      ensures board[..] == old(board[..])[Idx(x, y) := p]
    {
      board[Idx(x, y)] := p;
    }

    method PushToHand(p: Piece)
      requires Valid()
      modifies this
      ensures Valid() && board == old(board)
      ensures Pos() == Positions.PushToHand(old(Pos()), p)
    {
      if p.color == Black {
        blackHand := blackHand + [p.kind];
      } else {
        whiteHand := whiteHand + [p.kind];
      }
    }

    /** popFromHand: the first k of colour c's hand, or None when there is none. */
    method PopFromHand(k: Kind, c: Color) returns (piece: Option<Piece>)
      requires Valid()
      modifies this
      ensures Valid() && board == old(board)
      ensures var r := Positions.PopFromHand(old(Pos()), k, c);
        && (r.Ok? ==> piece == Some(Piece(k, c)) && Pos() == r.value)
        && (r.Err? ==> piece.None? && Pos() == old(Pos()))
    {
      var hand := Pos().Hand(c);
      var i := 0;
      while i < |hand|
        invariant i <= |hand|
        invariant k !in hand[..i]
      {
        if hand[i] == k {
          RemoveFirstAt(hand, k, i);
          var rest := hand[..i] + hand[i + 1..];
          if c == Black {
            blackHand := rest;
          } else {
            whiteHand := rest;
          }
          return Some(Piece(k, c));
        }
        assert hand[..i + 1] == hand[..i] + [hand[i]];
        i := i + 1;
      }
      assert hand[..i] == hand;
      return None;
    }

    /** capture: the piece on (x, y) goes, demoted and turned over, to the
        hand of its new colour. */
    method Capture(x: int, y: int)
      requires Valid() && OnBoard(x, y) && board[Idx(x, y)].Some?
      modifies this, board
      ensures Valid() && board == old(board)
      ensures Pos() == Positions.Capture(old(Pos()), x, y)
    {
      var piece := Get(x, y).value;
      Set(x, y, None);
      PushToHand(InversePiece(Piece(Unpromote(piece.kind), piece.color)));
    }

    method NextTurn()
      requires Valid()
      modifies this
      ensures Valid() && board == old(board)
      ensures Pos() == Positions.NextTurn(old(Pos()))
    {
      if flagEditMode {
        return;
      }
      turn := if turn == Black then White else Black;
    }

    method PrevTurn()
      requires Valid()
      modifies this
      ensures Valid() && board == old(board)
      ensures Pos() == Positions.PrevTurn(old(Pos()))
    {
      if flagEditMode {
        return;
      }
      NextTurn();
    }

    /** checkTurn: true when a piece of colour c may act now. */
    method CheckTurn(c: Color) returns (ok: bool)
      requires Valid()
      ensures ok <==> flagEditMode || c == turn
    {
      ok := flagEditMode || c == turn;
    }

    /** One sliding walk of getMovesFrom: from `to`, keep stepping by d
        while the square is legal, stopping after an occupied one. */
    method Slide(to: Square, d: Offset, c: Color) returns (ret: seq<Square>)
      requires Valid() && d != Offset(0, 0)
      ensures ret == Ray(board[..], c, to, d)
    {
      var b := board[..];
      var cur := to;
      ret := [];
      while Legal(b, cur, c)
        invariant ret + Ray(b, c, cur, d) == Ray(b, c, to, d)
        decreases RayMeasure(cur, d)
      {
        RayStep(b, c, cur, d);
        if Occupied(b, cur) {
          ret := ret + [cur];
          break;
        }
        AppendStep(ret, cur, Ray(b, c, Step(cur, d), d));
        ret := ret + [cur];
        cur := Step(cur, d);
      }
    }

    /** The short-range half of getMovesFrom: each offset, mirrored for c,
        whose target is legal. */
    method JustMoves(from: Square, c: Color, offs: seq<Offset>) returns (ret: seq<Square>)
      requires Valid()
      ensures ret == JustTargets(board[..], from, c, offs)
    {
      ret := [];
      for i := 0 to |offs|
        invariant ret == JustTargets(board[..], from, c, offs[..i])
      {
        assert offs[..i + 1][..i] == offs[..i];
        var to := Step(from, Mirror(offs[i], c));
        if Legal(board[..], to, c) {
          ret := ret + [to];
        }
      }
      assert offs[..|offs|] == offs;
    }

    /** The sliding half of getMovesFrom: one walk per direction. */
    method FlyMoves(from: Square, c: Color, dirs: seq<Offset>) returns (ret: seq<Square>)
      requires Valid() && NonZero(dirs)
      ensures ret == FlyTargets(board[..], from, c, dirs)
    {
      ret := [];
      for i := 0 to |dirs|
        invariant ret == FlyTargets(board[..], from, c, dirs[..i])
      {
        assert dirs[..i + 1][..i] == dirs[..i];
        var d := Mirror(dirs[i], c);
        var walk := Slide(Step(from, d), d, c);
        ret := ret + walk;
      }
      assert dirs[..|dirs|] == dirs;
    }

    /** getMovesFrom. */
    method GetMovesFrom(x: int, y: int) returns (ret: seq<Square>)
      requires Valid() && 1 <= x <= 9
      ensures ret == MovesFrom(board[..], x, y)
    {
      var piece := Get(x, y);
      if piece.None? {
        return [];
      }
      var p := piece.value;
      var def := MoveDefinitions(p.kind);
      var just := JustMoves(Square(x, y), p.color, def.just);
      var fly := FlyMoves(Square(x, y), p.color, def.fly);
      ret := just + fly;
    }

    /** One file of the first pass of getDropsBy: appends the file's empty
        squares to places and reports whether colour c has an unpromoted
        pawn on it. */
    method ScanFile(c: Color, i: int, places0: seq<Square>) returns (places: seq<Square>, fuExists: bool)
      requires Valid() && 1 <= i <= 9
      requires places0 == EmptyPrefix(board[..], (i - 1) * 9)
      ensures places == EmptyPrefix(board[..], i * 9)
      ensures fuExists == PawnOnFile(board[..], c, i)
    {
      var b := board[..];
      ghost var n: nat := (i - 1) * 9;
      places := places0;
      fuExists := false;
      for j := 1 to 10
        invariant n == (i - 1) * 9 + (j - 1)
        invariant places == EmptyPrefix(b, n)
        invariant fuExists == PawnWithin(b, c, i, j - 1)
      {
        EmptyPrefixStep(b, i, j, n, places);
        PawnWithinStep(b, c, i, j, fuExists);
        n := n + 1;
        var piece := b[Idx(i, j)];
        if piece.None? {
          places := places + [Square(i, j)];
        } else if piece.value.color == c && piece.value.kind == FU {
          fuExists := true;
        }
      }
      assert n == i * 9;
    }

    /** First pass of getDropsBy: the empty squares in scan order, and per
        file whether colour c has an unpromoted pawn on it. */
    method ScanForDrops(c: Color) returns (places: seq<Square>, fuExistsArray: seq<bool>)
      requires Valid()
      ensures places == Places(board[..])
      ensures |fuExistsArray| == 9
      ensures forall f :: 1 <= f <= 9 ==> fuExistsArray[f - 1] == PawnOnFile(board[..], c, f)
    {
      places := [];
      fuExistsArray := [];
      for i := 1 to 10
        invariant places == EmptyPrefix(board[..], (i - 1) * 9)
        invariant |fuExistsArray| == i - 1
        invariant forall f :: 1 <= f < i ==> fuExistsArray[f - 1] == PawnOnFile(board[..], c, f)
      {
        var fuExists;
        places, fuExists := ScanFile(c, i, places);
        fuExistsArray := fuExistsArray + [fuExists];
      }
    }

    /** Second pass of getDropsBy for one kind: every place that passes the
        double-pawn and dead-end filters. */
    method DropsOfKind(kind: Kind, c: Color, places: seq<Square>, fuExistsArray: seq<bool>) returns (ret: seq<DropMove>)
      requires Valid() && AllOnBoard(places) && |fuExistsArray| == 9
      requires forall f :: 1 <= f <= 9 ==> fuExistsArray[f - 1] == PawnOnFile(board[..], c, f)
      ensures ret == KindDrops(board[..], c, kind, places)
    {
      var illegalUnpromotedRow := IllegalUnpromotedRow(kind);
      ret := [];
      for q := 0 to |places|
        invariant ret == KindDrops(board[..], c, kind, places[..q])
      {
        assert places[..q + 1][..q] == places[..q];
        var place := places[q];
        if kind == FU && fuExistsArray[place.x - 1] {
          continue;
        }
        if illegalUnpromotedRow >= RowToOppositeEnd(place.y, c) {
          continue;
        }
        ret := ret + [DropMove(place, kind)];
      }
      assert places[..|places|] == places;
    }

    /** getDropsBy. */
    method GetDropsBy(c: Color) returns (ret: seq<DropMove>)
      requires Valid()
      ensures ret == DropsBy(Pos().board, Pos().Hand(c), c)
    {
      var places, fuExistsArray := ScanForDrops(c);
      assert AllOnBoard(places);
      var b := board[..];
      var hand := Pos().Hand(c);
      var done: set<Kind> := {};
      ret := [];
      for h := 0 to |hand|
        invariant forall k :: k in done <==> k in Dedup(hand[..h])
        invariant ret == DropsFor(b, c, Dedup(hand[..h]))
      {
        DedupStep(hand, h);
        var kind := hand[h];
        if kind in done {
          continue;
        }
        DropsForStep(b, c, Dedup(hand[..h]), kind);
        done := done + {kind};
        var drops := DropsOfKind(kind, c, places, fuExistsArray);
        ret := ret + drops;
      }
      assert hand[..|hand|] == hand;
    }

    /** getMovesTo: the squares of colour c's k-pieces that can move to (x, y). */
    method GetMovesTo(x: int, y: int, k: Kind, c: Color) returns (ret: seq<Square>)
      requires Valid()
      ensures ret == MovesTo(board[..], x, y, k, c)
    {
      ret := [];
      for i := 1 to 10
        invariant ret == MovesToPrefix(board[..], x, y, k, c, (i - 1) * 9)
      {
        ret := MovesToInFile(x, y, k, c, i, ret);
      }
    }

    /** One file of getMovesTo. */
    method MovesToInFile(x: int, y: int, k: Kind, c: Color, i: int, ret0: seq<Square>) returns (ret: seq<Square>)
      requires Valid() && 1 <= i <= 9
      requires ret0 == MovesToPrefix(board[..], x, y, k, c, (i - 1) * 9)
      ensures ret == MovesToPrefix(board[..], x, y, k, c, i * 9)
    {
      var b := board[..];
      ghost var n: nat := (i - 1) * 9;
      ret := ret0;
      for j := 1 to 10
        invariant n == (i - 1) * 9 + (j - 1)
        invariant ret == MovesToPrefix(b, x, y, k, c, n)
      {
        var hit := ReachesFrom(x, y, k, c, i, j);
        MovesToPrefixStep(b, x, y, k, c, i, j, n);
        if hit {
          ret := ret + [Square(i, j)];
        }
        n := n + 1;
      }
      assert n == i * 9;
    }

    /** The body of getMovesTo's scan at (i, j): whether a c-coloured
        k-piece stands there and can move to (x, y). */
    method ReachesFrom(x: int, y: int, k: Kind, c: Color, i: int, j: int) returns (hit: bool)
      requires Valid() && OnBoard(i, j)
      ensures hit == (board[Idx(i, j)] == Some(Piece(k, c)) && Square(x, y) in MovesFrom(board[..], i, j))
    {
      var piece := Get(i, j);
      if piece.None? || piece.value.kind != k || piece.value.color != c {
        return false;
      }
      var moves := GetMovesFrom(i, j);
      hit := Square(x, y) in moves;
    }

    /** getHandsSummary: how many of each of the seven hand kinds colour c
        holds. Any other kind in the hand (a captured king, a promoted piece
        returned by undrop) leaves the seven counts alone. */
    method GetHandsSummary(c: Color) returns (summary: map<Kind, nat>)
      requires Valid()
      ensures summary.Keys == SummaryKinds
      ensures forall k :: k in SummaryKinds ==> summary[k] == multiset(Pos().Hand(c))[k]
    {
      var hand := Pos().Hand(c);
      summary := map k | k in SummaryKinds :: 0;
      for i := 0 to |hand|
        invariant summary.Keys == SummaryKinds
        invariant forall k :: k in SummaryKinds ==> summary[k] == multiset(hand[..i])[k]
      {
        TallyStep(hand, i, summary);
        if hand[i] in summary {
          summary := summary[hand[i] := summary[hand[i]] + 1];
        }
      }
      assert hand[..|hand|] == hand;
    }

    /** First pass of isCheck over file i: the last king of c so far. */
    method FindKingInFile(c: Color, i: int, king0: Option<Square>) returns (king: Option<Square>)
      requires Valid() && 1 <= i <= 9
      requires king0 == KingPrefix(board[..], c, (i - 1) * 9)
      ensures king == KingPrefix(board[..], c, i * 9)
    {
      var b := board[..];
      ghost var n: nat := (i - 1) * 9;
      king := king0;
      for j := 1 to 10
        invariant n == (i - 1) * 9 + (j - 1)
        invariant king == KingPrefix(b, c, n)
      {
        KingPrefixStep(b, c, i, j, n, king);
        n := n + 1;
        var piece := b[Idx(i, j)];
        if piece.None? || piece.value.color != c {
          continue;
        }
        if piece.value.kind == OU {
          king := Some(Square(i, j));
        }
      }
      assert n == i * 9;
    }

    /** Second pass of isCheck over file i: whether an opposing piece there
        can move to the target square. */
    method AttackInFile(c: Color, i: int, target: Square) returns (found: bool)
      requires Valid() && 1 <= i <= 9
      ensures found ==> exists n :: 0 <= n < 81 && Attacks(board[..], n, target, c)
      ensures !found ==> forall n :: (i - 1) * 9 <= n < i * 9 ==> !Attacks(board[..], n, target, c)
    {
      var b := board[..];
      ghost var n0 := (i - 1) * 9;
      for j := 1 to 10
        invariant forall n :: n0 <= n < n0 + (j - 1) ==> !Attacks(b, n, target, c)
      {
        SquareOfIdx(i, j);
        var piece := b[Idx(i, j)];
        var attacks := false;
        if piece.Some? && piece.value.color != c {
          var moves := GetMovesFrom(i, j);
          attacks := target in moves;
        }
        assert attacks == Attacks(b, Idx(i, j), target, c);
        if attacks {
          return true;
        }
        forall n | n0 <= n < n0 + j
          ensures !Attacks(b, n, target, c)
        {
          if n == n0 + j - 1 {
            assert n == Idx(i, j);
          }
        }
      }
      return false;
    }

    /** isCheck: whether colour c's king (the last one in scan order) is
        attacked by a piece of the other colour; false without a king. */
    method IsCheck(c: Color) returns (check: bool)
      requires Valid()
      ensures check == MoveGen.IsCheck(board[..], c)
    {
      var king: Option<Square> := None;
      for i := 1 to 10
        invariant king == KingPrefix(board[..], c, (i - 1) * 9)
      {
        king := FindKingInFile(c, i, king);
      }
      if king.None? {
        return false;
      }
      var target := king.value;
      for i := 1 to 10
        invariant forall n :: 0 <= n < (i - 1) * 9 ==> !Attacks(board[..], n, target, c)
      {
        var found := AttackInFile(c, i, target);
        if found {
          return true;
        }
      }
      return false;
    }

    /** move(fromx, fromy, tox, toy, promote): None on success, otherwise
        the error the source throws, with the position unchanged. */
    method Move(fx: int, fy: int, tx: int, ty: int, promote: bool) returns (err: Option<Error>)
      requires Valid() && MoveArgs(Pos(), fx, fy, tx, ty, promote)
      modifies this, board
      ensures Valid() && board == old(board)
      ensures var r := MoveSpec(old(Pos()), fx, fy, tx, ty, promote);
        && (r.Ok? ==> err.None? && Pos() == r.value)
        && (r.Err? ==> err == Some(r.error) && Pos() == old(Pos()))
    {
      var piece := Get(fx, fy);
      if piece.None? {
        return Some(NoPieceAtSource);
      }
      var p := piece.value;
      var ok := CheckTurn(p.color);
      if !ok {
        return Some(TurnViolation);
      }
      if !flagEditMode {
        var moves := GetMovesFrom(fx, fy);
        if Square(tx, ty) !in moves {
          return Some(IllegalMove);
        }
      }
      MovesFromSpec(board[..], fx, fy, Square(tx, ty));
      ApplyMove(p, fx, fy, tx, ty, promote);
      err := None;
    }

    /** The part of move after its checks: capture, land (promoting when
        asked or forced), empty the source, pass the turn. */
    method ApplyMove(p: Piece, fx: int, fy: int, tx: int, ty: int, promote: bool)
      requires Valid() && OnBoard(fx, fy) && OnBoard(tx, ty) && (fx != tx || fy != ty)
      requires promote ==> CanPromote(p.kind)
      modifies this, board
      ensures Valid() && board == old(board)
      ensures Pos() == MoveApply(old(Pos()), p, fx, fy, tx, ty, promote)
    {
      if Get(tx, ty).Some? {
        Capture(tx, ty);
      }
      var deadEnd := IllegalUnpromotedRow(p.kind) >= RowToOppositeEnd(ty, p.color);
      DeadEndRanks(p.kind, ty, p.color);
      var landed := if promote || deadEnd then Piece(Promote(p.kind), p.color) else p;
      Set(tx, ty, Some(landed));
      Set(fx, fy, None);
      NextTurn();
    }

    /** unmove(fromx, fromy, tox, toy, promote, capture): the reverse
        relocation runs through move in edit mode, as in the source. */
    method Unmove(fx: int, fy: int, tx: int, ty: int, promote: bool, capture: Option<Kind>) returns (err: Option<Error>)
      requires Valid() && OnBoard(fx, fy) && 1 <= tx <= 9 && (fx != tx || fy != ty)
      modifies this, board
      ensures Valid() && board == old(board)
      ensures var r := UnmoveSpec(old(Pos()), fx, fy, tx, ty, promote, capture);
        && (r.Ok? ==> err.None? && Pos() == r.value)
        && (r.Err? ==> err == Some(r.error) && Pos() == old(Pos()))
    {
      var piece := Get(tx, ty);
      if piece.None? {
        return Some(NoPieceAtSource);
      }
      var p := piece.value;
      var ok := CheckTurn(OppositeColor(p.color));
      if !ok {
        return Some(TurnViolation);
      }
      var captured: Option<Piece> := None;
      if capture.Some? {
        var popped := PopFromHand(Unpromote(capture.value), p.color);
        if popped.None? {
          return Some(HandShortage);
        }
        captured := Some(InversePiece(popped.value));
      }
      ApplyUnmove(p, fx, fy, tx, ty, promote, capture, captured);
      err := None;
    }

    /** The part of unmove after its checks and the pop. */
    method ApplyUnmove(p: Piece, fx: int, fy: int, tx: int, ty: int, promote: bool, capture: Option<Kind>, captured: Option<Piece>)
      requires Valid() && OnBoard(fx, fy) && OnBoard(tx, ty) && (fx != tx || fy != ty)
      requires board[Idx(tx, ty)] == Some(p)
      requires capture.Some? <==> captured.Some?
      requires capture.Some? ==> captured.value == Piece(Unpromote(capture.value), OppositeColor(p.color))
      modifies this, board
      ensures Valid() && board == old(board)
      ensures Pos() == UnmoveApply(old(Pos()), p, fx, fy, tx, ty, promote, capture, old(flagEditMode))
    {
      var editMode := flagEditMode;
      EditMode(true);
      MoveErrors(Pos(), tx, ty, fx, fy, false);
      MoveEffects(Pos(), p, tx, ty, fx, fy, false);
      var e := Move(tx, ty, fx, fy, false);
      assert e.None?;
      FinishUnmove(p, fx, fy, tx, ty, promote, capture, captured, editMode);
    }

    /** The end of unmove, after the edit-mode move back. */
    method FinishUnmove(p: Piece, fx: int, fy: int, tx: int, ty: int, promote: bool, capture: Option<Kind>, captured: Option<Piece>, editMode: bool)
      requires Valid() && OnBoard(fx, fy) && OnBoard(tx, ty) && (fx != tx || fy != ty)
      requires board[Idx(fx, fy)] == Some(Landed(p, fy, false))
      requires capture.Some? <==> captured.Some?
      requires capture.Some? ==> captured.value == Piece(Unpromote(capture.value), OppositeColor(p.color))
      modifies this, board
      ensures Valid() && board == old(board)
      ensures Pos() == UnmoveRestore(old(Pos()), p, fx, fy, tx, ty, promote, capture, editMode)
    {
      var moved := Get(fx, fy).value;
      if promote {
        Set(fx, fy, Some(Piece(Unpromote(moved.kind), moved.color)));
      }
      if capture.Some? {
        var restored := captured.value;
        if IsPromoted(capture.value) {
          PromoteRoundTrip(capture.value);
          restored := Piece(Promote(restored.kind), restored.color);
        }
        Set(tx, ty, Some(restored));
      }
      EditMode(editMode);
      PrevTurn();
    }

    /** drop(tox, toy, kind, color): checked against getDropsBy even in edit mode. */
    method Drop(tx: int, ty: int, k: Kind, c: Color) returns (err: Option<Error>)
      requires Valid() && ((flagEditMode || c == turn) ==> 1 <= tx <= 9)
      modifies this, board
      ensures Valid() && board == old(board)
      ensures var r := DropSpec(old(Pos()), tx, ty, k, c);
        && (r.Ok? ==> err.None? && Pos() == r.value)
        && (r.Err? ==> err == Some(r.error) && Pos() == old(Pos()))
    {
      ghost var s := Pos();
      var ok := CheckTurn(c);
      if !ok {
        return Some(TurnViolation);
      }
      assert 1 <= tx <= 9;
      if Get(tx, ty).Some? {
        return Some(OccupiedDestination);
      }
      var drops := GetDropsBy(c);
      if DropMove(Square(tx, ty), k) !in drops {
        return Some(IllegalDrop);
      }
      DropsBySpec(s.board, s.Hand(c), c, DropMove(Square(tx, ty), k));
      err := ApplyDrop(tx, ty, k, c);
    }

    /** The part of drop after its checks. */
    method ApplyDrop(tx: int, ty: int, k: Kind, c: Color) returns (err: Option<Error>)
      requires Valid() && OnBoard(tx, ty)
      modifies this, board
      ensures Valid() && board == old(board)
      ensures var r := DropApply(old(Pos()), tx, ty, k, c);
        && (r.Ok? ==> err.None? && Pos() == r.value)
        && (r.Err? ==> err == Some(r.error) && Pos() == old(Pos()))
    {
      var piece := PopFromHand(k, c);
      if piece.None? {
        return Some(HandShortage);
      }
      Set(tx, ty, piece);
      NextTurn();
      err := None;
    }

    /** undrop(tox, toy). */
    method Undrop(tx: int, ty: int) returns (err: Option<Error>)
      requires Valid() && 1 <= tx <= 9
      modifies this, board
      ensures Valid() && board == old(board)
      ensures var r := UndropSpec(old(Pos()), tx, ty);
        && (r.Ok? ==> err.None? && Pos() == r.value)
        && (r.Err? ==> err == Some(r.error) && Pos() == old(Pos()))
    {
      var piece := Get(tx, ty);
      if piece.None? {
        return Some(NoPieceAtSource);
      }
      var ok := CheckTurn(OppositeColor(piece.value.color));
      if !ok {
        return Some(TurnViolation);
      }
      PushToHand(piece.value);
      Set(tx, ty, None);
      PrevTurn();
      err := None;
    }

    /** captureByColor(x, y, color), edit mode only. */
    method CaptureByColor(x: int, y: int, c: Color) returns (err: Option<Error>)
      requires Valid() && (flagEditMode ==> OnBoard(x, y) && board[Idx(x, y)].Some?)
      modifies this, board
      ensures Valid() && board == old(board)
      ensures var r := CaptureByColorSpec(old(Pos()), x, y, c);
        && (r.Ok? ==> err.None? && Pos() == r.value)
        && (r.Err? ==> err == Some(r.error) && Pos() == old(Pos()))
    {
      if !flagEditMode {
        return Some(EditModeRequired);
      }
      var piece := Get(x, y).value;
      Set(x, y, None);
      PushToHand(Piece(Unpromote(piece.kind), c));
      err := None;
    }

    /** flip(x, y), edit mode only: whether a piece was there to flip. */
    method Flip(x: int, y: int) returns (err: Option<Error>, flipped: bool)
      requires Valid() && (flagEditMode ==> 1 <= x <= 9)
      modifies board
      ensures Valid()
      ensures var r := FlipSpec(old(Pos()), x, y);
        && (r.Ok? ==> err.None? && flipped == r.value.0 && Pos() == r.value.1)
        && (r.Err? ==> err == Some(r.error) && !flipped && Pos() == old(Pos()))
    {
      if !flagEditMode {
        return Some(EditModeRequired), false;
      }
      var piece := Get(x, y);
      if piece.None? {
        return None, false;
      }
      var p := piece.value;
      if IsPromoted(p.kind) {
        p := InversePiece(Piece(Unpromote(p.kind), p.color));
      } else if CanPromote(p.kind) {
        p := Piece(Promote(p.kind), p.color);
      } else {
        p := InversePiece(p);
      }
      Set(x, y, Some(p));
      return None, true;
    }

    /** setTurn(color), edit mode only. */
    method SetTurn(c: Color) returns (err: Option<Error>)
      requires Valid()
      modifies this
      ensures Valid() && board == old(board)
      ensures var r := SetTurnSpec(old(Pos()), c);
        && (r.Ok? ==> err.None? && Pos() == r.value)
        && (r.Err? ==> err == Some(r.error) && Pos() == old(Pos()))
    {
      if !flagEditMode {
        return Some(EditModeRequired);
      }
      turn := c;
      err := None;
    }
  }
}
