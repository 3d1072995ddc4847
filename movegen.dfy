/** Pseudo-legal move generation (getMovesFrom), its reverse lookup
    (getMovesTo) and check detection (isCheck), as functions of a board. */
module MoveGen {
  import opened Pieces
  import opened Geometry
  import opened Boards

  function Step(s: Square, d: Offset): Square {
    Square(s.x + d.dx, s.y + d.dy)
  }

  /** The source's `legal`: on the board and not holding a piece of colour c. */
  predicate Legal(b: Board, s: Square, c: Color) {
    OnBoard(s.x, s.y) && (b[Idx(s.x, s.y)].None? || b[Idx(s.x, s.y)].value.color != c)
  }

  predicate Occupied(b: Board, s: Square)
    requires OnBoard(s.x, s.y)
  {
    b[Idx(s.x, s.y)].Some?
  }

  /** Targets of the short-range offsets, in table order. */
  function JustTargets(b: Board, from: Square, c: Color, offs: seq<Offset>): seq<Square>
    decreases |offs|
  {
    if offs == [] then []
    else
      var t := Step(from, Mirror(offs[|offs| - 1], c));
      JustTargets(b, from, c, offs[..|offs| - 1]) + (if Legal(b, t, c) then [t] else [])
  }

  /** Distance still available to a ray before it must leave the board. */
  function RayMeasure(s: Square, d: Offset): nat {
    if !OnBoard(s.x, s.y) then 0
    else
      1 + (if d.dx > 0 then 10 - s.x else if d.dx < 0 then s.x else 0)
        + (if d.dy > 0 then 10 - s.y else if d.dy < 0 then s.y else 0)
  }

  /** One sliding walk starting at t (the first square after the piece) and
      stepping by d: it keeps legal squares and stops after an occupied one. */
  function Ray(b: Board, c: Color, t: Square, d: Offset): seq<Square>
    requires d != Offset(0, 0)
    decreases RayMeasure(t, d)
  {
    if !Legal(b, t, c) then []
    else if Occupied(b, t) then [t]
    else [t] + Ray(b, c, Step(t, d), d)
  }

  /** One step of a walk from a legal square, and the measure that shrinks. */
  lemma RayStep(b: Board, c: Color, t: Square, d: Offset)
    requires d != Offset(0, 0) && Legal(b, t, c)
    ensures Ray(b, c, t, d) == (if Occupied(b, t) then [t] else [t] + Ray(b, c, Step(t, d), d))
    ensures RayMeasure(Step(t, d), d) < RayMeasure(t, d)
  {
  }

  /** Moving one square from the rest of a walk to the part already walked. */
  lemma AppendStep(done: seq<Square>, t: Square, rest: seq<Square>)
    ensures (done + [t]) + rest == done + ([t] + rest)
  {
  }

  predicate NonZero(dirs: seq<Offset>) {
    forall i :: 0 <= i < |dirs| ==> dirs[i] != Offset(0, 0)
  }

  /** The sliding walks of all fly directions, in table order. */
  function FlyTargets(b: Board, from: Square, c: Color, dirs: seq<Offset>): seq<Square>
    requires NonZero(dirs)
    decreases |dirs|
  {
    if dirs == [] then []
    else
      var d := Mirror(dirs[|dirs| - 1], c);
      FlyTargets(b, from, c, dirs[..|dirs| - 1]) + Ray(b, c, Step(from, d), d)
  }

  /** getMovesFrom: the targets of the piece at (x, y), or none for an empty cell. */
  function MovesFrom(b: Board, x: int, y: int): seq<Square>
    requires 1 <= x <= 9
  {
    match Peek(b, x, y)
    case None => []
    case Some(p) =>
      var def := MoveDefinitions(p.kind);
      JustTargets(b, Square(x, y), p.color, def.just)
        + FlyTargets(b, Square(x, y), p.color, def.fly)
  }

  lemma {:induction false} JustTargetsMembership(b: Board, from: Square, c: Color, offs: seq<Offset>, t: Square)
    ensures t in JustTargets(b, from, c, offs) <==>
              Legal(b, t, c) && exists j :: 0 <= j < |offs| && t == Step(from, Mirror(offs[j], c))
    decreases |offs|
  {
    if offs != [] {
      var n := |offs| - 1;
      JustTargetsMembership(b, from, c, offs[..n], t);
      if t == Step(from, Mirror(offs[n], c)) && Legal(b, t, c) {
        assert t in JustTargets(b, from, c, offs);
      }
      if t in JustTargets(b, from, c, offs[..n]) {
        var j :| 0 <= j < n && t == Step(from, Mirror(offs[..n][j], c));
        assert offs[..n][j] == offs[j];
      }
      if exists j :: 0 <= j < |offs| && t == Step(from, Mirror(offs[j], c)) {
        var j :| 0 <= j < |offs| && t == Step(from, Mirror(offs[j], c));
        if j < n {
          assert offs[..n][j] == offs[j];
        }
      }
    }
  }

  /** The shape of a sliding walk: it starts at t, advances by d, passes only
      empty squares, every square it reaches is legal, and it ends on an
      occupied (hence enemy) square or just before an illegal one. */
  lemma {:induction false} RayShape(b: Board, c: Color, t: Square, d: Offset)
    requires d != Offset(0, 0)
    ensures var r := Ray(b, c, t, d);
      && (r == [] <==> !Legal(b, t, c))
      && (r != [] ==> r[0] == t)
      && (forall i :: 0 <= i < |r| ==> Legal(b, r[i], c))
      && (forall i :: 0 <= i < |r| - 1 ==> !Occupied(b, r[i]) && r[i + 1] == Step(r[i], d))
      && (r != [] ==> Occupied(b, r[|r| - 1]) || !Legal(b, Step(r[|r| - 1], d), c))
    decreases RayMeasure(t, d)
  {
    if Legal(b, t, c) && !Occupied(b, t) {
      RayShape(b, c, Step(t, d), d);
      var rest := Ray(b, c, Step(t, d), d);
      var r := Ray(b, c, t, d);
      assert r == [t] + rest;
      forall i | 0 <= i < |r| - 1
        ensures !Occupied(b, r[i]) && r[i + 1] == Step(r[i], d)
      {
        if i > 0 {
          assert r[i] == rest[i - 1] && r[i + 1] == rest[i];
        }
      }
    }
  }

  /** The sliding walk of a piece of colour c at `from` along table direction d0. */
  function DirRay(b: Board, from: Square, c: Color, d0: Offset): seq<Square>
    requires d0 != Offset(0, 0)
  {
    Ray(b, c, Step(from, Mirror(d0, c)), Mirror(d0, c))
  }

  lemma {:induction false} FlyTargetsMembership(b: Board, from: Square, c: Color, dirs: seq<Offset>, t: Square)
    requires NonZero(dirs)
    ensures t in FlyTargets(b, from, c, dirs) <==>
              exists j :: 0 <= j < |dirs| && t in DirRay(b, from, c, dirs[j])
    decreases |dirs|
  {
    if dirs != [] {
      var n := |dirs| - 1;
      var pre := dirs[..n];
      FlyTargetsMembership(b, from, c, pre, t);
      assert FlyTargets(b, from, c, dirs) == FlyTargets(b, from, c, pre) + DirRay(b, from, c, dirs[n]);
      if t in FlyTargets(b, from, c, pre) {
        var j :| 0 <= j < n && t in DirRay(b, from, c, pre[j]);
        assert pre[j] == dirs[j];
      }
      if exists j :: 0 <= j < |dirs| && t in DirRay(b, from, c, dirs[j]) {
        var j :| 0 <= j < |dirs| && t in DirRay(b, from, c, dirs[j]);
        if j < n {
          assert pre[j] == dirs[j];
        }
      }
    }
  }

  /** getMovesFrom: nothing from an empty cell; otherwise exactly the legal
      single-step targets plus the squares of the sliding walks, each on the
      board and free of the mover's own pieces. */
  lemma MovesFromSpec(b: Board, x: int, y: int, t: Square)
    requires 1 <= x <= 9
    ensures Peek(b, x, y).None? ==> MovesFrom(b, x, y) == []
    ensures t in MovesFrom(b, x, y) ==> OnBoard(t.x, t.y) && Peek(b, x, y).Some? && Legal(b, t, Peek(b, x, y).value.color)
    ensures Peek(b, x, y).Some? ==>
      var p := Peek(b, x, y).value;
      var def := MoveDefinitions(p.kind);
      (t in MovesFrom(b, x, y) <==>
        (Legal(b, t, p.color) && exists j :: 0 <= j < |def.just| && t == Step(Square(x, y), Mirror(def.just[j], p.color)))
        || (exists j :: 0 <= j < |def.fly| && t in DirRay(b, Square(x, y), p.color, def.fly[j])))
  {
    if Peek(b, x, y).Some? {
      var p := Peek(b, x, y).value;
      var def := MoveDefinitions(p.kind);
      JustTargetsMembership(b, Square(x, y), p.color, def.just, t);
      FlyTargetsMembership(b, Square(x, y), p.color, def.fly, t);
      if exists j :: 0 <= j < |def.fly| && t in DirRay(b, Square(x, y), p.color, def.fly[j]) {
        var j :| 0 <= j < |def.fly| && t in DirRay(b, Square(x, y), p.color, def.fly[j]);
        var d := Mirror(def.fly[j], p.color);
        RayShape(b, p.color, Step(Square(x, y), d), d);
      }
    }
  }

  /** getMovesTo over the first n cells in scan order (file-major). */
  function MovesToPrefix(b: Board, x: int, y: int, k: Kind, c: Color, n: nat): seq<Square>
    requires n <= 81
  {
    if n == 0 then []
    else
      var s := SquareOf(n - 1);
      MovesToPrefix(b, x, y, k, c, n - 1)
        + (if b[n - 1] == Some(Piece(k, c)) && Square(x, y) in MovesFrom(b, s.x, s.y) then [s] else [])
  }

  /** One scan step of getMovesTo at (i, j), the n-th cell: the square is
      added iff a c-coloured k-piece stands there and reaches (x, y). */
  lemma MovesToPrefixStep(b: Board, x: int, y: int, k: Kind, c: Color, i: int, j: int, n: nat)
    requires OnBoard(i, j) && n == Idx(i, j)
    ensures MovesToPrefix(b, x, y, k, c, n + 1) == MovesToPrefix(b, x, y, k, c, n)
      + (if b[Idx(i, j)] == Some(Piece(k, c)) && Square(x, y) in MovesFrom(b, i, j) then [Square(i, j)] else [])
  {
    SquareOfIdx(i, j);
  }

  /** getMovesTo: the squares of the c-coloured k-pieces that can reach (x, y). */
  function MovesTo(b: Board, x: int, y: int, k: Kind, c: Color): seq<Square> {
    MovesToPrefix(b, x, y, k, c, 81)
  }

  lemma {:induction false} MovesToPrefixMembership(b: Board, x: int, y: int, k: Kind, c: Color, n: nat, s: Square)
    requires n <= 81
    ensures s in MovesToPrefix(b, x, y, k, c, n) <==>
      OnBoard(s.x, s.y) && Idx(s.x, s.y) < n && b[Idx(s.x, s.y)] == Some(Piece(k, c))
        && Square(x, y) in MovesFrom(b, s.x, s.y)
  {
    if n > 0 {
      MovesToPrefixMembership(b, x, y, k, c, n - 1, s);
      var e := SquareOf(n - 1);
      var hit := b[n - 1] == Some(Piece(k, c)) && Square(x, y) in MovesFrom(b, e.x, e.y);
      assert MovesToPrefix(b, x, y, k, c, n) == MovesToPrefix(b, x, y, k, c, n - 1) + (if hit then [e] else []);
      if OnBoard(s.x, s.y) && Idx(s.x, s.y) == n - 1 {
        IdxInjective(s.x, s.y, e.x, e.y);
      }
    }
  }

  /** getMovesTo returns exactly the c-coloured k-pieces whose moves contain (x, y). */
  lemma MovesToSpec(b: Board, x: int, y: int, k: Kind, c: Color, s: Square)
    ensures s in MovesTo(b, x, y, k, c) <==>
      OnBoard(s.x, s.y) && b[Idx(s.x, s.y)] == Some(Piece(k, c)) && Square(x, y) in MovesFrom(b, s.x, s.y)
  {
    MovesToPrefixMembership(b, x, y, k, c, 81, s);
  }

  /** The king square isCheck settles on after scanning the first n cells:
      the last king of colour c met so far. */
  function KingPrefix(b: Board, c: Color, n: nat): Option<Square>
    requires n <= 81
  {
    if n == 0 then None
    else if b[n - 1] == Some(Piece(OU, c)) then Some(SquareOf(n - 1))
    else KingPrefix(b, c, n - 1)
  }

  /** One scan step of isCheck's king search at (i, j), the n-th cell. */
  lemma KingPrefixStep(b: Board, c: Color, i: int, j: int, n: nat, king: Option<Square>)
    requires OnBoard(i, j) && n == Idx(i, j)
    requires king == KingPrefix(b, c, n)
    ensures (if b[Idx(i, j)] == Some(Piece(OU, c)) then Some(Square(i, j)) else king) == KingPrefix(b, c, n + 1)
  {
    SquareOfIdx(i, j);
  }

  function KingSquare(b: Board, c: Color): Option<Square> {
    KingPrefix(b, c, 81)
  }

  lemma {:induction false} KingPrefixSpec(b: Board, c: Color, n: nat)
    requires n <= 81
    ensures KingPrefix(b, c, n).None? <==> forall i :: 0 <= i < n ==> b[i] != Some(Piece(OU, c))
    ensures KingPrefix(b, c, n).Some? ==>
      var s := KingPrefix(b, c, n).value;
      OnBoard(s.x, s.y) && Idx(s.x, s.y) < n && b[Idx(s.x, s.y)] == Some(Piece(OU, c))
        && forall i :: Idx(s.x, s.y) < i < n ==> b[i] != Some(Piece(OU, c))
  {
    if n > 0 {
      KingPrefixSpec(b, c, n - 1);
    }
  }

  /** The piece on cell i belongs to the other side and can move to s. */
  predicate Attacks(b: Board, i: nat, s: Square, c: Color)
    requires i < 81
  {
    b[i].Some? && b[i].value.color != c && s in MovesFrom(b, SquareOf(i).x, SquareOf(i).y)
  }

  /** isCheck: c's king (the last one in scan order) is attacked; false without a king. */
  predicate IsCheck(b: Board, c: Color) {
    match KingSquare(b, c)
    case None => false
    case Some(s) => exists i :: 0 <= i < 81 && Attacks(b, i, s, c)
  }

  /** isCheck is false without a king of colour c, and otherwise holds exactly
      when an opposing piece's moves contain a square holding c's king. */
  lemma IsCheckSpec(b: Board, c: Color)
    ensures (forall i :: 0 <= i < 81 ==> b[i] != Some(Piece(OU, c))) ==> !IsCheck(b, c)
    ensures IsCheck(b, c) ==> exists s: Square, i: nat ::
      OnBoard(s.x, s.y) && b[Idx(s.x, s.y)] == Some(Piece(OU, c)) && i < 81 && Attacks(b, i, s, c)
  {
    KingPrefixSpec(b, c, 81);
  }

  /** With exactly one king of colour c, on s, isCheck holds exactly when
      some opposing piece's moves contain s. */
  lemma IsCheckUniqueKing(b: Board, c: Color, s: Square)
    requires OnBoard(s.x, s.y) && b[Idx(s.x, s.y)] == Some(Piece(OU, c))
    requires forall n :: 0 <= n < 81 && n != Idx(s.x, s.y) ==> b[n] != Some(Piece(OU, c))
    ensures IsCheck(b, c) <==> exists i :: 0 <= i < 81 && Attacks(b, i, s, c)
  {
    KingPrefixSpec(b, c, 81);
    var k := KingSquare(b, c).value;
    IdxInjective(k.x, k.y, s.x, s.y);
  }
}
