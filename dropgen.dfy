/** Drop generation (getDropsBy) and the dead-end rule. */
module DropGen {
  import opened Pieces
  import opened Boards

  /** getIllegalUnpromotedRow: how many far ranks are dead ends for an
      unpromoted piece of kind k. */
  function IllegalUnpromotedRow(k: Kind): nat {
    match k
    case FU => 1
    case KY => 1
    case KE => 2
    case _ => 0
  }

  /** getRowToOppositeEnd: rank y counted from the far end of colour c. */
  function RowToOppositeEnd(y: int, c: Color): int {
    if c == Black then y else 10 - y
  }

  /** An unpromoted k of colour c standing on rank y has no move left. */
  predicate DeadEnd(k: Kind, y: int, c: Color) {
    IllegalUnpromotedRow(k) >= RowToOppositeEnd(y, c)
  }

  /** Dead ends are the last rank for pawns and lances, the last two for
      knights, and nowhere on the board for any other kind. */
  lemma DeadEndRanks(k: Kind, y: int, c: Color)
    requires 1 <= y <= 9
    ensures DeadEnd(k, y, c) <==>
      (k in {FU, KY} && RowToOppositeEnd(y, c) <= 1) || (k == KE && RowToOppositeEnd(y, c) <= 2)
    ensures DeadEnd(k, y, c) ==> k in {FU, KY, KE} && CanPromote(k)
  {
  }

  /** A drop target and the kind dropped (the colour is the dropper's). */
  datatype DropMove = DropMove(to: Square, kind: Kind)

  predicate Distinct<T(==)>(s: seq<T>) {
    forall i, j :: 0 <= i < j < |s| ==> s[i] != s[j]
  }

  /** The empty cells among the first n, in scan order. */
  function EmptyPrefix(b: Board, n: nat): (r: seq<Square>)
    requires n <= 81
    ensures forall s :: s in r ==> OnBoard(s.x, s.y) && Idx(s.x, s.y) < n && b[Idx(s.x, s.y)].None?
  {
    if n == 0 then []
    else EmptyPrefix(b, n - 1) + (if b[n - 1].None? then [SquareOf(n - 1)] else [])
  }

  function Places(b: Board): seq<Square> {
    EmptyPrefix(b, 81)
  }

  /** One scan step of the first pass of getDropsBy at (x, y), the n-th
      cell: the square is listed iff it is empty. */
  lemma EmptyPrefixStep(b: Board, x: int, y: int, n: nat, places: seq<Square>)
    requires OnBoard(x, y) && n == Idx(x, y)
    requires places == EmptyPrefix(b, n)
    ensures (if b[Idx(x, y)].None? then places + [Square(x, y)] else places) == EmptyPrefix(b, n + 1)
  {
    SquareOfIdx(x, y);
  }

  lemma {:induction false} EmptyPrefixComplete(b: Board, n: nat, s: Square)
    requires n <= 81
    requires OnBoard(s.x, s.y) && Idx(s.x, s.y) < n && b[Idx(s.x, s.y)].None?
    ensures s in EmptyPrefix(b, n)
  {
    if Idx(s.x, s.y) == n - 1 {
      SquareOfIdx(s.x, s.y);
      assert EmptyPrefix(b, n) == EmptyPrefix(b, n - 1) + [s];
    } else {
      EmptyPrefixComplete(b, n - 1, s);
    }
  }

  lemma {:induction false} EmptyPrefixDistinct(b: Board, n: nat)
    requires n <= 81
    ensures Distinct(EmptyPrefix(b, n))
  {
    if n > 0 {
      EmptyPrefixDistinct(b, n - 1);
      var pre := EmptyPrefix(b, n - 1);
      var r := EmptyPrefix(b, n);
      forall i, j | 0 <= i < j < |r| ensures r[i] != r[j] {
        if j == |pre| {
          assert r[i] in pre;
        }
      }
    }
  }

  /** The empty squares of the board, each once. */
  lemma PlacesSpec(b: Board, s: Square)
    ensures s in Places(b) <==> OnBoard(s.x, s.y) && b[Idx(s.x, s.y)].None?
    ensures Distinct(Places(b))
  {
    if OnBoard(s.x, s.y) && b[Idx(s.x, s.y)].None? {
      EmptyPrefixComplete(b, 81, s);
    }
    EmptyPrefixDistinct(b, 81);
  }

  /** The side's own unpromoted pawn stands somewhere on file x. */
  predicate PawnOnFile(b: Board, c: Color, x: int)
    requires 1 <= x <= 9
  {
    exists j :: 1 <= j <= 9 && b[Idx(x, j)] == Some(Piece(FU, c))
  }

  /** Colour c has an unpromoted pawn on file x within ranks 1..m. */
  predicate PawnWithin(b: Board, c: Color, x: int, m: int)
    requires 1 <= x <= 9 && m <= 9
  {
    exists j :: 1 <= j <= m && b[Idx(x, j)] == Some(Piece(FU, c))
  }

  /** One rank of the pawn scan of getDropsBy; all nine ranks make the whole file. */
  lemma PawnWithinStep(b: Board, c: Color, x: int, y: int, found: bool)
    requires OnBoard(x, y) && found == PawnWithin(b, c, x, y - 1)
    ensures (found || b[Idx(x, y)] == Some(Piece(FU, c))) == PawnWithin(b, c, x, y)
    ensures y == 9 ==> PawnWithin(b, c, x, y) == PawnOnFile(b, c, x)
  {
    if b[Idx(x, y)] == Some(Piece(FU, c)) {
      assert PawnWithin(b, c, x, y);
    }
    if PawnWithin(b, c, x, y) && !found {
      var j :| 1 <= j <= y && b[Idx(x, j)] == Some(Piece(FU, c));
      assert j == y;
    }
  }

  /** The filter getDropsBy applies to one empty square. */
  predicate DropAllowed(b: Board, c: Color, k: Kind, s: Square)
    requires OnBoard(s.x, s.y)
  {
    !(k == FU && PawnOnFile(b, c, s.x)) && !DeadEnd(k, s.y, c)
  }

  predicate AllOnBoard(ps: seq<Square>) {
    forall i :: 0 <= i < |ps| ==> OnBoard(ps[i].x, ps[i].y)
  }

  /** Drops of kind k onto the squares ps, in order. */
  function KindDrops(b: Board, c: Color, k: Kind, ps: seq<Square>): seq<DropMove>
    requires AllOnBoard(ps)
    decreases |ps|
  {
    if ps == [] then []
    else
      var p := ps[|ps| - 1];
      KindDrops(b, c, k, ps[..|ps| - 1]) + (if DropAllowed(b, c, k, p) then [DropMove(p, k)] else [])
  }

  /** Drops of every kind of ks, kind after kind. */
  function DropsFor(b: Board, c: Color, ks: seq<Kind>): seq<DropMove>
    decreases |ks|
  {
    if ks == [] then []
    else DropsFor(b, c, ks[..|ks| - 1]) + KindDrops(b, c, ks[|ks| - 1], Places(b))
  }

  /** The distinct kinds of a hand, in order of first appearance. */
  function Dedup(h: seq<Kind>): seq<Kind>
    decreases |h|
  {
    if h == [] then []
    else
      var d := Dedup(h[..|h| - 1]);
      if h[|h| - 1] in d then d else d + [h[|h| - 1]]
  }

  /** One step of getDropsBy's walk over the hand: a kind already seen is skipped. */
  lemma DedupStep(h: seq<Kind>, n: nat)
    requires n < |h|
    ensures Dedup(h[..n + 1]) == (if h[n] in Dedup(h[..n]) then Dedup(h[..n]) else Dedup(h[..n]) + [h[n]])
  {
    assert h[..n + 1][..n] == h[..n];
  }

  /** A newly seen kind appends its drops. */
  lemma DropsForStep(b: Board, c: Color, ks: seq<Kind>, k: Kind)
    ensures DropsFor(b, c, ks + [k]) == DropsFor(b, c, ks) + KindDrops(b, c, k, Places(b))
  {
    assert (ks + [k])[..|ks|] == ks;
  }

  /** getDropsBy for colour c holding hand h. */
  function DropsBy(b: Board, h: seq<Kind>, c: Color): seq<DropMove> {
    DropsFor(b, c, Dedup(h))
  }

  lemma {:induction false} DedupSpec(h: seq<Kind>)
    ensures forall k :: k in Dedup(h) <==> k in h
    ensures Distinct(Dedup(h))
    decreases |h|
  {
    if h != [] {
      var n := |h| - 1;
      DedupSpec(h[..n]);
      assert h == h[..n] + [h[n]];
    }
  }

  /** Two repetition-free sequences with no element in common concatenate
      to a repetition-free sequence. */
  lemma DistinctAppend<T>(r0: seq<T>, r1: seq<T>)
    requires Distinct(r0) && Distinct(r1)
    requires forall x :: x in r0 ==> x !in r1
    ensures Distinct(r0 + r1)
  {
    var r := r0 + r1;
    forall i, j | 0 <= i < j < |r| ensures r[i] != r[j] {
      if i < |r0| <= j {
        assert r[i] in r0 && r[j] == r1[j - |r0|];
      } else if |r0| <= i {
        assert r[i] == r1[i - |r0|] && r[j] == r1[j - |r0|];
      }
    }
  }

  /** For one kind k, a drop is listed iff it is of kind k, its square is
      among the places and it passes both filters. */
  lemma {:induction false} KindDropsMembership(b: Board, c: Color, k: Kind, ps: seq<Square>, d: DropMove)
    requires AllOnBoard(ps)
    ensures d in KindDrops(b, c, k, ps) <==> d.kind == k && d.to in ps && DropAllowed(b, c, k, d.to)
    decreases |ps|
  {
    if ps != [] {
      var n := |ps| - 1;
      assert ps == ps[..n] + [ps[n]];
      KindDropsMembership(b, c, k, ps[..n], d);
    }
  }

  /** Over places without repeats, the drops of one kind have no repeats. */
  lemma {:induction false} KindDropsDistinct(b: Board, c: Color, k: Kind, ps: seq<Square>)
    requires AllOnBoard(ps) && Distinct(ps)
    ensures Distinct(KindDrops(b, c, k, ps))
    decreases |ps|
  {
    if ps != [] {
      var n := |ps| - 1;
      var pre := ps[..n];
      assert ps == pre + [ps[n]];
      KindDropsDistinct(b, c, k, pre);
      KindDropsMembership(b, c, k, pre, DropMove(ps[n], k));
      var tail := if DropAllowed(b, c, k, ps[n]) then [DropMove(ps[n], k)] else [];
      DistinctAppend(KindDrops(b, c, k, pre), tail);
    }
  }

  /** A drop is listed for the kinds ks iff its kind is one of them, its
      square is empty and it passes both filters. */
  lemma {:induction false} DropsForMembership(b: Board, c: Color, ks: seq<Kind>, d: DropMove)
    ensures d in DropsFor(b, c, ks) <==>
      d.kind in ks && OnBoard(d.to.x, d.to.y) && b[Idx(d.to.x, d.to.y)].None? && DropAllowed(b, c, d.kind, d.to)
    decreases |ks|
  {
    PlacesSpec(b, d.to);
    if ks != [] {
      var n := |ks| - 1;
      assert ks == ks[..n] + [ks[n]];
      DropsForMembership(b, c, ks[..n], d);
      KindDropsMembership(b, c, ks[n], Places(b), d);
    }
  }

  /** Over kinds without repeats, the listed drops have no repeats. */
  lemma {:induction false} DropsForDistinct(b: Board, c: Color, ks: seq<Kind>)
    requires Distinct(ks)
    ensures Distinct(DropsFor(b, c, ks))
    decreases |ks|
  {
    if ks != [] {
      var n := |ks| - 1;
      var pre := ks[..n];
      assert ks == pre + [ks[n]];
      DropsForDistinct(b, c, pre);
      PlacesSpec(b, Square(1, 1));
      KindDropsDistinct(b, c, ks[n], Places(b));
      var r0 := DropsFor(b, c, pre);
      var r1 := KindDrops(b, c, ks[n], Places(b));
      forall x | x in r0 ensures x !in r1 {
        DropsForMembership(b, c, pre, x);
        KindDropsMembership(b, c, ks[n], Places(b), x);
      }
      DistinctAppend(r0, r1);
    }
  }

  /** getDropsBy offers (s, k) exactly when k is in the hand, s is an empty
      square, the double-pawn rule allows it and s is no dead end for k; and it
      offers each such pair once, however many copies of k are held. */
  lemma DropsBySpec(b: Board, h: seq<Kind>, c: Color, d: DropMove)
    ensures d in DropsBy(b, h, c) <==>
      d.kind in h && OnBoard(d.to.x, d.to.y) && b[Idx(d.to.x, d.to.y)].None?
        && !(d.kind == FU && PawnOnFile(b, c, d.to.x)) && !DeadEnd(d.kind, d.to.y, c)
    ensures Distinct(DropsBy(b, h, c))
  {
    DedupSpec(h);
    DropsForMembership(b, c, Dedup(h), d);
    DropsForDistinct(b, c, Dedup(h));
  }

  /** No pawn or lance is offered on the side's last rank, no knight on its
      last two ranks, and no pawn beside one of the side's own pawns. */
  lemma DropsByRules(b: Board, h: seq<Kind>, c: Color, d: DropMove)
    requires d in DropsBy(b, h, c)
    ensures OnBoard(d.to.x, d.to.y)
    ensures d.kind in {FU, KY} ==> RowToOppositeEnd(d.to.y, c) > 1
    ensures d.kind == KE ==> RowToOppositeEnd(d.to.y, c) > 2
    ensures d.kind == FU ==> forall j :: 1 <= j <= 9 ==> b[Idx(d.to.x, j)] != Some(Piece(FU, c))
  {
    DropsBySpec(b, h, c, d);
  }
}
