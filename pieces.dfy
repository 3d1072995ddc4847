/** Piece values: a kind and a colour. The source keeps pieces as mutable
    objects shared by reference; here a piece is a plain value. */
module Pieces {

  datatype Color = Black | White

  /** The fourteen kinds, named as in the source's kind strings. */
  datatype Kind =
    | FU | KY | KE | GI | KI | KA | HI | OU
    | TO | NY | NK | NG | UM | RY

  datatype Piece = Piece(kind: Kind, color: Color)

  function OppositeColor(c: Color): (r: Color)
    ensures r != c
  {
    if c == Black then White else Black
  }

  predicate IsPromoted(k: Kind) {
    k in {TO, NY, NK, NG, UM, RY}
  }

  predicate CanPromote(k: Kind) {
    k in {FU, KY, KE, GI, KA, HI}
  }

  /** Promotion of a promotable kind. */
  function Promote(k: Kind): (r: Kind)
    requires CanPromote(k)
    ensures IsPromoted(r)
  {
    match k
    case FU => TO
    case KY => NY
    case KE => NK
    case GI => NG
    case KA => UM
    case HI => RY
  }

  /** Strips promotion; an unpromoted kind is returned as it is. */
  function Unpromote(k: Kind): (r: Kind)
    ensures !IsPromoted(r)
    ensures !IsPromoted(k) ==> r == k
  {
    match k
    case TO => FU
    case NY => KY
    case NK => KE
    case NG => GI
    case UM => KA
    case RY => HI
    case _ => k
  }

  /** Promoting and then demoting gives the kind back, and a promoted kind is
      the promotion of its demotion: the two facts unmove relies on. */
  lemma PromoteRoundTrip(k: Kind)
    ensures CanPromote(k) ==> Unpromote(Promote(k)) == k
    ensures IsPromoted(k) ==> CanPromote(Unpromote(k)) && Promote(Unpromote(k)) == k
  {
  }

  function InversePiece(p: Piece): (r: Piece)
    ensures r.kind == p.kind && r.color != p.color
  {
    p.(color := OppositeColor(p.color))
  }
}
