/** The movement table. The repository's own table is not part of this model;
    this module transcribes the standard shogi geometry, in Black's
    orientation (Black advances towards rank 1, so "forward" is dy = -1). */
module Geometry {
  import opened Pieces

  datatype Offset = Offset(dx: int, dy: int)

  /** Short-range ("just") offsets and sliding ("fly") directions of a kind. */
  datatype MoveDef = MoveDef(just: seq<Offset>, fly: seq<Offset>)

  const Gold: seq<Offset> :=
    [Offset(-1, -1), Offset(0, -1), Offset(1, -1), Offset(-1, 0), Offset(1, 0), Offset(0, 1)]
  const Diagonals: seq<Offset> := [Offset(-1, -1), Offset(1, -1), Offset(-1, 1), Offset(1, 1)]
  const Orthogonals: seq<Offset> := [Offset(0, -1), Offset(-1, 0), Offset(1, 0), Offset(0, 1)]

  function MoveDefinitions(k: Kind): (d: MoveDef)
    ensures forall i :: 0 <= i < |d.fly| ==> d.fly[i] != Offset(0, 0)
  {
    match k
    case FU => MoveDef([Offset(0, -1)], [])
    case KY => MoveDef([], [Offset(0, -1)])
    case KE => MoveDef([Offset(-1, -2), Offset(1, -2)], [])
    case GI => MoveDef([Offset(-1, -1), Offset(0, -1), Offset(1, -1), Offset(-1, 1), Offset(1, 1)], [])
    case KI => MoveDef(Gold, [])
    case TO => MoveDef(Gold, [])
    case NY => MoveDef(Gold, [])
    case NK => MoveDef(Gold, [])
    case NG => MoveDef(Gold, [])
    case KA => MoveDef([], Diagonals)
    case HI => MoveDef([], Orthogonals)
    case OU => MoveDef(Diagonals + Orthogonals, [])
    case UM => MoveDef(Orthogonals, Diagonals)
    case RY => MoveDef(Diagonals, Orthogonals)
  }

  /** The mirroring multiplier: +1 for Black, -1 for White. */
  function Unit(c: Color): (u: int)
    ensures u == 1 || u == -1
    ensures c == Black <==> u == 1
  {
    if c == Black then 1 else -1
  }

  /** An offset as seen by a piece of colour c. */
  function Mirror(d: Offset, c: Color): (r: Offset)
    ensures d != Offset(0, 0) ==> r != Offset(0, 0)
    ensures c == Black ==> r == d
    ensures c == White ==> r.dx == -d.dx && r.dy == -d.dy
  {
    Offset(d.dx * Unit(c), d.dy * Unit(c))
  }
}
