# Shogi position engine — a Dafny model

This project models the `Shogi` class of `shogi.js`, a mutable shogi
position. The class holds a 9×9 board, one hand of captured pieces per
colour, the side to move and an edit-mode flag. The model covers its
pseudo-legal move generation (`getMovesFrom`), drop generation with the
double-pawn and dead-end rules (`getDropsBy`), the reverse lookup
(`getMovesTo`), check detection (`isCheck`), the hand summary, and execution
and exact undo of moves and drops (`move`/`unmove`, `drop`/`undrop`). It
also covers the edit-mode operations (`captureByColor`, `flip`, `setTurn`,
`editMode`) and the private helpers they are built from.

Layout, leaves first:

- `pieces.dfy` (`Pieces`): colours, the fourteen kinds and piece values. Also
  promote, unpromote, colour inversion and the promoted/promotable tests.
- `geometry.dfy` (`Geometry`): the per-kind movement table in Black's
  orientation, and the ±1 mirroring for the side.
- `boards.dfy` (`Boards`): the board as a value of 81 cells. Cell (x, y) is
  index (x-1)*9 + (y-1), the source's `board[x-1][y-1]` flattened.
- `movegen.dfy` (`MoveGen`): `getMovesFrom`, `getMovesTo` and `isCheck` as
  functions of a board, with their characterisation lemmas.
- `dropgen.dfy` (`DropGen`): `getIllegalUnpromotedRow`, `getRowToOppositeEnd`
  and `getDropsBy` as functions, with their lemmas.
- `positions.dfy` (`Positions`): the whole position as a value. Every
  state-changing operation is a function from the old position to the new
  one, or to the error the source throws.
- `laws.dfy` (`Laws`): what the operations promise. This covers the error
  cases, the effects, the two round trips and the flip cycle.
- `engine.dfy` (`Engine`): the class `Shogi` itself. The board is an
  `array`, and the hands, turn and flag are fields updated in place. Each
  method is proved to produce exactly the position (or error) that the
  matching function of `Positions` prescribes. Each read-only loop method is
  proved to return exactly the matching function of `MoveGen`/`DropGen`.

A hand is a sequence of kinds in insertion order. `pushToHand` appends, and
`popFromHand` removes the first match, as in the source. Every piece in
a hand has that hand's colour, so only the kind is kept. Round trips restore
each hand as a multiset, because `unmove` may pop a different copy of the
same kind than the one `move` pushed.

Errors the source throws are returned as values (`Error`). On every error
path the position is unchanged, as in the source, where each throw precedes
the first mutation.

The model follows the code in three places a reader might not expect:

- `drop` checks the drop against `getDropsBy` even in edit mode
  (shogi.js:153-157), although the comment on `editMode` (shogi.js:78-79)
  says edit mode skips both the turn and the movability checks; only the
  turn check is skipped.
- `undrop` returns the piece to the hand of its own colour (shogi.js:171,
  shogi.js:420), i.e. the dropper's hand, as it stands on the board (a
  promoted piece is not demoted).
- `isCheck` settles on the last king of the colour in scan order
  (shogi.js:321-332) when there is more than one.

## Model

| member | source | states |
|---|---|---|
| Pieces.PromoteRoundTrip | shogi.js:126-138 | demoting a promotion gives the kind back; a promoted kind is the promotion of its demotion (what unmove relies on to rebuild a captured piece) |
| Geometry.MoveDefinitions | shogi.js:196-199 | every sliding direction of the (assumed standard) table is non-zero, so every walk leaves the board |
| Geometry.Mirror | shogi.js:199-203 | Black's offsets are used as they are, White's are negated |
| Boards.Peek | shogi.js:291-293 | a non-empty read is always of an on-board cell |
| Boards.SetCell | shogi.js:403-405 | set changes exactly the one cell |
| MoveGen.JustTargetsMembership | shogi.js:200-208 | a square is a short-range target iff it is legal for the mover and is the piece's square plus some mirrored table offset |
| MoveGen.RayShape | shogi.js:209-221 | a sliding walk starts on the first square, advances one direction step at a time, passes only empty squares, keeps only legal squares, ends on an occupied (enemy) square or just before an illegal one, and is empty iff its first square is illegal |
| MoveGen.FlyTargetsMembership | shogi.js:209-222 | a square is a sliding target iff it lies on the walk of some table direction |
| MoveGen.MovesFromSpec | shogi.js:179-224 | getMovesFrom is empty for an empty cell; every target is on the board and free of the mover's pieces; a square is a target iff it is a legal single-step target or on a sliding walk |
| MoveGen.MovesToPrefixMembership | shogi.js:274-285 | after scanning n cells the result holds exactly the scanned c-coloured k-pieces whose moves contain (x, y) |
| MoveGen.MovesToPrefixStep | shogi.js:276-283 | one scan step of getMovesTo adds the current square iff it holds a c-coloured k-piece that reaches (x, y) |
| MoveGen.KingPrefixStep | shogi.js:323-330 | one scan step of the king search moves the remembered square to the current one iff it holds c's king |
| MoveGen.RayStep | shogi.js:213-220 | a walk from a legal square is that square alone when it is occupied, otherwise that square followed by the walk from the next one; the distance left shrinks |
| MoveGen.MovesToSpec | shogi.js:270-287 | getMovesTo returns exactly the squares of the c-coloured k-pieces whose getMovesFrom contains (x, y) |
| MoveGen.KingPrefixSpec | shogi.js:319-335 | the king scan finds nothing iff colour c has no king, and otherwise the last king of c in scan order |
| MoveGen.IsCheckSpec | shogi.js:316-349 | isCheck is false when c has no king; when true, an opposing piece's moves contain the square of a king of c |
| MoveGen.IsCheckUniqueKing | shogi.js:316-349 | with exactly one king of c, isCheck holds if and only if some opposing piece's moves contain the king's square |
| DropGen.DeadEndRanks | shogi.js:27-43 | the dead ranks are the last one for FU and KY and the last two for KE, counted from the far end of the side (y for Black, 10−y for White), and none for other kinds; a dead-end kind can promote |
| DropGen.EmptyPrefix | shogi.js:232-238 | every listed place is an empty on-board cell already scanned |
| DropGen.EmptyPrefixComplete | shogi.js:232-238 | every empty cell already scanned is listed |
| DropGen.EmptyPrefixDistinct | shogi.js:232-238 | no place is listed twice |
| DropGen.PlacesSpec | shogi.js:232-244 | the places are exactly the empty cells, each once |
| DropGen.DedupSpec | shogi.js:245-252 | the kinds visited are exactly the kinds in the hand, each once |
| DropGen.PawnWithinStep | shogi.js:234-243 | one rank of the pawn scan sets the flag iff that rank holds the side's unpromoted pawn; after nine ranks the flag says whether the file has one |
| DropGen.EmptyPrefixStep | shogi.js:235-238 | one cell of the scan adds the square to the places iff the cell is empty |
| DropGen.DedupStep | shogi.js:246-252 | a kind already visited is skipped; a new kind is visited after the earlier ones |
| DropGen.DropsForStep | shogi.js:252-263 | visiting a new kind appends its drops to the earlier kinds' drops |
| DropGen.DistinctAppend | shogi.js:246-264 | two repetition-free lists with nothing in common join into a repetition-free list |
| DropGen.KindDropsMembership | shogi.js:253-263 | for one kind, a drop is offered iff its square is among the places and passes the double-pawn and dead-end filters |
| DropGen.KindDropsDistinct | shogi.js:254-263 | over places without repeats, the drops of one kind have no repeats |
| DropGen.DropsForMembership | shogi.js:246-264 | a drop is offered iff its kind is visited, its square empty and the filters pass |
| DropGen.DropsForDistinct | shogi.js:246-264 | over kinds without repeats, no drop is offered twice |
| DropGen.DropsBySpec | shogi.js:228-266 | getDropsBy offers (square, kind) iff the kind is in the hand, the square is empty, it is not an FU on a file with the side's unpromoted FU, and the square is not a dead end; each pair at most once, however many copies are held |
| DropGen.DropsByRules | shogi.js:256-261 | no FU or KY is offered where the rank to the far end is ≤ 1, no KE where it is ≤ 2, and no FU on a file holding the side's FU |
| Positions.Position.WithHand | shogi.js:420 | replacing one colour's hand leaves the other hand, the board, the turn and the flag alone |
| Positions.RemoveFirst | shogi.js:425-436 | removing one piece shortens the hand by exactly one |
| Positions.RemoveFirstMultiset | shogi.js:425-436 | popFromHand takes exactly one k out of the hand's multiset |
| Positions.RemoveFirstAt | shogi.js:427-433 | the piece removed is the one at the first index holding k |
| Laws.MoveErrors | shogi.js:87-100 | move throws for an empty source; then, outside edit mode, for a piece not of the side to move; then, outside edit mode, for a target outside getMovesFrom; otherwise it succeeds with an on-board target distinct from the source |
| Laws.MoveEffects | shogi.js:101-112 | after a move the target holds the piece, promoted when asked or when the target is a dead end; the source is empty; nothing else changes on the board; a captured piece joins, demoted, the hand of its opposite colour; the turn passes except in edit mode |
| Laws.MoveCapturesOpponent | shogi.js:93-102 | outside edit mode a successful move only captures a piece of the other colour, so the capture lands in the mover's hand |
| Laws.UnmoveApplyEffects | shogi.js:129-142 | after the pop, the edit-mode move back, the demotion and the restoration touch only the two squares, leave both hands alone and rewind the turn unless in edit mode |
| Laws.UnmoveEffects | shogi.js:117-143 | unmove onto an empty source square puts the piece back there (promoted again when the source square is a dead end for it, then demoted when promote is given), restores the captured piece with the other colour and its promotion, takes one demoted copy from the mover's hand and rewinds the turn except in edit mode |
| Laws.ReturnedPiece | shogi.js:104-109 | the piece moved back is not promoted again on its source square, and demoting it when the move promoted it gives the original piece |
| Laws.HandRestored | shogi.js:125-127 | taking back the one kind a capture pushed leaves the hand's multiset as it was |
| Laws.SameElsewhereRestores | shogi.js:110-111 | two board changes touching only the same two cells, with both cells restored, give the original board |
| Laws.MoveUnmoveRoundTrip | shogi.js:87-143 | move followed by unmove, with the same squares, whether promotion happened and the captured piece's on-board kind, succeeds and restores the board, the turn, the flag and both hands as multisets |
| Laws.DropOutcome | shogi.js:147-161 | drop throws when the colour is not to move (outside edit mode), when the target is occupied, and when getDropsBy does not offer it; it never runs short of the kind; on success exactly one piece of the kind leaves the hand, the target holds it (never on a dead end nor as a second pawn on the file) and the turn passes except in edit mode |
| Laws.UndropEffects | shogi.js:165-174 | undrop fails on an empty cell and when the piece's own colour is to move (outside edit mode); otherwise the cell empties, the piece joins its own colour's hand unchanged and the turn goes back |
| Laws.UndoDrop | shogi.js:165-174 | undrop restores any position a drop of the kind by the side produced: board, turn, flag, and both hands as multisets |
| Laws.DropUndropRoundTrip | shogi.js:147-174 | drop followed by undrop succeeds and restores the board, the turn, the flag and both hands as multisets |
| Laws.EditOnly | shogi.js:354-398 | captureByColor, flip and setTurn throw outside edit mode |
| Laws.CaptureByColorEffects | shogi.js:354-365 | captureByColor empties the cell and adds the piece, demoted, to the given colour's hand |
| Laws.FlipCycle | shogi.js:366-389 | flip cycles a promotable piece through promoted, other colour, other colour promoted and back; any other piece just changes colour |
| Laws.FlipEffects | shogi.js:370-389 | flip on an empty cell returns false and changes nothing; on a piece it returns true and changes that cell only |
| Engine.Shogi.constructor | shogi.js:48-52 | a new position holds the given board, hands and side to move, with edit mode off |
| Engine.Shogi.EditMode | shogi.js:81-83 | only the flag changes |
| Engine.Shogi.Get | shogi.js:291-293 | reads the cell of the board value, empty for a rank off the board |
| Engine.Shogi.Set | shogi.js:403-405 | writes exactly one cell of the array |
| Engine.Shogi.PushToHand | shogi.js:419-421 | appends the kind to the hand of the piece's colour |
| Engine.Shogi.PopFromHand | shogi.js:425-436 | finds the first k, removes it and returns the piece, or reports a shortage with nothing changed |
| Engine.Shogi.Capture | shogi.js:409-415 | empties the cell and pushes the piece, demoted and turned over, to its new colour's hand |
| Engine.Shogi.NextTurn | shogi.js:440-445 | flips the side to move except in edit mode |
| Engine.Shogi.PrevTurn | shogi.js:449-454 | flips the side to move back except in edit mode |
| Engine.Shogi.CheckTurn | shogi.js:458-462 | a colour may act iff edit mode is on or it is that colour's turn |
| Engine.Shogi.Slide | shogi.js:209-221 | the walk loop (the source's `legal` and `shouldStop` closures on the current board) returns exactly the sliding walk |
| Engine.Shogi.JustMoves | shogi.js:200-208 | the offset loop returns exactly the legal single-step targets |
| Engine.Shogi.FlyMoves | shogi.js:209-222 | the direction loop returns exactly the concatenated walks |
| Engine.Shogi.GetMovesFrom | shogi.js:179-224 | returns exactly the targets MoveGen.MovesFrom defines |
| Engine.Shogi.ScanFile | shogi.js:233-243 | one file of the first pass appends exactly that file's empty squares and reports whether the side has an unpromoted pawn there |
| Engine.Shogi.ScanForDrops | shogi.js:229-244 | returns the empty cells in scan order and, per file, whether the side has an unpromoted pawn there |
| Engine.Shogi.DropsOfKind | shogi.js:253-263 | returns exactly the drops of one kind that pass both filters |
| Engine.Shogi.GetDropsBy | shogi.js:228-266 | returns exactly the drops DropGen.DropsBy defines |
| Engine.Shogi.ReachesFrom | shogi.js:276-283 | the scan body answers whether a c-coloured k-piece stands on the cell and its getMovesFrom contains (x, y) |
| Engine.Shogi.MovesToInFile | shogi.js:275-284 | one file of the scan extends the result exactly as MoveGen.MovesToPrefix prescribes |
| Engine.Shogi.GetMovesTo | shogi.js:270-287 | returns exactly the sources MoveGen.MovesTo defines |
| Engine.CountStep | shogi.js:307-310 | counting one more hand element raises exactly that kind's count by one |
| Engine.TallyStep | shogi.js:307-310 | one loop step keeps every one of the seven counts equal to its number of copies among the hand elements seen so far, skipping a kind outside the seven |
| Engine.Shogi.GetHandsSummary | shogi.js:297-312 | returns, for each of the seven hand kinds, its number of copies in the hand, whatever else the hand holds |
| Engine.Shogi.FindKingInFile | shogi.js:322-331 | one file of the king search leaves exactly the last king of c scanned so far |
| Engine.Shogi.AttackInFile | shogi.js:337-346 | one file of the attack search answers true only when an opposing piece reaches the king's square, and false only when no opposing piece on that file does |
| Engine.Shogi.IsCheck | shogi.js:316-349 | returns exactly MoveGen.IsCheck of the board |
| Engine.Shogi.Move | shogi.js:87-113 | produces the position or error Positions.MoveSpec prescribes; errors leave the position unchanged |
| Engine.Shogi.ApplyMove | shogi.js:101-112 | the part after the checks produces exactly Positions.MoveApply: capture, landing with promotion when asked or forced, empty source, turn passed |
| Engine.Shogi.Unmove | shogi.js:117-143 | produces the position or error Positions.UnmoveSpec prescribes |
| Engine.Shogi.ApplyUnmove | shogi.js:129-142 | after the pop, the edit-mode move back cannot fail, and the result is exactly Positions.UnmoveApply |
| Engine.Shogi.FinishUnmove | shogi.js:132-142 | demotion, restoration of the captured piece, the edit flag and the turn give exactly Positions.UnmoveRestore |
| Engine.Shogi.Drop | shogi.js:147-161 | produces the position or error Positions.DropSpec prescribes |
| Engine.Shogi.ApplyDrop | shogi.js:158-160 | the pop, placement and turn change give exactly Positions.DropApply, or the shortage error with nothing changed |
| Engine.Shogi.Undrop | shogi.js:165-174 | produces the position or error Positions.UndropSpec prescribes |
| Engine.Shogi.CaptureByColor | shogi.js:354-365 | produces the position or error Positions.CaptureByColorSpec prescribes |
| Engine.Shogi.Flip | shogi.js:370-389 | produces the answer and position or error Positions.FlipSpec prescribes |
| Engine.Shogi.SetTurn | shogi.js:393-398 | sets the side to move in edit mode, throws otherwise |

## Left out

- Serialization (`initialize`, `initializeFromSFENString`, `toCSAString`, `toSFENString`, shogi.js:48-75): the `Serialization` module is not part of this model. The constructor takes an already decoded board, hands and side to move.
- The movement table (`getMoveDefinitions`, shogi.js:15 and 196): the `moveDefinitions` module is not part of this model. `Geometry.MoveDefinitions` transcribes the standard shogi geometry as an assumption.
- `Piece`, `Color`, `Kind` and the polyfills (shogi.js:10-18) are not part of this model. Pieces are values, and promote/unpromote/inverse are pure functions. The source's sharing of mutable piece objects between cells and hands is not modelled.
- Engine.Shogi.Move: promotion of a kind that cannot promote is left undefined by the source's collaborators, so `promote` requires a promotable piece.
- Engine.Shogi.Move: in edit mode a move from a square onto itself makes the source capture the moving piece object and keep it both in a hand and, briefly, on the board. This aliasing is excluded by the requires.
- Engine.Shogi.Move: in edit mode no geometry is checked, so the source accepts a target rank outside 1..9 and writes the piece into a slot off the 9×9 grid. The requires asks for a target on the board in edit mode.
- Engine.Shogi.Unmove: the source accepts any source square and a source equal to the target. Its inner edit-mode move then writes off the 9×9 grid, or captures the moving piece object onto itself as described for `move`. The requires asks for the source square on the board and different from the target.
- Engine.Shogi.CaptureByColor: on an empty cell the source dereferences null; in edit mode the cell must hold a piece.
- Engine.Shogi.GetHandsSummary: a hand kind outside the seven (a captured king, or a promoted piece returned by undrop) makes the source add an extra entry for that kind holding NaN (`undefined + 1`, shogi.js:309). The model skips such a kind, so its result has only the seven entries; their counts are the source's.
- Coordinates: a file outside 1..9 makes the source read an undefined row and crash. So `get`, `getMovesFrom`, `move` (source file), `unmove` and `undrop` require their file in 1..9. `drop` requires it only when the turn check passes (shogi.js:149-150), and `flip` and `captureByColor` only in edit mode (shogi.js:355-358, 371-374): the source throws before it reads the cell. `getMovesTo` takes no coordinate it reads from. A rank outside 1..9 reads as an empty cell, as in the source.
- Laws.MoveUnmoveRoundTrip: holds only when the source square is not a dead end for the moving piece and a capture is of the other colour. Otherwise unmove's inner move would force promotion on the way back, or pop from the wrong hand; the source behaves the same way.
- Results: `getMovesFrom` and `getMovesTo` return squares rather than `{from, to}` records, and `getDropsBy` returns (square, kind) pairs without the constant colour.
- The default arguments (`promote = false`, `color = this.turn` for `drop` and `getMovesTo`) are explicit parameters.
- Error message strings are not modelled; each error is one `Error` value.
- Self-check filtering, checkmate, stalemate and the drop-pawn-mate ban are not implemented by the source (shogi.js:177) and are not modelled.
- Concurrency: the engine is single-threaded and synchronous; nothing to model.
