# Banqi rules engine in Dafny

This project models the rules engine of an Android Chinese Dark Chess (Banqi)
game: the board class `Board` and its piece class `Piece`. The game is played on
a 4 x 8 board. At the start, 32 face-down pieces are shuffled onto it, 16 red and 16 black.

On each turn a player either flips a face-down piece or moves one of their own
face-up pieces. A piece other than a Cannon moves one orthogonal step. It
captures by rank dominance: a General cannot take a Soldier, but a Soldier can
take a General. A Cannon slides along a clear line, and it captures by jumping
exactly one screen.

The first flip binds the colours. Either the human flips first, or the computer
is forced to flip a random piece first. After every move or flip, the engine
checks whether either colour is stuck. The computer player is greedy: it takes
the best-scoring capture, else flips a random face-down piece, else makes a
random plain move.

Layout:

- `options.dfy` (`Options`): the `Option` type. It models a Java reference that
  may be null, and the colour fields that start unset.
- `piece.dfy` (`Pieces`): `Rank` and `Color` in their declaration order, and the
  `Piece` class. A piece has a constant rank and colour and a mutable `faceUp`
  flag.
- `rules.dfy` (`Rules`): the move-legality oracle on board values (`Grid`, the 32
  cells in row-major order). This covers rank dominance, the Cannon's path
  counting, and the piece values the computer player uses.
- `game.dfy` (`Game`):
  - the whole game as a value (`State`);
  - the standard piece set and the shuffled deal;
  - the win check;
  - the flip, move and forced-first-flip transitions as functions, with lemmas
    about them.
- `ai.dfy` (`Ai`): the computer player's choice as a function on board values,
  with lemmas about it. This covers the scan order of candidate moves, the
  scoring, the first best capture, and the order capture, then flip, then move.
- `board.dfy` (`Boards`): the `Board` class.
  - Its fields are a `array2<Piece?>` grid and the five mutable fields.
  - Its methods follow the Java ones loop for loop, except `CreatePieces`:
    its one loop over the standard set stands for the 32 separate `add` calls.
  - Each method is proved against the functions above through the abstraction
    functions `View()` (the grid as a value) and `State()`.

Random choices become parameters:

- `Collections.shuffle` becomes a permutation `perm` of the indices 0..31.
- Each `new Random().nextInt(n)` becomes a natural number, used as `pick % n`.
  This covers the flip and move draws of `makeAiMove` (`flipPick`, `movePick`)
  and the forced first flip of `forceAiFirstMove` (`pick`, with n = 32). Every
  outcome of a draw is some `pick % n`.

The model keeps these behaviours of the code:

- The code creates, per colour, one General, five Soldiers and two of every
  other rank, 16 in all.
- It values a piece at `7 - ordinal`: 7 for a General down to 1 for a Cannon.
- `makeAiMove` scans for `currentPlayer`, not `aiColor`.
- `movePiece` and `flipPiece` do not look at the game status.
- `forceAiFirstMove` runs no win check.
- `switchPlayer` turns an unset player into RED.
- `hasNoMoves` answers false while any piece of either colour is face down.

## Model

All Java paths are relative to `app/src/main/java/com/example/chinesedarkchess/`
in the repository; the table cites them in full.

| member | source | states |
|---|---|---|
| Pieces.Ordinal | app/src/main/java/com/example/chinesedarkchess/Piece.java:4-6 | ranks number 0..6 in declaration order, General 0 to Cannon 6 |
| Pieces.RankOf | app/src/main/java/com/example/chinesedarkchess/Piece.java:4-6 | every ordinal 0..6 names the rank that has that ordinal |
| Pieces.OrdinalRoundTrip | app/src/main/java/com/example/chinesedarkchess/Piece.java:4-6 | ordinals are a bijection: RankOf(Ordinal(r)) == r |
| Pieces.Opponent | app/src/main/java/com/example/chinesedarkchess/Board.java:106 | the other colour differs from the given one |
| Pieces.Piece.constructor | app/src/main/java/com/example/chinesedarkchess/Piece.java:16-20 | a new piece has the given rank and colour and lies face down |
| Pieces.Piece.Flip | app/src/main/java/com/example/chinesedarkchess/Piece.java:34-36 | the piece is face up afterwards; rank and colour are constants |
| Rules.Jumped | app/src/main/java/com/example/chinesedarkchess/Board.java:197-212 | no contract of its own; the pieces a Cannon jumps (the two counting loops at lines 197-212 and 223-238), the occupied cells strictly between source and target, characterised by JumpedZero and JumpedOne |
| Rules.ValidMove | app/src/main/java/com/example/chinesedarkchess/Board.java:187-244 | no contract of its own; the legality rule of `isValidMove`, characterised by ValidMoveShape, StepRule and CannonRule, and proved equal to Boards.Board.IsValidMove |
| Rules.CanCapture | app/src/main/java/com/example/chinesedarkchess/Board.java:180-185 | Cannon takes anything; otherwise a capture holds iff Soldier takes General, or ordinal(attacker) <= ordinal(defender) and it is neither General on Soldier nor Soldier on Cannon |
| Rules.PieceValue | app/src/main/java/com/example/chinesedarkchess/Board.java:265-267 | values lie in 1..7, 7 exactly for a General, 1 exactly for a Cannon |
| Rules.PieceValueOrder | app/src/main/java/com/example/chinesedarkchess/Board.java:265-267 | a rank earlier in the declaration order is worth strictly more, and equal values mean equal ranks |
| Rules.CaptureScore | app/src/main/java/com/example/chinesedarkchess/Board.java:293-298 | Soldier takes General scores 100; any other capture scores ordinal(attacker) - ordinal(defender), in -6..6; always above the initial -100 |
| Rules.ValidMoveShape | app/src/main/java/com/example/chinesedarkchess/Board.java:188-221 | a legal move starts from a face-up piece of the player to move and ends on another board cell that is empty or holds a face-up enemy |
| Rules.StepRule | app/src/main/java/com/example/chinesedarkchess/Board.java:214-242 | for a non-Cannon: a move to an empty cell is legal iff it is one orthogonal step; a capture of a face-up enemy is legal iff one step and CanCapture |
| Rules.CannonRule | app/src/main/java/com/example/chinesedarkchess/Board.java:195-238 | for a Cannon: to an empty cell iff same line with every cell between empty; capture iff same line with exactly one occupied cell between |
| Rules.OccupiedZero | app/src/main/java/com/example/chinesedarkchess/Board.java:201-213 | the counting loop finds no piece iff every cell on the stretch is empty |
| Rules.OccupiedOne | app/src/main/java/com/example/chinesedarkchess/Board.java:226-238 | the counting loop finds exactly one piece iff exactly one cell on the stretch is occupied |
| Rules.JumpedZero | app/src/main/java/com/example/chinesedarkchess/Board.java:197-213 | the pieces jumped are none iff every cell strictly between source and target is empty |
| Rules.JumpedOne | app/src/main/java/com/example/chinesedarkchess/Board.java:223-238 | the pieces jumped are exactly one iff a unique cell strictly between is occupied |
| Game.StandardSet | app/src/main/java/com/example/chinesedarkchess/Board.java:37-71 | no contract of its own; the 32 pieces in the order of the `add` calls, characterised by StandardCounts, StandardSize and StandardFaceDown |
| Game.Deal | app/src/main/java/com/example/chinesedarkchess/Board.java:73-80 | no contract of its own; the grid a shuffle deals, characterised by DealComposition, DealAt, DealIs and ShuffledIsStandard |
| Game.InitialState | app/src/main/java/com/example/chinesedarkchess/Board.java:25-33 | no contract of its own; the state after construction, characterised by InitialStateFacts and proved equal to Boards.Board.constructor |
| Game.NoMoves | app/src/main/java/com/example/chinesedarkchess/Board.java:138-178 | no contract of its own; the stuck test of `hasNoMoves`, characterised by NoMovesMeaning and proved equal to Boards.Board.HasNoMoves |
| Game.FlipSpec | app/src/main/java/com/example/chinesedarkchess/Board.java:99-112 | no contract of its own; the state after `flipPiece`, characterised by FlipEffect and FirstFlipBindsColors and proved equal to Boards.Board.FlipPiece |
| Game.MoveSpec | app/src/main/java/com/example/chinesedarkchess/Board.java:88-97 | no contract of its own; the state and result of `movePiece`, characterised by MoveEffect and proved equal to Boards.Board.MovePiece |
| Game.Moved | app/src/main/java/com/example/chinesedarkchess/Board.java:92-93 | no contract of its own; the grid after a relocation, characterised by MovedCells and proved equal to Boards.Board.Relocate |
| Game.ForceFirst | app/src/main/java/com/example/chinesedarkchess/Board.java:246-263 | no contract of its own; the state after `forceAiFirstMove`, characterised by ForceFirstBindsColors and proved equal to Boards.Board.ForceAiFirstMove |
| Game.Switch | app/src/main/java/com/example/chinesedarkchess/Board.java:114-116 | the next colour is the opponent of a set colour, and RED when unset |
| Game.StandardCounts | app/src/main/java/com/example/chinesedarkchess/Board.java:37-71 | the set holds, per colour, 1 General, 2 each of Advisor, Elephant, Chariot, Horse and Cannon, 5 Soldiers, all face down |
| Game.StandardSize | app/src/main/java/com/example/chinesedarkchess/Board.java:37-71 | the set has 32 pieces, 16 per colour |
| Game.StandardFaceDown | app/src/main/java/com/example/chinesedarkchess/Piece.java:16-20 | every piece of the set starts face down |
| Game.ShuffleFacts | app/src/main/java/com/example/chinesedarkchess/Board.java:73 | a shuffle is 32 distinct indices, each in 0..31 |
| Game.ShuffleInRange | app/src/main/java/com/example/chinesedarkchess/Board.java:73 | a shuffle has 32 entries, each an index in 0..31 |
| Game.PickMultiset | app/src/main/java/com/example/chinesedarkchess/Board.java:73 | reordering the indices keeps the multiset of picked elements |
| Game.ShuffledIsStandard | app/src/main/java/com/example/chinesedarkchess/Board.java:73 | whatever the shuffle, the dealt pieces are exactly the multiset of the standard set |
| Game.PickShuffle | app/src/main/java/com/example/chinesedarkchess/Board.java:73 | a shuffle of the indices of any 32 elements picks exactly those elements, as a multiset |
| Game.DealComposition | app/src/main/java/com/example/chinesedarkchess/Board.java:75-80 | every cell of the deal is occupied and face down, cell i holding the i-th shuffled piece |
| Game.DealAt | app/src/main/java/com/example/chinesedarkchess/Board.java:75-80 | cell i holds the standard piece the shuffle puts i-th |
| Game.DealIs | app/src/main/java/com/example/chinesedarkchess/Board.java:75-80 | a grid whose every cell holds the standard piece the shuffle puts there is the deal |
| Game.InitialStateFacts | app/src/main/java/com/example/chinesedarkchess/Board.java:25-33 | the initial state is consistent, no colour is to move, the first flip is still to come, the game is ongoing |
| Game.NoMovesMeaning | app/src/main/java/com/example/chinesedarkchess/Board.java:138-178 | stuck iff nothing is face down and the colour has no legal move; any face-down piece keeps both alive; a colour with no pieces is stuck once nothing is face down |
| Game.CheckWin | app/src/main/java/com/example/chinesedarkchess/Board.java:130-136 | RED stuck gives BLACK_WIN, else BLACK stuck gives RED_WIN, else the status is kept; ONGOING never overwrites an outcome |
| Game.MovedCells | app/src/main/java/com/example/chinesedarkchess/Board.java:92-93 | the target gets the source piece, the source empties, other cells stay; the piece count drops by one exactly on a capture |
| Game.MoveEffect | app/src/main/java/com/example/chinesedarkchess/Board.java:88-97 | an illegal move returns false and changes nothing; a legal one relocates the piece, switches the player and never adds pieces |
| Game.FlipEffect | app/src/main/java/com/example/chinesedarkchess/Board.java:99-112 | no change on an empty, face-up or off-board cell; otherwise exactly that piece turns face up, keeping rank and colour |
| Game.FirstFlipBindsColors | app/src/main/java/com/example/chinesedarkchess/Board.java:103-109 | the first flip gives the human the flipped colour and the computer the other, ends the first-move phase, and leaves the other colour to move |
| Game.ForceFirstBindsColors | app/src/main/java/com/example/chinesedarkchess/Board.java:246-263 | the forced flip does nothing after the first move; otherwise the computer takes the flipped colour, the human the other and is to move, the status untouched |
| Game.FirstMoveIsFinal | app/src/main/java/com/example/chinesedarkchess/Board.java:103-108 | after the first flip no transition resets the first-move flag or rebinds the colours, and accepted moves and flips pass the turn |
| Game.TransitionsKeepConsistent | app/src/main/java/com/example/chinesedarkchess/Board.java:88-112 | no move is legal before the first flip; flips and moves keep the state consistent |
| Game.FaceUpIsFinal | app/src/main/java/com/example/chinesedarkchess/Piece.java:34-36 | no transition turns a piece face down: a flip lowers the face-down count by one exactly when it turns one up, a move keeps it |
| Ai.Candidates | app/src/main/java/com/example/chinesedarkchess/Board.java:273-286 | no contract of its own; the capture or plain-move list of `makeAiMove`, characterised by CandidatesExact and Scan and proved equal to Boards.Board.CollectMoves |
| Ai.BestCapture | app/src/main/java/com/example/chinesedarkchess/Board.java:287-305 | no contract of its own; the first best-scoring capture, characterised by BestCaptureIsBest and proved equal to Boards.Board.BestOf |
| Ai.AiChoice | app/src/main/java/com/example/chinesedarkchess/Board.java:269-337 | no contract of its own; the action of `makeAiMove`, characterised by AiChoiceIsLegal, AiCapturesFirst, AiFlipsSecond, AiMovesLast and AiIdleWhenStuck, and proved equal to Boards.Board.ChooseAction |
| Ai.Apply | app/src/main/java/com/example/chinesedarkchess/Board.java:304-336 | no contract of its own; an action carried out through MoveSpec (the moves at lines 304 and 336) or FlipSpec (the flip at line 317) |
| Ai.AiStep | app/src/main/java/com/example/chinesedarkchess/Board.java:269-338 | no contract of its own; one computer turn, characterised by AiStepKeepsConsistent and proved equal to Boards.Board.MakeAiMove |
| Ai.MoveAt | app/src/main/java/com/example/chinesedarkchess/Board.java:274-278 | each scan position names a move between two board cells at that position |
| Ai.SlotRoundTrip | app/src/main/java/com/example/chinesedarkchess/Board.java:274-278 | every move between board cells has exactly one scan position |
| Ai.Scan | app/src/main/java/com/example/chinesedarkchess/Board.java:273-286 | the collected moves are candidates of the asked kind, in strictly increasing scan order |
| Ai.ScanComplete | app/src/main/java/com/example/chinesedarkchess/Board.java:273-286 | every candidate within the scanned range is collected |
| Ai.CandidatesExact | app/src/main/java/com/example/chinesedarkchess/Board.java:273-286 | a move is in the list iff it is a legal move of the asked kind for the player to move |
| Ai.FaceDownCells | app/src/main/java/com/example/chinesedarkchess/Board.java:307-314 | the listed cells are face down and in increasing order |
| Ai.FaceDownCellsComplete | app/src/main/java/com/example/chinesedarkchess/Board.java:307-314 | every face-down cell is listed |
| Ai.CandidateSlot | app/src/main/java/com/example/chinesedarkchess/Board.java:274-279 | every legal move joins two board cells, so the scan reaches it at its own position |
| Ai.Score | app/src/main/java/com/example/chinesedarkchess/Board.java:290-298 | a move between two occupied cells scores the capture score of the attacker on the defender, and only such a move scores above the default −100 |
| Ai.FirstMax | app/src/main/java/com/example/chinesedarkchess/Board.java:288-303 | the index is of a maximum, and every earlier entry is strictly smaller |
| Ai.BestCaptureIsBest | app/src/main/java/com/example/chinesedarkchess/Board.java:287-305 | the chosen capture is legal, no legal capture scores more, and every legal capture earlier in row-major order scores less |
| Ai.SoldierTakesGeneral | app/src/main/java/com/example/chinesedarkchess/Board.java:294-295 | when a Soldier can take a General, the computer makes such a capture, the first one in scan order |
| Ai.AiIdleBeforeFirstFlip | app/src/main/java/com/example/chinesedarkchess/Board.java:270 | with no colour to move the computer does nothing |
| Ai.AiCapturesFirst | app/src/main/java/com/example/chinesedarkchess/Board.java:287-306 | when any legal capture exists the computer makes the best capture |
| Ai.AiFlipsSecond | app/src/main/java/com/example/chinesedarkchess/Board.java:307-319 | with no capture and a face-down piece, every draw flips a face-down piece and every face-down piece is flipped for some draw |
| Ai.AiMovesLast | app/src/main/java/com/example/chinesedarkchess/Board.java:320-337 | with no capture and nothing face down, every draw makes a legal plain move when one exists |
| Ai.AiMayMakeAnyMove | app/src/main/java/com/example/chinesedarkchess/Board.java:334-336 | in that situation every legal plain move is made for some draw |
| Ai.AiIdleWhenStuck | app/src/main/java/com/example/chinesedarkchess/Board.java:334-337 | with no capture, no face-down piece and no plain move the computer does nothing |
| Ai.AiChoiceIsLegal | app/src/main/java/com/example/chinesedarkchess/Board.java:269-337 | a capture or plain move chosen is legal; a plain move only when no capture exists and nothing is face down; a flip happens only on a face-down cell and only when no capture exists; idling only before a colour is to move or when nothing is face down and no move is legal |
| Ai.AiChoiceCapture | app/src/main/java/com/example/chinesedarkchess/Board.java:287-305 | unfolding of AiChoice's capture branch: with a capture available, the choice is the first best-scoring capture in scan order |
| Ai.AiChoiceFlip | app/src/main/java/com/example/chinesedarkchess/Board.java:307-318 | unfolding of AiChoice's flip branch: with no capture and a face-down piece, the choice flips the drawn entry of the face-down list, a face-down cell |
| Ai.AiChoicePlain | app/src/main/java/com/example/chinesedarkchess/Board.java:320-336 | unfolding of AiChoice's plain branch: with no capture and nothing face down, the choice is the drawn entry of the plain-move list, a legal plain move |
| Ai.AiStepKeepsConsistent | app/src/main/java/com/example/chinesedarkchess/Board.java:269-337 | a turn of the computer player keeps the state consistent |
| Ai.CollectsStep | app/src/main/java/com/example/chinesedarkchess/Board.java:277-282 | appending the move at the next scan position when it qualifies extends a correct prefix of the list by one position |
| Ai.CollectsSkip | app/src/main/java/com/example/chinesedarkchess/Board.java:276 | a source cell without a face-up piece of the player to move contributes no move |
| Ai.CollectsScan | app/src/main/java/com/example/chinesedarkchess/Board.java:273-286 | a list that is exactly the ordered candidates below position n equals the scan of n positions |
| Ai.CollectsPrefix | app/src/main/java/com/example/chinesedarkchess/Board.java:273-286 | a correct list for n scan positions is a correct list for n - 1 positions followed by the move at position n - 1 exactly when it qualifies |
| Ai.BestSoFarStep | app/src/main/java/com/example/chinesedarkchess/Board.java:299-302 | the strict greater-than update keeps the best index so far the first maximum of the entries seen |
| Ai.FirstMaxUnique | app/src/main/java/com/example/chinesedarkchess/Board.java:288-303 | an index that no entry exceeds and that every earlier entry is below is the first maximum |
| Ai.CapturesOccupied | app/src/main/java/com/example/chinesedarkchess/Board.java:279 | every collected capture runs between two occupied cells, so both pieces the scoring reads exist |
| Boards.Board.constructor | app/src/main/java/com/example/chinesedarkchess/Board.java:25-33 | a new board is the initial state for the shuffle |
| Boards.Board.InitializePieces | app/src/main/java/com/example/chinesedarkchess/Board.java:35-81 | the grid becomes the deal of the standard set by the shuffle, each piece on one cell |
| Boards.Board.CreatePieces | app/src/main/java/com/example/chinesedarkchess/Board.java:37-71 | one fresh, distinct piece per entry of the standard set, with its rank and colour, face down |
| Boards.Board.ShuffleAndDeal | app/src/main/java/com/example/chinesedarkchess/Board.java:73-80 | cell i holds the created piece the shuffle puts i-th, no piece on two cells |
| Boards.Board.DealRows | app/src/main/java/com/example/chinesedarkchess/Board.java:75-80 | cell (r, c) holds the list entry at r*8+c, no piece on two cells |
| Boards.Board.GetPiece | app/src/main/java/com/example/chinesedarkchess/Board.java:83-86 | null off the board; otherwise the cell's piece, agreeing with the board value |
| Boards.Board.CountAlong | app/src/main/java/com/example/chinesedarkchess/Board.java:202-212 | the stepping loop counts the occupied cells strictly between the two positions of a line |
| Boards.Board.PieceOnLine | app/src/main/java/com/example/chinesedarkchess/Board.java:205 | whether the cell at that position of the line is occupied on the current board |
| Boards.Board.CountJumped | app/src/main/java/com/example/chinesedarkchess/Board.java:197-212 | the number of pieces strictly between source and target on their common line |
| Boards.Board.IsValidMove | app/src/main/java/com/example/chinesedarkchess/Board.java:187-244 | the answer is the legality rule on the current board for the player to move |
| Boards.Board.ReachesFrom | app/src/main/java/com/example/chinesedarkchess/Board.java:191-244 | once the mover is a face-up piece of the player to move, the answer is the legality rule |
| Boards.Board.ToEmpty | app/src/main/java/com/example/chinesedarkchess/Board.java:194-218 | to an empty cell: the answer is the legality rule (a clear line for a Cannon, one step otherwise) |
| Boards.Board.ToOccupied | app/src/main/java/com/example/chinesedarkchess/Board.java:220-243 | onto a piece: the answer is the legality rule (a face-up enemy, over one screen for a Cannon, one step and rank dominance otherwise) |
| Boards.Board.SwitchPlayer | app/src/main/java/com/example/chinesedarkchess/Board.java:114-116 | the player to move becomes the next colour |
| Boards.Board.FindFaceDown | app/src/main/java/com/example/chinesedarkchess/Board.java:139-146 | true iff some cell holds a face-down piece |
| Boards.Board.FindPieceOf | app/src/main/java/com/example/chinesedarkchess/Board.java:147-158 | true iff some cell holds a piece of the colour |
| Boards.Board.HasTarget | app/src/main/java/com/example/chinesedarkchess/Board.java:163-172 | true iff the piece on (r, c) has a legal destination with the colour to move; the player to move is restored |
| Boards.Board.TargetInRow | app/src/main/java/com/example/chinesedarkchess/Board.java:164-172 | false iff no cell of the target row is a legal destination with the colour to move; the player to move is restored |
| Boards.Board.ValidFor | app/src/main/java/com/example/chinesedarkchess/Board.java:165-168 | the legality rule with the colour put to move; the player to move and the board are restored |
| Boards.Board.HasNoMoves | app/src/main/java/com/example/chinesedarkchess/Board.java:138-178 | the answer is whether the colour is stuck; the temporarily overwritten player to move is restored |
| Boards.Board.AllBlocked | app/src/main/java/com/example/chinesedarkchess/Board.java:159-177 | true iff no face-up piece of the colour anywhere has a legal destination |
| Boards.Board.RowBlocked | app/src/main/java/com/example/chinesedarkchess/Board.java:160-175 | true iff no face-up piece of the colour in the row has a legal destination |
| Boards.Board.CheckWinCondition | app/src/main/java/com/example/chinesedarkchess/Board.java:130-136 | the status becomes the win check of the current board and the old status; the player to move is unchanged |
| Boards.Board.TurnUp | app/src/main/java/com/example/chinesedarkchess/Board.java:101-102 | exactly that cell's piece turns face up; every other cell keeps its value |
| Boards.Board.FlipPiece | app/src/main/java/com/example/chinesedarkchess/Board.java:99-112 | the new state is the flip transition of the old one, and the board stays well formed |
| Boards.Board.Uncover | app/src/main/java/com/example/chinesedarkchess/Board.java:101-110 | the piece turns face up; on the first flip the human takes its colour and the computer the other; the turn passes and the win check runs |
| Boards.Board.Relocate | app/src/main/java/com/example/chinesedarkchess/Board.java:92-93 | the board value becomes the old one with the piece moved; no piece on two cells |
| Boards.Board.MovePiece | app/src/main/java/com/example/chinesedarkchess/Board.java:88-97 | the new state and the answer are the move transition of the old state |
| Boards.Board.Commit | app/src/main/java/com/example/chinesedarkchess/Board.java:92-95 | a legal move relocates the piece, passes the turn and runs the win check, keeping the board well formed |
| Boards.Board.ForceAiFirstMove | app/src/main/java/com/example/chinesedarkchess/Board.java:246-263 | the new state is the forced first flip of cell `pick % 32`, the entry the draw selects from the list of all 32 cells |
| Boards.Board.AllCells | app/src/main/java/com/example/chinesedarkchess/Board.java:248-253 | the 32 cells of the board in row-major order, entry k being cell k |
| Boards.Board.BindToAi | app/src/main/java/com/example/chinesedarkchess/Board.java:256-261 | exactly that piece turns face up; the computer takes its colour, the human the other and is to move |
| Boards.Board.CollectMoves | app/src/main/java/com/example/chinesedarkchess/Board.java:273-286 | the list is exactly the legal moves of the asked kind for the player to move, in row-major scan order |
| Boards.Board.CollectRow | app/src/main/java/com/example/chinesedarkchess/Board.java:275-285 | one source row extends a correct prefix of the list by that row's 256 scan positions |
| Boards.Board.CollectFrom | app/src/main/java/com/example/chinesedarkchess/Board.java:276-284 | one source cell extends a correct prefix by its 32 scan positions |
| Boards.Board.CollectTargets | app/src/main/java/com/example/chinesedarkchess/Board.java:277-283 | the target loops of one source extend a correct prefix by 32 positions |
| Boards.Board.CollectRowTargets | app/src/main/java/com/example/chinesedarkchess/Board.java:278-282 | one target row extends a correct prefix by that row's 8 positions |
| Boards.Board.IsTarget | app/src/main/java/com/example/chinesedarkchess/Board.java:279 | true iff the move is legal and its target is occupied or empty, as asked |
| Boards.Board.CollectFlips | app/src/main/java/com/example/chinesedarkchess/Board.java:307-314 | the list is exactly the face-down cells in row-major order |
| Boards.Board.FaceDownAt | app/src/main/java/com/example/chinesedarkchess/Board.java:310 | true iff the cell holds a face-down piece |
| Boards.Board.CaptureValue | app/src/main/java/com/example/chinesedarkchess/Board.java:291-298 | for a move between two occupied cells, the value is the capture score of the attacker on the defender, above -100 |
| Boards.Board.BestOf | app/src/main/java/com/example/chinesedarkchess/Board.java:288-303 | the chosen move is the first best-scoring capture of the list |
| Boards.Board.ChooseAction | app/src/main/java/com/example/chinesedarkchess/Board.java:269-335 | the decision equals the computer player's choice on the current board for the two draws |
| Boards.Board.ChooseCapture | app/src/main/java/com/example/chinesedarkchess/Board.java:287-304 | with captures available, the decision is the computer player's choice: the first best-scoring capture |
| Boards.Board.ChooseQuiet | app/src/main/java/com/example/chinesedarkchess/Board.java:307-335 | without captures, the decision is the computer player's choice: the drawn flip, else the drawn plain move, else nothing |
| Boards.Board.MakeAiMove | app/src/main/java/com/example/chinesedarkchess/Board.java:269-338 | the new state is the computer player's turn on the old state for the two draws |

## Left out

- The Android screens are not part of this model. They are rendering, touch
  handling, dialogs, menus and the delayed scheduling of the computer's turn.
- Logging (`Log` and the `TAG` constant) has no effect on the game and is left out.
- The random number generators are not modelled. Each draw is a parameter, so
  every proved property holds for every possible outcome. The shuffle is any
  permutation of 0..31; each `nextInt(n)` is `pick % n` for an arbitrary `pick`.
- The getters `getCurrentPlayer`, `getAiColor`, `getGameStatus`, `getRank`,
  `getColor` and `isFaceUp` are left out. Each only returns a field, which the
  model reads directly.
- The Java lists of `int[]` become a `Move` datatype for the move lists and a
  row-major cell index for the flip list. The model keeps their order.
- Java `int` overflow is not modelled. Row and column arguments may be any
  `int`, but `getPiece` (Board.java:83) and `isValidMove` (Board.java:188-190)
  bounds-check them before any arithmetic, so every computed value stays small.
