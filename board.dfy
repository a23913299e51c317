/**
  The mutable game board: a 4 x 8 grid of piece references, the colour to move,
  the colours bound to the human and the computer, the first-move flag and the
  outcome. Every operation is proved against its transition on board values in
  modules Game and Ai.
 */
module Boards {
  import opened Options
  import opened Pieces
  import opened Rules
  import opened Game
  import opened Ai

  /** The value of a cell holding `p`, or None for an empty cell (or an untracked piece). */
  ghost function Occupant(p: Piece?, tracked: set<Piece>): Option<PieceState>
    reads if p != null && p in tracked then {p} else {}
  {
    if p != null && p in tracked then Some(p.Value()) else None
  }

  /** The row and column of the cell at row-major index i. */
  lemma RowCol(i: int) returns (r: int, c: int)
    requires 0 <= i < ROWS * COLS
    ensures r == i / COLS && c == i % COLS
    ensures InBoard(r, c) && r * COLS + c == i
  {
    r, c := i / COLS, i % COLS;
  }

  /** The piece of `color` on (r, c), if any, has no legal destination. */
  ghost predicate Blocked(g: Grid, color: Color, r: int, c: int) {
    FaceUpOf(g, r, c, color) ==> forall tr, tc :: InBoard(tr, tc) ==> !ValidMove(g, Some(color), r, c, tr, tc)
  }

  /** Cell (r', c') comes before cell (r, c) in row-major order. */
  predicate Before(r': int, c': int, r: int, c: int) {
    r' < r || (r' == r && c' < c)
  }

  class Board {
    const board: array2<Piece?>
    var currentPlayer: Option<Color>
    var playerColor: Option<Color>
    var aiColor: Option<Color>
    var firstMove: bool
    var gameStatus: Status
    /** Every piece ever placed on the board. */
    ghost var pieces: set<Piece>

    /** The grid has the board's shape and every piece on it is tracked in `pieces`. */
    ghost predicate Owned()
      reads this`pieces, board
    {
      board.Length0 == ROWS && board.Length1 == COLS &&
      forall r, c :: 0 <= r < ROWS && 0 <= c < COLS && board[r, c] != null ==> board[r, c] in pieces
    }

    /** No piece stands on two cells. */
    ghost predicate Distinct()
      reads board
      requires board.Length0 == ROWS && board.Length1 == COLS
    {
      forall r, c, r', c' ::
        (0 <= r < ROWS && 0 <= c < COLS && 0 <= r' < ROWS && 0 <= c' < COLS &&
         board[r, c] != null && board[r, c] == board[r', c']) ==> r == r' && c == c'
    }

    /** The board as a value, row by row. */
    ghost function View(): Grid
      reads this`pieces, board, pieces
      requires Owned()
    {
      var tracked := pieces;
      seq(ROWS * COLS, i requires 0 <= i < ROWS * COLS reads board, tracked =>
        Occupant(board[i / COLS, i % COLS], tracked))
    }

    /** The whole game as a value. */
    ghost function State(): Game.State
      reads this, board, pieces
      requires Owned()
    {
      Game.State(View(), currentPlayer, playerColor, aiColor, firstMove, gameStatus)
    }

    ghost predicate Valid()
      reads this, board, pieces
    {
      Owned() && Distinct() && Consistent(State())
    }

    /**
      A new game: the 32 pieces of the standard set, shuffled by `perm`, face down
      row by row; no colour bound or to move yet; the game under way.
     */
    constructor (perm: seq<int>)
      requires IsShuffle(perm)
      ensures Valid() && fresh(board)
      ensures State() == InitialState(perm)
    {
      board := new Piece?[ROWS, COLS];
      pieces := {};
      currentPlayer := None;
      playerColor := None;
      aiColor := None;
      firstMove := true;
      gameStatus := Ongoing;
      new;
      InitializePieces(perm);
      InitialStateFacts(perm);
      assert State() == Game.State(Deal(perm), None, None, None, true, Ongoing);
    }

    /**
      Creates the pieces of the standard set, shuffles them and deals them row by row.
      The steps are CreatePieces, then ShuffleAndDeal, which calls DealRows.
     */
    method InitializePieces(perm: seq<int>)
      requires IsShuffle(perm) && board.Length0 == ROWS && board.Length1 == COLS
      modifies this`pieces, board
      ensures Owned() && Distinct() && View() == Deal(perm)
    {
      StandardSize();
      StandardFaceDown();
      ShuffleFacts(perm);
      var created := CreatePieces(StandardSet());
      ShuffleAndDeal(created, perm);
      DealIs(perm, View());
    }

    /**
      Deals the pieces of `created` in the order `perm` gives them (the shuffle),
      row by row.
     */
    method ShuffleAndDeal(created: seq<Piece>, perm: seq<int>)
      requires board.Length0 == ROWS && board.Length1 == COLS
      requires |perm| == ROWS * COLS
      requires forall j :: 0 <= j < |perm| ==> 0 <= perm[j] < |created|
      requires forall j, k :: 0 <= j < k < |perm| ==> perm[j] != perm[k]
      requires forall j, k :: 0 <= j < k < |created| ==> created[j] != created[k]
      modifies this`pieces, board
      ensures Owned() && Distinct()
      ensures forall i :: 0 <= i < ROWS * COLS ==> View()[i] == Some(created[perm[i]].Value())
    {
      var shuffled := seq(ROWS * COLS, k requires 0 <= k < ROWS * COLS => created[perm[k]]);
      pieces := set j | 0 <= j < |created| :: created[j];
      forall j, k | 0 <= j < k < ROWS * COLS
        ensures shuffled[j] != shuffled[k]
      {
        assert perm[j] != perm[k];
      }
      DealRows(shuffled);
      forall i | 0 <= i < ROWS * COLS
        ensures View()[i] == Some(shuffled[i].Value())
      {
        var r, c := RowCol(i);
        assert board[r, c] == shuffled[i];
      }
    }

    /** A new face-down piece for each entry of `standard`, in its order. */
    static method CreatePieces(standard: seq<PieceState>) returns (created: seq<Piece>)
      requires forall j :: 0 <= j < |standard| ==> !standard[j].faceUp
      ensures |created| == |standard|
      ensures forall j :: 0 <= j < |created| ==> created[j].Value() == standard[j]
      ensures forall j, k :: 0 <= j < k < |created| ==> created[j] != created[k]
      ensures forall j :: 0 <= j < |created| ==> fresh(created[j])
    {
      created := [];
      while |created| < |standard|
        invariant |created| <= |standard|
        invariant forall j :: 0 <= j < |created| ==> created[j].Value() == standard[j]
        invariant forall j, k :: 0 <= j < k < |created| ==> created[j] != created[k]
        invariant forall j :: 0 <= j < |created| ==> fresh(created[j])
      {
        var p := new Piece(standard[|created|].rank, standard[|created|].color);
        created := created + [p];
      }
    }

    /** Puts the k-th piece of `shuffled` on row k / 8, column k % 8. */
    method DealRows(shuffled: seq<Piece>)
      requires |shuffled| == ROWS * COLS && board.Length0 == ROWS && board.Length1 == COLS
      requires forall j, k :: 0 <= j < k < |shuffled| ==> shuffled[j] != shuffled[k]
      modifies board
      ensures forall r, c :: 0 <= r < ROWS && 0 <= c < COLS ==> board[r, c] == shuffled[r * COLS + c]
      ensures Distinct()
    {
      var index := 0;
      for row := 0 to ROWS
        invariant index == row * COLS
        invariant forall r, c :: 0 <= r < row && 0 <= c < COLS ==> board[r, c] == shuffled[r * COLS + c]
      {
        for col := 0 to COLS
          invariant index == row * COLS + col
          invariant forall r, c :: 0 <= r < row && 0 <= c < COLS ==> board[r, c] == shuffled[r * COLS + c]
          invariant forall c :: 0 <= c < col ==> board[row, c] == shuffled[row * COLS + c]
        {
          board[row, col] := shuffled[index];
          index := index + 1;
        }
      }
      forall r, c, r', c' |
        0 <= r < ROWS && 0 <= c < COLS && 0 <= r' < ROWS && 0 <= c' < COLS &&
        board[r, c] != null && board[r, c] == board[r', c']
        ensures r == r' && c == c'
      {
        var j, k := r * COLS + c, r' * COLS + c';
        assert shuffled[j] == shuffled[k];
        assert j == k;
      }
    }

    /** The piece on (row, col): null for an empty cell and for any cell off the board. */
    method GetPiece(row: int, col: int) returns (p: Piece?)
      requires Owned()
      ensures InBoard(row, col) ==> p == board[row, col]
      ensures !InBoard(row, col) ==> p == null
      ensures p != null ==> p in pieces
      ensures p == null ==> At(View(), row, col).None?
      ensures p != null ==> At(View(), row, col) == Some(p.Value())
    {
      if row < 0 || row >= ROWS || col < 0 || col >= COLS {
        return null;
      }
      p := board[row, col];
    }

    /**
      The number of pieces strictly between two different cells of one column
      (when the rows differ) or of one row, walking from the source to the target.
     */
    method CountJumped(fromRow: int, fromCol: int, toRow: int, toCol: int) returns (piecesJumped: nat)
      requires Owned()
      requires (fromRow == toRow || fromCol == toCol) && (fromRow, fromCol) != (toRow, toCol)
      ensures piecesJumped == Jumped(View(), fromRow, fromCol, toRow, toCol)
    {
      if toRow - fromRow != 0 {
        piecesJumped := CountAlong(true, fromCol, fromRow, toRow);
      } else {
        piecesJumped := CountAlong(false, fromRow, fromCol, toCol);
      }
    }

    /**
      The walk of CountJumped: along column `fixed` (vertical) or row `fixed`,
      stepping from position `from` towards `to` and counting the occupied cells
      passed.
     */
    method CountAlong(vertical: bool, fixed: int, from: int, to: int) returns (piecesJumped: nat)
      requires Owned() && from != to
      ensures piecesJumped == Occupied(View(), vertical, fixed, Min(from, to) + 1, Max(from, to))
    {
      ghost var g := View();
      var step := if to - from > 0 then 1 else -1;
      piecesJumped := 0;
      var k := from + step;
      while k != to
        invariant step > 0 ==> from < k <= to && piecesJumped == Occupied(g, vertical, fixed, from + 1, k)
        invariant step < 0 ==> to <= k < from && piecesJumped == Occupied(g, vertical, fixed, k + 1, from)
        decreases if step > 0 then to - k else k - to
      {
        var p := PieceOnLine(vertical, fixed, k);
        if step < 0 {
          OccupiedFront(g, vertical, fixed, k, from);
        }
        if p != null {
          piecesJumped := piecesJumped + 1;
        }
        k := k + step;
      }
    }

    /** The piece at position k of a line: column `fixed` if vertical, else row `fixed`. */
    method PieceOnLine(vertical: bool, fixed: int, k: int) returns (p: Piece?)
      requires Owned()
      ensures (p != null) == OnLine(View(), vertical, fixed, k).Some?
    {
      if vertical {
        p := GetPiece(k, fixed);
      } else {
        p := GetPiece(fixed, k);
      }
    }

    /**
      Whether the player to move may move the piece on (fromRow, fromCol) to (toRow, toCol).
      The test runs IsValidMove, then ReachesFrom, then ToEmpty or ToOccupied; the
      Cannon's count is CountJumped through CountAlong.
     */
    method IsValidMove(fromRow: int, fromCol: int, toRow: int, toCol: int) returns (ok: bool)
      requires Owned()
      ensures ok == ValidMove(View(), currentPlayer, fromRow, fromCol, toRow, toCol)
    {
      ghost var g := View();
      if toRow < 0 || toRow >= ROWS || toCol < 0 || toCol >= COLS {
        return false;
      }
      var movingPiece := GetPiece(fromRow, fromCol);
      if movingPiece == null || !movingPiece.faceUp || Some(movingPiece.color) != currentPlayer {
        return false;
      }
      ok := ReachesFrom(fromRow, fromCol, toRow, toCol, movingPiece);
    }

    /** The rest of the legality test once the moving piece is a face-up piece of the player to move. */
    method ReachesFrom(fromRow: int, fromCol: int, toRow: int, toCol: int, movingPiece: Piece) returns (ok: bool)
      requires Owned() && InBoard(toRow, toCol)
      requires movingPiece.faceUp && Some(movingPiece.color) == currentPlayer
      requires At(View(), fromRow, fromCol) == Some(movingPiece.Value())
      ensures ok == ValidMove(View(), currentPlayer, fromRow, fromCol, toRow, toCol)
    {
      var targetPiece := GetPiece(toRow, toCol);
      if targetPiece == null {
        ok := ToEmpty(fromRow, fromCol, toRow, toCol, movingPiece);
      } else {
        ok := ToOccupied(fromRow, fromCol, toRow, toCol, movingPiece, targetPiece);
      }
    }

    /** A move to an empty cell: a Cannon slides along a clear line, any other piece steps once. */
    method ToEmpty(fromRow: int, fromCol: int, toRow: int, toCol: int, movingPiece: Piece) returns (ok: bool)
      requires Owned() && InBoard(toRow, toCol) && At(View(), toRow, toCol).None?
      requires movingPiece.faceUp && Some(movingPiece.color) == currentPlayer
      requires At(View(), fromRow, fromCol) == Some(movingPiece.Value())
      ensures ok == ValidMove(View(), currentPlayer, fromRow, fromCol, toRow, toCol)
    {
      if movingPiece.rank == Cannon {
        var rowDiff, colDiff := toRow - fromRow, toCol - fromCol;
        if rowDiff != 0 && colDiff != 0 {
          return false;
        }
        var piecesJumped := CountJumped(fromRow, fromCol, toRow, toCol);
        return piecesJumped == 0;
      } else {
        return Abs(fromRow - toRow) + Abs(fromCol - toCol) == 1;
      }
    }

    /**
      A move onto a piece: only a face-up enemy can be taken, by a Cannon over
      exactly one screen or by one step subject to rank dominance.
     */
    method ToOccupied(fromRow: int, fromCol: int, toRow: int, toCol: int, movingPiece: Piece, targetPiece: Piece)
      returns (ok: bool)
      requires Owned() && InBoard(toRow, toCol) && At(View(), toRow, toCol) == Some(targetPiece.Value())
      requires movingPiece.faceUp && Some(movingPiece.color) == currentPlayer
      requires At(View(), fromRow, fromCol) == Some(movingPiece.Value())
      ensures ok == ValidMove(View(), currentPlayer, fromRow, fromCol, toRow, toCol)
    {
      if targetPiece.color == movingPiece.color || !targetPiece.faceUp {
        return false;
      }
      if movingPiece.rank == Cannon {
        var rowDiff, colDiff := toRow - fromRow, toCol - fromCol;
        if rowDiff != 0 && colDiff != 0 {
          return false;
        }
        var piecesJumped := CountJumped(fromRow, fromCol, toRow, toCol);
        return piecesJumped == 1;
      } else {
        var isAdjacent := Abs(fromRow - toRow) + Abs(fromCol - toCol) == 1;
        if !isAdjacent {
          return false;
        }
        return CanCapture(movingPiece.rank, targetPiece.rank);
      }
    }

    /** Passes the turn: RED after BLACK or before any colour is bound, BLACK after RED. */
    method SwitchPlayer()
      modifies this`currentPlayer
      ensures currentPlayer == Some(Switch(old(currentPlayer)))
    {
      currentPlayer := if currentPlayer == Some(Red) then Some(Black) else Some(Red);
    }

    /**
      Whether `color` is stuck. A face-down piece anywhere means it is not; then a
      colour with no piece left is; otherwise it is stuck when none of its face-up
      pieces has a legal destination with `color` to move. The player to move is
      overwritten for each test and put back.
      The scan runs FindFaceDown and FindPieceOf, then AllBlocked, RowBlocked,
      HasTarget, TargetInRow and ValidFor.
     */
    method HasNoMoves(color: Color) returns (none: bool)
      requires Owned()
      modifies this`currentPlayer
      ensures currentPlayer == old(currentPlayer)
      ensures none == NoMoves(View(), color)
    {
      ghost var g := View();
      var faceDown := FindFaceDown();
      if faceDown {
        return false;
      }
      var hasPieces := FindPieceOf(color);
      if !hasPieces {
        return true;
      }
      var blocked := AllBlocked(color, g);
      if !blocked {
        ghost var r, c :| InBoard(r, c) && !Blocked(g, color, r, c);
        ghost var tr, tc :| InBoard(tr, tc) && ValidMove(g, Some(color), r, c, tr, tc);
        return false;
      }
      return true;
    }

    /** The third scan of HasNoMoves: whether no face-up piece of `color` has a legal destination. */
    method AllBlocked(color: Color, ghost g: Grid) returns (blocked: bool)
      requires Owned() && g == View()
      modifies this`currentPlayer
      ensures currentPlayer == old(currentPlayer)
      ensures blocked <==> forall r, c :: InBoard(r, c) ==> Blocked(g, color, r, c)
    {
      for r := 0 to ROWS
        invariant currentPlayer == old(currentPlayer) && View() == g
        invariant forall r', c' :: 0 <= r' < r && 0 <= c' < COLS ==> Blocked(g, color, r', c')
      {
        blocked := RowBlocked(r, color, g);
        if !blocked {
          return false;
        }
      }
      return true;
    }

    /** One row of the third scan of HasNoMoves. */
    method RowBlocked(r: int, color: Color, ghost g: Grid) returns (blocked: bool)
      requires Owned() && g == View() && 0 <= r < ROWS
      modifies this`currentPlayer
      ensures currentPlayer == old(currentPlayer)
      ensures blocked <==> forall c :: 0 <= c < COLS ==> Blocked(g, color, r, c)
    {
      for c := 0 to COLS
        invariant currentPlayer == old(currentPlayer) && View() == g
        invariant forall c' :: 0 <= c' < c ==> Blocked(g, color, r, c')
      {
        var p := GetPiece(r, c);
        if p != null && p.faceUp && p.color == color {
          var canMove := HasTarget(r, c, color);
          if canMove {
            assert View() == g && FaceUpOf(g, r, c, color);
            assert !Blocked(g, color, r, c);
            return false;
          }
        } else {
          assert !FaceUpOf(g, r, c, color);
        }
      }
      return true;
    }

    /** The first scan of HasNoMoves: whether any piece on the board is face down. */
    method FindFaceDown() returns (found: bool)
      requires Owned()
      ensures found == AnyFaceDown(View())
    {
      for r := 0 to ROWS
        invariant forall r', c' :: 0 <= r' < r && 0 <= c' < COLS ==> !FaceDown(At(View(), r', c'))
      {
        for c := 0 to COLS
          invariant forall r', c' :: InBoard(r', c') && Before(r', c', r, c) ==>
            !FaceDown(At(View(), r', c'))
        {
          var p := GetPiece(r, c);
          if p != null && !p.faceUp {
            assert FaceDown(View()[r * COLS + c]);
            return true;
          }
        }
      }
      forall i | 0 <= i < ROWS * COLS
        ensures !FaceDown(View()[i])
      {
        var r, c := RowCol(i);
        assert At(View(), r, c) == View()[i];
      }
      return false;
    }

    /** The second scan of HasNoMoves: whether `color` has any piece left on the board. */
    method FindPieceOf(color: Color) returns (hasPieces: bool)
      requires Owned()
      ensures hasPieces == HasPieces(View(), color)
    {
      hasPieces := false;
      for r := 0 to ROWS
        invariant !hasPieces
        invariant forall r', c' :: 0 <= r' < r && 0 <= c' < COLS ==>
          !(At(View(), r', c').Some? && At(View(), r', c').value.color == color)
      {
        for c := 0 to COLS
          invariant !hasPieces
          invariant forall r', c' :: InBoard(r', c') && Before(r', c', r, c) ==>
            !(At(View(), r', c').Some? && At(View(), r', c').value.color == color)
        {
          var p := GetPiece(r, c);
          if p != null && p.color == color {
            assert View()[r * COLS + c].Some? && View()[r * COLS + c].value.color == color;
            hasPieces := true;
            break;
          }
        }
        if hasPieces {
          break;
        }
      }
      if !hasPieces {
        forall i | 0 <= i < ROWS * COLS
          ensures !(View()[i].Some? && View()[i].value.color == color)
        {
          var r, c := RowCol(i);
          assert At(View(), r, c) == View()[i];
        }
      }
    }

    /**
      The inner scan of HasNoMoves: whether the piece on (r, c) has a legal
      destination with `color` to move.
     */
    method HasTarget(r: int, c: int, color: Color) returns (canMove: bool)
      requires Owned()
      modifies this`currentPlayer
      ensures currentPlayer == old(currentPlayer)
      ensures !canMove <==> forall tr, tc :: InBoard(tr, tc) ==> !ValidMove(View(), Some(color), r, c, tr, tc)
    {
      ghost var g := View();
      for tr := 0 to ROWS
        invariant currentPlayer == old(currentPlayer) && View() == g
        invariant forall tr', tc' :: 0 <= tr' < tr && 0 <= tc' < COLS ==> !ValidMove(g, Some(color), r, c, tr', tc')
      {
        canMove := TargetInRow(r, c, tr, color, g);
        if canMove {
          return true;
        }
      }
      canMove := false;
    }

    /** One target row of the inner scan of HasNoMoves. */
    method TargetInRow(r: int, c: int, tr: int, color: Color, ghost g: Grid) returns (canMove: bool)
      requires Owned() && g == View() && 0 <= tr < ROWS
      modifies this`currentPlayer
      ensures currentPlayer == old(currentPlayer)
      ensures !canMove <==> forall tc :: 0 <= tc < COLS ==> !ValidMove(g, Some(color), r, c, tr, tc)
    {
      for tc := 0 to COLS
        invariant currentPlayer == old(currentPlayer)
        invariant forall tc' :: 0 <= tc' < tc ==> !ValidMove(g, Some(color), r, c, tr, tc')
      {
        canMove := ValidFor(r, c, tr, tc, color, g);
        if canMove {
          return true;
        }
      }
      canMove := false;
    }

    /** The legality test with `color` put to move for its duration and the player to move restored. */
    method ValidFor(r: int, c: int, tr: int, tc: int, color: Color, ghost g: Grid) returns (ok: bool)
      requires Owned() && g == View()
      modifies this`currentPlayer
      ensures currentPlayer == old(currentPlayer) && Owned() && View() == g
      ensures ok == ValidMove(g, Some(color), r, c, tr, tc)
    {
      var originalPlayer := currentPlayer;
      currentPlayer := Some(color);
      ok := IsValidMove(r, c, tr, tc);
      currentPlayer := originalPlayer;
    }

    /**
      The outcome check after a flip or a move: RED is tested first and loses when
      stuck; otherwise BLACK loses when stuck; otherwise the outcome stays.
     */
    method CheckWinCondition()
      requires Owned()
      modifies this`currentPlayer, this`gameStatus
      ensures currentPlayer == old(currentPlayer)
      ensures gameStatus == CheckWin(View(), old(gameStatus))
    {
      var redStuck := HasNoMoves(Red);
      if redStuck {
        gameStatus := BlackWin;
      } else {
        var blackStuck := HasNoMoves(Black);
        if blackStuck {
          gameStatus := RedWin;
        }
      }
    }

    /** Turns the piece on (row, col) face up; no other cell changes. */
    method TurnUp(row: int, col: int, piece: Piece)
      requires Owned() && Distinct() && InBoard(row, col) && board[row, col] == piece
      modifies piece
      ensures View() == old(View())[row * COLS + col := Some(old(piece.Value()).(faceUp := true))]
    {
      ghost var before := View();
      ghost var up := Some(piece.Value().(faceUp := true));
      piece.Flip();
      forall i | 0 <= i < ROWS * COLS
        ensures View()[i] == before[row * COLS + col := up][i]
      {
        var r, c := RowCol(i);
        if board[r, c] == piece {
          assert r == row && c == col;
        }
      }
    }

    /**
      Flips the piece on (row, col) when it is face down; anything else is ignored.
      The first flip of the game gives its colour to the player who made it and the
      other colour to the computer. The turn passes and the outcome is checked.
      The change is Uncover (TurnUp, the colour binding, SwitchPlayer, CheckWinCondition).
     */
    method FlipPiece(row: int, col: int)
      requires Valid()
      modifies this, pieces
      ensures Valid()
      ensures State() == FlipSpec(old(State()), row, col)
    {
      ghost var s := State();
      TransitionsKeepConsistent(s, row, col, 0, 0);
      FlipEffect(s, row, col);
      var piece := GetPiece(row, col);
      if piece != null && !piece.faceUp {
        Uncover(row, col, piece);
      }
    }

    /**
      The effect of flipping a face-down piece: it turns face up, the first flip
      binds the colours, the turn passes and the outcome is checked.
     */
    method Uncover(row: int, col: int, piece: Piece)
      requires Owned() && Distinct() && InBoard(row, col) && board[row, col] == piece && !piece.faceUp
      modifies piece, this`currentPlayer, this`playerColor, this`aiColor, this`firstMove, this`gameStatus
      ensures Owned() && Distinct() && !firstMove
      ensures View() == old(View())[row * COLS + col := Some(old(piece.Value()).(faceUp := true))]
      ensures old(firstMove) ==>
        playerColor == Some(piece.color) && aiColor == Some(Opponent(piece.color)) &&
        currentPlayer == Some(Switch(Some(piece.color)))
      ensures !old(firstMove) ==>
        playerColor == old(playerColor) && aiColor == old(aiColor) &&
        currentPlayer == Some(Switch(old(currentPlayer)))
      ensures gameStatus == CheckWin(View(), old(gameStatus))
    {
      TurnUp(row, col, piece);
      if firstMove {
        currentPlayer := Some(piece.color);
        playerColor := currentPlayer;
        aiColor := if playerColor == Some(Red) then Some(Black) else Some(Red);
        firstMove := false;
      }
      SwitchPlayer();
      CheckWinCondition();
    }

    /**
      Moves the piece on (fromRow, fromCol) to (toRow, toCol) when that is a valid
      move for the player to move, capturing whatever stood there; then the turn
      passes and the outcome is checked. An invalid move changes nothing.
      The legality test is IsValidMove; the change is Commit (Relocate, SwitchPlayer,
      CheckWinCondition).
     */
    method MovePiece(fromRow: int, fromCol: int, toRow: int, toCol: int) returns (moved: bool)
      requires Valid()
      modifies this, board
      ensures Valid()
      ensures (State(), moved) == MoveSpec(old(State()), fromRow, fromCol, toRow, toCol)
    {
      ghost var s := State();
      TransitionsKeepConsistent(s, fromRow, fromCol, toRow, toCol);
      MoveEffect(s, fromRow, fromCol, toRow, toCol);
      var valid := IsValidMove(fromRow, fromCol, toRow, toCol);
      if !valid {
        return false;
      }
      Commit(fromRow, fromCol, toRow, toCol);
      return true;
    }

    /** The effect of an accepted move: the piece moves, the turn passes and the outcome is checked. */
    method Commit(fromRow: int, fromCol: int, toRow: int, toCol: int)
      requires Owned() && Distinct() && ValidMove(View(), currentPlayer, fromRow, fromCol, toRow, toCol)
      modifies this`currentPlayer, this`gameStatus, board
      ensures Owned() && Distinct()
      ensures InBoard(fromRow, fromCol) && InBoard(toRow, toCol)
      ensures View() == Moved(old(View()), fromRow * COLS + fromCol, toRow * COLS + toCol)
      ensures currentPlayer == Some(Switch(old(currentPlayer)))
      ensures gameStatus == CheckWin(View(), old(gameStatus))
    {
      ValidMoveShape(View(), currentPlayer, fromRow, fromCol, toRow, toCol);
      Relocate(fromRow, fromCol, toRow, toCol);
      SwitchPlayer();
      CheckWinCondition();
    }

    /** The board update of a move: the source piece lands on the target and the source empties. */
    method Relocate(fromRow: int, fromCol: int, toRow: int, toCol: int)
      requires Owned() && Distinct()
      requires InBoard(fromRow, fromCol) && InBoard(toRow, toCol) && (fromRow, fromCol) != (toRow, toCol)
      modifies board
      ensures Owned() && Distinct()
      ensures View() == Moved(old(View()), fromRow * COLS + fromCol, toRow * COLS + toCol)
    {
      ghost var before := View();
      ghost var from, to := fromRow * COLS + fromCol, toRow * COLS + toCol;
      board[toRow, toCol] := board[fromRow, fromCol];
      board[fromRow, fromCol] := null;
      forall r, c | 0 <= r < ROWS && 0 <= c < COLS
        ensures board[r, c] == (if (r, c) == (fromRow, fromCol) then null
                                else if (r, c) == (toRow, toCol) then old(board[fromRow, fromCol])
                                else old(board[r, c]))
      {
      }
      forall i | 0 <= i < ROWS * COLS
        ensures View()[i] == Moved(before, from, to)[i]
      {
        var r, c := RowCol(i);
      }
      forall r, c, r', c' |
        0 <= r < ROWS && 0 <= c < COLS && 0 <= r' < ROWS && 0 <= c' < COLS &&
        board[r, c] != null && board[r, c] == board[r', c']
        ensures r == r' && c == c'
      {
        var (r0, c0) := if (r, c) == (toRow, toCol) then (fromRow, fromCol) else (r, c);
        var (r1, c1) := if (r', c') == (toRow, toCol) then (fromRow, fromCol) else (r', c');
        assert old(board[r0, c0]) == old(board[r1, c1]);
      }
    }

    /**
      The computer's opening flip, while the first flip is still to come: the cell
      the draw `pick` selects from the list of all cells in row-major order is
      turned face up, the computer takes that colour, the human the other, and the
      turn passes to the human. No outcome check follows.
      The list comes from AllCells; the binding step is BindToAi.
     */
    method ForceAiFirstMove(pick: nat)
      requires Valid()
      modifies this, pieces
      ensures Valid()
      ensures State() == ForceFirst(old(State()), pick % (ROWS * COLS))
    {
      ghost var s := State();
      ForceFirstBindsColors(s, pick % (ROWS * COLS));
      if firstMove {
        var possibleFlips := AllCells();
        var flip := possibleFlips[pick % |possibleFlips|];
        var flippedPiece := GetPiece(flip.0, flip.1);
        assert At(View(), flip.0, flip.1) == s.grid[pick % (ROWS * COLS)];
        BindToAi(flip.0, flip.1, flippedPiece);
      }
    }

    /** Every cell of the board, row by row: entry k is row k / 8, column k % 8. */
    static method AllCells() returns (cells: seq<(int, int)>)
      ensures |cells| == ROWS * COLS
      ensures forall k :: 0 <= k < |cells| ==> InBoard(cells[k].0, cells[k].1) && cells[k].0 * COLS + cells[k].1 == k
    {
      cells := [];
      for r := 0 to ROWS
        invariant |cells| == r * COLS
        invariant forall k :: 0 <= k < |cells| ==> InBoard(cells[k].0, cells[k].1) && cells[k].0 * COLS + cells[k].1 == k
      {
        for c := 0 to COLS
          invariant |cells| == r * COLS + c
          invariant forall k :: 0 <= k < |cells| ==> InBoard(cells[k].0, cells[k].1) && cells[k].0 * COLS + cells[k].1 == k
        {
          cells := cells + [(r, c)];
        }
      }
    }

    /**
      The forced first flip on (row, col): the piece turns face up, the computer
      takes its colour, the human the other, and the human is to move.
     */
    method BindToAi(row: int, col: int, piece: Piece)
      requires Owned() && Distinct() && InBoard(row, col) && board[row, col] == piece
      modifies piece, this`currentPlayer, this`playerColor, this`aiColor, this`firstMove
      ensures Owned() && Distinct() && !firstMove
      ensures View() == old(View())[row * COLS + col := Some(old(piece.Value()).(faceUp := true))]
      ensures aiColor == Some(piece.color) && playerColor == Some(Opponent(piece.color))
      ensures currentPlayer == Some(Switch(Some(piece.color)))
    {
      TurnUp(row, col, piece);
      currentPlayer := Some(piece.color);
      aiColor := currentPlayer;
      playerColor := if aiColor == Some(Red) then Some(Black) else Some(Red);
      firstMove := false;
      SwitchPlayer();
    }

    /**
      The scan of the computer player for moves of one kind: captures (`capture`)
      or moves to an empty cell. Sources run in row-major order over the face-up
      pieces of the player to move, targets in row-major order.
      The loops are CollectMoves, CollectRow, CollectFrom, CollectTargets,
      CollectRowTargets and IsTarget.
     */
    method CollectMoves(capture: bool) returns (moves: seq<Move>)
      requires Owned()
      ensures moves == Candidates(View(), currentPlayer, capture)
    {
      ghost var g := View();
      CollectsNothing(g, currentPlayer, capture);
      moves := [];
      for r := 0 to ROWS
        invariant Collects(g, currentPlayer, capture, r * COLS * (ROWS * COLS), moves)
      {
        moves := CollectRow(r, capture, moves, g);
      }
      CollectsScan(g, currentPlayer, capture, SLOTS, moves);
    }

    /** One source row of CollectMoves: the moves from the cells of row r, appended to `found`. */
    method CollectRow(r: int, capture: bool, found: seq<Move>, ghost g: Grid) returns (moves: seq<Move>)
      requires Owned() && g == View() && 0 <= r < ROWS
      requires Collects(g, currentPlayer, capture, r * COLS * (ROWS * COLS), found)
      ensures Collects(g, currentPlayer, capture, (r + 1) * COLS * (ROWS * COLS), moves)
    {
      ghost var n := r * COLS * (ROWS * COLS);
      moves := found;
      for c := 0 to COLS
        invariant n == (r * COLS + c) * (ROWS * COLS)
        invariant Collects(g, currentPlayer, capture, n, moves)
      {
        assert n == SourceBase(r, c);
        moves := CollectFrom(r, c, capture, moves, g);
        n := n + ROWS * COLS;
      }
    }

    /**
      One source cell of CollectMoves: when (r, c) holds a face-up piece of the
      player to move, its targets are appended to `found`.
     */
    method CollectFrom(r: int, c: int, capture: bool, found: seq<Move>, ghost g: Grid) returns (moves: seq<Move>)
      requires Owned() && g == View() && InBoard(r, c)
      requires Collects(g, currentPlayer, capture, SourceBase(r, c), found)
      ensures Collects(g, currentPlayer, capture, SourceBase(r, c) + ROWS * COLS, moves)
    {
      var p := GetPiece(r, c);
      if p != null && p.faceUp && Some(p.color) == currentPlayer {
        moves := CollectTargets(r, c, capture, found, g);
      } else {
        CollectsSkip(g, currentPlayer, capture, r, c, found);
        moves := found;
      }
    }

    /** The inner scan of CollectMoves: the targets of the piece on (r, c), appended to `found`. */
    method CollectTargets(r: int, c: int, capture: bool, found: seq<Move>, ghost g: Grid) returns (moves: seq<Move>)
      requires Owned() && g == View() && InBoard(r, c)
      requires Collects(g, currentPlayer, capture, SourceBase(r, c), found)
      ensures Collects(g, currentPlayer, capture, SourceBase(r, c) + ROWS * COLS, moves)
    {
      ghost var n := SourceBase(r, c);
      moves := found;
      for tr := 0 to ROWS
        invariant n == SourceBase(r, c) + tr * COLS
        invariant Collects(g, currentPlayer, capture, n, moves)
      {
        RowPositions(r, c, tr);
        moves := CollectRowTargets(r, c, tr, capture, moves, g);
        n := n + COLS;
      }
    }

    /** One target row of the inner scan: the targets of (r, c) in row tr, appended to `found`. */
    method CollectRowTargets(r: int, c: int, tr: int, capture: bool, found: seq<Move>, ghost g: Grid)
      returns (moves: seq<Move>)
      requires Owned() && g == View() && InBoard(r, c) && 0 <= tr < ROWS
      requires Collects(g, currentPlayer, capture, SourceBase(r, c) + tr * COLS, found)
      ensures Collects(g, currentPlayer, capture, SourceBase(r, c) + tr * COLS + COLS, moves)
    {
      RowPositions(r, c, tr);
      moves := found;
      for tc := 0 to COLS
        invariant Collects(g, currentPlayer, capture, SourceBase(r, c) + tr * COLS + tc, moves)
      {
        var take := IsTarget(r, c, tr, tc, capture);
        CollectsStep(g, currentPlayer, capture, Move(r, c, tr, tc), moves, take);
        if take {
          moves := moves + [Move(r, c, tr, tc)];
        }
      }
    }

    /**
      The test of the inner scan: (tr, tc) is occupied for a capture and empty for
      a plain move, and the move there is valid.
     */
    method IsTarget(r: int, c: int, tr: int, tc: int, capture: bool) returns (take: bool)
      requires Owned()
      ensures take == IsCandidate(View(), currentPlayer, capture, Move(r, c, tr, tc))
    {
      var target := GetPiece(tr, tc);
      if (target != null) == capture {
        take := IsValidMove(r, c, tr, tc);
      } else {
        take := false;
      }
    }

    /** The row-major indices of the cells holding a face-down piece, in order. */
    method CollectFlips() returns (flips: seq<nat>)
      requires Owned()
      ensures flips == FaceDownCells(View(), ROWS * COLS)
    {
      ghost var g := View();
      flips := [];
      for r := 0 to ROWS
        invariant flips == FaceDownCells(g, r * COLS)
      {
        for c := 0 to COLS
          invariant flips == FaceDownCells(g, r * COLS + c)
        {
          var k := r * COLS + c;
          assert FaceDownCells(g, k + 1) == FaceDownCells(g, k) + (if FaceDown(g[k]) then [k] else []);
          var down := FaceDownAt(r, c);
          if down {
            flips := flips + [k];
          }
        }
      }
    }

    /** Whether (row, col) holds a face-down piece. */
    method FaceDownAt(row: int, col: int) returns (down: bool)
      requires Owned() && InBoard(row, col)
      ensures down == FaceDown(View()[row * COLS + col])
    {
      var p := GetPiece(row, col);
      down := p != null && !p.faceUp;
    }

    /**
      The choice among the captures: each is scored (100 for a Soldier taking a
      General, else the defender's value less the attacker's), and the first one
      that beats every earlier score, starting from -100, is kept.
     */
    method BestOf(captures: seq<Move>) returns (bestMove: Move)
      requires Owned() && |captures| > 0
      requires forall i :: 0 <= i < |captures| ==> BothOccupied(View(), captures[i])
      ensures bestMove == captures[FirstMax(Scores(View(), captures))]
    {
      ghost var g := View();
      ghost var xs := Scores(g, captures);
      ghost var best := 0;
      var bestValue := -100;
      bestMove := captures[0];  // replaced in the first round: every score exceeds -100
      for i := 0 to |captures|
        invariant best < |captures| && bestMove == captures[best]
        invariant BestSoFar(xs, i, best, bestValue)
      {
        var move := captures[i];
        var value := CaptureValue(move, g);
        assert value == xs[i];
        BestSoFarStep(xs, i, best, bestValue);
        if value > bestValue {
          bestValue := value;
          bestMove := move;
          best := i;
        }
      }
      FirstMaxUnique(xs, best);
    }

    /**
      The score of one capture: 100 for a Soldier taking a General, otherwise the
      defender's value less the attacker's.
     */
    method CaptureValue(move: Move, ghost g: Grid) returns (value: int)
      requires Owned() && g == View() && BothOccupied(g, move)
      ensures value == Score(g, move) && value > -100
    {
      var attacker := GetPiece(move.fr, move.fc);
      var defender := GetPiece(move.tr, move.tc);
      if attacker.rank == Soldier && defender.rank == General {
        value := 100;
      } else {
        value := PieceValue(defender.rank) - PieceValue(attacker.rank);
      }
    }

    /**
      The computer player's decision for whoever is to move: nothing before any
      colour is to move; otherwise the best capture if there is one; else a flip of
      the face-down cell that `flipPick` draws; else the plain move that `movePick`
      draws; else nothing.
      The two branches are ChooseCapture and ChooseQuiet.
     */
    method ChooseAction(flipPick: nat, movePick: nat) returns (a: Action)
      requires Owned()
      ensures a == AiChoice(View(), currentPlayer, flipPick, movePick)
    {
      if currentPlayer == None {
        return Idle;
      }
      var possibleCaptures := CollectMoves(true);
      if |possibleCaptures| > 0 {
        a := ChooseCapture(possibleCaptures, flipPick, movePick);
      } else {
        a := ChooseQuiet(flipPick, movePick);
      }
    }

    /** With captures available: the first best-scoring one among them. */
    method ChooseCapture(possibleCaptures: seq<Move>, flipPick: nat, movePick: nat) returns (a: Action)
      requires Owned() && currentPlayer.Some?
      requires possibleCaptures == Candidates(View(), currentPlayer, true) && |possibleCaptures| > 0
      ensures a == AiChoice(View(), currentPlayer, flipPick, movePick)
    {
      AiChoiceCapture(View(), currentPlayer, flipPick, movePick);
      CapturesOccupied(View(), currentPlayer);
      var bestMove := BestOf(possibleCaptures);
      a := Capture(bestMove);
    }

    /** Without a capture: a flip of the drawn face-down cell, else the drawn plain move, else nothing. */
    method ChooseQuiet(flipPick: nat, movePick: nat) returns (a: Action)
      requires Owned() && currentPlayer.Some? && |Candidates(View(), currentPlayer, true)| == 0
      ensures a == AiChoice(View(), currentPlayer, flipPick, movePick)
    {
      var possibleFlips := CollectFlips();
      if |possibleFlips| > 0 {
        return Flip(possibleFlips[flipPick % |possibleFlips|]);
      }
      var possibleMoves := CollectMoves(false);
      if |possibleMoves| > 0 {
        return Plain(possibleMoves[movePick % |possibleMoves|]);
      }
      return Idle;
    }

    /**
      One turn of the computer player: the chosen action, carried out through the move and flip rules.
      The choice is ChooseAction, then ChooseCapture (CollectMoves, BestOf) or
      ChooseQuiet (CollectFlips, CollectMoves); it is carried out by MovePiece or FlipPiece.
     */
    method MakeAiMove(flipPick: nat, movePick: nat)
      requires Valid()
      modifies this, board, pieces
      ensures Valid()
      ensures State() == AiStep(old(State()), flipPick, movePick)
    {
      var action := ChooseAction(flipPick, movePick);
      match action
      case Capture(m) =>
        var moved := MovePiece(m.fr, m.fc, m.tr, m.tc);
      case Plain(m) =>
        var moved := MovePiece(m.fr, m.fc, m.tr, m.tc);
      case Flip(k) =>
        FlipPiece(k / COLS, k % COLS);
      case Idle =>
    }
  }
}
