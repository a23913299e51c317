/**
  The computer player's choice of action, on board values: take the best
  capture if there is one, else flip a face-down piece, else make a plain move.
  The random draws of the program are the parameters `flipPick` and
  `movePick`: drawing uniformly from a list of n entries is taking entry
  `pick % n` for some pick.
 */
module Ai {
  import opened Options
  import opened Pieces
  import opened Rules
  import opened Game

  /** A move as the computer player records it: source row and column, target row and column. */
  datatype Move = Move(fr: int, fc: int, tr: int, tc: int)

  /** The number of (source, target) pairs the computer player scans. */
  const SLOTS := ROWS * COLS * ROWS * COLS

  /**
    The position of a move in the scan order: source row, then source column,
    then target row, then target column.
   */
  function Slot(m: Move): int {
    (m.fr * COLS + m.fc) * (ROWS * COLS) + m.tr * COLS + m.tc
  }

  /** The move scanned at position p. */
  function MoveAt(p: nat): (m: Move)
    requires p < SLOTS
    ensures InBoard(m.fr, m.fc) && InBoard(m.tr, m.tc) && Slot(m) == p
  {
    var from, to := p / (ROWS * COLS), p % (ROWS * COLS);
    Move(from / COLS, from % COLS, to / COLS, to % COLS)
  }

  /** Every move between two cells of the board has exactly one scan position. */
  lemma SlotRoundTrip(m: Move)
    requires InBoard(m.fr, m.fc) && InBoard(m.tr, m.tc)
    ensures 0 <= Slot(m) < SLOTS && MoveAt(Slot(m)) == m
  {
    var from, to := m.fr * COLS + m.fc, m.tr * COLS + m.tc;
    DivModCols(m.fr, m.fc);
    DivModCols(m.tr, m.tc);
    DivModCells(from, to);
  }

  /** Dividing q * COLS + r by COLS, for 0 <= r < COLS, gives back q and r. */
  lemma DivModCols(q: int, r: int)
    requires 0 <= r < COLS
    ensures (q * COLS + r) / COLS == q && (q * COLS + r) % COLS == r
  {
  }

  /** Dividing q * (ROWS * COLS) + r by ROWS * COLS, for 0 <= r < ROWS * COLS, gives back q and r. */
  lemma DivModCells(q: int, r: int)
    requires 0 <= r < ROWS * COLS
    ensures (q * (ROWS * COLS) + r) / (ROWS * COLS) == q && (q * (ROWS * COLS) + r) % (ROWS * COLS) == r
  {
  }

  /**
    A move the computer player collects: a legal move for the player to move whose
    target is occupied (a capture) or empty (a plain move), as `capture` says.
   */
  predicate IsCandidate(g: Grid, current: Option<Color>, capture: bool, m: Move) {
    At(g, m.tr, m.tc).Some? == capture && ValidMove(g, current, m.fr, m.fc, m.tr, m.tc)
  }

  /** The candidates among the first n scan positions, in scan order. */
  function Scan(g: Grid, current: Option<Color>, capture: bool, n: nat): (s: seq<Move>)
    requires n <= SLOTS
    ensures forall i :: 0 <= i < |s| ==> IsCandidate(g, current, capture, s[i]) && 0 <= Slot(s[i]) < n
    ensures forall i, j :: 0 <= i < j < |s| ==> Slot(s[i]) < Slot(s[j])
  {
    if n == 0 then []
    else
      var m := MoveAt(n - 1);
      Scan(g, current, capture, n - 1) + (if IsCandidate(g, current, capture, m) then [m] else [])
  }

  /** Every candidate in the first n scan positions is collected. */
  lemma {:induction false} ScanComplete(g: Grid, current: Option<Color>, capture: bool, n: nat, m: Move)
    requires n <= SLOTS && IsCandidate(g, current, capture, m) && Slot(m) < n
    ensures m in Scan(g, current, capture, n)
  {
    CandidateSlot(g, current, capture, m);
    var last := MoveAt(n - 1);
    assert Scan(g, current, capture, n) ==
      Scan(g, current, capture, n - 1) + (if IsCandidate(g, current, capture, last) then [last] else []);
    if Slot(m) < n - 1 {
      ScanComplete(g, current, capture, n - 1, m);
    } else {
      assert last == m;
    }
  }

  /** A candidate joins two board cells, so its scan position is in range and names it. */
  lemma CandidateSlot(g: Grid, current: Option<Color>, capture: bool, m: Move)
    requires IsCandidate(g, current, capture, m)
    ensures InBoard(m.fr, m.fc) && InBoard(m.tr, m.tc)
    ensures 0 <= Slot(m) < SLOTS && MoveAt(Slot(m)) == m
  {
    ValidMoveShape(g, current, m.fr, m.fc, m.tr, m.tc);
    SlotRoundTrip(m);
  }

  /** All candidate moves of one kind, in scan order. */
  function Candidates(g: Grid, current: Option<Color>, capture: bool): seq<Move> {
    Scan(g, current, capture, SLOTS)
  }

  /** The collected list holds exactly the candidates. */
  lemma CandidatesExact(g: Grid, current: Option<Color>, capture: bool, m: Move)
    ensures m in Candidates(g, current, capture) <==> IsCandidate(g, current, capture, m)
  {
    if IsCandidate(g, current, capture, m) {
      CandidateSlot(g, current, capture, m);
      ScanComplete(g, current, capture, SLOTS, m);
    }
  }

  /** The row-major indices below n of the cells holding a face-down piece, in order. */
  function FaceDownCells(g: Grid, n: nat): (s: seq<nat>)
    requires n <= ROWS * COLS
    ensures forall i :: 0 <= i < |s| ==> s[i] < n && FaceDown(g[s[i]])
    ensures forall i, j :: 0 <= i < j < |s| ==> s[i] < s[j]
  {
    if n == 0 then []
    else FaceDownCells(g, n - 1) + (if FaceDown(g[n - 1]) then [n - 1] else [])
  }

  /** Every face-down cell below n is listed. */
  lemma {:induction false} FaceDownCellsComplete(g: Grid, n: nat, k: nat)
    requires k < n <= ROWS * COLS && FaceDown(g[k])
    ensures k in FaceDownCells(g, n)
  {
    if k < n - 1 {
      FaceDownCellsComplete(g, n - 1, k);
    }
  }

  /**
    The score of a move: a capture score when both cells are occupied. A
    collected capture always has both; the default below every real score is
    never used for one.
   */
  function Score(g: Grid, m: Move): (v: int)
    ensures BothOccupied(g, m) ==>
      v == CaptureScore(At(g, m.fr, m.fc).value.rank, At(g, m.tr, m.tc).value.rank)
    ensures BothOccupied(g, m) <==> v > -100
  {
    match (At(g, m.fr, m.fc), At(g, m.tr, m.tc))
    case (Some(a), Some(d)) => CaptureScore(a.rank, d.rank)
    case _ => -100
  }

  /** Both cells of the move hold a piece, as they do for every collected capture. */
  predicate BothOccupied(g: Grid, m: Move) {
    At(g, m.fr, m.fc).Some? && At(g, m.tr, m.tc).Some?
  }

  /** Every collected capture runs between two occupied cells. */
  lemma CapturesOccupied(g: Grid, current: Option<Color>)
    ensures forall i :: 0 <= i < |Candidates(g, current, true)| ==> BothOccupied(g, Candidates(g, current, true)[i])
  {
    var caps := Candidates(g, current, true);
    forall i | 0 <= i < |caps|
      ensures BothOccupied(g, caps[i])
    {
      ValidMoveShape(g, current, caps[i].fr, caps[i].fc, caps[i].tr, caps[i].tc);
    }
  }

  function Scores(g: Grid, moves: seq<Move>): (s: seq<int>)
    ensures |s| == |moves| && forall i :: 0 <= i < |moves| ==> s[i] == Score(g, moves[i])
  {
    seq(|moves|, i requires 0 <= i < |moves| => Score(g, moves[i]))
  }

  /** The index of the first maximum of a non-empty list. */
  function FirstMax(xs: seq<int>): (k: nat)
    requires |xs| > 0
    ensures k < |xs|
    ensures forall i :: 0 <= i < |xs| ==> xs[i] <= xs[k]
    ensures forall i :: 0 <= i < k ==> xs[i] < xs[k]
  {
    if |xs| == 1 then 0
    else
      var k := FirstMax(xs[..|xs| - 1]);
      if xs[|xs| - 1] > xs[k] then |xs| - 1 else k
  }

  /** The capture the computer player makes: the first best-scoring one in scan order. */
  function BestCapture(g: Grid, current: Option<Color>): Move
    requires |Candidates(g, current, true)| > 0
  {
    var caps := Candidates(g, current, true);
    caps[FirstMax(Scores(g, caps))]
  }

  /** What the computer player does in one turn. */
  datatype Action = Capture(m: Move) | Flip(cell: nat) | Plain(m: Move) | Idle

  /**
    The computer player's decision, for whoever is to move: nothing when no colour
    is to move yet; otherwise the best capture if there is one; else the face-down
    cell that `flipPick` selects; else the plain move that `movePick` selects;
    else nothing.
   */
  function AiChoice(g: Grid, current: Option<Color>, flipPick: nat, movePick: nat): Action {
    if current.None? then Idle
    else if |Candidates(g, current, true)| > 0 then Capture(BestCapture(g, current))
    else
      var flips := FaceDownCells(g, ROWS * COLS);
      if |flips| > 0 then Flip(flips[flipPick % |flips|])
      else
        var moves := Candidates(g, current, false);
        if |moves| > 0 then Plain(moves[movePick % |moves|]) else Idle
  }

  /** Carrying out an action: a capture or plain move through the move rule, a flip through the flip rule. */
  function Apply(s: State, a: Action): State {
    match a
    case Capture(m) => MoveSpec(s, m.fr, m.fc, m.tr, m.tc).0
    case Plain(m) => MoveSpec(s, m.fr, m.fc, m.tr, m.tc).0
    case Flip(k) => FlipSpec(s, k / COLS, k % COLS)
    case Idle => s
  }

  /** One turn of the computer player. */
  function AiStep(s: State, flipPick: nat, movePick: nat): State {
    Apply(s, AiChoice(s.grid, s.current, flipPick, movePick))
  }

  // ---------------------------------------------------------------------------
  // What the computer player does

  /**
    The chosen capture is a legal capture for the player to move, scores at least
    as much as every other legal capture, and scores strictly more than every
    legal capture earlier in scan order; a Soldier taking a General always wins
    the choice.
   */
  lemma BestCaptureIsBest(g: Grid, current: Option<Color>)
    requires |Candidates(g, current, true)| > 0
    ensures var m := BestCapture(g, current);
      IsCandidate(g, current, true, m) &&
      (forall m' :: IsCandidate(g, current, true, m') ==> Score(g, m') <= Score(g, m)) &&
      (forall m' :: IsCandidate(g, current, true, m') && Slot(m') < Slot(m) ==> Score(g, m') < Score(g, m))
  {
    var caps := Candidates(g, current, true);
    var xs := Scores(g, caps);
    var k := FirstMax(xs);
    var m := caps[k];
    forall m' | IsCandidate(g, current, true, m')
      ensures Score(g, m') <= Score(g, m)
      ensures Slot(m') < Slot(m) ==> Score(g, m') < Score(g, m)
    {
      CandidatesExact(g, current, true, m');
      var i :| 0 <= i < |caps| && caps[i] == m';
      if Slot(m') < Slot(m) {
        assert i < k;
      }
    }
  }

  /** A Soldier that can take a General does so when no other such capture comes first. */
  lemma SoldierTakesGeneral(g: Grid, current: Option<Color>, m: Move)
    requires IsCandidate(g, current, true, m)
    requires At(g, m.fr, m.fc).value.rank == Soldier && At(g, m.tr, m.tc).value.rank == General
    ensures |Candidates(g, current, true)| > 0
    ensures var b := BestCapture(g, current);
      At(g, b.fr, b.fc).value.rank == Soldier && At(g, b.tr, b.tc).value.rank == General &&
      Slot(b) <= Slot(m)
  {
    CandidatesExact(g, current, true, m);
    BestCaptureIsBest(g, current);
    var b := BestCapture(g, current);
    assert Score(g, m) == 100;
    ValidMoveShape(g, current, b.fr, b.fc, b.tr, b.tc);
  }

  /** With no colour to move the computer player does nothing. */
  lemma AiIdleBeforeFirstFlip(g: Grid, flipPick: nat, movePick: nat)
    ensures AiChoice(g, None, flipPick, movePick) == Idle
  {
  }

  /** When a capture exists the computer player makes the best one. */
  lemma AiCapturesFirst(g: Grid, current: Option<Color>, flipPick: nat, movePick: nat, m: Move)
    requires current.Some? && IsCandidate(g, current, true, m)
    ensures |Candidates(g, current, true)| > 0
    ensures AiChoice(g, current, flipPick, movePick) == Capture(BestCapture(g, current))
  {
    CandidatesExact(g, current, true, m);
  }

  /**
    With no capture available but some piece face down, the computer player flips
    a face-down piece whatever the draw, and every face-down piece for some draw.
   */
  lemma AiFlipsSecond(g: Grid, current: Option<Color>, movePick: nat, k: nat)
    requires current.Some? && k < ROWS * COLS && FaceDown(g[k])
    requires forall m :: !IsCandidate(g, current, true, m)
    ensures forall flipPick: nat :: (AiChoice(g, current, flipPick, movePick).Flip? &&
      var j := AiChoice(g, current, flipPick, movePick).cell; j < ROWS * COLS && FaceDown(g[j]))
    ensures exists flipPick: nat :: AiChoice(g, current, flipPick, movePick) == Flip(k)
  {
    NoCaptures(g, current);
    var flips := FaceDownCells(g, ROWS * COLS);
    FaceDownCellsComplete(g, ROWS * COLS, k);
    forall flipPick: nat
      ensures AiChoice(g, current, flipPick, movePick).Flip?
      ensures var j := AiChoice(g, current, flipPick, movePick).cell; j < ROWS * COLS && FaceDown(g[j])
    {
      AiChoiceFlip(g, current, flipPick, movePick);
    }
    var i :| 0 <= i < |flips| && flips[i] == k;
    ModBelow(i, |flips|);
    AiChoiceFlip(g, current, i, movePick);
  }

  /** With a capture available, the choice is the first best-scoring capture in scan order. */
  lemma AiChoiceCapture(g: Grid, current: Option<Color>, flipPick: nat, movePick: nat)
    requires current.Some? && |Candidates(g, current, true)| > 0
    ensures var caps := Candidates(g, current, true);
      AiChoice(g, current, flipPick, movePick) == Capture(caps[FirstMax(Scores(g, caps))])
  {
  }

  lemma AiChoiceFlip(g: Grid, current: Option<Color>, flipPick: nat, movePick: nat)
    requires current.Some? && |Candidates(g, current, true)| == 0 && |FaceDownCells(g, ROWS * COLS)| > 0
    ensures var flips := FaceDownCells(g, ROWS * COLS);
      AiChoice(g, current, flipPick, movePick) == Flip(flips[flipPick % |flips|]) &&
      flips[flipPick % |flips|] < ROWS * COLS && FaceDown(g[flips[flipPick % |flips|]])
  {
  }

  /**
    With no capture available and nothing face down, the computer player makes a
    legal plain move whatever the draw when one exists.
   */
  lemma AiMovesLast(g: Grid, current: Option<Color>, flipPick: nat, m: Move)
    requires current.Some? && !AnyFaceDown(g)
    requires forall m' :: !IsCandidate(g, current, true, m')
    requires IsCandidate(g, current, false, m)
    ensures forall movePick: nat :: (AiChoice(g, current, flipPick, movePick).Plain? &&
      IsCandidate(g, current, false, AiChoice(g, current, flipPick, movePick).m))
  {
    NoCaptures(g, current);
    NoFlips(g);
    CandidatesExact(g, current, false, m);
    forall movePick: nat
      ensures AiChoice(g, current, flipPick, movePick).Plain?
      ensures IsCandidate(g, current, false, AiChoice(g, current, flipPick, movePick).m)
    {
      AiChoicePlain(g, current, flipPick, movePick);
    }
  }

  /** In that situation every legal plain move is the one made for some draw. */
  lemma AiMayMakeAnyMove(g: Grid, current: Option<Color>, flipPick: nat, m: Move)
    requires current.Some? && !AnyFaceDown(g)
    requires forall m' :: !IsCandidate(g, current, true, m')
    requires IsCandidate(g, current, false, m)
    ensures exists movePick: nat :: AiChoice(g, current, flipPick, movePick) == Plain(m)
  {
    NoCaptures(g, current);
    NoFlips(g);
    var moves := Candidates(g, current, false);
    CandidatesExact(g, current, false, m);
    var i :| 0 <= i < |moves| && moves[i] == m;
    AiChoicePlainAt(g, current, flipPick, i);
  }

  lemma AiChoicePlain(g: Grid, current: Option<Color>, flipPick: nat, movePick: nat)
    requires current.Some? && |Candidates(g, current, true)| == 0
    requires |FaceDownCells(g, ROWS * COLS)| == 0 && |Candidates(g, current, false)| > 0
    ensures var moves := Candidates(g, current, false);
      AiChoice(g, current, flipPick, movePick) == Plain(moves[movePick % |moves|]) &&
      IsCandidate(g, current, false, moves[movePick % |moves|])
  {
  }

  lemma AiChoicePlainAt(g: Grid, current: Option<Color>, flipPick: nat, i: nat)
    requires current.Some? && |Candidates(g, current, true)| == 0
    requires |FaceDownCells(g, ROWS * COLS)| == 0 && i < |Candidates(g, current, false)|
    ensures AiChoice(g, current, flipPick, i) == Plain(Candidates(g, current, false)[i])
  {
    ModBelow(i, |Candidates(g, current, false)|);
    AiChoicePlain(g, current, flipPick, i);
  }

  lemma ModBelow(i: nat, n: nat)
    requires i < n
    ensures i % n == i
  {
  }

  /** A computer player with no capture, no face-down piece and no plain move does nothing. */
  lemma AiIdleWhenStuck(g: Grid, current: Option<Color>, flipPick: nat, movePick: nat)
    requires !AnyFaceDown(g)
    requires forall m :: !IsCandidate(g, current, true, m) && !IsCandidate(g, current, false, m)
    ensures AiChoice(g, current, flipPick, movePick) == Idle
  {
    NoCaptures(g, current);
    NoFlips(g);
  }

  /** Without a legal capture the capture list is empty. */
  lemma NoCaptures(g: Grid, current: Option<Color>)
    requires forall m :: !IsCandidate(g, current, true, m)
    ensures |Candidates(g, current, true)| == 0
  {
    if |Candidates(g, current, true)| > 0 {
      FirstCandidate(g, current, true);
      assert false;
    }
  }

  /** The first entry of a non-empty candidate list is a candidate. */
  lemma FirstCandidate(g: Grid, current: Option<Color>, capture: bool)
    requires |Candidates(g, current, capture)| > 0
    ensures IsCandidate(g, current, capture, Candidates(g, current, capture)[0])
  {
  }

  /** Without a face-down piece the flip list is empty. */
  lemma NoFlips(g: Grid)
    requires !AnyFaceDown(g)
    ensures |FaceDownCells(g, ROWS * COLS)| == 0
  {
    if |FaceDownCells(g, ROWS * COLS)| > 0 {
      FirstFaceDown(g);
      assert false;
    }
  }

  /** The first entry of a non-empty face-down list is a face-down cell. */
  lemma FirstFaceDown(g: Grid)
    requires |FaceDownCells(g, ROWS * COLS)| > 0
    ensures var k := FaceDownCells(g, ROWS * COLS)[0]; k < ROWS * COLS && FaceDown(g[k])
  {
  }

  /**
    Whatever the computer player picks is legal for the player to move, so the
    move rule accepts it. It flips only when no capture exists, makes a plain
    move only when no capture exists and nothing is face down, and idles only
    when no colour is to move or nothing at all is possible.
   */
  lemma AiChoiceIsLegal(g: Grid, current: Option<Color>, flipPick: nat, movePick: nat)
    ensures match AiChoice(g, current, flipPick, movePick)
      case Capture(m) => IsCandidate(g, current, true, m)
      case Plain(m) =>
        IsCandidate(g, current, false, m) && !AnyFaceDown(g) && forall m' :: !IsCandidate(g, current, true, m')
      case Flip(k) => k < ROWS * COLS && FaceDown(g[k]) && (forall m :: !IsCandidate(g, current, true, m))
      case Idle =>
        current.None? ||
        (!AnyFaceDown(g) && forall m :: !IsCandidate(g, current, true, m) && !IsCandidate(g, current, false, m))
  {
    if current.Some? {
      if |Candidates(g, current, true)| > 0 {
        BestCaptureIsBest(g, current);
      } else {
        forall m ensures !IsCandidate(g, current, true, m) {
          CandidatesExact(g, current, true, m);
        }
        if |FaceDownCells(g, ROWS * COLS)| == 0 {
          if AnyFaceDown(g) {
            var k :| 0 <= k < ROWS * COLS && FaceDown(g[k]);
            FaceDownCellsComplete(g, ROWS * COLS, k);
            assert false;
          }
          if |Candidates(g, current, false)| == 0 {
            forall m ensures !IsCandidate(g, current, false, m) {
              CandidatesExact(g, current, false, m);
            }
          }
        }
      }
    }
  }

  /** A turn of the computer player keeps the state consistent. */
  lemma AiStepKeepsConsistent(s: State, flipPick: nat, movePick: nat)
    requires Consistent(s)
    ensures Consistent(AiStep(s, flipPick, movePick))
  {
    match AiChoice(s.grid, s.current, flipPick, movePick)
    case Capture(m) => TransitionsKeepConsistent(s, m.fr, m.fc, m.tr, m.tc);
    case Plain(m) => TransitionsKeepConsistent(s, m.fr, m.fc, m.tr, m.tc);
    case Flip(k) => TransitionsKeepConsistent(s, k / COLS, k % COLS, 0, 0);
    case Idle =>
  }

  // ---------------------------------------------------------------------------
  // Facts the scanning loops of the board rely on

  /** The first scan position of the moves from (r, c). */
  function SourceBase(r: int, c: int): (b: nat)
    requires InBoard(r, c)
    ensures b == (r * COLS + c) * (ROWS * COLS) && b + ROWS * COLS <= SLOTS
  {
    (r * COLS + c) * (ROWS * COLS)
  }

  /** The scan positions of the moves from (r, c) to row tr, and where that row ends. */
  lemma RowPositions(r: int, c: int, tr: int)
    requires InBoard(r, c) && 0 <= tr < ROWS
    ensures SourceBase(r, c) + tr * COLS + COLS <= SLOTS
    ensures SourceBase(r, c) + tr * COLS + COLS == SourceBase(r, c) + (tr + 1) * COLS
    ensures forall tc :: 0 <= tc < COLS ==> Slot(Move(r, c, tr, tc)) == SourceBase(r, c) + tr * COLS + tc
  {
  }

  /**
    `s` lists, in scan order, exactly the candidates among the first n scan
    positions: each entry is a candidate scanned before position n, the entries
    are in strictly increasing scan order, and no such candidate is missing.
   */
  ghost predicate Collects(g: Grid, current: Option<Color>, capture: bool, n: int, s: seq<Move>) {
    (forall i :: 0 <= i < |s| ==> IsCandidate(g, current, capture, s[i]) && Slot(s[i]) < n) &&
    (forall i, j :: 0 <= i < j < |s| ==> Slot(s[i]) < Slot(s[j])) &&
    (forall m :: IsCandidate(g, current, capture, m) && Slot(m) < n ==> m in s)
  }

  /** Nothing is scanned before position 0. */
  lemma CollectsNothing(g: Grid, current: Option<Color>, capture: bool)
    ensures Collects(g, current, capture, 0, [])
  {
    forall m | IsCandidate(g, current, capture, m)
      ensures Slot(m) >= 0
    {
      CandidateSlot(g, current, capture, m);
    }
  }

  /** Scanning position Slot(m) appends m exactly when m is a candidate (`take`). */
  lemma CollectsStep(g: Grid, current: Option<Color>, capture: bool, m: Move, s: seq<Move>, take: bool)
    requires InBoard(m.fr, m.fc) && InBoard(m.tr, m.tc)
    requires Collects(g, current, capture, Slot(m), s) && take == IsCandidate(g, current, capture, m)
    ensures Collects(g, current, capture, Slot(m) + 1, if take then s + [m] else s)
  {
    var t := if take then s + [m] else s;
    var n := Slot(m);
    SlotRoundTrip(m);
    forall i | 0 <= i < |t|
      ensures IsCandidate(g, current, capture, t[i]) && Slot(t[i]) < n + 1
    {
      if i < |s| {
        assert t[i] == s[i];
      }
    }
    forall i, j | 0 <= i < j < |t|
      ensures Slot(t[i]) < Slot(t[j])
    {
      assert t[i] == s[i];
      if j < |s| {
        assert t[j] == s[j];
      }
    }
    forall m' | IsCandidate(g, current, capture, m') && Slot(m') < n + 1
      ensures m' in t
    {
      if Slot(m') == n {
        CandidateSlot(g, current, capture, m');
        assert m' == m;
      } else {
        assert m' in s;
      }
    }
  }

  /**
    A cell that does not hold a face-up piece of the player to move contributes no
    candidate: scanning past the 32 positions of moves from it adds nothing.
   */
  lemma CollectsSkip(g: Grid, current: Option<Color>, capture: bool, r: int, c: int, s: seq<Move>)
    requires InBoard(r, c)
    requires !(At(g, r, c).Some? && At(g, r, c).value.faceUp && current == Some(At(g, r, c).value.color))
    requires Collects(g, current, capture, SourceBase(r, c), s)
    ensures Collects(g, current, capture, SourceBase(r, c) + ROWS * COLS, s)
  {
    forall m | IsCandidate(g, current, capture, m) && Slot(m) < SourceBase(r, c) + ROWS * COLS
      ensures m in s
    {
      ValidMoveShape(g, current, m.fr, m.fc, m.tr, m.tc);
      if Slot(m) >= SourceBase(r, c) {
        SameSource(m, r, c, Slot(m) - SourceBase(r, c));
        NotFromCell(g, current, capture, m);
      }
    }
  }

  /** The scan is the only list that collects the candidates: collecting them is computing Scan. */
  lemma {:induction false} CollectsScan(g: Grid, current: Option<Color>, capture: bool, n: nat, s: seq<Move>)
    requires n <= SLOTS && Collects(g, current, capture, n, s)
    ensures s == Scan(g, current, capture, n)
  {
    if n == 0 {
      CollectsNone(g, current, capture, s);
    } else {
      var rest := CollectsPrefix(g, current, capture, n, s);
      CollectsScan(g, current, capture, n - 1, rest);
    }
  }

  /** No candidate is scanned before position 0. */
  lemma CollectsNone(g: Grid, current: Option<Color>, capture: bool, s: seq<Move>)
    requires Collects(g, current, capture, 0, s)
    ensures s == []
  {
    if |s| > 0 {
      ValidMoveShape(g, current, s[0].fr, s[0].fc, s[0].tr, s[0].tc);
      SlotRoundTrip(s[0]);
      assert false;
    }
  }

  /**
    A list collecting the first n positions is a list collecting the first n - 1,
    followed by the move at position n - 1 when that is a candidate.
   */
  lemma CollectsPrefix(g: Grid, current: Option<Color>, capture: bool, n: nat, s: seq<Move>) returns (rest: seq<Move>)
    requires 0 < n <= SLOTS && Collects(g, current, capture, n, s)
    ensures Collects(g, current, capture, n - 1, rest)
    ensures var m := MoveAt(n - 1); s == rest + (if IsCandidate(g, current, capture, m) then [m] else [])
  {
    var m := MoveAt(n - 1);
    if IsCandidate(g, current, capture, m) {
      rest := CollectsLast(g, current, capture, n, s);
    } else {
      CollectsBelow(g, current, capture, n, s);
      rest := s;
    }
  }

  /** When position n - 1 holds a candidate, it is the last entry of the list. */
  lemma CollectsLast(g: Grid, current: Option<Color>, capture: bool, n: nat, s: seq<Move>) returns (rest: seq<Move>)
    requires 0 < n <= SLOTS && Collects(g, current, capture, n, s)
    requires IsCandidate(g, current, capture, MoveAt(n - 1))
    ensures Collects(g, current, capture, n - 1, rest) && s == rest + [MoveAt(n - 1)]
  {
    CandidateIsLast(g, current, capture, n, s);
    rest := s[..|s| - 1];
    CollectsDropLast(g, current, capture, n, s);
    SplitLast(s);
  }

  /** A non-empty sequence is its prefix followed by its last element. */
  lemma SplitLast(s: seq<Move>)
    requires |s| > 0
    ensures s == s[..|s| - 1] + [s[|s| - 1]]
  {
  }

  lemma CandidateIsLast(g: Grid, current: Option<Color>, capture: bool, n: nat, s: seq<Move>)
    requires 0 < n <= SLOTS && Collects(g, current, capture, n, s)
    requires IsCandidate(g, current, capture, MoveAt(n - 1))
    ensures |s| > 0 && s[|s| - 1] == MoveAt(n - 1)
  {
    var m := MoveAt(n - 1);
    assert m in s;
    var j :| 0 <= j < |s| && s[j] == m;
    var last := s[|s| - 1];
    assert Slot(m) <= Slot(last) < n;
    ValidMoveShape(g, current, last.fr, last.fc, last.tr, last.tc);
    SlotRoundTrip(last);
  }

  lemma CollectsDropLast(g: Grid, current: Option<Color>, capture: bool, n: nat, s: seq<Move>)
    requires 0 < n <= SLOTS && Collects(g, current, capture, n, s)
    requires |s| > 0 && s[|s| - 1] == MoveAt(n - 1)
    ensures Collects(g, current, capture, n - 1, s[..|s| - 1])
  {
    var rest := s[..|s| - 1];
    forall i | 0 <= i < |rest|
      ensures Slot(rest[i]) < n - 1
    {
      assert Slot(s[i]) < Slot(s[|s| - 1]);
    }
    forall m' | IsCandidate(g, current, capture, m') && Slot(m') < n - 1
      ensures m' in rest
    {
      var k :| 0 <= k < |s| && s[k] == m';
      assert k != |s| - 1;
      assert rest[k] == m';
    }
  }

  /** When position n - 1 holds no candidate, the list already collects n - 1 positions. */
  lemma CollectsBelow(g: Grid, current: Option<Color>, capture: bool, n: nat, s: seq<Move>)
    requires 0 < n <= SLOTS && Collects(g, current, capture, n, s)
    requires !IsCandidate(g, current, capture, MoveAt(n - 1))
    ensures Collects(g, current, capture, n - 1, s)
  {
    forall i | 0 <= i < |s|
      ensures Slot(s[i]) < n - 1
    {
      if Slot(s[i]) == n - 1 {
        ValidMoveShape(g, current, s[i].fr, s[i].fc, s[i].tr, s[i].tc);
        SlotRoundTrip(s[i]);
        assert false;
      }
    }
  }

  /** A move from a cell without a face-up piece of the player to move is no candidate. */
  lemma NotFromCell(g: Grid, current: Option<Color>, capture: bool, m: Move)
    requires !(At(g, m.fr, m.fc).Some? && At(g, m.fr, m.fc).value.faceUp && current == Some(At(g, m.fr, m.fc).value.color))
    ensures !IsCandidate(g, current, capture, m)
  {
  }

  /** The scan positions from (r, c, 0, 0) to (r, c, 3, 7) hold the moves from (r, c). */
  lemma SameSource(m: Move, r: int, c: int, k: int)
    requires InBoard(r, c) && InBoard(m.tr, m.tc) && 0 <= k < ROWS * COLS
    requires InBoard(m.fr, m.fc) && Slot(m) == SourceBase(r, c) + k
    ensures m.fr == r && m.fc == c
  {
    DivModCells(m.fr * COLS + m.fc, m.tr * COLS + m.tc);
    DivModCells(r * COLS + c, k);
    DivModCols(m.fr, m.fc);
    DivModCols(r, c);
  }

  /**
    The state of the search for the first maximum after i entries: nothing found
    yet (the value below every score) before the first entry, afterwards the first
    maximum of the entries seen.
   */
  ghost predicate BestSoFar(xs: seq<int>, i: nat, best: nat, bestValue: int) {
    i <= |xs| &&
    (i == 0 ==> bestValue == -100 && best == 0) &&
    (i > 0 ==> best < i && bestValue == xs[best]) &&
    (forall k :: 0 <= k < i ==> xs[k] <= bestValue) &&
    (forall k :: 0 <= k < best ==> xs[k] < bestValue)
  }

  /** One round of the search: a strictly greater entry takes over. */
  lemma BestSoFarStep(xs: seq<int>, i: nat, best: nat, bestValue: int)
    requires i < |xs| && xs[i] > -100 && BestSoFar(xs, i, best, bestValue)
    ensures if xs[i] > bestValue then BestSoFar(xs, i + 1, i, xs[i]) else BestSoFar(xs, i + 1, best, bestValue)
  {
  }

  /**
    An index whose entry no entry exceeds and every earlier entry is below is the
    first maximum.
   */
  lemma FirstMaxUnique(xs: seq<int>, b: nat)
    requires b < |xs|
    requires forall k :: 0 <= k < |xs| ==> xs[k] <= xs[b]
    requires forall k :: 0 <= k < b ==> xs[k] < xs[b]
    ensures b == FirstMax(xs)
  {
    var k := FirstMax(xs);
    assert xs[k] <= xs[b] && xs[b] <= xs[k];
    assert !(k < b) && !(b < k);
  }
}
