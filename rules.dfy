/**
  The move-legality oracle of the 4 x 8 Banqi board, on board values.
  A board value is a sequence of 32 optional pieces in row-major order:
  the cell (r, c) is at index r * 8 + c.
 */
module Rules {
  import opened Options
  import opened Pieces

  const ROWS := 4
  const COLS := 8

  type Grid = g: seq<Option<PieceState>> | |g| == ROWS * COLS witness seq(32, _ => None)

  predicate InBoard(r: int, c: int) {
    0 <= r < ROWS && 0 <= c < COLS
  }

  /** The piece on cell (r, c), or None for an empty cell and for any cell off the board. */
  function At(g: Grid, r: int, c: int): Option<PieceState> {
    if InBoard(r, c) then g[r * COLS + c] else None
  }

  function Abs(x: int): nat {
    if x < 0 then -x else x
  }

  /** Manhattan distance between two cells. */
  function Distance(fr: int, fc: int, tr: int, tc: int): nat {
    Abs(fr - tr) + Abs(fc - tc)
  }

  /**
    Rank dominance for a capture. A Cannon may capture anything (its captures are
    governed by the screen rule); otherwise a lower ordinal takes a higher or equal
    one, except that a General cannot take a Soldier, a Soldier can take a General,
    and a Soldier cannot take a Cannon.
   */
  function CanCapture(attacker: Rank, defender: Rank): (ok: bool)
    ensures attacker == Cannon ==> ok
    ensures attacker != Cannon ==>
      (ok <==> (attacker == Soldier && defender == General) ||
               (Ordinal(attacker) <= Ordinal(defender)
                && !(attacker == General && defender == Soldier)
                && !(attacker == Soldier && defender == Cannon)))
  {
    if attacker == Cannon then true
    else if attacker == General then defender != Soldier
    else if attacker == Soldier then defender == General || defender == Soldier
    else Ordinal(attacker) <= Ordinal(defender)
  }

  /** The value the computer player gives a piece: 7 for a General down to 1 for a Cannon. */
  function PieceValue(r: Rank): (v: int)
    ensures 1 <= v <= 7
    ensures r == General <==> v == 7
    ensures r == Cannon <==> v == 1
  {
    7 - Ordinal(r)
  }

  /** A rank earlier in the declaration order (a stronger rank) is worth strictly more. */
  lemma PieceValueOrder(a: Rank, b: Rank)
    ensures Ordinal(a) < Ordinal(b) <==> PieceValue(a) > PieceValue(b)
    ensures a == b <==> PieceValue(a) == PieceValue(b)
  {
    if PieceValue(a) == PieceValue(b) {
      OrdinalRoundTrip(a);
      OrdinalRoundTrip(b);
    }
  }

  /**
    The score of a capture: 100 for a Soldier taking a General, otherwise how far
    the defender stands above the attacker in rank.
   */
  function CaptureScore(attacker: Rank, defender: Rank): (s: int)
    ensures attacker == Soldier && defender == General ==> s == 100
    ensures !(attacker == Soldier && defender == General) ==>
      s == Ordinal(attacker) - Ordinal(defender) && -6 <= s <= 6
    ensures s > -100
  {
    if attacker == Soldier && defender == General then 100
    else PieceValue(defender) - PieceValue(attacker)
  }

  /** The cell at position k of a line: column `fixed` if vertical, else row `fixed`. */
  function OnLine(g: Grid, vertical: bool, fixed: int, k: int): Option<PieceState> {
    if vertical then At(g, k, fixed) else At(g, fixed, k)
  }

  /** The number of occupied cells at positions lo .. hi - 1 of a line. */
  function Occupied(g: Grid, vertical: bool, fixed: int, lo: int, hi: int): nat
    decreases hi - lo
  {
    if hi <= lo then 0
    else Occupied(g, vertical, fixed, lo, hi - 1) + (if OnLine(g, vertical, fixed, hi - 1).Some? then 1 else 0)
  }

  function Min(a: int, b: int): int { if a < b then a else b }
  function Max(a: int, b: int): int { if a < b then b else a }

  /**
    The number of occupied cells strictly between two cells of one column
    (when the rows differ) or of one row (otherwise): the pieces a Cannon jumps.
   */
  function Jumped(g: Grid, fr: int, fc: int, tr: int, tc: int): nat {
    if fr != tr then Occupied(g, true, fc, Min(fr, tr) + 1, Max(fr, tr))
    else Occupied(g, false, fr, Min(fc, tc) + 1, Max(fc, tc))
  }

  /**
    Whether the piece on (fr, fc) may move to (tr, tc) when `current` is to move:
    a one-step orthogonal move or capture subject to rank dominance, or a Cannon
    slide over no piece or a Cannon capture over exactly one screen.
   */
  predicate ValidMove(g: Grid, current: Option<Color>, fr: int, fc: int, tr: int, tc: int) {
    InBoard(tr, tc) &&
    match At(g, fr, fc)
    case None => false
    case Some(m) =>
      m.faceUp && current == Some(m.color) &&
      match At(g, tr, tc)
      case None =>
        if m.rank == Cannon then (fr == tr || fc == tc) && Jumped(g, fr, fc, tr, tc) == 0
        else Distance(fr, fc, tr, tc) == 1
      case Some(t) =>
        t.color != m.color && t.faceUp &&
        if m.rank == Cannon then (fr == tr || fc == tc) && Jumped(g, fr, fc, tr, tc) == 1
        else Distance(fr, fc, tr, tc) == 1 && CanCapture(m.rank, t.rank)
  }

  // ---------------------------------------------------------------------------
  // What a legal move looks like

  /**
    Every legal move starts from a face-up piece of the player to move, on the board,
    and ends on a different cell of the board that is empty or holds a face-up
    piece of the other colour.
   */
  lemma ValidMoveShape(g: Grid, current: Option<Color>, fr: int, fc: int, tr: int, tc: int)
    requires ValidMove(g, current, fr, fc, tr, tc)
    ensures InBoard(fr, fc) && InBoard(tr, tc) && (fr, fc) != (tr, tc)
    ensures At(g, fr, fc).Some? && At(g, fr, fc).value.faceUp && current == Some(At(g, fr, fc).value.color)
    ensures At(g, tr, tc).Some? ==>
      At(g, tr, tc).value.faceUp && At(g, tr, tc).value.color != At(g, fr, fc).value.color
  {
  }

  /** A piece other than a Cannon moves one orthogonal step, and captures only by rank. */
  lemma StepRule(g: Grid, current: Option<Color>, fr: int, fc: int, tr: int, tc: int)
    requires At(g, fr, fc).Some? && At(g, fr, fc).value.rank != Cannon
    requires At(g, fr, fc).value.faceUp && current == Some(At(g, fr, fc).value.color)
    ensures At(g, tr, tc).None? ==>
      (ValidMove(g, current, fr, fc, tr, tc) <==> InBoard(tr, tc) && Distance(fr, fc, tr, tc) == 1)
    ensures At(g, tr, tc).Some? && At(g, tr, tc).value.faceUp && At(g, tr, tc).value.color != At(g, fr, fc).value.color ==>
      (ValidMove(g, current, fr, fc, tr, tc) <==>
         Distance(fr, fc, tr, tc) == 1 && CanCapture(At(g, fr, fc).value.rank, At(g, tr, tc).value.rank))
  {
  }

  /** (r, c) lies strictly between (fr, fc) and (tr, tc) on their common row or column. */
  predicate StrictlyBetween(fr: int, fc: int, tr: int, tc: int, r: int, c: int) {
    if fr != tr then fc == tc && c == fc && Min(fr, tr) < r < Max(fr, tr)
    else r == fr && Min(fc, tc) < c < Max(fc, tc)
  }

  lemma {:induction false} OccupiedFront(g: Grid, vertical: bool, fixed: int, lo: int, hi: int)
    requires lo < hi
    ensures Occupied(g, vertical, fixed, lo, hi)
         == (if OnLine(g, vertical, fixed, lo).Some? then 1 else 0) + Occupied(g, vertical, fixed, lo + 1, hi)
    decreases hi - lo
  {
    if lo + 1 < hi {
      OccupiedFront(g, vertical, fixed, lo, hi - 1);
    }
  }

  /** No occupied cell on a stretch of a line iff every cell there is empty. */
  lemma {:induction false} OccupiedZero(g: Grid, vertical: bool, fixed: int, lo: int, hi: int)
    ensures Occupied(g, vertical, fixed, lo, hi) == 0 <==>
      forall k :: lo <= k < hi ==> OnLine(g, vertical, fixed, k).None?
    decreases hi - lo
  {
    if lo < hi {
      OccupiedZero(g, vertical, fixed, lo, hi - 1);
    }
  }

  /** Exactly one occupied cell on a stretch of a line iff there is a unique such cell. */
  lemma {:induction false} OccupiedOne(g: Grid, vertical: bool, fixed: int, lo: int, hi: int)
    ensures Occupied(g, vertical, fixed, lo, hi) == 1 <==>
      exists k :: lo <= k < hi && OnLine(g, vertical, fixed, k).Some? &&
        forall j :: lo <= j < hi && j != k ==> OnLine(g, vertical, fixed, j).None?
    decreases hi - lo
  {
    if lo < hi {
      OccupiedOne(g, vertical, fixed, lo, hi - 1);
      OccupiedZero(g, vertical, fixed, lo, hi - 1);
      if OnLine(g, vertical, fixed, hi - 1).Some? && Occupied(g, vertical, fixed, lo, hi - 1) == 0 {
        assert forall j :: lo <= j < hi && j != hi - 1 ==> OnLine(g, vertical, fixed, j).None?;
      }
    }
  }

  /** The pieces a Cannon jumps: none iff every cell strictly between is empty. */
  lemma JumpedZero(g: Grid, fr: int, fc: int, tr: int, tc: int)
    requires fr == tr || fc == tc
    ensures Jumped(g, fr, fc, tr, tc) == 0 <==>
      forall r, c :: StrictlyBetween(fr, fc, tr, tc, r, c) ==> At(g, r, c).None?
  {
    var vertical := fr != tr;
    var fixed := if vertical then fc else fr;
    var lo := if vertical then Min(fr, tr) + 1 else Min(fc, tc) + 1;
    var hi := if vertical then Max(fr, tr) else Max(fc, tc);
    OccupiedZero(g, vertical, fixed, lo, hi);
    if forall r, c :: StrictlyBetween(fr, fc, tr, tc, r, c) ==> At(g, r, c).None? {
      forall k | lo <= k < hi
        ensures OnLine(g, vertical, fixed, k).None?
      {
        if vertical {
          assert StrictlyBetween(fr, fc, tr, tc, k, fc);
        } else {
          assert StrictlyBetween(fr, fc, tr, tc, fr, k);
        }
      }
    }
    if Jumped(g, fr, fc, tr, tc) == 0 {
      forall r, c | StrictlyBetween(fr, fc, tr, tc, r, c)
        ensures At(g, r, c).None?
      {
        var k := if vertical then r else c;
        assert OnLine(g, vertical, fixed, k) == At(g, r, c);
      }
    }
  }

  /** (r, c) is the only occupied cell strictly between source and target: the Cannon's screen. */
  ghost predicate LoneScreen(g: Grid, fr: int, fc: int, tr: int, tc: int, r: int, c: int) {
    StrictlyBetween(fr, fc, tr, tc, r, c) && At(g, r, c).Some? &&
    forall r', c' :: StrictlyBetween(fr, fc, tr, tc, r', c') && (r', c') != (r, c) ==> At(g, r', c').None?
  }

  /** The pieces a Cannon jumps: exactly one iff exactly one cell strictly between is occupied. */
  lemma JumpedOne(g: Grid, fr: int, fc: int, tr: int, tc: int)
    requires fr == tr || fc == tc
    ensures Jumped(g, fr, fc, tr, tc) == 1 <==>
      exists r, c :: StrictlyBetween(fr, fc, tr, tc, r, c) && At(g, r, c).Some? &&
        forall r', c' :: StrictlyBetween(fr, fc, tr, tc, r', c') && (r', c') != (r, c) ==> At(g, r', c').None?
  {
    if Jumped(g, fr, fc, tr, tc) == 1 {
      var r, c := JumpedOneScreen(g, fr, fc, tr, tc);
      assert StrictlyBetween(fr, fc, tr, tc, r, c) && At(g, r, c).Some? &&
        forall r', c' :: StrictlyBetween(fr, fc, tr, tc, r', c') && (r', c') != (r, c) ==> At(g, r', c').None?;
    }
    if exists r, c :: StrictlyBetween(fr, fc, tr, tc, r, c) && At(g, r, c).Some? &&
        forall r', c' :: StrictlyBetween(fr, fc, tr, tc, r', c') && (r', c') != (r, c) ==> At(g, r', c').None? {
      var r, c :| StrictlyBetween(fr, fc, tr, tc, r, c) && At(g, r, c).Some? &&
        forall r', c' :: StrictlyBetween(fr, fc, tr, tc, r', c') && (r', c') != (r, c) ==> At(g, r', c').None?;
      assert LoneScreen(g, fr, fc, tr, tc, r, c);
      ScreenJumpedOne(g, fr, fc, tr, tc, r, c);
    }
  }

  /** A count of one locates the screen. */
  lemma JumpedOneScreen(g: Grid, fr: int, fc: int, tr: int, tc: int) returns (r: int, c: int)
    requires (fr == tr || fc == tc) && Jumped(g, fr, fc, tr, tc) == 1
    ensures LoneScreen(g, fr, fc, tr, tc, r, c)
  {
    var vertical := fr != tr;
    var fixed := if vertical then fc else fr;
    var lo := if vertical then Min(fr, tr) + 1 else Min(fc, tc) + 1;
    var hi := if vertical then Max(fr, tr) else Max(fc, tc);
    OccupiedOne(g, vertical, fixed, lo, hi);
    var k :| lo <= k < hi && OnLine(g, vertical, fixed, k).Some? &&
      forall j :: lo <= j < hi && j != k ==> OnLine(g, vertical, fixed, j).None?;
    r, c := if vertical then k else fr, if vertical then fc else k;
    assert StrictlyBetween(fr, fc, tr, tc, r, c) && At(g, r, c).Some?;
    forall r', c' | StrictlyBetween(fr, fc, tr, tc, r', c') && (r', c') != (r, c)
      ensures At(g, r', c').None?
    {
      var j := if vertical then r' else c';
      assert OnLine(g, vertical, fixed, j) == At(g, r', c');
    }
  }

  /** A lone screen makes the count one. */
  lemma ScreenJumpedOne(g: Grid, fr: int, fc: int, tr: int, tc: int, r: int, c: int)
    requires (fr == tr || fc == tc) && LoneScreen(g, fr, fc, tr, tc, r, c)
    ensures Jumped(g, fr, fc, tr, tc) == 1
  {
    var vertical := fr != tr;
    var fixed := if vertical then fc else fr;
    var lo := if vertical then Min(fr, tr) + 1 else Min(fc, tc) + 1;
    var hi := if vertical then Max(fr, tr) else Max(fc, tc);
    OccupiedOne(g, vertical, fixed, lo, hi);
    var k := if vertical then r else c;
    assert OnLine(g, vertical, fixed, k).Some?;
    forall j | lo <= j < hi && j != k
      ensures OnLine(g, vertical, fixed, j).None?
    {
      if vertical {
        assert StrictlyBetween(fr, fc, tr, tc, j, fc);
      } else {
        assert StrictlyBetween(fr, fc, tr, tc, fr, j);
      }
    }
  }

  /**
    The Cannon: onto an empty cell it slides along its row or column over no piece;
    onto a face-up enemy piece it captures over exactly one piece, of either colour
    and either face.
   */
  lemma CannonRule(g: Grid, current: Option<Color>, fr: int, fc: int, tr: int, tc: int)
    requires At(g, fr, fc).Some? && At(g, fr, fc).value.rank == Cannon
    requires At(g, fr, fc).value.faceUp && current == Some(At(g, fr, fc).value.color)
    ensures At(g, tr, tc).None? ==>
      (ValidMove(g, current, fr, fc, tr, tc) <==>
         InBoard(tr, tc) && (fr == tr || fc == tc) &&
         forall r, c :: StrictlyBetween(fr, fc, tr, tc, r, c) ==> At(g, r, c).None?)
    ensures At(g, tr, tc).Some? && At(g, tr, tc).value.faceUp && At(g, tr, tc).value.color != At(g, fr, fc).value.color ==>
      (ValidMove(g, current, fr, fc, tr, tc) <==>
         (fr == tr || fc == tc) &&
         exists r, c :: StrictlyBetween(fr, fc, tr, tc, r, c) && At(g, r, c).Some? &&
           forall r', c' :: StrictlyBetween(fr, fc, tr, tc, r', c') && (r', c') != (r, c) ==> At(g, r', c').None?)
  {
    if fr == tr || fc == tc {
      JumpedZero(g, fr, fc, tr, tc);
      JumpedOne(g, fr, fc, tr, tc);
    }
  }
}
