/**
  The game state as a value and the transitions that the board applies to it:
  setting up, flipping, moving, the forced first flip and the win check.
 */
module Game {
  import opened Options
  import opened Pieces
  import opened Rules

  datatype Status = Ongoing | RedWin | BlackWin

  /**
    The whole state of a game: the cells, whose turn it is (None before the first
    flip), the colours bound to the human and the computer player, whether the
    first flip is still to come, and the outcome.
   */
  datatype State = State(
    grid: Grid,
    current: Option<Color>,
    player: Option<Color>,
    ai: Option<Color>,
    firstMove: bool,
    status: Status)

  predicate FaceDown(p: Option<PieceState>) {
    p.Some? && !p.value.faceUp
  }

  /** The two phases of a game: before the first flip every cell holds a face-down
      piece and nobody has a colour; afterwards both sides have opposite colours
      and someone is to move. */
  predicate Consistent(s: State) {
    (s.firstMove ==>
       s.current.None? && s.player.None? && s.ai.None? &&
       forall i :: 0 <= i < ROWS * COLS ==> FaceDown(s.grid[i]))
    && (!s.firstMove ==>
       s.current.Some? && s.player.Some? && s.ai.Some? && s.player != s.ai)
  }

  /** The colour that moves next: RED after BLACK, BLACK after RED, and RED when unset. */
  function Switch(c: Option<Color>): (next: Color)
    ensures c.Some? ==> next == Opponent(c.value)
    ensures c.None? ==> next == Red
  {
    if c == Some(Red) then Black else Red
  }

  // ---------------------------------------------------------------------------
  // Setup

  /** How many pieces of a rank each colour starts with. */
  function Quota(r: Rank): nat {
    match r
    case General => 1
    case Soldier => 5
    case _ => 2
  }

  function Repeat(p: PieceState, n: nat): (s: seq<PieceState>)
    ensures |s| == n
  {
    if n == 0 then [] else [p] + Repeat(p, n - 1)
  }

  /** The pieces of one colour from rank ordinal k on, each rank Quota times, face down. */
  function ArmyFrom(c: Color, k: nat): (s: seq<PieceState>)
    requires k <= 7
    decreases 7 - k
  {
    if k == 7 then [] else Repeat(PieceState(RankOf(k), c, false), Quota(RankOf(k))) + ArmyFrom(c, k + 1)
  }

  /**
    The 32 pieces in the order the board creates them, before the shuffle: the red
    ones, then the black ones, each by rank in declaration order.
   */
  function StandardSet(): seq<PieceState> {
    ArmyFrom(Red, 0) + ArmyFrom(Black, 0)
  }

  lemma {:induction false} RepeatCount(p: PieceState, n: nat, x: PieceState)
    ensures multiset(Repeat(p, n))[x] == if x == p then n else 0
  {
    if n > 0 {
      RepeatCount(p, n - 1, x);
    }
  }

  lemma {:induction false} ArmyCount(c: Color, k: nat, x: PieceState)
    requires k <= 7
    ensures multiset(ArmyFrom(c, k))[x] ==
      if x.color == c && !x.faceUp && Ordinal(x.rank) >= k then Quota(x.rank) else 0
    decreases 7 - k
  {
    if k < 7 {
      var p := PieceState(RankOf(k), c, false);
      ArmyCount(c, k + 1, x);
      RepeatCount(p, Quota(RankOf(k)), x);
      assert ArmyFrom(c, k) == Repeat(p, Quota(RankOf(k))) + ArmyFrom(c, k + 1);
      assert multiset(ArmyFrom(c, k))[x] == multiset(Repeat(p, Quota(RankOf(k))))[x] + multiset(ArmyFrom(c, k + 1))[x];
      OrdinalRoundTrip(x.rank);
      if x.color == c && !x.faceUp && Ordinal(x.rank) == k {
        assert x == p;
      }
    }
  }

  lemma {:induction false} ArmyLength(c: Color, k: nat)
    requires k <= 7
    ensures |ArmyFrom(c, k)| == [16, 15, 13, 11, 9, 7, 2, 0][k]
    decreases 7 - k
  {
    if k < 7 {
      ArmyLength(c, k + 1);
    }
  }

  function Range(n: nat): (s: seq<int>)
    ensures |s| == n && forall i :: 0 <= i < n ==> s[i] == i
  {
    seq(n, i => i)
  }

  /** A shuffle of the 32 pieces: an ordering of the indices 0 .. 31. */
  predicate IsShuffle(perm: seq<int>) {
    multiset(perm) == multiset(Range(ROWS * COLS))
  }

  /** A shuffle is 32 distinct indices, each in range. */
  lemma ShuffleFacts(perm: seq<int>)
    requires IsShuffle(perm)
    ensures |perm| == ROWS * COLS
    ensures forall i :: 0 <= i < |perm| ==> 0 <= perm[i] < ROWS * COLS
    ensures forall i, j :: 0 <= i < |perm| && 0 <= j < |perm| && i != j ==> perm[i] != perm[j]
    ensures IndicesIn(perm, ROWS * COLS)
  {
    ShuffleInRange(perm);
    forall i, j | 0 <= i < |perm| && 0 <= j < |perm| && i != j
      ensures perm[i] != perm[j]
    {
      if perm[i] == perm[j] {
        if i < j {
          TwiceCounted(perm, i, j);
        } else {
          TwiceCounted(perm, j, i);
        }
        RangeOnce(32, perm[i]);
        assert false;
      }
    }
  }

  lemma ShuffleInRange(perm: seq<int>)
    requires IsShuffle(perm)
    ensures |perm| == ROWS * COLS
    ensures forall i :: 0 <= i < |perm| ==> 0 <= perm[i] < ROWS * COLS
    ensures IndicesIn(perm, ROWS * COLS)
  {
    forall v | v in perm
      ensures 0 <= v < 32
    {
      assert v in multiset(Range(32));
      var i :| 0 <= i < 32 && Range(32)[i] == v;
    }
    assert |perm| == |multiset(perm)| == |multiset(Range(32))| == 32;
    forall i | 0 <= i < |perm|
      ensures 0 <= perm[i] < 32
    {
      assert perm[i] in perm;
    }
  }

  /** A value at two positions occurs at least twice. */
  lemma TwiceCounted(perm: seq<int>, a: nat, b: nat)
    requires a < b < |perm| && perm[a] == perm[b]
    ensures multiset(perm)[perm[a]] >= 2
  {
    var v := perm[a];
    assert perm == perm[..a] + [v] + perm[a + 1..b] + [v] + perm[b + 1..];
  }

  lemma RangeOnce(n: nat, v: int)
    requires 0 <= v < n
    ensures multiset(Range(n))[v] == 1
  {
    var s := Range(n);
    assert s == s[..v] + [v] + s[v + 1..];
    assert v !in s[..v];
    assert v !in s[v + 1..];
  }

  /** Every index in `perm` names an element of a sequence of length n. */
  predicate IndicesIn(perm: seq<int>, n: int) {
    forall v | v in perm :: 0 <= v < n
  }

  /** A slice of valid indices holds valid indices. */
  lemma SliceIndices(perm: seq<int>, n: int, i: nat, j: nat)
    requires IndicesIn(perm, n) && i <= j <= |perm|
    ensures IndicesIn(perm[i..j], n) && IndicesIn(perm[i..], n) && IndicesIn(perm[..j], n)
  {
    assert perm[i..] == perm[i..|perm|] && perm[..j] == perm[0..j];
    forall i', j' | 0 <= i' <= j' <= |perm|
      ensures IndicesIn(perm[i'..j'], n)
    {
      forall v | v in perm[i'..j']
        ensures 0 <= v < n
      {
        var k :| 0 <= k < j' - i' && perm[i'..j'][k] == v;
        assert perm[i' + k] in perm;
      }
    }
  }

  /** The elements of `src` in the order the indices in `perm` name them. */
  function Pick<T>(src: seq<T>, perm: seq<int>): (s: seq<T>)
    requires IndicesIn(perm, |src|)
    ensures |s| == |perm|
    decreases |perm|
  {
    if perm == [] then [] else
      assert perm[0] in perm;
      SliceIndices(perm, |src|, 1, |perm|);
      [src[perm[0]]] + Pick(src, perm[1..])
  }

  /** The i-th picked element is the one the i-th index names. */
  lemma {:induction false} PickAt<T>(src: seq<T>, perm: seq<int>, i: nat)
    requires IndicesIn(perm, |src|) && i < |perm|
    ensures perm[i] in perm && Pick(src, perm)[i] == src[perm[i]]
    decreases i
  {
    if i > 0 {
      SliceIndices(perm, |src|, 1, |perm|);
      PickAt(src, perm[1..], i - 1);
    }
  }

  /** The 32 pieces after the shuffle. */
  function Shuffled(perm: seq<int>): (s: seq<PieceState>)
    requires IsShuffle(perm)
    ensures |s| == ROWS * COLS
  {
    ShuffleFacts(perm);
    StandardSize();
    Pick(StandardSet(), perm)
  }

  /** The board right after setup: the shuffled pieces, row by row. */
  function Deal(perm: seq<int>): Grid
    requires IsShuffle(perm)
  {
    var pieces := Shuffled(perm);
    seq(ROWS * COLS, i requires 0 <= i < ROWS * COLS => Some(pieces[i]))
  }

  function InitialState(perm: seq<int>): State
    requires IsShuffle(perm)
  {
    State(Deal(perm), None, None, None, true, Ongoing)
  }

  lemma {:induction false} PickConcat<T>(src: seq<T>, a: seq<int>, b: seq<int>)
    requires IndicesIn(a, |src|) && IndicesIn(b, |src|)
    ensures IndicesIn(a + b, |src|)
    ensures Pick(src, a + b) == Pick(src, a) + Pick(src, b)
    decreases |a|
  {
    forall v | v in a + b
      ensures 0 <= v < |src|
    {
      assert v in a || v in b;
    }
    if a == [] {
      assert a + b == b;
    } else {
      assert (a + b)[0] == a[0] && (a + b)[1..] == a[1..] + b;
      assert a[0] in a;
      SliceIndices(a, |src|, 1, |a|);
      PickConcat(src, a[1..], b);
      calc {
        Pick(src, a + b);
        [src[a[0]]] + Pick(src, a[1..] + b);
        [src[a[0]]] + (Pick(src, a[1..]) + Pick(src, b));
        ([src[a[0]]] + Pick(src, a[1..])) + Pick(src, b);
      }
    }
  }

  /** Taking one occurrence of x out of two sequences with equal multisets. */
  lemma RemoveOne(a: seq<int>, b: seq<int>, k: nat)
    requires |a| > 0 && k < |b| && b[k] == a[0]
    requires multiset(a) == multiset(b)
    ensures multiset(a[1..]) == multiset(b[..k] + b[k + 1..])
  {
    var x, rest := a[0], b[..k] + b[k + 1..];
    assert b == b[..k] + [x] + b[k + 1..];
    assert a == [x] + a[1..];
    assert multiset(b) == multiset(rest) + multiset{x};
    assert multiset(a) == multiset(a[1..]) + multiset{x};
    forall y
      ensures multiset(a[1..])[y] == multiset(rest)[y]
    {
      assert multiset(a)[y] == multiset(b)[y];
    }
  }

  /** Picking all but the k-th index leaves out exactly the k-th picked element. */
  lemma PickWithout<T>(src: seq<T>, b: seq<int>, k: nat)
    requires IndicesIn(b, |src|) && k < |b|
    ensures b[k] in b && IndicesIn(b[..k] + b[k + 1..], |src|)
    ensures multiset(Pick(src, b)) == multiset(Pick(src, b[..k] + b[k + 1..])) + multiset{src[b[k]]}
  {
    var x, pre, post := b[k], b[..k], b[k + 1..];
    assert x in b;
    SliceIndices(b, |src|, 0, k);
    SliceIndices(b, |src|, k + 1, |b|);
    assert b == pre + ([x] + post);
    PickConcat(src, [x], post);
    PickConcat(src, pre, [x] + post);
    PickConcat(src, pre, post);
    var p1, p2, y := Pick(src, pre), Pick(src, post), src[x];
    assert Pick(src, [x]) == [y];
    assert Pick(src, b) == p1 + ([y] + p2);
    assert multiset(Pick(src, b)) == multiset(p1) + (multiset{y} + multiset(p2));
    assert multiset(Pick(src, pre + post)) == multiset(p1) + multiset(p2);
  }

  /** Picking every index in order gives the source back. */
  lemma PickIdentity<T>(src: seq<T>)
    ensures IndicesIn(Range(|src|), |src|)
    ensures Pick(src, Range(|src|)) == src
  {
    var r := Range(|src|);
    forall v | v in r
      ensures 0 <= v < |src|
    {
      var i :| 0 <= i < |r| && r[i] == v;
    }
    forall i | 0 <= i < |src|
      ensures Pick(src, r)[i] == src[i]
    {
      PickAt(src, r, i);
    }
  }

  /** Reordering the indices reorders the elements: the same multiset comes out. */
  lemma {:induction false} PickMultiset<T>(src: seq<T>, a: seq<int>, b: seq<int>)
    requires IndicesIn(a, |src|) && multiset(a) == multiset(b)
    ensures IndicesIn(b, |src|)
    ensures multiset(Pick(src, a)) == multiset(Pick(src, b))
    decreases |a|
  {
    SameIndices(a, b, |src|);
    if a == [] {
      assert |b| == |multiset(b)| == 0;
    } else {
      var x := a[0];
      assert x in multiset(b);
      var k :| 0 <= k < |b| && b[k] == x;
      var a', b' := a[1..], b[..k] + b[k + 1..];
      RemoveOne(a, b, k);
      SliceIndices(a, |src|, 1, |a|);
      PickMultiset(src, a', b');
      PickWithout(src, b, k);
      calc {
        multiset(Pick(src, a));
        { assert Pick(src, a) == [src[x]] + Pick(src, a'); }
        multiset{src[x]} + multiset(Pick(src, a'));
        multiset(Pick(src, b')) + multiset{src[x]};
        multiset(Pick(src, b));
      }
    }
  }

  /** Index lists with the same multiset reach the same elements. */
  lemma SameIndices(a: seq<int>, b: seq<int>, n: nat)
    requires IndicesIn(a, n) && multiset(a) == multiset(b)
    ensures IndicesIn(b, n)
  {
    forall v | v in b
      ensures 0 <= v < n
    {
      assert v in multiset(b);
      assert v in multiset(a);
      assert v in a;
    }
  }

  /** Whatever the shuffle, the pieces dealt are exactly the 32 of the standard set. */
  lemma ShuffledIsStandard(perm: seq<int>)
    requires IsShuffle(perm)
    ensures multiset(Shuffled(perm)) == multiset(StandardSet())
  {
    ShuffleFacts(perm);
    StandardSize();
    PickShuffle(StandardSet(), perm);
  }

  /** A shuffle of the indices of any 32 elements keeps their multiset. */
  lemma PickShuffle<T>(src: seq<T>, perm: seq<int>)
    requires IsShuffle(perm) && |src| == ROWS * COLS
    ensures IndicesIn(perm, |src|)
    ensures multiset(Pick(src, perm)) == multiset(src)
  {
    ShuffleFacts(perm);
    PickMultiset(src, perm, Range(32));
    PickIdentity(src);
  }

  /**
    After setup every cell holds a face-down piece of the standard set, in the
    order of the shuffle.
   */
  lemma DealComposition(perm: seq<int>)
    requires IsShuffle(perm)
    ensures forall i :: 0 <= i < ROWS * COLS ==> FaceDown(Deal(perm)[i])
    ensures forall i :: 0 <= i < ROWS * COLS ==> Deal(perm)[i] == Some(Shuffled(perm)[i])
  {
    forall i | 0 <= i < ROWS * COLS
      ensures !Shuffled(perm)[i].faceUp
    {
      ShuffledFaceDown(perm, i);
    }
  }

  lemma ShuffledFaceDown(perm: seq<int>, i: nat)
    requires IsShuffle(perm) && i < ROWS * COLS
    ensures !Shuffled(perm)[i].faceUp
  {
    var x := Shuffled(perm)[i];
    assert x in multiset(Shuffled(perm));
    ShuffledIsStandard(perm);
    StandardCounts(x);
  }

  /** The cell i of the deal holds the standard piece the shuffle puts i-th. */
  lemma DealAt(perm: seq<int>, i: nat)
    requires IsShuffle(perm) && i < ROWS * COLS
    ensures |perm| == |StandardSet()| == ROWS * COLS && 0 <= perm[i] < ROWS * COLS
    ensures Deal(perm)[i] == Some(StandardSet()[perm[i]])
  {
    ShuffleFacts(perm);
    StandardSize();
    PickAt(StandardSet(), perm, i);
  }

  /** A grid whose cell i holds the standard piece the shuffle puts i-th is the deal. */
  lemma DealIs(perm: seq<int>, g: Grid)
    requires IsShuffle(perm) && |perm| == |g| == ROWS * COLS
    requires forall i :: 0 <= i < ROWS * COLS ==>
      0 <= perm[i] < |StandardSet()| && g[i] == Some(StandardSet()[perm[i]])
    ensures g == Deal(perm)
  {
    forall i | 0 <= i < ROWS * COLS
      ensures g[i] == Deal(perm)[i]
    {
      DealAt(perm, i);
    }
  }

  /**
    Each colour starts with 16 pieces, all face down: 1 General, 5 Soldiers and 2
    of every other rank.
   */
  lemma StandardCounts(x: PieceState)
    ensures multiset(StandardSet())[x] == if x.faceUp then 0 else Quota(x.rank)
  {
    ArmyCount(Red, 0, x);
    ArmyCount(Black, 0, x);
    assert multiset(StandardSet()) == multiset(ArmyFrom(Red, 0)) + multiset(ArmyFrom(Black, 0));
  }

  /** Every piece of the standard set starts face down. */
  lemma StandardFaceDown()
    ensures forall j :: 0 <= j < |StandardSet()| ==> !StandardSet()[j].faceUp
  {
    forall j | 0 <= j < |StandardSet()|
      ensures !StandardSet()[j].faceUp
    {
      var x := StandardSet()[j];
      assert x in multiset(StandardSet());
      StandardCounts(x);
    }
  }

  lemma StandardSize()
    ensures |StandardSet()| == ROWS * COLS
    ensures Quota(General) + Quota(Advisor) + Quota(Elephant) + Quota(Chariot)
          + Quota(Horse) + Quota(Soldier) + Quota(Cannon) == 16
  {
    ArmyLength(Red, 0);
    ArmyLength(Black, 0);
  }

  /** The state right after setup. */
  lemma InitialStateFacts(perm: seq<int>)
    requires IsShuffle(perm)
    ensures Consistent(InitialState(perm))
    ensures InitialState(perm).current.None? && InitialState(perm).firstMove
    ensures InitialState(perm).status == Ongoing
  {
    DealComposition(perm);
  }

  // ---------------------------------------------------------------------------
  // The win check

  predicate AnyFaceDown(g: Grid) {
    exists i :: 0 <= i < ROWS * COLS && FaceDown(g[i])
  }

  predicate HasPieces(g: Grid, color: Color) {
    exists i :: 0 <= i < ROWS * COLS && g[i].Some? && g[i].value.color == color
  }

  predicate FaceUpOf(g: Grid, r: int, c: int, color: Color) {
    At(g, r, c).Some? && At(g, r, c).value.faceUp && At(g, r, c).value.color == color
  }

  /**
    Whether `color` is stuck: no face-down piece is left anywhere on the board, and
    either `color` has no piece left or none of its face-up pieces has a legal
    destination with `color` to move.
   */
  predicate NoMoves(g: Grid, color: Color) {
    !AnyFaceDown(g) &&
    (!HasPieces(g, color) ||
     forall r, c, tr, tc | 0 <= r < ROWS && 0 <= c < COLS && 0 <= tr < ROWS && 0 <= tc < COLS ::
       FaceUpOf(g, r, c, color) ==> !ValidMove(g, Some(color), r, c, tr, tc))
  }

  /**
    A colour is stuck exactly when no piece of either colour is face down and no
    legal move exists for it. A face-down piece of either colour keeps both sides
    alive; a colour with no piece left is stuck once nothing is face down.
   */
  lemma NoMovesMeaning(g: Grid, color: Color)
    ensures NoMoves(g, color) <==>
      !AnyFaceDown(g) && forall r, c, tr, tc :: !ValidMove(g, Some(color), r, c, tr, tc)
    ensures AnyFaceDown(g) ==> !NoMoves(g, color)
    ensures !AnyFaceDown(g) && !HasPieces(g, color) ==> NoMoves(g, color)
  {
    if !AnyFaceDown(g) && !NoMoves(g, color) {
      var r, c, tr, tc :| InBoard(r, c) && InBoard(tr, tc) && FaceUpOf(g, r, c, color) &&
        ValidMove(g, Some(color), r, c, tr, tc);
    }
    if !AnyFaceDown(g) && exists r, c, tr, tc :: ValidMove(g, Some(color), r, c, tr, tc) {
      var r, c, tr, tc :| ValidMove(g, Some(color), r, c, tr, tc);
      ValidMoveShape(g, Some(color), r, c, tr, tc);
      assert g[r * COLS + c].Some? && g[r * COLS + c].value.color == color;
      assert HasPieces(g, color);
      assert FaceUpOf(g, r, c, color);
    }
  }

  /**
    The outcome after a flip or a move: RED is tested first, so when both colours
    are stuck BLACK wins; when neither is, the old outcome stays. ONGOING is never
    written over another outcome.
   */
  function CheckWin(g: Grid, status: Status): (s: Status)
    ensures NoMoves(g, Red) ==> s == BlackWin
    ensures !NoMoves(g, Red) && NoMoves(g, Black) ==> s == RedWin
    ensures !NoMoves(g, Red) && !NoMoves(g, Black) ==> s == status
    ensures s == Ongoing ==> status == Ongoing
  {
    if NoMoves(g, Red) then BlackWin
    else if NoMoves(g, Black) then RedWin
    else status
  }

  // ---------------------------------------------------------------------------
  // Flip, move and the forced first flip

  /**
    Flipping (r, c): nothing happens unless the cell holds a face-down piece. That
    piece turns face up; on the first flip of the game the human player takes its
    colour and the computer the other; then the turn passes and the win check runs.
   */
  function FlipSpec(s: State, r: int, c: int): State {
    match At(s.grid, r, c)
    case None => s
    case Some(p) =>
      if p.faceUp then s
      else
        var g := s.grid[r * COLS + c := Some(p.(faceUp := true))];
        var bound :=
          if s.firstMove
          then s.(current := Some(p.color), player := Some(p.color), ai := Some(Opponent(p.color)), firstMove := false)
          else s;
        bound.(grid := g, current := Some(Switch(bound.current)), status := CheckWin(g, s.status))
  }

  /**
    Moving (fr, fc) to (tr, tc): rejected with no change unless it is a valid move;
    otherwise the piece lands on the target (capturing what was there), the source
    empties, the turn passes and the win check runs.
   */
  function MoveSpec(s: State, fr: int, fc: int, tr: int, tc: int): (State, bool) {
    if !ValidMove(s.grid, s.current, fr, fc, tr, tc) then (s, false)
    else
      ValidMoveShape(s.grid, s.current, fr, fc, tr, tc);
      var g := Moved(s.grid, fr * COLS + fc, tr * COLS + tc);
      (s.(grid := g, current := Some(Switch(s.current)), status := CheckWin(g, s.status)), true)
  }

  /** The board after the piece on cell `from` goes to cell `to`. */
  function Moved(g: Grid, from: nat, to: nat): Grid
    requires from < ROWS * COLS && to < ROWS * COLS
  {
    g[to := g[from]][from := None]
  }

  /**
    The computer's forced first flip of cell `choice` (row-major index): only while
    the first flip is still to come. The computer takes the flipped piece's colour,
    the human the other, and the turn passes to the human. No win check follows.
   */
  function ForceFirst(s: State, choice: nat): State
    requires Consistent(s) && choice < ROWS * COLS
  {
    if !s.firstMove then s
    else
      assert FaceDown(s.grid[choice]);
      var p := s.grid[choice].value;
      s.(grid := s.grid[choice := Some(p.(faceUp := true))],
         current := Some(Switch(Some(p.color))),
         ai := Some(p.color),
         player := Some(Opponent(p.color)),
         firstMove := false)
  }

  // ---------------------------------------------------------------------------
  // Properties of the transitions

  /** The number of occupied cells. */
  function Population(g: seq<Option<PieceState>>): nat {
    if g == [] then 0 else (if g[0].Some? then 1 else 0) + Population(g[1..])
  }

  lemma {:induction false} PopulationUpdate(g: seq<Option<PieceState>>, i: nat, v: Option<PieceState>)
    requires i < |g|
    ensures Population(g[i := v]) + (if g[i].Some? then 1 else 0) == Population(g) + (if v.Some? then 1 else 0)
  {
    if i > 0 {
      PopulationUpdate(g[1..], i - 1, v);
      assert g[i := v][1..] == g[1..][i - 1 := v];
    }
  }

  /**
    Moving between two different cells puts the moving piece on the target, empties
    the source and leaves every other cell alone; the number of pieces drops by one
    when the target was occupied (a capture) and stays the same otherwise.
   */
  lemma MovedCells(g: Grid, fr: int, fc: int, tr: int, tc: int)
    requires InBoard(fr, fc) && InBoard(tr, tc) && (fr, fc) != (tr, tc)
    ensures var h := Moved(g, fr * COLS + fc, tr * COLS + tc);
      At(h, tr, tc) == At(g, fr, fc) && At(h, fr, fc).None? &&
      (forall r, c :: (r, c) != (fr, fc) && (r, c) != (tr, tc) ==> At(h, r, c) == At(g, r, c)) &&
      Population(h) == Population(g) - (if At(g, tr, tc).Some? then 1 else 0)
  {
    var from, to := fr * COLS + fc, tr * COLS + tc;
    assert from != to;
    var h := Moved(g, from, to);
    var g1 := g[to := g[from]];
    PopulationUpdate(g, to, g[from]);
    PopulationUpdate(g1, from, None);
    forall r, c | (r, c) != (fr, fc) && (r, c) != (tr, tc)
      ensures At(h, r, c) == At(g, r, c)
    {
      if InBoard(r, c) {
        assert r * COLS + c != from && r * COLS + c != to;
      }
    }
  }

  /**
    A rejected move changes nothing. An accepted move changes the board as
    MovedCells describes, with a piece leaving the source, and passes the turn; the
    number of pieces on the board drops by one on a capture and stays the same
    otherwise.
   */
  lemma MoveEffect(s: State, fr: int, fc: int, tr: int, tc: int)
    ensures !ValidMove(s.grid, s.current, fr, fc, tr, tc) ==> MoveSpec(s, fr, fc, tr, tc) == (s, false)
    ensures ValidMove(s.grid, s.current, fr, fc, tr, tc) ==>
      var (t, ok) := MoveSpec(s, fr, fc, tr, tc);
      ok && InBoard(fr, fc) && InBoard(tr, tc) &&
      t == s.(grid := t.grid, current := t.current, status := CheckWin(t.grid, s.status)) &&
      t.grid == Moved(s.grid, fr * COLS + fc, tr * COLS + tc) &&
      At(s.grid, fr, fc).Some? &&
      t.current == Some(Switch(s.current)) && t.current != s.current &&
      Population(t.grid) == Population(s.grid) - (if At(s.grid, tr, tc).Some? then 1 else 0)
  {
    if ValidMove(s.grid, s.current, fr, fc, tr, tc) {
      ValidMoveShape(s.grid, s.current, fr, fc, tr, tc);
      MovedCells(s.grid, fr, fc, tr, tc);
    }
  }

  /**
    A flip does nothing on an empty, face-up or off-board cell; otherwise it turns
    exactly that piece face up, keeping its rank and colour, and nothing else on
    the board changes.
   */
  lemma FlipEffect(s: State, r: int, c: int)
    ensures !FaceDown(At(s.grid, r, c)) ==> FlipSpec(s, r, c) == s
    ensures FaceDown(At(s.grid, r, c)) ==>
      var t := FlipSpec(s, r, c);
      At(t.grid, r, c) == Some(At(s.grid, r, c).value.(faceUp := true)) &&
      (forall r', c' :: (r', c') != (r, c) ==> At(t.grid, r', c') == At(s.grid, r', c'))
    ensures FaceDown(At(s.grid, r, c)) ==>
      var t, p := FlipSpec(s, r, c), At(s.grid, r, c).value;
      t.grid == s.grid[r * COLS + c := Some(p.(faceUp := true))] &&
      (s.firstMove ==>
        t == s.(grid := t.grid, current := Some(Switch(Some(p.color))), player := Some(p.color),
                ai := Some(Opponent(p.color)), firstMove := false, status := CheckWin(t.grid, s.status))) &&
      (!s.firstMove ==>
        t == s.(grid := t.grid, current := Some(Switch(s.current)), status := CheckWin(t.grid, s.status)))
  {
    if FaceDown(At(s.grid, r, c)) {
      var t := FlipSpec(s, r, c);
      forall r', c' | (r', c') != (r, c)
        ensures At(t.grid, r', c') == At(s.grid, r', c')
      {
        if InBoard(r', c') {
          assert r' * COLS + c' != r * COLS + c;
        }
      }
    }
  }

  /**
    The first flip binds the colours: the human gets the flipped piece's colour,
    the computer the other, the first-move phase ends, and the turn goes to the
    colour opposite the flipped piece.
   */
  lemma FirstFlipBindsColors(s: State, r: int, c: int)
    requires Consistent(s) && s.firstMove && InBoard(r, c)
    ensures var t := FlipSpec(s, r, c);
      var p := At(s.grid, r, c).value;
      !t.firstMove && t.player == Some(p.color) && t.ai == Some(Opponent(p.color)) &&
      t.current == Some(Opponent(p.color)) && Consistent(t)
  {
    assert FaceDown(s.grid[r * COLS + c]);
  }

  /**
    The computer's forced first flip binds the colours the other way round: the
    computer gets the flipped piece's colour and the human is to move with the
    other. Once the first flip has happened it does nothing.
   */
  lemma ForceFirstBindsColors(s: State, choice: nat)
    requires Consistent(s) && choice < ROWS * COLS
    ensures !s.firstMove ==> ForceFirst(s, choice) == s
    ensures s.firstMove ==>
      var t := ForceFirst(s, choice);
      var p := s.grid[choice].value;
      !t.firstMove && t.ai == Some(p.color) && t.player == Some(Opponent(p.color)) &&
      t.current == t.player && t.grid[choice] == Some(p.(faceUp := true)) &&
      t.status == s.status && Consistent(t)
  {
  }

  /**
    Once the first flip has happened it never comes back, the colours stay bound,
    and every accepted move or flip hands the turn to the other colour.
   */
  lemma FirstMoveIsFinal(s: State, fr: int, fc: int, tr: int, tc: int, choice: nat)
    requires Consistent(s) && !s.firstMove && choice < ROWS * COLS
    ensures var t := FlipSpec(s, fr, fc);
      !t.firstMove && t.player == s.player && t.ai == s.ai && Consistent(t) &&
      (t != s ==> t.current == Some(Opponent(s.current.value)))
    ensures var (t, ok) := MoveSpec(s, fr, fc, tr, tc);
      !t.firstMove && t.player == s.player && t.ai == s.ai && Consistent(t) &&
      (ok ==> t.current == Some(Opponent(s.current.value)))
    ensures ForceFirst(s, choice) == s
  {
  }

  /** The number of face-down pieces. */
  function Hidden(g: seq<Option<PieceState>>): nat {
    if g == [] then 0 else (if FaceDown(g[0]) then 1 else 0) + Hidden(g[1..])
  }

  lemma {:induction false} HiddenUpdate(g: seq<Option<PieceState>>, i: nat, v: Option<PieceState>)
    requires i < |g|
    ensures Hidden(g[i := v]) + (if FaceDown(g[i]) then 1 else 0) == Hidden(g) + (if FaceDown(v) then 1 else 0)
  {
    if i > 0 {
      HiddenUpdate(g[1..], i - 1, v);
      assert g[i := v][1..] == g[1..][i - 1 := v];
    }
  }

  /**
    Nothing ever turns a piece face down again: a flip hides one piece fewer when it
    turns one up and none otherwise, the forced first flip likewise, and a move
    carries only face-up pieces, so the number of face-down pieces stays the same.
   */
  lemma FaceUpIsFinal(s: State, fr: int, fc: int, tr: int, tc: int, choice: nat)
    requires Consistent(s) && choice < ROWS * COLS
    ensures Hidden(FlipSpec(s, fr, fc).grid) == Hidden(s.grid) - (if FaceDown(At(s.grid, fr, fc)) then 1 else 0)
    ensures Hidden(MoveSpec(s, fr, fc, tr, tc).0.grid) == Hidden(s.grid)
    ensures Hidden(ForceFirst(s, choice).grid) == Hidden(s.grid) - (if s.firstMove then 1 else 0)
  {
    if FaceDown(At(s.grid, fr, fc)) {
      var p := At(s.grid, fr, fc).value;
      HiddenUpdate(s.grid, fr * COLS + fc, Some(p.(faceUp := true)));
    }
    if ValidMove(s.grid, s.current, fr, fc, tr, tc) {
      ValidMoveShape(s.grid, s.current, fr, fc, tr, tc);
      var from, to := fr * COLS + fc, tr * COLS + tc;
      var g1 := s.grid[to := s.grid[from]];
      HiddenUpdate(s.grid, to, s.grid[from]);
      HiddenUpdate(g1, from, None);
    }
    if s.firstMove {
      assert FaceDown(s.grid[choice]);
      HiddenUpdate(s.grid, choice, Some(s.grid[choice].value.(faceUp := true)));
    }
  }

  /** No move is possible before the first flip, and every transition keeps the
      state consistent. */
  lemma TransitionsKeepConsistent(s: State, fr: int, fc: int, tr: int, tc: int)
    requires Consistent(s)
    ensures s.firstMove ==> MoveSpec(s, fr, fc, tr, tc) == (s, false)
    ensures Consistent(FlipSpec(s, fr, fc))
    ensures Consistent(MoveSpec(s, fr, fc, tr, tc).0)
  {
    if s.firstMove && InBoard(fr, fc) {
      FirstFlipBindsColors(s, fr, fc);
    }
  }
}
