/**
  A Banqi piece: an immutable rank and colour and a face-up flag that only
  ever goes from false to true.
 */
module Pieces {

  /** Ranks in declaration order; the order is the capture power (General strongest). */
  datatype Rank = General | Advisor | Elephant | Chariot | Horse | Soldier | Cannon

  datatype Color = Red | Black

  /** The position of a rank in the declaration order (the Java enum ordinal). */
  function Ordinal(r: Rank): (n: nat)
    ensures n <= 6
  {
    match r
    case General => 0
    case Advisor => 1
    case Elephant => 2
    case Chariot => 3
    case Horse => 4
    case Soldier => 5
    case Cannon => 6
  }

  /** The rank with a given ordinal: the inverse of Ordinal. */
  function RankOf(n: nat): (r: Rank)
    requires n <= 6
    ensures Ordinal(r) == n
  {
    [General, Advisor, Elephant, Chariot, Horse, Soldier, Cannon][n]
  }

  /** Ordinal is a bijection between the seven ranks and 0..6. */
  lemma OrdinalRoundTrip(r: Rank)
    ensures RankOf(Ordinal(r)) == r
  {
  }

  /** The other colour. */
  function Opponent(c: Color): (o: Color)
    ensures o != c
  {
    if c == Red then Black else Red
  }

  /** The value of a piece: what a cell of the board holds. */
  datatype PieceState = PieceState(rank: Rank, color: Color, faceUp: bool)

  class Piece {
    const rank: Rank
    const color: Color
    var faceUp: bool

    /** A new piece carries the given rank and colour and lies face down. */
    constructor (rank: Rank, color: Color)
      ensures this.rank == rank && this.color == color && !faceUp
    {
      this.rank := rank;
      this.color := color;
      faceUp := false;
    }

    /** The piece as a value. */
    function Value(): PieceState
      reads this
    {
      PieceState(rank, color, faceUp)
    }

    /** Turns the piece face up; a second call changes nothing. */
    method Flip()
      modifies this
      ensures faceUp
    {
      faceUp := true;
    }
  }
}
