/** Values shared by the board, the players and the game: positions and
    directions on the board, tile kinds, moves and placement results. */
module MoveTypes {

  datatype Option<T> = None | Some(value: T)

  /** The letter a blank tile carries while it sits in a hand. */
  const BLANK_LETTER: char := '?'

  /** Direction of play. NoDirection is the direction of a default-constructed
      move; every operation that is not explicitly about DOWN treats it as ACROSS. */
  datatype Direction = Across | Down | NoDirection

  /** Positions are signed here so that "one before row 0" is a position that
      simply fails the bounds check, as the unsigned wrap-around does in the source. */
  datatype Position = Position(row: int, column: int)

  /** The coordinate that changes when moving along d. */
  function Along(p: Position, d: Direction): int {
    if d == Down then p.row else p.column
  }

  /** The coordinate that stays fixed when moving along d. */
  function Fixed(p: Position, d: Direction): int {
    if d == Down then p.column else p.row
  }

  /** The axis perpendicular to d. */
  function Perp(d: Direction): Direction {
    if d == Down then Across else Down
  }

  /** Position::translate: moves a position by a signed distance along d. */
  function Translate(p: Position, d: Direction, distance: int): (q: Position)
    ensures Along(q, d) == Along(p, d) + distance
    ensures Fixed(q, d) == Fixed(p, d)
  {
    if d == Down then Position(p.row + distance, p.column) else Position(p.row, p.column + distance)
  }

  /** A position is determined by its two coordinates relative to a direction. */
  lemma PositionByCoordinates(p: Position, q: Position, d: Direction)
    requires Along(p, d) == Along(q, d) && Fixed(p, d) == Fixed(q, d)
    ensures p == q
  {
  }

  /** A tile kind: its letter and its point value. A blank standing for a
      letter is the tile kind of that letter with the blank's points. */
  datatype TileKind = TileKind(letter: char, points: nat)

  datatype MoveKind = Place | Exchange | Pass

  /** A move: the tiles to place (in order of play), the position of the
      first square the move touches, and its direction. */
  datatype Move = Move(kind: MoveKind, tiles: seq<TileKind>, row: int, column: int, direction: Direction)
  {
    function Start(): Position { Position(row, column) }
  }

  /** The default-constructed move, which passes. */
  const PassMove: Move := Move(Pass, [], 0, 0, NoDirection)

  function PlaceMove(tiles: seq<TileKind>, row: int, column: int, direction: Direction): Move {
    Move(Place, tiles, row, column, direction)
  }

  function ExchangeMove(tiles: seq<TileKind>): Move {
    Move(Exchange, tiles, 0, 0, NoDirection)
  }

  /** The outcome of test_place / place: either an error message, or the
      words formed (the main word first) and the points scored. */
  datatype PlaceResult = Invalid(error: string) | Valid(words: seq<string>, points: int)
  {
    /** An invalid result carries no words. */
    function Words(): seq<string> {
      if Valid? then words else []
    }

    /** An invalid result is worth no points. */
    function Points(): int {
      if Valid? then points else 0
    }
  }
}
