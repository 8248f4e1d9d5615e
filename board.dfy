/** The board: a rectangular grid of squares with letter and word multipliers
    and a start square; the validator and scorer of a move (test_place), the
    commit of a validated move (place), and the anchors the computer player
    searches from (get_anchors). */
module Board {
  import opened MoveTypes

  /** BoardSquare: its letter and word multipliers and the tile on it, if any. */
  datatype Square = Square(letterMultiplier: int, wordMultiplier: int, tile: Option<TileKind>)

  ghost predicate SquareOk(s: Square) {
    1 <= s.letterMultiplier <= 3 && 1 <= s.wordMultiplier <= 3
  }

  /** The square a board file describes with one character: '.' plain, '2'/'3'
      letter multipliers, 'd' double word, anything else triple word. */
  function SquareFromCode(code: char): (s: Square)
    ensures s.tile == None && SquareOk(s)
    ensures s.letterMultiplier == 1 || s.wordMultiplier == 1
    ensures (s.letterMultiplier == 1 && s.wordMultiplier == 1) <==> code == '.'
    ensures s.letterMultiplier > 1 <==> code == '2' || code == '3'
    ensures s.wordMultiplier == 3 <==> code !in {'.', '2', '3', 'd'}
  {
    if code == '.' then Square(1, 1, None)
    else if code == '2' then Square(2, 1, None)
    else if code == '3' then Square(3, 1, None)
    else if code == 'd' then Square(1, 2, None)
    else Square(1, 3, None)
  }

  /** BoardSquare::get_points, which is not part of this model: the tile's
      points times the square's letter multiplier (0 for an empty square). */
  function SquarePoints(s: Square): int {
    if s.tile.Some? then s.tile.value.points * s.letterMultiplier else 0
  }

  /** Board::Anchor: an empty square to search from, a direction, and how many
      letters may be prepended before it. */
  datatype Anchor = Anchor(position: Position, direction: Direction, limit: nat)

  /** The error test_place reports when a move runs off the board; the DOWN and
      ACROSS branches of the source spell it differently. */
  function OutOfBoundsError(d: Direction): string {
    if d == Down then "ERROR: out of bounds" else "ERROR: OUT OF BOUNDS"
  }

  /** The running totals of the main-word walk of a multi-tile move. */
  datatype RunAcc = RunAcc(
    points: int,          // main-word points before the word multiplier
    wordMultiplier: int,  // product of the word multipliers of newly covered squares
    letters: string,      // main word so far
    crossWords: seq<string>,
    crossPoints: int,
    touched: bool,        // validPlacement in the source
    atStart: bool)        // playedAtStart in the source

  /** The contents of a board: its size, its start square and its squares,
      row by row. */
  datatype Grid = Grid(rows: nat, columns: nat, start: Position, squares: seq<seq<Square>>)
  {
    /** rows rows of columns squares each. */
    predicate Shaped() {
      |squares| == rows && forall r :: 0 <= r < rows ==> |squares[r]| == columns
    }

    /** Every square's multipliers are 1, 2 or 3. */
    ghost predicate Valid() {
      forall r, c :: 0 <= r < |squares| && 0 <= c < |squares[r]| ==> SquareOk(squares[r][c])
    }

    /** is_in_bounds */
    predicate InBounds(p: Position) {
      0 <= p.row < rows && 0 <= p.column < columns
    }

    /** The number of squares along d. */
    function Bound(d: Direction): int {
      if d == Down then rows else columns
    }

    /** The square at p. On a shaped grid every in-bounds position is a
        square of the grid; anything else reads as a plain empty square. */
    function At(p: Position): Square
    {
      if 0 <= p.row < |squares| && 0 <= p.column < |squares[p.row]| then squares[p.row][p.column]
      else Square(1, 1, None)
    }

    /** in_bounds_and_has_tile */
    predicate HasTile(p: Position)
    {
      InBounds(p) && At(p).tile.Some?
    }

    /** letter_at: only asked of an occupied square. */
    function LetterAt(p: Position): char
      requires HasTile(p)
    {
      At(p).tile.value.letter
    }

    /** What the scorer credits an already placed tile:
        get_points() divided by the square's letter multiplier. */
    function RawPoints(p: Position): int
      requires Valid() && HasTile(p)
    {
      SquarePoints(At(p)) / At(p).letterMultiplier
    }

    /** A tile already on the board scores its own points: the letter
        multiplier of its square counted once, when it was placed. */
    lemma RawPointsAreTilePoints(p: Position)
      requires Valid() && HasTile(p)
      ensures RawPoints(p) == At(p).tile.value.points
    {
      var s := At(p);
      assert SquareOk(s);
      var m := s.letterMultiplier;
      var t := s.tile.value.points;
      assert t * m == m * t;
      assert (m * t) / m == t;
    }

    /** is_anchor_spot */
    predicate IsAnchorSpot(p: Position)
    {
      if InBounds(p) && !HasTile(p) then
        var left := Position(p.row, p.column - 1);
        var right := Position(p.row, p.column + 1);
        var up := Position(p.row - 1, p.column);
        var down := Position(p.row + 1, p.column);
        if HasTile(left) || HasTile(right) || HasTile(up) || HasTile(down) then true
        else !HasTile(start) && p == start
      else false
    }

    /** The position on p's line along d whose coordinate along d is k. */
    function OnLine(p: Position, d: Direction, k: int): (q: Position)
      ensures Along(q, d) == k && Fixed(q, d) == Fixed(p, d)
    {
      Translate(p, d, k - Along(p, d))
    }

    // ---------------------------------------------------------------------
    // Runs of tiles along a line

    /** The first square of the run of tiles that ends just before p
        (p itself when the square before p is empty or off the board). */
    ghost function RunStart(p: Position, d: Direction): (s: Position)
      ensures Fixed(s, d) == Fixed(p, d) && Along(s, d) <= Along(p, d)
      ensures !HasTile(Translate(s, d, -1))
      decreases Along(p, d)
    {
      var q := Translate(p, d, -1);
      if HasTile(q) then RunStart(q, d) else p
    }

    /** Every square from the first square of the run up to (not including) p holds a tile. */
    lemma {:induction false} RunStartCovers(p: Position, d: Direction, k: int)
      requires Along(RunStart(p, d), d) <= k < Along(p, d)
      ensures HasTile(OnLine(p, d, k))
      decreases Along(p, d)
    {
      var q := Translate(p, d, -1);
      if k < Along(q, d) {
        RunStartCovers(q, d, k);
        assert OnLine(q, d, k) == OnLine(p, d, k);
      } else {
        assert OnLine(p, d, k) == q;
      }
    }

    /** The letters of the run of tiles starting at p, in reading order. */
    ghost function RunLetters(p: Position, d: Direction): string
      decreases Bound(d) - Along(p, d)
    {
      if HasTile(p) then [LetterAt(p)] + RunLetters(Translate(p, d, 1), d) else []
    }

    /** The points the scorer credits the run of tiles starting at p. */
    ghost function RunPoints(p: Position, d: Direction): int
      requires Valid()
      decreases Bound(d) - Along(p, d)
    {
      if HasTile(p) then RawPoints(p) + RunPoints(Translate(p, d, 1), d) else 0
    }

    /** A walk that has read word and points so far and will read the run from
        the tile at p keeps its totals when it reads that tile and moves on. */
    lemma AdvanceOverTile(p: Position, d: Direction, word: string, points: int, letters: string, total: int)
      requires Valid() && HasTile(p)
      requires word + RunLetters(p, d) == letters && points + RunPoints(p, d) == total
      ensures (word + [LetterAt(p)]) + RunLetters(Translate(p, d, 1), d) == letters
      ensures (points + RawPoints(p)) + RunPoints(Translate(p, d, 1), d) == total
    {
      assert RunLetters(p, d) == [LetterAt(p)] + RunLetters(Translate(p, d, 1), d);
      assert (word + [LetterAt(p)]) + RunLetters(Translate(p, d, 1), d) == word + RunLetters(p, d);
    }

    /** The letters-only form of AdvanceOverTile. */
    lemma AdvanceOverLetter(p: Position, d: Direction, word: string, letters: string)
      requires HasTile(p) && word + RunLetters(p, d) == letters
      ensures (word + [LetterAt(p)]) + RunLetters(Translate(p, d, 1), d) == letters
    {
      assert RunLetters(p, d) == [LetterAt(p)] + RunLetters(Translate(p, d, 1), d);
      assert (word + [LetterAt(p)]) + RunLetters(Translate(p, d, 1), d) == word + RunLetters(p, d);
    }

    /** Every square from the first square of the run before the empty square
        q up to q is on the board, and all but q hold tiles. */
    lemma RunReachesSquare(first: Position, q: Position, e: Direction, pos: Position)
      requires InBounds(q) && first == RunStart(q, e)
      requires Fixed(pos, e) == Fixed(q, e) && Along(first, e) <= Along(pos, e) <= Along(q, e)
      ensures pos == q || HasTile(pos)
    {
      if Along(pos, e) == Along(q, e) {
        PositionByCoordinates(pos, q, e);
      } else {
        RunStartCovers(q, e, Along(pos, e));
        assert pos == OnLine(q, e, Along(pos, e));
      }
    }

    // ---------------------------------------------------------------------
    // Specification of test_place

    /** The word formed across the main word at the empty square q when tile
        t is placed there, with its score, or None when neither neighbour
        along e holds a tile. */
    ghost function CrossWord(q: Position, e: Direction, t: TileKind): Option<(string, int)>
      requires Valid() && InBounds(q) && !HasTile(q)
    {
      if HasTile(Translate(q, e, -1)) then Some(CrossWordFrom(q, e, RunStart(q, e), t))
      else if HasTile(Translate(q, e, 1)) then Some(CrossWordFrom(q, e, q, t))
      else None
    }

    /** The cross word through q read from the square first, with t's letter
        in q's place, and its score with q's multipliers. */
    ghost function CrossWordFrom(q: Position, e: Direction, first: Position, t: TileKind): (string, int)
      requires Valid() && InBounds(q)
    {
      var after := Translate(q, e, 1);
      (RunLetters(first, e) + [t.letter] + RunLetters(after, e),
       (RunPoints(first, e) + t.points * At(q).letterMultiplier + RunPoints(after, e)) * At(q).wordMultiplier)
    }

    /** The totals after tile t goes into the empty square p of the main word:
        its points with the letter multiplier, the square's word multiplier,
        its letter, and the cross word it forms, if any. */
    ghost function PlaceTile(acc: RunAcc, p: Position, d: Direction, t: TileKind): RunAcc
      requires Valid() && InBounds(p) && !HasTile(p)
    {
      AddCross(CoverSquare(acc, p, t), CrossWord(p, Perp(d), t))
    }

    /** The totals once tile t covers the square p of the main word. */
    ghost function CoverSquare(acc: RunAcc, p: Position, t: TileKind): RunAcc
    {
      var s := At(p);
      acc.(atStart := acc.atStart || p == start,
           points := acc.points + t.points * s.letterMultiplier,
           wordMultiplier := acc.wordMultiplier * s.wordMultiplier,
           letters := acc.letters + [t.letter])
    }

    /** The totals once the cross word a tile forms, if any, is counted. */
    ghost function AddCross(acc: RunAcc, cross: Option<(string, int)>): RunAcc
    {
      match cross
      case Some(cw) => acc.(crossPoints := acc.crossPoints + cw.1, crossWords := acc.crossWords + [cw.0], touched := true)
      case None => acc
    }

    /** The walk of a multi-tile move from p: existing tiles are read, the
        tiles ts[i..] go into the empty squares in order. None when the board
        ends before every tile is placed; otherwise the totals and the square
        after the last one walked. */
    ghost function MainRun(p: Position, d: Direction, ts: seq<TileKind>, i: nat, acc: RunAcc): Option<(RunAcc, Position)>
      requires Valid() && i <= |ts|
      decreases |ts| - i, Bound(d) - Along(p, d)
    {
      if i == |ts| then Some((acc, p))
      else if !InBounds(p) then None
      else if HasTile(p) then
        MainRun(Translate(p, d, 1), d, ts, i,
                acc.(points := acc.points + RawPoints(p), letters := acc.letters + [LetterAt(p)], touched := true))
      else
        MainRun(Translate(p, d, 1), d, ts, i + 1, PlaceTile(acc, p, d, ts[i]))
    }

    /** The word a single tile t at the empty square p forms along e, read
        from the square first: the letters met along e with t's letter
        appended at the end, scored with p's multipliers. */
    ghost function SideWord(p: Position, e: Direction, first: Position, t: TileKind): PlaceResult
      requires Valid() && InBounds(p)
    {
      var s := At(p);
      var after := Translate(p, e, 1);
      PlaceResult.Valid([RunLetters(first, e) + RunLetters(after, e) + [t.letter]],
                        (RunPoints(first, e) + t.points * s.letterMultiplier + RunPoints(after, e)) * s.wordMultiplier)
    }

    /** test_place for one tile with no tile before or after it along d: the
        word is read across d instead, from the run before p when there is
        one and from p otherwise. The placed letter is appended at the end of
        the word. For an ACROSS move whose only neighbour is the tile below,
        the walk compares columns and so credits the new tile once per row
        from the move's row to the bottom edge. */
    ghost function SingleTileSpec(p: Position, d: Direction, t: TileKind): PlaceResult
      requires Valid() && InBounds(p) && !HasTile(p)
    {
      var e := Perp(d);
      var s := At(p);
      if HasTile(Translate(p, e, -1)) then SideWord(p, e, RunStart(p, e), t)
      else if HasTile(Translate(p, e, 1)) then
        if d == Down then SideWord(p, e, p, t)
        else PlaceResult.Valid([[t.letter]], (rows - p.row) * (t.points * s.letterMultiplier) * s.wordMultiplier)
      else
        Invalid("ERROR: Invalid Placement")
    }

    /** The totals before the walk of a multi-tile move: the run of tiles
        just before p, and whether the move touches a tile so far. */
    ghost function InitialAcc(p: Position, d: Direction, adjacent: bool): RunAcc
      requires Valid()
    {
      var first := RunStart(p, d);
      RunAcc(RunPoints(first, d), 1, RunLetters(first, d), [], 0, adjacent || HasTile(Translate(p, d, -1)), false)
    }

    /** The end of a multi-tile move once the walk is done: the run of tiles
        after the last square walked joins the main word, then the placement
        rules are checked and the score totalled. */
    ghost function FinishMove(walk: Option<(RunAcc, Position)>, d: Direction, firstMove: bool): PlaceResult
      requires Valid()
    {
      match walk
      case None => Invalid(OutOfBoundsError(d))
      case Some(done) =>
        var acc := done.0;
        var end := done.1;
        var touched := acc.touched || HasTile(end);
        if !touched && !firstMove then Invalid("ERROR: Not valid placement")
        else if firstMove && !acc.atStart then Invalid("ERROR: FIRST MOVE MUST BE PLACED AT START")
        else PlaceResult.Valid([acc.letters + RunLetters(end, d)] + acc.crossWords,
                               (acc.points + RunPoints(end, d)) * acc.wordMultiplier + acc.crossPoints)
    }

    /** test_place for every other move: the main word along d and a cross
        word at each newly placed tile. */
    ghost function MultiTileSpec(p: Position, d: Direction, ts: seq<TileKind>, firstMove: bool, adjacent: bool): PlaceResult
      requires Valid() && InBounds(p) && !HasTile(p)
    {
      FinishMove(MainRun(p, d, ts, 0, InitialAcc(p, d, adjacent)), d, firstMove)
    }

    /** Whether any orthogonal neighbour of p holds a tile. */
    predicate NeighbourHasTile(p: Position)
    {
      HasTile(Position(p.row, p.column - 1)) || HasTile(Position(p.row, p.column + 1))
      || HasTile(Position(p.row - 1, p.column)) || HasTile(Position(p.row + 1, p.column))
    }

    /** What test_place returns for a move on this board. */
    ghost function TestPlaceSpec(move: Move): PlaceResult
      requires Valid()
    {
      var p := move.Start();
      var d := move.direction;
      if !InBounds(p) then Invalid(OutOfBoundsError(d))
      else if HasTile(p) then Invalid("ERROR: OVERLAP")
      else
        var firstMove := !HasTile(start);
        var adjacent := !firstMove && NeighbourHasTile(p);
        if |move.tiles| == 1 && !HasTile(Translate(p, d, -1)) && !HasTile(Translate(p, d, 1)) then
          SingleTileSpec(p, d, move.tiles[0])
        else
          MultiTileSpec(p, d, move.tiles, firstMove, adjacent)
    }

    // ---------------------------------------------------------------------
    // test_place

    /** Walks back from p over the run of tiles that ends just before it. */
    method FindRunStart(p: Position, d: Direction) returns (first: Position)
      ensures first == RunStart(p, d)
    {
      var pos := Translate(p, d, -1);
      while HasTile(pos)
        invariant RunStart(Translate(pos, d, 1), d) == RunStart(p, d)
        decreases Along(pos, d) + 1
      {
        var previous := Translate(pos, d, -1);
        assert Translate(previous, d, 1) == pos;
        pos := previous;
      }
      first := Translate(pos, d, 1);
    }

    /** The backward scan of a multi-tile move: the first square of the run of
        tiles before the empty square p, and the points that run scores. */
    method PointsBefore(p: Position, d: Direction) returns (first: Position, points: int)
      requires Valid() && !HasTile(p)
      ensures first == RunStart(p, d) && points == RunPoints(first, d)
    {
      points := 0;
      var pos := Translate(p, d, -1);
      while HasTile(pos)
        invariant RunStart(Translate(pos, d, 1), d) == RunStart(p, d)
        invariant points == RunPoints(Translate(pos, d, 1), d)
        decreases Along(pos, d) + 1
      {
        var previous := Translate(pos, d, -1);
        assert Translate(previous, d, 1) == pos;
        points := points + RawPoints(pos);
        pos := previous;
      }
      first := Translate(pos, d, 1);
    }

    /** The forward walk over the tiles from the run's first square up to the
        empty square p, collecting their letters. */
    method LettersBefore(first: Position, p: Position, d: Direction) returns (letters: string)
      requires InBounds(p) && !HasTile(p) && first == RunStart(p, d)
      ensures letters == RunLetters(first, d)
    {
      ghost var target := RunLetters(first, d);
      letters := [];
      var pos := first;
      assert letters + RunLetters(pos, d) == target;
      while Along(pos, d) != Along(p, d)
        invariant Fixed(pos, d) == Fixed(p, d) && Along(first, d) <= Along(pos, d) <= Along(p, d)
        invariant letters + RunLetters(pos, d) == target
        decreases Along(p, d) - Along(pos, d)
      {
        LetterBeforeStep(first, p, d, pos, letters);
        letters := letters + [LetterAt(pos)];
        pos := Translate(pos, d, 1);
      }
      PositionByCoordinates(pos, p, d);
      assert letters + [] == letters;
    }

    /** One step of LettersBefore: the square reached is a tile of the run,
        and reading it keeps the letters read so far a prefix of the run's. */
    lemma LetterBeforeStep(first: Position, p: Position, d: Direction, pos: Position, letters: string)
      requires InBounds(p) && !HasTile(p) && first == RunStart(p, d)
      requires Fixed(pos, d) == Fixed(p, d) && Along(first, d) <= Along(pos, d) < Along(p, d)
      requires letters + RunLetters(pos, d) == RunLetters(first, d)
      ensures HasTile(pos)
      ensures (letters + [LetterAt(pos)]) + RunLetters(Translate(pos, d, 1), d) == RunLetters(first, d)
    {
      RunReachesSquare(first, p, d, pos);
      AdvanceOverLetter(pos, d, letters, RunLetters(first, d));
    }

    /** The walk along e through the empty square q where tile t is being put,
        starting at the run's first square: the tiles met score their raw
        points and q scores t with q's letter multiplier. With insertLetter,
        t's letter is written at q's place in the word; without, it is left out. */
    method WordThrough(first: Position, q: Position, e: Direction, t: TileKind, insertLetter: bool)
      returns (word: string, points: int)
      requires Valid() && InBounds(q) && !HasTile(q) && first == RunStart(q, e)
      ensures insertLetter ==> word == RunLetters(first, e) + [t.letter] + RunLetters(Translate(q, e, 1), e)
      ensures !insertLetter ==> word == RunLetters(first, e) + RunLetters(Translate(q, e, 1), e)
      ensures points == RunPoints(first, e) + t.points * At(q).letterMultiplier + RunPoints(Translate(q, e, 1), e)
    {
      ghost var before, beforePoints := RunLetters(first, e), RunPoints(first, e);
      ghost var after := Translate(q, e, 1);
      ghost var afterLetters, afterPoints := RunLetters(after, e), RunPoints(after, e);
      var tilePoints := t.points * At(q).letterMultiplier;
      var placed := if insertLetter then [t.letter] else [];
      word := [];
      points := 0;
      var pos := first;
      ghost var passed := false;
      while InBounds(pos)
        invariant Fixed(pos, e) == Fixed(q, e) && Along(first, e) <= Along(pos, e)
        invariant passed <==> Along(pos, e) > Along(q, e)
        invariant !passed ==> word + RunLetters(pos, e) == before && points + RunPoints(pos, e) == beforePoints
        invariant passed ==> word + RunLetters(pos, e) == before + placed + afterLetters
        invariant passed ==> points + RunPoints(pos, e) == beforePoints + tilePoints + afterPoints
        decreases Bound(e) - Along(pos, e)
      {
        if pos == q {
          assert word == before && points == beforePoints;
          assert Translate(pos, e, 1) == after;
          points := points + tilePoints;
          word := word + placed;
          passed := true;
        } else {
          if !passed {
            RunReachesSquare(first, q, e, pos);
          }
          if !HasTile(pos) {
            break;
          }
          if passed {
            AdvanceOverTile(pos, e, word, points, before + placed + afterLetters, beforePoints + tilePoints + afterPoints);
          } else {
            AdvanceOverTile(pos, e, word, points, before, beforePoints);
          }
          points := points + RawPoints(pos);
          word := word + [LetterAt(pos)];
        }
        pos := Translate(pos, e, 1);
      }
      if !passed {
        RunReachesSquare(first, q, e, pos);
      }
      if !insertLetter {
        assert before + placed == before;
      }
    }

    /** The forward walk from p over a run of tiles: its letters and points. */
    method RunFrom(p: Position, d: Direction) returns (letters: string, points: int)
      requires Valid()
      ensures letters == RunLetters(p, d) && points == RunPoints(p, d)
    {
      letters := [];
      points := 0;
      var pos := p;
      while HasTile(pos)
        invariant letters + RunLetters(pos, d) == RunLetters(p, d)
        invariant points + RunPoints(pos, d) == RunPoints(p, d)
        decreases Bound(d) - Along(pos, d)
      {
        AdvanceOverTile(pos, d, letters, points, RunLetters(p, d), RunPoints(p, d));
        points := points + RawPoints(pos);
        letters := letters + [LetterAt(pos)];
        pos := Translate(pos, d, 1);
      }
    }

    /** The cross word through the empty square q, read from the first
        square of the run before it. */
    method CrossWordThrough(q: Position, e: Direction, first: Position, t: TileKind) returns (cross: (string, int))
      requires Valid() && InBounds(q) && !HasTile(q) && first == RunStart(q, e)
      ensures cross == CrossWordFrom(q, e, first, t)
    {
      var word, points := WordThrough(first, q, e, t, true);
      cross := (word, points * At(q).wordMultiplier);
    }

    /** The cross word formed at the empty square q by tile t, looking for a
        tile before q along e first and after it second. */
    method CrossWordAt(q: Position, e: Direction, t: TileKind) returns (cross: Option<(string, int)>)
      requires Valid() && InBounds(q) && !HasTile(q)
      ensures cross == CrossWord(q, e, t)
    {
      if HasTile(Translate(q, e, -1)) {
        var first := FindRunStart(q, e);
        var word := CrossWordThrough(q, e, first, t);
        cross := Some(word);
      } else if HasTile(Translate(q, e, 1)) {
        assert RunStart(q, e) == q;
        var word := CrossWordThrough(q, e, q, t);
        cross := Some(word);
      } else {
        cross := None;
      }
    }

    /** The walk of an ACROSS single-tile move whose only neighbour is the tile
        below it. The walk tells the placed square from the others by its
        column, which never changes along the walk, so each square from p to
        the bottom edge is credited with the new tile and no letter is read. */
    method BelowWalk(p: Position, t: TileKind) returns (points: int)
      requires Valid() && InBounds(p)
      ensures points == (rows - p.row) * (t.points * At(p).letterMultiplier)
    {
      var tilePoints := t.points * At(p).letterMultiplier;
      points := 0;
      var pos := p;
      while InBounds(pos)
        invariant pos.column == p.column && p.row <= pos.row <= rows
        invariant points == (pos.row - p.row) * tilePoints
        decreases rows - pos.row
      {
        points := points + tilePoints;
        pos := Position(pos.row + 1, pos.column);
      }
    }

    /** The word through p along e that a single tile forms, read from the
        start of the run of tiles before p. */
    method SideWordAt(p: Position, e: Direction, first: Position, t: TileKind) returns (r: PlaceResult)
      requires Valid() && InBounds(p) && !HasTile(p) && first == RunStart(p, e)
      ensures r == SideWord(p, e, first, t)
    {
      var word, points := WordThrough(first, p, e, t, false);
      r := PlaceResult.Valid([word + [t.letter]], points * At(p).wordMultiplier);
    }

    /** The one-letter word of an ACROSS move whose only neighbour is below. */
    method BelowWord(p: Position, t: TileKind) returns (r: PlaceResult)
      requires Valid() && InBounds(p)
      ensures r == PlaceResult.Valid([[t.letter]], (rows - p.row) * (t.points * At(p).letterMultiplier) * At(p).wordMultiplier)
    {
      var points := BelowWalk(p, t);
      r := PlaceResult.Valid([[t.letter]], points * At(p).wordMultiplier);
    }

    /** test_place for one tile with no tile before or after it along d. */
    method SingleTile(p: Position, d: Direction, t: TileKind) returns (r: PlaceResult)
      requires Valid() && InBounds(p) && !HasTile(p)
      ensures r == SingleTileSpec(p, d, t)
    {
      var e := Perp(d);
      if HasTile(Translate(p, e, -1)) {
        var first := FindRunStart(p, e);
        r := SideWordAt(p, e, first, t);
      } else if HasTile(Translate(p, e, 1)) {
        if d == Down {
          assert RunStart(p, e) == p;
          r := SideWordAt(p, e, p, t);
        } else {
          r := BelowWord(p, t);
        }
      } else {
        r := Invalid("ERROR: Invalid Placement");
      }
    }

    /** One newly covered square of the main-word walk: tile t goes into the
        empty square p, and the cross word it forms is looked for. */
    method PutInWalk(acc: RunAcc, p: Position, d: Direction, t: TileKind) returns (next: RunAcc)
      requires Valid() && InBounds(p) && !HasTile(p)
      ensures next == PlaceTile(acc, p, d, t)
    {
      var s := At(p);
      next := acc.(atStart := acc.atStart || p == start,
                   points := acc.points + t.points * s.letterMultiplier,
                   wordMultiplier := acc.wordMultiplier * s.wordMultiplier,
                   letters := acc.letters + [t.letter]);
      assert next == CoverSquare(acc, p, t);
      var cross := CrossWordAt(p, Perp(d), t);
      if cross.Some? {
        next := next.(crossPoints := next.crossPoints + cross.value.1,
                      crossWords := next.crossWords + [cross.value.0],
                      touched := true);
      }
    }

    /** The main loop of a multi-tile move: walks from p along d until every
        tile is placed, or reports None when it leaves the board first. */
    method MainWalk(p: Position, d: Direction, ts: seq<TileKind>, acc0: RunAcc)
      returns (walk: Option<(RunAcc, Position)>)
      requires Valid()
      ensures walk == MainRun(p, d, ts, 0, acc0)
    {
      var acc := acc0;
      var pos := p;
      var i := 0;
      while i != |ts|
        invariant 0 <= i <= |ts|
        invariant MainRun(pos, d, ts, i, acc) == MainRun(p, d, ts, 0, acc0)
        decreases |ts| - i, Bound(d) - Along(pos, d)
      {
        if !InBounds(pos) {
          return None;
        }
        if HasTile(pos) {
          acc := acc.(points := acc.points + RawPoints(pos), letters := acc.letters + [LetterAt(pos)], touched := true);
        } else {
          acc := PutInWalk(acc, pos, d, ts[i]);
          i := i + 1;
        }
        pos := Translate(pos, d, 1);
      }
      walk := Some((acc, pos));
    }

    /** The totals a multi-tile move starts its walk with: the run of tiles
        before p, read backwards for its points and forwards for its letters. */
    method StartAcc(p: Position, d: Direction, adjacent: bool) returns (acc0: RunAcc)
      requires Valid() && InBounds(p) && !HasTile(p)
      ensures acc0 == InitialAcc(p, d, adjacent)
    {
      var touched := adjacent || HasTile(Translate(p, d, -1));
      var first, beforePoints := PointsBefore(p, d);
      var beforeLetters := LettersBefore(first, p, d);
      acc0 := RunAcc(beforePoints, 1, beforeLetters, [], 0, touched, false);
    }

    /** The end of a multi-tile move: the run after the last square walked,
        the placement checks and the total. */
    method FinishWalk(walk: Option<(RunAcc, Position)>, d: Direction, firstMove: bool) returns (r: PlaceResult)
      requires Valid()
      ensures r == FinishMove(walk, d, firstMove)
    {
      if walk.None? {
        return Invalid(OutOfBoundsError(d));
      }
      var acc, end := walk.value.0, walk.value.1;
      var afterLetters, afterPoints := RunFrom(end, d);
      var touched := acc.touched || HasTile(end);
      if !touched && !firstMove {
        return Invalid("ERROR: Not valid placement");
      }
      if firstMove && !acc.atStart {
        return Invalid("ERROR: FIRST MOVE MUST BE PLACED AT START");
      }
      r := PlaceResult.Valid([acc.letters + afterLetters] + acc.crossWords,
                             (acc.points + afterPoints) * acc.wordMultiplier + acc.crossPoints);
    }

    /** test_place for a move of several tiles, or of one tile with a tile
        before or after it along d. */
    method MultiTile(p: Position, d: Direction, ts: seq<TileKind>, firstMove: bool, adjacent: bool)
      returns (r: PlaceResult)
      requires Valid() && InBounds(p) && !HasTile(p)
      ensures r == MultiTileSpec(p, d, ts, firstMove, adjacent)
    {
      var acc0 := StartAcc(p, d, adjacent);
      var walk := MainWalk(p, d, ts, acc0);
      r := FinishWalk(walk, d, firstMove);
    }

    /** Board::test_place: validates a move against the board and scores it.
        A move whose first square is off the board is reported as out of bounds. */
    method TestPlace(move: Move) returns (r: PlaceResult)
      requires Valid()
      ensures r == TestPlaceSpec(move)
    {
      var p := move.Start();
      var d := move.direction;
      if !InBounds(p) {
        return Invalid(OutOfBoundsError(d));
      }
      if HasTile(p) {
        return Invalid("ERROR: OVERLAP");
      }
      var firstMove := !HasTile(start);
      var adjacent := false;
      if !firstMove && NeighbourHasTile(p) {
        adjacent := true;
      }
      if |move.tiles| == 1 && !HasTile(Translate(p, d, -1)) && !HasTile(Translate(p, d, 1)) {
        r := SingleTile(p, d, move.tiles[0]);
      } else {
        r := MultiTile(p, d, move.tiles, firstMove, adjacent);
      }
    }

    // ---------------------------------------------------------------------
    // get_anchors

    /** How many squares from q backwards along d are on the board, empty and
        not anchor spots themselves, counting until the first that is not. */
    ghost function LimitFrom(q: Position, d: Direction): (n: nat)
      decreases if InBounds(q) then Along(q, d) + 1 else 0
    {
      if !IsAnchorSpot(q) && InBounds(q) && !HasTile(q) then 1 + LimitFrom(Translate(q, d, -1), d) else 0
    }

    /** The two anchors get_anchors reports for the square p: DOWN with the
        count of free squares above, then ACROSS with the count to the left;
        none when p is not an anchor spot. */
    ghost function AnchorsAt(p: Position): seq<Anchor>
    {
      if IsAnchorSpot(p) then
        [Anchor(p, Down, LimitFrom(Translate(p, Down, -1), Down)),
         Anchor(p, Across, LimitFrom(Translate(p, Across, -1), Across))]
      else []
    }

    /** The anchors of the first c squares of row r. */
    ghost function RowAnchors(r: int, c: int): seq<Anchor>
      decreases c
    {
      if c <= 0 then [] else RowAnchors(r, c - 1) + AnchorsAt(Position(r, c - 1))
    }

    /** The anchors of the first r rows, row by row. */
    ghost function AnchorsBefore(r: int): seq<Anchor>
      decreases r
    {
      if r <= 0 then [] else AnchorsBefore(r - 1) + RowAnchors(r - 1, columns)
    }

    /** What get_anchors returns: the anchors of every square, in row-major order. */
    ghost function AnchorsSpec(): seq<Anchor>
    {
      AnchorsBefore(rows)
    }

    /** The limit of a reported anchor: the squares counted are free and are
        not anchor spots, and the square after them is not. */
    lemma {:induction false} LimitCounts(q: Position, d: Direction, k: int)
      requires 0 <= k <= LimitFrom(q, d)
      ensures var s := Translate(q, d, -k);
              if k < LimitFrom(q, d) then InBounds(s) && !HasTile(s) && !IsAnchorSpot(s)
              else !(InBounds(s) && !HasTile(s) && !IsAnchorSpot(s))
      decreases if InBounds(q) then Along(q, d) + 1 else 0
    {
      if k > 0 {
        var next := Translate(q, d, -1);
        LimitCounts(next, d, k - 1);
        assert Translate(next, d, -(k - 1)) == Translate(q, d, -k);
      }
    }

    /** A list of anchors comes in DOWN/ACROSS pairs for the same square. */
    ghost predicate Paired(s: seq<Anchor>)
      decreases |s|
    {
      |s| == 0 || (|s| >= 2 && s[0].position == s[1].position && s[0].direction == Down
                   && s[1].direction == Across && Paired(s[2..]))
    }

    lemma {:induction false} PairedAppend(a: seq<Anchor>, b: seq<Anchor>)
      requires Paired(a) && Paired(b)
      ensures Paired(a + b)
      decreases |a|
    {
      if |a| > 0 {
        PairedAppend(a[2..], b);
        assert (a + b)[0] == a[0] && (a + b)[1] == a[1];
        assert (a + b)[2..] == a[2..] + b;
      } else {
        assert a + b == b;
      }
    }

    lemma {:induction false} RowAnchorsPaired(r: int, c: int)
      ensures Paired(RowAnchors(r, c))
      decreases c
    {
      if c > 0 {
        RowAnchorsPaired(r, c - 1);
        var here := AnchorsAt(Position(r, c - 1));
        if IsAnchorSpot(Position(r, c - 1)) {
          assert here[2..] == [];
        }
        PairedAppend(RowAnchors(r, c - 1), here);
      }
    }

    /** get_anchors reports anchors two by two: DOWN then ACROSS for each square. */
    lemma {:induction false} AnchorsPaired(r: int)
      ensures Paired(AnchorsBefore(r))
      decreases r
    {
      if r > 0 {
        var earlier, row := AnchorsBefore(r - 1), RowAnchors(r - 1, columns);
        AnchorsPaired(r - 1);
        RowAnchorsPaired(r - 1, columns);
        PairedAppend(earlier, row);
        assert AnchorsBefore(r) == earlier + row;
      }
    }

    /** Every anchor reported in the first c squares of row r is at an anchor
        spot of that row, with the limit counted from the square before it. */
    lemma {:induction false} RowAnchorsSound(r: int, c: int, a: Anchor)
      requires a in RowAnchors(r, c)
      ensures a.position.row == r && 0 <= a.position.column < c
      ensures IsAnchorSpot(a.position) && a.direction != NoDirection
      ensures a.limit == LimitFrom(Translate(a.position, a.direction, -1), a.direction)
      decreases c
    {
      assert RowAnchors(r, c) == RowAnchors(r, c - 1) + AnchorsAt(Position(r, c - 1));
      if a !in AnchorsAt(Position(r, c - 1)) {
        RowAnchorsSound(r, c - 1, a);
      }
    }

    /** Every anchor get_anchors reports is at an anchor spot on the board,
        in one of the two directions, with the limit counted backwards from it. */
    lemma {:induction false} AnchorsSound(r: int, a: Anchor)
      requires a in AnchorsBefore(r)
      ensures InBounds(a.position) && a.position.row < r
      ensures IsAnchorSpot(a.position) && a.direction != NoDirection
      ensures a.limit == LimitFrom(Translate(a.position, a.direction, -1), a.direction)
      decreases r
    {
      assert AnchorsBefore(r) == AnchorsBefore(r - 1) + RowAnchors(r - 1, columns);
      if a in AnchorsBefore(r - 1) {
        AnchorsSound(r - 1, a);
      } else {
        RowAnchorsSound(r - 1, columns, a);
      }
    }

    lemma {:induction false} RowAnchorsComplete(p: Position, c: int)
      requires IsAnchorSpot(p) && p.column < c
      ensures forall a :: a in AnchorsAt(p) ==> a in RowAnchors(p.row, c)
      decreases c
    {
      assert RowAnchors(p.row, c) == RowAnchors(p.row, c - 1) + AnchorsAt(Position(p.row, c - 1));
      if p.column < c - 1 {
        RowAnchorsComplete(p, c - 1);
      } else {
        assert Position(p.row, c - 1) == p;
      }
    }

    /** Every anchor spot on the board is reported twice: once DOWN, with the
        free squares above it, once ACROSS, with those to its left. */
    lemma {:induction false} AnchorsComplete(p: Position, r: int)
      requires IsAnchorSpot(p) && p.row < r
      ensures Anchor(p, Down, LimitFrom(Translate(p, Down, -1), Down)) in AnchorsBefore(r)
      ensures Anchor(p, Across, LimitFrom(Translate(p, Across, -1), Across)) in AnchorsBefore(r)
      decreases r
    {
      var down := Anchor(p, Down, LimitFrom(Translate(p, Down, -1), Down));
      var across := Anchor(p, Across, LimitFrom(Translate(p, Across, -1), Across));
      assert AnchorsBefore(r) == AnchorsBefore(r - 1) + RowAnchors(r - 1, columns);
      if p.row < r - 1 {
        AnchorsComplete(p, r - 1);
      } else {
        assert AnchorsAt(p) == [down, across];
        RowAnchorsComplete(p, columns);
        assert down in RowAnchors(r - 1, columns) && across in RowAnchors(r - 1, columns);
      }
    }

    /** The backward scan for an anchor's limit: the free, non-anchor squares
        before p along d. */
    method LimitBefore(p: Position, d: Direction) returns (limit: nat)
      ensures limit == LimitFrom(Translate(p, d, -1), d)
    {
      limit := 0;
      var q := Translate(p, d, -1);
      while !IsAnchorSpot(q) && InBounds(q) && !HasTile(q)
        invariant limit + LimitFrom(q, d) == LimitFrom(Translate(p, d, -1), d)
        decreases Along(q, d) + 1
      {
        limit := limit + 1;
        q := Translate(q, d, -1);
      }
    }

    /** The body of get_anchors for one square. */
    method AnchorsAtSquare(p: Position) returns (here: seq<Anchor>)
      ensures here == AnchorsAt(p)
    {
      here := [];
      if IsAnchorSpot(p) {
        var limitUp := LimitBefore(p, Down);
        var limitLeft := LimitBefore(p, Across);
        here := [Anchor(p, Down, limitUp), Anchor(p, Across, limitLeft)];
      }
    }

    /** The inner loop of get_anchors: appends the anchors of row r. */
    method ScanRow(r: int, anchors: seq<Anchor>) returns (result: seq<Anchor>)
      ensures result == anchors + RowAnchors(r, columns)
    {
      result := anchors;
      var c := 0;
      while c < columns
        invariant 0 <= c <= columns && result == anchors + RowAnchors(r, c)
      {
        var here := AnchorsAtSquare(Position(r, c));
        assert RowAnchors(r, c + 1) == RowAnchors(r, c) + here;
        assert (anchors + RowAnchors(r, c)) + here == anchors + (RowAnchors(r, c) + here);
        result := result + here;
        c := c + 1;
      }
    }

    /** Board::get_anchors */
    method GetAnchors() returns (anchors: seq<Anchor>)
      ensures anchors == AnchorsSpec()
    {
      anchors := [];
      var r := 0;
      while r < rows
        invariant 0 <= r <= rows && anchors == AnchorsBefore(r)
      {
        anchors := ScanRow(r, anchors);
        r := r + 1;
      }
    }

    // ---------------------------------------------------------------------
    // place

    /** Whether the walk of place from p along d meets n empty squares before
        it leaves the board (tiles on the way are stepped over). */
    ghost predicate Fits(p: Position, d: Direction, n: nat)
      decreases n, Bound(d) - Along(p, d)
    {
      n == 0 || (InBounds(p) && Fits(Translate(p, d, 1), d, if HasTile(p) then n else n - 1))
    }

    /** The n empty squares the walk of place from p along d puts tiles on, in order. */
    ghost function Placements(p: Position, d: Direction, n: nat): (ps: seq<Position>)
      requires Fits(p, d, n)
      ensures |ps| == n
      decreases n, Bound(d) - Along(p, d)
    {
      if n == 0 then []
      else if HasTile(p) then Placements(Translate(p, d, 1), d, n)
      else [p] + Placements(Translate(p, d, 1), d, n - 1)
    }

    /** The grid with tile t set on the square at q. */
    function WithTile(q: Position, t: TileKind): Grid
    {
      if 0 <= q.row < |squares| && 0 <= q.column < |squares[q.row]| then
        this.(squares := squares[q.row := squares[q.row][q.column := squares[q.row][q.column].(tile := Some(t))]])
      else this
    }

    /** The grid with ts[k] set on ps[k], for each k in order. */
    ghost function WithTiles(ps: seq<Position>, ts: seq<TileKind>): Grid
      requires |ps| == |ts|
      decreases |ps|
    {
      if |ps| == 0 then this
      else WithTiles(ps[..|ps| - 1], ts[..|ts| - 1]).WithTile(ps[|ps| - 1], ts[|ts| - 1])
    }

    /** What place returns and the board it leaves: test_place's verdict,
        with the tiles committed when it is valid and the move has a
        direction; a valid move with no direction commits nothing and
        reports no words and no points. */
    ghost function PlaceOutcome(move: Move): (PlaceResult, Grid)
      requires Valid()
    {
      var r := TestPlaceSpec(move);
      if r.Invalid? then (r, this)
      else if move.direction == NoDirection then (PlaceResult.Valid([], 0), this)
      else
        ValidMoveFits(move);
        (r, WithTiles(Placements(move.Start(), move.direction, |move.tiles|), move.tiles))
    }

    /** A walk that completes finds room for every tile. */
    lemma {:induction false} MainRunFits(p: Position, d: Direction, ts: seq<TileKind>, i: nat, acc: RunAcc)
      requires Valid() && i <= |ts| && MainRun(p, d, ts, i, acc).Some?
      ensures Fits(p, d, |ts| - i)
      decreases |ts| - i, Bound(d) - Along(p, d)
    {
      if i < |ts| {
        var next := Translate(p, d, 1);
        if HasTile(p) {
          MainRunFits(next, d, ts, i,
                      acc.(points := acc.points + RawPoints(p), letters := acc.letters + [LetterAt(p)], touched := true));
        } else {
          MainRunFits(next, d, ts, i + 1, PlaceTile(acc, p, d, ts[i]));
        }
      }
    }

    /** A move test_place accepts starts on the board and has room for all of
        its tiles, so place never meets its own out-of-bounds branch. */
    lemma ValidMoveFits(move: Move)
      requires Valid() && TestPlaceSpec(move).Valid?
      ensures InBounds(move.Start()) && Fits(move.Start(), move.direction, |move.tiles|)
    {
      var p := move.Start();
      var d := move.direction;
      var firstMove := !HasTile(start);
      var adjacent := !firstMove && NeighbourHasTile(p);
      if |move.tiles| == 1 && !HasTile(Translate(p, d, -1)) && !HasTile(Translate(p, d, 1)) {
        assert Fits(Translate(p, d, 1), d, 0);
      } else {
        assert TestPlaceSpec(move) == MultiTileSpec(p, d, move.tiles, firstMove, adjacent);
        MainRunFits(p, d, move.tiles, 0, InitialAcc(p, d, adjacent));
      }
    }

    /** The squares place fills are on the board, empty, on the move's line,
        at or after its first square, and strictly in reading order. */
    lemma {:induction false} PlacementsInOrder(p: Position, d: Direction, n: nat, j: nat, k: nat)
      requires Fits(p, d, n) && j <= k < n
      ensures var ps := Placements(p, d, n);
              InBounds(ps[k]) && !HasTile(ps[k]) && Fixed(ps[k], d) == Fixed(p, d)
              && Along(p, d) <= Along(ps[j], d) && (j < k ==> Along(ps[j], d) < Along(ps[k], d))
      decreases n, Bound(d) - Along(p, d)
    {
      var next := Translate(p, d, 1);
      if HasTile(p) {
        PlacementsInOrder(next, d, n, j, k);
      } else if k > 0 {
        PlacementsInOrder(next, d, n - 1, if j == 0 then 0 else j - 1, k - 1);
        assert Placements(p, d, n)[k] == Placements(next, d, n - 1)[k - 1];
        if j > 0 {
          assert Placements(p, d, n)[j] == Placements(next, d, n - 1)[j - 1];
        }
      }
    }

    /** Setting a tile changes only that square's tile. */
    lemma WithTileAt(q: Position, t: TileKind, x: Position)
      ensures var g := WithTile(q, t);
              g.rows == rows && g.columns == columns && g.start == start
              && |g.squares| == |squares| && (forall r :: 0 <= r < |squares| ==> |g.squares[r]| == |squares[r]|)
              && g.At(x) == (if x == q && 0 <= q.row < |squares| && 0 <= q.column < |squares[q.row]|
                             then At(x).(tile := Some(t)) else At(x))
    {
    }

    /** Committing tiles keeps the board's size, start square and every
        square's multipliers, and changes no square outside ps. */
    lemma {:induction false} WithTilesFrame(ps: seq<Position>, ts: seq<TileKind>, x: Position)
      requires |ps| == |ts|
      ensures var g := WithTiles(ps, ts);
              g.rows == rows && g.columns == columns && g.start == start
              && |g.squares| == |squares| && (forall r :: 0 <= r < |squares| ==> |g.squares[r]| == |squares[r]|)
              && g.At(x).letterMultiplier == At(x).letterMultiplier
              && g.At(x).wordMultiplier == At(x).wordMultiplier
              && (x !in ps ==> g.At(x) == At(x))
      decreases |ps|
    {
      if |ps| > 0 {
        var m := |ps| - 1;
        WithTilesFrame(ps[..m], ts[..m], x);
        WithTiles(ps[..m], ts[..m]).WithTileAt(ps[m], ts[m], x);
        assert x !in ps ==> x !in ps[..m] && x != ps[m];
      }
    }

    /** When the squares ps are distinct, the square ps[k] ends up holding ts[k]. */
    lemma {:induction false} WithTilesLands(ps: seq<Position>, ts: seq<TileKind>, k: nat)
      requires Shaped() && |ps| == |ts| && k < |ps| && InBounds(ps[k])
      requires forall j :: 0 <= j < |ps| && j != k ==> ps[j] != ps[k]
      ensures WithTiles(ps, ts).At(ps[k]) == At(ps[k]).(tile := Some(ts[k]))
      decreases |ps|
    {
      var m := |ps| - 1;
      var before := WithTiles(ps[..m], ts[..m]);
      WithTilesFrame(ps[..m], ts[..m], ps[k]);
      if k == m {
        assert ps[k] !in ps[..m] by {
          forall j | 0 <= j < m ensures ps[..m][j] != ps[k] {
            assert ps[..m][j] == ps[j];
          }
        }
        before.WithTileAt(ps[m], ts[m], ps[k]);
      } else {
        WithTilesLands(ps[..m], ts[..m], k);
        before.WithTileAt(ps[m], ts[m], ps[k]);
      }
    }

    /** Committing one more tile extends the committed prefix. */
    lemma WithTilesSnoc(ps: seq<Position>, ts: seq<TileKind>, q: Position, t: TileKind)
      requires |ps| == |ts|
      ensures WithTiles(ps + [q], ts + [t]) == WithTiles(ps, ts).WithTile(q, t)
    {
      assert (ps + [q])[..|ps|] == ps;
      assert (ts + [t])[..|ts|] == ts;
    }

    // ---------------------------------------------------------------------
    // Properties

    /** is_anchor_spot: an anchor spot is an empty square on the board next to
        a tile, or the start square while the start is still empty. */
    lemma AnchorSpotMeaning(p: Position)
      ensures IsAnchorSpot(p) <==> InBounds(p) && !HasTile(p) && (NeighbourHasTile(p) || (!HasTile(start) && p == start))
    {
    }

    /** An anchor's limit never reaches past the edge: at most the number of
        squares before q's successor along d. */
    lemma {:induction false} LimitAtMost(q: Position, d: Direction)
      ensures LimitFrom(q, d) <= if Along(q, d) >= 0 then Along(q, d) + 1 else 0
      decreases if InBounds(q) then Along(q, d) + 1 else 0
    {
      if !IsAnchorSpot(q) && InBounds(q) && !HasTile(q) {
        LimitAtMost(Translate(q, d, -1), d);
      }
    }

    /** A DOWN anchor's limit is at most its row, an ACROSS anchor's at most its column. */
    lemma AnchorLimitBound(a: Anchor)
      requires a in AnchorsSpec()
      ensures a.limit <= Along(a.position, a.direction)
    {
      AnchorsSound(rows, a);
      LimitAtMost(Translate(a.position, a.direction, -1), a.direction);
    }

    /** The rejections of test_place: a move starting on a tile overlaps; a
        lone tile with no neighbour on either axis has nothing to attach to;
        an invalid result carries no words and no points. */
    lemma TestPlaceRejects(move: Move)
      requires Valid()
      ensures var p := move.Start();
              InBounds(p) && HasTile(p) ==> TestPlaceSpec(move) == Invalid("ERROR: OVERLAP")
      ensures var p := move.Start();
              var d := move.direction;
              InBounds(p) && !HasTile(p) && |move.tiles| == 1
              && !HasTile(Translate(p, d, -1)) && !HasTile(Translate(p, d, 1))
              && !HasTile(Translate(p, Perp(d), -1)) && !HasTile(Translate(p, Perp(d), 1))
              ==> TestPlaceSpec(move) == Invalid("ERROR: Invalid Placement")
      ensures !InBounds(move.Start()) ==> TestPlaceSpec(move) == Invalid(OutOfBoundsError(move.direction))
      ensures TestPlaceSpec(move).Invalid? ==> TestPlaceSpec(move).Words() == [] && TestPlaceSpec(move).Points() == 0
    {
    }

    /** A walk that ends with the start square covered, having begun without
        it, put a tile on the start square. */
    lemma {:induction false} MainRunCoversStart(p: Position, d: Direction, ts: seq<TileKind>, i: nat, acc: RunAcc)
      requires Valid() && i <= |ts| && !acc.atStart
      requires MainRun(p, d, ts, i, acc).Some? && MainRun(p, d, ts, i, acc).value.0.atStart
      ensures Fits(p, d, |ts| - i) && start in Placements(p, d, |ts| - i)
      decreases |ts| - i, Bound(d) - Along(p, d)
    {
      MainRunFits(p, d, ts, i, acc);
      var next := Translate(p, d, 1);
      if HasTile(p) {
        var read := acc.(points := acc.points + RawPoints(p), letters := acc.letters + [LetterAt(p)], touched := true);
        assert MainRun(p, d, ts, i, acc) == MainRun(next, d, ts, i, read);
        assert Placements(p, d, |ts| - i) == Placements(next, d, |ts| - i);
        MainRunCoversStart(next, d, ts, i, read);
      } else {
        var placed := PlaceTile(acc, p, d, ts[i]);
        assert MainRun(p, d, ts, i, acc) == MainRun(next, d, ts, i + 1, placed);
        assert Placements(p, d, |ts| - i) == [p] + Placements(next, d, |ts| - i - 1);
        if p != start {
          assert !placed.atStart;
          MainRunCoversStart(next, d, ts, i + 1, placed);
        }
      }
    }

    /** On an empty board, test_place accepts only a move of at least two
        tiles that puts one of them on the start square. */
    lemma EmptyBoardFirstMove(move: Move)
      requires Valid() && (forall q :: !HasTile(q)) && TestPlaceSpec(move).Valid?
      ensures Fits(move.Start(), move.direction, |move.tiles|)
      ensures |move.tiles| >= 2 && start in Placements(move.Start(), move.direction, |move.tiles|)
    {
      ValidMoveFits(move);
      var p := move.Start();
      var d := move.direction;
      assert !HasTile(Translate(p, Perp(d), -1)) && !HasTile(Translate(p, Perp(d), 1));
      assert !HasTile(start) && !NeighbourHasTile(p);
      assert TestPlaceSpec(move) == MultiTileSpec(p, d, move.tiles, true, false);
      MainRunCoversStart(p, d, move.tiles, 0, InitialAcc(p, d, false));
    }

    /** The walk of place leaves no empty square unfilled between the move's
        first square and the last tile it puts down. */
    lemma {:induction false} PlacementsContiguous(p: Position, d: Direction, n: nat, x: Position)
      requires Fits(p, d, n) && n > 0
      requires Fixed(x, d) == Fixed(p, d) && Along(p, d) <= Along(x, d) <= Along(Placements(p, d, n)[n - 1], d)
      requires !HasTile(x)
      ensures x in Placements(p, d, n)
      decreases n, Bound(d) - Along(p, d)
    {
      var next := Translate(p, d, 1);
      var ps := Placements(p, d, n);
      if Along(x, d) == Along(p, d) {
        PositionByCoordinates(x, p, d);
        assert ps[0] == p;
      } else if HasTile(p) {
        PlacementsContiguous(next, d, n, x);
      } else {
        assert ps == [p] + Placements(next, d, n - 1);
        if n > 1 {
          PlacementsContiguous(next, d, n - 1, x);
        }
      }
    }

    /** place puts move.tiles[k] on the k-th empty square along the move's
        line, in reading order, and keeps that square's multipliers. */
    lemma PlaceCommitsTiles(move: Move, k: nat)
      requires Valid() && Shaped() && TestPlaceSpec(move).Valid? && move.direction != NoDirection && k < |move.tiles|
      ensures Fits(move.Start(), move.direction, |move.tiles|)
      ensures var ps := Placements(move.Start(), move.direction, |move.tiles|);
              var after := PlaceOutcome(move).1;
              InBounds(ps[k]) && !HasTile(ps[k]) && Fixed(ps[k], move.direction) == Fixed(move.Start(), move.direction)
              && after.At(ps[k]) == At(ps[k]).(tile := Some(move.tiles[k]))
              && (k > 0 ==> Along(ps[k - 1], move.direction) < Along(ps[k], move.direction))
    {
      ValidMoveFits(move);
      var d := move.direction;
      var n := |move.tiles|;
      var ps := Placements(move.Start(), d, n);
      PlacementsInOrder(move.Start(), d, n, k, k);
      if k > 0 {
        PlacementsInOrder(move.Start(), d, n, k - 1, k);
      }
      forall j | 0 <= j < n && j != k ensures ps[j] != ps[k] {
        if j < k {
          PlacementsInOrder(move.Start(), d, n, j, k);
        } else {
          PlacementsInOrder(move.Start(), d, n, k, j);
        }
      }
      WithTilesLands(ps, move.tiles, k);
    }

    /** place changes no square other than those it puts tiles on, and keeps
        the board's size, start square and every multiplier. */
    lemma PlaceLeavesOthers(move: Move, x: Position)
      requires Valid()
      ensures var after := PlaceOutcome(move).1;
              after.rows == rows && after.columns == columns && after.start == start
              && after.At(x).letterMultiplier == At(x).letterMultiplier
              && after.At(x).wordMultiplier == At(x).wordMultiplier
      ensures TestPlaceSpec(move).Invalid? || move.direction == NoDirection ==> PlaceOutcome(move).1 == this
      ensures TestPlaceSpec(move).Valid? && move.direction != NoDirection ==>
                Fits(move.Start(), move.direction, |move.tiles|)
                && (x !in Placements(move.Start(), move.direction, |move.tiles|) ==> PlaceOutcome(move).1.At(x) == At(x))
    {
      if TestPlaceSpec(move).Valid? && move.direction != NoDirection {
        ValidMoveFits(move);
        WithTilesFrame(Placements(move.Start(), move.direction, |move.tiles|), move.tiles, x);
      }
    }
  }

  /** Board: the squares are updated in place by place; everything else
      reads them through Contents(). */
  class Board {
    const rows: nat
    const columns: nat
    const start: Position
    var squares: seq<seq<Square>>

    /** The board's current contents as a value. */
    function Contents(): Grid
      reads this
    {
      Grid(rows, columns, start, squares)
    }

    ghost predicate Valid()
      reads this
    {
      Contents().Shaped() && Contents().Valid()
    }

    /** Board::read, from the four header numbers and the square codes that
        follow them (whitespace already skipped, as the stream extraction
        does), read row by row. Every square starts empty. */
    constructor Read(rows: nat, columns: nat, startRow: nat, startColumn: nat, codes: seq<char>)
      requires rows * columns <= |codes|
      ensures Valid() && this.rows == rows && this.columns == columns
      ensures start == Position(startRow, startColumn)
      ensures forall r, c :: 0 <= r < rows && 0 <= c < columns ==>
                squares[r][c] == SquareFromCode(CodeAt(codes, r * columns + c))
    {
      var grid: seq<seq<Square>> := [];
      var k := 0;
      var r := 0;
      while r < rows
        invariant 0 <= r <= rows && |grid| == r && k == r * columns
        invariant forall i :: 0 <= i < r ==> |grid[i]| == columns
        invariant forall i, c :: 0 <= i < r && 0 <= c < columns ==> grid[i][c] == SquareFromCode(CodeAt(codes, i * columns + c))
      {
        var row: seq<Square> := [];
        var c := 0;
        while c < columns
          invariant 0 <= c <= columns && |row| == c && k == r * columns + c
          invariant forall j :: 0 <= j < c ==> row[j] == SquareFromCode(CodeAt(codes, r * columns + j))
        {
          CodeIndexInRange(r, c, rows, columns);
          row := row + [SquareFromCode(codes[k])];
          k := k + 1;
          c := c + 1;
        }
        grid := grid + [row];
        r := r + 1;
      }
      this.rows := rows;
      this.columns := columns;
      this.start := Position(startRow, startColumn);
      squares := grid;
    }

    /** BoardSquare::set_tile_kind on the square at q. */
    method SetTile(q: Position, t: TileKind)
      requires Contents().Shaped() && Contents().InBounds(q)
      modifies this
      ensures Contents() == old(Contents()).WithTile(q, t)
    {
      squares := squares[q.row := squares[q.row][q.column := squares[q.row][q.column].(tile := Some(t))]];
    }

    /** The loop of place: walks from p along d, putting the tiles ts into
        the empty squares it meets, in order, and stepping over the others. */
    method CommitTiles(ghost g: Grid, p: Position, d: Direction, ts: seq<TileKind>)
      requires Contents() == g && Valid() && g.Fits(p, d, |ts|)
      modifies this
      ensures Contents() == g.WithTiles(g.Placements(p, d, |ts|), ts) && Valid()
    {
      ghost var ps := g.Placements(p, d, |ts|);
      var pos := p;
      var i := 0;
      while i != |ts|
        invariant Walking(g, p, d, ts, ps, i, pos)
        invariant Contents() == g.WithTiles(ps[..i], ts[..i]) && Valid()
        decreases |ts| - i, g.Bound(d) - Along(pos, d)
      {
        PlaceStep(g, p, d, ts, ps, i, pos);
        if Contents().At(pos).tile.None? {
          CommitKeepsShape(Contents(), pos, ts[i]);
          SetTile(pos, ts[i]);
          i := i + 1;
        }
        pos := Translate(pos, d, 1);
      }
      assert ps[..i] == ps && ts[..i] == ts;
    }

    /** Board::place: commits a move test_place accepts, returning test_place's
        result; a valid move without a direction commits nothing. */
    method Place(move: Move) returns (r: PlaceResult)
      requires Valid()
      modifies this
      ensures Valid()
      ensures (r, Contents()) == old(Contents()).PlaceOutcome(move)
    {
      var g := Contents();
      r := g.TestPlace(move);
      if r.Invalid? {
        return;
      }
      if move.direction == NoDirection {
        r := PlaceResult.Valid([], 0);
        return;
      }
      g.ValidMoveFits(move);
      CommitTiles(g, move.Start(), move.direction, move.tiles);
    }
  }

  /** The k-th square code, for a k the requires of Board.Read keeps in range. */
  function CodeAt(codes: seq<char>, k: int): char {
    if 0 <= k < |codes| then codes[k] else '.'
  }

  /** The square code for row r, column c of a board of the given width lies
      within the first rows * columns codes. */
  lemma CodeIndexInRange(r: int, c: int, rows: int, columns: int)
    requires 0 <= r < rows && 0 <= c < columns
    ensures r * columns + c < rows * columns
  {
    assert (rows - r - 1) * columns >= 0;
    assert rows * columns == r * columns + columns + (rows - r - 1) * columns;
  }

  /** The invariant of place's walk: i tiles are down, pos is the next
      square to look at, and the tiles still to go land on the squares the
      walk from pos would give them, all after those already filled. */
  ghost predicate Walking(g: Grid, p: Position, d: Direction, ts: seq<TileKind>, ps: seq<Position>, i: int, pos: Position)
  {
    g.Valid() && g.Fits(p, d, |ts|) && ps == g.Placements(p, d, |ts|)
    && 0 <= i <= |ts| && g.Fits(pos, d, |ts| - i) && ps[i..] == g.Placements(pos, d, |ts| - i)
    && (forall k :: 0 <= k < i ==> Along(ps[k], d) < Along(pos, d))
  }

  /** One step of place's walk: pos is on the board, the board so far agrees
      with the grid before the move at pos, and the step keeps the walk's
      invariant whichever way the square turns out. */
  lemma PlaceStep(g: Grid, p: Position, d: Direction, ts: seq<TileKind>, ps: seq<Position>, i: nat, pos: Position)
    requires Walking(g, p, d, ts, ps, i, pos) && i < |ts|
    ensures g.InBounds(pos) && g.WithTiles(ps[..i], ts[..i]).At(pos) == g.At(pos)
    ensures g.HasTile(pos) ==> Walking(g, p, d, ts, ps, i, Translate(pos, d, 1))
    ensures !g.HasTile(pos) ==>
              (Walking(g, p, d, ts, ps, i + 1, Translate(pos, d, 1))
               && g.WithTiles(ps[..i], ts[..i]).WithTile(pos, ts[i]) == g.WithTiles(ps[..i + 1], ts[..i + 1]))
  {
    var next := Translate(pos, d, 1);
    assert pos !in ps[..i] by {
      forall k | 0 <= k < i ensures ps[..i][k] != pos {
        assert ps[..i][k] == ps[k];
      }
    }
    g.WithTilesFrame(ps[..i], ts[..i], pos);
    if g.HasTile(pos) {
      assert g.Placements(pos, d, |ts| - i) == g.Placements(next, d, |ts| - i);
    } else {
      assert g.Placements(pos, d, |ts| - i) == [pos] + g.Placements(next, d, |ts| - i - 1);
      assert ps[i] == pos;
      assert ps[i + 1..] == ps[i..][1..];
      g.WithTilesSnoc(ps[..i], ts[..i], pos, ts[i]);
      assert ps[..i] + [pos] == ps[..i + 1] && ts[..i] + [ts[i]] == ts[..i + 1];
    }
  }

  /** Committing tiles keeps a shaped board shaped and every multiplier in range. */
  lemma CommitKeepsShape(g: Grid, q: Position, t: TileKind)
    requires g.Shaped() && g.Valid()
    ensures g.WithTile(q, t).Shaped() && g.WithTile(q, t).Valid()
  {
    var h := g.WithTile(q, t);
    forall r, c | 0 <= r < |h.squares| && 0 <= c < |h.squares[r]| ensures SquareOk(h.squares[r][c]) {
      g.WithTileAt(q, t, Position(r, c));
      assert h.At(Position(r, c)) == h.squares[r][c];
    }
  }
}
