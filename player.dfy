/** Player: a score and a hand of tiles, both updated in place. */
module Player {
  import opened MoveTypes
  import opened Hand

  /** The message of the MoveException remove_tiles throws. */
  const TILES_ERROR := "Error in tiles played"

  /** subtract_points: the score less x, floored at zero (the score is a
      size_t and never goes below zero). */
  function Deduct(points: nat, x: nat): (r: nat)
    ensures r <= points && points <= r + x
    ensures r > 0 ==> r + x == points
    ensures x <= points ==> r + x == points
  {
    if x > points then 0 else points - x
  }

  /** One element of remove_tiles: the tile itself when a tile with its
      letter is held, otherwise one blank; None where the source's
      out_of_range is caught and turned into a MoveException. The tile
      collection is assumed to throw out_of_range when asked to remove a
      kind it does not hold. */
  function RemoveOne(h: Tiles, t: TileKind): (r: Option<Tiles>)
    ensures r.Some? <==> t in h || (!HasLetter(h, t.letter) && HasLetter(h, BLANK_LETTER))
    ensures r.Some? ==> r.value <= h && |r.value| + 1 == |h|
    ensures r.Some? && t in h ==> r.value == h - multiset{t}
    ensures r.Some? && t !in h ==>
              exists b :: b in h && b.letter == BLANK_LETTER && r.value == h - multiset{b}
  {
    if !HasLetter(h, t.letter) then
      match Lookup(h, BLANK_LETTER)
      case None => None
      case Some(b) => Some(h - multiset{b})
    else if t in h then Some(h - multiset{t})
    else None
  }

  /** The hand after remove_tiles, and the error it throws, if any. */
  datatype Removal = Removal(hand: Tiles, error: Option<string>)

  /** remove_tiles: the tiles are taken out one after the other; the first
      that cannot be taken out stops the loop with an error, and the tiles
      taken out before it stay out. */
  function RemoveAll(h: Tiles, ts: seq<TileKind>): (r: Removal)
    ensures r.hand <= h
    ensures r.error.None? ==> |r.hand| + |ts| == |h|
    ensures r.error.Some? ==> r.error.value == TILES_ERROR && |r.hand| + |ts| > |h|
    decreases |ts|
  {
    if |ts| == 0 then Removal(h, None)
    else match RemoveOne(h, ts[0])
      case None => Removal(h, Some(TILES_ERROR))
      case Some(rest) => RemoveAll(rest, ts[1..])
  }

  /** The sum of the points of a list of tiles. */
  function SumPoints(ts: seq<TileKind>): nat
    decreases |ts|
  {
    if |ts| == 0 then 0 else ts[0].points + SumPoints(ts[1..])
  }

  class Player {
    const handSize: nat
    const human: bool
    var points: nat
    var tiles: Tiles

    /** A player starts with no points and no tiles. */
    constructor (handSize: nat, human: bool)
      ensures this.handSize == handSize && this.human == human
      ensures points == 0 && tiles == multiset{}
    {
      this.handSize := handSize;
      this.human := human;
      points := 0;
      tiles := multiset{};
    }

    /** has_tile: whether a tile with the same letter is held; the points of
        t play no part. */
    function HasTile(t: TileKind): (b: bool)
      reads this
      ensures b <==> exists u :: u in tiles && u.letter == t.letter
    {
      Lookup(tiles, t.letter).Some?
    }

    /** count_tiles */
    function CountTiles(): nat
      reads this
    {
      |tiles|
    }

    /** get_hand_value: the total points of the hand. */
    function HandValue(): nat
      reads this
    {
      Value(tiles)
    }

    /** add_points: the score grows by exactly x. */
    method AddPoints(x: nat)
      modifies this
      ensures points == old(points) + x && tiles == old(tiles)
    {
      points := points + x;
    }

    /** subtract_points */
    method SubtractPoints(x: nat)
      modifies this
      ensures points == Deduct(old(points), x) && tiles == old(tiles)
    {
      if x > points {
        points := 0;
      } else {
        points := points - x;
      }
    }

    /** remove_tiles: returns the error the source throws, if any; the
        tiles removed before the failing one stay removed. */
    method RemoveTiles(ts: seq<TileKind>) returns (error: Option<string>)
      modifies this
      ensures Removal(tiles, error) == RemoveAll(old(tiles), ts)
      ensures points == old(points)
    {
      error := None;
      var i := 0;
      while i < |ts|
        invariant 0 <= i <= |ts|
        invariant RemoveAll(tiles, ts[i..]) == RemoveAll(old(tiles), ts)
        invariant points == old(points)
      {
        assert ts[i..][0] == ts[i] && ts[i..][1..] == ts[i + 1..];
        if !HasTile(ts[i]) {
          var blank := Lookup(tiles, BLANK_LETTER);
          if blank.None? {
            error := Some(TILES_ERROR);
            return;
          }
          tiles := tiles - multiset{blank.value};
        } else {
          if ts[i] !in tiles {
            error := Some(TILES_ERROR);
            return;
          }
          tiles := tiles - multiset{ts[i]};
        }
        i := i + 1;
      }
      assert ts[i..] == [];
    }

    /** add_tiles: every tile joins the hand. */
    method AddTiles(ts: seq<TileKind>)
      modifies this
      ensures tiles == old(tiles) + multiset(ts) && points == old(points)
      ensures CountTiles() == old(CountTiles()) + |ts|
    {
      var i := 0;
      while i < |ts|
        invariant 0 <= i <= |ts|
        invariant tiles == old(tiles) + multiset(ts[..i]) && points == old(points)
      {
        assert ts[..i + 1] == ts[..i] + [ts[i]];
        tiles := tiles + multiset{ts[i]};
        i := i + 1;
      }
      assert ts[..i] == ts;
    }
  }

  // -------------------------------------------------------------------------
  // Properties

  /** Tiles that are all held come out exactly: remove_tiles then succeeds
      and takes out precisely those tiles, blanks untouched. */
  lemma {:induction false} RemoveHeld(h: Tiles, ts: seq<TileKind>)
    requires multiset(ts) <= h
    ensures RemoveAll(h, ts) == Removal(h - multiset(ts), None)
    decreases |ts|
  {
    if |ts| > 0 {
      var t, more := ts[0], ts[1..];
      assert ts == [t] + more;
      TakeOne(h, t, multiset(more));
      assert HasLetter(h, t.letter);
      RemoveHeld(h - multiset{t}, more);
    }
  }

  /** Taking out one held tile and then a bag of the others. */
  lemma TakeOne(h: Tiles, t: TileKind, rest: Tiles)
    requires multiset{t} + rest <= h
    ensures t in h && rest <= h - multiset{t}
    ensures h - multiset{t} - rest == h - (multiset{t} + rest)
  {
  }

  /** Adding tiles and then removing the same tiles gives back the hand. */
  lemma RemoveAfterAdd(h: Tiles, ts: seq<TileKind>)
    ensures RemoveAll(h + multiset(ts), ts) == Removal(h, None)
  {
    RemoveHeld(h + multiset(ts), ts);
    assert h + multiset(ts) - multiset(ts) == h;
  }

  /** remove_tiles is not atomic: removing ts then more tiles is removing ts
      and then, if that succeeded, the rest from what is left; if ts already
      fails, the longer list fails the same way, with the same hand. */
  lemma {:induction false} RemoveAllAppend(h: Tiles, ts: seq<TileKind>, more: seq<TileKind>)
    ensures RemoveAll(h, ts + more) ==
            if RemoveAll(h, ts).error.Some? then RemoveAll(h, ts)
            else RemoveAll(RemoveAll(h, ts).hand, more)
    decreases |ts|
  {
    if |ts| == 0 {
      assert ts + more == more;
    } else {
      assert (ts + more)[0] == ts[0] && (ts + more)[1..] == ts[1..] + more;
      match RemoveOne(h, ts[0])
      case None =>
      case Some(rest) => RemoveAllAppend(rest, ts[1..], more);
    }
  }

  /** A hand holding one tile a, asked to remove a and then a tile b whose
      letter is not held and with no blank to stand in for it: the call
      fails, and a is gone all the same. */
  lemma RemoveNotAtomic(a: TileKind, b: TileKind)
    requires a.letter != b.letter && a.letter != BLANK_LETTER
    ensures RemoveAll(multiset{a}, [a, b]) == Removal(multiset{}, Some(TILES_ERROR))
  {
    var h := multiset{a};
    assert h - multiset{a} == multiset{};
    assert [a, b][1..] == [b];
    assert !HasLetter(multiset{}, b.letter) && !HasLetter(multiset{}, BLANK_LETTER);
  }

  /** Adding tiles adds their points to the value of the hand. */
  lemma {:induction false} AddValue(h: Tiles, ts: seq<TileKind>)
    ensures Value(h + multiset(ts)) == Value(h) + SumPoints(ts)
    decreases |ts|
  {
    if |ts| > 0 {
      var grown := h + multiset{ts[0]};
      assert ts == [ts[0]] + ts[1..];
      assert multiset(ts) == multiset{ts[0]} + multiset(ts[1..]);
      assert h + multiset(ts) == grown + multiset(ts[1..]);
      AddValue(grown, ts[1..]);
      ValueAdd(h, ts[0]);
      assert Value(grown) == Value(h) + ts[0].points;
    } else {
      assert h + multiset(ts) == h;
    }
  }

  /** Removing held tiles takes their points out of the value of the hand. */
  lemma RemoveHeldValue(h: Tiles, ts: seq<TileKind>)
    requires multiset(ts) <= h
    ensures Value(h) == Value(RemoveAll(h, ts).hand) + SumPoints(ts)
  {
    RemoveHeld(h, ts);
    var rest := h - multiset(ts);
    assert rest + multiset(ts) == h;
    AddValue(rest, ts);
  }
}
