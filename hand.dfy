/** A player's hand (a TileCollection) as a multiset of tile kinds. A blank
    sits in a hand as the tile kind with letter BLANK_LETTER. */
module Hand {
  import opened MoveTypes

  type Tiles = multiset<TileKind>

  /** Some tile of the hand carries the letter. */
  predicate HasLetter(h: Tiles, letter: char) {
    exists t :: t in h && t.letter == letter
  }

  /** t is a tile of the hand with that letter, and no tile of the hand with
      that letter is worth fewer points. */
  predicate LeastWithLetter(h: Tiles, letter: char, t: TileKind) {
    t in h && t.letter == letter && forall u :: u in h && u.letter == letter ==> t.points <= u.points
  }

  /** Every hand that holds a letter holds a cheapest tile with that letter. */
  lemma {:induction false} LeastExists(h: Tiles, letter: char)
    requires HasLetter(h, letter)
    ensures exists t :: LeastWithLetter(h, letter, t)
    decreases |h|
  {
    var x :| x in h && x.letter == letter;
    var rest := h - multiset{x};
    assert forall u :: u in h ==> u == x || u in rest;
    if HasLetter(rest, letter) {
      LeastExists(rest, letter);
      var m :| LeastWithLetter(rest, letter, m);
      if m.points <= x.points {
        assert LeastWithLetter(h, letter, m);
      } else {
        assert LeastWithLetter(h, letter, x);
      }
    } else {
      assert LeastWithLetter(h, letter, x);
    }
  }

  /** lookup_tile: the tile of the hand that carries the letter, or None where
      the source throws out_of_range. When several kinds of tile carry the
      letter, the cheapest one is taken. */
  function Lookup(h: Tiles, letter: char): (r: Option<TileKind>)
    ensures r.Some? <==> HasLetter(h, letter)
    ensures r.Some? ==> LeastWithLetter(h, letter, r.value)
  {
    if HasLetter(h, letter) then
      LeastExists(h, letter);
      var t :| LeastWithLetter(h, letter, t);
      Some(t)
    else
      None
  }

  /** Lookup depends only on the tiles carrying the letter: adding or removing
      a tile with another letter leaves it unchanged. */
  lemma LookupIgnoresOtherLetters(h: Tiles, letter: char, t: TileKind)
    requires t.letter != letter
    ensures Lookup(h + multiset{t}, letter) == Lookup(h, letter)
    ensures Lookup(h - multiset{t}, letter) == Lookup(h, letter)
  {
    var added, removed := h + multiset{t}, h - multiset{t};
    assert forall u: TileKind :: u.letter == letter ==> (u in added <==> u in h) && (u in removed <==> u in h);
    assert HasLetter(added, letter) <==> HasLetter(h, letter);
    assert HasLetter(removed, letter) <==> HasLetter(h, letter);
  }

  /** A strict total order on tile kinds: by letter, then by points. */
  predicate Below(t: TileKind, u: TileKind) {
    t.letter < u.letter || (t.letter == u.letter && t.points < u.points)
  }

  /** t is the first tile of the hand in that order. */
  predicate First(h: Tiles, t: TileKind) {
    t in h && forall u :: u in h && u != t ==> Below(t, u)
  }

  /** Every non-empty hand has a first tile. */
  lemma {:induction false} FirstExists(h: Tiles)
    requires |h| > 0
    ensures exists t :: First(h, t)
    decreases |h|
  {
    var x :| x in h;
    var rest := h - multiset{x};
    assert forall u :: u in h ==> u == x || u in rest;
    if |rest| > 0 {
      FirstExists(rest);
      var m :| First(rest, m);
      if m == x || Below(m, x) {
        assert First(h, m);
      } else {
        assert First(h, x);
      }
    } else {
      assert First(h, x);
    }
  }

  /** total_points: the sum of the points of the tiles of the hand. */
  function Value(h: Tiles): nat
    decreases |h|
  {
    if |h| == 0 then 0
    else
      FirstExists(h);
      var t :| First(h, t);
      t.points + Value(h - multiset{t})
  }

  /** A hand has at most one first tile. */
  lemma FirstUnique(h: Tiles, t: TileKind, u: TileKind)
    requires First(h, t) && First(h, u)
    ensures t == u
  {
  }

  /** Value takes out the first tile. */
  lemma ValueFirst(h: Tiles, m: TileKind)
    requires First(h, m)
    ensures Value(h) == m.points + Value(h - multiset{m})
  {
    FirstExists(h);
    var t :| First(h, t);
    FirstUnique(h, t, m);
  }

  /** The value of a hand is the points of any one of its tiles plus the
      value of the rest, whichever tile is taken out. */
  lemma {:induction false} ValueWithout(h: Tiles, t: TileKind)
    requires t in h
    ensures Value(h) == t.points + Value(h - multiset{t})
    decreases |h|
  {
    FirstExists(h);
    var m :| First(h, m);
    ValueFirst(h, m);
    if m != t {
      var withoutM, withoutT := h - multiset{m}, h - multiset{t};
      RemoveBoth(h, m, t);
      ValueWithout(withoutM, t);
      ValueWithout(withoutT, m);
    }
  }

  /** Taking two different tiles out of a hand gives the same hand in either order. */
  lemma RemoveBoth(h: Tiles, m: TileKind, t: TileKind)
    requires m in h && t in h && m != t
    ensures t in h - multiset{m} && m in h - multiset{t}
    ensures h - multiset{m} - multiset{t} == h - multiset{t} - multiset{m}
  {
  }

  /** add_tile adds the tile's points to the value of the hand. */
  lemma ValueAdd(h: Tiles, t: TileKind)
    ensures Value(h + multiset{t}) == Value(h) + t.points
  {
    ValueWithout(h + multiset{t}, t);
    assert h + multiset{t} - multiset{t} == h;
  }

  /** A hand is worth nothing exactly when it is empty or all its tiles are
      worth nothing. */
  lemma {:induction false} ValueZero(h: Tiles)
    ensures Value(h) == 0 <==> forall t :: t in h ==> t.points == 0
    decreases |h|
  {
    if |h| > 0 {
      FirstExists(h);
      var m :| First(h, m);
      var rest := h - multiset{m};
      ValueFirst(h, m);
      ValueZero(rest);
      assert forall u :: u in h ==> u == m || u in rest;
    }
  }
}
