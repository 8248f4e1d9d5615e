/** The computer player: a trie-guided backtracking search over the board's
    anchors for candidate moves (left_part / extend_right), and the choice of
    the best-scoring candidate (get_best_move). */
module ComputerPlayer {
  import opened MoveTypes
  import opened Hand
  import opened Trie
  import opened Board

  /** 2^64: positions, limits and scores compared in the search are size_t. */
  const SIZE_MODULUS: int := 0x1_0000_0000_0000_0000

  /** Conversion of a (non-wrapping) integer to size_t. */
  function AsSize(x: int): (n: nat)
    ensures n < SIZE_MODULUS
    ensures 0 <= x < SIZE_MODULUS ==> n == x
  {
    x % SIZE_MODULUS
  }

  /** The coordinate extend_right compares against the anchor: the column for
      an ACROSS move, the row otherwise. */
  function Reach(p: Position, d: Direction): int {
    if d == Across then p.column else p.row
  }

  /** A tile u of the hand can be played as t: it is t itself, or a blank
      standing for t's letter with the blank's points. */
  predicate StandsFor(u: TileKind, t: TileKind) {
    u == t || (u.letter == BLANK_LETTER && u.points == t.points)
  }

  /** The tile the search plays for letter c, paired with the tile it takes
      out of the hand: the exact tile when the hand holds the letter, else a
      blank standing for c, else nothing (that trie edge is skipped). */
  function Choose(h: Tiles, c: char): (r: Option<(TileKind, TileKind)>)
    ensures r.Some? <==> HasLetter(h, c) || HasLetter(h, BLANK_LETTER)
    ensures r.Some? ==> r.value.1 in h && r.value.0.letter == c && StandsFor(r.value.1, r.value.0)
    ensures HasLetter(h, c) ==> r.Some? && r.value.0 == r.value.1
  {
    match Lookup(h, c)
    case Some(t) => Some((t, t))
    case None =>
      match Lookup(h, BLANK_LETTER)
      case Some(blank) => Some((TileKind(c, blank.points), blank))
      case None => None
  }

  /** left_part's shift of a move's start one square back along its direction. */
  function StepBack(m: Move): (r: Move)
    ensures r.Start() == Translate(m.Start(), m.direction, -1)
    ensures r.kind == m.kind && r.tiles == m.tiles && r.direction == m.direction
  {
    if m.direction == Down then m.(row := m.row - 1) else m.(column := m.column - 1)
  }

  /** Appends a tile to a move. */
  function PushTile(m: Move, t: TileKind): Move {
    m.(tiles := m.tiles + [t])
  }

  // -------------------------------------------------------------------------
  // Specification of the search

  /** The move extend_right records on entry, if any: at a final node, when
      the word read so far ends at or past the anchor. */
  function Recorded(anchor: Position, word: string, move: Move, node: Trie): seq<Move> {
    if node.isFinal && Reach(move.Start(), move.direction) + |word| > Reach(anchor, move.direction) then [move] else []
  }

  /** The moves extend_right records, in order, from square with the word
      read so far, the move built so far, the trie node of the word, and hand h. */
  ghost function ExtendMoves(g: Grid, square: Position, anchor: Position, word: string, move: Move, node: Trie, h: Tiles): seq<Move>
    decreases node, 1
  {
    var here := Recorded(anchor, word, move, node);
    if |node.nexts| == 0 || !g.InBounds(square) then here
    else if g.HasTile(square) then here + ExtendOnTile(g, square, anchor, word, move, node, h)
    else here + ExtendChildren(g, square, anchor, word, move, node, |node.nexts|, h)
  }

  /** The moves recorded past the occupied square: only the trie edge of the
      board's letter is followed, and no tile is added. */
  ghost function ExtendOnTile(g: Grid, square: Position, anchor: Position, word: string, move: Move, node: Trie, h: Tiles): seq<Move>
    requires g.HasTile(square)
    decreases node, 0
  {
    var c := g.LetterAt(square);
    match ChildIndex(node, c)
    case None => []
    case Some(i) => ExtendMoves(g, Translate(square, move.direction, 1), anchor, word + [c], move, node.nexts[i].1, h)
  }

  /** The moves recorded through the first k children of node from the empty square. */
  ghost function ExtendChildren(g: Grid, square: Position, anchor: Position, word: string, move: Move, node: Trie, k: nat, h: Tiles): seq<Move>
    requires k <= |node.nexts|
    decreases node, 0, k
  {
    if k == 0 then []
    else ExtendChildren(g, square, anchor, word, move, node, k - 1, h) + ExtendChild(g, square, anchor, word, move, node, k - 1, h)
  }

  /** The moves recorded through child i: its letter is played on the empty
      square from the hand, and the walk goes on one square further. */
  ghost function ExtendChild(g: Grid, square: Position, anchor: Position, word: string, move: Move, node: Trie, i: nat, h: Tiles): seq<Move>
    requires i < |node.nexts|
    decreases node, 0, i
  {
    var c := node.nexts[i].0;
    match Choose(h, c)
    case None => []
    case Some(choice) =>
      ExtendMoves(g, Translate(square, move.direction, 1), anchor, word + [c], PushTile(move, choice.0),
                  node.nexts[i].1, h - multiset{choice.1})
  }

  /** The moves left_part records, in order, for the prefix read so far. */
  ghost function LeftMoves(g: Grid, anchor: Position, word: string, move: Move, node: Trie, limit: nat, h: Tiles): seq<Move>
    decreases node, 1
  {
    if limit == 0 then [] else LeftChildren(g, anchor, word, move, node, limit, |node.nexts|, h)
  }

  /** The moves left_part records through the first k children of node. */
  ghost function LeftChildren(g: Grid, anchor: Position, word: string, move: Move, node: Trie, limit: nat, k: nat, h: Tiles): seq<Move>
    requires 0 < limit && k <= |node.nexts|
    decreases node, 0, k
  {
    if k == 0 then []
    else LeftChildren(g, anchor, word, move, node, limit, k - 1, h) + LeftChild(g, anchor, word, move, node, limit, k - 1, h)
  }

  /** The moves left_part records through child i: its letter is prepended
      from the hand, the start moves back a square, the prefix is extended
      from the anchor, and then grown further. */
  ghost function LeftChild(g: Grid, anchor: Position, word: string, move: Move, node: Trie, limit: nat, i: nat, h: Tiles): seq<Move>
    requires 0 < limit && i < |node.nexts|
    decreases node, 0, i
  {
    var c := node.nexts[i].0;
    match Choose(h, c)
    case None => []
    case Some(choice) =>
      var next := StepBack(PushTile(move, choice.0));
      var rest := h - multiset{choice.1};
      ExtendMoves(g, anchor, anchor, word + [c], next, node.nexts[i].1, rest)
      + LeftMoves(g, anchor, word + [c], next, node.nexts[i].1, limit - 1, rest)
  }

  /** The look-back limit get_move uses for an anchor: hand_size - 1 (as a
      size_t) at the start square, the anchor's own limit elsewhere. */
  function AnchorLimit(g: Grid, a: Anchor, handSize: nat): nat {
    if a.position == g.start then AsSize(handSize - 1) else a.limit
  }

  /** The moves get_move collects for one anchor, searching with hand h. */
  ghost function AnchorMoves(g: Grid, root: Trie, h: Tiles, handSize: nat, a: Anchor): seq<Move>
  {
    var move := PlaceMove([], a.position.row, a.position.column, a.direction);
    if AnchorLimit(g, a, handSize) == 0 then
      var word := g.RunLetters(g.RunStart(a.position, a.direction), a.direction);
      match FindPrefix(root, word)
      case None => []
      case Some(node) => ExtendMoves(g, a.position, a.position, word, move, node, h)
    else
      LeftMoves(g, a.position, [], move, root, AnchorLimit(g, a, handSize), h)
  }

  /** The moves get_move collects over a list of anchors, each searched with
      the whole hand. */
  ghost function Candidates(g: Grid, root: Trie, h: Tiles, handSize: nat, anchors: seq<Anchor>): seq<Move>
    decreases |anchors|
  {
    if |anchors| == 0 then []
    else Candidates(g, root, h, handSize, anchors[..|anchors| - 1]) + AnchorMoves(g, root, h, handSize, anchors[|anchors| - 1])
  }

  // -------------------------------------------------------------------------
  // Specification of get_best_move

  /** What get_best_move learns about a candidate from test_place: its
      points as a size_t, and whether it is eligible (every word it forms is
      in the dictionary and it places at least two tiles). */
  datatype Rating = Rating(score: nat, eligible: bool)

  ghost function Rate(g: Grid, root: Trie, m: Move): Rating
    requires g.Valid()
  {
    var r := g.TestPlaceSpec(m);
    Rating(AsSize(r.Points()), AllWords(root, r.Words()) && |m.tiles| >= 2)
  }

  /** The ratings of a list of candidates, in order. */
  ghost function Ratings(g: Grid, root: Trie, moves: seq<Move>): (rs: seq<Rating>)
    requires g.Valid()
    ensures |rs| == |moves|
    ensures forall j :: 0 <= j < |moves| ==> rs[j] == Rate(g, root, moves[j])
  {
    seq(|moves|, j requires 0 <= j < |moves| && g.Valid() => Rate(g, root, moves[j]))
  }

  /** The first-move rewrite: while the start square is empty the chosen
      move is moved to the start square, ACROSS. */
  function AtStartIfEmpty(g: Grid, m: Move): Move {
    if !g.HasTile(g.start) then m.(row := g.start.row, column := g.start.column, direction := Across) else m
  }

  /** One comparison of get_best_move: candidate m, rated r, replaces the
      best move so far when it is eligible and scores more. */
  function Pick(state: (Move, nat), m: Move, r: Rating): (Move, nat) {
    if r.score > state.1 && r.eligible then (m, r.score) else state
  }

  /** The best move and the best score after the first i candidates, before
      the first-move rewrite. */
  function Select(moves: seq<Move>, rs: seq<Rating>, i: nat): (Move, nat)
    requires |rs| == |moves| && i <= |moves|
    decreases i
  {
    if i == 0 then (PassMove, 0) else Pick(Select(moves, rs, i - 1), moves[i - 1], rs[i - 1])
  }

  /** The state of get_best_move's loop after the first i candidates. */
  function BestFrom(g: Grid, moves: seq<Move>, rs: seq<Rating>, i: nat): (Move, nat)
    requires |rs| == |moves| && i <= |moves|
    decreases i
  {
    if i == 0 then (PassMove, 0)
    else
      var state := Pick(BestFrom(g, moves, rs, i - 1), moves[i - 1], rs[i - 1]);
      (AtStartIfEmpty(g, state.0), state.1)
  }

  /** get_best_move's result. */
  ghost function BestMove(g: Grid, root: Trie, moves: seq<Move>): Move
    requires g.Valid()
  {
    BestFrom(g, moves, Ratings(g, root, moves), |moves|).0
  }

  // -------------------------------------------------------------------------
  // The search

  /** Recording moves in two batches is recording them in one. */
  lemma AppendAssoc(a: seq<Move>, b: seq<Move>, c: seq<Move>)
    ensures (a + b) + c == a + (b + c)
  {
  }

  /** The state the search mutates by reference: the remaining tiles of the
      hand copy, and the list of legal moves found so far. */
  class Search {
    var remaining: Tiles
    var legalMoves: seq<Move>

    constructor (hand: Tiles)
      ensures remaining == hand && legalMoves == []
    {
      remaining := hand;
      legalMoves := [];
    }

    /** ComputerPlayer::extend_right */
    method ExtendRight(g: Grid, square: Position, anchor: Position, word: string, move: Move, node: Trie)
      modifies this
      ensures remaining == old(remaining)
      ensures legalMoves == old(legalMoves) + ExtendMoves(g, square, anchor, word, move, node, old(remaining))
      decreases node, 2
    {
      ghost var here := Recorded(anchor, word, move, node);
      if node.isFinal && Reach(move.Start(), move.direction) + |word| > Reach(anchor, move.direction) {
        legalMoves := legalMoves + [move];
      }
      assert legalMoves == old(legalMoves) + here;
      if |node.nexts| == 0 || !g.InBounds(square) {
        return;
      }
      if g.HasTile(square) {
        FollowTile(g, square, anchor, word, move, node);
        AppendAssoc(old(legalMoves), here, ExtendOnTile(g, square, anchor, word, move, node, old(remaining)));
      } else {
        ExtendEachChild(g, square, anchor, word, move, node);
        AppendAssoc(old(legalMoves), here, ExtendChildren(g, square, anchor, word, move, node, |node.nexts|, old(remaining)));
      }
    }

    /** extend_right at an occupied square: follows the edge of the board's
        letter, if the node has one. */
    method FollowTile(g: Grid, square: Position, anchor: Position, word: string, move: Move, node: Trie)
      requires g.HasTile(square)
      modifies this
      ensures remaining == old(remaining)
      ensures legalMoves == old(legalMoves) + ExtendOnTile(g, square, anchor, word, move, node, old(remaining))
      decreases node, 1
    {
      var c := g.LetterAt(square);
      var i := ChildIndex(node, c);
      if i.Some? {
        ExtendRight(g, Translate(square, move.direction, 1), anchor, word + [c], move, node.nexts[i.value].1);
      }
    }

    /** The loop of extend_right over the children of node at an empty square. */
    method ExtendEachChild(g: Grid, square: Position, anchor: Position, word: string, move: Move, node: Trie)
      modifies this
      ensures remaining == old(remaining)
      ensures legalMoves == old(legalMoves) + ExtendChildren(g, square, anchor, word, move, node, |node.nexts|, old(remaining))
      decreases node, 1
    {
      var k := 0;
      while k < |node.nexts|
        invariant 0 <= k <= |node.nexts| && remaining == old(remaining)
        invariant legalMoves == old(legalMoves) + ExtendChildren(g, square, anchor, word, move, node, k, old(remaining))
      {
        ghost var done := ExtendChildren(g, square, anchor, word, move, node, k, old(remaining));
        ExtendStep(g, square, anchor, word, move, node, k);
        AppendAssoc(old(legalMoves), done, ExtendChild(g, square, anchor, word, move, node, k, old(remaining)));
        k := k + 1;
      }
    }

    /** One iteration of extend_right's loop: plays the letter of child i on
        the empty square when the hand can supply it, extends, and puts the
        tile back. */
    method ExtendStep(g: Grid, square: Position, anchor: Position, word: string, move: Move, node: Trie, i: nat)
      requires i < |node.nexts|
      modifies this
      ensures remaining == old(remaining)
      ensures legalMoves == old(legalMoves) + ExtendChild(g, square, anchor, word, move, node, i, old(remaining))
      decreases node, 0
    {
      var c, child := node.nexts[i].0, node.nexts[i].1;
      var choice := Choose(remaining, c);
      if choice.Some? {
        var t, used := choice.value.0, choice.value.1;
        remaining := remaining - multiset{used};
        ExtendRight(g, Translate(square, move.direction, 1), anchor, word + [c], PushTile(move, t), child);
        remaining := remaining + multiset{used};
      }
    }

    /** ComputerPlayer::left_part */
    method LeftPart(g: Grid, anchor: Position, word: string, move: Move, node: Trie, limit: nat)
      modifies this
      ensures remaining == old(remaining)
      ensures legalMoves == old(legalMoves) + LeftMoves(g, anchor, word, move, node, limit, old(remaining))
      decreases node, 1
    {
      if limit == 0 {
        return;
      }
      var k := 0;
      while k < |node.nexts|
        invariant 0 <= k <= |node.nexts| && remaining == old(remaining)
        invariant legalMoves == old(legalMoves) + LeftChildren(g, anchor, word, move, node, limit, k, old(remaining))
      {
        ghost var done := LeftChildren(g, anchor, word, move, node, limit, k, old(remaining));
        LeftStep(g, anchor, word, move, node, limit, k);
        AppendAssoc(old(legalMoves), done, LeftChild(g, anchor, word, move, node, limit, k, old(remaining)));
        k := k + 1;
      }
    }

    /** One iteration of left_part's loop: prepends the letter of child i
        when the hand can supply it, searches, and puts the tile back. */
    method LeftStep(g: Grid, anchor: Position, word: string, move: Move, node: Trie, limit: nat, i: nat)
      requires 0 < limit && i < |node.nexts|
      modifies this
      ensures remaining == old(remaining)
      ensures legalMoves == old(legalMoves) + LeftChild(g, anchor, word, move, node, limit, i, old(remaining))
      decreases node, 0
    {
      var c, child := node.nexts[i].0, node.nexts[i].1;
      var choice := Choose(remaining, c);
      if choice.Some? {
        var t, used := choice.value.0, choice.value.1;
        var next := StepBack(PushTile(move, t));
        remaining := remaining - multiset{used};
        ghost var rest := remaining;
        ExtendRight(g, anchor, anchor, word + [c], next, child);
        LeftPart(g, anchor, word + [c], next, child, limit - 1);
        AppendAssoc(old(legalMoves), ExtendMoves(g, anchor, anchor, word + [c], next, child, rest),
                    LeftMoves(g, anchor, word + [c], next, child, limit - 1, rest));
        remaining := remaining + multiset{used};
      }
    }

    /** The body of get_move's loop for one anchor, searching with the
        remaining tiles as the copy of the hand. */
    method SearchAnchor(g: Grid, root: Trie, handSize: nat, a: Anchor)
      modifies this
      ensures remaining == old(remaining)
      ensures legalMoves == old(legalMoves) + AnchorMoves(g, root, old(remaining), handSize, a)
    {
      var move := PlaceMove([], a.position.row, a.position.column, a.direction);
      var limit := AnchorLimit(g, a, handSize);
      if limit == 0 {
        var word := BoardPrefix(g, a.position, a.direction);
        var node := FindPrefix(root, word);
        if node.Some? {
          ExtendRight(g, a.position, a.position, word, move, node.value);
        }
      } else {
        LeftPart(g, a.position, [], move, root, limit);
      }
    }
  }

  /** The letters of the run of tiles on the board just before p along d. */
  method BoardPrefix(g: Grid, p: Position, d: Direction) returns (word: string)
    ensures word == g.RunLetters(g.RunStart(p, d), d)
  {
    var first := g.FindRunStart(p, d);
    ghost var target := g.RunLetters(first, d);
    word := [];
    var pos := first;
    while g.HasTile(pos)
      invariant word + g.RunLetters(pos, d) == target
      decreases g.Bound(d) - Along(pos, d)
    {
      g.AdvanceOverLetter(pos, d, word, target);
      word := word + [g.LetterAt(pos)];
      pos := Translate(pos, d, 1);
    }
    assert word + [] == word;
  }

  /** ComputerPlayer::get_move, without the printing: searches every anchor
      with a copy of the hand and returns the best candidate. */
  method GetMove(g: Grid, root: Trie, hand: Tiles, handSize: nat) returns (best: Move)
    requires g.Valid()
    ensures best == BestMove(g, root, Candidates(g, root, hand, handSize, g.AnchorsSpec()))
  {
    var anchors := g.GetAnchors();
    var search := new Search(hand);
    var i := 0;
    while i < |anchors|
      invariant 0 <= i <= |anchors|
      invariant search.legalMoves == Candidates(g, root, hand, handSize, anchors[..i])
    {
      search.remaining := hand;
      search.SearchAnchor(g, root, handSize, anchors[i]);
      assert anchors[..i + 1][..i] == anchors[..i];
      i := i + 1;
    }
    assert anchors[..i] == anchors;
    best := GetBestMove(g, root, search.legalMoves);
  }

  /** The inner loop of get_best_move: whether every formed word is a word. */
  method AllWordsValid(root: Trie, words: seq<string>) returns (valid: bool)
    ensures valid <==> AllWords(root, words)
  {
    valid := true;
    var j := 0;
    while j < |words|
      invariant 0 <= j <= |words|
      invariant valid <==> forall k :: 0 <= k < j ==> IsWord(root, words[k])
    {
      if !IsWord(root, words[j]) {
        valid := false;
      }
      j := j + 1;
    }
  }

  /** The comparison in get_best_move's loop for one candidate. */
  method Consider(g: Grid, root: Trie, best: Move, most: nat, m: Move, ghost r: Rating) returns (best': Move, most': nat)
    requires g.Valid() && r == Rate(g, root, m)
    ensures (best', most') == Pick((best, most), m, r)
  {
    best', most' := best, most;
    var result := g.TestPlace(m);
    var valid := AllWordsValid(root, result.Words());
    if AsSize(result.Points()) > most && valid && |m.tiles| >= 2 {
      most' := AsSize(result.Points());
      best' := m;
    }
  }

  /** ComputerPlayer::get_best_move */
  method GetBestMove(g: Grid, root: Trie, moves: seq<Move>) returns (best: Move)
    requires g.Valid()
    ensures best == BestMove(g, root, moves)
  {
    ghost var rs := Ratings(g, root, moves);
    best := PassMove;
    var most: nat := 0;
    var i := 0;
    while i < |moves|
      invariant 0 <= i <= |moves| && (best, most) == BestFrom(g, moves, rs, i)
    {
      ghost var state := Pick(BestFrom(g, moves, rs, i), moves[i], rs[i]);
      best, most := Consider(g, root, best, most, moves[i], rs[i]);
      assert (best, most) == state;
      if !g.HasTile(g.start) {
        best := best.(row := g.start.row, column := g.start.column, direction := Across);
      }
      assert (best, most) == (AtStartIfEmpty(g, state.0), state.1);
      i := i + 1;
    }
  }

  // -------------------------------------------------------------------------
  // Properties of the search

  /** The tiles ts can be played from hand h using the tiles us of the hand,
      one for each, each the tile itself or a blank standing for it. */
  ghost predicate Supplied(h: Tiles, ts: seq<TileKind>, us: seq<TileKind>) {
    |us| == |ts| && multiset(us) <= h && forall i :: 0 <= i < |us| ==> StandsFor(us[i], ts[i])
  }

  /** The tiles ts can be played from hand h. */
  ghost predicate DrawnFrom(h: Tiles, ts: seq<TileKind>) {
    exists us :: Supplied(h, ts, us)
  }

  /** Playing u as t and then tiles ts from what is left plays [t] + ts from h. */
  lemma DrawnFromCons(h: Tiles, u: TileKind, t: TileKind, ts: seq<TileKind>)
    requires u in h && StandsFor(u, t) && DrawnFrom(h - multiset{u}, ts)
    ensures DrawnFrom(h, [t] + ts)
  {
    var us :| Supplied(h - multiset{u}, ts, us);
    var all := [u] + us;
    assert multiset(all) == multiset{u} + multiset(us);
    TakeBack(h, u, multiset(us));
    forall i | 0 <= i < |all|
      ensures StandsFor(all[i], ([t] + ts)[i])
    {
      if i > 0 {
        assert all[i] == us[i - 1] && ([t] + ts)[i] == ts[i - 1];
      }
    }
    assert Supplied(h, [t] + ts, all);
  }

  /** A held tile and tiles held beside it are held together. */
  lemma TakeBack(h: Tiles, u: TileKind, rest: Tiles)
    requires u in h && rest <= h - multiset{u}
    ensures multiset{u} + rest <= h
  {
  }

  /** A hand supplies no more tiles than it holds. */
  lemma DrawnFromBound(h: Tiles, ts: seq<TileKind>)
    requires DrawnFrom(h, ts)
    ensures |ts| <= |h|
  {
    var us :| Supplied(h, ts, us);
    assert |multiset(us)| == |us|;
    assert multiset(us) + (h - multiset(us)) == h;
  }

  /** The tiles a move has added to move: those after its first |move.tiles|. */
  ghost predicate Extends(m: Move, move: Move, h: Tiles) {
    m.kind == move.kind && m.direction == move.direction
    && |move.tiles| <= |m.tiles| && m.tiles[..|move.tiles|] == move.tiles
    && DrawnFrom(h, m.tiles[|move.tiles|..])
  }

  /** A move extended by tile t from hand h - {u}, where u stands for t, is
      an extension from h of the move without t. */
  lemma ExtendsStep(m: Move, move: Move, t: TileKind, u: TileKind, h: Tiles)
    requires u in h && StandsFor(u, t) && Extends(m, PushTile(move, t), h - multiset{u})
    ensures Extends(m, move, h)
  {
    var n := |move.tiles|;
    assert m.tiles[..n + 1] == move.tiles + [t];
    assert m.tiles[..n] == m.tiles[..n + 1][..n];
    assert m.tiles[n..] == [t] + m.tiles[n + 1..];
    DrawnFromCons(h, u, t, m.tiles[n + 1..]);
  }

  /** Every move extend_right records starts where the move it was given
      starts, keeps its tiles in front, and adds tiles the hand supplies
      (on an occupied square it adds none). */
  lemma {:induction false} ExtendKeepsStart(g: Grid, square: Position, anchor: Position, word: string, move: Move, node: Trie, h: Tiles, m: Move)
    requires m in ExtendMoves(g, square, anchor, word, move, node, h)
    ensures m.Start() == move.Start() && Extends(m, move, h)
    decreases node, 1
  {
    var here := Recorded(anchor, word, move, node);
    if m in here {
      assert m == move && m.tiles[|move.tiles|..] == [];
      assert Supplied(h, [], []);
    } else if g.HasTile(square) {
      var c := g.LetterAt(square);
      var i := ChildIndex(node, c).value;
      ExtendKeepsStart(g, Translate(square, move.direction, 1), anchor, word + [c], move, node.nexts[i].1, h, m);
    } else {
      ExtendChildrenKeepStart(g, square, anchor, word, move, node, |node.nexts|, h, m);
    }
  }

  lemma {:induction false} ExtendChildrenKeepStart(g: Grid, square: Position, anchor: Position, word: string, move: Move, node: Trie, k: nat, h: Tiles, m: Move)
    requires k <= |node.nexts| && m in ExtendChildren(g, square, anchor, word, move, node, k, h)
    ensures m.Start() == move.Start() && Extends(m, move, h)
    decreases node, 0, k
  {
    if m in ExtendChildren(g, square, anchor, word, move, node, k - 1, h) {
      ExtendChildrenKeepStart(g, square, anchor, word, move, node, k - 1, h, m);
    } else {
      var c := node.nexts[k - 1].0;
      var choice := Choose(h, c).value;
      var rest := h - multiset{choice.1};
      ExtendKeepsStart(g, Translate(square, move.direction, 1), anchor, word + [c], PushTile(move, choice.0), node.nexts[k - 1].1, rest, m);
      ExtendsStep(m, move, choice.0, choice.1, h);
    }
  }

  /** left_part with limit 0 records nothing. */
  lemma LeftPartLimitZero(g: Grid, anchor: Position, word: string, move: Move, node: Trie, h: Tiles)
    ensures LeftMoves(g, anchor, word, move, node, 0, h) == []
  {
  }

  /** Every move left_part records starts k squares before the move it was
      given, on the same line, with 1 <= k <= limit, and has at least k new
      tiles: one prefix letter for each square it moved back. */
  lemma {:induction false} LeftShiftsStart(g: Grid, anchor: Position, word: string, move: Move, node: Trie, limit: nat, h: Tiles, m: Move)
    requires m in LeftMoves(g, anchor, word, move, node, limit, h)
    ensures Extends(m, move, h)
    ensures var d := move.direction;
            var k := Along(move.Start(), d) - Along(m.Start(), d);
            Fixed(m.Start(), d) == Fixed(move.Start(), d) && 1 <= k <= limit && |move.tiles| + k <= |m.tiles|
    decreases node, 1
  {
    LeftChildrenShift(g, anchor, word, move, node, limit, |node.nexts|, h, m);
  }

  lemma {:induction false} LeftChildrenShift(g: Grid, anchor: Position, word: string, move: Move, node: Trie, limit: nat, k: nat, h: Tiles, m: Move)
    requires 0 < limit && k <= |node.nexts| && m in LeftChildren(g, anchor, word, move, node, limit, k, h)
    ensures Extends(m, move, h)
    ensures var d := move.direction;
            var k := Along(move.Start(), d) - Along(m.Start(), d);
            Fixed(m.Start(), d) == Fixed(move.Start(), d) && 1 <= k <= limit && |move.tiles| + k <= |m.tiles|
    decreases node, 0, k
  {
    if m in LeftChildren(g, anchor, word, move, node, limit, k - 1, h) {
      LeftChildrenShift(g, anchor, word, move, node, limit, k - 1, h, m);
    } else {
      var c, child := node.nexts[k - 1].0, node.nexts[k - 1].1;
      var choice := Choose(h, c).value;
      var next := StepBack(PushTile(move, choice.0));
      var rest := h - multiset{choice.1};
      if m in ExtendMoves(g, anchor, anchor, word + [c], next, child, rest) {
        ExtendKeepsStart(g, anchor, anchor, word + [c], next, child, rest, m);
      } else {
        LeftShiftsStart(g, anchor, word + [c], next, child, limit - 1, rest, m);
      }
      assert Extends(m, PushTile(move, choice.0), rest);
      ExtendsStep(m, move, choice.0, choice.1, h);
    }
  }

  // -------------------------------------------------------------------------
  // The word a move spells on the board

  /** The letters of a sequence of tiles, in order. */
  function Letters(ts: seq<TileKind>): (s: string)
    ensures |s| == |ts|
  {
    if |ts| == 0 then [] else [ts[0].letter] + Letters(ts[1..])
  }

  /** The letters read on the n squares from p along d by a move whose new
      tiles are ts: the board's letter on an occupied square, the next new
      tile's letter on an empty one (reading stops when the tiles run out). */
  ghost function Spelled(g: Grid, p: Position, d: Direction, ts: seq<TileKind>, n: nat): string
    decreases n
  {
    if n == 0 then []
    else if g.HasTile(p) then [g.LetterAt(p)] + Spelled(g, Translate(p, d, 1), d, ts, n - 1)
    else if |ts| == 0 then []
    else [ts[0].letter] + Spelled(g, Translate(p, d, 1), d, ts[1..], n - 1)
  }

  /** The number of empty squares among the n squares from p along d. */
  ghost function EmptyCount(g: Grid, p: Position, d: Direction, n: nat): nat
    decreases n
  {
    if n == 0 then 0 else (if g.HasTile(p) then 0 else 1) + EmptyCount(g, Translate(p, d, 1), d, n - 1)
  }

  /** The n squares from p along d are all on the board. */
  ghost predicate OnBoard(g: Grid, p: Position, d: Direction, n: nat)
    decreases n
  {
    n == 0 || (g.InBounds(p) && OnBoard(g, Translate(p, d, 1), d, n - 1))
  }

  /** The k squares from p along d are all on the board and empty. */
  ghost predicate AllEmpty(g: Grid, p: Position, d: Direction, k: nat)
    decreases k
  {
    k == 0 || (g.InBounds(p) && !g.HasTile(p) && AllEmpty(g, Translate(p, d, 1), d, k - 1))
  }

  /** The n squares from p along d are on the board, their empty squares take
      exactly the new tiles ts, and prefix followed by what they read is a
      word of the dictionary. */
  ghost predicate Spells(g: Grid, root: Trie, prefix: string, p: Position, d: Direction, ts: seq<TileKind>, n: nat) {
    OnBoard(g, p, d, n) && EmptyCount(g, p, d, n) == |ts| && IsWord(root, prefix + Spelled(g, p, d, ts, n))
  }

  /** For some n, prefix followed by the n squares read from p Spells a word,
      and that word, counted from start, ends past the anchor (extend_right's
      test for recording a move). */
  ghost predicate SpellsPast(g: Grid, root: Trie, prefix: string, p: Position, d: Direction, ts: seq<TileKind>, start: Position, anchor: Position) {
    exists n: nat :: Spells(g, root, prefix, p, d, ts, n) && Reach(start, d) + |prefix| + n > Reach(anchor, d)
  }

  /** Reading an occupied square reads its letter and no new tile. */
  lemma SpelledOnTile(g: Grid, p: Position, d: Direction, ts: seq<TileKind>, n: nat)
    requires g.HasTile(p) && n > 0
    ensures Spelled(g, p, d, ts, n) == [g.LetterAt(p)] + Spelled(g, Translate(p, d, 1), d, ts, n - 1)
  {
  }

  /** Reading an empty square reads the next new tile. */
  lemma SpelledOnEmpty(g: Grid, p: Position, d: Direction, ts: seq<TileKind>, n: nat)
    requires !g.HasTile(p) && |ts| > 0 && n > 0
    ensures Spelled(g, p, d, ts, n) == [ts[0].letter] + Spelled(g, Translate(p, d, 1), d, ts[1..], n - 1)
  {
  }

  lemma LettersFront(ts: seq<TileKind>, k: nat)
    requires 0 < k <= |ts|
    ensures Letters(ts[..k]) == [ts[0].letter] + Letters(ts[1..][..k - 1])
  {
    assert ts[..k][1..] == ts[1..][..k - 1];
  }

  /** Reading k empty squares from p takes the first k new tiles, in order. */
  lemma {:induction false} SpelledOverEmpty(g: Grid, p: Position, d: Direction, ts: seq<TileKind>, k: nat, n: nat)
    requires k <= |ts| && AllEmpty(g, p, d, k)
    ensures Spelled(g, p, d, ts, k + n) == Letters(ts[..k]) + Spelled(g, Translate(p, d, k), d, ts[k..], n)
    decreases k
  {
    if k == 0 {
      PositionByCoordinates(Translate(p, d, 0), p, d);
      assert ts[..0] == [] && ts[0..] == ts;
    } else {
      var q := Translate(p, d, 1);
      SpelledOverEmpty(g, q, d, ts[1..], k - 1, n);
      PositionByCoordinates(Translate(q, d, k - 1), Translate(p, d, k), d);
      assert ts[1..][k - 1..] == ts[k..];
      LettersFront(ts, k);
      SpelledOnEmpty(g, p, d, ts, k + n);
    }
  }

  /** The k empty squares from p count k empty squares, on the board. */
  lemma {:induction false} CountOverEmpty(g: Grid, p: Position, d: Direction, k: nat, n: nat)
    requires AllEmpty(g, p, d, k)
    ensures EmptyCount(g, p, d, k + n) == k + EmptyCount(g, Translate(p, d, k), d, n)
    ensures OnBoard(g, Translate(p, d, k), d, n) ==> OnBoard(g, p, d, k + n)
    decreases k
  {
    if k == 0 {
      PositionByCoordinates(Translate(p, d, 0), p, d);
    } else {
      var q := Translate(p, d, 1);
      CountOverEmpty(g, q, d, k - 1, n);
      PositionByCoordinates(Translate(q, d, k - 1), Translate(p, d, k), d);
    }
  }

  /** k empty squares from p followed by one more empty square are k + 1. */
  lemma {:induction false} AllEmptySnoc(g: Grid, p: Position, d: Direction, k: nat)
    requires AllEmpty(g, p, d, k)
    requires g.InBounds(Translate(p, d, k)) && !g.HasTile(Translate(p, d, k))
    ensures AllEmpty(g, p, d, k + 1)
    decreases k
  {
    if k > 0 {
      var q := Translate(p, d, 1);
      PositionByCoordinates(Translate(q, d, k - 1), Translate(p, d, k), d);
      AllEmptySnoc(g, q, d, k - 1);
    }
  }

  /** A positive limit counts q itself, empty and on the board, and then
      one less from the square before q. */
  lemma LimitStep(g: Grid, q: Position, d: Direction)
    requires g.LimitFrom(q, d) > 0
    ensures g.InBounds(q) && !g.HasTile(q)
    ensures g.LimitFrom(Translate(q, d, -1), d) == g.LimitFrom(q, d) - 1
  {
  }

  /** The k squares an anchor's limit counts back from q, which begin at
      st, are on the board and empty. */
  lemma {:induction false} LimitEmpty(g: Grid, q: Position, d: Direction, k: nat, st: Position)
    requires k <= g.LimitFrom(q, d)
    requires Fixed(st, d) == Fixed(q, d) && Along(st, d) + k == Along(q, d) + 1
    ensures AllEmpty(g, st, d, k)
    decreases k
  {
    if k > 0 {
      LimitStep(g, q, d);
      LimitEmpty(g, Translate(q, d, -1), d, k - 1, st);
      PositionByCoordinates(Translate(st, d, k - 1), q, d);
      AllEmptySnoc(g, st, d, k - 1);
    }
  }

  /** Reading from q inside the run of tiles that ends just before the empty
      square p, j squares before it, first reads the rest of that run. */
  lemma {:induction false} SpelledThroughRun(g: Grid, q: Position, p: Position, d: Direction, ts: seq<TileKind>, j: nat, n: nat)
    requires !g.HasTile(p) && Fixed(q, d) == Fixed(p, d) && Along(q, d) + j == Along(p, d)
    requires Along(g.RunStart(p, d), d) <= Along(q, d)
    ensures Spelled(g, q, d, ts, j + n) == g.RunLetters(q, d) + Spelled(g, p, d, ts, n)
    decreases j
  {
    if j == 0 {
      PositionByCoordinates(q, p, d);
    } else {
      g.RunStartCovers(p, d, Along(q, d));
      PositionByCoordinates(g.OnLine(p, d, Along(q, d)), q, d);
      var next := Translate(q, d, 1);
      SpelledThroughRun(g, next, p, d, ts, j - 1, n);
      SpelledOnTile(g, q, d, ts, j + n);
      var c, rest, tail := g.LetterAt(q), g.RunLetters(next, d), Spelled(g, p, d, ts, n);
      assert g.RunLetters(q, d) == [c] + rest;
      assert [c] + (rest + tail) == ([c] + rest) + tail;
    }
  }

  /** The run of tiles before p holds no empty square and lies on the board. */
  lemma {:induction false} CountThroughRun(g: Grid, q: Position, p: Position, d: Direction, j: nat, n: nat)
    requires !g.HasTile(p) && Fixed(q, d) == Fixed(p, d) && Along(q, d) + j == Along(p, d)
    requires Along(g.RunStart(p, d), d) <= Along(q, d)
    ensures EmptyCount(g, q, d, j + n) == EmptyCount(g, p, d, n)
    ensures OnBoard(g, p, d, n) ==> OnBoard(g, q, d, j + n)
    decreases j
  {
    if j == 0 {
      PositionByCoordinates(q, p, d);
    } else {
      g.RunStartCovers(p, d, Along(q, d));
      PositionByCoordinates(g.OnLine(p, d, Along(q, d)), q, d);
      CountThroughRun(g, Translate(q, d, 1), p, d, j - 1, n);
    }
  }

  /** Spelling through an occupied square: its letter joins the prefix. */
  lemma SpellsOnTile(g: Grid, root: Trie, word: string, square: Position, d: Direction, ts: seq<TileKind>, n: nat)
    requires g.HasTile(square)
    requires Spells(g, root, word + [g.LetterAt(square)], Translate(square, d, 1), d, ts, n)
    ensures Spells(g, root, word, square, d, ts, n + 1)
  {
    var c, rest := g.LetterAt(square), Spelled(g, Translate(square, d, 1), d, ts, n);
    SpelledOnTile(g, square, d, ts, n + 1);
    assert word + ([c] + rest) == (word + [c]) + rest;
  }

  /** Spelling through an empty square on the board: the first new tile is
      played there and its letter joins the prefix. */
  lemma SpellsOnEmpty(g: Grid, root: Trie, word: string, square: Position, d: Direction, ts: seq<TileKind>, n: nat)
    requires g.InBounds(square) && !g.HasTile(square) && |ts| > 0
    requires Spells(g, root, word + [ts[0].letter], Translate(square, d, 1), d, ts[1..], n)
    ensures Spells(g, root, word, square, d, ts, n + 1)
  {
    var c, rest := ts[0].letter, Spelled(g, Translate(square, d, 1), d, ts[1..], n);
    SpelledOnEmpty(g, square, d, ts, n + 1);
    assert word + ([c] + rest) == (word + [c]) + rest;
  }

  /** A move extend_right records spells a dictionary word: the word read so
      far followed by the letters of some n squares from square on, which are
      on the board and take exactly the tiles the move adds on their empty
      squares; the word ends past the anchor. */
  lemma {:induction false} ExtendRecordsWords(g: Grid, root: Trie, square: Position, anchor: Position, word: string, move: Move, node: Trie, h: Tiles, m: Move)
    requires FindPrefix(root, word) == Some(node) && WellFormed(node)
    requires m in ExtendMoves(g, square, anchor, word, move, node, h)
    ensures |move.tiles| <= |m.tiles|
    ensures SpellsPast(g, root, word, square, move.direction, m.tiles[|move.tiles|..], move.Start(), anchor)
    decreases node, 1
  {
    var d := move.direction;
    var here := Recorded(anchor, word, move, node);
    if m in here {
      assert word + Spelled(g, square, d, [], 0) == word;
      assert Spells(g, root, word, square, d, m.tiles[|move.tiles|..], 0);
    } else if g.HasTile(square) {
      var c := g.LetterAt(square);
      var i := ChildIndex(node, c).value;
      FindPrefixSnoc(root, word, c);
      ExtendRecordsWords(g, root, Translate(square, d, 1), anchor, word + [c], move, node.nexts[i].1, h, m);
      var ts := m.tiles[|move.tiles|..];
      var n: nat :| Spells(g, root, word + [c], Translate(square, d, 1), d, ts, n)
                    && Reach(move.Start(), d) + |word + [c]| + n > Reach(anchor, d);
      SpellsOnTile(g, root, word, square, d, ts, n);
    } else {
      ExtendChildrenRecordWords(g, root, square, anchor, word, move, node, |node.nexts|, h, m);
    }
  }

  lemma {:induction false} ExtendChildrenRecordWords(g: Grid, root: Trie, square: Position, anchor: Position, word: string, move: Move, node: Trie, k: nat, h: Tiles, m: Move)
    requires FindPrefix(root, word) == Some(node) && WellFormed(node)
    requires g.InBounds(square) && !g.HasTile(square)
    requires k <= |node.nexts| && m in ExtendChildren(g, square, anchor, word, move, node, k, h)
    ensures |move.tiles| <= |m.tiles|
    ensures SpellsPast(g, root, word, square, move.direction, m.tiles[|move.tiles|..], move.Start(), anchor)
    decreases node, 0, k
  {
    if m in ExtendChildren(g, square, anchor, word, move, node, k - 1, h) {
      ExtendChildrenRecordWords(g, root, square, anchor, word, move, node, k - 1, h, m);
    } else {
      var d, j := move.direction, |move.tiles|;
      var c, child := node.nexts[k - 1].0, node.nexts[k - 1].1;
      var choice := Choose(h, c).value;
      var next := PushTile(move, choice.0);
      var rest := h - multiset{choice.1};
      ChildIndexUnique(node, c, k - 1);
      FindPrefixSnoc(root, word, c);
      ExtendKeepsStart(g, Translate(square, d, 1), anchor, word + [c], next, child, rest, m);
      ExtendRecordsWords(g, root, Translate(square, d, 1), anchor, word + [c], next, child, rest, m);
      var ts := m.tiles[j..];
      assert m.tiles[..j + 1] == move.tiles + [choice.0];
      assert ts[0] == m.tiles[..j + 1][j];
      assert ts[1..] == m.tiles[j + 1..];
      var n: nat :| Spells(g, root, word + [c], Translate(square, d, 1), d, m.tiles[j + 1..], n)
                    && Reach(next.Start(), d) + |word + [c]| + n > Reach(anchor, d);
      SpellsOnEmpty(g, root, word, square, d, ts, n);
    }
  }

  /** Move m starts k >= 1 squares before move (left_part's shift), has at
      least k new tiles after those of move, and SpellsPast the anchor: the
      prefix word, then the letters of its first k new tiles, then some
      squares read from the anchor on, which take its remaining new tiles. */
  ghost predicate LeftSpells(g: Grid, root: Trie, anchor: Position, word: string, move: Move, m: Move) {
    var d, j := move.direction, |move.tiles|;
    var k := Along(move.Start(), d) - Along(m.Start(), d);
    1 <= k && j + k <= |m.tiles|
    && SpellsPast(g, root, word + Letters(m.tiles[j..j + k]), anchor, d, m.tiles[j + k..], m.Start(), anchor)
  }

  /** A move left_part records starts k squares back (see LeftShiftsStart)
      and spells a dictionary word: the prefix read so far, then the letters
      of its first k new tiles, then the letters of some n squares from the
      anchor on, which are on the board and take exactly its remaining new
      tiles on their empty squares; the word ends past the anchor. */
  lemma {:induction false} LeftRecordsWords(g: Grid, root: Trie, anchor: Position, word: string, move: Move, node: Trie, limit: nat, h: Tiles, m: Move)
    requires FindPrefix(root, word) == Some(node) && WellFormed(node)
    requires m in LeftMoves(g, anchor, word, move, node, limit, h)
    ensures LeftSpells(g, root, anchor, word, move, m)
    decreases node, 1
  {
    LeftChildrenRecordWords(g, root, anchor, word, move, node, limit, |node.nexts|, h, m);
  }

  lemma {:induction false} LeftChildrenRecordWords(g: Grid, root: Trie, anchor: Position, word: string, move: Move, node: Trie, limit: nat, k: nat, h: Tiles, m: Move)
    requires FindPrefix(root, word) == Some(node) && WellFormed(node)
    requires 0 < limit && k <= |node.nexts| && m in LeftChildren(g, anchor, word, move, node, limit, k, h)
    ensures LeftSpells(g, root, anchor, word, move, m)
    decreases node, 0, k
  {
    if m in LeftChildren(g, anchor, word, move, node, limit, k - 1, h) {
      LeftChildrenRecordWords(g, root, anchor, word, move, node, limit, k - 1, h, m);
    } else {
      LeftChildRecordsWords(g, root, anchor, word, move, node, limit, k - 1, h, m);
    }
  }

  lemma {:induction false} LeftChildRecordsWords(g: Grid, root: Trie, anchor: Position, word: string, move: Move, node: Trie, limit: nat, i: nat, h: Tiles, m: Move)
    requires FindPrefix(root, word) == Some(node) && WellFormed(node)
    requires 0 < limit && i < |node.nexts| && m in LeftChild(g, anchor, word, move, node, limit, i, h)
    ensures LeftSpells(g, root, anchor, word, move, m)
    decreases node, 0, i
  {
    var c, child := node.nexts[i].0, node.nexts[i].1;
    var choice := Choose(h, c).value;
    var next := StepBack(PushTile(move, choice.0));
    var rest := h - multiset{choice.1};
    ChildIndexUnique(node, c, i);
    FindPrefixSnoc(root, word, c);
    if m in ExtendMoves(g, anchor, anchor, word + [c], next, child, rest) {
      PrefixThenExtend(g, root, anchor, word, move, c, child, choice.0, rest, m);
    } else {
      PrefixThenLeft(g, root, anchor, word, move, c, child, limit, choice.0, rest, m);
    }
  }

  /** A move recorded by extend_right from the anchor right after left_part
      played tile t at the front of the prefix. */
  lemma PrefixThenExtend(g: Grid, root: Trie, anchor: Position, word: string, move: Move, c: char, child: Trie, t: TileKind, rest: Tiles, m: Move)
    requires FindPrefix(root, word + [c]) == Some(child) && WellFormed(child) && t.letter == c
    requires m in ExtendMoves(g, anchor, anchor, word + [c], StepBack(PushTile(move, t)), child, rest)
    ensures LeftSpells(g, root, anchor, word, move, m)
    decreases child, 2
  {
    var d, j, next := move.direction, |move.tiles|, StepBack(PushTile(move, t));
    ExtendKeepsStart(g, anchor, anchor, word + [c], next, child, rest, m);
    ExtendRecordsWords(g, root, anchor, anchor, word + [c], next, child, rest, m);
    assert m.tiles[..j + 1] == move.tiles + [t];
    assert m.tiles[j] == m.tiles[..j + 1][j];
    assert (word + [c]) + Letters(m.tiles[j + 1..j + 1]) == word + [c];
    PrefixLetter(g, root, anchor, d, word, c, m.tiles, j, 1, m.Start());
  }

  /** A move recorded by the deeper left_part call after tile t was played at
      the front of the prefix. */
  lemma PrefixThenLeft(g: Grid, root: Trie, anchor: Position, word: string, move: Move, c: char, child: Trie, limit: nat, t: TileKind, rest: Tiles, m: Move)
    requires FindPrefix(root, word + [c]) == Some(child) && WellFormed(child) && t.letter == c && 0 < limit
    requires m in LeftMoves(g, anchor, word + [c], StepBack(PushTile(move, t)), child, limit - 1, rest)
    ensures LeftSpells(g, root, anchor, word, move, m)
    decreases child, 2
  {
    var d, j, next := move.direction, |move.tiles|, StepBack(PushTile(move, t));
    LeftShiftsStart(g, anchor, word + [c], next, child, limit - 1, rest, m);
    LeftRecordsWords(g, root, anchor, word + [c], next, child, limit - 1, rest, m);
    assert m.tiles[..j + 1] == move.tiles + [t];
    assert m.tiles[j] == m.tiles[..j + 1][j];
    PrefixLetter(g, root, anchor, d, word, c, m.tiles, j, 1 + Along(next.Start(), d) - Along(m.Start(), d), m.Start());
  }

  /** The tile left_part plays at the front of the prefix adds its letter to
      the front of the letters of the prefix tiles after it. */
  lemma PrefixLetter(g: Grid, root: Trie, anchor: Position, d: Direction, word: string, c: char, tiles: seq<TileKind>, j: nat, k: nat, start: Position)
    requires 1 <= k && j + k <= |tiles| && tiles[j].letter == c
    requires SpellsPast(g, root, (word + [c]) + Letters(tiles[j + 1..j + k]), anchor, d, tiles[j + k..], start, anchor)
    ensures SpellsPast(g, root, word + Letters(tiles[j..j + k]), anchor, d, tiles[j + k..], start, anchor)
  {
    LettersFront(tiles[j..j + k], k);
    assert tiles[j..j + k][1..][..k - 1] == tiles[j + 1..j + k];
    assert word + Letters(tiles[j..j + k]) == (word + [c]) + Letters(tiles[j + 1..j + k]);
  }

  /** What every move found for anchor a with hand h is: a PLACE move in the
      anchor's direction, starting k squares before the anchor on its line,
      k within the look-back limit, whose tiles the hand supplies, and which
      spells a dictionary word that ends past the anchor. With limit 0 the
      move starts on the anchor and the word is the run of tiles before it
      followed by some squares read from the anchor; otherwise the word is
      the letters of the move's first k tiles (the prefix, at least one)
      followed by some squares read from the anchor, which take the move's
      remaining tiles. */
  ghost predicate FoundFor(g: Grid, root: Trie, h: Tiles, handSize: nat, a: Anchor, m: Move) {
    var d, limit := a.direction, AnchorLimit(g, a, handSize);
    var k := Along(a.position, d) - Along(m.Start(), d);
    m.kind == Place && m.direction == d
    && Fixed(m.Start(), d) == Fixed(a.position, d)
    && DrawnFrom(h, m.tiles)
    && (if limit == 0 then k == 0 else 1 <= k <= limit) && k <= |m.tiles|
    && var prefix := if limit == 0 then g.RunLetters(g.RunStart(a.position, d), d) else Letters(m.tiles[..k]);
       SpellsPast(g, root, prefix, a.position, d, m.tiles[k..], m.Start(), a.position)
  }

  /** Every move the search finds for an anchor is a move FoundFor it. */
  lemma AnchorMovesSound(g: Grid, root: Trie, h: Tiles, handSize: nat, a: Anchor, m: Move)
    requires WellFormed(root) && m in AnchorMoves(g, root, h, handSize, a)
    ensures FoundFor(g, root, h, handSize, a, m)
  {
    var d, limit := a.direction, AnchorLimit(g, a, handSize);
    var move := PlaceMove([], a.position.row, a.position.column, d);
    assert move.Start() == a.position;
    if limit == 0 {
      var word := g.RunLetters(g.RunStart(a.position, d), d);
      var node := FindPrefix(root, word).value;
      FindPrefixWellFormed(root, word);
      ExtendKeepsStart(g, a.position, a.position, word, move, node, h, m);
      ExtendRecordsWords(g, root, a.position, a.position, word, move, node, h, m);
    } else {
      LeftShiftsStart(g, a.position, [], move, root, limit, h, m);
      LeftRecordsWords(g, root, a.position, [], move, root, limit, h, m);
      var k := Along(a.position, d) - Along(m.Start(), d);
      assert m.tiles[0..k] == m.tiles[..k] && m.tiles[0 + k..] == m.tiles[k..];
      assert [] + Letters(m.tiles[..k]) == Letters(m.tiles[..k]);
    }
    assert m.tiles[|move.tiles|..] == m.tiles;
  }

  /** Every candidate get_move collects is a move FoundFor one of the anchors. */
  lemma {:induction false} CandidatesSound(g: Grid, root: Trie, h: Tiles, handSize: nat, anchors: seq<Anchor>, m: Move)
    requires WellFormed(root) && m in Candidates(g, root, h, handSize, anchors)
    ensures exists a :: a in anchors && FoundFor(g, root, h, handSize, a, m)
    decreases |anchors|
  {
    var init := anchors[..|anchors| - 1];
    var last := anchors[|anchors| - 1];
    if m in Candidates(g, root, h, handSize, init) {
      CandidatesSound(g, root, h, handSize, init, m);
      assert forall a :: a in init ==> a in anchors;
    } else {
      AnchorMovesSound(g, root, h, handSize, last, m);
    }
  }

  /** The square before the start of a move found with a counted limit is
      free: it is either one more square the limit counted, or the square
      before the last one, which is no anchor spot and so has no tile beside it. */
  lemma BeforeFoundIsEmpty(g: Grid, q: Position, d: Direction, k: int, st: Position)
    requires 1 <= k <= g.LimitFrom(q, d)
    requires Fixed(st, d) == Fixed(q, d) && Along(st, d) == Along(q, d) + 1 - k
    ensures !g.HasTile(Translate(st, d, -1))
  {
    if k < g.LimitFrom(q, d) {
      g.LimitCounts(q, d, k);
      PositionByCoordinates(Translate(q, d, -k), Translate(st, d, -1), d);
    } else {
      g.LimitCounts(q, d, k - 1);
      PositionByCoordinates(Translate(q, d, -(k - 1)), st, d);
    }
  }

  /** With limit 0 the move starts on the anchor p, an empty square, and the
      word it spells begins with the run of tiles before p: read from the
      first square of that run, the squares spell the same word. */
  lemma SpellsFromRun(g: Grid, root: Trie, p: Position, d: Direction, ts: seq<TileKind>, n: nat)
    requires !g.HasTile(p)
    requires Spells(g, root, g.RunLetters(g.RunStart(p, d), d), p, d, ts, n)
    ensures Spells(g, root, [], g.RunStart(p, d), d, ts, Along(p, d) - Along(g.RunStart(p, d), d) + n)
  {
    var s := g.RunStart(p, d);
    var j := Along(p, d) - Along(s, d);
    SpelledThroughRun(g, s, p, d, ts, j, n);
    CountThroughRun(g, s, p, d, j, n);
    assert [] + Spelled(g, s, d, ts, j + n) == g.RunLetters(s, d) + Spelled(g, p, d, ts, n);
  }

  /** With a counted limit the move starts k squares before the anchor p,
      on squares the limit counted as empty, after a square with no tile: it
      begins its own run, and read from its start the squares spell the
      prefix letters followed by what is read from the anchor. */
  lemma SpellsFromPrefix(g: Grid, root: Trie, p: Position, d: Direction, ts: seq<TileKind>, k: nat, n: nat, st: Position)
    requires 1 <= k <= g.LimitFrom(Translate(p, d, -1), d) && k <= |ts|
    requires Fixed(st, d) == Fixed(p, d) && Along(st, d) + k == Along(p, d)
    requires Spells(g, root, Letters(ts[..k]), p, d, ts[k..], n)
    ensures g.RunStart(st, d) == st && Spells(g, root, [], st, d, ts, k + n)
  {
    var q := Translate(p, d, -1);
    LimitEmpty(g, q, d, k, st);
    BeforeFoundIsEmpty(g, q, d, k, st);
    SpelledOverEmpty(g, st, d, ts, k, n);
    CountOverEmpty(g, st, d, k, n);
    PositionByCoordinates(Translate(st, d, k), p, d);
    assert [] + Spelled(g, st, d, ts, k + n) == Letters(ts[..k]) + Spelled(g, p, d, ts[k..], n);
  }

  /** A move found for an anchor other than the start square spells a
      dictionary word on the board by itself: read from the first square of
      the run of tiles that ends just before its start, the board's letters
      on occupied squares and its own tiles, in order, on the empty ones. */
  lemma FoundOnBoard(g: Grid, root: Trie, h: Tiles, handSize: nat, a: Anchor, m: Move)
    requires !g.HasTile(a.position) && a.position != g.start
    requires a.limit == g.LimitFrom(Translate(a.position, a.direction, -1), a.direction)
    requires FoundFor(g, root, h, handSize, a, m)
    ensures exists n: nat :: Spells(g, root, [], g.RunStart(m.Start(), a.direction), a.direction, m.tiles, n)
  {
    var d, p, st := a.direction, a.position, m.Start();
    var k := Along(p, d) - Along(st, d);
    if a.limit == 0 {
      var word := g.RunLetters(g.RunStart(p, d), d);
      assert m.tiles[k..] == m.tiles;
      var n: nat :| Spells(g, root, word, p, d, m.tiles, n) && Reach(st, d) + |word| + n > Reach(p, d);
      PositionByCoordinates(st, p, d);
      SpellsFromRun(g, root, p, d, m.tiles, n);
    } else {
      var n: nat :| Spells(g, root, Letters(m.tiles[..k]), p, d, m.tiles[k..], n) && Reach(st, d) + |Letters(m.tiles[..k])| + n > Reach(p, d);
      SpellsFromPrefix(g, root, p, d, m.tiles, k, n, st);
    }
  }

  /** Every candidate get_move considers on a board is a move FoundFor one of
      the board's anchors, on an empty anchor square; away from the start
      square it also spells, on the board alone, a word of the dictionary. */
  lemma GetMoveCandidatesSound(g: Grid, root: Trie, h: Tiles, handSize: nat, m: Move)
    requires WellFormed(root) && m in Candidates(g, root, h, handSize, g.AnchorsSpec())
    ensures exists a: Anchor :: g.IsAnchorSpot(a.position) && FoundFor(g, root, h, handSize, a, m)
              && (a.position != g.start ==>
                    exists n: nat :: Spells(g, root, [], g.RunStart(m.Start(), a.direction), a.direction, m.tiles, n))
  {
    CandidatesSound(g, root, h, handSize, g.AnchorsSpec(), m);
    var a :| a in g.AnchorsSpec() && FoundFor(g, root, h, handSize, a, m);
    g.AnchorsSound(g.rows, a);
    if a.position != g.start {
      FoundOnBoard(g, root, h, handSize, a, m);
    }
  }

  // -------------------------------------------------------------------------
  // Properties of get_best_move

  /** Candidate k is the one chosen among the first i: it is eligible, scores
      more than zero, no eligible candidate scores more, and every eligible
      candidate before it scores less (ties keep the earlier). */
  ghost predicate Chosen(rs: seq<Rating>, i: nat, k: nat)
    requires k < i <= |rs|
  {
    rs[k].eligible && rs[k].score > 0
    && (forall j :: 0 <= j < i && rs[j].eligible ==> rs[j].score <= rs[k].score)
    && (forall j :: 0 <= j < k && rs[j].eligible ==> rs[j].score < rs[k].score)
  }

  /** The index of the candidate kept after the first i, or -1 while none is. */
  function ChosenIndex(rs: seq<Rating>, i: nat): (k: int)
    requires i <= |rs|
    ensures -1 <= k < i
    decreases i
  {
    if i == 0 then -1
    else
      var k := ChosenIndex(rs, i - 1);
      var most := if k < 0 then 0 else rs[k].score;
      if rs[i - 1].score > most && rs[i - 1].eligible then i - 1 else k
  }

  /** The selection holds the pass move until a candidate is kept, and then
      the kept candidate and its score. */
  lemma {:induction false} SelectKeeps(moves: seq<Move>, rs: seq<Rating>, i: nat)
    requires |rs| == |moves| && i <= |moves|
    ensures var k := ChosenIndex(rs, i);
            Select(moves, rs, i) == if k < 0 then (PassMove, 0) else (moves[k], rs[k].score)
    decreases i
  {
    if i > 0 {
      SelectKeeps(moves, rs, i - 1);
    }
  }

  /** No candidate is kept only when no eligible candidate scores anything;
      a kept candidate is the Chosen one. */
  lemma {:induction false} ChosenIndexMeaning(rs: seq<Rating>, i: nat)
    requires i <= |rs|
    ensures var k := ChosenIndex(rs, i);
            (k < 0 ==> forall j :: 0 <= j < i && rs[j].eligible ==> rs[j].score == 0)
            && (k >= 0 ==> Chosen(rs, i, k))
    decreases i
  {
    if i > 0 {
      ChosenIndexMeaning(rs, i - 1);
      var k := ChosenIndex(rs, i - 1);
      if k >= 0 && ChosenIndex(rs, i) == k {
        assert Chosen(rs, i - 1, k);
      }
    }
  }

  /** The loop of get_best_move is the selection followed by the first-move
      rewrite: the rewrite changes only the position and direction kept, never
      which candidate is kept. */
  lemma {:induction false} BestFromSelect(g: Grid, moves: seq<Move>, rs: seq<Rating>, i: nat)
    requires |rs| == |moves| && i <= |moves|
    ensures BestFrom(g, moves, rs, i) == (if i > 0 then AtStartIfEmpty(g, Select(moves, rs, i).0) else PassMove, Select(moves, rs, i).1)
    decreases i
  {
    if i > 1 {
      BestFromSelect(g, moves, rs, i - 1);
    }
  }

  /** get_best_move on a board whose start square holds a tile returns the
      pass move when no candidate is eligible with a positive score, and
      otherwise the chosen candidate, whose placement is valid. */
  lemma BestMoveOnPlayedBoard(g: Grid, root: Trie, moves: seq<Move>)
    requires g.Valid() && g.HasTile(g.start)
    ensures var best, rs := BestMove(g, root, moves), Ratings(g, root, moves);
            (best == PassMove && forall j :: 0 <= j < |moves| && rs[j].eligible ==> rs[j].score == 0)
            || exists k :: 0 <= k < |moves| && Chosen(rs, |moves|, k) && best == moves[k]
                           && g.TestPlaceSpec(moves[k]).Valid?
  {
    var rs := Ratings(g, root, moves);
    BestFromSelect(g, moves, rs, |moves|);
    SelectKeeps(moves, rs, |moves|);
    ChosenIndexMeaning(rs, |moves|);
  }

  /** get_best_move on a board whose start square is empty returns the pass
      move when there are no candidates, and otherwise a move at the start
      square, ACROSS, carrying the tiles of the selection (none if nothing
      was chosen). */
  lemma BestMoveOnEmptyStart(g: Grid, root: Trie, moves: seq<Move>)
    requires g.Valid() && !g.HasTile(g.start)
    ensures |moves| == 0 ==> BestMove(g, root, moves) == PassMove
    ensures |moves| > 0 ==>
              var best, chosen := BestMove(g, root, moves), Select(moves, Ratings(g, root, moves), |moves|).0;
              best.Start() == g.start && best.direction == Across
              && best.tiles == chosen.tiles && best.kind == chosen.kind
  {
    BestFromSelect(g, moves, Ratings(g, root, moves), |moves|);
  }
}
