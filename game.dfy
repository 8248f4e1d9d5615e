/** Scrabble: the rules the game applies around the players' moves: how a
    turn scores and when the game ends, the final subtraction of the hands
    left over, and who wins. */
module Game {
  import opened MoveTypes
  import opened Hand
  import opened Board
  import opened Player
  import opened ComputerPlayer

  /** The message of the MoveException for a PLACE below the minimum length. */
  const WORD_TOO_SHORT := "Word too short"

  /** The bonus for a PLACE that uses a whole hand. */
  const FULL_HAND_BONUS: nat := 50

  // -------------------------------------------------------------------------
  // final_subtraction, on values

  /** The value of every hand among the first n that still holds tiles,
      summed (the source's scoreAdded after n players). */
  function HeldValue(hands: seq<Tiles>, n: nat): nat
    requires n <= |hands|
  {
    if n == 0 then 0
    else HeldValue(hands, n - 1) + (if |hands[n - 1]| != 0 then Value(hands[n - 1]) else 0)
  }

  /** The number of the first n players still holding tiles (countNotEmpty). */
  function Holding(hands: seq<Tiles>, n: nat): (c: nat)
    requires n <= |hands|
    ensures c <= n
  {
    if n == 0 then 0 else Holding(hands, n - 1) + (if |hands[n - 1]| != 0 then 1 else 0)
  }

  /** The highest index below n of a player whose hand is empty (winIndex). */
  function LastEmpty(hands: seq<Tiles>, n: nat): (r: Option<nat>)
    requires n <= |hands|
    ensures r.Some? ==> r.value < n
  {
    if n == 0 then None
    else if |hands[n - 1]| == 0 then Some(n - 1)
    else LastEmpty(hands, n - 1)
  }

  /** One player's score after the subtraction: a player still holding
      tiles loses the value of the hand, floored at 0. */
  function Left(points: nat, hand: Tiles): (r: nat)
    ensures r <= points
    ensures |hand| == 0 ==> r == points
  {
    if |hand| != 0 then Deduct(points, Value(hand)) else points
  }

  /** Everyone's score after the subtraction. */
  function Deducted(points: seq<nat>, hands: seq<Tiles>): (r: seq<nat>)
    requires |points| == |hands|
    ensures |r| == |points|
    ensures forall k :: 0 <= k < |r| ==> r[k] == Left(points[k], hands[k])
  {
    seq(|points|, k requires 0 <= k < |points| => Left(points[k], hands[k]))
  }

  /** The scores after final_subtraction. */
  function FinalScores(points: seq<nat>, hands: seq<Tiles>): seq<nat>
    requires |points| == |hands|
  {
    var after := Deducted(points, hands);
    match LastEmpty(hands, |hands|)
    case None => after
    case Some(w) => after[w := after[w] + HeldValue(hands, |hands|)]
  }

  /** The sum of the first n scores. */
  function Sum(points: seq<nat>, n: nat): nat
    requires n <= |points|
  {
    if n == 0 then 0 else Sum(points, n - 1) + points[n - 1]
  }

  // -------------------------------------------------------------------------
  // final_subtraction, on the players

  /** The players' scores. */
  function Scores(plrs: seq<Player>): (r: seq<nat>)
    reads plrs
    ensures |r| == |plrs| && forall k :: 0 <= k < |plrs| ==> r[k] == plrs[k].points
  {
    seq(|plrs|, k requires 0 <= k < |plrs| reads plrs => plrs[k].points)
  }

  /** The players' hands. */
  function Hands(plrs: seq<Player>): (r: seq<Tiles>)
    reads plrs
    ensures |r| == |plrs| && forall k :: 0 <= k < |plrs| ==> r[k] == plrs[k].tiles
  {
    seq(|plrs|, k requires 0 <= k < |plrs| reads plrs => plrs[k].tiles)
  }

  predicate Distinct(plrs: seq<Player>) {
    forall i, j :: 0 <= i < j < |plrs| ==> plrs[i] != plrs[j]
  }

  /** Scrabble::final_subtraction */
  method FinalSubtraction(plrs: seq<Player>)
    requires Distinct(plrs)
    modifies plrs
    ensures Scores(plrs) == FinalScores(old(Scores(plrs)), old(Hands(plrs)))
    ensures Hands(plrs) == old(Hands(plrs))
  {
    ghost var points, hands := Scores(plrs), Hands(plrs);
    var scoreAdded, winIndex, countNotEmpty := DeductHands(plrs, points, hands);
    if countNotEmpty != |plrs| {
      plrs[winIndex].AddPoints(scoreAdded);
    }
    ghost var after := Deducted(points, hands);
    ghost var final := FinalScores(points, hands);
    assert final == if countNotEmpty == |plrs| then after
                    else after[winIndex := after[winIndex] + scoreAdded];
    assert forall k :: 0 <= k < |plrs| ==> plrs[k].points == final[k] && plrs[k].tiles == hands[k];
  }

  /** One step of final_subtraction's loop: a player holding tiles loses the
      value of the hand. */
  method DeductHand(p: Player) returns (holding: bool, value: nat)
    modifies p
    ensures p.tiles == old(p.tiles) && holding == (|p.tiles| != 0)
    ensures holding ==> value == Value(p.tiles) && p.points == Deduct(old(p.points), value)
    ensures !holding ==> p.points == old(p.points)
  {
    holding := p.CountTiles() != 0;
    value := 0;
    if holding {
      value := p.HandValue();
      p.SubtractPoints(value);
    }
  }

  /** The state of final_subtraction's loop after the first i players:
      hands untouched, the first i players' scores subtracted, and the
      tallies of the source's scoreAdded, countNotEmpty and winIndex. */
  ghost predicate Partway(plrs: seq<Player>, points: seq<nat>, hands: seq<Tiles>, i: nat,
                          scoreAdded: nat, winIndex: nat, countNotEmpty: nat)
    reads plrs
  {
    |points| == |plrs| && |hands| == |plrs| && i <= |plrs| &&
    (forall k :: 0 <= k < |plrs| ==> plrs[k].tiles == hands[k]) &&
    (forall k :: 0 <= k < i ==> plrs[k].points == Left(points[k], hands[k])) &&
    (forall k :: i <= k < |plrs| ==> plrs[k].points == points[k]) &&
    scoreAdded == HeldValue(hands, i) && countNotEmpty <= i &&
    LastEmpty(hands, i) == if countNotEmpty == i then None else Some(winIndex)
  }

  /** The loop of final_subtraction: every player still holding tiles loses
      the value of the hand, and the loop tallies what the winner gets.
      points and hands are the players' scores and hands on entry. */
  method DeductHands(plrs: seq<Player>, ghost points: seq<nat>, ghost hands: seq<Tiles>)
    returns (scoreAdded: nat, winIndex: nat, countNotEmpty: nat)
    requires Distinct(plrs) && |points| == |plrs| && |hands| == |plrs|
    requires forall k :: 0 <= k < |plrs| ==> plrs[k].points == points[k] && plrs[k].tiles == hands[k]
    modifies plrs
    ensures Partway(plrs, points, hands, |plrs|, scoreAdded, winIndex, countNotEmpty)
  {
    scoreAdded, winIndex, countNotEmpty := 0, 0, 0;
    var i := 0;
    while i < |plrs|
      invariant i <= |plrs|
      invariant Partway(plrs, points, hands, i, scoreAdded, winIndex, countNotEmpty)
    {
      scoreAdded, winIndex, countNotEmpty := DeductStep(plrs, points, hands, i, scoreAdded, winIndex, countNotEmpty);
      i := i + 1;
    }
  }

  /** One pass of final_subtraction's loop, for player i. */
  method DeductStep(plrs: seq<Player>, ghost points: seq<nat>, ghost hands: seq<Tiles>, i: nat,
                    scoreAdded: nat, winIndex: nat, countNotEmpty: nat)
    returns (scoreAdded': nat, winIndex': nat, countNotEmpty': nat)
    requires Distinct(plrs) && i < |plrs|
    requires Partway(plrs, points, hands, i, scoreAdded, winIndex, countNotEmpty)
    modifies plrs[i]
    ensures Partway(plrs, points, hands, i + 1, scoreAdded', winIndex', countNotEmpty')
  {
    var holding, value := DeductHand(plrs[i]);
    assert plrs[i].points == Left(points[i], hands[i]);
    scoreAdded', winIndex', countNotEmpty' := scoreAdded, winIndex, countNotEmpty;
    if holding {
      scoreAdded' := scoreAdded + value;
      countNotEmpty' := countNotEmpty + 1;
    } else {
      winIndex' := i;
    }
  }

  // -------------------------------------------------------------------------
  // print_result's choice of winners

  /** The highest score (0 when there are no players). */
  function MaxScore(points: seq<nat>): (m: nat)
    ensures forall k :: 0 <= k < |points| ==> points[k] <= m
    ensures |points| > 0 ==> exists k :: 0 <= k < |points| && points[k] == m
    decreases |points|
  {
    if |points| == 0 then 0
    else
      var rest := MaxScore(points[..|points| - 1]);
      if points[|points| - 1] > rest then points[|points| - 1] else rest
  }

  /** print_result's first loop: the highest score. */
  method HighestScore(points: seq<nat>) returns (most: nat)
    ensures most == MaxScore(points)
  {
    most := 0;
    var i := 0;
    while i < |points|
      invariant 0 <= i <= |points|
      invariant forall k :: 0 <= k < i ==> points[k] <= most
      invariant most == 0 || exists k :: 0 <= k < i && points[k] == most
    {
      if points[i] > most {
        most := points[i];
      }
      i := i + 1;
    }
    if |points| > 0 {
      var k :| 0 <= k < |points| && points[k] == MaxScore(points);
      assert points[k] <= most;
    }
  }

  /** The winners of print_result, as indices into the list of players, in
      the players' order: exactly those with the highest score, and at least
      one when there are players. */
  method Winners(points: seq<nat>) returns (winners: seq<nat>)
    ensures forall k: nat :: k in winners <==> k < |points| && points[k] == MaxScore(points)
    ensures forall a, b :: 0 <= a < b < |winners| ==> winners[a] < winners[b]
    ensures |points| > 0 ==> |winners| > 0
  {
    var most := HighestScore(points);
    winners := [];
    var i := 0;
    while i < |points|
      invariant 0 <= i <= |points|
      invariant forall k: nat :: k in winners <==> k < i && points[k] == most
      invariant forall a, b :: 0 <= a < b < |winners| ==> winners[a] < winners[b]
      invariant forall a :: 0 <= a < |winners| ==> winners[a] < i
    {
      if points[i] >= most {
        winners := winners + [i];
      }
      i := i + 1;
    }
    if |points| > 0 {
      var k :| 0 <= k < |points| && points[k] == MaxScore(points);
      assert k in winners;
    }
  }

  // -------------------------------------------------------------------------
  // game_loop's rules for one turn

  /** How one attempt of a player's turn ends: the turn is over, the game is
      over, or a MoveException sends the player back to try again. */
  datatype TurnOutcome = Continue | GameOver | Retry(message: string)

  /** The number of human players (the counting loop before the game starts). */
  function Humans(plrs: seq<Player>): nat
    decreases |plrs|
  {
    if |plrs| == 0 then 0 else Humans(plrs[..|plrs| - 1]) + (if plrs[|plrs| - 1].human then 1 else 0)
  }

  /** The points a PLACE earns its player: the points of the placement (as a
      size_t), plus the bonus when the move uses hand_size tiles. */
  function PlaceGain(result: PlaceResult, placed: nat, handSize: nat): (n: nat)
    ensures n >= AsSize(result.Points())
    ensures n - AsSize(result.Points()) == (if placed == handSize then FULL_HAND_BONUS else 0)
  {
    AsSize(result.Points()) + if placed == handSize then FULL_HAND_BONUS else 0
  }

  class Game {
    const handSize: nat
    const minimumWordLength: nat
    const board: Board
    const players: seq<Player>
    const numHumans: nat
    var bag: Tiles
    var numHumansPassed: nat

    constructor (board: Board, players: seq<Player>, handSize: nat, minimumWordLength: nat, bag: Tiles)
      ensures this.board == board && this.players == players && this.bag == bag
      ensures this.handSize == handSize && this.minimumWordLength == minimumWordLength
      ensures numHumans == Humans(players) && numHumansPassed == 0
    {
      this.board := board;
      this.players := players;
      this.handSize := handSize;
      this.minimumWordLength := minimumWordLength;
      this.bag := bag;
      numHumansPassed := 0;
      var n := 0;
      var i := 0;
      while i < |players|
        invariant 0 <= i <= |players| && n == Humans(players[..i])
      {
        assert players[..i + 1][..i] == players[..i];
        if players[i].human {
          n := n + 1;
        }
        i := i + 1;
      }
      assert players[..i] == players;
      numHumans := n;
    }

    /** One attempt at player i's turn in game_loop, once get_move has
        returned move; drawn stands for the tiles the bag hands out at
        random to refill the hand. */
    method Turn(i: nat, move: Move, drawn: seq<TileKind>) returns (outcome: TurnOutcome)
      requires i < |players| && board.Valid()
      requires multiset(drawn) <= bag + (if move.kind == Exchange then multiset(move.tiles) else multiset{})
      modifies this, board, players[i]
      ensures board.Valid()
      ensures move.kind == Pass ==>
                numHumansPassed == old(numHumansPassed) + (if players[i].human then 1 else 0)
                && outcome == (if numHumansPassed == numHumans then GameOver else Continue)
                && unchanged(players[i]) && unchanged(board) && bag == old(bag)
      ensures move.kind == Exchange ==>
                var removal := RemoveAll(old(players[i].tiles), move.tiles);
                unchanged(board) && players[i].points == old(players[i].points)
                && numHumansPassed == (if players[i].human then 0 else old(numHumansPassed))
                && if removal.error.Some? then
                     outcome == Retry(removal.error.value) && players[i].tiles == removal.hand && bag == old(bag)
                   else
                     outcome == Continue && players[i].tiles == removal.hand + multiset(drawn)
                     && bag == old(bag) + multiset(move.tiles) - multiset(drawn)
      ensures move.kind == Place ==>
                var removal := RemoveAll(old(players[i].tiles), move.tiles);
                numHumansPassed == (if players[i].human then 0 else old(numHumansPassed))
                && if |move.tiles| < minimumWordLength then
                     outcome == Retry(WORD_TOO_SHORT) && unchanged(players[i]) && unchanged(board) && bag == old(bag)
                   else if removal.error.Some? then
                     outcome == Retry(removal.error.value) && players[i].tiles == removal.hand
                     && players[i].points == old(players[i].points) && unchanged(board) && bag == old(bag)
                   else
                     var placed := old(board.Contents()).PlaceOutcome(move);
                     board.Contents() == placed.1
                     && players[i].points == old(players[i].points) + PlaceGain(placed.0, |move.tiles|, handSize)
                     && (outcome == GameOver <==> |removal.hand| == 0 && |old(bag)| == 0)
                     && (outcome == GameOver ==> players[i].tiles == removal.hand && bag == old(bag))
                     && (outcome != GameOver ==>
                           outcome == Continue && players[i].tiles == removal.hand + multiset(drawn)
                           && bag == old(bag) - multiset(drawn))
    {
      var p := players[i];
      if move.kind == Pass {
        if p.human {
          numHumansPassed := numHumansPassed + 1;
        }
        if numHumansPassed == numHumans {
          return GameOver;
        }
        return Continue;
      } else if move.kind == Exchange {
        if p.human {
          numHumansPassed := 0;
        }
        var error := p.RemoveTiles(move.tiles);
        if error.Some? {
          return Retry(error.value);
        }
        bag := bag + multiset(move.tiles);
        bag := bag - multiset(drawn);
        p.AddTiles(drawn);
        return Continue;
      } else {
        if p.human {
          numHumansPassed := 0;
        }
        if |move.tiles| < minimumWordLength {
          return Retry(WORD_TOO_SHORT);
        }
        var error := p.RemoveTiles(move.tiles);
        if error.Some? {
          return Retry(error.value);
        }
        var placed := board.Place(move);
        p.AddPoints(AsSize(placed.Points()));
        if |move.tiles| == handSize {
          p.AddPoints(FULL_HAND_BONUS);
        }
        if p.CountTiles() == 0 && |bag| == 0 {
          return GameOver;
        }
        bag := bag - multiset(drawn);
        p.AddTiles(drawn);
        return Continue;
      }
    }
  }

  // -------------------------------------------------------------------------
  // Properties

  /** LastEmpty finds the highest index of an empty hand below n, and None
      means each of the first n hands holds tiles. */
  lemma {:induction false} LastEmptyMeaning(hands: seq<Tiles>, n: nat)
    requires n <= |hands|
    ensures var r := LastEmpty(hands, n);
            (r.Some? ==> |hands[r.value]| == 0 && forall k :: r.value < k < n ==> |hands[k]| != 0)
            && (r.None? ==> forall k :: 0 <= k < n ==> |hands[k]| != 0)
  {
    if n > 0 && |hands[n - 1]| != 0 {
      LastEmptyMeaning(hands, n - 1);
    }
  }

  /** A player still holding tiles ends with the score less the value of
      the hand, floored at 0, whoever else went out. */
  lemma FinalHolding(points: seq<nat>, hands: seq<Tiles>, k: nat)
    requires |points| == |hands| && k < |hands| && |hands[k]| != 0
    ensures FinalScores(points, hands)[k] == Deduct(points[k], Value(hands[k]))
  {
    LastEmptyMeaning(hands, |hands|);
  }

  /** When every player still holds tiles, nobody gains: each score only
      loses the value of its hand. */
  lemma NobodyWentOut(points: seq<nat>, hands: seq<Tiles>)
    requires |points| == |hands| && forall k :: 0 <= k < |hands| ==> |hands[k]| != 0
    ensures FinalScores(points, hands) == Deducted(points, hands)
    ensures forall k :: 0 <= k < |points| ==> FinalScores(points, hands)[k] <= points[k]
  {
    LastEmptyMeaning(hands, |hands|);
  }

  /** The last player in order whose hand is empty gains the value of every
      hand still held; any other player with an empty hand keeps the score. */
  lemma WinnerGains(points: seq<nat>, hands: seq<Tiles>, w: nat)
    requires |points| == |hands| && w < |hands| && |hands[w]| == 0
    requires forall k :: w < k < |hands| ==> |hands[k]| != 0
    ensures FinalScores(points, hands)[w] == points[w] + HeldValue(hands, |hands|)
    ensures forall k :: 0 <= k < |hands| && k != w && |hands[k]| == 0 ==>
              FinalScores(points, hands)[k] == points[k]
  {
    LastEmptyMeaning(hands, |hands|);
    var r := LastEmpty(hands, |hands|);
    assert r == Some(w) by {
      if r.None? || r.value < w {
        assert false;
      }
    }
  }

  /** Over the first n players, the scores after the subtraction plus the
      values of the hands still held make at least the scores before, and
      exactly those when no score was floored at 0. */
  lemma {:induction false} DeductedSum(points: seq<nat>, hands: seq<Tiles>, n: nat)
    requires |points| == |hands| && n <= |hands|
    ensures Sum(Deducted(points, hands), n) + HeldValue(hands, n) >= Sum(points, n)
    ensures (forall k :: 0 <= k < n && |hands[k]| != 0 ==> Value(hands[k]) <= points[k]) ==>
              Sum(Deducted(points, hands), n) + HeldValue(hands, n) == Sum(points, n)
  {
    if n > 0 {
      DeductedSum(points, hands, n - 1);
    }
  }

  /** Raising one score raises the sum of the scores that include it. */
  lemma {:induction false} SumRaise(points: seq<nat>, w: nat, x: nat, n: nat)
    requires w < |points| && n <= |points|
    ensures Sum(points[w := points[w] + x], n) == Sum(points, n) + (if w < n then x else 0)
  {
    if n > 0 {
      SumRaise(points, w, x, n - 1);
    }
  }

  /** When some player went out, the total of the scores does not fall: the
      winner gains every value deducted from the others, and it stays the
      same when no score was floored at 0. */
  lemma FinalTotal(points: seq<nat>, hands: seq<Tiles>, w: nat)
    requires |points| == |hands| && w < |hands| && |hands[w]| == 0
    ensures Sum(FinalScores(points, hands), |hands|) >= Sum(points, |points|)
    ensures (forall k :: 0 <= k < |hands| && |hands[k]| != 0 ==> Value(hands[k]) <= points[k]) ==>
              Sum(FinalScores(points, hands), |hands|) == Sum(points, |points|)
  {
    LastEmptyMeaning(hands, |hands|);
    var after := Deducted(points, hands);
    match LastEmpty(hands, |hands|)
    case None =>
      assert false;
    case Some(v) =>
      DeductedSum(points, hands, |hands|);
      SumRaise(after, v, HeldValue(hands, |hands|), |hands|);
  }
}
