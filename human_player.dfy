/** HumanPlayer: turning a typed command, already split into tokens, into a
    move, and the checks get_move makes before accepting it. The player's
    hand is passed in as a value; these operations only read it. */
module HumanPlayer {
  import opened MoveTypes
  import opened Hand
  import opened Trie
  import opened Board

  const INVALID_COMMAND := "Invalid Command"
  const TILE_MISSING := "Invalid Move, tile not found in your hand"
  const LETTER_MISSING := "Invalid Move, letter not found in your hand"
  const TOO_MANY_PLACED := "Too many letters placed"
  const WORDS_INVALID := "1 or more words formed are not valid"
  const TOO_MANY_SWAPPED := "Too many letters to swap"

  /** How a parse or check ends: a value, a CommandException, a
      MoveException, or an invalid_argument or out_of_range that nothing
      catches. */
  datatype Outcome<T> =
    | Ok(value: T)
    | CommandError(message: string)
    | MoveError(message: string)
    | InvalidArgument
    | OutOfRange

  /** A failed outcome carried over to another result type. */
  function Failed<T, U>(o: Outcome<T>): (r: Outcome<U>)
    requires !o.Ok?
    ensures !r.Ok?
    ensures r.CommandError? == o.CommandError? && r.MoveError? == o.MoveError?
    ensures r.InvalidArgument? == o.InvalidArgument? && r.OutOfRange? == o.OutOfRange?
    ensures (r.CommandError? || r.MoveError?) ==> r.message == o.message
  {
    match o
    case CommandError(m) => CommandError(m)
    case MoveError(m) => MoveError(m)
    case InvalidArgument => InvalidArgument
    case OutOfRange => OutOfRange
  }

  /** ::toupper on one character (the "C" locale: only a-z change). */
  function UpperChar(c: char): char {
    if 'a' <= c <= 'z' then (c as int - 32) as char else c
  }

  /** to_upper */
  function Upper(s: string): (r: string)
    ensures |r| == |s| && forall k :: 0 <= k < |s| ==> r[k] == UpperChar(s[k])
  {
    seq(|s|, k requires 0 <= k < |s| => UpperChar(s[k]))
  }

  /** Upper-casing twice is upper-casing once. */
  lemma UpperIdempotent(s: string)
    ensures Upper(Upper(s)) == Upper(s)
  {
  }

  // -------------------------------------------------------------------------
  // parse_tiles

  /** The outcome of parse_tiles' first loop: the tile kinds it looked up,
      with their multiplicities (the source's count map), or the message of
      the first lookup that failed. */
  datatype Count = Counted(kinds: multiset<TileKind>) | Missing(message: string)

  function Merge(kinds: multiset<TileKind>, c: Count): Count {
    match c
    case Missing(_) => c
    case Counted(more) => Counted(kinds + more)
  }

  /** The first loop from index i on: a '?' looks up a blank and skips the
      letter after it; any other character looks up that letter. */
  function CountFrom(h: Tiles, s: string, i: nat): Count
    decreases |s| + 2 - i
  {
    if i >= |s| then Counted(multiset{})
    else if s[i] == BLANK_LETTER then
      match Lookup(h, BLANK_LETTER)
      case None => Missing(TILE_MISSING)
      case Some(t) => Merge(multiset{t}, CountFrom(h, s, i + 2))
    else
      match Lookup(h, s[i])
      case None => Missing(LETTER_MISSING)
      case Some(t) => Merge(multiset{t}, CountFrom(h, s, i + 1))
  }

  function Prepend(ts: seq<TileKind>, r: Option<seq<TileKind>>): Option<seq<TileKind>> {
    match r
    case None => None
    case Some(more) => Some(ts + more)
  }

  lemma PrependTwice(ts: seq<TileKind>, us: seq<TileKind>, r: Option<seq<TileKind>>)
    ensures Prepend([], r) == r
    ensures Prepend(ts, Prepend(us, r)) == Prepend(ts + us, r)
  {
    if r.Some? {
      assert [] + r.value == r.value;
      assert ts + (us + r.value) == (ts + us) + r.value;
    }
  }

  /** The PLACE loop from index i on: '?' is dropped, a letter right after a
      '?' becomes a zero-point tile of that letter, and every other letter
      is the hand's tile; None where a lookup throws. */
  function PlaceTilesFrom(h: Tiles, s: string, i: nat): Option<seq<TileKind>>
    requires i <= |s|
    decreases |s| - i
  {
    if i == |s| then Some([])
    else if s[i] == BLANK_LETTER then PlaceTilesFrom(h, s, i + 1)
    else if i > 0 && s[i - 1] == BLANK_LETTER then Prepend([TileKind(s[i], 0)], PlaceTilesFrom(h, s, i + 1))
    else
      match Lookup(h, s[i])
      case None => None
      case Some(t) => Prepend([t], PlaceTilesFrom(h, s, i + 1))
  }

  /** The EXCHANGE loop from index i on: every character, '?' included, is
      looked up in the hand. */
  function ExchangeTilesFrom(h: Tiles, s: string, i: nat): Option<seq<TileKind>>
    requires i <= |s|
    decreases |s| - i
  {
    if i == |s| then Some([])
    else
      match Lookup(h, s[i])
      case None => None
      case Some(t) => Prepend([t], ExchangeTilesFrom(h, s, i + 1))
  }

  /** parse_tiles: the letters are upper-cased, looked up and counted; a kind
      asked for more often than the hand holds it is refused; then the
      tiles of the move are built for PLACE or EXCHANGE. */
  function ParsedTiles(letters: string, kind: MoveKind, h: Tiles): Outcome<seq<TileKind>> {
    var s := Upper(letters);
    match CountFrom(h, s, 0)
    case Missing(message) => MoveError(message)
    case Counted(kinds) =>
      if !(kinds <= h) then MoveError(TILE_MISSING)
      else
        var tiles := if kind == Place then PlaceTilesFrom(h, s, 0) else ExchangeTilesFrom(h, s, 0);
        match tiles
        case None => OutOfRange
        case Some(ts) => Ok(ts)
  }

  /** HumanPlayer::parse_tiles */
  method ParseTiles(letters0: string, kind: MoveKind, hand: Tiles) returns (r: Outcome<seq<TileKind>>)
    ensures r == ParsedTiles(letters0, kind, hand)
  {
    var letters := Upper(letters0);
    var counts, error := CountLetters(letters, hand);
    if error.Some? {
      return MoveError(error.value);
    }
    var enough := HandHolds(counts, hand);
    if !enough {
      return MoveError(TILE_MISSING);
    }
    var tiles;
    if kind == Place {
      tiles := BuildPlaceTiles(letters, hand);
    } else {
      tiles := BuildExchangeTiles(letters, hand);
    }
    if tiles.None? {
      return OutOfRange;
    }
    return Ok(tiles.value);
  }

  /** The first loop of parse_tiles, filling the count map. */
  method CountLetters(letters: string, hand: Tiles) returns (counts: multiset<TileKind>, error: Option<string>)
    ensures CountFrom(hand, letters, 0) == if error.Some? then Missing(error.value) else Counted(counts)
  {
    counts := multiset{};
    var i := 0;
    while i < |letters|
      invariant 0 <= i <= |letters| + 1
      invariant CountFrom(hand, letters, 0) == Merge(counts, CountFrom(hand, letters, i))
      decreases |letters| + 2 - i
    {
      if letters[i] == BLANK_LETTER {
        var t := Lookup(hand, BLANK_LETTER);
        if t.None? {
          return counts, Some(TILE_MISSING);
        }
        counts := counts + multiset{t.value};
        i := i + 1;
      } else {
        var t := Lookup(hand, letters[i]);
        if t.None? {
          return counts, Some(LETTER_MISSING);
        }
        counts := counts + multiset{t.value};
      }
      i := i + 1;
    }
    error := None;
  }

  /** The loop over the count map: every kind must be held at least as often
      as it was asked for. The keys are visited in any order, since every
      failure gives the same message. */
  method HandHolds(counts: multiset<TileKind>, hand: Tiles) returns (enough: bool)
    ensures enough <==> counts <= hand
  {
    var keys := set k | k in counts;
    while keys != {}
      invariant forall k :: k in keys ==> k in counts
      invariant forall k :: k in counts && k !in keys ==> counts[k] <= hand[k]
      decreases keys
    {
      var k :| k in keys;
      if hand[k] < counts[k] {
        return false;
      }
      keys := keys - {k};
    }
    assert forall k :: counts[k] <= hand[k] by {
      forall k ensures counts[k] <= hand[k] {
        if k !in counts {
          assert counts[k] == 0;
        }
      }
    }
    return true;
  }

  /** The PLACE loop of parse_tiles. */
  method BuildPlaceTiles(letters: string, hand: Tiles) returns (tiles: Option<seq<TileKind>>)
    ensures tiles == PlaceTilesFrom(hand, letters, 0)
  {
    var out := [];
    var i := 0;
    PrependTwice([], [], PlaceTilesFrom(hand, letters, 0));
    while i < |letters|
      invariant 0 <= i <= |letters|
      invariant PlaceTilesFrom(hand, letters, 0) == Prepend(out, PlaceTilesFrom(hand, letters, i))
    {
      if letters[i] == BLANK_LETTER {
        i := i + 1;
        continue;
      }
      if i > 0 && letters[i - 1] == BLANK_LETTER {
        PrependTwice(out, [TileKind(letters[i], 0)], PlaceTilesFrom(hand, letters, i + 1));
        out := out + [TileKind(letters[i], 0)];
        i := i + 1;
        continue;
      }
      var t := Lookup(hand, letters[i]);
      if t.None? {
        return None;
      }
      PrependTwice(out, [t.value], PlaceTilesFrom(hand, letters, i + 1));
      out := out + [t.value];
      i := i + 1;
    }
    assert out + [] == out;
    return Some(out);
  }

  /** The EXCHANGE loop of parse_tiles. */
  method BuildExchangeTiles(letters: string, hand: Tiles) returns (tiles: Option<seq<TileKind>>)
    ensures tiles == ExchangeTilesFrom(hand, letters, 0)
  {
    var out := [];
    var i := 0;
    PrependTwice([], [], ExchangeTilesFrom(hand, letters, 0));
    while i < |letters|
      invariant 0 <= i <= |letters|
      invariant ExchangeTilesFrom(hand, letters, 0) == Prepend(out, ExchangeTilesFrom(hand, letters, i))
    {
      var t := Lookup(hand, letters[i]);
      if t.None? {
        return None;
      }
      PrependTwice(out, [t.value], ExchangeTilesFrom(hand, letters, i + 1));
      out := out + [t.value];
      i := i + 1;
    }
    assert out + [] == out;
    return Some(out);
  }

  // -------------------------------------------------------------------------
  // stoi

  const INT_MIN := -0x8000_0000
  const INT_MAX := 0x7fff_ffff

  predicate IsDigit(c: char) {
    '0' <= c <= '9'
  }

  /** ::isspace in the "C" locale: blank, tab, newline, vertical tab, form
      feed and carriage return. */
  predicate IsSpace(c: char) {
    c == ' ' || c == '\t' || c == '\n' || c as int == 11 || c as int == 12 || c == '\r'
  }

  /** s without its leading white space. */
  function SkipSpace(s: string): (t: string)
    ensures |t| <= |s| && t == s[|s| - |t|..]
    ensures |t| == 0 || !IsSpace(t[0])
  {
    if |s| > 0 && IsSpace(s[0]) then SkipSpace(s[1..]) else s
  }

  /** The run of digits at the front of s. */
  function Digits(s: string): (d: string)
    ensures |d| <= |s|
  {
    if |s| == 0 || !IsDigit(s[0]) then [] else [s[0]] + Digits(s[1..])
  }

  /** The digits read are the longest run of digits that starts s. */
  lemma {:induction false} DigitsLongest(s: string)
    ensures Digits(s) == s[..|Digits(s)|]
    ensures forall k :: 0 <= k < |Digits(s)| ==> IsDigit(s[k])
    ensures |Digits(s)| < |s| ==> !IsDigit(s[|Digits(s)|])
  {
    if |s| > 0 && IsDigit(s[0]) {
      DigitsLongest(s[1..]);
    }
  }

  /** A string of digits is read whole. */
  lemma {:induction false} DigitsAll(s: string)
    requires forall k :: 0 <= k < |s| ==> IsDigit(s[k])
    ensures Digits(s) == s
  {
    if |s| > 0 {
      assert IsDigit(s[0]);
      DigitsAll(s[1..]);
    }
  }

  /** The value of a string of decimal digits, most significant first. */
  function DigitsValue(s: string): int {
    if |s| == 0 then 0 else 10 * DigitsValue(s[..|s| - 1]) + (s[|s| - 1] as int - '0' as int)
  }

  lemma {:induction false} DigitsValueNatural(s: string)
    requires forall k :: 0 <= k < |s| ==> IsDigit(s[k])
    ensures DigitsValue(s) >= 0
  {
    if |s| > 0 {
      DigitsValueNatural(s[..|s| - 1]);
    }
  }

  /** std::stoi in base 10: leading white space is skipped, then an optional
      sign and the longest run of digits are read, and the rest is ignored.
      With no digit it throws invalid_argument, and with a value outside the
      32-bit int it throws out_of_range. */
  function Stoi(s: string): (r: Outcome<int>)
    ensures r.Ok? || r.InvalidArgument? || r.OutOfRange?
    ensures r.Ok? ==> INT_MIN <= r.value <= INT_MAX
  {
    var (negative, rest) := Sign(SkipSpace(s));
    Convert(negative, Digits(rest))
  }

  /** The optional sign in front of the digits: whether it is '-', and what
      follows it. */
  function Sign(t: string): (r: (bool, string))
    ensures |r.1| <= |t|
  {
    if |t| > 0 && t[0] == '-' then (true, t[1..])
    else if |t| > 0 && t[0] == '+' then (false, t[1..])
    else (false, t)
  }

  /** The value stoi gives for a sign and the digits read after it. */
  function Convert(negative: bool, digits: string): (r: Outcome<int>)
    ensures r.Ok? || r.InvalidArgument? || r.OutOfRange?
    ensures r.Ok? ==> INT_MIN <= r.value <= INT_MAX
  {
    if |digits| == 0 then InvalidArgument
    else
      var m := DigitsValue(digits);
      var v := if negative then -m else m;
      if INT_MIN <= v <= INT_MAX then Ok(v) else OutOfRange
  }

  /** The decimal digits of n, most significant first, with no leading zero. */
  function Decimal(n: nat): (s: string)
    ensures |s| > 0 && forall k :: 0 <= k < |s| ==> IsDigit(s[k])
  {
    if n < 10 then [('0' as int + n) as char]
    else Decimal(n / 10) + [('0' as int + n % 10) as char]
  }

  lemma {:induction false} DecimalValue(n: nat)
    ensures DigitsValue(Decimal(n)) == n
  {
    if n >= 10 {
      DecimalValue(n / 10);
      assert Decimal(n)[..|Decimal(n)| - 1] == Decimal(n / 10);
    }
  }

  /** A token with no white space in front is read from its sign. */
  lemma StoiFromSign(t: string, negative: bool, rest: string)
    requires SkipSpace(t) == t && Sign(t) == (negative, rest)
    ensures Stoi(t) == Convert(negative, Digits(rest))
  {
  }

  lemma DigitFirst(d: string)
    requires |d| > 0 && IsDigit(d[0])
    ensures SkipSpace(d) == d && Sign(d) == (false, d)
  {
  }

  lemma MinusFirst(d: string)
    ensures SkipSpace("-" + d) == "-" + d && Sign("-" + d) == (true, d)
  {
    assert ("-" + d)[1..] == d;
  }

  lemma ConvertDigits(negative: bool, d: string)
    requires |d| > 0 && DigitsValue(d) >= 0
    ensures negative ==> Convert(negative, d) == if DigitsValue(d) <= -INT_MIN then Ok(-DigitsValue(d)) else OutOfRange
    ensures !negative ==> Convert(negative, d) == if DigitsValue(d) <= INT_MAX then Ok(DigitsValue(d)) else OutOfRange
  {
  }

  /** A token made only of digits is read whole, and so is one made of a
      '-' and digits. */
  lemma StoiDigits(d: string)
    requires |d| > 0 && Digits(d) == d
    ensures Stoi(d) == if DigitsValue(d) <= INT_MAX then Ok(DigitsValue(d)) else OutOfRange
    ensures Stoi("-" + d) == if DigitsValue(d) <= -INT_MIN then Ok(-DigitsValue(d)) else OutOfRange
  {
    DigitsLongest(d);
    DigitsValueNatural(d);
    DigitFirst(d);
    StoiFromSign(d, false, d);
    ConvertDigits(false, d);
    MinusFirst(d);
    StoiFromSign("-" + d, true, d);
    ConvertDigits(true, d);
  }

  /** stoi reads back the decimal digits of every non-negative int. */
  lemma StoiDecimal(n: nat)
    requires n <= INT_MAX
    ensures Stoi(Decimal(n)) == Ok(n)
  {
    DecimalValue(n);
    DigitsAll(Decimal(n));
    StoiDigits(Decimal(n));
  }

  /** stoi reads back every negative int written as '-' and the decimal
      digits of its magnitude. */
  lemma StoiNegative(n: nat)
    requires 0 < n <= -INT_MIN
    ensures Stoi("-" + Decimal(n)) == Ok(-(n as int))
  {
    DecimalValue(n);
    DigitsAll(Decimal(n));
    NegativeOf(Decimal(n), n);
  }

  lemma NegativeOf(d: string, n: int)
    requires |d| > 0 && Digits(d) == d && DigitsValue(d) == n
    requires 0 < n <= -INT_MIN
    ensures Stoi("-" + d) == Ok(-n)
  {
    StoiDigits(d);
    assert Stoi("-" + d) == Ok(-DigitsValue(d));
  }

  /** A number too large for an int is out of range, with or without a '-'
      in front. */
  lemma StoiTooLarge(n: nat)
    ensures n > INT_MAX ==> Stoi(Decimal(n)) == OutOfRange
    ensures n > -INT_MIN ==> Stoi("-" + Decimal(n)) == OutOfRange
  {
    DecimalValue(n);
    DigitsAll(Decimal(n));
    StoiDigits(Decimal(n));
  }

  /** A token with no digit at all is not a number. */
  lemma StoiNoDigit(s: string)
    requires forall k :: 0 <= k < |s| ==> !IsDigit(s[k])
    ensures Stoi(s) == InvalidArgument
  {
    var t := SkipSpace(s);
    if |t| > 1 && (t[0] == '-' || t[0] == '+') {
      assert t[1..][0] == s[|s| - |t| + 1];
    } else if |t| > 0 {
      assert t[0] == s[|s| - |t|];
    }
  }

  // -------------------------------------------------------------------------
  // parse_move

  /** The PLACE branch of parse_move once the direction token is known to
      be "-" or "|": the row, then the column, go through stoi, and then the
      letters through parse_tiles; the first failure is passed on. */
  function ParsePlace(direction: string, row: string, column: string, letters: string, hand: Tiles): (r: Outcome<Move>)
    requires direction == "-" || direction == "|"
    ensures !Stoi(row).Ok? ==> r == Failed(Stoi(row))
    ensures Stoi(row).Ok? && !Stoi(column).Ok? ==> r == Failed(Stoi(column))
    ensures Stoi(row).Ok? && Stoi(column).Ok? && !ParsedTiles(letters, Place, hand).Ok? ==>
              r == Failed(ParsedTiles(letters, Place, hand))
    ensures r.Ok? <==> Stoi(row).Ok? && Stoi(column).Ok? && ParsedTiles(letters, Place, hand).Ok?
    ensures r.Ok? ==>
              r.value == PlaceMove(ParsedTiles(letters, Place, hand).value,
                                   Stoi(row).value - 1, Stoi(column).value - 1,
                                   if direction == "-" then Across else Down)
  {
    var row, column := Stoi(row), Stoi(column);
    if !row.Ok? then Failed(row)
    else if !column.Ok? then Failed(column)
    else
      UpperIdempotent(letters);
      var tiles := ParsedTiles(Upper(letters), Place, hand);
      if !tiles.Ok? then Failed(tiles)
      else Ok(PlaceMove(tiles.value, row.value - 1, column.value - 1, if direction == "-" then Across else Down))
  }

  /** HumanPlayer::parse_move. The keyword is compared upper-cased; the row
      and column tokens go through stoi and are made 0-based, the row first;
      an exception from stoi escapes before the tiles are parsed. */
  function ParseMove(tokens: seq<string>, hand: Tiles): (r: Outcome<Move>)
    ensures |tokens| == 0 ==> r == CommandError(INVALID_COMMAND)
    ensures r.Ok? && r.value.kind == Place ==>
              |tokens| == 5 && Upper(tokens[0]) == "PLACE"
              && (tokens[1] == "-" || tokens[1] == "|")
              && r.value.direction == (if tokens[1] == "-" then Across else Down)
              && Stoi(tokens[2]) == Ok(r.value.row + 1) && Stoi(tokens[3]) == Ok(r.value.column + 1)
              && ParsedTiles(tokens[4], Place, hand) == Ok(r.value.tiles)
    ensures r.Ok? && r.value.kind == Pass ==> |tokens| == 1 && Upper(tokens[0]) == "PASS" && r.value == PassMove
    ensures r.Ok? && r.value.kind == Exchange ==>
              |tokens| == 2 && Upper(tokens[0]) == "EXCHANGE"
              && ParsedTiles(tokens[1], Exchange, hand) == Ok(r.value.tiles)
    ensures r.CommandError? <==>
              |tokens| == 0
              || (Upper(tokens[0]) == "PLACE" && (|tokens| != 5 || (tokens[1] != "-" && tokens[1] != "|")))
              || (Upper(tokens[0]) == "PASS" && |tokens| != 1)
              || (Upper(tokens[0]) == "EXCHANGE" && |tokens| != 2)
              || (Upper(tokens[0]) != "PLACE" && Upper(tokens[0]) != "PASS" && Upper(tokens[0]) != "EXCHANGE")
    ensures r.InvalidArgument? ==>
              |tokens| == 5 && Upper(tokens[0]) == "PLACE"
              && (Stoi(tokens[2]).InvalidArgument? || (Stoi(tokens[2]).Ok? && Stoi(tokens[3]).InvalidArgument?))
    // A well-formed command is accepted exactly when its numbers convert and
    // its tiles parse; otherwise the first failure is passed on unchanged.
    ensures |tokens| == 5 && Upper(tokens[0]) == "PLACE" && (tokens[1] == "-" || tokens[1] == "|") ==>
              r == ParsePlace(tokens[1], tokens[2], tokens[3], tokens[4], hand)
    ensures |tokens| == 2 && Upper(tokens[0]) == "EXCHANGE" ==>
              if !ParsedTiles(tokens[1], Exchange, hand).Ok? then r == Failed(ParsedTiles(tokens[1], Exchange, hand))
              else r == Ok(ExchangeMove(ParsedTiles(tokens[1], Exchange, hand).value))
    ensures |tokens| == 1 && Upper(tokens[0]) == "PASS" ==> r == Ok(PassMove)
  {
    if |tokens| == 0 then CommandError(INVALID_COMMAND)
    else if Upper(tokens[0]) == "PLACE" then
      if |tokens| != 5 then CommandError(INVALID_COMMAND)
      else if tokens[1] != "-" && tokens[1] != "|" then CommandError(INVALID_COMMAND)
      else ParsePlace(tokens[1], tokens[2], tokens[3], tokens[4], hand)
    else if Upper(tokens[0]) == "PASS" then
      if |tokens| != 1 then CommandError(INVALID_COMMAND) else Ok(PassMove)
    else if Upper(tokens[0]) == "EXCHANGE" then
      if |tokens| != 2 then CommandError(INVALID_COMMAND)
      else
        UpperIdempotent(tokens[1]);
        var tiles := ParsedTiles(Upper(tokens[1]), Exchange, hand);
        if !tiles.Ok? then Failed(tiles)
        else Ok(ExchangeMove(tiles.value))
    else CommandError(INVALID_COMMAND)
  }

  /** A PLACE whose row is not a number ends with stoi's invalid_argument,
      whatever the column and the letters are. */
  lemma PlaceRowNotNumber(tokens: seq<string>, hand: Tiles)
    requires |tokens| == 5 && Upper(tokens[0]) == "PLACE" && (tokens[1] == "-" || tokens[1] == "|")
    requires forall k :: 0 <= k < |tokens[2]| ==> !IsDigit(tokens[2][k])
    ensures ParseMove(tokens, hand) == InvalidArgument
  {
    StoiNoDigit(tokens[2]);
  }

  // -------------------------------------------------------------------------
  // get_move

  /** HumanPlayer::get_move after the line is read and split: the parsed
      move is accepted only if a PLACE fits the hand size, passes test_place
      and forms only dictionary words, and an EXCHANGE fits the hand size. */
  method GetMove(g: Grid, root: Trie, hand: Tiles, handSize: nat, tokens: seq<string>)
    returns (r: Outcome<Move>)
    requires g.Valid()
    ensures !ParseMove(tokens, hand).Ok? ==> r == ParseMove(tokens, hand)
    ensures r.Ok? ==> r == ParseMove(tokens, hand)
    ensures r.Ok? && r.value.kind == Place ==>
              |r.value.tiles| <= handSize && g.TestPlaceSpec(r.value).Valid?
              && AllWords(root, g.TestPlaceSpec(r.value).words)
    ensures r.Ok? && r.value.kind == Exchange ==> |r.value.tiles| <= handSize
    ensures ParseMove(tokens, hand).Ok? && !r.Ok? ==>
              var m := ParseMove(tokens, hand).value;
              r.MoveError? &&
              (if m.kind == Place then
                 if |m.tiles| > handSize then r.message == TOO_MANY_PLACED
                 else if g.TestPlaceSpec(m).Invalid? then r.message == g.TestPlaceSpec(m).error
                 else r.message == WORDS_INVALID && !AllWords(root, g.TestPlaceSpec(m).words)
               else m.kind == Exchange && |m.tiles| > handSize && r.message == TOO_MANY_SWAPPED)
  {
    r := ParseMove(tokens, hand);
    if r.Ok? {
      r := CheckMove(g, root, handSize, r.value);
    }
  }

  /** The checks get_move makes on a parsed move, in the source's order. */
  method CheckMove(g: Grid, root: Trie, handSize: nat, m: Move) returns (r: Outcome<Move>)
    requires g.Valid()
    ensures r.Ok? || r.MoveError?
    ensures r.Ok? ==> r.value == m
    ensures r.Ok? <==>
              (m.kind == Place ==> |m.tiles| <= handSize && g.TestPlaceSpec(m).Valid?
                                   && AllWords(root, g.TestPlaceSpec(m).words))
              && (m.kind == Exchange ==> |m.tiles| <= handSize)
    ensures r.MoveError? ==>
              if m.kind == Place then
                if |m.tiles| > handSize then r.message == TOO_MANY_PLACED
                else if g.TestPlaceSpec(m).Invalid? then r.message == g.TestPlaceSpec(m).error
                else r.message == WORDS_INVALID
              else r.message == TOO_MANY_SWAPPED
  {
    r := Ok(m);
    if m.kind == Place {
      if |m.tiles| > handSize {
        return MoveError(TOO_MANY_PLACED);
      }
      var result := g.TestPlace(m);
      if result.Invalid? {
        return MoveError(result.error);
      }
      var i := 0;
      while i < |result.words|
        invariant 0 <= i <= |result.words|
        invariant forall j :: 0 <= j < i ==> IsWord(root, result.words[j])
      {
        if !IsWord(root, result.words[i]) {
          return MoveError(WORDS_INVALID);
        }
        i := i + 1;
      }
    } else if m.kind == Exchange {
      if |m.tiles| > handSize {
        return MoveError(TOO_MANY_SWAPPED);
      }
    }
  }

  // -------------------------------------------------------------------------
  // Properties of parse_tiles

  /** The number of '?' in s from index i on. */
  function BlanksFrom(s: string, i: nat): nat
    requires i <= |s|
    decreases |s| - i
  {
    if i == |s| then 0 else (if s[i] == BLANK_LETTER then 1 else 0) + BlanksFrom(s, i + 1)
  }

  /** A PLACE yields one tile per character that is not '?'. */
  lemma {:induction false} PlaceLength(h: Tiles, s: string, i: nat)
    requires i <= |s| && PlaceTilesFrom(h, s, i).Some?
    ensures |PlaceTilesFrom(h, s, i).value| == |s| - i - BlanksFrom(s, i)
    decreases |s| - i
  {
    if i < |s| {
      PlaceLength(h, s, i + 1);
    }
  }

  /** Every character the first loop does not skip is looked up there: so
      once that loop succeeded, a letter not right after a '?' is held. */
  lemma {:induction false} CountedLetterHeld(h: Tiles, s: string, i: nat, j: nat)
    requires i <= j < |s| && CountFrom(h, s, i).Counted?
    requires s[j] != BLANK_LETTER && (j == i || s[j - 1] != BLANK_LETTER)
    ensures HasLetter(h, s[j])
    decreases j - i
  {
    if i < j {
      if s[i] == BLANK_LETTER {
        CountedLetterHeld(h, s, i + 2, j);
      } else {
        CountedLetterHeld(h, s, i + 1, j);
      }
    }
  }

  /** Once the first loop succeeded, the PLACE loop's lookups all succeed. */
  lemma {:induction false} PlaceLookupsSucceed(h: Tiles, s: string, i: nat)
    requires i <= |s| && CountFrom(h, s, 0).Counted?
    ensures PlaceTilesFrom(h, s, i).Some?
    decreases |s| - i
  {
    if i < |s| {
      PlaceLookupsSucceed(h, s, i + 1);
      if s[i] != BLANK_LETTER && !(i > 0 && s[i - 1] == BLANK_LETTER) {
        CountedLetterHeld(h, s, 0, i);
      }
    }
  }

  /** parse_tiles for a PLACE never lets an out_of_range escape, and when it
      succeeds it yields one tile per character other than '?'. */
  lemma PlaceParse(letters: string, h: Tiles)
    ensures !ParsedTiles(letters, Place, h).OutOfRange?
    ensures ParsedTiles(letters, Place, h).Ok? ==>
              |ParsedTiles(letters, Place, h).value| == |letters| - BlanksFrom(Upper(letters), 0)
  {
    var s := Upper(letters);
    if CountFrom(h, s, 0).Counted? {
      PlaceLookupsSucceed(h, s, 0);
      PlaceLength(h, s, 0);
    }
  }

  /** "?X" in a PLACE, with a blank in the hand, is the letter X at zero
      points, whether or not the hand holds an X. */
  lemma BlankPlaced(h: Tiles, x: char)
    requires HasLetter(h, BLANK_LETTER) && 'A' <= x <= 'Z'
    ensures ParsedTiles([BLANK_LETTER, x], Place, h) == Ok([TileKind(x, 0)])
  {
    var s := Upper([BLANK_LETTER, x]);
    assert s == [BLANK_LETTER, x];
    var b := Lookup(h, BLANK_LETTER).value;
    assert CountFrom(h, s, 0) == Counted(multiset{b});
    assert PlaceTilesFrom(h, s, 2) == Some([]);
    assert [TileKind(x, 0)] + [] == [TileKind(x, 0)];
    assert PlaceTilesFrom(h, s, 1) == Some([TileKind(x, 0)]);
  }

  /** "?X" in an EXCHANGE, with a blank in the hand but no X: the first loop
      skips the X, the second looks it up, and the out_of_range thrown there
      is caught by nobody. */
  lemma BlankExchangeEscapes(h: Tiles, x: char)
    requires HasLetter(h, BLANK_LETTER) && 'A' <= x <= 'Z' && !HasLetter(h, x)
    ensures ParsedTiles([BLANK_LETTER, x], Exchange, h) == OutOfRange
  {
    var s := Upper([BLANK_LETTER, x]);
    assert s == [BLANK_LETTER, x];
    var b := Lookup(h, BLANK_LETTER).value;
    assert CountFrom(h, s, 0) == Counted(multiset{b});
    assert ExchangeTilesFrom(h, s, 1) == None;
  }

  /** The hand's tiles for the letters of s from index i on. */
  function LookupsFrom(h: Tiles, s: string, i: nat): seq<TileKind>
    requires i <= |s| && forall k :: i <= k < |s| ==> HasLetter(h, s[k])
    decreases |s| - i
  {
    if i == |s| then [] else [Lookup(h, s[i]).value] + LookupsFrom(h, s, i + 1)
  }

  /** Without '?', the first loop looks up every letter, in order. */
  lemma {:induction false} CountWithoutBlanks(h: Tiles, s: string, i: nat)
    requires i <= |s| && BLANK_LETTER !in s
    ensures CountFrom(h, s, i) ==
            if forall k :: i <= k < |s| ==> HasLetter(h, s[k]) then Counted(multiset(LookupsFrom(h, s, i)))
            else Missing(LETTER_MISSING)
    decreases |s| - i
  {
    if i < |s| {
      assert s[i] in s;
      CountWithoutBlanks(h, s, i + 1);
      if HasLetter(h, s[i]) {
        var t := Lookup(h, s[i]).value;
        assert CountFrom(h, s, i) == Merge(multiset{t}, CountFrom(h, s, i + 1));
        if forall k :: i + 1 <= k < |s| ==> HasLetter(h, s[k]) {
          var more := LookupsFrom(h, s, i + 1);
          assert LookupsFrom(h, s, i) == [t] + more;
          assert multiset([t] + more) == multiset{t} + multiset(more);
        } else {
          var k :| i + 1 <= k < |s| && !HasLetter(h, s[k]);
        }
      } else {
        assert CountFrom(h, s, i) == Missing(LETTER_MISSING);
      }
    }
  }

  /** Without '?', both tile-building loops yield the hand's tile for each letter. */
  lemma {:induction false} BuildWithoutBlanks(h: Tiles, s: string, i: nat)
    requires i <= |s| && BLANK_LETTER !in s && forall k :: i <= k < |s| ==> HasLetter(h, s[k])
    ensures PlaceTilesFrom(h, s, i) == Some(LookupsFrom(h, s, i))
    ensures ExchangeTilesFrom(h, s, i) == Some(LookupsFrom(h, s, i))
    decreases |s| - i
  {
    if i < |s| {
      assert s[i] in s;
      assert i > 0 ==> s[i - 1] in s;
      BuildWithoutBlanks(h, s, i + 1);
    }
  }

  /** Without '?', parse_tiles accepts exactly the letters the hand holds,
      each kind at most as often as the hand holds it, and yields the hand's
      tile for each letter, for PLACE and EXCHANGE alike. */
  lemma ParseWithoutBlanks(letters: string, kind: MoveKind, h: Tiles)
    requires BLANK_LETTER !in letters
    ensures var s := Upper(letters);
            ParsedTiles(letters, kind, h) ==
            if !(forall k :: 0 <= k < |s| ==> HasLetter(h, s[k])) then MoveError(LETTER_MISSING)
            else if !(multiset(LookupsFrom(h, s, 0)) <= h) then MoveError(TILE_MISSING)
            else Ok(LookupsFrom(h, s, 0))
  {
    var s := Upper(letters);
    assert BLANK_LETTER !in s by {
      forall k | 0 <= k < |s| ensures s[k] != BLANK_LETTER {
        assert letters[k] in letters;
      }
    }
    CountWithoutBlanks(h, s, 0);
    if forall k :: 0 <= k < |s| ==> HasLetter(h, s[k]) {
      BuildWithoutBlanks(h, s, 0);
    }
  }
}
