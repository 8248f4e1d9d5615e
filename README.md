# Scrabble core in Dafny

This project models the rules engine of a terminal Scrabble game written in
C++. It covers:

- the board: reading its layout, finding anchor squares, checking and scoring a
  placement (`test_place`) and committing it (`place`);
- the player's score and hand;
- the human player's command parser and the checks on a parsed move;
- the computer player's move generator: the left-part / extend-right search over
  the dictionary trie, and choosing the best move;
- the game: the turn rules of the game loop, the final score subtraction and the
  choice of winners.

Modules, one per source file plus the shared types:

| module | file | models |
|---|---|---|
| `MoveTypes` | move_types.dfy | `Board::Position` with `translate`, `Direction`, `TileKind`, `Move`, `PlaceResult` |
| `Hand` | hand.dfy | a `TileCollection` as a multiset of tile kinds: `lookup_tile`, `total_points` |
| `Trie` | trie.dfy | the `Dictionary` trie: `find_prefix`, `is_word`, a node's `nexts` |
| `Board` | board.dfy | `Board` (a class whose squares `place` updates) and `Grid`, the board's contents as a value on which `test_place`, `get_anchors` and the other const members are stated |
| `Player` | player.dfy | `Player` (a class: points and tiles updated in place) |
| `HumanPlayer` | human_player.dfy | `parse_tiles`, `parse_move` with the `std::stoi` it calls, `get_move` |
| `ComputerPlayer` | computer_player.dfy | `left_part`, `extend_right`, `get_move`, `get_best_move` |
| `Game` | game.dfy | the turn rules of `game_loop`, `final_subtraction`, the winner choice of `print_result` |

Conventions of the model:

- A position's coordinates are `int`. The source's `size_t` arithmetic can go
  below zero, for example `row - 1` on row 0. That value wraps to a huge number,
  which `is_in_bounds` rejects, so a negative `int` that `InBounds` rejects
  behaves the same.
- The DOWN and ACROSS halves of `test_place` and `place` are one
  direction-generic definition:
  - `Along(p, d)` is the coordinate that changes along `d`;
  - `Fixed(p, d)` is the one that does not.
  - The places where the two halves differ are kept:
    - the out-of-bounds message is `"ERROR: out of bounds"` going DOWN and
      `"ERROR: OUT OF BOUNDS"` going ACROSS;
    - a single ACROSS tile whose only neighbour is below it scores differently
      (`Board.Grid.BelowWalk`).
- Operations that loop in the source are methods with loops. Each method is proved
  equal to a recursive specification function, such as `TestPlaceSpec`,
  `AnchorsSpec`, `ExtendMoves`, `ParsedTiles` or `FinalScores`. The properties the
  game relies on are lemmas about those functions.
- Some behaviour of the source looks accidental, and the model reproduces it as
  written:
  - A single tile that forms a word only across the move gets its letter
    appended at the end of that word, not at its square.
  - A single ACROSS tile whose only neighbour is below it is credited once per
    row down to the bottom edge.
  - `final_subtraction` gives the bonus to the last player with an empty hand.
  - Any code other than `.`, `2`, `3` or `d` in a board file is a triple-word
    square.

## Model

| member | source | states |
|---|---|---|
| `MoveTypes.Translate` | Scrabble/board.cpp:19-27 | translating moves a position exactly `distance` squares along the direction and leaves the other coordinate alone |
| `MoveTypes.PositionByCoordinates` | Scrabble/board.cpp:19-27 | a position is determined by its coordinate along a direction and its coordinate across it |
| `Hand.Lookup` | Scrabble/player.cpp:52-59 | a lookup finds a tile exactly when the hand holds a tile with that letter, and the tile found is held and has that letter |
| `Hand.LookupIgnoresOtherLetters` | Scrabble/player.cpp:25-50 | adding or removing a tile of another letter does not change which tile a lookup finds |
| `Hand.ValueWithout` | Scrabble/player.cpp:61 | a hand's value is any held tile's points plus the value of the rest |
| `Hand.ValueAdd` | Scrabble/player.cpp:46-61 | adding a tile raises the hand's value by that tile's points |
| `Hand.ValueZero` | Scrabble/player.cpp:61 | a hand is worth nothing exactly when every tile in it is worth nothing |
| `Trie.ChildIndex` | Scrabble/computer_player.cpp:183-189 | the child found for a letter is an edge labelled with that letter, and none is found only when no edge carries it |
| `Trie.FindPrefixSnoc` | Scrabble/computer_player.cpp:183-219 | walking one more letter from a prefix's node follows that letter's child edge |
| `Trie.FindPrefixOfPrefix` | Scrabble/computer_player.cpp:366-376 | every prefix of a word that has a trie node has a node too |
| `Board.SquareFromCode` | Scrabble/board.cpp:132-147 | a code gives an empty square with multipliers 1 to 3, never both above 1: `.` exactly the plain square, `2`/`3` exactly the letter multipliers, `d` double word, every other code triple word |
| `Board.Board.Read` | Scrabble/board.cpp:106-151 | the board read has the header's size and start, and the square at row r, column c is the one the code at index r*columns+c describes |
| `Board.Grid.RawPointsAreTilePoints` | Scrabble/board.cpp:283 | a square's points divided by its letter multiplier are the tile's own points |
| `Board.Grid.AnchorSpotMeaning` | Scrabble/board.cpp:43-61 | a square is an anchor spot exactly when it is on the board, empty, and next to a tile, or is the start square of an empty board |
| `Board.Grid.GetAnchors` | Scrabble/board.cpp:70-104 | the anchors returned are exactly the row-major list, two per anchor spot (DOWN, then ACROSS), each with its limit |
| `Board.Grid.LimitCounts` | Scrabble/board.cpp:82-93 | an anchor's limit counts exactly the empty non-anchor squares directly before it, so the square just past the limit is off the board, occupied or an anchor spot |
| `Board.Grid.LimitAtMost` | Scrabble/board.cpp:82-93 | a limit never exceeds the number of squares before the anchor |
| `Board.Grid.AnchorLimitBound` | Scrabble/board.cpp:70-104 | every anchor's limit fits in the squares before it, so prepending up to `limit` letters stays on the board |
| `Board.Grid.AnchorsPaired` | Scrabble/board.cpp:74-102 | the anchor list comes in pairs: the same square DOWN, then ACROSS |
| `Board.Grid.AnchorsSound` | Scrabble/board.cpp:74-102 | every anchor returned is an in-bounds anchor spot with a direction and the limit counted before it |
| `Board.Grid.AnchorsComplete` | Scrabble/board.cpp:74-102 | every anchor spot appears in the list in both directions |
| `Board.Grid.FindRunStart` | Scrabble/board.cpp:279-288 | the backward walk stops at the first square of the run of tiles ending just before the position |
| `Board.Grid.PointsBefore` | Scrabble/board.cpp:279-285 | the points credited before the first placed tile are the raw points of the run of tiles before it |
| `Board.Grid.LettersBefore` | Scrabble/board.cpp:287-292 | the letters put in front of the main word are those of the run before the first placed tile, in board order |
| `Board.Grid.WordThrough` | Scrabble/board.cpp:319-364 | the cross word through a new tile is the run before it, the tile's letter and the run after it; its points are the runs' raw points plus the tile's points times the square's letter multiplier |
| `Board.Grid.RunFrom` | Scrabble/board.cpp:414-422 | the walk past the last placed tile collects the letters and raw points of the run of tiles that follows |
| `Board.Grid.CrossWordAt` | Scrabble/board.cpp:319-401 | a new tile forms a cross word only when a tile is next to it across the move, and then it is the whole run through it, scored with its square's multipliers |
| `Board.Grid.BelowWalk` | Scrabble/board.cpp:494-517 | for an ACROSS tile whose only neighbour is below, the walk credits the tile's letter points once for every row from its row to the bottom edge |
| `Board.Grid.SingleTile` | Scrabble/board.cpp:204-277 | a lone tile with no neighbour along the move scores the word across the move, and is rejected with "ERROR: Invalid Placement" when it has no neighbour across either |
| `Board.Grid.MainWalk` | Scrabble/board.cpp:294-412 | the main walk skips over occupied squares, places the tiles in order on empty ones, and fails once it leaves the board |
| `Board.Grid.FinishWalk` | Scrabble/board.cpp:414-439 | a completed walk is rejected if it touches no tile after the first move or misses the start on the first move; otherwise it scores the main word times the word multipliers plus the cross words |
| `Board.Grid.MultiTile` | Scrabble/board.cpp:279-442 | the multi-tile case of test_place is the walk followed by its checks |
| `Board.Grid.TestPlace` | Scrabble/board.cpp:158-689 | test_place returns exactly the result the placement rules give for the move on this board |
| `Board.Grid.TestPlaceRejects` | Scrabble/board.cpp:173-276 | a start on an occupied square is an OVERLAP, an isolated single tile is an Invalid Placement, and a start off the board is out of bounds; a rejected move has no words and no points |
| `Board.Grid.ValidMoveFits` | Scrabble/board.cpp:294-412 | an accepted move starts on the board and has room for all its tiles along its direction |
| `Board.Grid.MainRunCoversStart` | Scrabble/board.cpp:294-318 | when the walk marks the start square as played, the start is one of the squares the tiles land on |
| `Board.Grid.EmptyBoardFirstMove` | Scrabble/board.cpp:426-434 | on an empty board only a move of two or more tiles, one of them on the start square, is accepted |
| `Board.Grid.PlacementsInOrder` | Scrabble/board.cpp:294-318 | the squares tiles land on are empty, on the move's line, at or after its start, and strictly in order |
| `Board.Grid.PlacementsContiguous` | Scrabble/board.cpp:294-318 | every empty square between the start and the last placed tile receives a tile, so the move leaves no gap |
| `Board.Grid.PlaceCommitsTiles` | Scrabble/board.cpp:712-736 | after an accepted move the k-th tile sits on the k-th empty square from the start, which keeps its multipliers |
| `Board.Grid.PlaceLeavesOthers` | Scrabble/board.cpp:696-783 | place keeps the board's size, start and multipliers, changes nothing when the move is rejected or has no direction, and changes no square outside the move's landing squares |
| `Board.Board.SetTile` | Scrabble/board.cpp:721-724 | setting a tile changes only that square's tile |
| `Board.Board.CommitTiles` | Scrabble/board.cpp:706-736 | the loop of place puts the tiles, in order, on the empty squares from the start along the direction |
| `Board.Board.Place` | Scrabble/board.cpp:696-783 | place returns what test_place returns (no words and no points for a move with no direction) and leaves the board test_place's verdict describes |
| `Player.Deduct` | Scrabble/player.cpp:8-14 | subtracting never goes below zero: exact when the score covers the amount, otherwise the score becomes 0 |
| `Player.RemoveOne` | Scrabble/player.cpp:27-41 | a tile can be removed exactly when the hand holds that tile, or holds no tile of its letter but holds a blank, which is then removed |
| `Player.RemoveAll` | Scrabble/player.cpp:25-43 | removal takes one held tile per tile listed; when one cannot be removed the error is reported and the tiles already removed stay removed |
| `Player.Player.HasTile` | Scrabble/player.cpp:52-59 | a player has a tile exactly when some held tile has its letter |
| `Player.Player.AddPoints` | Scrabble/player.cpp:5 | points grow by the amount added and the hand is unchanged |
| `Player.Player.SubtractPoints` | Scrabble/player.cpp:8-14 | points drop by the amount, stopping at zero |
| `Player.Player.RemoveTiles` | Scrabble/player.cpp:25-43 | the hand and the error afterwards are those of removing the tiles one by one, and the points are unchanged |
| `Player.Player.AddTiles` | Scrabble/player.cpp:46-50 | the hand grows by exactly the tiles added |
| `Player.RemoveHeld` | Scrabble/player.cpp:25-43 | removing tiles that are all held succeeds and takes exactly those tiles |
| `Player.RemoveAfterAdd` | Scrabble/player.cpp:25-50 | removing the tiles just added gives back the original hand |
| `Player.RemoveAllAppend` | Scrabble/player.cpp:25-43 | removing two lists in a row is removing their concatenation, stopping at the first error |
| `Player.RemoveNotAtomic` | Scrabble/player.cpp:27-41 | a failed removal keeps the tiles removed before the failure: a hand of {a} asked for [a, b] ends empty with the error |
| `Player.AddValue` | Scrabble/player.cpp:46-61 | adding tiles raises the hand value by their points |
| `Player.RemoveHeldValue` | Scrabble/player.cpp:25-61 | removing held tiles lowers the hand value by exactly their points |
| `HumanPlayer.Upper` | Scrabble/human_player.cpp:20-23 | to_upper keeps the length and upper-cases each character on its own |
| `HumanPlayer.UpperIdempotent` | Scrabble/human_player.cpp:20-23 | upper-casing twice is upper-casing once |
| `HumanPlayer.ParseTiles` | Scrabble/human_player.cpp:98-197 | parse_tiles returns exactly the verdict of the tile rules: a missing letter or blank, too few tiles of a kind, or the tiles, with a blank's letter following it |
| `HumanPlayer.CountLetters` | Scrabble/human_player.cpp:108-151 | the counting loop reports the first missing letter or blank, or else the multiset of the tile kinds the letters look up |
| `HumanPlayer.HandHolds` | Scrabble/human_player.cpp:159-165 | the hand is accepted exactly when it holds at least as many tiles of each kind as were counted |
| `HumanPlayer.BuildPlaceTiles` | Scrabble/human_player.cpp:167-187 | the PLACE tiles are one per letter, a blank followed by a letter becoming a zero-point tile of that letter |
| `HumanPlayer.BuildExchangeTiles` | Scrabble/human_player.cpp:189-194 | the EXCHANGE tiles are one lookup per character |
| `HumanPlayer.StoiDigits` | Scrabble/human_player.cpp:225-226 | a token of digits alone, or `-` and digits, is read whole, and is out of range exactly when its value does not fit an int |
| `HumanPlayer.StoiDecimal` | Scrabble/human_player.cpp:225-226 | stoi reads back the decimal digits of every non-negative int |
| `HumanPlayer.StoiNegative` | Scrabble/human_player.cpp:225-226 | stoi reads back every negative int written as `-` and the digits of its magnitude |
| `HumanPlayer.StoiTooLarge` | Scrabble/human_player.cpp:225-226 | a number beyond the int range, with or without a `-`, makes stoi throw out_of_range |
| `HumanPlayer.StoiNoDigit` | Scrabble/human_player.cpp:225-226 | a token without any digit makes stoi throw invalid_argument |
| `HumanPlayer.DigitsLongest` | Scrabble/human_player.cpp:225-226 | stoi reads the longest run of digits at the front of what follows the sign, and ignores the rest |
| `HumanPlayer.ParsePlace` | Scrabble/human_player.cpp:225-238 | the row is converted first, then the column, then the letters go through parse_tiles; the first exception is passed on, and otherwise the move is placed at the 1-based coordinates minus one in the given direction with exactly the tiles parse_tiles returns |
| `HumanPlayer.ParseMove` | Scrabble/human_player.cpp:204-267 | a command is a PLACE of five words with `-` or `\|` and coordinates stoi reads, a PASS of one word, or an EXCHANGE of two words, with the tiles parse_tiles accepts; it is a command error exactly when its shape is wrong; an invalid_argument comes only from a PLACE coordinate; a well-formed PLACE is exactly `ParsePlace`, a well-formed EXCHANGE is accepted with exactly the tiles parse_tiles returns or else gives parse_tiles' own error, and a one-word PASS is always accepted |
| `HumanPlayer.PlaceRowNotNumber` | Scrabble/human_player.cpp:225-226 | a well-formed PLACE whose row token holds no digit escapes with stoi's invalid_argument |
| `HumanPlayer.CheckMove` | Scrabble/human_player.cpp:52-83 | a parsed move passes exactly when a PLACE uses at most hand_size tiles, is accepted by test_place and forms only dictionary words, and an EXCHANGE swaps at most hand_size tiles; otherwise the first failed check's message is reported |
| `HumanPlayer.GetMove` | Scrabble/human_player.cpp:30-89 | the move returned is the parsed move, only when it passed every check; otherwise the parser's error or the first failed check's message |
| `HumanPlayer.PlaceLength` | Scrabble/human_player.cpp:167-187 | a PLACE parse yields one tile per character minus one per blank marker |
| `HumanPlayer.PlaceParse` | Scrabble/human_player.cpp:98-197 | parsing a PLACE never runs off the hand, and the tiles it yields number the letters minus the blank markers |
| `HumanPlayer.BlankPlaced` | Scrabble/human_player.cpp:167-187 | `?X` in a PLACE with a blank in hand yields one zero-point X tile |
| `HumanPlayer.BlankExchangeEscapes` | Scrabble/human_player.cpp:189-194 | `?X` in an EXCHANGE with a blank but no X in hand passes the count and then fails the lookup of X, an out_of_range the parser does not catch |
| `HumanPlayer.CountWithoutBlanks` | Scrabble/human_player.cpp:108-151 | without blanks, the count succeeds exactly when every letter is held and then counts the looked-up tiles |
| `HumanPlayer.ParseWithoutBlanks` | Scrabble/human_player.cpp:98-197 | without blanks, parsing reports a missing letter, too few tiles of a kind, or the looked-up tiles in order |
| `ComputerPlayer.AsSize` | Scrabble/computer_player.cpp:399-411 | a value stored in a size_t is below 2^64 and unchanged when it already fits |
| `ComputerPlayer.Choose` | Scrabble/computer_player.cpp:50-102 | a letter is playable exactly when its tile or a blank is held; the held tile is used when there is one, otherwise the blank stands for the letter |
| `ComputerPlayer.StepBack` | Scrabble/computer_player.cpp:54-58 | prepending a letter moves the move's start back one square and changes nothing else |
| `ComputerPlayer.Search.ExtendRight` | Scrabble/computer_player.cpp:154-311 | extend_right appends exactly the moves the extension rules find, and gives back every tile it borrowed |
| `ComputerPlayer.Search.FollowTile` | Scrabble/computer_player.cpp:183-219 | at an occupied square the search follows only the edge of the board's letter |
| `ComputerPlayer.Search.ExtendEachChild` | Scrabble/computer_player.cpp:223-309 | at an empty square each child letter is tried in order, from a held tile or a blank |
| `ComputerPlayer.Search.LeftPart` | Scrabble/computer_player.cpp:23-152 | left_part appends exactly the moves the left-part rules find, and gives back every tile it borrowed |
| `ComputerPlayer.Search.SearchAnchor` | Scrabble/computer_player.cpp:320-390 | the search from one anchor appends that anchor's moves, from the board's prefix when the limit is 0 and from left_part otherwise |
| `ComputerPlayer.BoardPrefix` | Scrabble/computer_player.cpp:339-364 | the prefix read before an anchor with limit 0 is the run of tiles just before it |
| `ComputerPlayer.GetMove` | Scrabble/computer_player.cpp:313-394 | the move returned is the best of the candidates every anchor yields |
| `ComputerPlayer.AllWordsValid` | Scrabble/computer_player.cpp:405-410 | the check passes exactly when every word formed is in the dictionary |
| `ComputerPlayer.Consider` | Scrabble/computer_player.cpp:402-420 | one step of the rating loop keeps the running best or takes the new move |
| `ComputerPlayer.GetBestMove` | Scrabble/computer_player.cpp:396-423 | get_best_move returns the move the rating rules choose from the list |
| `ComputerPlayer.DrawnFromBound` | Scrabble/computer_player.cpp:50-149 | a move built from the hand never uses more tiles than the hand holds |
| `ComputerPlayer.ExtendsStep` | Scrabble/computer_player.cpp:228-305 | a tile taken from the hand and then extended further is still supplied by the hand |
| `ComputerPlayer.ExtendKeepsStart` | Scrabble/computer_player.cpp:154-311 | every move extend_right records keeps its start and adds only tiles the hand supplies |
| `ComputerPlayer.LeftPartLimitZero` | Scrabble/computer_player.cpp:41-43 | with limit 0 left_part records nothing |
| `ComputerPlayer.LeftShiftsStart` | Scrabble/computer_player.cpp:23-152 | every move left_part records starts exactly k squares before the move it was given, on the same line, with 1 <= k <= `limit`, and holds at least k new tiles after the given ones (one prefix letter per square moved back), all supplied by the hand |
| `ComputerPlayer.ExtendRecordsWords` | Scrabble/computer_player.cpp:154-311 | every move extend_right records spells a dictionary word: the prefix read so far, then some n squares from the current square, all on the board, reading the board's letter on an occupied square and the move's new tiles, in order and every one of them, on the empty squares; counted from the move's start, the word ends past the anchor |
| `ComputerPlayer.LeftRecordsWords` | Scrabble/computer_player.cpp:23-152 | every move left_part records starts k >= 1 squares back and spells a dictionary word: the prefix read so far, then the letters of its first k new tiles, then some n squares from the anchor on the board, which take its remaining new tiles in order on their empty squares; the word ends past the anchor |
| `ComputerPlayer.AnchorMovesSound` | Scrabble/computer_player.cpp:320-390 | every move found from an anchor is a PLACE in the anchor's direction, on its line, starting k squares before it with k = 0 when the look-back limit is 0 and 1 <= k <= limit otherwise (hand_size - 1 at the start square), with tiles the hand supplies; it spells a dictionary word that ends past the anchor: the run of tiles before the anchor (limit 0) or the letters of its first k tiles, followed by squares read from the anchor that take all its remaining tiles |
| `ComputerPlayer.CandidatesSound` | Scrabble/computer_player.cpp:320-391 | every candidate is found, as `AnchorMovesSound` states, from one of the anchors searched |
| `ComputerPlayer.SpellsFromRun` | Scrabble/computer_player.cpp:336-366 | with limit 0, the prefix is the run of tiles before the empty anchor, so the word the move spells is read on the board from the first square of that run |
| `ComputerPlayer.LimitEmpty` | Scrabble/board.cpp:82-92 | the squares an anchor's limit counts back from it are on the board and empty |
| `ComputerPlayer.BeforeFoundIsEmpty` | Scrabble/board.cpp:43-92 | the square before a move that starts within the counted limit holds no tile: it is counted too, or the last counted square is no anchor spot and so has no tile beside it |
| `ComputerPlayer.SpellsFromPrefix` | Scrabble/computer_player.cpp:23-152 | a prefix of k letters placed within the counted limit starts its own run, and the word read from its start is those letters followed by the squares read from the anchor |
| `ComputerPlayer.FoundOnBoard` | Scrabble/computer_player.cpp:320-390 | a move found from an anchor other than the start square spells a dictionary word on the board by itself, from the first square of the run of tiles before its start |
| `ComputerPlayer.GetMoveCandidatesSound` | Scrabble/computer_player.cpp:313-394 | every candidate get_move considers is found, as `AnchorMovesSound` states, from an anchor spot of the board; away from the start square it spells a dictionary word on the board by itself, read from the first square of the run of tiles before its start, with all its own tiles, in order, on the empty squares |
| `ComputerPlayer.ChosenIndex` | Scrabble/computer_player.cpp:400-415 | the index chosen is -1 or one of the moves already rated |
| `ComputerPlayer.ChosenIndexMeaning` | Scrabble/computer_player.cpp:400-415 | the move kept is eligible, scores above 0 and at least as much as every eligible move, and more than every eligible move before it (ties keep the earlier); none is kept only when no eligible move scores above 0 |
| `ComputerPlayer.BestFromSelect` | Scrabble/computer_player.cpp:396-423 | the rating loop's result is the selected move, moved to the start square when the start square is empty |
| `ComputerPlayer.BestMoveOnPlayedBoard` | Scrabble/computer_player.cpp:396-423 | once the start is covered, the best move is a PASS when no eligible move scores, and otherwise the first top-scoring eligible move, which test_place accepts |
| `ComputerPlayer.BestMoveOnEmptyStart` | Scrabble/computer_player.cpp:416-420 | on an empty start square the move returned is placed at the start going ACROSS, with the chosen move's tiles |
| `Game.LastEmptyMeaning` | Scrabble/scrabble.cpp:194-204 | the index final_subtraction remembers is the last player with an empty hand, and none is remembered only when every hand holds tiles |
| `Game.Left` | Scrabble/scrabble.cpp:196-199 | a player's score after the subtraction never rises and is unchanged for an empty hand |
| `Game.Deducted` | Scrabble/scrabble.cpp:194-204 | each player's score loses the value of their hand, stopping at zero |
| `Game.DeductHand` | Scrabble/scrabble.cpp:196-203 | a player holding tiles loses their value, stopping at zero; an empty-handed player keeps their score |
| `Game.DeductHands` | Scrabble/scrabble.cpp:194-204 | after the loop every player has lost their hand value, the total of those values and the count of holding players are known, and the index is the last empty-handed player |
| `Game.FinalSubtraction` | Scrabble/scrabble.cpp:188-214 | the final scores are the deducted scores, plus every hand value for the last player who went out, if one did; hands are unchanged |
| `Game.FinalHolding` | Scrabble/scrabble.cpp:196-199 | a player still holding tiles ends with their score minus their hand value, stopping at zero |
| `Game.NobodyWentOut` | Scrabble/scrabble.cpp:207-209 | when every hand holds tiles nobody gains, and nobody's score rises |
| `Game.WinnerGains` | Scrabble/scrabble.cpp:194-213 | the last player to go out gains the whole value of the other hands; any other empty-handed player keeps their score |
| `Game.DeductedSum` | Scrabble/scrabble.cpp:194-204 | the scores lost are at most the hand values, and equal to them when no score is floored at zero |
| `Game.SumRaise` | Scrabble/scrabble.cpp:212 | raising one score raises the total by the same amount |
| `Game.FinalTotal` | Scrabble/scrabble.cpp:188-214 | when a player went out, the total of the scores never drops, and it is conserved when no score is floored at zero |
| `Game.MaxScore` | Scrabble/scrabble.cpp:218-224 | the highest score is at least every score, and some player has it |
| `Game.HighestScore` | Scrabble/scrabble.cpp:218-224 | the first loop of print_result finds the highest score |
| `Game.Winners` | Scrabble/scrabble.cpp:217-232 | the winners are exactly the players with the highest score, in order, and there is one whenever there are players |
| `Game.PlaceGain` | Scrabble/scrabble.cpp:131-138 | a PLACE earns its points, plus 50 exactly when it uses hand_size tiles |
| `Game.Game.constructor` | Scrabble/scrabble.cpp:69-79 | the game counts its human players and starts with none of them passed |
| `Game.Game.Turn` | Scrabble/scrabble.cpp:92-153 | a PASS counts human passes and ends the game when every human has passed; an EXCHANGE swaps tiles with the bag; a PLACE shorter than the minimum is refused, otherwise it removes the tiles, places them, scores them with the bonus, and ends the game when the hand and bag are both empty, else refills; a failed removal reports its error and keeps the tiles already removed |

## Left out

- Printing, the terminal colours, prompts, reading a command line and splitting
  it into words are not modelled. `HumanPlayer.GetMove` takes the words of the
  command.
- Reading the board file: `Board.Board.Read` takes the four header numbers and
  the square codes once the stream has skipped the whitespace. A missing file
  and a short file are not modelled.
- The tile bag's random draw is a parameter. `Game.Game.Turn` is given the
  tiles drawn, and they may be any tiles the bag holds. The model does not fix
  how many are drawn.
- `TileCollection`, `BoardSquare`, `PlaceResult`, `Move`, `Dictionary` and the
  header files are not part of this model. They are represented by a multiset,
  a record, datatypes and a trie value. Their behaviour is taken from the way
  the core files use them:
  - `remove_tile` of a kind not held throws `out_of_range`;
  - a square's `get_points` is its tile's points times the letter multiplier;
  - an invalid `PlaceResult` has no words and no points.
- `Hand.Lookup`: which tile `lookup_tile` returns when the hand holds several
  kinds with the same letter is not visible. The model picks the least points.
- `Player.Player.AddPoints`: the points are unbounded. The `size_t` wrap-around
  at 2^64 is not modelled.
- `Game.FinalSubtraction`: the `int` sum of hand values is unbounded. Its
  overflow is not modelled, and neither is the conversion to `size_t` in
  `add_points`.
- `HumanPlayer.ParseMove`: a PLACE's row and column are `stoi(x) - 1` as an
  `int`. A value that would wrap when converted to `size_t` is a negative
  coordinate, which test_place rejects as out of bounds. For a token that
  reads as the least `int`, the source's `- 1` overflows; the model keeps the
  unbounded value, which is negative as well.
- `HumanPlayer.Stoi`: `int` is taken to be 32 bits wide. The locale is the
  "C" locale, so only the six ASCII white-space characters are skipped.
- `Board.Grid.TestPlace`: a move whose start is off the board is reported as
  out of bounds. The source reads that square without a bounds check.
- `HumanPlayer.HandHolds`: the loop over the counted kinds visits them in the
  map's order. The result does not depend on that order.
- The retry loop of `HumanPlayer::get_move` callers and the outer loops of
  `game_loop`, which cycle through players until the game ends, are not
  modelled. `Game.Game.Turn` is one attempt by one player.
- `Game.Winners` returns the winners' indices. Printing their names is left out.
- `ComputerPlayer.Search.LeftPart`: the source lets a column or row wrap
  around as `size_t` when a prefix starts before the board. The model uses a
  negative coordinate, which no board square has.
- `ComputerPlayer.GetMoveCandidatesSound`: the word on the board by itself is
  stated only away from the start square. At the start square the look-back
  limit is hand_size - 1, not a count of free squares, so the prefix squares
  need not be empty or even on the board.
- The `final_subtraction` and `print_result` loops read each player's score
  and hand through a `shared_ptr`. The model takes a sequence of distinct
  `Player` objects, so two entries never alias the same player.
