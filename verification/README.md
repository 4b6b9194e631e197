# Snake & Ladder: a Dafny model of the game engine and its display rules

This project models the core of a two-player Snake & Ladder game. The
backend keeps three tables:

- `games`: one row per game, with the players, their positions, whose turn
  it is, the status (`setup`, `playing`, `finished`), the winner and the
  board's snakes and ladders;
- `gameEvents`: an append-only log of dice rolls, moves, snake and ladder
  encounters, starts and ends;
- `gameHistory`: an append-only archive with one row per win. startGame has
  no status guard, so a finished game can be started and won again, and it
  is then archived again under the same gameId.

Four mutations change these tables: `createGame`, `startGame`, `rollDice`
and `movePlayer`. An HTTP endpoint (`POST /game/update`), meant for a
microcontroller, runs `rollDice` or `movePlayer`; the web client only shows
its path. Around this sit the
client's pure helpers: the board grid numbering and the snake/ladder lookup,
the game-setup form's validation and colour list, the duration and timer
texts, and a few display rules.

Modules, one per file:

| file | module | models |
|---|---|---|
| schema.dfy | `Schema` | the table shapes and their literal unions |
| board.dfy | `Board` | the default board and what makes a board well formed |
| grid.dfy | `Grid` | `createGrid` (imperative, nested loops), `getSpecialCell`, `hasPlayer` |
| engine.dfy | `Engine` | what each mutation does to a snapshot of the tables, and the consistency they keep |
| store.dfy | `Store` | the class `GameStore` whose methods patch the games map and append to the two logs field by field, each proved equal to its `Engine` function |
| queries.dfy | `Queries` | `getGameEvents` and `getGameHistory` |
| router.dfy | `Router` | the `/game/update` dispatch and its 200/400/500 mapping |
| setup.dfy | `Setup` | the colour palette, `String.trim`, the validation chain, the disabled button, the colours offered to player 2 |
| text.dfy | `Text` | integer `toString`, `padStart(2, '0')`, JavaScript `%`, and readers that invert them |
| clock.dfy | `Clock` | `formatDuration` and `formatTime`, each with a reader that recovers the fields it shows |
| display.dfy | `Display` | the winner name, the history line and its `#n`, the position label and the progress bar |

`Date.now()` becomes a parameter `now` of each operation. A game id is a
natural number handed out by a counter in `GameStore`.

Where the intended rules and the code differ, the model follows the code:

- `startGame` has no status guard. Starting a finished game makes it
  `playing` again and keeps its old winner (`Engine.RestartKeepsWinner`).
- The backend does not validate names, colours, dice values or positions.
  Only the setup form checks names and colours.
- The default board chains: the ladder from 9 ends on 21, which is the
  bottom of another ladder (`Board.DefaultLaddersChain`). The lookup is
  therefore not idempotent (`Grid.DefaultLookupNotIdempotent`).
- A missing game and a game in the wrong state get the same 500 answer from
  the endpoint (`Router.MissingAndNotPlayingLookAlike`).

## Model

| member | source | states |
|---|---|---|
| Schema.Player.Number | snake/convex/schema.ts:13 | a player is shown as 1 or 2, and 1 exactly for player one |
| Schema.Player.Other | snake/convex/games.ts:129 | the other player differs and the two numbers add up to 3 |
| Board.DefaultWellFormed | snake/convex/games.ts:5-29 | the default board has 10 snakes going down and 9 ladders going up, all ends on 1..100, no snake head is a ladder bottom, and no two snakes (ladders) start on the same cell |
| Board.DefaultLaddersChain | snake/convex/games.ts:19-22 | the default board has a ladder whose top is another ladder's bottom (9 to 21, 21 to 42) |
| Grid.CellNumber | snake/src/components/GameGrid.tsx:26-28 | the cell at loop row `row` lies in the band (9-row)*10+1 .. (9-row)*10+10 |
| Grid.CellNumberCovers | snake/src/components/GameGrid.tsx:20-34 | every number 1..100 is produced at the row and column its position names |
| Grid.CellNumberInjective | snake/src/components/GameGrid.tsx:26-28 | two places with the same number are the same place |
| Grid.CellNumberAdjacent | snake/src/components/GameGrid.tsx:25-28 | horizontal neighbours differ by exactly 1, rising on even loop rows and falling on odd ones |
| Grid.CreateGrid | snake/src/components/GameGrid.tsx:20-34 | the nested loops build 10 rows of 10 cells, each cell is CellNumber of its place, every number 1..100 appears exactly once, and neighbours differ by 1 with direction alternating by row |
| Grid.FirstSnakeAt | snake/src/components/GameGrid.tsx:39 | `find` on snakes, scanning from a start index: the index of the first snake there or later whose head is the cell, or the length if none |
| Grid.FirstLadderAt | snake/src/components/GameGrid.tsx:40 | `find` on ladders, scanning from a start index: the index of the first ladder there or later whose bottom is the cell, or the length if none |
| Grid.SpecialCell | snake/src/components/GameGrid.tsx:38-45 | a snake head gives a snake and its tail; otherwise a ladder bottom gives a ladder and its top; null exactly when the cell starts neither; which snake or ladder decides when several share the cell is stated by SpecialCellFirstSnakeWins and SpecialCellFirstLadderWins |
| Grid.SpecialCellFirstLadderWins | snake/src/components/GameGrid.tsx:39-42 | on a cell no snake starts from, when several ladders share the bottom, the first in the list decides the target |
| Grid.SpecialCellFirstSnakeWins | snake/src/components/GameGrid.tsx:39-42 | when a cell starts several snakes, the first in the list decides the target, and snakes are checked before ladders |
| Grid.DefaultLookupNotIdempotent | snake/src/components/GameGrid.tsx:38-45 | on the default board, 9 leads to 21 and 21 leads on to 42 |
| Grid.PlayersOn | snake/src/components/GameGrid.tsx:47-52 | player 1 is on the cell's list iff at its position, likewise player 2, each with its own colour, player 1 first, at most two entries |
| Engine.NewGame | snake/convex/games.ts:39-49 | a new game has both positions 0, player 1 to move, status setup, no winner or times, the names and colours as given, and the default board |
| Engine.Create | snake/convex/games.ts:31-53 | createGame inserts exactly the NewGame row under a fresh id and changes no other row or log |
| Engine.Start | snake/convex/games.ts:55-78 | startGame fails only on a missing game and then changes nothing; otherwise, whatever the old status, the game becomes playing with startTime now, every other field is kept, and one game_start event for player 1 is logged at now |
| Engine.StartEvent | snake/convex/games.ts:68-74 | the game_start event is for player 1 and carries and is stamped with the start time |
| Engine.Roll | snake/convex/games.ts:80-105 | rollDice fails and changes nothing unless the game exists and is playing; otherwise only lastDiceRoll changes and one dice_roll event for the player to move is logged; the value is not range-checked |
| Engine.DiceEvent | snake/convex/games.ts:95-101 | the dice_roll event is for the player to move and carries the value as given |
| Engine.MoveEventType | snake/convex/games.ts:171-172 | snake gives snake_encounter, ladder gives ladder_encounter, anything else gives move |
| Engine.MovedGame | snake/convex/games.ts:123-143 | the patch sets the mover's position, keeps the other's, flips the turn, records the move type; at 100 or more it finishes the game with the mover as winner, endTime and duration; below 100 those stay as they were |
| Engine.MovedGameKeepsOtherFields | snake/convex/games.ts:123-143 | the patch changes no field other than the positions, the turn, the move type, the status, the winner, endTime and duration |
| Engine.Elapsed | snake/convex/games.ts:143 | the duration is now minus the start time, and 0 when the start time is absent or 0 |
| Engine.WinRecord | snake/convex/games.ts:146-155 | the archive row carries the game's names and colours, the mover as winner, the duration and now |
| Engine.EndEvent | snake/convex/games.ts:157-163 | the game_end event is for the mover and names the mover as winner and the position reached |
| Engine.MoveEvent | snake/convex/games.ts:169-179 | the move-class event is for the mover, typed by the move kind (never game_end), and carries the new position and the kind |
| Engine.MoveEvents | snake/convex/games.ts:157-179 | a move logs game_end first on a win and the move-class event last, all for the mover at now |
| Engine.MoveStep | snake/convex/games.ts:107-121 | movePlayer fails with "Game not found or not in playing state" exactly when the game is missing or not playing, and then changes nothing |
| Engine.MoveChangesOnlyItsGame | snake/convex/games.ts:123-183 | an accepted move changes no other game, keeps every earlier event and archive row in place, and on a win archives the mover's row right after them |
| Engine.MoveOutcome | snake/convex/games.ts:123-179 | an accepted move patches the row to exactly MovedGame and appends exactly MoveEvents; it flips the turn, moves only the mover, finishes the game iff the position is 100 or more, gives the win to the mover and never the other player with endTime now and duration Elapsed, and adds one archive row and two events on a win, none and one otherwise |
| Engine.MoveLogsMoveLast | snake/convex/games.ts:157-179 | the last new event is the move-class event with {newPosition, moveType}, a missing moveType gives move, a win puts game_end just before it, and a non-winning move logs no game_end |
| Engine.NotPlayingIsFrozen | snake/convex/games.ts:118-121 | a game that is not playing, finished ones included, cannot be rolled for or moved, and nothing changes |
| Engine.RestartKeepsWinner | snake/convex/games.ts:55-66 | starting a finished game makes it playing again and keeps its old winner |
| Engine.CreateKeepsConsistent | snake/convex/games.ts:31-53 | createGame keeps the tables consistent: ids below the counter, every event and archive row names a game, a game has a winner exactly when it has an archive row, and each game has as many game_end events as archive rows |
| Engine.StartKeepsConsistent | snake/convex/games.ts:55-78 | startGame keeps the same consistency |
| Engine.RollKeepsConsistent | snake/convex/games.ts:80-105 | rollDice keeps the same consistency |
| Engine.EndsForAppend | snake/convex/games.ts:157-179 | the game_end count of a log with events appended is the old count plus the count of the appended ones |
| Engine.MoveEventsEnds | snake/convex/games.ts:157-179 | a move logs one game_end for its game when it wins and none otherwise |
| Engine.PatchKeepsConsistent | snake/convex/games.ts:55-183 | patching one game and appending events and archive rows that name it keeps the tables consistent when the patched game is well formed and its winner and counts agree |
| Engine.MoveKeepsConsistent | snake/convex/games.ts:107-183 | movePlayer keeps the same consistency: each win adds exactly one archive row and one game_end for that game |
| Store.GameStore.constructor | snake/convex/schema.ts:5-66 | the store starts with three empty tables and is consistent |
| Store.GameStore.CreateGame | snake/convex/games.ts:31-53 | inserts under a fresh id exactly what Engine.Create says, as a new game in setup with player 1 to move, keeping consistency |
| Store.GameStore.StartGame | snake/convex/games.ts:55-78 | the patch and insert leave exactly the tables and outcome Engine.Start gives |
| Store.GameStore.RollDice | snake/convex/games.ts:80-105 | the patch and insert leave exactly the tables and outcome Engine.Roll gives |
| Store.GameStore.MovePlayer | snake/convex/games.ts:107-183 | the field-by-field patch, the archive insert and the two event inserts leave exactly the tables and outcome Engine.MoveStep gives |
| Queries.EventsOf | snake/convex/games.ts:206-208 | the index range for one game: only that game's events, all of them, in logged order |
| Queries.GameEventsQuery | snake/convex/games.ts:203-212 | getGameEvents returns at most 50 of the game's events, the newest first |
| Queries.GameHistoryQuery | snake/convex/games.ts:192-201 | getGameHistory returns at most 20 archive rows, the newest first |
| Queries.EventsFeedNewestFirst | snake/convex/schema.ts:65 | when the clock never went back, the events feed is in descending timestamp order, as the by_game_and_timestamp index orders it |
| Queries.FeedStartsWithAppended | snake/convex/games.ts:203-211 | events just logged for a game head its feed, newest first |
| Queries.FeedsAfterMove | snake/convex/games.ts:157-179 | right after a move the feed starts with the move event; after a win game_end comes second and the history feed starts with the new archive row |
| Router.Route | snake/convex/router.ts:15-36 | dice_roll forwards exactly gameId and diceValue, player_move exactly gameId, newPosition and moveType, and every other type is unknown |
| Router.ParseMoveType | snake/convex/games.ts:111-115 | exactly the literals normal, snake and ladder are accepted |
| Router.ValidateArgs | snake/convex/games.ts:81-84 | a call passes argument validation iff gameId and the number are present and a given moveType is one of the literals, and it keeps the values, the moveType included (absent stays absent) |
| Router.Respond | snake/convex/router.ts:38-47 | a completed mutation gives 200 {success: true}; a thrown error gives 500 with its message |
| Router.Handle | snake/convex/router.ts:11-48 | the status is 200, 400 or 500; 400 exactly for an unknown type, with "Unknown update type"; a request whose arguments fail validation gets 500 with the validator's message and changes nothing; 200 only for a call whose arguments were accepted; every non-200 answer leaves the tables unchanged |
| Router.HandleRunsOneMutation | snake/convex/router.ts:15-29 | a request runs exactly the one mutation its type names, with its own fields |
| Router.MissingAndNotPlayingLookAlike | snake/convex/router.ts:15-47 | for a well-formed dice_roll or player_move, a missing game and a game that is not playing get the same 500 answer |
| Router.HandleUpdate | snake/convex/router.ts:11-48 | the handler on the store gives exactly the answer and tables Handle describes |
| Setup.PaletteValuesDistinct | snake/src/components/GameSetup.tsx:7-13 | the palette has five non-empty, pairwise distinct colour values |
| Setup.TrimStart | snake/src/components/GameSetup.tsx:29 | removes only leading whitespace, up to the first other character |
| Setup.TrimEnd | snake/src/components/GameSetup.tsx:29 | removes only trailing whitespace, back to the last other character |
| Setup.Trim | snake/src/components/GameSetup.tsx:29 | trim is no longer than its input, and its result neither starts nor ends with whitespace |
| Setup.TrimSpec | snake/src/components/GameSetup.tsx:29 | trim gives the input's characters from some offset on, character for character, with only whitespace cut off before and after; the result neither starts nor ends with whitespace, and is empty iff the input is all whitespace |
| Setup.MessagesTellRejectionsApart | snake/src/components/GameSetup.tsx:29-42 | the three rejections show three different, non-empty toast texts (SetupError.Message), so the toast tells which check failed |
| Setup.ValidateSetup | snake/src/components/GameSetup.tsx:28-51 | missing trimmed names are reported first, then a missing colour, then equal colours, each iff its condition holds; on success createGame gets the trimmed names and the colours unchanged, all non-empty, colours distinct |
| Setup.CreateDisabled | snake/src/components/GameSetup.tsx:176 | the button is disabled iff a create is running or the validation would reject |
| Setup.AcceptedFormMakesDistinctPlayers | snake/src/components/GameSetup.tsx:44-51 | a game created from accepted input has distinct colours and non-empty names not starting with whitespace |
| Setup.WithoutColor | snake/src/components/GameSetup.tsx:63-65 | `filter` keeps exactly the palette entries whose value is not the taken one |
| Setup.WithoutColorKeepsOrder | snake/src/components/GameSetup.tsx:63-65 | the filter keeps the palette order |
| Setup.WithoutColorLength | snake/src/components/GameSetup.tsx:63-65 | over distinct values the filter drops one entry when the value is offered and none otherwise |
| Setup.AvailableColorsForPlayer2 | snake/src/components/GameSetup.tsx:63-65 | player 2 is offered exactly the palette entries whose value is not player 1's colour |
| Setup.AvailableColorsSpec | snake/src/components/GameSetup.tsx:63-65 | player 2 is offered the palette without player 1's colour, in palette order: four colours once player 1 has chosen, five before |
| Text.Digits | snake/src/components/GameHistory.tsx:12-14 | decimal digits of a natural number, at least one, no leading zero, one digit exactly below 10 |
| Text.DigitsRoundTrip | snake/src/components/GameHistory.tsx:12-14 | the digits read back as the number |
| Text.NumberText | snake/src/components/GameHistory.tsx:12-14 | an integer's text is digits, with a minus sign for a negative one, and never has a leading zero (only 0 itself starts with '0') |
| Text.NumberTextCharacters | snake/src/components/GameHistory.tsx:12-14 | an integer's text contains only the minus sign and digits |
| Text.ReadInt | snake/src/components/GameTimer.tsx:24-26 | a text reads as an integer iff it is digits, optionally after a minus sign |
| Text.NumberTextRoundTrip | snake/src/components/GameHistory.tsx:12-14 | an integer's text reads back as the integer |
| Text.PadStart2 | snake/src/components/GameTimer.tsx:24 | padStart(2, '0') keeps a text of two or more characters and puts zeros in front of a shorter one to make two |
| Text.PaddedNumberRoundTrip | snake/src/components/GameTimer.tsx:24-26 | padding a number's text does not change the number it reads as |
| Text.PaddedNumberCharacters | snake/src/components/GameTimer.tsx:24-26 | a padded number has only minus signs and digits, and 0..99 pads to exactly two digits |
| Text.JsRem | snake/src/components/GameTimer.tsx:26 | JavaScript `%`: its magnitude is the remainder of the magnitudes, its sign is the dividend's, and it equals Dafny's `%` for a non-negative dividend |
| Text.SplitFirst | snake/src/components/GameTimer.tsx:24 | splits at the first occurrence of a character, none iff it is absent |
| Text.SplitFirstOf | snake/src/components/GameTimer.tsx:24 | a text built as a, separator, b splits back into a and b when a has no separator |
| Clock.FormatDuration | snake/src/components/GameHistory.tsx:7-15 | the duration text ends in "s" |
| Clock.FormatDurationForms | snake/src/components/GameHistory.tsx:7-15 | the exact text: "<m>m <s>s" with both fields as plain unpadded digits from a minute on, "<s>s" before, with a minus sign for a negative duration |
| Clock.FormatDurationRoundTrip | snake/src/components/GameOverModal.tsx:18-26 | the text reads back as minutes and seconds mod 60 from 60000 ms on, and as whole floored seconds below, so the minutes form is used iff ms >= 60000 |
| Clock.FormatDurationSecondsBelowMinute | snake/src/components/GameHistory.tsx:11-14 | the minutes form always shows at least one minute and seconds in 0..59 |
| Clock.MinutesTextRoundTrip | snake/src/components/GameHistory.tsx:12 | "<m>m <s>s" reads back as m and s |
| Clock.SecondsTextRoundTrip | snake/src/components/GameHistory.tsx:14 | "<s>s" reads back as s |
| Clock.FormatTime | snake/src/components/GameTimer.tsx:18-27 | the timer text has at least four characters and contains a colon |
| Clock.FormatTimeRoundTrip | snake/src/components/GameTimer.tsx:18-27 | the timer reads back as hours, minutes mod 60 and seconds mod 60 from an hour on, and as minutes and the remaining seconds below |
| Clock.FormatTimeLongForm | snake/src/components/GameTimer.tsx:23-25 | from an hour on the text is the hours' plain digits, then the minutes and the seconds each padded to exactly two digits, colon-separated |
| Clock.FormatTimeShortForm | snake/src/components/GameTimer.tsx:26 | below an hour the minutes are their plain digits, unpadded and without leading zero, so the text has four characters exactly under ten minutes |
| Clock.HoursTextRoundTrip | snake/src/components/GameTimer.tsx:24 | "h:mm:ss" reads back as its three fields |
| Clock.ClockTextRoundTrip | snake/src/components/GameTimer.tsx:26 | "m:ss" reads back as its two fields |
| Clock.FormatTimeEndsWithTwoDigitSeconds | snake/src/components/GameTimer.tsx:24-26 | for a clock that has not gone back, the text ends in a colon and exactly two digits |
| Display.WinnerName | snake/src/components/GameOverModal.tsx:16 | winner 1 shows player 1's name, winner 2 player 2's |
| Display.WinningMoveShowsMover | snake/src/components/GameOverModal.tsx:16 | after a winning move the dialog names the mover, whose position reads Finish without a progress bar |
| Display.LineOf | snake/src/components/GameHistory.tsx:63-66 | the winner's name and colour come from the winner's slot, the loser's from the other slot, and together they are the two players once each |
| Display.ArchivedLineNamesMover | snake/src/components/GameHistory.tsx:63-66 | the row a winning move archives shows the mover as winner and the other player as loser |
| Display.EntryNumber | snake/src/components/GameHistory.tsx:102 | entry numbers run from the list length at the top down to 1 at the bottom |
| Display.EntryNumbersDistinct | snake/src/components/GameHistory.tsx:102 | earlier entries carry strictly larger numbers |
| Display.EntryNumberIsAge | snake/src/components/GameHistory.tsx:102 | #n is the n-th oldest row shown, and the n-th game ever completed while at most 20 are archived |
| Display.PositionLabel | snake/src/components/PlayerInfo.tsx:53 | Start iff position 0, Finish iff 100 or more, the number itself otherwise |
| Display.ShowsProgressBar | snake/src/components/PlayerInfo.tsx:57 | the bar is drawn iff 0 < position < 100, and then the label is the cell number |
| Display.BarWidth | snake/src/components/PlayerInfo.tsx:63 | the width is min(position, 100) |
| Display.ProgressBarOnCells | snake/src/components/PlayerInfo.tsx:57-63 | the bar is drawn iff the label is a positive cell number, and its width is then the position, 1..99 |

## Left out

- `Date.now()` is read several times within one `movePlayer` call (endTime,
  twice for the duration, completedAt, and the timestamps of the game_end
  and move events). The model reads it once
  per call as `now`, so those times are all equal.
- The text of the argument-validation errors is the database framework's
  own. The model uses one stand-in message, `ArgumentValidationError`. A
  gameId that names no row is modelled as a missing game.
- A request body that is not JSON makes `request.json()` throw outside the
  `try`, so the endpoint gives no answer of its own. The model's body is
  already decoded, and a `type` that is not a string counts as an unknown
  type.
- A JSON body that is `null` makes reading its `type` throw inside the
  `try`, which answers 500 with the TypeError's message. The decoded `Body`
  of the model is always an object, so this case is not modelled.
- The "Unknown error" answer is for a thrown value that is not an Error.
  The mutations only throw Errors, so the model has no such case.
- Numbers are JavaScript doubles. Positions, dice values, times and
  durations are modelled as unbounded integers.
- Writes are not transactional, and requests can run concurrently. The
  model applies each mutation as one sequential step.
- The query indexes order rows by timestamp. The model keeps rows in
  insertion order, which agrees with the index only when the clock never
  goes backwards (`Queries.EventsFeedNewestFirst`).
- Queries.GameEventsQuery: does not model ties between equal timestamps,
  which the index may order differently from insertion order.
- Game ids are opaque database ids. The model uses a counter.
- `getCurrentGame` returns the row as it is and is not modelled separately.
- The locale date in the history list (`formatDate`), the `setInterval`
  ticking of the timer, the display of toasts, and all rendering and styling
  are left out. The texts of the three setup toasts are modelled
  (`Setup.SetupError.Message`).
- A field sent with the wrong JSON type (a string `diceValue`, a number
  `gameId` or one that is not a games-table id, `"moveType": null`) is not
  representable in `Router.Body`: in the code the mutation's argument
  validator throws on it and the handler answers 500, like a missing field.
- `GameBoard.tsx`, `SnakeLadderOverlay.tsx` and `App.tsx` are not part of
  this model. The same goes for authentication tables.
