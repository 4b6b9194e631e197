/** What each backend mutation (createGame, startGame, rollDice, movePlayer)
    does to the three tables, as pure functions on a snapshot of the tables,
    and the consistency the mutations keep between the tables. The class in
    module Store performs the same changes step by step and is proved against
    these functions. */
module Engine {
  import opened Schema
  import opened Board

  /** A snapshot of the games table (by id) and the two append-only tables. */
  datatype Tables = Tables(games: map<GameId, Game>, events: seq<GameEvent>, history: seq<HistoryRecord>)

  /** How a mutation ended: normally, or by throwing an Error with a message. */
  datatype Outcome = Done | Failed(message: string)

  datatype Step = Step(outcome: Outcome, after: Tables)

  const GameNotFound: string := "Game not found"
  const NotPlaying: string := "Game not found or not in playing state"

  /** A move to this cell or beyond wins. */
  const WinningPosition: int := 100

  /** The guard of rollDice and movePlayer. */
  predicate Playable(t: Tables, id: GameId) {
    id in t.games && t.games[id].status == Playing
  }

  // ---------------------------------------------------------------- createGame

  /** The row createGame inserts. Names and colours are stored as given. */
  function NewGame(player1Name: string, player1Color: string,
                   player2Name: string, player2Color: string): (g: Game)
    ensures g.NameOf(One) == player1Name && g.ColorOf(One) == player1Color
    ensures g.NameOf(Two) == player2Name && g.ColorOf(Two) == player2Color
    ensures g.PositionOf(One) == 0 && g.PositionOf(Two) == 0
    ensures g.currentPlayer == One && g.status == Setup
    ensures g.winner.None? && g.startTime.None? && g.endTime.None? && g.duration.None?
    ensures g.lastDiceRoll.None? && g.lastMoveType.None?
    ensures g.snakesAndLadders == DefaultSnakesAndLadders
  {
    Game(player1Name, player1Color, 0, player2Name, player2Color, 0, One, Setup,
         None, None, None, None, None, None, DefaultSnakesAndLadders)
  }

  /** The tables after createGame inserted a game under the fresh id `id`. */
  function Create(t: Tables, id: GameId, player1Name: string, player1Color: string,
                  player2Name: string, player2Color: string): (r: Tables)
    requires id !in t.games
    ensures r.games.Keys == t.games.Keys + {id}
    ensures r.games[id] == NewGame(player1Name, player1Color, player2Name, player2Color)
    ensures forall k :: k in t.games ==> r.games[k] == t.games[k]
    ensures r.events == t.events && r.history == t.history
  {
    Tables(t.games[id := NewGame(player1Name, player1Color, player2Name, player2Color)], t.events, t.history)
  }

  // ----------------------------------------------------------------- startGame

  /** The game_start row: for player 1, carrying and stamped with the start
      time. */
  function StartEvent(id: GameId, startTime: int): (e: GameEvent)
    ensures e.gameId == id && e.eventType == GameStart && e.player == One
    ensures e.data == StartData(startTime) && e.timestamp == startTime
  {
    GameEvent(id, GameStart, One, StartData(startTime), startTime)
  }

  /** startGame: fails only on a missing game; whatever the status was, the
      game becomes playing with startTime = now and one game_start event is
      logged for player 1. */
  function Start(t: Tables, id: GameId, now: int): (s: Step)
    ensures s.outcome.Failed? <==> id !in t.games
    ensures s.outcome.Failed? ==> s.outcome == Failed(GameNotFound) && s.after == t
    ensures s.outcome.Done? ==>
              && s.after.games.Keys == t.games.Keys
              && (forall k :: k in t.games && k != id ==> s.after.games[k] == t.games[k])
              && s.after.games[id].status == Playing
              && s.after.games[id].startTime == Some(now)
              && s.after.games[id].(status := t.games[id].status, startTime := t.games[id].startTime) == t.games[id]
              && s.after.events == t.events + [StartEvent(id, now)]
              && s.after.events[|t.events|].eventType == GameStart
              && s.after.events[|t.events|].player == One
              && s.after.events[|t.events|].timestamp == now
              && s.after.history == t.history
  {
    if id !in t.games then Step(Failed(GameNotFound), t)
    else
      var g := t.games[id];
      Step(Done, Tables(t.games[id := g.(status := Playing, startTime := Some(now))],
                        t.events + [StartEvent(id, now)], t.history))
  }

  // ------------------------------------------------------------------ rollDice

  /** The dice_roll row: for the player whose turn it is, carrying the value
      as given. */
  function DiceEvent(id: GameId, g: Game, diceValue: int, now: int): (e: GameEvent)
    ensures e.gameId == id && e.eventType == DiceRoll && e.player == g.currentPlayer
    ensures e.data == DiceData(diceValue) && e.timestamp == now
  {
    GameEvent(id, DiceRoll, g.currentPlayer, DiceData(diceValue), now)
  }

  /** rollDice: on a missing or not-playing game it fails and changes nothing;
      otherwise only lastDiceRoll changes, and one dice_roll event is logged
      for the player whose turn it is. The value is not range-checked. */
  function Roll(t: Tables, id: GameId, diceValue: int, now: int): (s: Step)
    ensures s.outcome.Failed? <==> !Playable(t, id)
    ensures s.outcome.Failed? ==> s.outcome == Failed(NotPlaying) && s.after == t
    ensures s.outcome.Done? ==>
              && s.after.games.Keys == t.games.Keys
              && (forall k :: k in t.games && k != id ==> s.after.games[k] == t.games[k])
              && s.after.games[id].lastDiceRoll == Some(diceValue)
              && s.after.games[id].(lastDiceRoll := t.games[id].lastDiceRoll) == t.games[id]
              && s.after.events == t.events + [DiceEvent(id, t.games[id], diceValue, now)]
              && s.after.events[|t.events|].player == t.games[id].currentPlayer
              && s.after.history == t.history
  {
    if !Playable(t, id) then Step(Failed(NotPlaying), t)
    else
      var g := t.games[id];
      Step(Done, Tables(t.games[id := g.(lastDiceRoll := Some(diceValue))],
                        t.events + [DiceEvent(id, g, diceValue, now)], t.history))
  }

  // ---------------------------------------------------------------- movePlayer

  /** The event type logged for a move of the given kind. */
  function MoveEventType(moveType: MoveType): (e: EventType)
    ensures e == Move || e == SnakeEncounter || e == LadderEncounter
    ensures e == SnakeEncounter <==> moveType == SnakeMove
    ensures e == LadderEncounter <==> moveType == LadderMove
  {
    match moveType
    case SnakeMove => SnakeEncounter
    case LadderMove => LadderEncounter
    case Normal => Move
  }

  /** The duration of a game that ends at `now`, measured from its start
      time; a start time that is absent or 0 (falsy) gives 0. */
  function Elapsed(g: Game, now: int): (d: int)
    ensures g.startTime.Some? && g.startTime.value != 0 ==> d == now - g.startTime.value
    ensures g.startTime.None? || g.startTime.value == 0 ==> d == 0
  {
    now - (if g.startTime.Some? && g.startTime.value != 0 then g.startTime.value else now)
  }

  /** The patch movePlayer applies to the game row. */
  function MovedGame(g: Game, newPosition: int, moveType: MoveType, now: int): (r: Game)
    ensures r.PositionOf(g.currentPlayer) == newPosition
    ensures r.PositionOf(g.currentPlayer.Other()) == g.PositionOf(g.currentPlayer.Other())
    ensures r.currentPlayer == g.currentPlayer.Other()
    ensures r.lastMoveType == Some(moveType)
    ensures newPosition >= WinningPosition ==>
              && r.status == Finished && r.winner == Some(g.currentPlayer)
              && r.endTime == Some(now) && r.duration == Some(Elapsed(g, now))
    ensures newPosition < WinningPosition ==>
              r.status == g.status && r.winner == g.winner && r.endTime == g.endTime && r.duration == g.duration
  {
    var mover := g.currentPlayer;
    var turned := g.(lastMoveType := Some(moveType), currentPlayer := mover.Other());
    var placed := if mover == One then turned.(player1Position := newPosition)
                  else turned.(player2Position := newPosition);
    if newPosition >= WinningPosition then
      placed.(status := Finished, winner := Some(mover), endTime := Some(now), duration := Some(Elapsed(g, now)))
    else placed
  }

  /** The patch touches no field other than the positions, the turn, the
      move type and the four fields a win sets. */
  lemma MovedGameKeepsOtherFields(g: Game, newPosition: int, moveType: MoveType, now: int)
    ensures var r := MovedGame(g, newPosition, moveType, now);
            r.(player1Position := g.player1Position, player2Position := g.player2Position,
               currentPlayer := g.currentPlayer, lastMoveType := g.lastMoveType, status := g.status,
               winner := g.winner, endTime := g.endTime, duration := g.duration) == g
  {
  }

  /** The archive row written when the mover of `g` wins. */
  function WinRecord(id: GameId, g: Game, now: int): (h: HistoryRecord)
    ensures h.gameId == id && h.winner == g.currentPlayer
    ensures h.player1Name == g.player1Name && h.player1Color == g.player1Color
    ensures h.player2Name == g.player2Name && h.player2Color == g.player2Color
    ensures h.duration == Elapsed(g, now) && h.completedAt == now
  {
    HistoryRecord(id, g.player1Name, g.player1Color, g.player2Name, g.player2Color,
                  g.currentPlayer, Elapsed(g, now), now)
  }

  /** The game_end row: for the mover, naming the mover as winner and the
      position reached. */
  function EndEvent(id: GameId, g: Game, newPosition: int, now: int): (e: GameEvent)
    ensures e.gameId == id && e.eventType == GameEnd && e.player == g.currentPlayer
    ensures e.data == EndData(g.currentPlayer, newPosition) && e.timestamp == now
  {
    GameEvent(id, GameEnd, g.currentPlayer, EndData(g.currentPlayer, newPosition), now)
  }

  /** The move-class row: for the mover, typed by the move kind, carrying the
      new position and the kind. */
  function MoveEvent(id: GameId, g: Game, newPosition: int, moveType: MoveType, now: int): (e: GameEvent)
    ensures e.gameId == id && e.eventType == MoveEventType(moveType) && e.player == g.currentPlayer
    ensures e.eventType != GameEnd
    ensures e.data == MoveData(newPosition, moveType) && e.timestamp == now
  {
    GameEvent(id, MoveEventType(moveType), g.currentPlayer, MoveData(newPosition, moveType), now)
  }

  /** The events movePlayer appends, in order: game_end on a win, then the
      move-class event. */
  function MoveEvents(id: GameId, g: Game, newPosition: int, moveType: MoveType, now: int): (es: seq<GameEvent>)
    ensures |es| == if newPosition >= WinningPosition then 2 else 1
    ensures es[|es| - 1] == MoveEvent(id, g, newPosition, moveType, now)
    ensures |es| == 2 ==> es[0] == EndEvent(id, g, newPosition, now)
    ensures forall i :: 0 <= i < |es| ==> es[i].gameId == id && es[i].player == g.currentPlayer
                                           && es[i].timestamp == now
  {
    (if newPosition >= WinningPosition then [EndEvent(id, g, newPosition, now)] else [])
      + [MoveEvent(id, g, newPosition, moveType, now)]
  }

  /** movePlayer: on a missing or not-playing game it fails and changes
      nothing. Otherwise the mover is the player whose turn it was; the game
      row is patched as MovedGame says, a win appends exactly one archive row,
      and the events of MoveEvents are appended. The new position is stored as
      given: neither its range nor its reachability is checked. */
  function MoveStep(t: Tables, id: GameId, newPosition: int, moveType: Option<MoveType>, now: int): (s: Step)
    ensures s.outcome.Failed? <==> !Playable(t, id)
    ensures s.outcome.Failed? ==> s.outcome == Failed(NotPlaying) && s.after == t
  {
    if !Playable(t, id) then Step(Failed(NotPlaying), t)
    else
      var g := t.games[id];
      var mt := moveType.GetOr(Normal);
      Step(Done, Tables(t.games[id := MovedGame(g, newPosition, mt, now)],
                        t.events + MoveEvents(id, g, newPosition, mt, now),
                        t.history + (if newPosition >= WinningPosition then [WinRecord(id, g, now)] else [])))
  }

  // ------------------------------------------------------- properties of moves

  /** An accepted move hands the turn to the other player and moves only the
      mover; a win goes to the mover, never to the other player, and comes
      with exactly one archive row; a move short of 100 leaves the game
      playing and the archive alone. */
  lemma MoveOutcome(t: Tables, id: GameId, newPosition: int, moveType: Option<MoveType>, now: int)
    requires Playable(t, id)
    ensures var s := MoveStep(t, id, newPosition, moveType, now);
            var before := t.games[id];
            var after := s.after.games[id];
            && s.outcome == Done
            && after == MovedGame(before, newPosition, moveType.GetOr(Normal), now)
            && s.after.events == t.events + MoveEvents(id, before, newPosition, moveType.GetOr(Normal), now)
            && after.currentPlayer != before.currentPlayer
            && after.PositionOf(before.currentPlayer) == newPosition
            && after.PositionOf(after.currentPlayer) == before.PositionOf(after.currentPlayer)
            && after.lastMoveType == Some(moveType.GetOr(Normal))
            && (newPosition >= WinningPosition <==> after.status == Finished)
            && (newPosition >= WinningPosition ==> after.winner == Some(before.currentPlayer)
                                                    && after.winner != Some(after.currentPlayer)
                                                    && after.endTime == Some(now)
                                                    && after.duration == Some(Elapsed(before, now)))
            && (newPosition < WinningPosition ==> after.status == Playing && s.after.history == t.history)
            && |s.after.history| == |t.history| + (if newPosition >= WinningPosition then 1 else 0)
            && |s.after.events| == |t.events| + (if newPosition >= WinningPosition then 2 else 1)
  {
    var s := MoveStep(t, id, newPosition, moveType, now);
    var before := t.games[id];
    var after := s.after.games[id];
    assert after.currentPlayer == before.currentPlayer.Other();
  }

  /** An accepted move touches only its own game's row, and the two logs are
      append-only: the old events and archive rows stay in place, and a win
      archives the mover's row right after them. */
  lemma MoveChangesOnlyItsGame(t: Tables, id: GameId, newPosition: int, moveType: Option<MoveType>, now: int)
    requires Playable(t, id)
    ensures var after := MoveStep(t, id, newPosition, moveType, now).after;
            && after.games.Keys == t.games.Keys
            && (forall k :: k in t.games && k != id ==> after.games[k] == t.games[k])
            && |after.events| >= |t.events| && after.events[..|t.events|] == t.events
            && |after.history| >= |t.history| && after.history[..|t.history|] == t.history
            && (newPosition >= WinningPosition ==> after.history[|t.history|] == WinRecord(id, t.games[id], now))
  {
    var after := MoveStep(t, id, newPosition, moveType, now).after;
    var added := MoveEvents(id, t.games[id], newPosition, moveType.GetOr(Normal), now);
    assert after.events == t.events + added;
    assert (t.events + added)[..|t.events|] == t.events;
  }

  /** The last event an accepted move logs is its move-class event, typed by
      the move kind (absent kind = normal) and carrying the new position. */
  lemma MoveLogsMoveLast(t: Tables, id: GameId, newPosition: int, moveType: Option<MoveType>, now: int)
    requires Playable(t, id)
    ensures var es := MoveStep(t, id, newPosition, moveType, now).after.events;
            && |es| > |t.events|
            && es[|es| - 1].eventType == MoveEventType(moveType.GetOr(Normal))
            && es[|es| - 1].data == MoveData(newPosition, moveType.GetOr(Normal))
            && (moveType.None? ==> es[|es| - 1].eventType == Move)
            && (newPosition >= WinningPosition ==> es[|es| - 2].eventType == GameEnd)
            && (newPosition < WinningPosition ==>
                  forall i :: |t.events| <= i < |es| ==> es[i].eventType != GameEnd)
  {
    var g := t.games[id];
    var mt := moveType.GetOr(Normal);
    var es := MoveStep(t, id, newPosition, moveType, now).after.events;
    var added := MoveEvents(id, g, newPosition, mt, now);
    assert es == t.events + added;
    assert es[|es| - 1] == added[|added| - 1];
    if newPosition >= WinningPosition {
      assert es[|es| - 2] == added[0];
    } else {
      forall i | |t.events| <= i < |es| ensures es[i].eventType != GameEnd {
        assert es[i] == added[i - |t.events|];
      }
    }
  }

  /** A game that is not playing (in particular a finished one) can be neither
      rolled nor moved: both fail with the same message and nothing changes. */
  lemma NotPlayingIsFrozen(t: Tables, id: GameId, diceValue: int, newPosition: int,
                           moveType: Option<MoveType>, now: int)
    requires id in t.games && t.games[id].status != Playing
    ensures Roll(t, id, diceValue, now) == Step(Failed(NotPlaying), t)
    ensures MoveStep(t, id, newPosition, moveType, now) == Step(Failed(NotPlaying), t)
  {
  }

  /** startGame has no status guard: a finished game can be started again. It
      is then playing while it still carries the winner of the earlier game. */
  lemma RestartKeepsWinner(t: Tables, id: GameId, now: int)
    requires id in t.games && t.games[id].status == Finished && t.games[id].winner.Some?
    ensures var g := Start(t, id, now).after.games[id];
            g.status == Playing && g.winner == t.games[id].winner
  {
  }

  // ------------------------------------------------ consistency of the tables

  predicate IsEndOf(e: GameEvent, id: GameId) {
    e.gameId == id && e.eventType == GameEnd
  }

  /** Number of game_end events for `id` among the first n events. */
  function EndsIn(events: seq<GameEvent>, id: GameId, n: nat): nat
    requires n <= |events|
  {
    if n == 0 then 0 else EndsIn(events, id, n - 1) + (if IsEndOf(events[n - 1], id) then 1 else 0)
  }

  /** Number of game_end events logged for `id`. */
  function EndsFor(events: seq<GameEvent>, id: GameId): nat {
    EndsIn(events, id, |events|)
  }

  /** Number of archive rows for `id` among the first n rows. */
  function RecordsIn(history: seq<HistoryRecord>, id: GameId, n: nat): nat
    requires n <= |history|
  {
    if n == 0 then 0 else RecordsIn(history, id, n - 1) + (if history[n - 1].gameId == id then 1 else 0)
  }

  /** Number of archive rows for `id`. */
  function RecordsFor(history: seq<HistoryRecord>, id: GameId): nat {
    RecordsIn(history, id, |history|)
  }

  /** Appending events leaves the count over the old ones alone, and adds
      the count over the appended ones. */
  lemma {:induction false} EndsInAppend(events: seq<GameEvent>, more: seq<GameEvent>, id: GameId, n: nat)
    requires n <= |events| + |more|
    ensures n <= |events| ==> EndsIn(events + more, id, n) == EndsIn(events, id, n)
    ensures n >= |events| ==> EndsIn(events + more, id, n) == EndsFor(events, id) + EndsIn(more, id, n - |events|)
  {
    if n > 0 {
      EndsInAppend(events, more, id, n - 1);
      if n > |events| {
        assert (events + more)[n - 1] == more[n - 1 - |events|];
      } else {
        assert (events + more)[n - 1] == events[n - 1];
      }
    }
  }

  lemma EndsForAppend(events: seq<GameEvent>, more: seq<GameEvent>, id: GameId)
    ensures EndsFor(events + more, id) == EndsFor(events, id) + EndsFor(more, id)
  {
    EndsInAppend(events, more, id, |events| + |more|);
  }

  lemma {:induction false} RecordsInAppend(history: seq<HistoryRecord>, more: seq<HistoryRecord>, id: GameId, n: nat)
    requires n <= |history| + |more|
    ensures n <= |history| ==> RecordsIn(history + more, id, n) == RecordsIn(history, id, n)
    ensures n >= |history| ==> RecordsIn(history + more, id, n) == RecordsFor(history, id) + RecordsIn(more, id, n - |history|)
  {
    if n > 0 {
      RecordsInAppend(history, more, id, n - 1);
      if n > |history| {
        assert (history + more)[n - 1] == more[n - 1 - |history|];
      } else {
        assert (history + more)[n - 1] == history[n - 1];
      }
    }
  }

  lemma RecordsForAppend(history: seq<HistoryRecord>, more: seq<HistoryRecord>, id: GameId)
    ensures RecordsFor(history + more, id) == RecordsFor(history, id) + RecordsFor(more, id)
  {
    RecordsInAppend(history, more, id, |history| + |more|);
  }

  lemma EndsForOne(e: GameEvent, id: GameId)
    ensures EndsFor([e], id) == if IsEndOf(e, id) then 1 else 0
  {
    assert EndsIn([e], id, 0) == 0;
  }

  lemma RecordsForOne(h: HistoryRecord, id: GameId)
    ensures RecordsFor([h], id) == if h.gameId == id then 1 else 0
  {
    assert RecordsIn([h], id, 0) == 0;
  }

  /** A game nobody logged anything for has no game_end event. */
  lemma {:induction false} EndsInAbsent(events: seq<GameEvent>, id: GameId, n: nat)
    requires n <= |events|
    requires forall i :: 0 <= i < |events| ==> events[i].gameId != id
    ensures EndsIn(events, id, n) == 0
  {
    if n > 0 {
      EndsInAbsent(events, id, n - 1);
    }
  }

  /** A game nobody archived has no archive row. */
  lemma {:induction false} RecordsInAbsent(history: seq<HistoryRecord>, id: GameId, n: nat)
    requires n <= |history|
    requires forall i :: 0 <= i < |history| ==> history[i].gameId != id
    ensures RecordsIn(history, id, n) == 0
  {
    if n > 0 {
      RecordsInAbsent(history, id, n - 1);
    }
  }

  /** What the status of a game implies about its other fields. */
  predicate GameWellFormed(g: Game) {
    && (g.status == Finished ==> g.winner.Some? && g.endTime.Some? && g.duration.Some?)
    && (g.status != Setup ==> g.startTime.Some?)
  }

  /** The consistency every mutation keeps: ids below the next fresh id, every
      event and archive row names an existing game, every game is well formed,
      a game has a winner exactly when it has an archive row, and each game has
      as many game_end events as archive rows. */
  predicate Consistent(t: Tables, nextId: nat) {
    && IdsBelow(t, nextId)
    && EventsNameGames(t)
    && RecordsNameGames(t)
    && GamesWellFormed(t)
    && WinnersArchived(t)
    && EndsMatchRecords(t)
  }

  predicate IdsBelow(t: Tables, nextId: nat) {
    forall k :: k in t.games ==> k < nextId
  }

  predicate EventsNameGames(t: Tables) {
    forall i :: 0 <= i < |t.events| ==> t.events[i].gameId in t.games
  }

  predicate RecordsNameGames(t: Tables) {
    forall i :: 0 <= i < |t.history| ==> t.history[i].gameId in t.games
  }

  predicate GamesWellFormed(t: Tables) {
    forall k :: k in t.games ==> GameWellFormed(t.games[k])
  }

  predicate WinnersArchived(t: Tables) {
    forall k :: k in t.games ==> (t.games[k].winner.Some? <==> RecordsFor(t.history, k) > 0)
  }

  predicate EndsMatchRecords(t: Tables) {
    forall k :: k in t.games ==> EndsFor(t.events, k) == RecordsFor(t.history, k)
  }

  lemma CreateKeepsConsistent(t: Tables, nextId: nat, player1Name: string, player1Color: string,
                              player2Name: string, player2Color: string)
    requires Consistent(t, nextId)
    ensures nextId !in t.games
    ensures Consistent(Create(t, nextId, player1Name, player1Color, player2Name, player2Color), nextId + 1)
  {
    RecordsInAbsent(t.history, nextId, |t.history|);
    EndsInAbsent(t.events, nextId, |t.events|);
  }

  /** The shape of startGame, rollDice and movePlayer: patch game `id`, then
      append events and archive rows that all name `id`. Ids and references
      stay valid and the counts of every other game are untouched, so the
      tables stay consistent as long as the patched game is well formed and
      its winner and counts agree. */
  lemma PatchKeepsConsistent(t: Tables, nextId: nat, id: GameId, g: Game,
                             added: seq<GameEvent>, archived: seq<HistoryRecord>)
    requires Consistent(t, nextId) && id in t.games
    requires forall i :: 0 <= i < |added| ==> added[i].gameId == id
    requires forall i :: 0 <= i < |archived| ==> archived[i].gameId == id
    requires GameWellFormed(g)
    requires EndsFor(added, id) == RecordsFor(archived, id)
    requires g.winner.Some? <==> RecordsFor(t.history, id) + RecordsFor(archived, id) > 0
    ensures Consistent(Tables(t.games[id := g], t.events + added, t.history + archived), nextId)
  {
    var t' := Tables(t.games[id := g], t.events + added, t.history + archived);
    assert EventsNameGames(t') by {
      forall i | 0 <= i < |t'.events| ensures t'.events[i].gameId in t'.games {
        if i >= |t.events| {
          assert t'.events[i] == added[i - |t.events|];
        }
      }
    }
    assert RecordsNameGames(t') by {
      forall i | 0 <= i < |t'.history| ensures t'.history[i].gameId in t'.games {
        if i >= |t.history| {
          assert t'.history[i] == archived[i - |t.history|];
        }
      }
    }
    forall k | k in t'.games
      ensures EndsFor(t'.events, k) == RecordsFor(t'.history, k)
      ensures t'.games[k].winner.Some? <==> RecordsFor(t'.history, k) > 0
    {
      EndsForAppend(t.events, added, k);
      RecordsForAppend(t.history, archived, k);
      if k != id {
        EndsInAbsent(added, k, |added|);
        RecordsInAbsent(archived, k, |archived|);
      }
    }
  }

  lemma StartKeepsConsistent(t: Tables, nextId: nat, id: GameId, now: int)
    requires Consistent(t, nextId)
    ensures Consistent(Start(t, id, now).after, nextId)
  {
    if id in t.games {
      var e := StartEvent(id, now);
      EndsForOne(e, id);
      PatchKeepsConsistent(t, nextId, id, t.games[id].(status := Playing, startTime := Some(now)), [e], []);
      assert t.history + [] == t.history;
    }
  }

  lemma RollKeepsConsistent(t: Tables, nextId: nat, id: GameId, diceValue: int, now: int)
    requires Consistent(t, nextId)
    ensures Consistent(Roll(t, id, diceValue, now).after, nextId)
  {
    if Playable(t, id) {
      var e := DiceEvent(id, t.games[id], diceValue, now);
      EndsForOne(e, id);
      PatchKeepsConsistent(t, nextId, id, t.games[id].(lastDiceRoll := Some(diceValue)), [e], []);
      assert t.history + [] == t.history;
    }
  }

  /** A move logs a game_end exactly when it wins. */
  lemma MoveEventsEnds(id: GameId, g: Game, newPosition: int, moveType: MoveType, now: int)
    ensures EndsFor(MoveEvents(id, g, newPosition, moveType, now), id)
            == if newPosition >= WinningPosition then 1 else 0
  {
    var added := MoveEvents(id, g, newPosition, moveType, now);
    var m := MoveEvent(id, g, newPosition, moveType, now);
    EndsForOne(m, id);
    if newPosition >= WinningPosition {
      var e := EndEvent(id, g, newPosition, now);
      assert added == [e] + [m];
      EndsForAppend([e], [m], id);
      EndsForOne(e, id);
    } else {
      assert added == [m];
    }
  }

  lemma MoveKeepsConsistent(t: Tables, nextId: nat, id: GameId, newPosition: int,
                            moveType: Option<MoveType>, now: int)
    requires Consistent(t, nextId)
    ensures Consistent(MoveStep(t, id, newPosition, moveType, now).after, nextId)
  {
    if Playable(t, id) {
      var g := t.games[id];
      var mt := moveType.GetOr(Normal);
      var archived := if newPosition >= WinningPosition then [WinRecord(id, g, now)] else [];
      MoveEventsEnds(id, g, newPosition, mt, now);
      if newPosition >= WinningPosition {
        RecordsForOne(WinRecord(id, g, now), id);
      }
      MovedGameKeepsOtherFields(g, newPosition, mt, now);
      PatchKeepsConsistent(t, nextId, id, MovedGame(g, newPosition, mt, now),
                           MoveEvents(id, g, newPosition, mt, now), archived);
    }
  }
}
