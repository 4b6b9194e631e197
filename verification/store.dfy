/** The backend store and its four mutations. The games table is a map that
    the mutations patch; gameEvents and gameHistory are sequences they append
    to. Each mutation is proved to do what the matching function of Engine
    says and to keep Engine.Consistent. */
module Store {
  import opened Schema
  import opened Engine

  class GameStore {
    var games: map<GameId, Game>
    var events: seq<GameEvent>
    var history: seq<HistoryRecord>
    /** The id the next inserted game receives. */
    var nextId: nat

    function Snapshot(): Tables
      reads this
    {
      Tables(games, events, history)
    }

    predicate Valid()
      reads this
    {
      Consistent(Snapshot(), nextId)
    }

    constructor ()
      ensures Valid()
      ensures Snapshot() == Tables(map[], [], [])
    {
      games, events, history, nextId := map[], [], [], 0;
    }

    /** createGame: inserts a fresh game in setup state. */
    method CreateGame(player1Name: string, player1Color: string,
                      player2Name: string, player2Color: string) returns (id: GameId)
      requires Valid()
      modifies this
      ensures Valid()
      ensures id !in old(games) && id in games
      ensures Snapshot() == Create(old(Snapshot()), id, player1Name, player1Color, player2Name, player2Color)
      ensures games[id].status == Setup && games[id].currentPlayer == One
    {
      CreateKeepsConsistent(Snapshot(), nextId, player1Name, player1Color, player2Name, player2Color);
      id := nextId;
      games := games[id := NewGame(player1Name, player1Color, player2Name, player2Color)];
      nextId := nextId + 1;
    }

    /** startGame: patches status and startTime, then logs game_start. */
    method StartGame(id: GameId, now: int) returns (outcome: Outcome)
      requires Valid()
      modifies this
      ensures Valid() && nextId == old(nextId)
      ensures outcome == Start(old(Snapshot()), id, now).outcome
      ensures Snapshot() == Start(old(Snapshot()), id, now).after
    {
      StartKeepsConsistent(Snapshot(), nextId, id, now);
      if id !in games {
        return Failed(GameNotFound);
      }
      var game := games[id];
      var startTime := now;
      games := games[id := game.(status := Playing, startTime := Some(startTime))];
      events := events + [GameEvent(id, GameStart, One, StartData(startTime), startTime)];
      outcome := Done;
    }

    /** rollDice: patches lastDiceRoll, then logs dice_roll. */
    method RollDice(id: GameId, diceValue: int, now: int) returns (outcome: Outcome)
      requires Valid()
      modifies this
      ensures Valid() && nextId == old(nextId)
      ensures outcome == Roll(old(Snapshot()), id, diceValue, now).outcome
      ensures Snapshot() == Roll(old(Snapshot()), id, diceValue, now).after
    {
      RollKeepsConsistent(Snapshot(), nextId, id, diceValue, now);
      if id !in games || games[id].status != Playing {
        return Failed(NotPlaying);
      }
      var game := games[id];
      games := games[id := game.(lastDiceRoll := Some(diceValue))];
      events := events + [GameEvent(id, DiceRoll, game.currentPlayer, DiceData(diceValue), now)];
      outcome := Done;
    }

    /** movePlayer: builds the patch field by field; on a win it writes the
        archive row and the game_end event first; then it patches the game and
        logs the move-class event. */
    method MovePlayer(id: GameId, newPosition: int, moveType: Option<MoveType>, now: int)
      returns (outcome: Outcome)
      requires Valid()
      modifies this
      ensures outcome == MoveStep(old(Snapshot()), id, newPosition, moveType, now).outcome
      ensures nextId == old(nextId)
      ensures Snapshot() == MoveStep(old(Snapshot()), id, newPosition, moveType, now).after
      ensures Valid()
    {
      ghost var before := Snapshot();
      if id !in games || games[id].status != Playing {
        MoveKeepsConsistent(before, nextId, id, newPosition, moveType, now);
        return Failed(NotPlaying);
      }
      var game := games[id];
      var currentPlayer := game.currentPlayer;
      var kind := moveType.GetOr(Normal);

      var update := game.(lastMoveType := Some(kind),
                          currentPlayer := if currentPlayer == One then Two else One);
      if currentPlayer == One {
        update := update.(player1Position := newPosition);
      } else {
        update := update.(player2Position := newPosition);
      }

      if newPosition >= WinningPosition {
        var duration := now - (if game.startTime.Some? && game.startTime.value != 0
                               then game.startTime.value else now);
        update := update.(status := Finished, winner := Some(currentPlayer),
                          endTime := Some(now), duration := Some(duration));
        history := history + [HistoryRecord(id, game.player1Name, game.player1Color,
                                            game.player2Name, game.player2Color,
                                            currentPlayer, duration, now)];
        events := events + [GameEvent(id, GameEnd, currentPlayer, EndData(currentPlayer, newPosition), now)];
      }

      assert update == MovedGame(game, newPosition, kind, now);
      games := games[id := update];

      events := events + [GameEvent(id, MoveEventType(kind), currentPlayer, MoveData(newPosition, kind), now)];
      assert events == old(events) + MoveEvents(id, game, newPosition, kind, now);
      outcome := Done;
      MoveKeepsConsistent(before, nextId, id, newPosition, moveType, now);
    }
  }
}
