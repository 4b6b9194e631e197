/** The three application tables of the game backend (games, gameHistory,
    gameEvents) and the enumerations they use, as Dafny values.
    Positions, dice values, timestamps and durations are JavaScript numbers in
    the source; here they are unbounded integers. */
module Schema {

  datatype Option<+T> = None | Some(value: T) {
    function GetOr(default: T): T {
      match this
      case Some(v) => v
      case None => default
    }
  }

  /** Identifier of a row of the games table. */
  type GameId = nat

  /** The literal union 1 | 2 used for currentPlayer, winner and an event's player. */
  datatype Player = One | Two {
    function Number(): (n: int)
      ensures n == 1 || n == 2
      ensures n == 1 <==> this == One
    {
      if this == One then 1 else 2
    }

    /** The player whose turn comes next. */
    function Other(): (p: Player)
      ensures p != this
      ensures p.Number() + this.Number() == 3
    {
      if this == One then Two else One
    }
  }

  datatype GameStatus = Setup | Playing | Finished

  datatype MoveType = Normal | SnakeMove | LadderMove

  datatype EventType = DiceRoll | Move | SnakeEncounter | LadderEncounter | GameStart | GameEnd

  /** The free-form `data` payload of an event, one shape per writer. */
  datatype EventData =
    | StartData(startTime: int)
    | DiceData(diceValue: int)
    | EndData(winner: Player, position: int)
    | MoveData(newPosition: int, moveType: MoveType)

  datatype Snake = Snake(head: int, tail: int)
  datatype Ladder = Ladder(bottom: int, top: int)
  datatype Topology = Topology(snakes: seq<Snake>, ladders: seq<Ladder>)

  /** A row of the games table. */
  datatype Game = Game(
    player1Name: string,
    player1Color: string,
    player1Position: int,
    player2Name: string,
    player2Color: string,
    player2Position: int,
    currentPlayer: Player,
    status: GameStatus,
    winner: Option<Player>,
    startTime: Option<int>,
    endTime: Option<int>,
    duration: Option<int>,
    lastDiceRoll: Option<int>,
    lastMoveType: Option<MoveType>,
    snakesAndLadders: Topology)
  {
    function PositionOf(p: Player): int {
      if p == One then player1Position else player2Position
    }

    function NameOf(p: Player): string {
      if p == One then player1Name else player2Name
    }

    function ColorOf(p: Player): string {
      if p == One then player1Color else player2Color
    }
  }

  /** A row of the gameHistory table: written once when a game is won. */
  datatype HistoryRecord = HistoryRecord(
    gameId: GameId,
    player1Name: string,
    player1Color: string,
    player2Name: string,
    player2Color: string,
    winner: Player,
    duration: int,
    completedAt: int)

  /** A row of the gameEvents table. */
  datatype GameEvent = GameEvent(
    gameId: GameId,
    eventType: EventType,
    player: Player,
    data: EventData,
    timestamp: int)
}
