/** The HTTP command endpoint POST /game/update, meant for a microcontroller
    (the web client only displays its path): a switch on the body's type that
    runs at most one mutation, and the mapping of its outcome to status 200,
    400 or 500. */
module Router {
  import opened Schema
  import opened Engine
  import opened Store

  /** The decoded JSON body. A field the client did not send is None; a
      field sent with the wrong JSON type (a string diceValue, a null
      moveType) is not represented, see the README. */
  datatype Body = Body(
    kind: string,
    gameId: Option<GameId>,
    diceValue: Option<int>,
    newPosition: Option<int>,
    moveType: Option<string>)

  /** The arguments the handler passes to a mutation, before the mutation's
      argument validators have looked at them. */
  datatype Call =
    | RollDiceCall(gameId: Option<GameId>, diceValue: Option<int>)
    | MovePlayerCall(gameId: Option<GameId>, newPosition: Option<int>, moveType: Option<string>)

  datatype Dispatch = Invoke(call: Call) | UnknownType

  const UnknownUpdateType: string := "Unknown update type"

  /** Stands for the message of the error the mutation's argument validators
      throw when a required field is missing or a literal does not match. */
  const ArgumentValidationError: string := "ArgumentValidationError"

  /** The switch on body.type. Each case forwards exactly its own fields. */
  function Route(body: Body): (d: Dispatch)
    ensures body.kind == "dice_roll" <==> d == Invoke(RollDiceCall(body.gameId, body.diceValue))
    ensures body.kind == "player_move" <==>
              d == Invoke(MovePlayerCall(body.gameId, body.newPosition, body.moveType))
    ensures d == UnknownType <==> body.kind != "dice_roll" && body.kind != "player_move"
  {
    match body.kind
    case "dice_roll" => Invoke(RollDiceCall(body.gameId, body.diceValue))
    case "player_move" => Invoke(MovePlayerCall(body.gameId, body.newPosition, body.moveType))
    case _ => UnknownType
  }

  /** The literal union accepted for moveType. */
  function ParseMoveType(s: string): (r: Option<MoveType>)
    ensures r == Some(Normal) <==> s == "normal"
    ensures r == Some(SnakeMove) <==> s == "snake"
    ensures r == Some(LadderMove) <==> s == "ladder"
  {
    if s == "normal" then Some(Normal)
    else if s == "snake" then Some(SnakeMove)
    else if s == "ladder" then Some(LadderMove)
    else None
  }

  /** A mutation call whose arguments passed validation. */
  datatype Mutation =
    | RollDiceArgs(gameId: GameId, diceValue: int)
    | MovePlayerArgs(gameId: GameId, newPosition: int, moveType: Option<MoveType>)

  /** The mutations' argument validators: gameId and the number are required;
      moveType may be absent but, when present, must be one of the literals. */
  function ValidateArgs(call: Call): (r: Option<Mutation>)
    ensures call.RollDiceCall? ==>
              (r.Some? <==> call.gameId.Some? && call.diceValue.Some?)
              && (r.Some? ==> r.value == RollDiceArgs(call.gameId.value, call.diceValue.value))
    ensures call.MovePlayerCall? ==>
              (r.Some? <==> call.gameId.Some? && call.newPosition.Some?
                            && (call.moveType.Some? ==> ParseMoveType(call.moveType.value).Some?))
              && (r.Some? ==> r.value.MovePlayerArgs? && r.value.gameId == call.gameId.value
                              && r.value.newPosition == call.newPosition.value
                              && r.value.moveType == (if call.moveType.None? then None
                                                      else ParseMoveType(call.moveType.value)))
  {
    match call
    case RollDiceCall(id, dice) =>
      if id.Some? && dice.Some? then Some(RollDiceArgs(id.value, dice.value)) else None
    case MovePlayerCall(id, position, kind) =>
      if id.None? || position.None? then None
      else if kind.None? then Some(MovePlayerArgs(id.value, position.value, None))
      else
        var parsed := ParseMoveType(kind.value);
        if parsed.None? then None else Some(MovePlayerArgs(id.value, position.value, parsed))
  }

  datatype ResponseBody = SuccessBody | ErrorBody(error: string)
  datatype Response = Response(status: int, body: ResponseBody)

  /** A mutation that returned gives 200 {success: true}; one that threw
      gives 500 with the error's message. */
  function Respond(outcome: Outcome): (r: Response)
    ensures r.status == 200 <==> outcome.Done?
    ensures r.status == 200 ==> r.body == SuccessBody
    ensures outcome.Failed? ==> r.status == 500 && r.body == ErrorBody(outcome.message)
  {
    match outcome
    case Done => Response(200, SuccessBody)
    case Failed(message) => Response(500, ErrorBody(message))
  }

  datatype Reply = Reply(response: Response, after: Tables)

  /** The whole handler on a snapshot of the tables. */
  function Handle(t: Tables, body: Body, now: int): (r: Reply)
    ensures r.response.status == 200 || r.response.status == 400 || r.response.status == 500
    ensures r.response.status == 400 <==> Route(body) == UnknownType
    ensures r.response.status == 400 ==> r.response.body == ErrorBody(UnknownUpdateType)
    ensures r.response.status != 200 ==> r.after == t
    ensures r.response.status == 200 ==> r.response.body == SuccessBody
    ensures Route(body).Invoke? && ValidateArgs(Route(body).call).None? ==>
              r == Reply(Response(500, ErrorBody(ArgumentValidationError)), t)
    ensures r.response.status == 200 ==>
              Route(body).Invoke? && ValidateArgs(Route(body).call).Some?
  {
    match Route(body)
    case UnknownType => Reply(Response(400, ErrorBody(UnknownUpdateType)), t)
    case Invoke(call) =>
      match ValidateArgs(call)
      case None => Reply(Response(500, ErrorBody(ArgumentValidationError)), t)
      case Some(RollDiceArgs(id, dice)) =>
        var s := Roll(t, id, dice, now);
        Reply(Respond(s.outcome), s.after)
      case Some(MovePlayerArgs(id, position, kind)) =>
        var s := MoveStep(t, id, position, kind, now);
        Reply(Respond(s.outcome), s.after)
  }

  /** A dice_roll command runs rollDice on exactly its gameId and diceValue,
      and nothing else; a player_move runs movePlayer on its gameId,
      newPosition and moveType. */
  lemma HandleRunsOneMutation(t: Tables, body: Body, now: int)
    requires body.gameId.Some?
    ensures body.kind == "dice_roll" && body.diceValue.Some? ==>
              var s := Roll(t, body.gameId.value, body.diceValue.value, now);
              Handle(t, body, now) == Reply(Respond(s.outcome), s.after)
    ensures body.kind == "player_move" && body.newPosition.Some? && body.moveType.None? ==>
              var s := MoveStep(t, body.gameId.value, body.newPosition.value, None, now);
              Handle(t, body, now) == Reply(Respond(s.outcome), s.after)
    ensures body.kind == "player_move" && body.newPosition.Some? && body.moveType.Some?
            && ParseMoveType(body.moveType.value).Some? ==>
              var s := MoveStep(t, body.gameId.value, body.newPosition.value,
                                ParseMoveType(body.moveType.value), now);
              Handle(t, body, now) == Reply(Respond(s.outcome), s.after)
  {
  }

  /** The status does not tell a missing game from a game in the wrong
      state: for a well-formed dice_roll or player_move both answer 500 with
      the same message. */
  lemma MissingAndNotPlayingLookAlike(t: Tables, missing: GameId, idle: GameId, body: Body, now: int)
    requires missing !in t.games
    requires idle in t.games && t.games[idle].status != Playing
    requires || (body.kind == "dice_roll" && body.diceValue.Some?)
             || (body.kind == "player_move" && body.newPosition.Some?
                 && (body.moveType.Some? ==> ParseMoveType(body.moveType.value).Some?))
    ensures Handle(t, body.(gameId := Some(missing)), now).response
            == Handle(t, body.(gameId := Some(idle)), now).response
            == Response(500, ErrorBody(NotPlaying))
  {
  }

  /** The route handler itself: dispatches on the body and runs the chosen
      mutation on the store. */
  method HandleUpdate(store: GameStore, body: Body, now: int) returns (response: Response)
    requires store.Valid()
    modifies store
    ensures store.Valid() && store.nextId == old(store.nextId)
    ensures Reply(response, store.Snapshot()) == Handle(old(store.Snapshot()), body, now)
  {
    var outcome: Outcome;
    match Route(body) {
      case UnknownType =>
        return Response(400, ErrorBody(UnknownUpdateType));
      case Invoke(call) =>
        var args := ValidateArgs(call);
        if args.None? {
          return Response(500, ErrorBody(ArgumentValidationError));
        }
        match args.value {
          case RollDiceArgs(id, dice) =>
            outcome := store.RollDice(id, dice, now);
          case MovePlayerArgs(id, position, kind) =>
            outcome := store.MovePlayer(id, position, kind, now);
        }
    }
    response := Respond(outcome);
  }
}
