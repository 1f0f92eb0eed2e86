/**
 * The front end's board state: the reducer that every dispatched action
 * goes through, the commands the user's actions send to the server, and
 * the routing of server messages (game starts directly, updates through
 * the throttle). States are JavaScript objects; object spread is map
 * union, the right operand winning.
 */
module BoardState {
  import opened Wrappers
  import opened Text
  import opened JsValue

  /** The state before any game: not connected, empty history and notes, game 0. */
  const InitialState: Object := map[
    "isConnected" := Bool(false),
    "connectionMessage" := Str(""),
    "history" := Arr([]),
    "notes" := Obj(map[]),
    "gameId" := Num(0)]

  /** A dispatched action: its `type`, `payload` and `errorMessage` properties. */
  datatype Action = Action(kind: string, payload: Value, errorMessage: Value)

  /** The fields an update carries for the history entry rather than for the state. */
  const HintKeys: set<string> := {"hintPlayer", "hintValue", "hintType", "hintIdx"}

  /** The object `o` without the keys in `ks`. */
  function Without(o: Object, ks: set<string>): (r: Object)
    ensures r.Keys == o.Keys - ks
    ensures forall k :: k in r ==> r[k] == o[k]
  {
    map k | k in o && k !in ks :: o[k]
  }

  /** `{player, value, type, idx}` read from the update's hint fields. */
  function HintEntry(payload: Object): Value {
    Obj(map[
      "player" := Get(payload, "hintPlayer"),
      "value" := Get(payload, "hintValue"),
      "type" := Get(payload, "hintType"),
      "idx" := Get(payload, "hintIdx")])
  }

  /** `{...a, ...b}`. */
  function Merge(a: Object, b: Object): (r: Object)
    ensures r.Keys == a.Keys + b.Keys
    ensures forall k :: k in r ==> r[k] == (if k in b then b[k] else a[k])
  {
    a + b
  }

  /** The action types the reducer distinguishes. */
  datatype Kind =
    | PlayAgainKind | ActionSentKind | StartKind | InitKind | ServerErrorKind
    | UpdateKind | MoveKind | UpdateNoteKind | OtherKind

  /** The `switch (action.type)` cases. */
  function KindOf(kind: string): (k: Kind)
    ensures k == OtherKind <==> !KnownKind(kind)
  {
    if kind == "PLAY_AGAIN" then PlayAgainKind
    else if kind == "ACTION_SENT" then ActionSentKind
    else if kind == "START" then StartKind
    else if kind == "INIT" then InitKind
    else if kind == "SERVER_ERROR" then ServerErrorKind
    else if kind == "UPDATE" then UpdateKind
    else if kind == "MOVE" then MoveKind
    else if kind == "UPDATE_NOTE" then UpdateNoteKind
    else OtherKind
  }

  /**
   * reducerFn. A thrown TypeError is the Err result: reading the payload
   * of an action that has none, or spreading a history that is not
   * iterable.
   */
  function Reduce(state: Object, action: Action): (r: Result<Object, JsError>)
    ensures KindOf(action.kind) == PlayAgainKind ==> r == Ok(InitialState)
    ensures KindOf(action.kind) in {StartKind, OtherKind} ==> r == Ok(state)
  {
    match KindOf(action.kind)
    case PlayAgainKind => Ok(InitialState)
    case ActionSentKind => Ok(state["isPlayerTurn" := Bool(false)])
    case StartKind => Ok(state)
    case InitKind =>
      (match Index(action.payload, Str("colors"))
       case Err(e) => Err(e)
       case Ok(colors) =>
         Ok(map[
           "history" := Arr([]),
           "notes" := Obj(map[]),
           "gameId" := PlusOne(Get(state, "gameId")),
           "colors" := colors]))
    case ServerErrorKind =>
      Ok(map[
        "connected" := Bool(false),
        "message" := if Truthy(action.errorMessage) then action.errorMessage else Str("An error occured.")])
    case UpdateKind => ReduceUpdateAction(state, action.payload)
    case MoveKind =>
      (match SpreadArray(Get(state, "history"))
       case Err(e) => Err(e)
       case Ok(history) => Ok(state["history" := Arr(history + [action.payload])]))
    case UpdateNoteKind =>
      (match Index(action.payload, Str("cardId"))
       case Err(e) => Err(e)
       case Ok(cardId) =>
         var noteText := Index(action.payload, Str("noteText")).value;
         Ok(state["notes" := Obj(SpreadObject(Get(state, "notes"))[ToStr(cardId) := noteText])]))
    case OtherKind => Ok(state)
  }

  /** The action types the reducer names, classified. */
  lemma KindsOfLiterals()
    ensures KindOf("PLAY_AGAIN") == PlayAgainKind && KindOf("ACTION_SENT") == ActionSentKind
    ensures KindOf("START") == StartKind && KindOf("INIT") == InitKind
    ensures KindOf("SERVER_ERROR") == ServerErrorKind && KindOf("UPDATE") == UpdateKind
    ensures KindOf("MOVE") == MoveKind && KindOf("UPDATE_NOTE") == UpdateNoteKind
  {
  }

  /** The UPDATE case of reducerFn: reading the payload of a missing one throws. */
  function ReduceUpdateAction(state: Object, payloadValue: Value): Result<Object, JsError> {
    if payloadValue.Undefined? || payloadValue.Null? then Err(TypeError)
    else
      var payload := SpreadObject(payloadValue);
      match SpreadArray(Get(state, "history"))
      case Err(e) => Err(e)
      case Ok(history) =>
        Ok(Merge(Merge(state, Without(payload, HintKeys)),
                 map["isConnected" := Bool(true), "history" := Arr(history + [HintEntry(payload)])]))
  }

  predicate KnownKind(kind: string) {
    kind in {"PLAY_AGAIN", "ACTION_SENT", "START", "INIT", "SERVER_ERROR", "UPDATE", "MOVE", "UPDATE_NOTE"}
  }

  /** Unknown action types and START leave the state as it is. */
  lemma ReduceIgnores(state: Object, action: Action)
    requires KindOf(action.kind) in {StartKind, OtherKind}
    ensures Reduce(state, action) == Ok(state)
  {
  }

  /** ACTION_SENT marks that it is no longer the player's turn and changes nothing else. */
  lemma ReduceActionSent(state: Object, payload: Value, err: Value)
    ensures var r := Reduce(state, Action("ACTION_SENT", payload, err));
      r.Ok? && r.value.Keys == state.Keys + {"isPlayerTurn"}
      && r.value["isPlayerTurn"] == Bool(false)
      && forall k :: k in state && k != "isPlayerTurn" ==> r.value[k] == state[k]
  {
  }

  /**
   * INIT starts a new game: the state is replaced by exactly an empty
   * history, no notes, the next game id and the payload's colours; every
   * other field, `isConnected` included, is dropped.
   */
  lemma ReduceInit(state: Object, payload: Object, err: Value)
    ensures var r := Reduce(state, Action("INIT", Obj(payload), err));
      r.Ok? && r.value.Keys == {"history", "notes", "gameId", "colors"}
      && r.value["history"] == Arr([]) && r.value["notes"] == Obj(map[])
      && r.value["colors"] == Get(payload, "colors")
      && (Get(state, "gameId").Num? ==> r.value["gameId"] == Num(Get(state, "gameId").n + 1))
      && ("gameId" !in state ==> r.value["gameId"] == NaN)
  {
  }

  /** INIT without a payload throws. */
  lemma ReduceInitNeedsPayload(state: Object, err: Value)
    ensures Reduce(state, Action("INIT", Undefined, err)).Err?
  {
  }

  /**
   * SERVER_ERROR replaces the whole state by `connected: false` and the
   * message, "An error occured." when the action's message is falsy. The
   * keys are `connected` and `message`, not `isConnected` and
   * `connectionMessage`.
   */
  lemma ReduceServerError(state: Object, payload: Value, err: Value)
    ensures var r := Reduce(state, Action("SERVER_ERROR", payload, err));
      r.Ok? && r.value.Keys == {"connected", "message"}
      && r.value["connected"] == Bool(false)
      && (Truthy(err) ==> r.value["message"] == err)
      && (!Truthy(err) ==> r.value["message"] == Str("An error occured."))
  {
  }

  /**
   * UPDATE merges every payload field but the four hint fields into the
   * state, sets `isConnected`, and appends exactly one history entry built
   * from the hint fields.
   */
  lemma ReduceUpdate(state: Object, payload: Object, err: Value, history: seq<Value>)
    requires Get(state, "history") == Arr(history)
    ensures var r := Reduce(state, Action("UPDATE", Obj(payload), err));
      r.Ok?
      && r.value.Keys == state.Keys + (payload.Keys - HintKeys) + {"isConnected", "history"}
      && r.value["isConnected"] == Bool(true)
      && r.value["history"] == Arr(history + [HintEntry(payload)])
      && (forall k :: k in r.value && k !in {"isConnected", "history"} ==>
            r.value[k] == (if k in payload && k !in HintKeys then payload[k] else state[k]))
  {
    ReduceUpdateUnfolds(state, payload, err, history);
    UpdateMerge(state, payload, Arr(history + [HintEntry(payload)]));
  }

  /** reducerFn hands an UPDATE action to its UPDATE case. */
  lemma ReduceDispatchesUpdate(state: Object, payload: Value, err: Value)
    ensures Reduce(state, Action("UPDATE", payload, err)) == ReduceUpdateAction(state, payload)
  {
    KindsOfLiterals();
  }

  lemma ReduceUpdateUnfolds(state: Object, payload: Object, err: Value, history: seq<Value>)
    requires Get(state, "history") == Arr(history)
    ensures Reduce(state, Action("UPDATE", Obj(payload), err))
            == Ok(Merge(Merge(state, Without(payload, HintKeys)),
                        map["isConnected" := Bool(true), "history" := Arr(history + [HintEntry(payload)])]))
  {
    ReduceDispatchesUpdate(state, Obj(payload), err);
  }

  /** The object UPDATE builds: the state, the payload without its hint fields, then the two fixed fields. */
  lemma UpdateMerge(state: Object, payload: Object, entry: Value)
    ensures var r := Merge(Merge(state, Without(payload, HintKeys)), map["isConnected" := Bool(true), "history" := entry]);
      && r.Keys == state.Keys + (payload.Keys - HintKeys) + {"isConnected", "history"}
      && r["isConnected"] == Bool(true)
      && r["history"] == entry
      && (forall k :: k in r && k !in {"isConnected", "history"} ==>
            r[k] == (if k in payload && k !in HintKeys then payload[k] else state[k]))
  {
  }

  /** After SERVER_ERROR the state has no history, so a further UPDATE or MOVE throws. */
  lemma UpdateAfterServerErrorThrows(state: Object, msg: Value, payload: Object, err: Value)
    ensures var r := Reduce(state, Action("SERVER_ERROR", Undefined, msg));
      r.Ok?
      && Reduce(r.value, Action("UPDATE", Obj(payload), err)).Err?
      && Reduce(r.value, Action("MOVE", Obj(payload), err)).Err?
  {
    KindsOfLiterals();
  }

  /** MOVE appends exactly its payload to the history and changes nothing else. */
  lemma ReduceMove(state: Object, move: Value, err: Value, history: seq<Value>)
    requires Get(state, "history") == Arr(history)
    ensures var r := Reduce(state, Action("MOVE", move, err));
      r.Ok? && r.value.Keys == state.Keys
      && r.value["history"] == Arr(history + [move])
      && forall k :: k in state && k != "history" ==> r.value[k] == state[k]
  {
  }

  /** UPDATE_NOTE changes only the note of its card. */
  lemma ReduceUpdateNote(state: Object, notes: map<string, Value>, cardId: Value, text: Value, err: Value)
    requires Get(state, "notes") == Obj(notes)
    ensures var r := Reduce(state, Action("UPDATE_NOTE", Obj(map["cardId" := cardId, "noteText" := text]), err));
      r.Ok? && r.value.Keys == state.Keys
      && (forall k :: k in state && k != "notes" ==> r.value[k] == state[k])
      && r.value["notes"] == Obj(notes[ToStr(cardId) := text])
  {
  }

  /** Dispatching a run of actions, stopping at the first that throws. */
  function Run(state: Object, actions: seq<Action>): Result<Object, JsError>
    decreases |actions|
  {
    if |actions| == 0 then Ok(state)
    else
      match Run(state, actions[..|actions| - 1])
      case Err(e) => Err(e)
      case Ok(s) => Reduce(s, actions[|actions| - 1])
  }

  /** Actions that keep the current game's history: no INIT, PLAY_AGAIN or SERVER_ERROR. */
  predicate KeepsHistory(a: Action) {
    KindOf(a.kind) !in {InitKind, PlayAgainKind, ServerErrorKind}
  }

  /** The entries one action adds to the history: the hint entry of an UPDATE, the payload of a MOVE. */
  function Added(a: Action): seq<Value> {
    match KindOf(a.kind)
    case UpdateKind => [HintEntry(SpreadObject(a.payload))]
    case MoveKind => [a.payload]
    case _ => []
  }

  lemma AddedLength(a: Action)
    ensures |Added(a)| == (if KindOf(a.kind) in {UpdateKind, MoveKind} then 1 else 0)
  {
  }

  /** One action that keeps the history appends to it one entry for UPDATE and MOVE, none otherwise. */
  lemma HistoryStep(s: Object, a: Action, history: seq<Value>)
    requires Get(s, "history") == Arr(history) && KeepsHistory(a)
    ensures var r := Reduce(s, a);
      r.Ok? ==> Get(r.value, "history") == Arr(history + Added(a))
  {
    var r := Reduce(s, a);
    var k := KindOf(a.kind);
    if r.Ok? {
      if k == UpdateKind || k == MoveKind {
      } else {
        assert history + [] == history;
      }
    }
  }

  /** The entries a run adds, action by action. */
  function AddedAll(actions: seq<Action>): seq<Value>
    decreases |actions|
  {
    if |actions| == 0 then [] else AddedAll(actions[..|actions| - 1]) + Added(actions[|actions| - 1])
  }

  /** The number of UPDATE and MOVE actions in a run. */
  function Entries(actions: seq<Action>): nat
    decreases |actions|
  {
    if |actions| == 0 then 0
    else Entries(actions[..|actions| - 1]) + (if KindOf(actions[|actions| - 1].kind) in {UpdateKind, MoveKind} then 1 else 0)
  }

  /**
   * Within a game the history only grows: a run of actions that keep the
   * history keeps the old entries as a prefix and appends, in order, the
   * hint entry of each UPDATE and the payload of each MOVE.
   */
  lemma {:induction false} HistoryOnlyGrows(state: Object, actions: seq<Action>, history: seq<Value>)
    requires Get(state, "history") == Arr(history)
    requires forall i :: 0 <= i < |actions| ==> KeepsHistory(actions[i])
    ensures var r := Run(state, actions);
      r.Ok? ==> Get(r.value, "history") == Arr(history + AddedAll(actions))
    ensures |AddedAll(actions)| == Entries(actions)
    decreases |actions|
  {
    if |actions| > 0 {
      var init := actions[..|actions| - 1];
      HistoryOnlyGrows(state, init, history);
      var a := actions[|actions| - 1];
      assert KeepsHistory(a);
      AddedLength(a);
      var prev := Run(state, init);
      if prev.Ok? {
        HistoryStep(prev.value, a, history + AddedAll(init));
        assert history + AddedAll(init) + Added(a) == history + AddedAll(actions);
      }
    }
  }

  // ---------------------------------------------------------------------
  // The user's actions
  // ---------------------------------------------------------------------

  /** The functions of `actions`. */
  datatype UserAction =
    | Place(idx: Value)
    | Discard(idx: Value)
    | HintColor(idx: Value, player: Value)
    | HintNumber(idx: Value, player: Value)
    | UpdateNoteOf(cardId: Value, noteText: Value)
    | PlayAgain(seed: Value, botName: string)

  /** What an action dispatches to the reducer before sending. */
  function Dispatched(u: UserAction): (acts: seq<Action>)
    ensures |acts| == 1 <==> !u.PlayAgain?
    ensures u.Place? || u.Discard? || u.HintColor? || u.HintNumber? ==> acts == [Action("ACTION_SENT", Undefined, Undefined)]
  {
    match u
    case UpdateNoteOf(cardId, noteText) =>
      [Action("UPDATE_NOTE", Obj(map["cardId" := cardId, "noteText" := noteText]), Undefined)]
    case PlayAgain(_, _) => []
    case _ => [Action("ACTION_SENT", Undefined, Undefined)]
  }

  /**
   * The message an action sends on the socket. playAgain sends the seed
   * when it is truthy and "-" otherwise, and writes the bot's name with its
   * first space replaced by "-".
   */
  function Sent(u: UserAction): (msg: Option<string>)
    ensures msg.None? <==> u.UpdateNoteOf?
  {
    match u
    case Place(idx) => Some("PLACE " + ToStr(idx))
    case Discard(idx) => Some("DISCARD " + ToStr(idx))
    case HintColor(idx, player) => Some("HINT_COLOR " + ToStr(idx) + " " + ToStr(player))
    case HintNumber(idx, player) => Some("HINT_VALUE " + ToStr(idx) + " " + ToStr(player))
    case UpdateNoteOf(_, _) => None
    case PlayAgain(seed, botName) =>
      var name := ReplaceFirst(botName, ' ', '-');
      if Truthy(seed) then Some("REPLAY " + ToStr(seed) + " " + name) else Some("REPLAY - " + name)
  }

  // ---------------------------------------------------------------------
  // Server messages
  // ---------------------------------------------------------------------

  /** Where a parsed server message goes: straight to the reducer, or through the throttle. */
  datatype Routed = Direct(action: Action) | Throttled(action: Action)

  /** onmessage: a message whose `type` is "INIT" is dispatched directly, every other one is throttled as an UPDATE. */
  function Route(data: Object): (r: Routed)
    ensures r.Direct? <==> Get(data, "type") == Str("INIT")
    ensures r.action.payload == Obj(data)
    ensures r.action.kind == (if r.Direct? then "INIT" else "UPDATE")
  {
    if Get(data, "type") == Str("INIT") then Direct(Action("INIT", Obj(data), Undefined))
    else Throttled(Action("UPDATE", Obj(data), Undefined))
  }
}
