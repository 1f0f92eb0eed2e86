/**
 * The mock server the search bots hand to a bot to learn what it would do:
 * in mock mode every please* call only records the move it asks for, and
 * simulatePlayerMove returns that move. execute_ is the way back, turning a
 * recorded move into the call on a real server.
 */
module BotSimulation {
  import opened Wrappers
  import opened Hanabi
  import opened HanabiServer
  import opened BotUtils
  import SeqUtil

  /** The move a bot's call asks for, as the mock please* methods record it; None when the bot made no call. */
  function CallMove(call: BotCall): (m: Option<Move>)
    ensures m.Some? <==> !call.NoCall?
    ensures m.Some? ==> m.value.kind != INVALID_MOVE
  {
    match call
    case DiscardCall(index) => Some(DiscardMove(index))
    case PlayCall(index) => Some(PlayMove(index))
    case ColorHintCall(to, color) => Some(ColorHintMove(color, to))
    case ValueHintCall(to, value) => Some(ValueHintMove(value, to))
    case NoCall => None
  }

  /** execute_: the server call a move stands for; None where it throws for an invalid move. */
  function MoveCall(move: Move): (call: Option<BotCall>)
    ensures call.None? <==> move.kind == INVALID_MOVE
    ensures call.Some? ==> !call.value.NoCall?
  {
    match move.kind
    case PLAY_CARD => Some(PlayCall(move.value))
    case DISCARD_CARD => Some(DiscardCall(move.value))
    case HINT_COLOR => Some(ColorHintCall(move.to, move.value))
    case HINT_VALUE => Some(ValueHintCall(move.to, move.value))
    case INVALID_MOVE => None
  }

  /** Recording a call and executing the recorded move makes the same call. */
  lemma RecordThenExecute(call: BotCall)
    ensures CallMove(call).Some? <==> !call.NoCall?
    ensures CallMove(call).Some? ==> MoveCall(CallMove(call).value) == Some(call)
  {
    match call
    case DiscardCall(_) =>
    case PlayCall(_) =>
    case ColorHintCall(_, _) =>
    case ValueHintCall(_, _) =>
    case NoCall =>
  }

  /** Executing a well-formed move and recording the call gives the move back. */
  lemma ExecuteThenRecord(move: Move)
    requires WellFormed(move) && move.kind != INVALID_MOVE
    ensures MoveCall(move).Some? && CallMove(MoveCall(move).value) == Some(move)
  {
  }

  class SimulServer {
    /** The server state the simulation shares (the source derives SimulServer from Server). */
    const base: Server
    /** If true, the please* methods only record the move. */
    var mock: bool
    var lastMove: Move

    constructor (base: Server)
      ensures this.base == base && !mock && lastMove == NO_MOVE
    {
      this.base := base;
      mock := false;
      lastMove := NO_MOVE;
    }

    /** pleaseDiscard: the real discard unless mocked; the move is recorded unless the discard was rejected. */
    method PleaseDiscard(index: int) returns (out: Outcome)
      requires base.Valid()
      modifies this`lastMove, base`hands, base`deck, base`discards, base`hintStonesRemaining,
               base`movesFromActivePlayer, base`activeCard, base`activeCardIsObservable
      ensures base.Valid()
      ensures mock ==> out == Done && unchanged(base)
      ensures !mock ==> out == OutcomeOf(DiscardGuard(old(base.movesFromActivePlayer), index,
                                                      |old(base.hands)[base.activePlayer]|,
                                                      old(base.hintStonesRemaining)))
      ensures out.Failed? ==> unchanged(base) && lastMove == old(lastMove)
      ensures out.Done? ==> lastMove == DiscardMove(index)
      ensures !mock && out.Done? ==>
        var hand := old(base.hands)[base.activePlayer];
        var card := hand[index];
        var drew := base.mulligansRemaining > 0 && old(base.deck) != [];
        && base.discards == old(base.discards) + [card]
        && base.activeCard == card && !base.activeCardIsObservable
        && base.hintStonesRemaining == old(base.hintStonesRemaining) + 1
        && base.deck == (if drew then old(base.deck)[..|old(base.deck)| - 1] else old(base.deck))
        && base.hands == old(base.hands)[base.activePlayer := SeqUtil.RemoveAt(hand, index)
                                           + (if drew then [old(base.deck)[|old(base.deck)| - 1]] else [])]
        && base.movesFromActivePlayer == 1
    {
      out := Done;
      if !mock {
        out := base.PleaseDiscard(index);
        if out.Failed? {
          return;
        }
      }
      lastMove := DiscardMove(index);
    }

    /** pleasePlay: the real play unless mocked; the move is recorded unless the play was rejected. */
    method PleasePlay(index: int) returns (out: Outcome)
      requires base.Valid() && (mock || base.mulligansRemaining > 0)
      modifies this`lastMove, base`hands, base`deck, base`discards, base`piles, base`hintStonesRemaining,
               base`mulligansRemaining, base`movesFromActivePlayer, base`activeCard, base`activeCardIsObservable
      ensures base.Valid()
      ensures mock ==> out == Done && unchanged(base)
      ensures !mock ==> out == OutcomeOf(PlayGuard(old(base.movesFromActivePlayer), index,
                                                   |old(base.hands)[base.activePlayer]|))
      ensures out.Failed? ==> unchanged(base) && lastMove == old(lastMove)
      ensures out.Done? ==> lastMove == PlayMove(index)
      ensures !mock && out.Done? ==>
        var hand := old(base.hands)[base.activePlayer];
        var card := hand[index];
        var pile := old(base.piles)[card.color];
        var drew := base.mulligansRemaining > 0 && old(base.deck) != [];
        && base.activeCard == card && !base.activeCardIsObservable && base.movesFromActivePlayer == 1
        && (NextValueIs(pile, card.value) ==>
              base.piles == old(base.piles)[card.color := Increment(pile)]
              && base.discards == old(base.discards)
              && base.mulligansRemaining == old(base.mulligansRemaining)
              && base.hintStonesRemaining == if card.value == VALUE_MAX && old(base.hintStonesRemaining) < NUMHINTS
                                             then old(base.hintStonesRemaining) + 1
                                             else old(base.hintStonesRemaining))
        && (!NextValueIs(pile, card.value) ==>
              base.piles == old(base.piles)
              && base.discards == old(base.discards) + [card]
              && base.mulligansRemaining == old(base.mulligansRemaining) - 1
              && base.hintStonesRemaining == old(base.hintStonesRemaining))
        && base.deck == (if drew then old(base.deck)[..|old(base.deck)| - 1] else old(base.deck))
        && base.hands == old(base.hands)[base.activePlayer := SeqUtil.RemoveAt(hand, index)
                                           + (if drew then [old(base.deck)[|old(base.deck)| - 1]] else [])]
    {
      out := Done;
      if !mock {
        out := base.PleasePlay(index);
        if out.Failed? {
          return;
        }
      }
      lastMove := PlayMove(index);
    }

    /** pleaseGiveColorHint: the real hint unless mocked; the move is recorded unless the hint was rejected. */
    method PleaseGiveColorHint(to: int, color: int) returns (out: Outcome)
      requires base.Valid()
      modifies this`lastMove, base`hintStonesRemaining, base`movesFromActivePlayer
      ensures base.Valid()
      ensures mock ==> out == Done && unchanged(base)
      ensures !mock ==>
        var g := HintGuard(old(base.movesFromActivePlayer), to, base.numPlayers, base.activePlayer,
                           ValidColor(color), InvalidColor, old(base.hintStonesRemaining));
        out == if g.Some? then Failed(g.value)
               else if ColorMatches(base.hands[to], color) == {} then Failed(EmptyHint)
               else Done
      ensures out.Failed? ==> unchanged(base) && lastMove == old(lastMove)
      ensures out.Done? ==> lastMove == ColorHintMove(color, to)
      ensures !mock && out.Done? ==>
        base.hintStonesRemaining == old(base.hintStonesRemaining) - 1 && base.movesFromActivePlayer == 1
    {
      out := Done;
      if !mock {
        var indices;
        out, indices := base.PleaseGiveColorHint(to, color);
        if out.Failed? {
          return;
        }
      }
      lastMove := ColorHintMove(color, to);
    }

    /** pleaseGiveValueHint: the real hint unless mocked; the move is recorded unless the hint was rejected. */
    method PleaseGiveValueHint(to: int, value: int) returns (out: Outcome)
      requires base.Valid()
      modifies this`lastMove, base`hintStonesRemaining, base`movesFromActivePlayer
      ensures base.Valid()
      ensures mock ==> out == Done && unchanged(base)
      ensures !mock ==>
        var g := HintGuard(old(base.movesFromActivePlayer), to, base.numPlayers, base.activePlayer,
                           1 <= value <= VALUE_MAX, InvalidValue, old(base.hintStonesRemaining));
        out == if g.Some? then Failed(g.value)
               else if ValueMatches(base.hands[to], value) == {} then Failed(EmptyHint)
               else Done
      ensures out.Failed? ==> unchanged(base) && lastMove == old(lastMove)
      ensures out.Done? ==> lastMove == ValueHintMove(value, to)
      ensures !mock && out.Done? ==>
        base.hintStonesRemaining == old(base.hintStonesRemaining) - 1 && base.movesFromActivePlayer == 1
    {
      out := Done;
      if !mock {
        var indices;
        out, indices := base.PleaseGiveValueHint(to, value);
        if out.Failed? {
          return;
        }
      }
      lastMove := ValueHintMove(value, to);
    }

    /**
     * simulatePlayerMove: player `index` becomes the active and observing
     * player, the bot (the function `bot` of what it sees) makes its call
     * on the mocked server, and the recorded move is returned; None is the
     * case the source's assertion rejects, a bot that made no call. The
     * mock flag and the recorded move are reset and nothing else changes.
     */
    method SimulatePlayerMove(index: int, bot: View -> BotCall) returns (m: Option<Move>)
      requires base.Valid() && 0 <= index < base.numPlayers
      modifies this, base`activePlayer, base`observingPlayer, base`hands, base`deck, base`discards, base`piles,
               base`hintStonesRemaining, base`mulligansRemaining, base`movesFromActivePlayer, base`activeCard,
               base`activeCardIsObservable
      ensures base.Valid() && base.activePlayer == index && base.observingPlayer == index
      ensures unchanged(base`hands, base`deck, base`discards, base`piles, base`hintStonesRemaining,
                        base`mulligansRemaining, base`movesFromActivePlayer, base`activeCard,
                        base`activeCardIsObservable, base`numPlayers, base`finalCountdown)
      ensures !mock && lastMove == NO_MOVE
      ensures m == CallMove(bot(base.ViewOf()))
    {
      mock := true;
      lastMove := NO_MOVE;
      base.activePlayer := index;
      base.observingPlayer := index;
      var call := bot(base.ViewOf());
      MockDispatch(call);
      if lastMove.kind == INVALID_MOVE {
        m := None;
      } else {
        m := Some(lastMove);
      }
      lastMove := NO_MOVE;
      mock := false;
    }

    /** The bot's call on the mocked server: it is recorded and the server is left alone. */
    method MockDispatch(call: BotCall)
      requires base.Valid() && mock
      modifies this`lastMove, base`hands, base`deck, base`discards, base`piles, base`hintStonesRemaining,
               base`mulligansRemaining, base`movesFromActivePlayer, base`activeCard, base`activeCardIsObservable
      ensures base.Valid() && unchanged(base)
      ensures lastMove == if call.NoCall? then old(lastMove) else CallMove(call).value
    {
      var out: Outcome;
      match call {
        case DiscardCall(i) =>
          out := PleaseDiscard(i);
        case PlayCall(i) =>
          out := PleasePlay(i);
        case ColorHintCall(to, color) =>
          out := PleaseGiveColorHint(to, color);
        case ValueHintCall(to, value) =>
          out := PleaseGiveValueHint(to, value);
        case NoCall =>
      }
    }
  }
}
