/**
 * The Python web server between the browser and the engine: the parsing
 * of the commands the browser sends into engine moves, the English
 * description of past moves, and the choice of the bot for each new game.
 * The websocket loop around them is not modelled; each piece is a
 * function of what the loop hands it.
 */
module WebServer {
  import opened Wrappers
  import opened Text
  import opened BotUtils
  import JsValue
  import BoardState

  // ---------------------------------------------------------------------
  // Command dispatch
  // ---------------------------------------------------------------------

  /**
   * What the loop does with one command: hand a move to the bot, end the
   * game and start another (with the given seed, or a random one), do
   * nothing, or stop with an exception it does not catch (a missing token,
   * a token int() rejects, a number outside the engine's int, or the
   * move constructor's assertion).
   */
  datatype Command = Perform(move: Move) | Replay(seed: Option<int>) | Ignored | Crash

  /** The range of the engine's `int`, to which the binding converts Python integers. */
  predicate InInt32(n: int) { -0x8000_0000 <= n < 0x8000_0000 }

  /** `int(tok)` passed to the engine as an `int`. */
  function EngineInt(tok: string): Option<int> {
    match PyInt(tok)
    case Some(n) => if InInt32(n) then Some(n) else None
    case None => None
  }

  /** Move(kind, int(tokens[1])). */
  function ParseOne(kind: MoveType, tokens: seq<string>): Command {
    if |tokens| < 2 then Crash
    else
      match EngineInt(tokens[1])
      case None => Crash
      case Some(value) =>
        match MakeMove(kind, value, -1)
        case Some(m) => Perform(m)
        case None => Crash
  }

  /** Move(kind, int(tokens[1]), int(tokens[2])). */
  function ParseTwo(kind: MoveType, tokens: seq<string>): Command {
    if |tokens| < 3 then Crash
    else
      match (EngineInt(tokens[1]), EngineInt(tokens[2]))
      case (Some(value), Some(to)) =>
        (match MakeMove(kind, value, to)
         case Some(m) => Perform(m)
         case None => Crash)
      case _ => Crash
  }

  /** The command words the server answers to. */
  datatype Verb = DiscardVerb | PlaceVerb | HintColorVerb | HintValueVerb | ReplayVerb | OtherVerb

  function VerbOf(tok: string): Verb {
    if tok == "DISCARD" then DiscardVerb
    else if tok == "PLACE" then PlaceVerb
    else if tok == "HINT_COLOR" then HintColorVerb
    else if tok == "HINT_VALUE" then HintValueVerb
    else if tok == "REPLAY" then ReplayVerb
    else OtherVerb
  }

  /** REPLAY: "-" asks for a random seed, anything else must be an integer. */
  function ParseReplay(tokens: seq<string>): Command {
    if |tokens| < 2 then Crash
    else if tokens[1] == "-" then Replay(None)
    else
      match EngineInt(tokens[1])
      case Some(n) => Replay(Some(n))
      case None => Crash
  }

  /** The dispatch on the first token, once the command is split on spaces. */
  function DispatchTokens(tokens: seq<string>): Command
    requires |tokens| >= 1
  {
    match VerbOf(tokens[0])
    case DiscardVerb => ParseOne(DISCARD_CARD, tokens)
    case PlaceVerb => ParseOne(PLAY_CARD, tokens)
    case HintColorVerb => ParseTwo(HINT_COLOR, tokens)
    case HintValueVerb => ParseTwo(HINT_VALUE, tokens)
    case ReplayVerb => ParseReplay(tokens)
    case OtherVerb => Ignored
  }

  /** The handling of one command from the browser; nothing happens until the bot is ready. */
  function Dispatch(action: string, botReady: bool): (c: Command)
    ensures !botReady ==> c == Ignored
  {
    if !botReady then Ignored else DispatchTokens(Split(action, ' '))
  }

  /** A first token without a space is split off unchanged. */
  lemma SplitFirst(a: string, rest: string)
    requires ' ' !in a
    ensures Split(a + " " + rest, ' ') == [a] + Split(rest, ' ')
  {
    var tail := Split(rest, ' ');
    var parts := [a] + tail;
    assert parts[1..] == tail;
    assert Join(parts, ' ') == a + " " + rest;
    assert NoSep(parts, ' ') by {
      forall i | 0 <= i < |parts| ensures ' ' !in parts[i] {
        if i > 0 { assert parts[i] == tail[i - 1]; }
      }
    }
    SplitJoin(parts, ' ');
  }

  /** A string without a space is one token. */
  lemma SplitSingle(a: string)
    requires ' ' !in a
    ensures Split(a, ' ') == [a]
  {
    var parts := Split(a, ' ');
    assert |parts| == 1;
    assert Join(parts, ' ') == parts[0];
  }

  /** Two tokens without spaces are split off unchanged. */
  lemma SplitTwo(a: string, b: string, rest: string)
    requires ' ' !in a && ' ' !in b
    ensures Split(a + " " + b + " " + rest, ' ') == [a, b] + Split(rest, ' ')
  {
    SplitFirst(b, rest);
    SplitFirst(a, b + " " + rest);
    AppendAssoc(a, b, rest);
  }

  lemma AppendAssoc(a: string, b: string, rest: string)
    ensures a + " " + b + " " + rest == a + " " + (b + " " + rest)
  {
  }

  /** The command words, recognised. */
  lemma CommandVerbs()
    ensures VerbOf("DISCARD") == DiscardVerb && VerbOf("PLACE") == PlaceVerb
    ensures VerbOf("HINT_COLOR") == HintColorVerb && VerbOf("HINT_VALUE") == HintValueVerb
    ensures VerbOf("REPLAY") == ReplayVerb
    ensures ' ' !in "DISCARD" && ' ' !in "PLACE" && ' ' !in "HINT_COLOR" && ' ' !in "HINT_VALUE"
  {
  }

  /** A number in the engine's range, printed, reads back as itself. */
  lemma EngineIntOfIntToString(x: int)
    requires InInt32(x)
    ensures EngineInt(IntToString(x)) == Some(x)
  {
    PyIntOfIntToString(x);
  }

  /** The dispatch of a command is the dispatch of its tokens. */
  lemma DispatchSplit(action: string, tokens: seq<string>)
    requires Split(action, ' ') == tokens
    ensures Dispatch(action, true) == DispatchTokens(tokens)
  {
  }

  /** A command word and one argument the engine accepts as x: the move with no target. */
  lemma DispatchOneArgument(verb: string, kind: MoveType, tok: string, x: int)
    requires ' ' !in verb && ' ' !in tok
    requires kind == PLAY_CARD || kind == DISCARD_CARD
    requires VerbOf(verb) == if kind == PLAY_CARD then PlaceVerb else DiscardVerb
    requires EngineInt(tok) == Some(x)
    ensures Dispatch(verb + " " + tok, true) == Perform(Move(kind, x, -1))
  {
    SplitSingle(tok);
    SplitFirst(verb, tok);
    DispatchSplit(verb + " " + tok, [verb, tok]);
    OneArgumentTokens(verb, kind, tok, x);
  }

  lemma OneArgumentTokens(verb: string, kind: MoveType, tok: string, x: int)
    requires kind == PLAY_CARD || kind == DISCARD_CARD
    requires VerbOf(verb) == if kind == PLAY_CARD then PlaceVerb else DiscardVerb
    requires EngineInt(tok) == Some(x)
    ensures DispatchTokens([verb, tok]) == Perform(Move(kind, x, -1))
  {
    var tokens := [verb, tok];
    assert |tokens| == 2 && tokens[0] == verb && tokens[1] == tok;
    DispatchCardWord(verb, kind, tokens);
    ParseOneArgument(kind, tokens, x);
  }

  lemma DispatchCardWord(verb: string, kind: MoveType, tokens: seq<string>)
    requires kind == PLAY_CARD || kind == DISCARD_CARD
    requires |tokens| >= 1 && tokens[0] == verb
    requires VerbOf(verb) == if kind == PLAY_CARD then PlaceVerb else DiscardVerb
    ensures DispatchTokens(tokens) == ParseOne(kind, tokens)
  {
  }

  lemma ParseOneArgument(kind: MoveType, tokens: seq<string>, x: int)
    requires !IsHint(kind) && |tokens| == 2 && EngineInt(tokens[1]) == Some(x)
    ensures ParseOne(kind, tokens) == Perform(Move(kind, x, -1))
  {
  }

  /**
   * A hint word and two arguments the engine accepts as x and y: the
   * hint to y, unless y is -1, which fails the move constructor's
   * assertion.
   */
  lemma DispatchTwoArguments(verb: string, kind: MoveType, tok1: string, tok2: string, x: int, y: int)
    requires ' ' !in verb && ' ' !in tok1 && ' ' !in tok2 && IsHint(kind)
    requires VerbOf(verb) == if kind == HINT_COLOR then HintColorVerb else HintValueVerb
    requires EngineInt(tok1) == Some(x) && EngineInt(tok2) == Some(y)
    ensures Dispatch(verb + " " + tok1 + " " + tok2, true)
            == if y != -1 then Perform(Move(kind, x, y)) else Crash
  {
    SplitSingle(tok2);
    SplitTwo(verb, tok1, tok2);
    DispatchSplit(verb + " " + tok1 + " " + tok2, [verb, tok1, tok2]);
    TwoArgumentTokens(verb, kind, tok1, tok2, x, y);
  }

  lemma TwoArgumentTokens(verb: string, kind: MoveType, tok1: string, tok2: string, x: int, y: int)
    requires IsHint(kind)
    requires VerbOf(verb) == if kind == HINT_COLOR then HintColorVerb else HintValueVerb
    requires EngineInt(tok1) == Some(x) && EngineInt(tok2) == Some(y)
    ensures DispatchTokens([verb, tok1, tok2]) == if y != -1 then Perform(Move(kind, x, y)) else Crash
  {
    var tokens := [verb, tok1, tok2];
    assert |tokens| == 3 && tokens[0] == verb && tokens[1] == tok1 && tokens[2] == tok2;
    DispatchHintWord(verb, kind, tokens);
    ParseTwoArguments(kind, tokens, x, y);
  }

  lemma DispatchHintWord(verb: string, kind: MoveType, tokens: seq<string>)
    requires IsHint(kind) && |tokens| >= 1 && tokens[0] == verb
    requires VerbOf(verb) == if kind == HINT_COLOR then HintColorVerb else HintValueVerb
    ensures DispatchTokens(tokens) == ParseTwo(kind, tokens)
  {
  }

  lemma ParseTwoArguments(kind: MoveType, tokens: seq<string>, x: int, y: int)
    requires IsHint(kind) && |tokens| == 3
    requires EngineInt(tokens[1]) == Some(x) && EngineInt(tokens[2]) == Some(y)
    ensures ParseTwo(kind, tokens) == if y != -1 then Perform(Move(kind, x, y)) else Crash
  {
  }

  /** A place or discard command for a card index in the engine's range parses back to its move. */
  lemma CardCommandParses(verb: string, kind: MoveType, x: int)
    requires ' ' !in verb && (kind == PLAY_CARD || kind == DISCARD_CARD)
    requires VerbOf(verb) == if kind == PLAY_CARD then PlaceVerb else DiscardVerb
    requires InInt32(x)
    ensures Dispatch(verb + " " + IntToString(x), true) == Perform(Move(kind, x, -1))
  {
    EngineIntOfIntToString(x);
    DispatchOneArgument(verb, kind, IntToString(x), x);
  }

  /** A hint command with arguments in the engine's range and a real target parses back to its move. */
  lemma HintCommandParses(verb: string, kind: MoveType, x: int, y: int)
    requires ' ' !in verb && IsHint(kind)
    requires VerbOf(verb) == if kind == HINT_COLOR then HintColorVerb else HintValueVerb
    requires InInt32(x) && InInt32(y) && y != -1
    ensures Dispatch(verb + " " + IntToString(x) + " " + IntToString(y), true) == Perform(Move(kind, x, y))
  {
    EngineIntOfIntToString(x);
    EngineIntOfIntToString(y);
    DispatchTwoArguments(verb, kind, IntToString(x), IntToString(y), x, y);
  }

  /** A hint whose target is -1 fails the move constructor's assertion, which ends the loop. */
  lemma HintWithoutTargetCrashes(verb: string, kind: MoveType, x: int)
    requires ' ' !in verb && IsHint(kind) && InInt32(x)
    requires VerbOf(verb) == if kind == HINT_COLOR then HintColorVerb else HintValueVerb
    ensures Dispatch(verb + " " + IntToString(x) + " " + IntToString(-1), true) == Crash
  {
    EngineIntOfIntToString(x);
    EngineIntOfIntToString(-1);
    DispatchTwoArguments(verb, kind, IntToString(x), IntToString(-1), x, -1);
  }

  /** A command word alone, without the arguments it needs, is a missing token. */
  lemma MissingArgumentCrashes(verb: string)
    requires ' ' !in verb && VerbOf(verb) != OtherVerb
    ensures Dispatch(verb, true) == Crash
  {
    SplitSingle(verb);
  }

  /** The replay command carries the seed's digits, or "-" for a falsy seed. */
  lemma ReplaySent(seed: JsValue.Value, botName: string)
    requires JsValue.Truthy(seed) ==> seed.Num?
    ensures BoardState.Sent(BoardState.PlayAgain(seed, botName)).value
            == "REPLAY" + " " + (if JsValue.Truthy(seed) then IntToString(seed.n) else "-")
               + " " + ReplaceFirst(botName, ' ', '-')
  {
    assert "REPLAY " == "REPLAY" + " ";
  }

  /** The replay command: its second token is the seed's string, or "-" for a falsy seed. */
  lemma ReplayTokens(seed: JsValue.Value, botName: string)
    requires JsValue.Truthy(seed) ==> seed.Num? && InInt32(seed.n)
    ensures var tokens := Split(BoardState.Sent(BoardState.PlayAgain(seed, botName)).value, ' ');
      |tokens| >= 2 && tokens[0] == "REPLAY"
      && (JsValue.Truthy(seed) ==> tokens[1] != "-" && EngineInt(tokens[1]) == Some(seed.n))
      && (!JsValue.Truthy(seed) ==> tokens[1] == "-")
  {
    var tok := if JsValue.Truthy(seed) then IntToString(seed.n) else "-";
    ReplaySent(seed, botName);
    SplitTwo("REPLAY", tok, ReplaceFirst(botName, ' ', '-'));
    if JsValue.Truthy(seed) {
      PyIntOfIntToString(seed.n);
    }
  }

  /**
   * The server's dispatch inverts the browser's command builders: the
   * place, discard and hint buttons give back the move they stand for
   * (a hint must name a target other than -1, as the move constructor
   * asserts), and a replay gives back its seed when the seed is truthy,
   * a random seed otherwise, whatever the bot's name.
   */
  lemma DispatchInvertsCommands(u: BoardState.UserAction)
    requires !u.UpdateNoteOf?
    requires u.Place? || u.Discard? ==> u.idx.Num? && InInt32(u.idx.n)
    requires u.HintColor? || u.HintNumber? ==>
      u.idx.Num? && InInt32(u.idx.n) && u.player.Num? && InInt32(u.player.n) && u.player.n != -1
    requires u.PlayAgain? ==> (JsValue.Truthy(u.seed) ==> u.seed.Num? && InInt32(u.seed.n))
    ensures var c := Dispatch(BoardState.Sent(u).value, true);
      match u
      case Place(idx) => c == Perform(PlayMove(idx.n))
      case Discard(idx) => c == Perform(DiscardMove(idx.n))
      case HintColor(idx, player) => c == Perform(ColorHintMove(idx.n, player.n))
      case HintNumber(idx, player) => c == Perform(ValueHintMove(idx.n, player.n))
      case PlayAgain(seed, _) => c == Replay(if JsValue.Truthy(seed) then Some(seed.n) else None)
      case UpdateNoteOf(_, _) => true
  {
    CommandVerbs();
    match u
    case Place(idx) =>
      assert "PLACE " + IntToString(idx.n) == "PLACE" + " " + IntToString(idx.n);
      CardCommandParses("PLACE", PLAY_CARD, idx.n);
    case Discard(idx) =>
      assert "DISCARD " + IntToString(idx.n) == "DISCARD" + " " + IntToString(idx.n);
      CardCommandParses("DISCARD", DISCARD_CARD, idx.n);
    case HintColor(idx, player) =>
      assert "HINT_COLOR " == "HINT_COLOR" + " ";
      HintCommandParses("HINT_COLOR", HINT_COLOR, idx.n, player.n);
    case HintNumber(idx, player) =>
      assert "HINT_VALUE " == "HINT_VALUE" + " ";
      HintCommandParses("HINT_VALUE", HINT_VALUE, idx.n, player.n);
    case PlayAgain(seed, name) =>
      ReplayTokens(seed, name);
  }

  /** Replaying the seed 0 asks for a random seed, since 0 is falsy in the browser. */
  lemma ReplaySeedZeroIsRandom(name: string)
    ensures Dispatch(BoardState.Sent(BoardState.PlayAgain(JsValue.Num(0), name)).value, true) == Replay(None)
  {
    DispatchInvertsCommands(BoardState.PlayAgain(JsValue.Num(0), name));
  }

  // ---------------------------------------------------------------------
  // formatMove
  // ---------------------------------------------------------------------

  /** The exceptions formatMove can raise: a card position outside 0..4. */
  datatype PyError = KeyError

  function PlayerName(playerId: int, myPlayerId: int): (s: string)
    ensures s == "You" <==> playerId == myPlayerId
  {
    if playerId == myPlayerId then "You" else "Partner"
  }

  function PlayerPossession(playerId: int, myPlayerId: int): (s: string)
    ensures s == "your" <==> playerId == myPlayerId
  {
    if playerId == myPlayerId then "your" else "their"
  }

  /** The position names of a five-card hand, oldest card first; KeyError for any other index. */
  function CardIndexName(i: int): (r: Result<string, PyError>)
    ensures r.Ok? <==> 0 <= i <= 4
  {
    match i
    case 0 => Ok("earliest")
    case 1 => Ok("2nd earliest")
    case 2 => Ok("middle")
    case 3 => Ok("2nd most recent")
    case 4 => Ok("most recent")
    case _ => Err(KeyError)
  }

  /** The five positions have five different names. */
  lemma CardIndexNamesDistinct(i: int, j: int)
    requires 0 <= i <= 4 && 0 <= j <= 4 && i != j
    ensures CardIndexName(i).value != CardIndexName(j).value
  {
  }

  /** `Color(value).name` of the binding's enum: "???" for a value no colour has. */
  function ColorEnumName(value: int): (s: string)
    ensures s == "???" <==> !(0 <= value <= 4)
  {
    match value
    case 0 => "RED"
    case 1 => "ORANGE"
    case 2 => "YELLOW"
    case 3 => "GREEN"
    case 4 => "BLUE"
    case _ => "???"
  }

  /** What follows the mover's name in the description of a move. */
  function MoveAction(move: Move, forPlayerId: int, myPlayerId: int): Result<string, PyError> {
    match move.kind
    case HINT_COLOR =>
      Ok(" hinted " + ColorEnumName(move.value) + " to " + Lower(PlayerName(move.to, myPlayerId)))
    case HINT_VALUE =>
      Ok(" hinted " + IntToString(move.value) + " to " + Lower(PlayerName(move.to, myPlayerId)))
    case DISCARD_CARD =>
      var pos :- CardIndexName(move.value);
      Ok(" discarded " + PlayerPossession(forPlayerId, myPlayerId) + " " + pos + " card")
    case PLAY_CARD =>
      var pos :- CardIndexName(move.value);
      Ok(" played " + PlayerPossession(forPlayerId, myPlayerId) + " " + pos + " card")
    case INVALID_MOVE => Ok("")
  }

  /**
   * formatMove: the history line shown for a move made by `forPlayerId`,
   * the mover's name then what they did; a move of no known type is shown
   * by its own string form.
   */
  function FormatMove(move: Move, forPlayerId: int, myPlayerId: int): (r: Result<string, PyError>)
    ensures r.Err? <==> (move.kind == PLAY_CARD || move.kind == DISCARD_CARD) && !(0 <= move.value <= 4)
  {
    if move.kind == INVALID_MOVE then Ok("??? invalid")
    else
      var action :- MoveAction(move, forPlayerId, myPlayerId);
      Ok(PlayerName(forPlayerId, myPlayerId) + action)
  }

  lemma LowerNames()
    ensures Lower("You") == "you" && Lower("Partner") == "partner"
  {
    assert Lower("You")[0] == 'y';
    assert Lower("Partner")[0] == 'p';
  }

  /** A described move starts with "You" exactly when the mover is the human player. */
  lemma FormatMoveNamesMover(move: Move, forPlayerId: int, myPlayerId: int)
    requires move.kind != INVALID_MOVE
    requires FormatMove(move, forPlayerId, myPlayerId).Ok?
    ensures var s := FormatMove(move, forPlayerId, myPlayerId).value;
      (|s| >= 3 && s[..3] == "You") <==> forPlayerId == myPlayerId
  {
    var s := FormatMove(move, forPlayerId, myPlayerId).value;
    var who := PlayerName(forPlayerId, myPlayerId);
    var action := MoveAction(move, forPlayerId, myPlayerId).value;
    assert s == who + action;
    assert s[..3] == who[..3];
    assert forPlayerId != myPlayerId ==> who[..3] == "Par";
  }

  /** A described hint ends with "you" exactly when it was given to the human player. */
  lemma FormatMoveNamesTarget(move: Move, forPlayerId: int, myPlayerId: int)
    requires IsHint(move.kind)
    ensures var s := FormatMove(move, forPlayerId, myPlayerId).value;
      (|s| >= 3 && s[|s| - 3..] == "you") <==> move.to == myPlayerId
  {
    var s := FormatMove(move, forPlayerId, myPlayerId).value;
    var who := PlayerName(forPlayerId, myPlayerId);
    LowerNames();
    var target := Lower(PlayerName(move.to, myPlayerId));
    var head := if move.kind == HINT_COLOR then " hinted " + ColorEnumName(move.value) + " to "
                else " hinted " + IntToString(move.value) + " to ";
    assert MoveAction(move, forPlayerId, myPlayerId).value == head + target;
    assert s == (who + head) + target;
    assert s[|s| - 3..] == target[|target| - 3..];
    assert move.to != myPlayerId ==> target[|target| - 3..] == "ner";
  }

  /** A play and a discard at positions 0..4 are described by the position's name. */
  lemma FormatMovePositions(move: Move, forPlayerId: int, myPlayerId: int)
    requires move.kind == PLAY_CARD || move.kind == DISCARD_CARD
    requires 0 <= move.value <= 4
    ensures var s := FormatMove(move, forPlayerId, myPlayerId).value;
      var tail := CardIndexName(move.value).value + " card";
      |s| > |tail| && s[|s| - |tail|..] == tail
  {
  }

  // ---------------------------------------------------------------------
  // next_game_info
  // ---------------------------------------------------------------------

  /** The bot the next game uses: $BOT, or the sequence entry at the game counter. */
  function NextBot(cycle: bool, sequence: seq<string>, counter: nat, botEnv: Option<string>): Option<string>
    requires cycle ==> |sequence| >= 1
  {
    if !cycle then botEnv else Some(sequence[counter % |sequence|])
  }

  /** A positive multiple of n is at least n. */
  lemma {:induction false} MultipleAtLeast(d: nat, n: nat)
    requires d >= 1
    ensures d * n >= n
    decreases d
  {
    if d > 1 {
      MultipleAtLeast(d - 1, n);
      assert d * n == (d - 1) * n + n;
    }
  }

  /** The remainder is determined by any quotient-remainder split. */
  lemma ModOfSplit(x: int, n: int, q: int, r: int)
    requires n > 0 && 0 <= r < n && x == q * n + r
    ensures x % n == r
  {
    var q', r' := x / n, x % n;
    assert x == q' * n + r';
    if q > q' {
      assert (q - q') * n == q * n - q' * n;
      MultipleAtLeast(q - q', n);
    } else if q < q' {
      assert (q' - q) * n == q' * n - q * n;
      MultipleAtLeast(q' - q, n);
    }
  }

  /** Cycling repeats with the length of the sequence. */
  lemma CyclingIsPeriodic(sequence: seq<string>, counter: nat, botEnv: Option<string>)
    requires |sequence| >= 1
    ensures NextBot(true, sequence, counter + |sequence|, botEnv) == NextBot(true, sequence, counter, botEnv)
  {
    var n := |sequence|;
    ModOfSplit(counter + n, n, counter / n + 1, counter % n);
  }

  /** Any |sequence| consecutive games use every bot of the sequence. */
  lemma CyclingVisitsEveryBot(sequence: seq<string>, counter: nat, botEnv: Option<string>, j: int)
    requires |sequence| >= 1 && 0 <= j < |sequence|
    ensures exists k :: counter <= k < counter + |sequence| && NextBot(true, sequence, k, botEnv) == Some(sequence[j])
  {
    var n := |sequence|;
    var q, r := counter / n, counter % n;
    var k := if j >= r then q * n + j else (q + 1) * n + j;
    ModOfSplit(k, n, if j >= r then q else q + 1, j);
    assert NextBot(true, sequence, k, botEnv) == Some(sequence[j]);
  }

  /** `chr(65 + i)`: "A" for the first bot; code points from the surrogate range on are not modelled. */
  function BotLetter(i: nat): char {
    if i + 65 < 0xD800 then (i + 65) as char else '?'
  }

  /**
   * The label of the bot of the current game, once next_game_info has
   * run for it: its configured name when there is one per bot, else
   * "Bot " and a letter from A on, else the engine's bot name.
   */
  function BotLabel(counter: nat, sequence: seq<string>, names: seq<string>, engineName: string): string {
    if |sequence| != 0 && |sequence| == |names| then names[(counter - 1) % |sequence|]
    else if |sequence| > 0 then "Bot " + [BotLetter((counter - 1) % |sequence|)]
    else engineName
  }

  /**
   * The state the loop of next_game_info keeps: the configuration read
   * from the environment at start-up, the game counter, and the search
   * threshold last handed to the engine.
   */
  class GameCycler {
    const cycle: bool
    const sequence: seq<string>
    const sequenceNames: seq<string>
    const sequenceThresh: seq<real>
    var gameCounter: nat
    var searchThresh: Option<real>

    /** Cycling has at least one bot: splitting a string always yields one part. */
    predicate Valid()
      reads this
    {
      cycle ==> |sequence| >= 1
    }

    /**
     * The configuration from $CYCLE_BOTS and $CYCLE_NAMES (comma-separated
     * lists, absent as None) and the thresholds parsed from $CYCLE_THRESH.
     */
    constructor (cycleBots: Option<string>, cycleNames: Option<string>, thresholds: seq<real>)
      ensures Valid() && gameCounter == 0 && searchThresh.None?
      ensures cycle <==> cycleBots.Some?
      ensures cycleBots.Some? ==> sequence == Split(cycleBots.value, ',')
      ensures cycleNames.Some? ==> sequenceNames == Split(cycleNames.value, ',')
      ensures sequenceThresh == thresholds
    {
      cycle := cycleBots.Some?;
      sequence := if cycleBots.Some? then Split(cycleBots.value, ',') else [];
      sequenceNames := if cycleNames.Some? then Split(cycleNames.value, ',') else [];
      sequenceThresh := thresholds;
      gameCounter := 0;
      searchThresh := None;
    }

    /**
     * next_game_info: the bot of the next game, setting the engine's
     * search threshold from the cycle when there are thresholds; the game
     * counter always advances by one.
     */
    method NextGameInfo(botEnv: Option<string>) returns (next: Option<string>)
      requires Valid()
      modifies this
      ensures Valid()
      ensures gameCounter == old(gameCounter) + 1
      ensures next == NextBot(cycle, sequence, old(gameCounter), botEnv)
      ensures searchThresh == (if cycle && |sequenceThresh| != 0
                               then Some(sequenceThresh[old(gameCounter) % |sequenceThresh|])
                               else old(searchThresh))
    {
      if !cycle {
        next := botEnv;
      } else {
        if |sequenceThresh| != 0 {
          searchThresh := Some(sequenceThresh[gameCounter % |sequenceThresh|]);
        }
        next := Some(sequence[gameCounter % |sequence|]);
      }
      gameCounter := gameCounter + 1;
    }
  }

  /** The label shown names the bot next_game_info chose for the current game. */
  lemma LabelNamesChosenBot(counter: nat, sequence: seq<string>, names: seq<string>, engineName: string, botEnv: Option<string>)
    requires counter >= 1 && |sequence| >= 1 && |names| == |sequence|
    ensures var i := (counter - 1) % |sequence|;
      NextBot(true, sequence, counter - 1, botEnv) == Some(sequence[i])
      && BotLabel(counter, sequence, names, engineName) == names[i]
  {
  }
}
