/**
 * The view of the board state the components render: card codes turned
 * from the engine's "1r" into "R1", the player's and the partner's hands
 * assembled from parallel arrays, the piles keyed by colour name and the
 * counters renamed. A TypeError the conversion throws is the Err result.
 */
module StateView {
  import opened Wrappers
  import opened Text
  import opened JsValue
  import Hanabi

  /**
   * convertCard: upper-case the code and put its second character before
   * its first. A one-character code has no second character, which prints
   * as "undefined"; an empty one adds two undefineds, giving NaN. A value
   * that is not a string makes toUpperCase throw, which is caught and
   * gives undefined.
   */
  function ConvertCard(card: Value): (r: Value)
    ensures !card.Str? ==> r == Undefined
    ensures card.Str? && |card.s| >= 2 ==> r == Str([UpperChar(card.s[1]), UpperChar(card.s[0])])
  {
    match card
    case Str(s) =>
      var u := Upper(s);
      if |u| >= 2 then Str([u[1], u[0]])
      else if |u| == 1 then Str("undefined" + [u[0]])
      else NaN
    case _ => Undefined
  }

  /** On two-character upper-case codes, converting twice gives the code back. */
  lemma ConvertCardTwice(s: string)
    requires |s| == 2 && IsUpper(s)
    ensures ConvertCard(ConvertCard(Str(s))) == Str(s)
  {
    assert UpperChar(s[0]) == s[0] && UpperChar(s[1]) == s[1] by {
      assert Upper(s)[0] == s[0] && Upper(s)[1] == s[1];
    }
    var once := [s[1], s[0]];
    assert ConvertCard(Str(s)) == Str(once);
    assert UpperChar(once[0]) == once[0] && UpperChar(once[1]) == once[1];
  }

  /**
   * The engine's name of a card ("1r") becomes the colour's upper-case
   * initial followed by the value's digit ("R1"), and distinct cards stay
   * distinct.
   */
  lemma ConvertCardOfCard(c: Hanabi.Card, d: Hanabi.Card)
    requires Hanabi.ValidCard(c) && Hanabi.ValidCard(d)
    ensures ConvertCard(Str(Hanabi.CardToString(c)))
            == Str([UpperChar(Hanabi.ColorName(c.color)[0]), DigitChar(c.value)])
    ensures c != d ==> ConvertCard(Str(Hanabi.CardToString(c))) != ConvertCard(Str(Hanabi.CardToString(d)))
  {
    var sc := Hanabi.CardToString(c);
    var sd := Hanabi.CardToString(d);
    assert sc[0] == DigitChar(c.value);
    Hanabi.CardToStringInjective(c, d);
    assert sc[1] in "roygb" && sd[1] in "roygb";
    assert sc == [sc[0], sc[1]] && sd == [sd[0], sd[1]];
  }

  /** `v.map(convertCard)`: only arrays have a map method. */
  function ConvertCards(v: Value): (r: Result<seq<Value>, JsError>)
    ensures r.Ok? <==> v.Arr?
    ensures r.Ok? ==> |r.value| == |v.items| && forall i :: 0 <= i < |v.items| ==> r.value[i] == ConvertCard(v.items[i])
  {
    if v.Arr? then Ok(seq(|v.items|, i requires 0 <= i < |v.items| => ConvertCard(v.items[i])))
    else Err(TypeError)
  }

  /** `{id: ids[idx], card: convertCard(card), hints: hintsOf[idx]}`. */
  function HandEntry(ids: Value, card: Value, hintsOf: Value, idx: int): Result<Value, JsError> {
    var id :- Index(ids, Num(idx));
    var hints :- Index(hintsOf, Num(idx));
    Ok(Obj(map["id" := id, "card" := ConvertCard(card), "hints" := hints]))
  }

  /** The first n entries of the player's own hand, read from `cheatMyCards`. */
  function SelfEntries(schema: Object, n: nat): (r: Result<seq<Value>, JsError>)
    ensures r.Ok? ==> |r.value| == n
    decreases n
  {
    if n == 0 then Ok([])
    else
      var front :- SelfEntries(schema, n - 1);
      var card :- Index(Get(schema, "cheatMyCards"), Num(n - 1));
      var hintsOf :- Index(Get(schema, "predictions"), Get(schema, "playerId"));
      var entry :- HandEntry(Get(schema, "cardsIds"), card, hintsOf, n - 1);
      Ok(front + [entry])
  }

  /** The first n entries of the partner's hand, one per element of `cards`. */
  function PartnerEntries(schema: Object, cards: seq<Value>, n: nat): (r: Result<seq<Value>, JsError>)
    requires n <= |cards|
    ensures r.Ok? ==> |r.value| == n
    decreases n
  {
    if n == 0 then Ok([])
    else
      var front :- PartnerEntries(schema, cards, n - 1);
      var hintsOf :- Index(Get(schema, "predictions"), Get(schema, "partnerId"));
      var entry :- HandEntry(Get(schema, "partnerCardsIds"), cards[n - 1], hintsOf, n - 1);
      Ok(front + [entry])
  }

  /**
   * Map keys: SameValueZero on the values. Arrays and objects are keys by
   * identity, and two array elements are never the same object.
   */
  predicate SameKey(a: Value, b: Value) { a == b && !a.Arr? && !a.Obj? }

  /** `map.set(k, v)` on a Map kept as its entries in insertion order. */
  function MapSet(entries: seq<(Value, Value)>, k: Value, v: Value): (r: seq<(Value, Value)>)
    ensures |r| == |entries| || r == entries + [(k, v)]
    decreases |entries|
  {
    if |entries| == 0 then [(k, v)]
    else if SameKey(entries[0].0, k) then [(entries[0].0, v)] + entries[1..]
    else [entries[0]] + MapSet(entries[1..], k, v)
  }

  /** `new Map(pairs)`. */
  function NewMap(pairs: seq<(Value, Value)>): seq<(Value, Value)>
    decreases |pairs|
  {
    if |pairs| == 0 then [] else MapSet(NewMap(pairs[..|pairs| - 1]), pairs[|pairs| - 1].0, pairs[|pairs| - 1].1)
  }

  /** `Object.fromEntries(entries)`: each key becomes its string form, later entries winning. */
  function FromEntries(entries: seq<(Value, Value)>): Object
    decreases |entries|
  {
    if |entries| == 0 then map[]
    else FromEntries(entries[..|entries| - 1])[ToStr(entries[|entries| - 1].0) := entries[|entries| - 1].1]
  }

  /** The first n pairs `[colors[idx], piles[idx]]`. */
  function PilePairs(schema: Object, n: nat): (r: Result<seq<(Value, Value)>, JsError>)
    ensures r.Ok? ==> |r.value| == n
    decreases n
  {
    if n == 0 then Ok([])
    else
      var front :- PilePairs(schema, n - 1);
      var color :- Index(Get(schema, "colors"), Num(n - 1));
      var pile :- Index(Get(schema, "piles"), Num(n - 1));
      Ok(front + [(color, pile)])
  }

  /** The hands object: `self`, and the partner's hand under "player" followed by the partner's id. */
  datatype Hands = Hands(self: seq<Value>, partnerKey: string, partner: seq<Value>)

  /**
   * The object convertState returns: `{}` for a state that is not
   * connected, otherwise its sixteen fields.
   */
  datatype GameView =
    | Disconnected
    | Connected(
        isPlayerTurn: Value, discarded: seq<Value>, hands: Hands, placed: Object,
        deckComposition: Value, hintsLog: Value, defuseCounter: Value, hintCounter: Value,
        cardsLeft: Value, gameOver: Value, selfId: Value, partnerId: Value,
        botName: Value, otherBots: Value, seed: Value, history: Value)

  /** convertState. */
  function ConvertState(schema: Object): Result<GameView, JsError> {
    if !Truthy(Get(schema, "isConnected")) then Ok(Disconnected)
    else
      var discarded :- ConvertCards(Get(schema, "discards"));
      var self :- SelfEntries(schema, 5);
      var cards := Get(schema, "cards");
      if !cards.Arr? then Err(TypeError)
      else
        var partner :- PartnerEntries(schema, cards.items, |cards.items|);
        var pairs :- PilePairs(schema, 5);
        Ok(Connected(
          Get(schema, "isPlayerTurn"),
          discarded,
          Hands(self, "player" + ToStr(Get(schema, "partnerId")), partner),
          FromEntries(NewMap(pairs)),
          Get(schema, "deckComposition"),
          Get(schema, "history"),
          Get(schema, "mulligansRemaining"),
          Get(schema, "hintStonesRemaining"),
          Get(schema, "cardsRemainingInDeck"),
          Get(schema, "gameOver"),
          Get(schema, "playerId"),
          Get(schema, "partnerId"),
          Get(schema, "botName"),
          Get(schema, "otherBots"),
          Get(schema, "seed"),
          Get(schema, "moveHistory")))
  }

  /** A state that is not connected converts to the empty object. */
  lemma ConvertDisconnected(schema: Object)
    requires !Truthy(Get(schema, "isConnected"))
    ensures ConvertState(schema) == Ok(Disconnected)
  {
  }

  /** The counters copy the engine's mulligans, hint stones and remaining deck size. */
  lemma ConvertCounters(schema: Object)
    ensures var r := ConvertState(schema);
      r.Ok? && r.value.Connected? ==>
        r.value.defuseCounter == Get(schema, "mulligansRemaining")
        && r.value.hintCounter == Get(schema, "hintStonesRemaining")
        && r.value.cardsLeft == Get(schema, "cardsRemainingInDeck")
        && r.value.hintsLog == Get(schema, "history")
        && r.value.history == Get(schema, "moveHistory")
  {
  }

  /** The entry convertState builds for position idx from the id array, the card and the hints array. */
  function EntryOf(ids: Value, card: Value, hintsOf: Value, idx: int): Value
    requires Index(ids, Num(idx)).Ok? && Index(hintsOf, Num(idx)).Ok?
  {
    Obj(map[
      "id" := Index(ids, Num(idx)).value,
      "card" := ConvertCard(card),
      "hints" := Index(hintsOf, Num(idx)).value])
  }

  predicate Readable(v: Value) { !v.Undefined? && !v.Null? }

  /** The arrays the own hand is read from can be indexed. */
  predicate SelfSources(schema: Object) {
    var hintsOf := Index(Get(schema, "predictions"), Get(schema, "playerId"));
    hintsOf.Ok? && Readable(hintsOf.value) && Readable(Get(schema, "cardsIds"))
    && Readable(Get(schema, "cheatMyCards"))
  }

  /** The own hand's entry at position i. */
  function SelfEntry(schema: Object, i: int): Value
    requires SelfSources(schema)
  {
    EntryOf(Get(schema, "cardsIds"), Index(Get(schema, "cheatMyCards"), Num(i)).value,
            Index(Get(schema, "predictions"), Get(schema, "playerId")).value, i)
  }

  /** Entry i of `entries` is built from index i of `cardsIds`, `cheatMyCards` and the player's predictions. */
  predicate SelfHandIs(schema: Object, entries: seq<Value>) {
    SelfSources(schema) && forall i :: 0 <= i < |entries| ==> entries[i] == SelfEntry(schema, i)
  }

  /** One step of SelfEntries: the entries before, then entry n - 1. */
  lemma SelfEntriesStep(schema: Object, n: nat)
    requires n > 0 && SelfEntries(schema, n).Ok?
    ensures SelfEntries(schema, n - 1).Ok? && SelfSources(schema)
    ensures SelfEntries(schema, n).value == SelfEntries(schema, n - 1).value + [SelfEntry(schema, n - 1)]
  {
  }

  lemma SelfHandExtend(schema: Object, front: seq<Value>)
    requires SelfSources(schema)
    requires front == [] || SelfHandIs(schema, front)
    ensures SelfHandIs(schema, front + [SelfEntry(schema, |front|)])
  {
  }

  /** Entry idx of the own hand takes index idx of `cardsIds`, `cheatMyCards` and the player's predictions. */
  lemma {:induction false} SelfEntriesAt(schema: Object, n: nat)
    requires n > 0 && SelfEntries(schema, n).Ok?
    ensures SelfHandIs(schema, SelfEntries(schema, n).value)
    decreases n
  {
    SelfEntriesStep(schema, n);
    if n > 1 {
      SelfEntriesAt(schema, n - 1);
    }
    SelfHandExtend(schema, SelfEntries(schema, n - 1).value);
  }

  /** The arrays the partner's hand is read from can be indexed. */
  predicate PartnerSources(schema: Object) {
    var hintsOf := Index(Get(schema, "predictions"), Get(schema, "partnerId"));
    hintsOf.Ok? && Readable(hintsOf.value) && Readable(Get(schema, "partnerCardsIds"))
  }

  /** The partner's hand's entry at position i, for the card shown there. */
  function PartnerEntry(schema: Object, card: Value, i: int): Value
    requires PartnerSources(schema)
  {
    EntryOf(Get(schema, "partnerCardsIds"), card,
            Index(Get(schema, "predictions"), Get(schema, "partnerId")).value, i)
  }

  /** Entry i of `entries` is built from card i of `cards` and index i of the ids and predictions. */
  predicate PartnerHandIs(schema: Object, cards: seq<Value>, entries: seq<Value>) {
    PartnerSources(schema) && |entries| <= |cards|
    && forall i :: 0 <= i < |entries| ==> entries[i] == PartnerEntry(schema, cards[i], i)
  }

  /** One step of PartnerEntries: the entries before, then entry n - 1. */
  lemma PartnerEntriesStep(schema: Object, cards: seq<Value>, n: nat)
    requires 0 < n <= |cards| && PartnerEntries(schema, cards, n).Ok?
    ensures PartnerEntries(schema, cards, n - 1).Ok? && PartnerSources(schema)
    ensures PartnerEntries(schema, cards, n).value
            == PartnerEntries(schema, cards, n - 1).value + [PartnerEntry(schema, cards[n - 1], n - 1)]
  {
  }

  lemma PartnerHandExtend(schema: Object, cards: seq<Value>, front: seq<Value>)
    requires PartnerSources(schema) && |front| < |cards|
    requires front == [] || PartnerHandIs(schema, cards, front)
    ensures PartnerHandIs(schema, cards, front + [PartnerEntry(schema, cards[|front|], |front|)])
  {
  }

  /** Entry idx of the partner's hand takes card idx of `cards` and index idx of the ids and predictions. */
  lemma {:induction false} PartnerEntriesAt(schema: Object, cards: seq<Value>, n: nat)
    requires 0 < n <= |cards| && PartnerEntries(schema, cards, n).Ok?
    ensures PartnerHandIs(schema, cards, PartnerEntries(schema, cards, n).value)
    decreases n
  {
    PartnerEntriesStep(schema, cards, n);
    if n > 1 {
      PartnerEntriesAt(schema, cards, n - 1);
    }
    PartnerHandExtend(schema, cards, PartnerEntries(schema, cards, n - 1).value);
  }

  /**
   * The own hand always has five entries and the partner's hand one per
   * card; the entries are those SelfEntriesAt and PartnerEntriesAt describe.
   */
  lemma ConvertHands(schema: Object)
    ensures var r := ConvertState(schema);
      r.Ok? && r.value.Connected? ==>
        var cards := Get(schema, "cards");
        cards.Arr?
        && SelfEntries(schema, 5) == Ok(r.value.hands.self)
        && PartnerEntries(schema, cards.items, |cards.items|) == Ok(r.value.hands.partner)
        && |r.value.hands.self| == 5 && |r.value.hands.partner| == |cards.items|
        && r.value.hands.partnerKey == "player" + ToStr(Get(schema, "partnerId"))
  {
  }

  /** Setting a key no entry has appends the pair. */
  lemma {:induction false} MapSetFresh(entries: seq<(Value, Value)>, k: Value, v: Value)
    requires forall i :: 0 <= i < |entries| ==> !SameKey(entries[i].0, k)
    ensures MapSet(entries, k, v) == entries + [(k, v)]
    decreases |entries|
  {
    if |entries| > 0 {
      MapSetFresh(entries[1..], k, v);
      assert [entries[0]] + (entries[1..] + [(k, v)]) == entries + [(k, v)];
    }
  }

  /** Pairs whose keys print differently. */
  predicate DistinctKeys(pairs: seq<(Value, Value)>) {
    forall i, j :: 0 <= i < j < |pairs| ==> ToStr(pairs[i].0) != ToStr(pairs[j].0)
  }

  /** A Map built from pairs with distinct keys holds the pairs in order. */
  lemma {:induction false} NewMapDistinct(pairs: seq<(Value, Value)>)
    requires DistinctKeys(pairs)
    ensures NewMap(pairs) == pairs
    decreases |pairs|
  {
    if |pairs| > 0 {
      var init := pairs[..|pairs| - 1];
      assert DistinctKeys(init);
      NewMapDistinct(init);
      var last := pairs[|pairs| - 1];
      assert forall i :: 0 <= i < |init| ==> !SameKey(init[i].0, last.0) by {
        forall i | 0 <= i < |init| ensures !SameKey(init[i].0, last.0) {
          assert ToStr(pairs[i].0) != ToStr(pairs[|pairs| - 1].0);
        }
      }
      MapSetFresh(init, last.0, last.1);
      assert init + [last] == pairs;
    }
  }

  /** fromEntries of pairs with distinct keys maps each key's string form to its value. */
  lemma {:induction false} FromEntriesHas(pairs: seq<(Value, Value)>)
    requires DistinctKeys(pairs)
    ensures var o := FromEntries(pairs);
      forall i :: 0 <= i < |pairs| ==> ToStr(pairs[i].0) in o && o[ToStr(pairs[i].0)] == pairs[i].1
    decreases |pairs|
  {
    if |pairs| > 0 {
      var init := pairs[..|pairs| - 1];
      assert DistinctKeys(init);
      FromEntriesHas(init);
      var o := FromEntries(pairs);
      forall i | 0 <= i < |pairs| ensures ToStr(pairs[i].0) in o && o[ToStr(pairs[i].0)] == pairs[i].1 {
        if i < |init| {
          assert pairs[i] == init[i];
          assert ToStr(pairs[i].0) != ToStr(pairs[|pairs| - 1].0);
        }
      }
    }
  }

  /** `k` is the string form of one of the pairs' keys. */
  predicate KeyOf(pairs: seq<(Value, Value)>, k: string) {
    exists i :: 0 <= i < |pairs| && k == ToStr(pairs[i].0)
  }

  /** fromEntries has no key but the string forms of the pairs' keys. */
  lemma {:induction false} FromEntriesOnly(pairs: seq<(Value, Value)>)
    ensures forall k :: k in FromEntries(pairs) ==> KeyOf(pairs, k)
    decreases |pairs|
  {
    if |pairs| > 0 {
      var init := pairs[..|pairs| - 1];
      FromEntriesOnly(init);
      forall k | k in FromEntries(pairs) ensures KeyOf(pairs, k) {
        if k != ToStr(pairs[|pairs| - 1].0) {
          assert KeyOf(init, k);
          var i :| 0 <= i < |init| && k == ToStr(init[i].0);
          assert k == ToStr(pairs[i].0);
        } else {
          assert k == ToStr(pairs[|pairs| - 1].0);
        }
      }
    }
  }

  /** Entry idx of the pile pairs is `[colors[idx], piles[idx]]`. */
  lemma {:induction false} PilePairsAt(schema: Object, n: nat)
    ensures var r := PilePairs(schema, n);
      r.Ok? ==> forall i :: 0 <= i < n ==>
        r.value[i] == (Index(Get(schema, "colors"), Num(i)).value, Index(Get(schema, "piles"), Num(i)).value)
    decreases n
  {
    if n > 0 {
      PilePairsAt(schema, n - 1);
    }
  }

  /** The five colour names, as `placed` keys them. */
  function ColorKey(schema: Object, i: int): string
    requires Index(Get(schema, "colors"), Num(i)).Ok?
  {
    ToStr(Index(Get(schema, "colors"), Num(i)).value)
  }

  /**
   * With five colour names that are distinct as strings, `placed` maps
   * colors[i] to piles[i] for i in 0..4, and has no other keys.
   */
  lemma ConvertPlaced(schema: Object)
    ensures var r := ConvertState(schema);
      r.Ok? && r.value.Connected?
      && (forall i, j :: 0 <= i < j < 5 ==> ColorKey(schema, i) != ColorKey(schema, j))
      ==>
        (forall i :: 0 <= i < 5 ==>
           ColorKey(schema, i) in r.value.placed
           && r.value.placed[ColorKey(schema, i)] == Index(Get(schema, "piles"), Num(i)).value)
        && forall k :: k in r.value.placed ==> exists i :: 0 <= i < 5 && k == ColorKey(schema, i)
  {
    var r := ConvertState(schema);
    if r.Ok? && r.value.Connected? && (forall i, j :: 0 <= i < j < 5 ==> ColorKey(schema, i) != ColorKey(schema, j)) {
      PlacedFromPairs(schema);
      PilePairsAt(schema, 5);
      PlacedOfPairs(schema, PilePairs(schema, 5).value);
    }
  }

  /** The object built from the five pile pairs, when the colour names are distinct. */
  lemma PlacedOfPairs(schema: Object, pairs: seq<(Value, Value)>)
    requires |pairs| == 5
    requires forall i :: 0 <= i < 5 ==>
      Index(Get(schema, "colors"), Num(i)).Ok? && Index(Get(schema, "piles"), Num(i)).Ok?
      && pairs[i] == (Index(Get(schema, "colors"), Num(i)).value, Index(Get(schema, "piles"), Num(i)).value)
    requires forall i, j :: 0 <= i < j < 5 ==> ColorKey(schema, i) != ColorKey(schema, j)
    ensures var placed := FromEntries(NewMap(pairs));
      (forall i :: 0 <= i < 5 ==>
         ColorKey(schema, i) in placed && placed[ColorKey(schema, i)] == Index(Get(schema, "piles"), Num(i)).value)
      && forall k :: k in placed ==> exists i :: 0 <= i < 5 && k == ColorKey(schema, i)
  {
    forall i, j | 0 <= i < j < 5 ensures ToStr(pairs[i].0) != ToStr(pairs[j].0) {
      assert ToStr(pairs[i].0) == ColorKey(schema, i) && ToStr(pairs[j].0) == ColorKey(schema, j);
    }
    NewMapDistinct(pairs);
    var placed := FromEntries(pairs);
    FromEntriesHas(pairs);
    FromEntriesOnly(pairs);
    forall i | 0 <= i < 5
      ensures ColorKey(schema, i) in placed && placed[ColorKey(schema, i)] == Index(Get(schema, "piles"), Num(i)).value
    {
      assert ToStr(pairs[i].0) == ColorKey(schema, i);
    }
    forall k | k in placed ensures exists i :: 0 <= i < 5 && k == ColorKey(schema, i) {
      var i :| 0 <= i < |pairs| && k == ToStr(pairs[i].0);
      assert k == ColorKey(schema, i);
    }
  }

  lemma PlacedFromPairs(schema: Object)
    ensures var r := ConvertState(schema);
      r.Ok? && r.value.Connected? ==>
        PilePairs(schema, 5).Ok? && r.value.placed == FromEntries(NewMap(PilePairs(schema, 5).value))
  {
    var r := ConvertState(schema);
    if r.Ok? && r.value.Connected? {
      assert Truthy(Get(schema, "isConnected")) && Get(schema, "cards").Arr?;
      assert ConvertCards(Get(schema, "discards")).Ok? && SelfEntries(schema, 5).Ok?;
      var cards := Get(schema, "cards").items;
      assert PartnerEntries(schema, cards, |cards|).Ok?;
    }
  }

  /**
   * What the server's messages provide is enough: with readable id, card,
   * prediction, colour and pile arrays, and arrays of discards and of
   * partner cards, a connected state converts without throwing.
   */
  predicate WellShaped(schema: Object) {
    Get(schema, "discards").Arr? && Get(schema, "cards").Arr?
    && Readable(Get(schema, "cheatMyCards")) && Readable(Get(schema, "cardsIds"))
    && Readable(Get(schema, "partnerCardsIds"))
    && Readable(Get(schema, "colors")) && Readable(Get(schema, "piles"))
    && Readable(Get(schema, "predictions"))
    && (var own := Index(Get(schema, "predictions"), Get(schema, "playerId")); own.Ok? && Readable(own.value))
    && (var theirs := Index(Get(schema, "predictions"), Get(schema, "partnerId")); theirs.Ok? && Readable(theirs.value))
  }

  lemma {:induction false} SelfEntriesOk(schema: Object, n: nat)
    requires WellShaped(schema)
    ensures SelfEntries(schema, n).Ok?
    decreases n
  {
    if n > 0 {
      SelfEntriesOk(schema, n - 1);
    }
  }

  lemma {:induction false} PartnerEntriesOk(schema: Object, cards: seq<Value>, n: nat)
    requires WellShaped(schema) && n <= |cards|
    ensures PartnerEntries(schema, cards, n).Ok?
    decreases n
  {
    if n > 0 {
      PartnerEntriesOk(schema, cards, n - 1);
    }
  }

  lemma {:induction false} PilePairsOk(schema: Object, n: nat)
    requires WellShaped(schema)
    ensures PilePairs(schema, n).Ok?
    decreases n
  {
    if n > 0 {
      PilePairsOk(schema, n - 1);
    }
  }

  /** A connected, well-shaped state converts; one that is not connected converts to `{}`. */
  lemma ConvertSucceeds(schema: Object)
    requires WellShaped(schema)
    ensures ConvertState(schema).Ok?
    ensures ConvertState(schema).value.Connected? <==> Truthy(Get(schema, "isConnected"))
  {
    SelfEntriesOk(schema, 5);
    var cards := Get(schema, "cards");
    PartnerEntriesOk(schema, cards.items, |cards.items|);
    PilePairsOk(schema, 5);
  }
}
