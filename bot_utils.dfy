/**
 * Utilities shared by the bots: moves and their order, the legal moves of a
 * turn, deck compositions, the dense action index, the 2-bit packed arrays,
 * the factorized per-slot beliefs and the mock server that records a move
 * instead of making it.
 */
module BotUtils {
  import opened Wrappers
  import opened Hanabi
  import opened HanabiServer
  import opened CppInt

  // ---------------------------------------------------------------------------
  // Moves
  // ---------------------------------------------------------------------------

  datatype MoveType = PLAY_CARD | DISCARD_CARD | HINT_COLOR | HINT_VALUE | INVALID_MOVE

  const NUMMOVETYPES := 5

  /** The enumerator's position in its declaration, which the move order compares. */
  function TypeRank(t: MoveType): (n: int)
    ensures 0 <= n < NUMMOVETYPES
  {
    match t
    case PLAY_CARD => 0
    case DISCARD_CARD => 1
    case HINT_COLOR => 2
    case HINT_VALUE => 3
    case INVALID_MOVE => 4
  }

  lemma TypeRankInjective(a: MoveType, b: MoveType)
    ensures TypeRank(a) == TypeRank(b) <==> a == b
  {
  }

  predicate IsHint(t: MoveType) { t == HINT_COLOR || t == HINT_VALUE }

  /** A move; `to` is the hinted player, and -1 for moves that are not hints. */
  datatype Move = Move(kind: MoveType, value: int, to: int)

  /** What the default constructor builds. */
  const NO_MOVE := Move(INVALID_MOVE, -1, -1)

  /** The constructor's assertion: a move names a target exactly when it is a hint. */
  predicate WellFormed(m: Move) { IsHint(m.kind) == (m.to != -1) }

  /**
   * Move(type, value, to): the move, or None where the constructor's
   * assertion stops the program.
   */
  function MakeMove(kind: MoveType, value: int, to: int): (r: Option<Move>)
    ensures r.Some? <==> (IsHint(kind) <==> to != -1)
    ensures r.Some? ==> r.value.kind == kind && r.value.value == value && r.value.to == to
    ensures r.Some? ==> WellFormed(r.value)
  {
    if IsHint(kind) == (to != -1) then Some(Move(kind, value, to)) else None
  }

  function PlayMove(index: int): Move { Move(PLAY_CARD, index, -1) }
  function DiscardMove(index: int): Move { Move(DISCARD_CARD, index, -1) }
  function ColorHintMove(color: int, to: int): Move { Move(HINT_COLOR, color, to) }
  function ValueHintMove(value: int, to: int): Move { Move(HINT_VALUE, value, to) }

  /** The two-argument constructor fills in -1 for the target. */
  lemma TwoArgumentMoves(index: int)
    ensures MakeMove(PLAY_CARD, index, -1) == Some(PlayMove(index))
    ensures MakeMove(DISCARD_CARD, index, -1) == Some(DiscardMove(index))
    ensures MakeMove(HINT_COLOR, index, -1).None? && MakeMove(HINT_VALUE, index, -1).None?
  {
  }

  /** operator<: lexicographic on (type, value, to). */
  predicate MoveLess(l: Move, r: Move) {
    TypeRank(l.kind) < TypeRank(r.kind)
    || (l.kind == r.kind && l.value < r.value)
    || (l.kind == r.kind && l.value == r.value && l.to < r.to)
  }

  /** operator== compares the same three fields; two moves are equal or ordered one way. */
  lemma MoveLessIsStrictTotalOrder(a: Move, b: Move, c: Move)
    ensures !MoveLess(a, a)
    ensures MoveLess(a, b) ==> !MoveLess(b, a)
    ensures MoveLess(a, b) && MoveLess(b, c) ==> MoveLess(a, c)
    ensures a == b || MoveLess(a, b) || MoveLess(b, a)
  {
    TypeRankInjective(a.kind, b.kind);
  }

  // ---------------------------------------------------------------------------
  // std::set<Move>: a strictly increasing sequence
  // ---------------------------------------------------------------------------

  predicate StrictlySorted(s: seq<Move>) {
    forall i, j :: 0 <= i < j < |s| ==> MoveLess(s[i], s[j])
  }

  function Elems(s: seq<Move>): set<Move> { set m | m in s }

  lemma ElemsConcat(a: seq<Move>, b: seq<Move>)
    ensures Elems(a + b) == Elems(a) + Elems(b)
  {
    assert forall m :: m in a + b <==> m in a || m in b;
  }

  /** Every element of a strictly increasing sequence is above its head. */
  lemma SortedHeadBelow(s: seq<Move>, m: Move)
    requires StrictlySorted(s) && s != [] && m in Elems(s[1..])
    ensures MoveLess(s[0], m)
  {
    var k :| 0 <= k < |s[1..]| && s[1..][k] == m;
    assert s[k + 1] == m;
  }

  /** std::set::insert, keeping the elements in order and each once. */
  function {:induction false} Insert(s: seq<Move>, m: Move): (r: seq<Move>)
    requires StrictlySorted(s)
    ensures StrictlySorted(r)
    ensures Elems(r) == Elems(s) + {m}
  {
    if s == [] then [m]
    else if m == s[0] then s
    else if MoveLess(m, s[0]) then
      assert forall j :: 0 <= j < |s| ==> MoveLess(m, s[j]) by {
        forall j | 0 <= j < |s| ensures MoveLess(m, s[j]) {
          if j > 0 { MoveLessIsStrictTotalOrder(m, s[0], s[j]); }
        }
      }
      ElemsConcat([m], s);
      [m] + s
    else
      MoveLessIsStrictTotalOrder(m, s[0], m);
      var tail := Insert(s[1..], m);
      assert s == [s[0]] + s[1..];
      ElemsConcat([s[0]], s[1..]);
      ElemsConcat([s[0]], tail);
      assert forall j :: 0 <= j < |tail| ==> MoveLess(s[0], tail[j]) by {
        forall j | 0 <= j < |tail| ensures MoveLess(s[0], tail[j]) {
          assert tail[j] in Elems(tail);
          if tail[j] != m { SortedHeadBelow(s, tail[j]); }
        }
      }
      [s[0]] + tail
  }

  // ---------------------------------------------------------------------------
  // Legal moves
  // ---------------------------------------------------------------------------

  function PlaySet(n: int): set<Move> { set i | 0 <= i < n :: PlayMove(i) }

  function DiscardSet(n: int, allowed: bool): set<Move> {
    if allowed then set i | 0 <= i < n :: DiscardMove(i) else {}
  }

  /** The colour and value hints that name some card of `hand`, aimed at player p. */
  function HandHints(hand: seq<Card>, p: int): set<Move> {
    (set c | c in hand :: ColorHintMove(c.color, p)) + (set c | c in hand :: ValueHintMove(c.value, p))
  }

  /** The hints to the players 0..n-1 other than `me`. */
  function PartnerHints(hands: seq<seq<Card>>, me: int, n: int): set<Move>
    requires 0 <= n <= |hands|
  {
    if n == 0 then {}
    else PartnerHints(hands, me, n - 1) + (if n - 1 == me then {} else HandHints(hands[n - 1], n - 1))
  }

  /** The moves enumerateLegalMoves offers, as a set. */
  function LegalMoves(ownSize: int, discardOk: bool, hands: seq<seq<Card>>, me: int, stones: int): set<Move> {
    PlaySet(ownSize) + DiscardSet(ownSize, discardOk)
    + (if stones > 0 then PartnerHints(hands, me, |hands|) else {})
  }

  lemma {:induction false} PartnerHintsMember(hands: seq<seq<Card>>, me: int, n: int, m: Move)
    requires 0 <= n <= |hands|
    ensures m in PartnerHints(hands, me, n) <==>
            IsHint(m.kind) && 0 <= m.to < n && m.to != me
            && exists k :: 0 <= k < |hands[m.to]|
                 && m.value == (if m.kind == HINT_COLOR then hands[m.to][k].color else hands[m.to][k].value)
    decreases n
  {
    if n > 0 {
      PartnerHintsMember(hands, me, n - 1, m);
      if m.to == n - 1 && n - 1 != me && IsHint(m.kind) {
        var hand := hands[n - 1];
        if exists k :: 0 <= k < |hand| && m.value == (if m.kind == HINT_COLOR then hand[k].color else hand[k].value) {
          var k :| 0 <= k < |hand| && m.value == (if m.kind == HINT_COLOR then hand[k].color else hand[k].value);
          assert hand[k] in hand;
        }
      }
    }
  }

  /**
   * The legal moves, stated independently: a play of every own index, a
   * discard of every own index when discarding is allowed, and — only while
   * a hint stone is left — colour and value hints to every other player
   * naming a colour or a value present in that player's hand.
   */
  lemma LegalMovesCharacterised(ownSize: int, discardOk: bool, hands: seq<seq<Card>>, me: int,
                                stones: int, m: Move)
    ensures m in LegalMoves(ownSize, discardOk, hands, me, stones) <==>
            (m.kind == PLAY_CARD && 0 <= m.value < ownSize && m.to == -1)
            || (m.kind == DISCARD_CARD && discardOk && 0 <= m.value < ownSize && m.to == -1)
            || (IsHint(m.kind) && stones > 0 && 0 <= m.to < |hands| && m.to != me
                && exists k :: 0 <= k < |hands[m.to]|
                     && m.value == (if m.kind == HINT_COLOR then hands[m.to][k].color else hands[m.to][k].value))
  {
    PartnerHintsMember(hands, me, |hands|, m);
    if m.kind == PLAY_CARD && 0 <= m.value < ownSize && m.to == -1 {
      assert m == PlayMove(m.value);
    }
    if m.kind == DISCARD_CARD && discardOk && 0 <= m.value < ownSize && m.to == -1 {
      assert m == DiscardMove(m.value);
    }
  }

  /** The first loop of enumerateLegalMoves: a play, and a discard if allowed, per own index. */
  method InsertOwnMoves(ownSize: nat, discardOk: bool) returns (moves: seq<Move>)
    ensures StrictlySorted(moves)
    ensures Elems(moves) == PlaySet(ownSize) + DiscardSet(ownSize, discardOk)
  {
    moves := [];
    var i := 0;
    while i < ownSize
      invariant 0 <= i <= ownSize
      invariant StrictlySorted(moves)
      invariant Elems(moves) == PlaySet(i) + DiscardSet(i, discardOk)
    {
      assert PlaySet(i + 1) == PlaySet(i) + {PlayMove(i)};
      assert DiscardSet(i + 1, discardOk) == DiscardSet(i, discardOk) + (if discardOk then {DiscardMove(i)} else {});
      moves := Insert(moves, PlayMove(i));
      if discardOk {
        moves := Insert(moves, DiscardMove(i));
      }
      i := i + 1;
    }
  }

  lemma HandHintsSnoc(hand: seq<Card>, k: int, p: int)
    requires 0 <= k < |hand|
    ensures HandHints(hand[..k + 1], p)
            == HandHints(hand[..k], p) + {ColorHintMove(hand[k].color, p), ValueHintMove(hand[k].value, p)}
  {
    assert hand[..k + 1] == hand[..k] + [hand[k]];
    assert forall c :: c in hand[..k + 1] <==> c in hand[..k] || c == hand[k];
  }

  /** The body of the inner loop: both hints naming one card, when a stone is left. */
  method InsertCardHints(moves0: seq<Move>, card: Card, p: int, stones: int) returns (moves: seq<Move>)
    requires StrictlySorted(moves0)
    ensures StrictlySorted(moves)
    ensures Elems(moves)
            == Elems(moves0) + (if stones > 0 then {ColorHintMove(card.color, p), ValueHintMove(card.value, p)} else {})
  {
    moves := moves0;
    if stones > 0 {
      moves := Insert(moves, ColorHintMove(card.color, p));
      moves := Insert(moves, ValueHintMove(card.value, p));
    }
  }

  /** The inner loop over a partner's hand: both hints for every card, when a stone is left. */
  method InsertHandHints(moves0: seq<Move>, hand: seq<Card>, p: int, stones: int) returns (moves: seq<Move>)
    requires StrictlySorted(moves0)
    ensures StrictlySorted(moves)
    ensures Elems(moves) == Elems(moves0) + (if stones > 0 then HandHints(hand, p) else {})
  {
    moves := moves0;
    var k := 0;
    while k < |hand|
      invariant 0 <= k <= |hand|
      invariant StrictlySorted(moves)
      invariant Elems(moves) == Elems(moves0) + (if stones > 0 then HandHints(hand[..k], p) else {})
    {
      HandHintsSnoc(hand, k, p);
      moves := InsertCardHints(moves, hand[k], p, stones);
      k := k + 1;
    }
    assert hand[..k] == hand;
  }

  /** enumerateLegalMoves: the legal moves of the observing player, in move order, each once. */
  method EnumerateLegalMoves(s: Server) returns (moves: seq<Move>)
    requires s.Valid() && 0 <= s.observingPlayer < s.numPlayers
    ensures StrictlySorted(moves)
    ensures Elems(moves)
            == LegalMoves(|s.hands[s.observingPlayer]|, s.DiscardingIsAllowed(), s.hands,
                          s.observingPlayer, s.hintStonesRemaining)
  {
    var me := s.observingPlayer;
    var own := s.SizeOfHandOfPlayer(me);
    moves := InsertOwnMoves(own.value, s.DiscardingIsAllowed());
    ghost var base := Elems(moves);
    var p := 0;
    while p < s.numPlayers
      invariant 0 <= p <= s.numPlayers
      invariant StrictlySorted(moves)
      invariant Elems(moves)
                == base + (if s.hintStonesRemaining > 0 then PartnerHints(s.hands, me, p) else {})
    {
      if p != me {
        var partner := s.HandOfPlayer(p);
        moves := InsertHandHints(moves, partner.value, p, s.hintStonesRemaining);
      }
      p := p + 1;
    }
  }

  // ---------------------------------------------------------------------------
  // Deck compositions
  // ---------------------------------------------------------------------------

  /** std::map<Card, int>: how many copies of each card are left. */
  type DeckComposition = map<Card, int>

  /** std::map::operator[] reads a card that is not yet a key as 0. */
  function Get(d: DeckComposition, c: Card): int { if c in d then d[c] else 0 }

  /** The composition after one more copy of each of `cards`. */
  function Added(d: DeckComposition, cards: seq<Card>): DeckComposition
    decreases |cards|
  {
    if cards == [] then d
    else
      var prev := Added(d, cards[..|cards| - 1]);
      var c := cards[|cards| - 1];
      prev[c := Get(prev, c) + 1]
  }

  /** The composition after one copy less of each of `cards`. */
  function Removed(d: DeckComposition, cards: seq<Card>): DeckComposition
    decreases |cards|
  {
    if cards == [] then d
    else
      var prev := Removed(d, cards[..|cards| - 1]);
      var c := cards[|cards| - 1];
      prev[c := Get(prev, c) - 1]
  }

  lemma {:induction false} AddedCounts(d: DeckComposition, cards: seq<Card>)
    ensures forall c :: Get(Added(d, cards), c) == Get(d, c) + multiset(cards)[c]
    ensures Added(d, cards).Keys == d.Keys + set c | c in cards
    decreases |cards|
  {
    if cards != [] {
      var front := cards[..|cards| - 1];
      assert cards == front + [cards[|cards| - 1]];
      AddedCounts(d, front);
    }
  }

  lemma {:induction false} RemovedCounts(d: DeckComposition, cards: seq<Card>)
    ensures forall c :: Get(Removed(d, cards), c) == Get(d, c) - multiset(cards)[c]
    ensures Removed(d, cards).Keys == d.Keys + set c | c in cards
    decreases |cards|
  {
    if cards != [] {
      var front := cards[..|cards| - 1];
      assert cards == front + [cards[|cards| - 1]];
      RemovedCounts(d, front);
    }
  }

  /** The condition removeFromDeck asserts: no count goes below zero. */
  predicate CanRemove(d: DeckComposition, cards: seq<Card>) {
    forall c | c in cards :: multiset(cards)[c] <= Get(d, c)
  }

  /** Removing cards and adding them back restores the composition exactly. */
  lemma RemoveThenAddRestores(d: DeckComposition, cards: seq<Card>)
    requires CanRemove(d, cards)
    ensures Added(Removed(d, cards), cards) == d
  {
    RemovedCounts(d, cards);
    AddedCounts(Removed(d, cards), cards);
    var r := Added(Removed(d, cards), cards);
    forall c | c in cards ensures c in d {
      assert multiset(cards)[c] > 0;
    }
    assert r.Keys == d.Keys;
    forall c | c in d ensures r[c] == d[c] {
      assert Get(r, c) == Get(d, c);
    }
  }

  /** addToDeck: one more copy of every card in `cards`. */
  method AddToDeck(cards: seq<Card>, deck0: DeckComposition) returns (deck: DeckComposition)
    ensures deck == Added(deck0, cards)
  {
    deck := deck0;
    var i := 0;
    while i < |cards|
      invariant 0 <= i <= |cards|
      invariant deck == Added(deck0, cards[..i])
    {
      assert cards[..i + 1][..i] == cards[..i];
      var card := cards[i];
      deck := deck[card := Get(deck, card) + 1];
      i := i + 1;
    }
    assert cards[..i] == cards;
  }

  /** removeFromDeck: one copy less of every card in `cards`; the source asserts no count turns negative. */
  method RemoveFromDeck(cards: seq<Card>, deck0: DeckComposition) returns (deck: DeckComposition)
    requires CanRemove(deck0, cards)
    ensures deck == Removed(deck0, cards)
  {
    deck := deck0;
    var i := 0;
    while i < |cards|
      invariant 0 <= i <= |cards|
      invariant deck == Removed(deck0, cards[..i])
    {
      assert cards[..i + 1][..i] == cards[..i];
      var card := cards[i];
      RemovedStaysNonNegative(deck0, cards, i);
      deck := deck[card := Get(deck, card) - 1];
      if Get(deck, card) < 0 {
        assert false;
      }
      i := i + 1;
    }
    assert cards[..i] == cards;
  }

  lemma RemovedStaysNonNegative(d: DeckComposition, cards: seq<Card>, i: int)
    requires CanRemove(d, cards) && 0 <= i < |cards|
    ensures Get(Removed(d, cards[..i]), cards[i]) >= 1
  {
    RemovedCounts(d, cards[..i]);
    var x := cards[i];
    assert cards[..i + 1] == cards[..i] + [x];
    assert cards == cards[..i + 1] + cards[i + 1..];
    var before, upto, all := multiset(cards[..i]), multiset(cards[..i + 1]), multiset(cards);
    assert upto == before + multiset{x};
    assert all == upto + multiset(cards[i + 1..]);
    assert before[x] + 1 <= all[x];
  }

  /** The full composition: every valid card with its number of copies. */
  ghost predicate IsFullComposition(d: DeckComposition) {
    (forall c :: c in d <==> ValidCard(c)) && forall c | c in d :: d[c] == Count(c)
  }

  method FullComposition() returns (deck: DeckComposition)
    ensures IsFullComposition(deck)
  {
    deck := map[];
    var color := RED;
    while color < NUMCOLORS
      invariant RED <= color <= NUMCOLORS
      invariant forall c :: c in deck <==> ValidCard(c) && c.color < color
      invariant forall c | c in deck :: deck[c] == Count(c)
    {
      var value := 1;
      while value <= VALUE_MAX
        invariant 1 <= value <= VALUE_MAX + 1
        invariant forall c :: c in deck <==> ValidCard(c) && (c.color < color || (c.color == color && c.value < value))
        invariant forall c | c in deck :: deck[c] == Count(c)
      {
        var c := Card(color, value);
        deck := deck[c := Count(c)];
        value := value + 1;
      }
      color := color + 1;
    }
  }

  /** Whether card c is among the cards already played on the piles. */
  predicate OnPiles(piles: seq<Pile>, c: Card)
    requires ValidPiles(piles)
  {
    ValidCard(c) && PileContains(piles[c.color], c.value)
  }

  /** The hands of players 0..n-1 other than `who`; none at all when who == -1. */
  function OtherHands(hands: seq<seq<Card>>, who: int, n: int): multiset<Card>
    requires 0 <= n <= |hands|
  {
    if n == 0 then multiset{}
    else OtherHands(hands, who, n - 1) + (if who == -1 || n - 1 == who then multiset{} else multiset(hands[n - 1]))
  }

  /** The cards of the piles, colour by colour, lowest value first. */
  method PileCards(piles: seq<Pile>) returns (cards: seq<Card>)
    requires ValidPiles(piles)
    ensures AllValid(cards)
    ensures forall c :: multiset(cards)[c] == if OnPiles(piles, c) then 1 else 0
  {
    cards := [];
    var color := RED;
    while color < NUMCOLORS
      invariant RED <= color <= NUMCOLORS && AllValid(cards)
      invariant forall c :: multiset(cards)[c] == if OnPiles(piles, c) && c.color < color then 1 else 0
    {
      var value := 1;
      while value <= VALUE_MAX
        invariant 1 <= value <= VALUE_MAX + 1 && AllValid(cards)
        invariant forall c :: multiset(cards)[c]
                    == if OnPiles(piles, c) && (c.color < color || (c.color == color && c.value < value)) then 1 else 0
      {
        if PileContains(piles[color], value) {
          cards := cards + [Card(color, value)];
        }
        value := value + 1;
      }
      color := color + 1;
    }
  }

  /**
   * What getCurrentDeckComposition leaves for a card: its copies, less the
   * discarded ones, the ones in the hands of the players other than `who`
   * and the one on its pile.
   */
  function Remaining(discards: seq<Card>, hands: seq<seq<Card>>, who: int, piles: seq<Pile>, c: Card): int
    requires ValidPiles(piles) && ValidCard(c)
  {
    Count(c) - multiset(discards)[c] - OtherHands(hands, who, |hands|)[c] - (if OnPiles(piles, c) then 1 else 0)
  }

  /** The cards seen by `who` (everyone's but its own) fit in the full deck. */
  ghost predicate Conserved(discards: seq<Card>, hands: seq<seq<Card>>, who: int, piles: seq<Pile>)
    requires ValidPiles(piles)
  {
    forall c :: ValidCard(c) ==> Remaining(discards, hands, who, piles, c) >= 0
  }

  lemma {:induction false} OtherHandsGrow(hands: seq<seq<Card>>, who: int, m: int, n: int, c: Card)
    requires 0 <= m <= n <= |hands|
    ensures OtherHands(hands, who, m)[c] <= OtherHands(hands, who, n)[c]
    decreases n - m
  {
    if m < n {
      OtherHandsGrow(hands, who, m, n - 1, c);
    }
  }

  /** The discarded cards taken out of the full composition (the first step of getCurrentDeckComposition). */
  ghost predicate CountsAfterDiscards(discards: seq<Card>, deck: DeckComposition) {
    (forall c :: c in deck <==> ValidCard(c))
    && forall c | ValidCard(c) :: deck[c] == Count(c) - multiset(discards)[c]
  }

  lemma DiscardsRemovable(discards: seq<Card>, hands: seq<seq<Card>>, who: int, piles: seq<Pile>,
                          full: DeckComposition)
    requires ValidPiles(piles) && AllValid(discards)
    requires Conserved(discards, hands, who, piles) && IsFullComposition(full)
    ensures CanRemove(full, discards)
    ensures CountsAfterDiscards(discards, Removed(full, discards))
  {
    forall c | c in discards ensures multiset(discards)[c] <= Get(full, c) {
      assert ValidCard(c);
      assert Remaining(discards, hands, who, piles, c) >= 0;
    }
    RemovedCounts(full, discards);
  }

  /** The composition after removing the hands of players 0..n-1 other than `who`. */
  function RemovedHands(d: DeckComposition, hands: seq<seq<Card>>, who: int, n: int): DeckComposition
    requires 0 <= n <= |hands|
  {
    if n == 0 then d
    else
      var prev := RemovedHands(d, hands, who, n - 1);
      if who == -1 || n - 1 == who then prev else Removed(prev, hands[n - 1])
  }

  lemma {:induction false} RemovedHandsCounts(d: DeckComposition, hands: seq<seq<Card>>, who: int, n: int)
    requires 0 <= n <= |hands| && forall p :: 0 <= p < |hands| ==> AllValid(hands[p])
    requires forall c :: c in d <==> ValidCard(c)
    ensures var r := RemovedHands(d, hands, who, n);
            (forall c :: c in r <==> ValidCard(c))
            && forall c :: Get(r, c) == Get(d, c) - OtherHands(hands, who, n)[c]
  {
    if n > 0 {
      RemovedHandsCounts(d, hands, who, n - 1);
      if !(who == -1 || n - 1 == who) {
        RemovedCounts(RemovedHands(d, hands, who, n - 1), hands[n - 1]);
      }
    }
  }

  /** One step of the player loop: removing player p's hand keeps every count non-negative. */
  lemma HandRemovable(discards: seq<Card>, hands: seq<seq<Card>>, who: int, piles: seq<Pile>, p: int,
                      d: DeckComposition)
    requires ValidPiles(piles) && 0 <= p < |hands| && forall q :: 0 <= q < |hands| ==> AllValid(hands[q])
    requires who != -1 && p != who
    requires Conserved(discards, hands, who, piles) && CountsAfterDiscards(discards, d)
    ensures CanRemove(RemovedHands(d, hands, who, p), hands[p])
  {
    var hand := hands[p];
    RemovedHandsCounts(d, hands, who, p);
    forall c | c in hand ensures multiset(hand)[c] <= Get(RemovedHands(d, hands, who, p), c) {
      OtherHandsBound(hands, who, p, c);
      assert ValidCard(c);
      assert Remaining(discards, hands, who, piles, c) >= 0;
    }
  }

  /** A hand other than `who`'s counts towards the cards `who` sees. */
  lemma OtherHandsBound(hands: seq<seq<Card>>, who: int, p: int, c: Card)
    requires 0 <= p < |hands| && who != -1 && p != who
    ensures OtherHands(hands, who, p)[c] + multiset(hands[p])[c] <= OtherHands(hands, who, |hands|)[c]
  {
    var before, after := OtherHands(hands, who, p), OtherHands(hands, who, p + 1);
    assert after[c] == before[c] + multiset(hands[p])[c];
    OtherHandsGrow(hands, who, p + 1, |hands|, c);
    assert after[c] <= OtherHands(hands, who, |hands|)[c];
  }

  /** Every hand the player loop removes fits in what the earlier steps left. */
  ghost predicate HandsRemovable(d: DeckComposition, hands: seq<seq<Card>>, who: int) {
    forall p | 0 <= p < |hands| :: RemovableAt(d, hands, who, p)
  }

  /** The hand the player loop removes at step p fits in what the earlier steps left. */
  ghost predicate RemovableAt(d: DeckComposition, hands: seq<seq<Card>>, who: int, p: int)
    requires 0 <= p < |hands|
  {
    who != -1 && p != who ==> CanRemove(RemovedHands(d, hands, who, p), hands[p])
  }

  lemma AllHandsRemovable(discards: seq<Card>, hands: seq<seq<Card>>, who: int, piles: seq<Pile>,
                          d: DeckComposition)
    requires ValidPiles(piles) && forall q :: 0 <= q < |hands| ==> AllValid(hands[q])
    requires Conserved(discards, hands, who, piles) && CountsAfterDiscards(discards, d)
    ensures HandsRemovable(d, hands, who)
  {
    forall p | 0 <= p < |hands|
      ensures RemovableAt(d, hands, who, p)
    {
      if who != -1 && p != who {
        HandRemovable(discards, hands, who, piles, p, d);
      }
    }
  }

  /**
   * The player loop of getCurrentDeckComposition. handOfPlayer raises the
   * engine's error for the observing player's own hand.
   */
  method RemoveOtherHands(hands: seq<seq<Card>>, who: int, observer: int, deck0: DeckComposition)
    returns (r: Result<DeckComposition, Error>)
    requires HandsRemovable(deck0, hands, who)
    ensures r.Err? <==> who != -1 && 0 <= observer < |hands| && observer != who
    ensures r.Err? ==> r.error == CannotObserveOwnHand
    ensures r.Ok? ==> r.value == RemovedHands(deck0, hands, who, |hands|)
  {
    var deck := deck0;
    var player := 0;
    while player < |hands|
      invariant 0 <= player <= |hands|
      invariant deck == RemovedHands(deck0, hands, who, player)
      invariant who != -1 && 0 <= observer < player ==> observer == who
    {
      var refused;
      refused, deck := RemoveHandOf(hands, who, observer, deck0, player, deck);
      if refused {
        return Err(CannotObserveOwnHand);
      }
      player := player + 1;
    }
    return Ok(deck);
  }

  /** One step of the player loop: player's hand leaves the deck, unless it is the observer's own. */
  method RemoveHandOf(hands: seq<seq<Card>>, who: int, observer: int, deck0: DeckComposition, player: int,
                      deck: DeckComposition) returns (refused: bool, next: DeckComposition)
    requires 0 <= player < |hands| && RemovableAt(deck0, hands, who, player)
    requires deck == RemovedHands(deck0, hands, who, player)
    ensures refused <==> who != -1 && player != who && player == observer
    ensures !refused ==> next == RemovedHands(deck0, hands, who, player + 1)
  {
    next := deck;
    refused := false;
    if who != -1 && player != who {
      if player == observer {
        return true, deck;
      }
      next := RemoveFromDeck(hands[player], deck);
    }
  }

  lemma PilesRemovable(discards: seq<Card>, hands: seq<seq<Card>>, who: int, piles: seq<Pile>,
                       d: DeckComposition, pileCards: seq<Card>)
    requires ValidPiles(piles) && Conserved(discards, hands, who, piles)
    requires forall p :: 0 <= p < |hands| ==> AllValid(hands[p])
    requires CountsAfterDiscards(discards, d)
    requires AllValid(pileCards)
    requires forall c :: multiset(pileCards)[c] == if OnPiles(piles, c) then 1 else 0
    ensures CanRemove(RemovedHands(d, hands, who, |hands|), pileCards)
    ensures var r := Removed(RemovedHands(d, hands, who, |hands|), pileCards);
            (forall c :: c in r <==> ValidCard(c))
            && forall c | ValidCard(c) :: r[c] == Remaining(discards, hands, who, piles, c)
  {
    var deck := RemovedHands(d, hands, who, |hands|);
    RemovedHandsCounts(d, hands, who, |hands|);
    forall c | c in pileCards ensures multiset(pileCards)[c] <= Get(deck, c) {
      assert Remaining(discards, hands, who, piles, c) >= 0;
    }
    RemovedCounts(deck, pileCards);
  }

  /**
   * getCurrentDeckComposition: the full counts, less the discards, the
   * hands of every player other than `who` (no hand at all for who == -1)
   * and the cards on the piles. Reading the hand of the observing player
   * raises the engine's error. The source asserts that no count turns
   * negative, which is what Conserved requires.
   */
  method GetCurrentDeckComposition(s: Server, who: int) returns (r: Result<DeckComposition, Error>)
    requires s.Valid() && Conserved(s.discards, s.hands, who, s.piles)
    ensures r.Err? <==> who != -1 && 0 <= s.observingPlayer < s.numPlayers && s.observingPlayer != who
    ensures r.Err? ==> r.error == CannotObserveOwnHand
    ensures r.Ok? ==> (forall c :: c in r.value <==> ValidCard(c))
                      && forall c | ValidCard(c) :: r.value[c] == Remaining(s.discards, s.hands, who, s.piles, c)
  {
    var deck := FullComposition();
    DiscardsRemovable(s.discards, s.hands, who, s.piles, deck);
    deck := RemoveFromDeck(s.discards, deck);
    var afterDiscards := deck;
    AllHandsRemovable(s.discards, s.hands, who, s.piles, deck);
    r := RemoveOtherHands(s.hands, who, s.observingPlayer, deck);
    if r.Err? {
      return;
    }
    deck := r.value;
    var pileCards := PileCards(s.piles);
    PilesRemovable(s.discards, s.hands, who, s.piles, afterDiscards, pileCards);
    deck := RemoveFromDeck(pileCards, deck);
    r := Ok(deck);
  }

  // ---------------------------------------------------------------------------
  // Dense indices
  // ---------------------------------------------------------------------------

  /** cardToIndex: colour-major, the value counted from one. */
  function CardToIndex(c: Card): (i: int)
    ensures ValidCard(c) ==> 0 <= i < 25
  {
    c.color * 5 + c.value - 1
  }

  /** indexToCard, with the source's truncating division and remainder. */
  function IndexToCard(i: int): (c: Card)
    ensures 0 <= i < 25 ==> ValidCard(c)
  {
    Card(TruncDiv(i, 5), TruncRem(i, 5) + 1)
  }

  lemma CardIndexRoundTrip(c: Card)
    requires ValidCard(c)
    ensures IndexToCard(CardToIndex(c)) == c
  {
    TruncByFive(c.color, c.value - 1);
  }

  /** cardToIndex undoes indexToCard for every int, negative ones included. */
  lemma IndexCardRoundTrip(i: int)
    ensures CardToIndex(IndexToCard(i)) == i
  {
    TruncDivRem(i, 5);
  }

  /** The distance from `me` to the hinted player, counted round the table. */
  function TargetOffset(to: int, me: int, numPlayers: int): int
    requires numPlayers >= 1
  {
    TruncRem(to + numPlayers - me, numPlayers)
  }

  lemma TargetOffsetOfOther(to: int, me: int, numPlayers: int)
    requires 0 <= me < numPlayers && 0 <= to < numPlayers && to != me
    ensures TargetOffset(to, me, numPlayers) == if to > me then to - me else to - me + numPlayers
    ensures 1 <= TargetOffset(to, me, numPlayers) < numPlayers
  {
    var a := to + numPlayers - me;
    if to > me {
      RemainderOnce(a, numPlayers);
    } else {
      RemainderBelow(a, numPlayers);
    }
  }

  lemma RemainderBelow(a: int, n: int)
    requires 0 <= a < n
    ensures a % n == a
  {
  }

  lemma RemainderOnce(a: int, n: int)
    requires n <= a < n + n
    ensures a % n == a - n
  {
    RemainderBelow(a - n, n);
  }

  /**
   * moveToIndex: discards, then plays, then colour hints and value hints in
   * blocks of five per target counted from the player to the left. The
   * trailing assert(false) for INVALID_MOVE is a precondition here.
   */
  function MoveToIndex(m: Move, me: int, handSize: int, numPlayers: int): (idx: int)
    requires numPlayers >= 1 && m.kind != INVALID_MOVE
  {
    var maxRevealColor := (numPlayers - 1) * 5;
    var offset := TargetOffset(m.to, me, numPlayers);
    match m.kind
    case DISCARD_CARD => m.value
    case PLAY_CARD => m.value + handSize
    case HINT_COLOR => (offset - 1) * 5 + m.value + handSize + handSize
    case HINT_VALUE => (offset - 1) * 5 + m.value - 1 + handSize + handSize + maxRevealColor
  }

  /** The moves moveToIndex is meant for: own indices below the hand size, hints to another player. */
  predicate Indexable(m: Move, me: int, handSize: int, numPlayers: int) {
    WellFormed(m)
    && match m.kind
       case DISCARD_CARD => 0 <= m.value < handSize
       case PLAY_CARD => 0 <= m.value < handSize
       case HINT_COLOR => ValidColor(m.value) && 0 <= m.to < numPlayers && m.to != me
       case HINT_VALUE => 1 <= m.value <= 5 && 0 <= m.to < numPlayers && m.to != me
       case INVALID_MOVE => false
  }

  /** Number of indices moveToIndex uses for a hand size and table size. */
  function IndexCount(handSize: int, numPlayers: int): int {
    handSize + handSize + (numPlayers - 1) * 5 + (numPlayers - 1) * 5
  }

  /** Each kind of move lands in its own consecutive range. */
  lemma MoveToIndexRanges(m: Move, me: int, handSize: int, numPlayers: int)
    requires 0 <= me < numPlayers && Indexable(m, me, handSize, numPlayers)
    ensures var idx := MoveToIndex(m, me, handSize, numPlayers);
            var colors := handSize + handSize;
            var values := colors + (numPlayers - 1) * 5;
            && (m.kind == DISCARD_CARD ==> 0 <= idx < handSize)
            && (m.kind == PLAY_CARD ==> handSize <= idx < colors)
            && (m.kind == HINT_COLOR ==> colors <= idx < values)
            && (m.kind == HINT_VALUE ==> values <= idx < IndexCount(handSize, numPlayers))
  {
    if IsHint(m.kind) {
      TargetOffsetOfOther(m.to, me, numPlayers);
      var offset := TargetOffset(m.to, me, numPlayers);
      BlockBound(offset - 1, if m.kind == HINT_COLOR then m.value else m.value - 1, numPlayers - 1);
    }
  }

  /** Slot r of block b lies inside the first n blocks of five. */
  lemma BlockBound(b: int, r: int, n: int)
    requires 0 <= b < n && 0 <= r < 5
    ensures 0 <= b * 5 + r < n * 5
  {
  }

  lemma BlockInjective(b1: int, r1: int, b2: int, r2: int)
    requires 0 <= r1 < 5 && 0 <= r2 < 5 && b1 * 5 + r1 == b2 * 5 + r2
    ensures b1 == b2 && r1 == r2
  {
  }

  /** Distinct moves the index is meant for get distinct indices. */
  lemma MoveToIndexInjective(a: Move, b: Move, me: int, handSize: int, numPlayers: int)
    requires 0 <= me < numPlayers
    requires Indexable(a, me, handSize, numPlayers) && Indexable(b, me, handSize, numPlayers)
    requires MoveToIndex(a, me, handSize, numPlayers) == MoveToIndex(b, me, handSize, numPlayers)
    ensures a == b
  {
    MoveToIndexRanges(a, me, handSize, numPlayers);
    MoveToIndexRanges(b, me, handSize, numPlayers);
    if IsHint(a.kind) {
      TargetOffsetOfOther(a.to, me, numPlayers);
      TargetOffsetOfOther(b.to, me, numPlayers);
      var oa, ob := TargetOffset(a.to, me, numPlayers), TargetOffset(b.to, me, numPlayers);
      if a.kind == HINT_COLOR {
        BlockInjective(oa - 1, a.value, ob - 1, b.value);
      } else {
        BlockInjective(oa - 1, a.value - 1, ob - 1, b.value - 1);
      }
    }
  }

  /** Every move enumerateLegalMoves offers has an index, given an own hand no larger than the hand size. */
  lemma LegalMovesIndexable(ownSize: int, handSize: int, discardOk: bool, hands: seq<seq<Card>>, me: int,
                            stones: int, m: Move)
    requires 0 <= me < |hands| && ownSize <= handSize
    requires forall p :: 0 <= p < |hands| ==> AllValid(hands[p])
    requires m in LegalMoves(ownSize, discardOk, hands, me, stones)
    ensures Indexable(m, me, handSize, |hands|)
  {
    LegalMovesCharacterised(ownSize, discardOk, hands, me, stones, m);
    if IsHint(m.kind) {
      var k :| 0 <= k < |hands[m.to]|
               && m.value == (if m.kind == HINT_COLOR then hands[m.to][k].color else hands[m.to][k].value);
      assert ValidCard(hands[m.to][k]);
    }
  }
}
