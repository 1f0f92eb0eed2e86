/**
 * GameView of the information bot: the public facts of a position (the
 * discard counts, the fireworks, the token counts) and the predicates that
 * classify a card as playable, dead or dispensable, plus the queries of
 * OwnedGameView over the other players' hands.
 */
module InfoView {
  import opened Hanabi
  import opened HanabiServer
  import opened InfoTables

  datatype GameView = GameView(
    discard: CardCounts,
    fireworks: seq<int>,
    deckSize: int,
    totalCards: int,
    numPlayers: int,
    handSize: int,
    discardSize: int,
    hintsRemaining: int,
    livesRemaining: int,
    player: int,
    hintsTotal: int,
    livesTotal: int)

  predicate ValidView(v: GameView) {
    Shaped(v.discard.seen) && |v.fireworks| == NUMCOLORS
    && forall k | 0 <= k < NUMCOLORS :: 0 <= v.fireworks[k] <= VALUE_MAX
  }

  /**
   * GameView(server): the discards counted one by one and the pile sizes
   * copied colour by colour.
   */
  method ViewOfServer(s: Server) returns (v: GameView)
    requires s.Valid()
    ensures ValidView(v)
    ensures v.discard == CountsOf(s.discards)
    ensures forall k | 0 <= k < NUMCOLORS :: v.fireworks[k] == s.piles[k].size
    ensures v.deckSize == |s.deck| && v.totalCards == NUMCOLORS * 10 && v.discardSize == |s.discards|
    ensures v.numPlayers == s.numPlayers && v.player == s.activePlayer
    ensures v.handSize == HandSize(s.numPlayers, s.handSizeOverride)
    ensures v.hintsRemaining == s.hintStonesRemaining && v.hintsTotal == NUMHINTS
    ensures v.livesRemaining == s.mulligansRemaining && v.livesTotal == NUMMULLIGANS
  {
    var discard := CountsOf([]);
    var i := 0;
    while i < |s.discards|
      invariant 0 <= i <= |s.discards|
      invariant discard == CountsOf(s.discards[..i])
    {
      assert s.discards[..i + 1][..i] == s.discards[..i];
      discard := InfoTables.Increment(discard, s.discards[i]);
      i := i + 1;
    }
    assert s.discards[..i] == s.discards;
    var fireworks := [];
    var k := RED;
    while k <= BLUE
      invariant RED <= k <= BLUE + 1 && |fireworks| == k
      invariant forall j | 0 <= j < k :: fireworks[j] == s.piles[j].size
    {
      fireworks := fireworks + [s.piles[k].size];
      k := k + 1;
    }
    v := GameView(discard, fireworks, |s.deck|, NUMCOLORS * 10, s.numPlayers,
                  HandSize(s.numPlayers, s.handSizeOverride), |s.discards|,
                  s.hintStonesRemaining, s.mulligansRemaining, s.activePlayer, NUMHINTS, NUMMULLIGANS);
  }

  /**
   * GameView(numPlayers, handSize): the position before the deal. The
   * source leaves discard_size unset here; it is 0 in this model.
   */
  function InitialView(numPlayers: int, handSize: int): (v: GameView)
    ensures ValidView(v)
    ensures forall c | ValidCard(c) :: Remaining(v.discard, c) == Count(c)
    ensures forall k | 0 <= k < NUMCOLORS :: v.fireworks[k] == 0
  {
    GameView(CardCounts(ZeroTable()), seq(NUMCOLORS, k => 0), NUMCOLORS * 10, NUMCOLORS * 10, numPlayers,
             handSize, 0, NUMHINTS, NUMMULLIGANS, 0, NUMHINTS, NUMMULLIGANS)
  }

  /** is_playable: the card goes on its firework next. */
  predicate IsPlayable(v: GameView, c: Card)
    requires ValidView(v) && ValidCard(c)
  {
    c.value == v.fireworks[c.color] + 1
  }

  /** Some value between the firework and the card has no copy left. */
  predicate Unattainable(v: GameView, c: Card)
    requires ValidView(v) && ValidCard(c)
  {
    exists w | v.fireworks[c.color] + 1 <= w < c.value :: Remaining(v.discard, Card(c.color, w)) == 0
  }

  /** The card can never be played: its firework is past it or cannot reach it. */
  predicate Dead(v: GameView, c: Card)
    requires ValidView(v) && ValidCard(c)
  {
    c.value <= v.fireworks[c.color] || Unattainable(v, c)
  }

  /**
   * is_higher_than_highest_attainable: scans the values between the
   * firework and the card for one whose copies are all gone. The source
   * asserts the card is above its firework and has a copy left.
   */
  method IsHigherThanHighestAttainable(v: GameView, c: Card) returns (b: bool)
    requires ValidView(v) && ValidCard(c)
    requires c.value > v.fireworks[c.color] && Remaining(v.discard, c) != 0
    ensures b <==> Unattainable(v, c)
  {
    var w := v.fireworks[c.color] + 1;
    while w < c.value
      invariant v.fireworks[c.color] + 1 <= w <= c.value
      invariant forall u | v.fireworks[c.color] + 1 <= u < w :: Remaining(v.discard, Card(c.color, u)) != 0
    {
      if Remaining(v.discard, Card(c.color, w)) == 0 {
        return true;
      }
      w := w + 1;
    }
    return false;
  }

  /** is_dead; the source reaches the scan only for a card above its firework with a copy left. */
  method IsDead(v: GameView, c: Card) returns (b: bool)
    requires ValidView(v) && ValidCard(c)
    requires c.value > v.fireworks[c.color] ==> Remaining(v.discard, c) != 0
    ensures b <==> Dead(v, c)
  {
    if c.value <= v.fireworks[c.color] {
      return true;
    }
    b := IsHigherThanHighestAttainable(v, c);
  }

  /** is_dispensable: not the last copy, or dead anyway. */
  method IsDispensable(v: GameView, c: Card) returns (b: bool)
    requires ValidView(v) && ValidCard(c)
    ensures b <==> Remaining(v.discard, c) != 1 || Dead(v, c)
  {
    if Remaining(v.discard, c) != 1 {
      return true;
    }
    b := IsDead(v, c);
  }

  /**
   * A playable card is never dead, and a dead card is never playable.
   * A card below a firework is dead whatever the discards.
   */
  lemma PlayableIsNotDead(v: GameView, c: Card)
    requires ValidView(v) && ValidCard(c)
    ensures IsPlayable(v, c) ==> !Dead(v, c)
    ensures c.value <= v.fireworks[c.color] ==> Dead(v, c)
  {
  }

  /**
   * In the view of a server, a card's remaining copies are its copies less
   * those in the discard pile, and a card with every copy discarded is
   * dead unless already on its firework.
   */
  lemma {:induction false} ViewRemaining(s: Server, v: GameView, c: Card)
    requires s.Valid() && ValidView(v) && v.discard == CountsOf(s.discards) && ValidCard(c)
    ensures Remaining(v.discard, c) == Count(c) - multiset(s.discards)[c]
  {
    CountsOfOccurrences(s.discards, c);
  }

  /** A value beyond the firework is dead exactly when some value in between has all its copies gone. */
  lemma DeadAboveFirework(v: GameView, c: Card, w: int)
    requires ValidView(v) && ValidCard(c) && v.fireworks[c.color] < w < c.value
    requires Remaining(v.discard, Card(c.color, w)) == 0
    ensures Dead(v, c)
  {
  }

  // ---------------------------------------------------------------------------
  // OwnedGameView
  // ---------------------------------------------------------------------------

  /** has_card: the player's hand holds a card equal to `c`. */
  method HasCard(hand: seq<Card>, c: Card) returns (b: bool)
    ensures b <==> c in hand
  {
    var i := 0;
    while i < |hand|
      invariant 0 <= i <= |hand|
      invariant c !in hand[..i]
    {
      if hand[i] == c {
        return true;
      }
      assert hand[..i + 1] == hand[..i] + [hand[i]];
      i := i + 1;
    }
    assert hand[..i] == hand;
    return false;
  }

  /** can_see: some player other than `me` holds the card. */
  method CanSee(hands: seq<seq<Card>>, me: int, numPlayers: int, c: Card) returns (b: bool)
    requires 0 <= numPlayers <= |hands|
    ensures b <==> exists p | 0 <= p < numPlayers && p != me :: c in hands[p]
  {
    var p := 0;
    while p < numPlayers
      invariant 0 <= p <= numPlayers
      invariant forall q | 0 <= q < p && q != me :: c !in hands[q]
    {
      if p != me {
        var has := HasCard(hands[p], c);
        if has {
          return true;
        }
      }
      p := p + 1;
    }
    return false;
  }

  /** Some card of the hand is playable. */
  method HandHasPlayable(v: GameView, hand: seq<Card>) returns (b: bool)
    requires ValidView(v) && AllValid(hand)
    ensures b <==> exists i | 0 <= i < |hand| :: IsPlayable(v, hand[i])
  {
    var i := 0;
    while i < |hand|
      invariant 0 <= i <= |hand|
      invariant forall j | 0 <= j < i :: !IsPlayable(v, hand[j])
    {
      if IsPlayable(v, hand[i]) {
        return true;
      }
      i := i + 1;
    }
    return false;
  }

  /** someone_else_can_play: a player other than `me` holds a playable card. */
  method SomeoneElseCanPlay(v: GameView, hands: seq<seq<Card>>, me: int) returns (b: bool)
    requires ValidView(v) && forall p | 0 <= p < |hands| :: AllValid(hands[p])
    ensures b <==> exists p, i | 0 <= p < |hands| && p != me && 0 <= i < |hands[p]| ::
                     ValidCard(hands[p][i]) && IsPlayable(v, hands[p][i])
  {
    var p := 0;
    while p < |hands|
      invariant 0 <= p <= |hands|
      invariant forall q, i | 0 <= q < p && q != me && 0 <= i < |hands[q]| :: !IsPlayable(v, hands[q][i])
    {
      if p != me {
        var playable := HandHasPlayable(v, hands[p]);
        if playable {
          return true;
        }
      }
      p := p + 1;
    }
    return false;
  }
}
