/**
 * The game engine: a server that owns the hands, the deck, the firework
 * piles, the discards and the stones, and that the active bot drives with
 * play, discard and hint calls. Every rejected call is a runtime error of
 * the engine, modelled as a `Failed` outcome that leaves the state alone.
 */
module HanabiServer {
  import opened Wrappers
  import opened Hanabi
  import opened SeqUtil

  /** CardIndices reports positions 0..7 only, so no hand may hold more cards. */
  const MAX_HAND := 8

  datatype Outcome = Done | Failed(err: Error)

  function OutcomeOf(g: Option<Error>): Outcome {
    if g.Some? then Failed(g.value) else Done
  }

  /** The call the active bot makes from its move callback (NoCall: it made none). */
  datatype BotCall =
    | DiscardCall(index: int)
    | PlayCall(index: int)
    | ColorHintCall(to: int, color: int)
    | ValueHintCall(to: int, value: int)
    | NoCall

  /** What the active bot observes: every hand but its own, whose size alone shows. */
  datatype View = View(me: int, ownHandSize: int, hands: seq<seq<Card>>, piles: seq<Pile>,
                       discards: seq<Card>, hintStones: int, mulligans: int, deckSize: int)

  /** Server::handSize: the override when it is set, else 5 cards for up to 3 players and 4 beyond. */
  function HandSize(numPlayers: int, handSizeOverride: int): (h: int)
    ensures handSizeOverride < 0 ==> h == 4 || h == 5
    ensures handSizeOverride < 0 ==> (h == 5 <==> numPlayers <= 3)
    ensures handSizeOverride >= 0 ==> h == handSizeOverride
  {
    if handSizeOverride >= 0 then handSizeOverride else if numPlayers <= 3 then 5 else 4
  }

  /** The asserts of nth(n, total): a position of a 5- or 4-card hand, otherwise one of the three names. */
  predicate NthOk(n: int, total: int) {
    && (total == 5 ==> 0 <= n <= 4)
    && (total == 4 ==> 0 <= n <= 3)
    && (total != 4 && total != 5 ==> 0 <= n <= 2)
  }

  /** nth(n, total): the name of hand position n in a hand of `total` cards. */
  function Nth(n: int, total: int): (s: string)
    requires NthOk(n, total)
    ensures n == 0 <==> s == "oldest"
  {
    if total == 5 then
      match n
      case 0 => "oldest"
      case 1 => "second-oldest"
      case 2 => "middle"
      case 3 => "second-newest"
      case _ => "newest"
    else if total == 4 then
      match n
      case 0 => "oldest"
      case 1 => "second-oldest"
      case 2 => "second-newest"
      case _ => "newest"
    else
      match n
      case 0 => "oldest"
      case 1 => "middle"
      case _ => "newest"
  }

  /**
   * Distinct positions of one hand of up to five cards get distinct names;
   * the last one is the newest from three cards on, while the newer card of
   * a two-card hand is named the middle one.
   */
  lemma NthNamesPositions(m: int, n: int, total: int)
    requires 1 <= total <= 5 && 0 <= m < total && 0 <= n < total
    ensures Nth(m, total) == Nth(n, total) ==> m == n
    ensures 3 <= total ==> Nth(total - 1, total) == "newest"
    ensures total == 2 ==> Nth(total - 1, total) == "middle"
  {
  }

  /** The positions contained in a CardIndices below n, in increasing order. */
  function Positions(bits: set<int>, n: int): (ps: seq<int>)
    ensures |ps| == CountBelow(bits, n)
    ensures forall k :: 0 <= k < |ps| ==> 0 <= ps[k] < 8 && ps[k] in bits && ps[k] < n
    decreases n
  {
    if n <= 0 then []
    else Positions(bits, n - 1) + (if 0 <= n - 1 < 8 && n - 1 in bits then [n - 1] else [])
  }

  /** The i-th position of the list is the contained index with exactly i contained indices below it. */
  lemma {:induction false} PositionsAt(bits: set<int>, n: int, j: int)
    requires 0 <= j < 8 && j in bits && j < n
    ensures CountBelow(bits, j) < |Positions(bits, n)|
    ensures Positions(bits, n)[CountBelow(bits, j)] == j
    decreases n
  {
    if j < n - 1 {
      PositionsAt(bits, n - 1, j);
    } else {
      assert j == n - 1;
    }
  }

  /** The names of the listed positions joined as "a", "a and b", "a, b, and c", "a, b, c, and d". */
  function JoinNames(ns: seq<string>): string
    requires 1 <= |ns| <= 4
  {
    match |ns|
    case 1 => ns[0]
    case 2 => ns[0] + " and " + ns[1]
    case 3 => ns[0] + ", " + ns[1] + ", and " + ns[2]
    case _ => ns[0] + ", " + ns[1] + ", " + ns[2] + ", and " + ns[3]
  }

  /** Every contained index is a position of the hand that nth can name. */
  predicate PositionsFit(bits: set<int>, total: int) {
    forall j :: j in bits ==> 0 <= j < total && NthOk(j, total)
  }

  function NamesOf(ps: seq<int>, total: int): (names: seq<string>)
    requires forall k :: 0 <= k < |ps| ==> NthOk(ps[k], total)
    ensures |names| == |ps|
    ensures forall k :: 0 <= k < |ps| ==> names[k] == Nth(ps[k], total)
  {
    if ps == [] then [] else NamesOf(ps[..|ps| - 1], total) + [Nth(ps[|ps| - 1], total)]
  }

  lemma JoinNamesOf(ps: seq<int>, total: int)
    requires 1 <= |ps| <= 4
    requires forall k :: 0 <= k < |ps| ==> NthOk(ps[k], total)
    ensures var s := JoinNames(NamesOf(ps, total));
      && (|ps| == 1 ==> s == Nth(ps[0], total))
      && (|ps| == 2 ==> s == Nth(ps[0], total) + " and " + Nth(ps[1], total))
      && (|ps| == 3 ==> s == Nth(ps[0], total) + ", " + Nth(ps[1], total) + ", and " + Nth(ps[2], total))
      && (|ps| == 4 ==> s == Nth(ps[0], total) + ", " + Nth(ps[1], total) + ", "
                             + Nth(ps[2], total) + ", and " + Nth(ps[3], total))
  {
  }

  /**
   * nth(CardIndices, total): the hint positions named in increasing order
   * and joined into one phrase; the source asserts one to four positions.
   */
  method NthOfIndices(ns: CardIndices, total: int) returns (s: string)
    requires 1 <= ns.count <= 4 && ns.count == CountBelow(ns.bits, 8)
    requires PositionsFit(ns.bits, total)
    ensures s == JoinNames(NamesOf(Positions(ns.bits, 8), total))
  {
    ghost var ps := Positions(ns.bits, 8);
    JoinNamesOf(ps, total);
    var a := ns.At(0);
    PositionsAt(ns.bits, 8, a);
    if ns.Size() == 1 {
      return Nth(a, total);
    }
    var b := ns.At(1);
    PositionsAt(ns.bits, 8, b);
    if ns.Size() == 2 {
      return Nth(a, total) + " and " + Nth(b, total);
    }
    var c := ns.At(2);
    PositionsAt(ns.bits, 8, c);
    if ns.Size() == 3 {
      return Nth(a, total) + ", " + Nth(b, total) + ", and " + Nth(c, total);
    }
    var d := ns.At(3);
    PositionsAt(ns.bits, 8, d);
    return Nth(a, total) + ", " + Nth(b, total) + ", " + Nth(c, total) + ", and " + Nth(d, total);
  }

  predicate ValidPiles(piles: seq<Pile>) {
    |piles| == NUMCOLORS
    && forall k :: 0 <= k < NUMCOLORS ==> piles[k].color == k && 0 <= piles[k].size <= VALUE_MAX
  }

  function EmptyPiles(): (piles: seq<Pile>)
    ensures ValidPiles(piles)
    ensures forall k :: 0 <= k < NUMCOLORS ==> PileEmpty(piles[k])
  {
    seq(NUMCOLORS, k => Pile(k, 0))
  }

  predicate AllComplete(piles: seq<Pile>) {
    forall k :: 0 <= k < |piles| ==> piles[k].size == VALUE_MAX
  }

  /** The sum of the top-card values of the non-empty piles. */
  function PileTotal(piles: seq<Pile>): int
    requires forall k :: 0 <= k < |piles| ==> 0 <= piles[k].size <= VALUE_MAX
  {
    if piles == [] then 0
    else
      var p := piles[|piles| - 1];
      PileTotal(piles[..|piles| - 1]) + (if PileEmpty(p) then 0 else TopCard(p).value.value)
  }

  /** The total is the number of cards played: between 0 and 5 per pile, and maximal exactly when every pile is complete. */
  lemma {:induction false} PileTotalBounds(piles: seq<Pile>)
    requires forall k :: 0 <= k < |piles| ==> 0 <= piles[k].size <= VALUE_MAX
    ensures 0 <= PileTotal(piles) <= VALUE_MAX * |piles|
    ensures PileTotal(piles) == VALUE_MAX * |piles| <==> AllComplete(piles)
  {
    if piles != [] {
      PileTotalBounds(piles[..|piles| - 1]);
    }
  }

  /** Server::currentScore. */
  function Score(piles: seq<Pile>, mulligans: int, bomb0: bool, bombD: int): int
    requires ValidPiles(piles)
  {
    if mulligans == 0 && bomb0 then 0
    else
      var sum := PileTotal(piles);
      if mulligans == 0 then (if sum - bombD > 0 then sum - bombD else 0) else sum
  }

  /**
   * The score lies in 0..25; with mulligans left it is the number of cards
   * played, and 25 is reached exactly when every pile is complete (and no
   * bombing-out penalty applies).
   */
  lemma ScoreBounds(piles: seq<Pile>, mulligans: int, bomb0: bool, bombD: int)
    requires ValidPiles(piles) && bombD >= 0
    ensures 0 <= Score(piles, mulligans, bomb0, bombD) <= 5 * NUMCOLORS
    ensures mulligans != 0 ==> Score(piles, mulligans, bomb0, bombD) == PileTotal(piles)
    ensures Score(piles, mulligans, bomb0, bombD) == 5 * NUMCOLORS
            <==> AllComplete(piles) && (mulligans != 0 || (!bomb0 && bombD == 0))
  {
    PileTotalBounds(piles);
  }

  /** Server::gameOver. */
  predicate GameIsOver(deckSize: int, finalCountdown: int, numPlayers: int,
                       piles: seq<Pile>, mulligans: int, bomb0: bool, bombD: int)
    requires ValidPiles(piles)
  {
    (deckSize == 0 && finalCountdown == numPlayers + 1)
    || mulligans == 0
    || Score(piles, mulligans, bomb0, bombD) == 5 * NUMCOLORS
  }

  /** The game is over exactly when the countdown ran out, the mulligans are gone, or every pile is complete. */
  lemma GameOverCharacterised(deckSize: int, finalCountdown: int, numPlayers: int,
                              piles: seq<Pile>, mulligans: int, bomb0: bool, bombD: int)
    requires ValidPiles(piles) && bombD >= 0
    ensures GameIsOver(deckSize, finalCountdown, numPlayers, piles, mulligans, bomb0, bombD)
            <==> (deckSize == 0 && finalCountdown == numPlayers + 1) || mulligans == 0 || AllComplete(piles)
  {
    ScoreBounds(piles, mulligans, bomb0, bombD);
  }

  /** The guard every move starts with: one move per turn, made from the move callback. */
  function TurnGuard(moves: int): (g: Option<Error>)
    ensures g.None? <==> moves == 0
    ensures moves >= 1 ==> g == Some(MovedTwice)
  {
    if moves >= 1 then Some(MovedTwice) else if moves != 0 then Some(WrongObserver) else None
  }

  /** The guards of pleasePlay, in order (with the index bound the model uses, see the findings). */
  function PlayGuard(moves: int, index: int, handLen: int): (g: Option<Error>)
    ensures g.None? <==> moves == 0 && 0 <= index < handLen
    ensures moves >= 1 ==> g == Some(MovedTwice)
  {
    if TurnGuard(moves).Some? then TurnGuard(moves)
    else if !(0 <= index < handLen) then Some(InvalidCardIndex)
    else None
  }

  /**
   * The guards of pleasePlay and pleaseDiscard as the source writes them:
   * the index test admits the position one past the last card.
   */
  function PlayGuardAsWritten(moves: int, index: int, handLen: int): (g: Option<Error>)
    ensures g.None? <==> moves == 0 && 0 <= index <= handLen
    ensures moves >= 1 ==> g == Some(MovedTwice)
  {
    if TurnGuard(moves).Some? then TurnGuard(moves)
    else if !(0 <= index <= handLen) then Some(InvalidCardIndex)
    else None
  }

  /**
   * The index one past the end of a hand passes the written guard although
   * the hand holds no card there; the guard the model uses rejects it.
   */
  lemma AsWrittenGuardAdmitsMissingCard(hand: seq<Card>)
    ensures PlayGuardAsWritten(0, |hand|, |hand|).None? && !(|hand| < |hand|)
    ensures PlayGuard(0, |hand|, |hand|) == Some(InvalidCardIndex)
  {
  }

  /** The guards of pleaseDiscard, in order: discarding needs a spent hint stone. */
  function DiscardGuard(moves: int, index: int, handLen: int, hintStones: int): (g: Option<Error>)
    ensures g.None? <==> moves == 0 && 0 <= index < handLen && hintStones != NUMHINTS
    ensures moves >= 1 ==> g == Some(MovedTwice)
    ensures moves == 0 && 0 <= index < handLen && hintStones == NUMHINTS ==> g == Some(AllHintStonesAvailable)
  {
    if PlayGuard(moves, index, handLen).Some? then PlayGuard(moves, index, handLen)
    else if hintStones == NUMHINTS then Some(AllHintStonesAvailable)
    else None
  }

  /** The guards of both hint calls before the matching cards are collected, in order. */
  function HintGuard(moves: int, to: int, numPlayers: int, active: int,
                     attributeOk: bool, attributeError: Error, hintStones: int): (g: Option<Error>)
    ensures g.None? <==> moves == 0 && 0 <= to < numPlayers && attributeOk && hintStones != 0 && to != active
    ensures moves >= 1 ==> g == Some(MovedTwice)
  {
    if TurnGuard(moves).Some? then TurnGuard(moves)
    else if !(0 <= to < numPlayers) then Some(InvalidPlayerIndex)
    else if !attributeOk then Some(attributeError)
    else if hintStones == 0 then Some(NoHintStonesRemaining)
    else if to == active then Some(HintToOneself)
    else None
  }

  function ColorMatches(hand: seq<Card>, color: int): set<int> {
    set i | 0 <= i < |hand| && hand[i].color == color
  }

  function ValueMatches(hand: seq<Card>, value: int): set<int> {
    set i | 0 <= i < |hand| && hand[i].value == value
  }

  /** The hint loop of pleaseGiveColorHint: the positions of the hand holding that colour. */
  method CollectColorMatches(hand: seq<Card>, color: int) returns (indices: CardIndices)
    requires |hand| <= 32
    ensures fresh(indices)
    ensures indices.bits == ColorMatches(hand, color) && indices.count == |indices.bits|
  {
    indices := new CardIndices();
    var i := 0;
    while i < |hand|
      invariant 0 <= i <= |hand|
      invariant indices.bits == set j | 0 <= j < i && hand[j].color == color
      invariant indices.count == |indices.bits|
      modifies indices
    {
      if hand[i].color == color {
        indices.Add(i);
      }
      i := i + 1;
    }
  }

  /** The hint loop of pleaseGiveValueHint: the positions of the hand holding that value. */
  method CollectValueMatches(hand: seq<Card>, value: int) returns (indices: CardIndices)
    requires |hand| <= 32
    ensures fresh(indices)
    ensures indices.bits == ValueMatches(hand, value) && indices.count == |indices.bits|
  {
    indices := new CardIndices();
    var i := 0;
    while i < |hand|
      invariant 0 <= i <= |hand|
      invariant indices.bits == set j | 0 <= j < i && hand[j].value == value
      invariant indices.count == |indices.bits|
      modifies indices
    {
      if hand[i].value == value {
        indices.Add(i);
      }
      i := i + 1;
    }
  }

  /**
   * Where the copies of `value` begin within a colour's ten cards once the
   * deck-building loops have laid them out: 0, 3, 5, 7, 9, and 10 just past
   * the last value.
   */
  function ValueOffset(value: int): (o: int)
    requires 1 <= value <= VALUE_MAX + 1
    ensures 0 <= o <= 10
  {
    match value
    case 1 => 0
    case 2 => 3
    case 3 => 5
    case 4 => 7
    case 5 => 9
    case _ => 10
  }

  /** The copies of one value fill the offsets up to where the next value begins. */
  lemma ValueOffsetStep(c: Card)
    requires ValidCard(c)
    ensures ValueOffset(c.value + 1) == ValueOffset(c.value) + Count(c)
  {
  }

  /** The value laid out at offset o of a colour's run: the inverse of ValueOffset. */
  function ValueAt(o: int): (v: int)
    requires 0 <= o < 10
    ensures 1 <= v <= VALUE_MAX
    ensures ValueOffset(v) <= o < ValueOffset(v + 1)
  {
    if o < 3 then 1 else if o < 5 then 2 else if o < 7 then 3 else if o < 9 then 4 else 5
  }

  /** The card at position i of the unshuffled deck: ten cards per colour, values ascending. */
  function DeckCard(i: int): (c: Card)
    requires 0 <= i < 50
    ensures ValidCard(c)
  {
    Card(i / 10, ValueAt(i % 10))
  }

  /** The unshuffled deck, colour by colour and value by value. */
  function FullDeckSpec(): (deck: seq<Card>)
    ensures |deck| == 50
  {
    seq(50, i requires 0 <= i < 50 => DeckCard(i))
  }

  /** The position of the first copy of card c in the unshuffled deck. */
  function DeckStart(c: Card): int
    requires ValidCard(c)
  {
    10 * c.color + ValueOffset(c.value)
  }

  /** Position i holds card c exactly when it is one of the Count(c) positions from DeckStart(c). */
  lemma DeckCardIs(i: int, c: Card)
    requires 0 <= i < 50 && ValidCard(c)
    ensures DeckCard(i) == c <==> DeckStart(c) <= i < DeckStart(c) + Count(c)
  {
    ValueOffsetStep(c);
    var q, r := i / 10, i % 10;
    assert i == 10 * q + r;
    if DeckStart(c) <= i < DeckStart(c) + Count(c) {
      assert q == c.color;
      assert ValueAt(r) == c.value;
    }
  }

  /** The first n cards of the unshuffled deck hold as many copies of c as fall among its positions. */
  lemma {:induction false} DeckPrefixCount(n: nat, c: Card)
    requires n <= 50 && ValidCard(c)
    ensures multiset(FullDeckSpec()[..n])[c]
            == if n <= DeckStart(c) then 0
               else if n >= DeckStart(c) + Count(c) then Count(c)
               else n - DeckStart(c)
  {
    if n > 0 {
      var deck := FullDeckSpec();
      DeckPrefixCount(n - 1, c);
      DeckCardIs(n - 1, c);
      assert deck[..n] == deck[..n - 1] + [deck[n - 1]];
    }
  }

  /** The full deck holds 50 valid cards, Count(c) copies of each card c (3, 2, 2, 2, 1 per colour). */
  lemma FullDeckContents(c: Card)
    ensures |FullDeckSpec()| == 50
    ensures AllValid(FullDeckSpec())
    ensures multiset(FullDeckSpec())[c] == if ValidCard(c) then Count(c) else 0
  {
    var deck := FullDeckSpec();
    assert deck[..50] == deck;
    if ValidCard(c) {
      DeckPrefixCount(50, c);
    } else {
      assert c !in deck;
    }
  }

  /** The deck-building loops of runGame: every card, colour by colour, value by value, Count(card) times. */
  method FullDeck() returns (deck: seq<Card>)
    ensures deck == FullDeckSpec()
  {
    deck := [];
    var color := RED;
    while color <= BLUE
      invariant RED <= color <= BLUE + 1
      invariant |deck| == 10 * color
      invariant forall j :: 0 <= j < |deck| ==> deck[j] == DeckCard(j)
    {
      var value := 1;
      while value <= VALUE_MAX
        invariant 1 <= value <= VALUE_MAX + 1
        invariant |deck| == 10 * color + ValueOffset(value)
        invariant forall j :: 0 <= j < |deck| ==> deck[j] == DeckCard(j)
      {
        var card := Card(color, value);
        var n := Count(card);
        ValueOffsetStep(card);
        var k := 0;
        while k < n
          invariant 0 <= k <= n
          invariant |deck| == 10 * color + ValueOffset(value) + k
          invariant forall j :: 0 <= j < |deck| ==> deck[j] == DeckCard(j)
        {
          DeckCardIs(|deck|, card);
          deck := deck + [card];
          k := k + 1;
        }
        value := value + 1;
      }
      color := color + 1;
    }
    assert deck == FullDeckSpec();
  }

  /** One step of portable_shuffle: exchange positions i and j (nothing changes when they coincide). */
  function SwapStep<T>(s: seq<T>, i: int, j: int): (r: seq<T>)
    requires 0 <= i < |s| && 0 <= j < |s|
    ensures |r| == |s|
  {
    seq(|s|, k requires 0 <= k < |s| => if k == i then s[j] else if k == j then s[i] else s[k])
  }

  lemma SwapStepPermutes<T>(s: seq<T>, i: int, j: int)
    requires 0 <= i < |s| && 0 <= j < |s|
    ensures multiset(SwapStep(s, i, j)) == multiset(s)
  {
    if j == i {
      assert SwapStep(s, i, j) == s;
    } else {
      var u := s[i := s[j]];
      assert SwapStep(s, i, j) == u[j := s[i]];
      UpdateMultiset(s, i, s[j]);
      assert u[j] == s[j];
      UpdateMultiset(u, j, s[i]);
    }
  }

  /** Overwriting one element trades its occurrence for one of the new value. */
  lemma UpdateMultiset<T>(s: seq<T>, i: int, v: T)
    requires 0 <= i < |s|
    ensures multiset(s[i := v]) == multiset(s) - multiset{s[i]} + multiset{v}
  {
  }

  /**
   * The first n steps of portable_shuffle, step i exchanging i with rand[i] mod (i + 1).
   * Every step only exchanges two cards, so the result is a permutation of s.
   */
  function ShuffleSteps<T>(s: seq<T>, rand: seq<nat>, n: nat): (r: seq<T>)
    requires n <= |s| && n <= |rand|
    ensures |r| == |s|
    ensures multiset(r) == multiset(s)
  {
    if n == 0 then s
    else
      var prev := ShuffleSteps(s, rand, n - 1);
      SwapStepPermutes(prev, n - 1, rand[n - 1] % n);
      SwapStep(prev, n - 1, rand[n - 1] % n)
  }

  lemma ShuffleStepNext<T>(s: seq<T>, rand: seq<nat>, i: nat)
    requires i < |s| && i < |rand|
    ensures ShuffleSteps(s, rand, i + 1) == SwapStep(ShuffleSteps(s, rand, i), i, rand[i] % (i + 1))
  {
  }

  /** The whole shuffle; it permutes its input. */
  function Shuffled<T>(s: seq<T>, rand: seq<nat>): (r: seq<T>)
    requires |s| <= |rand|
    ensures multiset(r) == multiset(s)
  {
    ShuffleSteps(s, rand, |s|)
  }

  /** The exchange inside portable_shuffle's loop, skipped when both positions coincide. */
  method Swap<T>(a: array<T>, i: int, j: int)
    requires 0 <= i < a.Length && 0 <= j < a.Length
    modifies a
    ensures a[..] == SwapStep(old(a[..]), i, j)
  {
    if j != i {
      a[i], a[j] := a[j], a[i];
    }
  }

  /** portable_shuffle: the in-place shuffle driven by the generator outputs `rand`. */
  method PortableShuffle<T>(a: array<T>, rand: seq<nat>)
    requires a.Length <= |rand|
    modifies a
    ensures a[..] == Shuffled(old(a[..]), rand)
  {
    var n := a.Length;
    var i := 0;
    while i < n
      invariant 0 <= i <= n
      invariant a[..] == ShuffleSteps(old(a[..]), rand, i)
    {
      Swap(a, i, rand[i] % (i + 1));
      ShuffleStepNext(old(a[..]), rand, i);
      i := i + 1;
    }
  }

  /** The deck runGame deals from: the stacked deck reversed, or the full deck shuffled. */
  function InitialDeck(stackedDeck: seq<Card>, rand: seq<nat>): seq<Card>
    requires stackedDeck == [] ==> 50 <= |rand|
  {
    if stackedDeck != [] then Reverse(stackedDeck)
    else
      FullDeckContents(Card(RED, 1));
      Shuffled(FullDeckSpec(), rand)
  }

  /**
   * The hand of h cards drawn after `start` cards have been drawn from deck d
   * (whose last element is drawn first).
   */
  function DealtHand(d: seq<Card>, start: int, h: int): (hand: seq<Card>)
    requires 0 <= start && 0 <= h && start + h <= |d|
    ensures |hand| == h
  {
    seq(h, k requires 0 <= k < h => d[|d| - 1 - (start + k)])
  }

  /** One more player's hand: the next h cards from the end of what is left of the deck. */
  lemma DealStep(d: seq<Card>, i: nat, players: nat, h: nat)
    requires i < players && players * h <= |d|
    ensures (i + 1) * h <= |d| && i * h + h == (i + 1) * h
    ensures d[..|d| - i * h][..|d| - i * h - h] == d[..|d| - (i + 1) * h]
    ensures DealtHand(d[..|d| - i * h], 0, h) == DealtHand(d, i * h, h)
    ensures Deal(d, i + 1, h) == Deal(d, i, h) + [DealtHand(d, i * h, h)]
  {
    MulMonotone(i + 1, players, h);
    DealtHandOfPrefix(d, i * h, h);
  }

  /** Dealing from the deck left after `start` draws is dealing from the original deck at offset `start`. */
  lemma DealtHandOfPrefix(d: seq<Card>, start: int, h: int)
    requires 0 <= start && 0 <= h && start + h <= |d|
    ensures DealtHand(d[..|d| - start], 0, h) == DealtHand(d, start, h)
  {
  }

  /** The hands of `players` players dealt h cards each from deck d, in turn. */
  function Deal(d: seq<Card>, players: nat, h: nat): (hands: seq<seq<Card>>)
    requires players * h <= |d|
    ensures |hands| == players
  {
    if players == 0 then []
    else
      MulMonotone(players - 1, players, h);
      Deal(d, players - 1, h) + [DealtHand(d, (players - 1) * h, h)]
  }

  /** Player p's hand is the h cards drawn after the p * h cards dealt to the players before. */
  lemma {:induction false} DealtHandsAt(d: seq<Card>, players: nat, h: nat, p: int)
    requires players * h <= |d| && 0 <= p < players
    ensures p * h + h <= |d|
    ensures Deal(d, players, h)[p] == DealtHand(d, p * h, h)
    decreases players
  {
    MulMonotone(p + 1, players, h);
    if p < players - 1 {
      MulMonotone(players - 1, players, h);
      DealtHandsAt(d, players - 1, h, p);
    }
  }

  /** Dealt hands have h cards each, all drawn from the deck. */
  /** One hand per player, each of valid cards and within the largest hand size. */
  ghost predicate ValidHands(hands: seq<seq<Card>>, players: int) {
    |hands| == players && forall p :: 0 <= p < players ==> AllValid(hands[p]) && |hands[p]| <= MAX_HAND
  }

  lemma DealtHandsValid(d: seq<Card>, players: nat, h: nat)
    requires players * h <= |d| && AllValid(d) && h <= MAX_HAND
    ensures forall p :: 0 <= p < players ==> |Deal(d, players, h)[p]| == h && AllValid(Deal(d, players, h)[p])
    ensures ValidHands(Deal(d, players, h), players)
  {
    forall p | 0 <= p < players
      ensures |Deal(d, players, h)[p]| == h && AllValid(Deal(d, players, h)[p])
    {
      DealtHandsAt(d, players, h, p);
    }
  }

  lemma MulMonotone(a: int, b: int, h: int)
    requires 0 <= a <= b && 0 <= h
    ensures a * h <= b * h
  {
  }

  /** The deck as runGame prepares it before dealing. */
  method MakeInitialDeck(stackedDeck: seq<Card>, rand: seq<nat>) returns (deck: seq<Card>)
    requires AllValid(stackedDeck)
    requires stackedDeck == [] ==> 50 <= |rand|
    ensures deck == InitialDeck(stackedDeck, rand) && AllValid(deck)
  {
    if stackedDeck != [] {
      deck := Reverse(stackedDeck);
    } else {
      var full := FullDeck();
      FullDeckContents(Card(RED, 1));
      var a := new Card[|full|](k requires 0 <= k < |full| => full[k]);
      assert a[..] == full;
      PortableShuffle(a, rand);
      deck := a[..];
      forall k | 0 <= k < |deck| ensures ValidCard(deck[k]) {
        assert deck[k] in multiset(full);
        FullDeckContents(deck[k]);
      }
    }
  }

  class Server {
    const bomb0: bool
    const bombD: int
    const handSizeOverride: int
    var numPlayers: int
    var observingPlayer: int
    var activePlayer: int
    var movesFromActivePlayer: int
    var activeCard: Card
    var activeCardIsObservable: bool
    var finalCountdown: int
    var piles: seq<Pile>
    var discards: seq<Card>
    var hintStonesRemaining: int
    var mulligansRemaining: int
    var hands: seq<seq<Card>>
    /** The deck; cards are drawn from its end. */
    var deck: seq<Card>

    ghost predicate Valid()
      reads this
    {
      numPlayers >= 1 && ValidHands(hands, numPlayers)
      && 0 <= activePlayer < numPlayers
      && -1 <= movesFromActivePlayer <= 1
      && ValidPiles(piles)
      && 0 <= hintStonesRemaining <= NUMHINTS
      && 0 <= mulligansRemaining <= NUMMULLIGANS
      && 0 <= finalCountdown <= numPlayers + 1
      && (finalCountdown > 0 ==> deck == [])
      && AllValid(deck) && AllValid(discards)
    }

    /**
     * A server with its scoring and hand-size parameters, in a neutral state
     * until a game is set up (the source leaves the state uninitialised).
     */
    constructor (bomb0: bool, bombD: int, handSizeOverride: int)
      ensures Valid()
      ensures this.bomb0 == bomb0 && this.bombD == bombD && this.handSizeOverride == handSizeOverride
      ensures activeCard == Card(RED, 1)
    {
      this.bomb0 := bomb0;
      this.bombD := bombD;
      this.handSizeOverride := handSizeOverride;
      numPlayers := 1;
      observingPlayer := 0;
      activePlayer := 0;
      movesFromActivePlayer := -1;
      activeCard := Card(RED, 1);
      activeCardIsObservable := false;
      finalCountdown := 0;
      piles := EmptyPiles();
      discards := [];
      hintStonesRemaining := NUMHINTS;
      mulligansRemaining := NUMMULLIGANS;
      hands := [[]];
      deck := [];
    }

    function CurrentScore(): int
      reads this
      requires Valid()
    {
      Score(piles, mulligansRemaining, bomb0, bombD)
    }

    predicate GameOver()
      reads this
      requires Valid()
    {
      GameIsOver(|deck|, finalCountdown, numPlayers, piles, mulligansRemaining, bomb0, bombD)
    }

    function ViewOf(): View
      reads this
      requires Valid()
    {
      View(activePlayer, |hands[activePlayer]|, hands[activePlayer := []], piles, discards,
           hintStonesRemaining, mulligansRemaining, |deck|)
    }

    /** discardingIsAllowed: a discard needs at least one hint stone to be spent. */
    predicate DiscardingIsAllowed()
      reads this
    {
      hintStonesRemaining != NUMHINTS
    }

    function HintStonesUsed(): (n: int)
      reads this
      requires Valid()
      ensures 0 <= n <= NUMHINTS && n + hintStonesRemaining == NUMHINTS
    {
      NUMHINTS - hintStonesRemaining
    }

    function MulligansUsed(): (n: int)
      reads this
      requires Valid()
      ensures 0 <= n <= NUMMULLIGANS && n + mulligansRemaining == NUMMULLIGANS
    {
      NUMMULLIGANS - mulligansRemaining
    }

    function SizeOfHandOfPlayer(player: int): (r: Result<int, Error>)
      reads this
      requires Valid()
      ensures r.Ok? <==> 0 <= player < numPlayers
      ensures r.Ok? ==> r.value == |hands[player]|
    {
      if 0 <= player < numPlayers then Ok(|hands[player]|) else Err(PlayerOutOfBounds)
    }

    /** handOfPlayer: nobody may look at the hand of the observing player. */
    function HandOfPlayer(player: int): (r: Result<seq<Card>, Error>)
      reads this
      requires Valid()
      ensures r.Ok? <==> player != observingPlayer && 0 <= player < numPlayers
      ensures player == observingPlayer ==> r == Err(CannotObserveOwnHand)
      ensures r.Ok? ==> r.value == hands[player]
    {
      if player == observingPlayer then Err(CannotObserveOwnHand)
      else if !(0 <= player < numPlayers) then Err(PlayerOutOfBounds)
      else Ok(hands[player])
    }

    function ActiveCard(): (r: Result<Card, Error>)
      reads this
      ensures r.Ok? <==> activeCardIsObservable
      ensures r.Ok? ==> r.value == activeCard
    {
      if activeCardIsObservable then Ok(activeCard) else Err(ActiveCardNotObservable)
    }

    function PileOf(color: int): (r: Result<Pile, Error>)
      reads this
      requires Valid()
      ensures r.Ok? <==> ValidColor(color)
      ensures r.Ok? ==> r.value.color == color && r.value == piles[color]
    {
      if ValidColor(color) then Ok(piles[color]) else Err(InvalidPileColor)
    }

    /** draw_: takes the card at the end of the deck. */
    method Draw() returns (c: Card)
      requires deck != []
      modifies this`deck
      ensures c == old(deck)[|old(deck)| - 1]
      ensures deck == old(deck)[..|old(deck)| - 1]
    {
      c := deck[|deck| - 1];
      deck := deck[..|deck| - 1];
    }

    /** regainHintStoneIfPossible_: one more hint stone, never above NUMHINTS. */
    method RegainHintStoneIfPossible()
      modifies this`hintStonesRemaining
      ensures hintStonesRemaining
              == if old(hintStonesRemaining) < NUMHINTS then old(hintStonesRemaining) + 1
                 else old(hintStonesRemaining)
    {
      if hintStonesRemaining < NUMHINTS {
        hintStonesRemaining := hintStonesRemaining + 1;
      }
    }

    /** loseMulligan_: one mulligan fewer; the source asserts the count stays non-negative. */
    method LoseMulligan()
      requires mulligansRemaining > 0
      modifies this`mulligansRemaining
      ensures mulligansRemaining == old(mulligansRemaining) - 1
    {
      mulligansRemaining := mulligansRemaining - 1;
    }

    /** endGameByBombingOut: spends every mulligan, which ends the game. */
    method EndGameByBombingOut()
      requires Valid()
      modifies this`mulligansRemaining
      ensures Valid() && mulligansRemaining == 0 && GameOver()
    {
      mulligansRemaining := 0;
    }

    /** Removes a card from the active hand and draws a replacement when a mulligan remains and the deck is not empty. */
    method ReplaceCard(index: int)
      requires Valid() && 0 <= index < |hands[activePlayer]|
      modifies this`hands, this`deck
      ensures Valid()
      ensures var drew := mulligansRemaining > 0 && old(deck) != [];
              && deck == (if drew then old(deck)[..|old(deck)| - 1] else old(deck))
              && hands == old(hands)[activePlayer := RemoveAt(old(hands)[activePlayer], index)
                                                   + (if drew then [old(deck)[|old(deck)| - 1]] else [])]
    {
      var rest := RemoveAt(hands[activePlayer], index);
      hands := hands[activePlayer := rest];
      if mulligansRemaining > 0 && deck != [] {
        var replacement := Draw();
        hands := hands[activePlayer := rest + [replacement]];
      } else {
        assert rest + [] == rest;
      }
    }

    /**
     * The examination step of pleasePlay: a card that continues its pile is
     * added to it (a completed pile returns a hint stone); any other card is
     * discarded and costs a mulligan.
     */
    method ResolvePlay(card: Card)
      requires Valid() && ValidCard(card) && mulligansRemaining > 0
      modifies this`piles, this`discards, this`hintStonesRemaining, this`mulligansRemaining
      ensures Valid()
      ensures var pile := old(piles)[card.color];
        && (NextValueIs(pile, card.value) ==>
              pile.size < VALUE_MAX
              && piles == old(piles)[card.color := Increment(pile)]
              && discards == old(discards)
              && mulligansRemaining == old(mulligansRemaining)
              && hintStonesRemaining == if card.value == VALUE_MAX && old(hintStonesRemaining) < NUMHINTS
                                        then old(hintStonesRemaining) + 1 else old(hintStonesRemaining))
        && (!NextValueIs(pile, card.value) ==>
              piles == old(piles)
              && discards == old(discards) + [card]
              && mulligansRemaining == old(mulligansRemaining) - 1
              && hintStonesRemaining == old(hintStonesRemaining))
    {
      var pile := piles[card.color];
      if NextValueIs(pile, card.value) {
        piles := piles[card.color := Increment(pile)];
        if card.value == VALUE_MAX {
          RegainHintStoneIfPossible();
        }
      } else {
        discards := discards + [card];
        LoseMulligan();
      }
    }

    /** pleaseDiscard (with the index bound evidently intended, see the findings). */
    method PleaseDiscard(index: int) returns (out: Outcome)
      requires Valid()
      modifies this`hands, this`deck, this`discards, this`hintStonesRemaining,
               this`movesFromActivePlayer, this`activeCard, this`activeCardIsObservable
      ensures Valid()
      ensures out == OutcomeOf(DiscardGuard(old(movesFromActivePlayer), index,
                                            |old(hands)[activePlayer]|, old(hintStonesRemaining)))
      ensures out.Failed? ==> unchanged(this)
      ensures out.Done? ==>
        var card := old(hands)[activePlayer][index];
        var drew := mulligansRemaining > 0 && old(deck) != [];
        && discards == old(discards) + [card]
        && activeCard == card && !activeCardIsObservable
        && hintStonesRemaining == old(hintStonesRemaining) + 1
        && deck == (if drew then old(deck)[..|old(deck)| - 1] else old(deck))
        && hands == old(hands)[activePlayer := RemoveAt(old(hands)[activePlayer], index)
                                             + (if drew then [old(deck)[|old(deck)| - 1]] else [])]
        && movesFromActivePlayer == 1
    {
      if movesFromActivePlayer >= 1 {
        return Failed(MovedTwice);
      }
      if movesFromActivePlayer != 0 {
        return Failed(WrongObserver);
      }
      if !(0 <= index < |hands[activePlayer]|) {
        return Failed(InvalidCardIndex);
      }
      if !DiscardingIsAllowed() {
        return Failed(AllHintStonesAvailable);
      }
      DiscardSelected(index);
      out := Done;
    }

    /** The part of pleaseDiscard after its checks: the card is shown, discarded and replaced. */
    method DiscardSelected(index: int)
      requires Valid() && 0 <= index < |hands[activePlayer]| && hintStonesRemaining < NUMHINTS
      modifies this`hands, this`deck, this`discards, this`hintStonesRemaining,
               this`movesFromActivePlayer, this`activeCard, this`activeCardIsObservable
      ensures Valid()
      ensures var card := old(hands)[activePlayer][index];
        var drew := mulligansRemaining > 0 && old(deck) != [];
        && discards == old(discards) + [card]
        && activeCard == card && !activeCardIsObservable
        && hintStonesRemaining == old(hintStonesRemaining) + 1
        && deck == (if drew then old(deck)[..|old(deck)| - 1] else old(deck))
        && hands == old(hands)[activePlayer := RemoveAt(old(hands)[activePlayer], index)
                                             + (if drew then [old(deck)[|old(deck)| - 1]] else [])]
        && movesFromActivePlayer == 1
    {
      var discardedCard := hands[activePlayer][index];
      activeCard := discardedCard;
      activeCardIsObservable := true;
      movesFromActivePlayer := -1;
      // The observers are notified of the discard here.
      activeCardIsObservable := false;
      discards := discards + [discardedCard];
      ReplaceCard(index);
      RegainHintStoneIfPossible();
      movesFromActivePlayer := 1;
    }

    /**
     * pleasePlay (with the index bound evidently intended, see the findings).
     * A play is only made during a turn, so a mulligan remains.
     */
    method PleasePlay(index: int) returns (out: Outcome)
      requires Valid() && mulligansRemaining > 0
      modifies this`hands, this`deck, this`discards, this`piles, this`hintStonesRemaining,
               this`mulligansRemaining, this`movesFromActivePlayer, this`activeCard,
               this`activeCardIsObservable
      ensures Valid()
      ensures out == OutcomeOf(PlayGuard(old(movesFromActivePlayer), index, |old(hands)[activePlayer]|))
      ensures out.Failed? ==> unchanged(this)
      ensures out.Done? ==>
        var card := old(hands)[activePlayer][index];
        var pile := old(piles)[card.color];
        var drew := mulligansRemaining > 0 && old(deck) != [];
        && activeCard == card && !activeCardIsObservable && movesFromActivePlayer == 1
        && (NextValueIs(pile, card.value) ==>
              pile.size < VALUE_MAX
              && piles == old(piles)[card.color := Increment(pile)]
              && discards == old(discards)
              && mulligansRemaining == old(mulligansRemaining)
              && hintStonesRemaining == if card.value == VALUE_MAX && old(hintStonesRemaining) < NUMHINTS
                                        then old(hintStonesRemaining) + 1 else old(hintStonesRemaining))
        && (!NextValueIs(pile, card.value) ==>
              piles == old(piles)
              && discards == old(discards) + [card]
              && mulligansRemaining == old(mulligansRemaining) - 1
              && hintStonesRemaining == old(hintStonesRemaining))
        && deck == (if drew then old(deck)[..|old(deck)| - 1] else old(deck))
        && hands == old(hands)[activePlayer := RemoveAt(old(hands)[activePlayer], index)
                                             + (if drew then [old(deck)[|old(deck)| - 1]] else [])]
    {
      if movesFromActivePlayer >= 1 {
        return Failed(MovedTwice);
      }
      if movesFromActivePlayer != 0 {
        return Failed(WrongObserver);
      }
      if !(0 <= index < |hands[activePlayer]|) {
        return Failed(InvalidCardIndex);
      }
      PlaySelected(index);
      out := Done;
    }

    /** The part of pleasePlay after its checks: the card is shown, examined and replaced. */
    method PlaySelected(index: int)
      requires Valid() && mulligansRemaining > 0 && 0 <= index < |hands[activePlayer]|
      modifies this`hands, this`deck, this`discards, this`piles, this`hintStonesRemaining,
               this`mulligansRemaining, this`movesFromActivePlayer, this`activeCard,
               this`activeCardIsObservable
      ensures Valid()
      ensures var card := old(hands)[activePlayer][index];
        var pile := old(piles)[card.color];
        var drew := mulligansRemaining > 0 && old(deck) != [];
        && activeCard == card && !activeCardIsObservable && movesFromActivePlayer == 1
        && (NextValueIs(pile, card.value) ==>
              pile.size < VALUE_MAX
              && piles == old(piles)[card.color := Increment(pile)]
              && discards == old(discards)
              && mulligansRemaining == old(mulligansRemaining)
              && hintStonesRemaining == if card.value == VALUE_MAX && old(hintStonesRemaining) < NUMHINTS
                                        then old(hintStonesRemaining) + 1 else old(hintStonesRemaining))
        && (!NextValueIs(pile, card.value) ==>
              piles == old(piles)
              && discards == old(discards) + [card]
              && mulligansRemaining == old(mulligansRemaining) - 1
              && hintStonesRemaining == old(hintStonesRemaining))
        && deck == (if drew then old(deck)[..|old(deck)| - 1] else old(deck))
        && hands == old(hands)[activePlayer := RemoveAt(old(hands)[activePlayer], index)
                                             + (if drew then [old(deck)[|old(deck)| - 1]] else [])]
    {
      var selectedCard := hands[activePlayer][index];
      activeCard := selectedCard;
      activeCardIsObservable := true;
      movesFromActivePlayer := -1;
      // The observers are notified of the attempted play here.
      activeCardIsObservable := false;
      ResolvePlay(selectedCard);
      ReplaceCard(index);
      movesFromActivePlayer := 1;
    }

    /** pleaseGiveColorHint: tells player `to` which of their cards have colour `color`. */
    method PleaseGiveColorHint(to: int, color: int) returns (out: Outcome, indices: CardIndices?)
      requires Valid()
      modifies this`hintStonesRemaining, this`movesFromActivePlayer
      ensures Valid()
      ensures var g := HintGuard(old(movesFromActivePlayer), to, numPlayers, activePlayer,
                                 ValidColor(color), InvalidColor, old(hintStonesRemaining));
              out == if g.Some? then Failed(g.value)
                     else if ColorMatches(hands[to], color) == {} then Failed(EmptyHint)
                     else Done
      ensures out.Failed? ==> unchanged(this)
      ensures out.Done? ==>
        && indices != null && fresh(indices)
        && indices.bits == ColorMatches(hands[to], color)
        && indices.count == |indices.bits|
        && hintStonesRemaining == old(hintStonesRemaining) - 1
        && movesFromActivePlayer == 1
    {
      indices := null;
      if movesFromActivePlayer >= 1 {
        return Failed(MovedTwice), indices;
      }
      if movesFromActivePlayer != 0 {
        return Failed(WrongObserver), indices;
      }
      if !(0 <= to < |hands|) {
        return Failed(InvalidPlayerIndex), indices;
      }
      if !ValidColor(color) {
        return Failed(InvalidColor), indices;
      }
      if hintStonesRemaining == 0 {
        return Failed(NoHintStonesRemaining), indices;
      }
      if to == activePlayer {
        return Failed(HintToOneself), indices;
      }
      var cardIndices := CollectColorMatches(hands[to], color);
      if cardIndices.Empty() {
        return Failed(EmptyHint), indices;
      }
      movesFromActivePlayer := -1;
      // The observers are notified of the hint here.
      hintStonesRemaining := hintStonesRemaining - 1;
      movesFromActivePlayer := 1;
      out, indices := Done, cardIndices;
    }

    /** pleaseGiveValueHint: tells player `to` which of their cards have value `value`. */
    method PleaseGiveValueHint(to: int, value: int) returns (out: Outcome, indices: CardIndices?)
      requires Valid()
      modifies this`hintStonesRemaining, this`movesFromActivePlayer
      ensures Valid()
      ensures var g := HintGuard(old(movesFromActivePlayer), to, numPlayers, activePlayer,
                                 1 <= value <= VALUE_MAX, InvalidValue, old(hintStonesRemaining));
              out == if g.Some? then Failed(g.value)
                     else if ValueMatches(hands[to], value) == {} then Failed(EmptyHint)
                     else Done
      ensures out.Failed? ==> unchanged(this)
      ensures out.Done? ==>
        && indices != null && fresh(indices)
        && indices.bits == ValueMatches(hands[to], value)
        && indices.count == |indices.bits|
        && hintStonesRemaining == old(hintStonesRemaining) - 1
        && movesFromActivePlayer == 1
    {
      indices := null;
      if movesFromActivePlayer >= 1 {
        return Failed(MovedTwice), indices;
      }
      if movesFromActivePlayer != 0 {
        return Failed(WrongObserver), indices;
      }
      if !(0 <= to < |hands|) {
        return Failed(InvalidPlayerIndex), indices;
      }
      if !(1 <= value <= VALUE_MAX) {
        return Failed(InvalidValue), indices;
      }
      if hintStonesRemaining == 0 {
        return Failed(NoHintStonesRemaining), indices;
      }
      if to == activePlayer {
        return Failed(HintToOneself), indices;
      }
      var cardIndices := CollectValueMatches(hands[to], value);
      if cardIndices.Empty() {
        return Failed(EmptyHint), indices;
      }
      movesFromActivePlayer := -1;
      // The observers are notified of the hint here.
      hintStonesRemaining := hintStonesRemaining - 1;
      movesFromActivePlayer := 1;
      out, indices := Done, cardIndices;
    }

    /** The inner dealing loop of runGame: h draws appended to one hand. */
    method DrawHand(h: int) returns (hand: seq<Card>)
      requires 0 <= h <= |deck| && AllValid(deck)
      modifies this`deck
      ensures deck == old(deck)[..|old(deck)| - h]
      ensures hand == DealtHand(old(deck), 0, h) && AllValid(hand)
    {
      hand := [];
      var k := 0;
      while k < h
        invariant 0 <= k <= h
        invariant deck == old(deck)[..|old(deck)| - k]
        invariant hand == DealtHand(old(deck), 0, k) && AllValid(hand)
      {
        var c := Draw();
        hand := hand + [c];
        k := k + 1;
      }
    }

    /** The dealing loop of runGame: each player in turn draws h cards from the end of the deck. */
    method DealHands(players: int, h: int)
      requires 0 <= h <= MAX_HAND && 0 <= players && players * h <= |deck| && AllValid(deck)
      modifies this`hands, this`deck
      ensures deck == old(deck)[..|old(deck)| - players * h] && AllValid(deck)
      ensures hands == Deal(old(deck), players, h)
    {
      ghost var d0 := deck;
      hands := [];
      var i := 0;
      while i < players
        invariant 0 <= i <= players && i * h <= |d0|
        invariant deck == d0[..|d0| - i * h] && AllValid(deck)
        invariant hands == Deal(d0, i, h)
      {
        DealStep(d0, i, players, h);
        var hand := DrawHand(h);
        hands := hands + [hand];
        i := i + 1;
      }
    }

    /**
     * The set-up part of runGame: empty piles, all stones, the deck (the
     * stacked deck reversed so that its first card is drawn first, or the
     * full deck shuffled by the generator outputs `rand`), then every
     * player draws a hand in turn.
     */
    method Setup(players: int, stackedDeck: seq<Card>, rand: seq<nat>)
      requires 1 <= players
      requires 0 <= HandSize(players, handSizeOverride) <= MAX_HAND
      requires AllValid(stackedDeck)
      requires stackedDeck == [] ==> 50 <= |rand|
      requires players * HandSize(players, handSizeOverride) <= |InitialDeck(stackedDeck, rand)|
      modifies this
      ensures Valid()
      ensures numPlayers == players && piles == EmptyPiles() && discards == []
      ensures mulligansRemaining == NUMMULLIGANS && hintStonesRemaining == NUMHINTS && finalCountdown == 0
      ensures activePlayer == 0 && movesFromActivePlayer == -1 && !activeCardIsObservable
      ensures var d0, h := InitialDeck(stackedDeck, rand), HandSize(players, handSizeOverride);
              && deck == d0[..|d0| - players * h]
              && hands == Deal(d0, players, h)
    {
      var h := HandSize(players, handSizeOverride);
      deck := MakeInitialDeck(stackedDeck, rand);
      ghost var d0 := deck;
      DealHands(players, h);
      DealtHandsValid(d0, players, h);
      ResetTable(players);
    }

    /** The opening table of runGame: empty piles and discards, all stones, player 0 to move. */
    method ResetTable(players: int)
      modifies this`numPlayers, this`piles, this`mulligansRemaining, this`hintStonesRemaining,
               this`finalCountdown, this`discards, this`activeCardIsObservable, this`activePlayer,
               this`movesFromActivePlayer
      ensures numPlayers == players && piles == EmptyPiles() && discards == []
      ensures mulligansRemaining == NUMMULLIGANS && hintStonesRemaining == NUMHINTS && finalCountdown == 0
      ensures activePlayer == 0 && movesFromActivePlayer == -1 && !activeCardIsObservable
    {
      numPlayers := players;
      piles := EmptyPiles();
      mulligansRemaining := NUMMULLIGANS;
      hintStonesRemaining := NUMHINTS;
      finalCountdown := 0;
      discards := [];
      activeCardIsObservable := false;
      activePlayer := 0;
      movesFromActivePlayer := -1;
    }

    /**
     * The active bot's move: the one please* call it makes on the server
     * (or none). A successful move shortens the deck, or spends a hint stone
     * and leaves the deck alone, or leaves an empty deck empty, or ends the
     * game by losing the last mulligan.
     */
    method Dispatch(call: BotCall) returns (out: Outcome)
      requires Valid() && mulligansRemaining > 0
      modifies this`hands, this`deck, this`discards, this`piles, this`hintStonesRemaining,
               this`mulligansRemaining, this`movesFromActivePlayer, this`activeCard,
               this`activeCardIsObservable
      ensures Valid()
      ensures call.NoCall? ==> out == Failed(BotFailedToRespond)
      ensures out.Failed? ==> unchanged(this)
      ensures out.Done? ==>
        || |deck| < |old(deck)|
        || (deck == old(deck) && hintStonesRemaining < old(hintStonesRemaining))
        || (deck == old(deck) == [])
        || mulligansRemaining == 0
    {
      match call {
        case DiscardCall(index) =>
          out := PleaseDiscard(index);
        case PlayCall(index) =>
          out := PleasePlay(index);
        case ColorHintCall(to, color) =>
          var touched;
          out, touched := PleaseGiveColorHint(to, color);
        case ValueHintCall(to, value) =>
          var touched;
          out, touched := PleaseGiveValueHint(to, value);
        case NoCall =>
          out := Failed(BotFailedToRespond);
      }
    }

    /**
     * runToCompletion: turns are taken until the game is over. The active
     * bot's decision is the abstract function `bot`; a rejected call ends
     * the game with the engine's error. The loop always terminates: while
     * the deck lasts every turn lowers 9 * (cards in deck) + (hint stones),
     * and once it is empty the final countdown advances every turn.
     */
    method RunToCompletion(bot: View -> BotCall) returns (r: Result<int, Error>)
      requires Valid()
      modifies this
      ensures Valid() && numPlayers == old(numPlayers)
      ensures r.Ok? ==> GameOver() && r.value == CurrentScore()
    {
      while !GameOver()
        invariant Valid() && numPlayers == old(numPlayers)
        decreases numPlayers + 1 - finalCountdown, |deck|, hintStonesRemaining
      {
        // The observers' pre-move callbacks run here.
        observingPlayer := activePlayer;
        movesFromActivePlayer := 0;
        var out := Dispatch(bot(ViewOf()));
        if out.Failed? {
          return Err(out.err);
        }
        if GameOver() {
          break;
        }
        PassTurn();
      }
      r := Ok(CurrentScore());
    }

    /**
     * The end of a turn of runGame: the next player becomes active, and
     * once the deck is empty the final countdown advances.
     */
    method PassTurn()
      requires Valid() && !GameOver()
      modifies this`movesFromActivePlayer, this`activePlayer, this`finalCountdown
      ensures Valid()
      ensures movesFromActivePlayer == -1 && activePlayer == (old(activePlayer) + 1) % numPlayers
      ensures finalCountdown == if deck == [] then old(finalCountdown) + 1 else old(finalCountdown)
    {
      movesFromActivePlayer := -1;
      // The observers' post-move callbacks run here.
      activePlayer := (activePlayer + 1) % numPlayers;
      if deck == [] {
        finalCountdown := finalCountdown + 1;
      }
    }

    /** runGame: set up a game, then play it to completion and report the score. */
    method RunGame(players: int, stackedDeck: seq<Card>, rand: seq<nat>, bot: View -> BotCall)
      returns (r: Result<int, Error>)
      requires 1 <= players
      requires 0 <= HandSize(players, handSizeOverride) <= MAX_HAND
      requires AllValid(stackedDeck)
      requires stackedDeck == [] ==> 50 <= |rand|
      requires players * HandSize(players, handSizeOverride) <= |InitialDeck(stackedDeck, rand)|
      modifies this
      ensures Valid() && numPlayers == players
      ensures r.Ok? ==> GameOver() && r.value == CurrentScore()
    {
      Setup(players, stackedDeck, rand);
      r := RunToCompletion(bot);
    }
  }
}
