/**
 * Cards, piles, sets of card indices and the constants of the game
 * (the declarations of the game header and the card/pile methods of the
 * server implementation).
 */
module Hanabi {
  import opened Wrappers

  // Colours are numbered RED = 0 .. BLUE = 4; INVALID_COLOR is 5.
  const RED := 0
  const ORANGE := 1
  const YELLOW := 2
  const GREEN := 3
  const BLUE := 4
  const INVALID_COLOR := 5
  const NUMCOLORS := 5
  const VALUE_MAX := 5
  const NUMHINTS := 8
  const NUMMULLIGANS := 3

  /** The messages of the runtime errors the game engine raises. */
  datatype Error =
    | MovedTwice                 // "bot attempted to move twice"
    | WrongObserver              // "called please...() from the wrong observer"
    | InvalidCardIndex           // "invalid card index"
    | AllHintStonesAvailable     // "all hint stones are already available"
    | InvalidPlayerIndex         // "invalid player index"
    | InvalidColor               // "invalid color"
    | InvalidValue               // "invalid value"
    | NoHintStonesRemaining      // "no hint stones remaining"
    | HintToOneself              // "cannot give hint to oneself"
    | EmptyHint                  // "hint must include at least one card"
    | PlayerOutOfBounds          // "player index out of bounds"
    | CannotObserveOwnHand       // "cannot observe own hand"
    | ActiveCardNotObservable    // "called activeCard() from the wrong observer"
    | InvalidPileColor           // "invalid Color"
    | EmptyPileHasNoTopCard      // "empty pile has no top card"
    | BotFailedToRespond         // "bot failed to respond to pleaseMove()"

  /** A card; equality of the datatype compares exactly colour and value. */
  datatype Card = Card(color: int, value: int)

  predicate ValidColor(c: int) { RED <= c <= BLUE }

  predicate ValidCard(c: Card) { ValidColor(c.color) && 1 <= c.value <= VALUE_MAX }

  predicate AllValid(cards: seq<Card>) { forall i :: 0 <= i < |cards| ==> ValidCard(cards[i]) }

  /** Card::operator<, lexicographic on (colour, value). */
  predicate CardLess(a: Card, b: Card) {
    a.color < b.color || (a.color == b.color && a.value < b.value)
  }

  /** `CardLess` is a strict total order, and `!=` is the negation of `==`. */
  lemma CardLessIsStrictTotalOrder(a: Card, b: Card, c: Card)
    ensures !CardLess(a, a)
    ensures CardLess(a, b) && CardLess(b, c) ==> CardLess(a, c)
    ensures a != b <==> (CardLess(a, b) || CardLess(b, a))
    ensures !(CardLess(a, b) && CardLess(b, a))
  {
  }

  /** Card::count: how many copies of a card of this value the deck holds. */
  function Count(c: Card): (n: int)
    requires 1 <= c.value <= VALUE_MAX
    ensures 1 <= n <= 3
    ensures n == 1 <==> c.value == VALUE_MAX
  {
    match c.value
    case 1 => 3
    case 2 => 2
    case 3 => 2
    case 4 => 2
    case _ => 1
  }

  /** The copies of every value of one colour add up to ten cards. */
  lemma CopiesPerColor(color: int)
    ensures Count(Card(color, 1)) + Count(Card(color, 2)) + Count(Card(color, 3))
          + Count(Card(color, 4)) + Count(Card(color, 5)) == 10
  {
  }

  /** colorname(): the English name of a colour. */
  function ColorName(color: int): (s: string)
    requires RED <= color <= INVALID_COLOR
    ensures |s| >= 3
  {
    match color
    case 0 => "red"
    case 1 => "orange"
    case 2 => "yellow"
    case 3 => "green"
    case 4 => "blue"
    case _ => "Invalid_color"
  }

  /** Card::toString: the value's digit followed by the colour's initial, e.g. "1r". */
  function CardToString(c: Card): (s: string)
    requires ValidCard(c)
    ensures |s| == 2 && '1' <= s[0] <= '5'
  {
    [('0' as int + c.value) as char, ColorName(c.color)[0]]
  }

  /** Distinct cards have distinct two-character names. */
  lemma CardToStringInjective(a: Card, b: Card)
    requires ValidCard(a) && ValidCard(b)
    ensures CardToString(a) == CardToString(b) ==> a == b
  {
    if CardToString(a) == CardToString(b) {
      assert CardToString(a)[1] == CardToString(b)[1];
      assert a.color == b.color;
      assert CardToString(a)[0] == CardToString(b)[0];
    }
  }

  /** A firework pile: its colour and how many cards have been played on it. */
  datatype Pile = Pile(color: int, size: int)

  predicate PileEmpty(p: Pile) { p.size == 0 }

  predicate NextValueIs(p: Pile, value: int) { value == p.size + 1 }

  predicate PileContains(p: Pile, value: int) { 1 <= value <= p.size }

  /**
   * A value at least 1 is either on the pile, or the next value to play,
   * or beyond it, and exactly one of these; an empty pile contains nothing.
   */
  lemma PileValuesPartition(p: Pile, value: int)
    requires p.size >= 0 && value >= 1
    ensures PileContains(p, value) <==> value < p.size + 1
    ensures NextValueIs(p, value) ==> !PileContains(p, value)
    ensures PileEmpty(p) <==> !PileContains(p, 1)
  {
  }

  /** Pile::topCard: the card on top, or an error for an empty pile. */
  function TopCard(p: Pile): (r: Result<Card, Error>)
    requires 0 <= p.size <= VALUE_MAX
    ensures r.Err? <==> PileEmpty(p)
    ensures r.Ok? ==> r.value.color == p.color && PileContains(p, r.value.value)
                      && NextValueIs(p, r.value.value + 1)
  {
    if p.size == 0 then Err(EmptyPileHasNoTopCard) else Ok(Card(p.color, p.size))
  }

  /** Pile::increment_: plays the next card on the pile. */
  function Increment(p: Pile): (q: Pile)
    requires 0 <= p.size <= VALUE_MAX - 1
    ensures q.color == p.color
    ensures forall v :: PileContains(q, v) <==> PileContains(p, v) || NextValueIs(p, v)
  {
    Pile(p.color, p.size + 1)
  }

  /** The number of contained indices strictly below n (only 0..7 can be contained). */
  function CountBelow(bits: set<int>, n: int): nat
    decreases n
  {
    if n <= 0 then 0
    else CountBelow(bits, n - 1) + (if 0 <= n - 1 < 8 && n - 1 in bits then 1 else 0)
  }

  lemma {:induction false} CountBelowMonotone(bits: set<int>, m: int, n: int)
    requires m <= n
    ensures CountBelow(bits, m) <= CountBelow(bits, n)
    decreases n - m
  {
    if m < n {
      CountBelowMonotone(bits, m, n - 1);
    }
  }

  /**
   * Two contained indices are ordered as their ranks are: the i-th
   * contained index grows strictly with i.
   */
  lemma {:induction false} RankOrdersIndices(bits: set<int>, a: int, b: int)
    requires 0 <= a < 8 && a in bits
    requires CountBelow(bits, a) < CountBelow(bits, b)
    ensures a < b
  {
    if b <= a {
      CountBelowMonotone(bits, b, a);
    }
  }

  /** Two contained indices of the same rank are the same index. */
  lemma RankInjective(bits: set<int>, a: int, b: int)
    requires 0 <= a < 8 && a in bits && 0 <= b < 8 && b in bits
    requires CountBelow(bits, a) == CountBelow(bits, b)
    ensures a == b
  {
    if a < b {
      CountBelowMonotone(bits, a + 1, b);
    } else if b < a {
      CountBelowMonotone(bits, b + 1, a);
    }
  }

  /** Every contained index ranks below the number of contained indices. */
  lemma RankBelowTotal(bits: set<int>, a: int)
    requires 0 <= a < 8 && a in bits
    ensures CountBelow(bits, a) < CountBelow(bits, 8)
  {
    CountBelowMonotone(bits, a + 1, 8);
  }

  /**
   * CardIndices: a bit mask of card positions together with the number of
   * add() calls. The mask is kept as the set of its set bit positions.
   */
  class CardIndices {
    var bits: set<int>
    var count: int

    constructor ()
      ensures bits == {} && count == 0
    {
      bits := {};
      count := 0;
    }

    /** add(): sets bit `index` and counts the call, even when the bit was already set. */
    method Add(index: int)
      requires 0 <= index < 32
      modifies this
      ensures bits == old(bits) + {index}
      ensures count == old(count) + 1
      ensures index < 8 ==> Contains(index)
      ensures forall j | j != index :: Contains(j) == old(Contains(j))
    {
      bits := bits + {index};
      count := count + 1;
    }

    /** contains(): only positions 0..7 are ever reported. */
    predicate Contains(index: int)
      reads this
    {
      0 <= index < 8 && index in bits
    }

    function Size(): (n: int)
      reads this
      ensures n == count
    {
      count
    }

    /** empty() looks only at the mask, not at the number of add() calls. */
    predicate Empty()
      reads this
    {
      bits == {}
    }

    /**
     * operator[]: the i-th smallest contained position. The source only
     * asserts i < count; its scan terminates only when at least i + 1
     * positions below 8 are contained, which is what this requires.
     */
    method At(i: int) returns (index: int)
      requires 0 <= i < count
      requires i < CountBelow(bits, 8)
      ensures Contains(index)
      ensures CountBelow(bits, index) == i
    {
      var k := i;
      index := 0;
      while true
        invariant 0 <= index <= 8 && 0 <= k
        invariant CountBelow(bits, index) == i - k
        invariant k < CountBelow(bits, 8) - CountBelow(bits, index)
        decreases 8 - index
      {
        while !Contains(index)
          invariant 0 <= index <= 8
          invariant CountBelow(bits, index) == i - k
          invariant k < CountBelow(bits, 8) - CountBelow(bits, index)
          decreases 8 - index
        {
          index := index + 1;
        }
        if k == 0 {
          return;
        }
        k := k - 1;
        index := index + 1;
      }
    }
  }
}
