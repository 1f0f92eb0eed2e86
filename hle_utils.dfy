/**
 * The observation encoder of the learning-environment layout: a 0/1 feature
 * vector made of a hands section, a board section, a discard section, a
 * last-action section and a belief section. The features are floats in the
 * program but only ever 0 or 1 outside the belief section, so they are
 * integers here.
 */
module HleUtils {
  import opened Wrappers
  import opened Hanabi
  import opened BotUtils
  import SeqUtil
  import HanabiServer

  // ---------------------------------------------------------------------------
  // Sizes
  // ---------------------------------------------------------------------------

  const NUM_COLORS := 5
  const NUM_RANKS := 5
  const NUM_CARDS_PER_COLOR := 10
  /** numColors_ * numCardsPerColor_. */
  const MAX_DECK_SIZE := 50
  const MAX_INFO_TOKENS := 8
  const MAX_LIFE_TOKENS := 3
  /** numColors_ * numRanks_. */
  const BITS_PER_CARD := 25
  const NUM_MOVE_TYPES := 4

  /** HandSizeFromRules: five cards for two or three players, four for more. */
  function HandSizeFromRules(numPlayers: int): (h: int)
    ensures h == 4 || h == 5
    ensures h == 5 <==> numPlayers < 4
  {
    if numPlayers < 4 then 5 else 4
  }

  /** The encoder's hand size agrees with the server's when no override is set. */
  lemma HandSizeMatchesServer(numPlayers: int)
    ensures HandSizeFromRules(numPlayers) == HanabiServer.HandSize(numPlayers, -1)
  {
  }

  /**
   * NumberCardInstance: the copies of the card of a colour and a zero-based
   * rank, and 0 outside the 5 x 5 grid.
   */
  function NumberCardInstance(color: int, rank: int): (n: int)
    ensures 0 <= n <= 3
    ensures n > 0 <==> 0 <= color < NUM_COLORS && 0 <= rank < NUM_RANKS
  {
    if color < 0 || color >= NUM_COLORS || rank < 0 || rank >= NUM_RANKS then 0
    else if rank == 0 then 3
    else if rank == NUM_RANKS - 1 then 1
    else 2
  }

  /** The encoder's copy count agrees with the deck's (Card::count) on every card. */
  lemma InstancesMatchDeck(c: Card)
    requires ValidCard(c)
    ensures NumberCardInstance(c.color, c.value - 1) == Count(c)
  {
  }

  /** The copies of the colour's cards of rank below r. */
  function CopiesBelow(color: int, r: int): (n: nat)
    decreases r
  {
    if r <= 0 then 0 else CopiesBelow(color, r - 1) + NumberCardInstance(color, r - 1)
  }

  lemma {:induction false} CopiesMonotone(color: int, r: int, t: int)
    requires r <= t
    ensures CopiesBelow(color, r) <= CopiesBelow(color, t)
    decreases t - r
  {
    if r < t {
      CopiesMonotone(color, r, t - 1);
    }
  }

  /** The copies of a colour's five cards add up to ten, and five colours to the 50 cards of the deck. */
  lemma ColorInstances(color: int)
    requires 0 <= color < NUM_COLORS
    ensures CopiesBelow(color, NUM_RANKS) == NUM_CARDS_PER_COLOR
    ensures NUM_COLORS * NUM_CARDS_PER_COLOR == MAX_DECK_SIZE
  {
    assert CopiesBelow(color, 1) == 3;
    assert CopiesBelow(color, 4) == 9;
  }

  /**
   * The dimensions of one serialized move: the number of players, and the
   * hand size the rules give for it.
   */
  datatype Layout = Layout(numPlayers: nat, handSize: nat)
  {
    predicate Ok() { 2 <= numPlayers <= 5 && handSize == HandSizeFromRules(numPlayers) }

    // The products of the layout are written as repeated sums (Span) here,
    // and LayoutSizes states them as the products they are.

    function BitsPerHand(): nat { 25 * handSize }

    function HandSectionLen(): nat { Span(numPlayers, BitsPerHand()) + numPlayers }

    function MaxRemainingDeckSize(): int { MAX_DECK_SIZE - Span(numPlayers, handSize) }

    function BoardSectionLen(): int {
      MaxRemainingDeckSize() + BITS_PER_CARD + MAX_INFO_TOKENS + MAX_LIFE_TOKENS
    }

    function DiscardSectionLen(): int { MAX_DECK_SIZE }

    function LastActionSectionLen(): nat {
      numPlayers + NUM_MOVE_TYPES + numPlayers + NUM_COLORS + NUM_RANKS + handSize + handSize + BITS_PER_CARD + 2
    }

    /** A card's 25 bits, then 5 colour-revealed and 5 rank-revealed bits, per card of every hand. */
    function BeliefSectionLen(): nat { Span(numPlayers, 35 * handSize) }

    /** Discards, plays, then colour and rank hints to each other player (5 of each). */
    function MaxMoves(): int
      requires numPlayers >= 1
    {
      handSize + handSize + Span(numPlayers - 1, 5) + Span(numPlayers - 1, 5)
    }

    /** numMoves: every discard, play, colour hint and rank hint, and one no-op. */
    function NumMoves(): (n: int)
      requires numPlayers >= 1
      ensures n == MaxMoves() + 1
    {
      SpanIsProduct(numPlayers - 1, 5);
      2 * handSize + (numPlayers - 1) * 5 + (numPlayers - 1) * 5 + 1
    }
  }

  /** The constructor's layout. */
  function LayoutFor(numPlayers: nat): (l: Layout)
    ensures l.numPlayers == numPlayers && l.handSize == HandSizeFromRules(numPlayers)
    ensures 2 <= numPlayers <= 5 ==> l.Ok()
  {
    Layout(numPlayers, HandSizeFromRules(numPlayers))
  }

  /**
   * The section lengths are the layout's products, and for two to five
   * players the deal leaves cards in the deck.
   */
  lemma LayoutSizes(l: Layout)
    requires l.Ok()
    ensures l.HandSectionLen() == l.numPlayers * l.handSize * BITS_PER_CARD + l.numPlayers
    ensures l.MaxRemainingDeckSize() == MAX_DECK_SIZE - l.numPlayers * l.handSize
    ensures l.BeliefSectionLen() == l.numPlayers * l.handSize * (BITS_PER_CARD + NUM_COLORS + NUM_RANKS)
    ensures 0 < l.MaxRemainingDeckSize() <= 40
    ensures l.NumMoves() == 2 * l.handSize + 10 * (l.numPlayers - 1) + 1
    ensures l.LastActionSectionLen() == 2 * l.numPlayers + 2 * l.handSize + 41
  {
    SpanIsProduct(l.numPlayers, l.BitsPerHand());
    SpanIsProduct(l.numPlayers, l.handSize);
    SpanIsProduct(l.numPlayers, 35 * l.handSize);
  }

  // ---------------------------------------------------------------------------
  // Bit strings
  // ---------------------------------------------------------------------------

  function Zeros(n: nat): (s: seq<int>)
    ensures |s| == n && forall i | 0 <= i < n :: s[i] == 0
  {
    seq(n, _ => 0)
  }

  /** w bits with bit k set, or all clear when k is not a position (the encoders' "nothing to mark"). */
  function Slot(k: int, w: nat): (s: seq<int>)
    ensures |s| == w && forall i | 0 <= i < w :: s[i] == (if i == k then 1 else 0)
  {
    seq(w, i => if i == k then 1 else 0)
  }

  /** A thermometer: the first k of w bits set. */
  function Thermometer(k: int, w: nat): (s: seq<int>)
    ensures |s| == w && forall i | 0 <= i < w :: s[i] == (if i < k then 1 else 0)
  {
    seq(w, i => if i < k then 1 else 0)
  }

  /** The position of the first set bit. */
  function FindOne(s: seq<int>): (r: Option<int>)
    ensures r.Some? ==> 0 <= r.value < |s| && s[r.value] == 1 && forall i | 0 <= i < r.value :: s[i] != 1
    ensures r.None? ==> forall i | 0 <= i < |s| :: s[i] != 1
  {
    if s == [] then None
    else if s[0] == 1 then Some(0)
    else match FindOne(s[1..]) case None => None case Some(i) => Some(i + 1)
  }

  /** The number of leading set bits. */
  function LeadingOnes(s: seq<int>): (n: nat)
    ensures n <= |s|
  {
    if s == [] || s[0] != 1 then 0 else 1 + LeadingOnes(s[1..])
  }

  /** A one-hot slot is read back as its position, and an empty slot as nothing. */
  lemma SlotDecodes(k: int, w: nat)
    ensures FindOne(Slot(k, w)) == if 0 <= k < w then Some(k) else None
  {
    var r := FindOne(Slot(k, w));
    if 0 <= k < w {
      assert Slot(k, w)[k] == 1;
    }
  }

  /** A thermometer of k bits out of w is read back as min(k, w). */
  lemma {:induction false} ThermometerDecodes(k: int, w: nat)
    requires k >= 0
    ensures LeadingOnes(Thermometer(k, w)) == if k < w then k else w
    decreases w
  {
    if w > 0 && k > 0 {
      assert Thermometer(k, w)[1..] == Thermometer(k - 1, w - 1);
      ThermometerDecodes(k - 1, w - 1);
    }
  }

  // ---------------------------------------------------------------------------
  // Writing into a zero-filled vector: the vector is always the bits written
  // so far (`done`) followed by zeros.
  // ---------------------------------------------------------------------------

  lemma ZerosSplit(m: nat, n: nat)
    ensures Zeros(m) + Zeros(n) == Zeros(m + n)
  {
  }

  /** Writing v at position k of the zero tail. */
  lemma WriteInZeros(done: seq<int>, n: nat, k: nat, v: int)
    requires k < n
    ensures (done + Zeros(n))[|done| + k := v] == done + Zeros(k) + [v] + Zeros(n - k - 1)
  {
  }

  /** The zero tail begins with a slot of w bits whose bit k is the one written. */
  lemma SlotInZeros(done: seq<int>, n: nat, k: int, w: nat)
    requires 0 <= k < w <= n
    ensures (done + Zeros(n))[|done| + k := 1] == done + Slot(k, w) + Zeros(n - w)
  {
  }

  /** An empty slot of w bits at the head of the zero tail. */
  lemma EmptySlotInZeros(done: seq<int>, n: nat, k: int, w: nat)
    requires w <= n && !(0 <= k < w)
    ensures done + Zeros(n) == done + Slot(k, w) + Zeros(n - w)
  {
  }

  /**
   * Writes v at offset `at`. Every encoder writes through this; the vector is
   * `done` followed by zeros and the write lands in the zero tail.
   */
  method Put(a: array<int>, at: int, v: int, ghost done: seq<int>, ghost k: nat)
    requires |done| + k < a.Length && a[..] == done + Zeros(a.Length - |done|) && at == |done| + k
    modifies a
    ensures a[..] == done + Zeros(k) + [v] + Zeros(a.Length - |done| - k - 1)
  {
    WriteInZeros(done, a.Length - |done|, k, v);
    a[at] := v;
  }

  /** Sets bit k of the w-bit slot at the head of the zero tail. */
  method SetBit(a: array<int>, at: int, k: int, w: nat, ghost done: seq<int>)
    requires 0 <= k < w && |done| + w <= a.Length && a[..] == done + Zeros(a.Length - |done|) && at == |done|
    modifies a
    ensures a[..] == done + Slot(k, w) + Zeros(a.Length - |done| - w)
  {
    SlotInZeros(done, a.Length - |done|, k, w);
    a[at + k] := 1;
  }

  /** std::fill of the first k of w bits at the head of the zero tail. */
  method FillThermometer(a: array<int>, at: int, k: nat, w: nat, ghost done: seq<int>)
    requires k <= w && |done| + w <= a.Length && a[..] == done + Zeros(a.Length - |done|) && at == |done|
    modifies a
    ensures a[..] == done + Thermometer(k, w) + Zeros(a.Length - |done| - w)
  {
    forall i | at <= i < at + k {
      a[i] := 1;
    }
    assert a[..] == done + Thermometer(k, w) + Zeros(a.Length - |done| - w);
  }

  /** b blocks of w bits, counted without multiplying. */
  function Span(b: nat, w: nat): nat {
    if b == 0 then 0 else Span(b - 1, w) + w
  }

  lemma {:induction false} SpanIsProduct(b: nat, w: nat)
    ensures Span(b, w) == b * w
  {
    if b > 0 {
      SpanIsProduct(b - 1, w);
    }
  }

  lemma {:induction false} SpanMonotone(a: nat, b: nat, w: nat)
    requires a <= b
    ensures Span(a, w) <= Span(b, w)
    decreases b
  {
    if a < b {
      SpanMonotone(a, b - 1, w);
    }
  }

  // ---------------------------------------------------------------------------
  // encodeHands
  // ---------------------------------------------------------------------------

  /** The one-hot code of each card, one after the other. */
  function CardsCode(cards: seq<Card>): (s: seq<int>)
    ensures |s| == 25 * |cards|
  {
    if cards == [] then [] else CardsCode(cards[..|cards| - 1]) + Slot(CardToIndex(cards[|cards| - 1]), BITS_PER_CARD)
  }

  /** A hand's block: its cards' codes, then empty card slots up to the hand size. */
  function HandCode(hand: seq<Card>, h: int): (s: seq<int>)
    requires |hand| <= h
    ensures |s| == 25 * h
  {
    CardsCode(hand) + Zeros(25 * (h - |hand|))
  }

  /** What the hands section is given: every player's hand, and whose view it is. */
  predicate HandsOk(l: Layout, me: int, hands: seq<seq<Card>>) {
    l.Ok() && |hands| == l.numPlayers && 0 <= me < l.numPlayers
    && forall q | 0 <= q < |hands| :: |hands[q]| <= l.handSize && (q != me ==> AllValid(hands[q]))
  }

  /** The player at a given offset after me. */
  function PlayerAt(l: Layout, me: int, offset: int): (p: int)
    requires l.Ok() && 0 <= me < l.numPlayers && 0 <= offset < l.numPlayers
    ensures 0 <= p < l.numPlayers
  {
    if offset + me < l.numPlayers then offset + me else offset + me - l.numPlayers
  }

  /** The seat of the player `offset` seats after me, as the encoders compute it with %. */
  lemma PlayerAtIsMod(l: Layout, me: int, offset: int)
    requires l.Ok() && 0 <= me < l.numPlayers && 0 <= offset < l.numPlayers
    ensures (offset + me) % l.numPlayers == PlayerAt(l, me, offset)
  {
  }

  /** The offsets 1 .. numPlayers - 1 after me are the other players. */
  lemma OtherPlayer(l: Layout, me: int, offset: int)
    requires l.Ok() && 0 <= me < l.numPlayers && 0 < offset < l.numPlayers
    ensures PlayerAt(l, me, offset) != me
  {
  }

  /** The blocks of the players at offsets 1 .. b - 1 after me. */
  function OthersCode(l: Layout, me: int, hands: seq<seq<Card>>, b: int): (s: seq<int>)
    requires HandsOk(l, me, hands) && 1 <= b <= l.numPlayers
    ensures |s| == Span(b - 1, l.BitsPerHand())
  {
    if b == 1 then []
    else OthersCode(l, me, hands, b - 1) + HandCode(hands[PlayerAt(l, me, b - 1)], l.handSize)
  }

  /** The short-hand flags of the players at offsets 0 .. b - 1 after me. */
  function ShortFlags(l: Layout, me: int, hands: seq<seq<Card>>, b: int): (s: seq<int>)
    requires HandsOk(l, me, hands) && 0 <= b <= l.numPlayers
    ensures |s| == b
  {
    if b == 0 then []
    else ShortFlags(l, me, hands, b - 1) + [if |hands[PlayerAt(l, me, b - 1)]| < l.handSize then 1 else 0]
  }

  /** The hands section: my own block all clear, the others' blocks in seat order after me, then the flags. */
  function HandsSpec(l: Layout, me: int, hands: seq<seq<Card>>): (s: seq<int>)
    requires HandsOk(l, me, hands)
    ensures |s| == l.HandSectionLen()
  {
    Zeros(l.BitsPerHand()) + OthersCode(l, me, hands, l.numPlayers) + ShortFlags(l, me, hands, l.numPlayers)
  }

  /** The inner loop of encodeHands for one hand: a card's code per card, then the skipped empty slots. */
  method WriteHand(a: array<int>, at: int, hand: seq<Card>, h: int, ghost done: seq<int>) returns (next: int)
    requires AllValid(hand) && |hand| <= h
    requires |done| + 25 * h <= a.Length && a[..] == done + Zeros(a.Length - |done|) && at == |done|
    modifies a
    ensures next == at + 25 * h
    ensures a[..] == done + HandCode(hand, h) + Zeros(a.Length - next)
  {
    next := at;
    var cidx := 0;
    while cidx < |hand|
      invariant 0 <= cidx <= |hand|
      invariant next == at + 25 * cidx
      invariant a[..] == done + CardsCode(hand[..cidx]) + Zeros(a.Length - next)
    {
      var index := CardToIndex(hand[cidx]);
      assert ValidCard(hand[cidx]);
      SetBit(a, next, index, BITS_PER_CARD, done + CardsCode(hand[..cidx]));
      assert hand[..cidx + 1][..cidx] == hand[..cidx];
      next := next + BITS_PER_CARD;
      cidx := cidx + 1;
    }
    assert hand[..cidx] == hand;
    ZerosSplit(25 * (h - |hand|), a.Length - |done| - 25 * h);
    next := next + 25 * (h - |hand|);
  }

  /** The first loop of encodeHands: the other players' blocks. */
  method WriteOthers(a: array<int>, l: Layout, me: int, hands: seq<seq<Card>>) returns (codeOffset: int)
    requires HandsOk(l, me, hands) && a.Length == Span(l.numPlayers, l.BitsPerHand()) + l.numPlayers
    requires a[..] == Zeros(l.BitsPerHand()) + Zeros(a.Length - l.BitsPerHand())
    modifies a
    ensures codeOffset == Span(l.numPlayers, l.BitsPerHand())
    ensures a[..] == Zeros(l.BitsPerHand()) + OthersCode(l, me, hands, l.numPlayers) + Zeros(a.Length - codeOffset)
  {
    var p, h := l.numPlayers, l.handSize;
    ghost var done := Zeros(l.BitsPerHand());
    codeOffset := l.BitsPerHand();
    var playerOffset := 1;
    while playerOffset < p
      invariant 1 <= playerOffset <= p
      invariant done == Zeros(l.BitsPerHand()) + OthersCode(l, me, hands, playerOffset)
      invariant codeOffset == |done| == Span(playerOffset, l.BitsPerHand())
      invariant a[..] == done + Zeros(a.Length - |done|)
    {
      var pidx := (playerOffset + me) % p;
      PlayerAtIsMod(l, me, playerOffset);
      OthersStep(l, me, hands, playerOffset);
      codeOffset := WriteHand(a, codeOffset, hands[pidx], h, done);
      done := done + HandCode(hands[pidx], h);
      playerOffset := playerOffset + 1;
    }
  }

  /** One more player's block extends the others' section by one hand's worth of bits. */
  lemma OthersStep(l: Layout, me: int, hands: seq<seq<Card>>, o: int)
    requires HandsOk(l, me, hands) && 1 <= o < l.numPlayers
    ensures PlayerAt(l, me, o) != me
    ensures Span(o + 1, l.BitsPerHand()) <= Span(l.numPlayers, l.BitsPerHand())
    ensures Span(o + 1, l.BitsPerHand()) == Span(o, l.BitsPerHand()) + l.BitsPerHand()
    ensures Zeros(l.BitsPerHand()) + OthersCode(l, me, hands, o + 1)
         == Zeros(l.BitsPerHand()) + OthersCode(l, me, hands, o) + HandCode(hands[PlayerAt(l, me, o)], l.handSize)
  {
    SpanMonotone(o + 1, l.numPlayers, l.BitsPerHand());
    OtherPlayer(l, me, o);
  }

  /** The second loop of encodeHands: the short-hand flags. */
  method WriteShortFlags(a: array<int>, at: int, l: Layout, me: int, hands: seq<seq<Card>>, ghost start: seq<int>)
    requires HandsOk(l, me, hands) && a.Length == |start| + l.numPlayers
    requires a[..] == start + Zeros(l.numPlayers) && at == |start|
    modifies a
    ensures a[..] == start + ShortFlags(l, me, hands, l.numPlayers)
  {
    var p, h := l.numPlayers, l.handSize;
    var codeOffset := at;
    var playerOffset := 0;
    while playerOffset < p
      invariant 0 <= playerOffset <= p
      invariant codeOffset == at + playerOffset
      invariant a[..] == start + ShortFlags(l, me, hands, playerOffset) + Zeros(p - playerOffset)
    {
      ghost var done := start + ShortFlags(l, me, hands, playerOffset);
      var pidx := (playerOffset + me) % p;
      PlayerAtIsMod(l, me, playerOffset);
      var size := |hands[pidx]|;
      if size < h {
        SetBit(a, codeOffset, 0, 1, done);
      } else {
        EmptySlotInZeros(done, a.Length - |done|, -1, 1);
      }
      codeOffset := codeOffset + 1;
      playerOffset := playerOffset + 1;
    }
  }

  /**
   * encodeHands: the section starts all clear; for each other player in seat
   * order after me, one bit per card at its card index, with room for a full
   * hand; then a flag per player, from me on, set when the hand is short.
   */
  method EncodeHands(l: Layout, me: int, hands: seq<seq<Card>>) returns (section: seq<int>)
    requires HandsOk(l, me, hands)
    ensures section == HandsSpec(l, me, hands)
  {
    var a := new int[l.HandSectionLen()](_ => 0);
    SpanMonotone(1, l.numPlayers, l.BitsPerHand());
    ZerosSplit(l.BitsPerHand(), a.Length - l.BitsPerHand());
    var codeOffset := WriteOthers(a, l, me, hands);
    WriteShortFlags(a, codeOffset, l, me, hands, Zeros(l.BitsPerHand()) + OthersCode(l, me, hands, l.numPlayers));
    section := a[..];
  }

  /** Reads a card back from its 25-bit slot. */
  function DecodeCard(block: seq<int>): (c: Option<Card>)
    ensures c.Some? ==> ValidCard(c.value) || |block| > BITS_PER_CARD
  {
    match FindOne(block)
    case None => None
    case Some(k) => Some(IndexToCard(k))
  }

  lemma {:induction false} CardsCodeAt(cards: seq<Card>, s: int)
    requires 0 <= s < |cards|
    ensures CardsCode(cards)[25 * s .. 25 * s + BITS_PER_CARD] == Slot(CardToIndex(cards[s]), BITS_PER_CARD)
  {
    var init := cards[..|cards| - 1];
    if s < |cards| - 1 {
      assert init[s] == cards[s];
      CardsCodeAt(init, s);
      assert CardsCode(cards)[..|CardsCode(init)|] == CardsCode(init);
    }
  }

  /** Each card slot of a hand's block reads back as that card, and the slots past the hand as nothing. */
  lemma HandCodeDecodes(hand: seq<Card>, h: int, s: int)
    requires AllValid(hand) && |hand| <= h && 0 <= s < h
    ensures DecodeCard(HandCode(hand, h)[25 * s .. 25 * s + BITS_PER_CARD])
            == if s < |hand| then Some(hand[s]) else None
  {
    var block := HandCode(hand, h)[25 * s .. 25 * s + BITS_PER_CARD];
    if s < |hand| {
      CardsCodeAt(hand, s);
      assert block == CardsCode(hand)[25 * s .. 25 * s + BITS_PER_CARD];
      assert ValidCard(hand[s]);
      SlotDecodes(CardToIndex(hand[s]), BITS_PER_CARD);
      CardIndexRoundTrip(hand[s]);
    } else {
      assert block == Slot(-1, BITS_PER_CARD);
      SlotDecodes(-1, BITS_PER_CARD);
    }
  }

  lemma {:induction false} OthersCodeAt(l: Layout, me: int, hands: seq<seq<Card>>, m: int, b: int)
    requires HandsOk(l, me, hands) && 1 <= b < m <= l.numPlayers
    ensures OthersCode(l, me, hands, m)[Span(b - 1, l.BitsPerHand()) .. Span(b, l.BitsPerHand())]
            == HandCode(hands[PlayerAt(l, me, b)], l.handSize)
    decreases m
  {
    var w := l.BitsPerHand();
    var front := OthersCode(l, me, hands, m - 1);
    var back := HandCode(hands[PlayerAt(l, me, m - 1)], l.handSize);
    assert OthersCode(l, me, hands, m) == front + back;
    if b < m - 1 {
      OthersCodeAt(l, me, hands, m - 1, b);
      SpanMonotone(b, m - 2, w);
      SliceOfFront(front, back, Span(b - 1, w), Span(b, w));
    } else {
      SliceOfBack(front, back, Span(b - 1, w), Span(b, w));
    }
  }

  /** Where slot s of the block at seat offset b starts in the hands section. */
  function CardSlotAt(l: Layout, b: int, s: int): (at: int)
    requires l.Ok() && 1 <= b < l.numPlayers && 0 <= s < l.handSize
    ensures 0 <= at && at + BITS_PER_CARD <= l.HandSectionLen()
  {
    SpanMonotone(b + 1, l.numPlayers, l.BitsPerHand());
    Span(b, l.BitsPerHand()) + 25 * s
  }

  /** Where the short-hand flag of the player o seats after me is. */
  function FlagAt(l: Layout, o: int): (at: int)
    requires l.Ok() && 0 <= o < l.numPlayers
    ensures 0 <= at < l.HandSectionLen()
  {
    Span(l.numPlayers, l.BitsPerHand()) + o
  }

  /** The hands section read back: my own block is clear. */
  lemma OwnBlockClear(l: Layout, me: int, hands: seq<seq<Card>>)
    requires HandsOk(l, me, hands)
    ensures HandsSpec(l, me, hands)[..l.BitsPerHand()] == Zeros(l.BitsPerHand())
  {
    var section := HandsSpec(l, me, hands);
    assert section == Zeros(l.BitsPerHand()) + (OthersCode(l, me, hands, l.numPlayers) + ShortFlags(l, me, hands, l.numPlayers));
  }

  /**
   * The hands section read back: slot s of the block at seat offset b shows
   * card s of the player b seats after me, or nothing past the end of a short hand.
   */
  lemma OthersCardsDecode(l: Layout, me: int, hands: seq<seq<Card>>, b: int, s: int)
    requires HandsOk(l, me, hands) && 1 <= b < l.numPlayers && 0 <= s < l.handSize
    ensures var at := CardSlotAt(l, b, s);
            var hand := hands[PlayerAt(l, me, b)];
            DecodeCard(HandsSpec(l, me, hands)[at .. at + BITS_PER_CARD]) == if s < |hand| then Some(hand[s]) else None
  {
    OtherPlayer(l, me, b);
    CardSlotIsInBlock(l, me, hands, b, s);
    HandCodeDecodes(hands[PlayerAt(l, me, b)], l.handSize, s);
  }

  lemma CardSlotIsInBlock(l: Layout, me: int, hands: seq<seq<Card>>, b: int, s: int)
    requires HandsOk(l, me, hands) && 1 <= b < l.numPlayers && 0 <= s < l.handSize
    ensures var at := CardSlotAt(l, b, s);
            HandsSpec(l, me, hands)[at .. at + 25] == HandCode(hands[PlayerAt(l, me, b)], l.handSize)[25 * s .. 25 * s + 25]
  {
    var bph := l.BitsPerHand();
    var lo, hi := Span(b - 1, bph), Span(b, bph);
    var others := OthersCode(l, me, hands, l.numPlayers);
    assert hi == lo + bph <= |others| by {
      SpanMonotone(b, l.numPlayers - 1, bph);
    }
    var block := HandCode(hands[PlayerAt(l, me, b)], l.handSize);
    OthersCodeAt(l, me, hands, l.numPlayers, b);
    SlotOfBlock(HandsSpec(l, me, hands), Zeros(bph), others, ShortFlags(l, me, hands, l.numPlayers),
                lo, hi, block, 25 * s, CardSlotAt(l, b, s));
  }

  /** A 25-bit slot of a block of the middle part of a concatenation. */
  lemma SlotOfBlock(whole: seq<int>, x: seq<int>, y: seq<int>, z: seq<int>, lo: int, hi: int,
                    block: seq<int>, i: int, at: int)
    requires whole == x + y + z && 0 <= lo <= hi <= |y| && y[lo..hi] == block
    requires 0 <= i && i + 25 <= hi - lo && at == |x| + lo + i
    ensures whole[at .. at + 25] == block[i .. i + 25]
  {
    SliceOfConcat(x, y, z, lo + i, lo + i + 25);
    SliceOfSlice(y, lo, hi, i, i + 25);
  }



  lemma SliceOfConcat(x: seq<int>, y: seq<int>, z: seq<int>, i: int, j: int)
    requires 0 <= i <= j <= |y|
    ensures (x + y + z)[|x| + i .. |x| + j] == y[i..j]
  {
  }

  lemma SliceOfSlice(s: seq<int>, lo: int, hi: int, i: int, j: int)
    requires 0 <= lo <= hi <= |s| && 0 <= i <= j <= hi - lo
    ensures s[lo..hi][i..j] == s[lo + i .. lo + j]
  {
    assert forall k | 0 <= k < j - i :: s[lo..hi][i..j][k] == s[lo + i + k];
  }

  /** The hands section read back: the flag of the player o seats after me is set iff that hand is short. */
  lemma ShortFlagDecodes(l: Layout, me: int, hands: seq<seq<Card>>, o: int)
    requires HandsOk(l, me, hands) && 0 <= o < l.numPlayers
    ensures HandsSpec(l, me, hands)[FlagAt(l, o)] == if |hands[PlayerAt(l, me, o)]| < l.handSize then 1 else 0
  {
    var section := HandsSpec(l, me, hands);
    assert section == (Zeros(l.BitsPerHand()) + OthersCode(l, me, hands, l.numPlayers)) + ShortFlags(l, me, hands, l.numPlayers);
    ShortFlagsAt(l, me, hands, l.numPlayers, o);
  }

  lemma {:induction false} ShortFlagsAt(l: Layout, me: int, hands: seq<seq<Card>>, m: int, o: int)
    requires HandsOk(l, me, hands) && 0 <= o < m <= l.numPlayers
    ensures ShortFlags(l, me, hands, m)[o] == if |hands[PlayerAt(l, me, o)]| < l.handSize then 1 else 0
    decreases m
  {
    if o < m - 1 {
      ShortFlagsAt(l, me, hands, m - 1, o);
    }
  }

  // ---------------------------------------------------------------------------
  // encodeBoard
  // ---------------------------------------------------------------------------

  /** The top card of each of the first n piles, one-hot over the ranks; an empty pile is all clear. */
  function PilesCode(piles: seq<Pile>, n: int): (s: seq<int>)
    requires 0 <= n <= |piles|
    ensures |s| == 5 * n
  {
    if n == 0 then [] else PilesCode(piles, n - 1) + Slot(piles[n - 1].size - 1, NUM_RANKS)
  }

  /** What the board section is given: the deck, the five piles and the two kinds of token. */
  predicate BoardOk(l: Layout, deckLeft: int, piles: seq<Pile>, hints: int, lives: int) {
    l.Ok() && 0 <= deckLeft <= l.MaxRemainingDeckSize() && |piles| == NUM_COLORS
    && (forall i | 0 <= i < |piles| :: piles[i].color == i && 0 <= piles[i].size <= NUM_RANKS)
    && 0 <= hints <= MAX_INFO_TOKENS && 0 <= lives <= MAX_LIFE_TOKENS
  }

  /**
   * The board section: a thermometer of the cards left in the deck, the
   * piles' top cards, then thermometers of the hint and life tokens.
   */
  function BoardSpec(l: Layout, deckLeft: int, piles: seq<Pile>, hints: int, lives: int): (s: seq<int>)
    requires BoardOk(l, deckLeft, piles, hints, lives)
    ensures |s| == l.BoardSectionLen()
  {
    Thermometer(deckLeft, l.MaxRemainingDeckSize()) + PilesCode(piles, NUM_COLORS)
    + Thermometer(hints, MAX_INFO_TOKENS) + Thermometer(lives, MAX_LIFE_TOKENS)
  }

  method EncodeBoard(l: Layout, deckLeft: int, piles: seq<Pile>, hints: int, lives: int) returns (section: seq<int>)
    requires BoardOk(l, deckLeft, piles, hints, lives)
    ensures section == BoardSpec(l, deckLeft, piles, hints, lives)
  {
    var a := new int[l.BoardSectionLen()](_ => 0);
    var maxRem := l.MaxRemainingDeckSize();
    assert a[..] == [] + Zeros(a.Length);
    FillThermometer(a, 0, deckLeft, maxRem, []);
    ghost var done := Thermometer(deckLeft, maxRem);
    assert a[..] == done + Zeros(a.Length - |done|);
    WritePiles(a, maxRem, piles, done);
    done := done + PilesCode(piles, NUM_COLORS);
    var codeOffset := maxRem + 25;
    FillThermometer(a, codeOffset, hints, MAX_INFO_TOKENS, done);
    done := done + Thermometer(hints, MAX_INFO_TOKENS);
    codeOffset := codeOffset + MAX_INFO_TOKENS;
    FillThermometer(a, codeOffset, lives, MAX_LIFE_TOKENS, done);
    done := done + Thermometer(lives, MAX_LIFE_TOKENS);
    assert a[..] == done;
    section := a[..];
  }

  /** The loop of encodeBoard over the five piles: each pile's top card as a five-bit field. */
  method WritePiles(a: array<int>, at: int, piles: seq<Pile>, ghost front: seq<int>)
    requires |piles| == NUM_COLORS
    requires forall i | 0 <= i < |piles| :: piles[i].color == i && 0 <= piles[i].size <= NUM_RANKS
    requires |front| + 25 <= a.Length && a[..] == front + Zeros(a.Length - |front|) && at == |front|
    modifies a
    ensures a[..] == front + PilesCode(piles, NUM_COLORS) + Zeros(a.Length - |front| - 25)
  {
    ghost var done := front;
    var codeOffset := at;
    var i := 0;
    while i < NUM_COLORS
      invariant 0 <= i <= NUM_COLORS
      invariant done == front + PilesCode(piles, i)
      invariant codeOffset == |done| && a[..] == done + Zeros(a.Length - |done|)
    {
      WritePileTop(a, codeOffset, piles[i], done);
      SeqUtil.AppendAssoc(front, PilesCode(piles, i), Slot(piles[i].size - 1, NUM_RANKS));
      codeOffset := codeOffset + NUM_RANKS;
      done := done + Slot(piles[i].size - 1, NUM_RANKS);
      i := i + 1;
    }
  }

  /** One pile's field: the bit of its top card's value, or nothing for an empty pile. */
  method WritePileTop(a: array<int>, at: int, pile: Pile, ghost done: seq<int>)
    requires 0 <= pile.color < NUM_COLORS && 0 <= pile.size <= NUM_RANKS
    requires |done| + NUM_RANKS <= a.Length && a[..] == done + Zeros(a.Length - |done|) && at == |done|
    modifies a
    ensures a[..] == done + Slot(pile.size - 1, NUM_RANKS) + Zeros(a.Length - |done| - NUM_RANKS)
  {
    if PileEmpty(pile) {
      EmptySlotInZeros(done, a.Length - |done|, pile.size - 1, NUM_RANKS);
    } else {
      var top := TopCard(pile);
      var index := top.value.value - 1;
      SetBit(a, at, index, NUM_RANKS, done);
    }
  }

  lemma {:induction false} PilesCodeAt(piles: seq<Pile>, n: int, i: int)
    requires 0 <= i < n <= |piles|
    ensures PilesCode(piles, n)[5 * i .. 5 * i + 5] == Slot(piles[i].size - 1, NUM_RANKS)
  {
    if i < n - 1 {
      PilesCodeAt(piles, n - 1, i);
      assert PilesCode(piles, n)[..5 * (n - 1)] == PilesCode(piles, n - 1);
    }
  }

  /** The four parts of the board section, where they lie. */
  lemma BoardParts(l: Layout, deckLeft: int, piles: seq<Pile>, hints: int, lives: int)
    requires BoardOk(l, deckLeft, piles, hints, lives)
    ensures var s, m := BoardSpec(l, deckLeft, piles, hints, lives), l.MaxRemainingDeckSize();
            && |s| == m + 36
            && s[..m] == Thermometer(deckLeft, m)
            && s[m .. m + 25] == PilesCode(piles, NUM_COLORS)
            && s[m + 25 .. m + 33] == Thermometer(hints, MAX_INFO_TOKENS)
            && s[m + 33 ..] == Thermometer(lives, MAX_LIFE_TOKENS)
  {
    var m := l.MaxRemainingDeckSize();
    var deck, code := Thermometer(deckLeft, m), PilesCode(piles, NUM_COLORS);
    var hs, ls := Thermometer(hints, MAX_INFO_TOKENS), Thermometer(lives, MAX_LIFE_TOKENS);
    var s := BoardSpec(l, deckLeft, piles, hints, lives);
    assert s == deck + code + hs + ls;
  }

  /** The piles' part of the board section, where it lies. */
  lemma BoardPilesPart(l: Layout, deckLeft: int, piles: seq<Pile>, hints: int, lives: int)
    requires BoardOk(l, deckLeft, piles, hints, lives)
    ensures var s, m := BoardSpec(l, deckLeft, piles, hints, lives), l.MaxRemainingDeckSize();
            |s| == m + 36 && s[m .. m + 25] == PilesCode(piles, NUM_COLORS)
  {
    var m := l.MaxRemainingDeckSize();
    var deck, code := Thermometer(deckLeft, m), PilesCode(piles, NUM_COLORS);
    var rest := Thermometer(hints, MAX_INFO_TOKENS) + Thermometer(lives, MAX_LIFE_TOKENS);
    assert BoardSpec(l, deckLeft, piles, hints, lives) == deck + code + rest;
    SliceOfConcat(deck, code, rest, 0, 25);
  }

  /** The board section read back: the deck and token thermometers give the counts. */
  lemma BoardCountsDecode(l: Layout, deckLeft: int, piles: seq<Pile>, hints: int, lives: int)
    requires BoardOk(l, deckLeft, piles, hints, lives)
    ensures var s, m := BoardSpec(l, deckLeft, piles, hints, lives), l.MaxRemainingDeckSize();
            && LeadingOnes(s[..m]) == deckLeft
            && LeadingOnes(s[m + 25 .. m + 33]) == hints
            && LeadingOnes(s[m + 33 ..]) == lives
  {
    BoardParts(l, deckLeft, piles, hints, lives);
    ThermometerDecodes(deckLeft, l.MaxRemainingDeckSize());
    ThermometerDecodes(hints, MAX_INFO_TOKENS);
    ThermometerDecodes(lives, MAX_LIFE_TOKENS);
  }

  /**
   * The board section read back: pile i's field is clear iff the pile is
   * empty and otherwise names the pile's top card.
   */
  lemma BoardPileDecodes(l: Layout, deckLeft: int, piles: seq<Pile>, hints: int, lives: int, i: int)
    requires BoardOk(l, deckLeft, piles, hints, lives) && 0 <= i < NUM_COLORS
    ensures var s, m := BoardSpec(l, deckLeft, piles, hints, lives), l.MaxRemainingDeckSize();
            var top := FindOne(s[m + 5 * i .. m + 5 * i + 5]);
            && (top.None? <==> PileEmpty(piles[i]))
            && (top.Some? ==> TopCard(piles[i]) == Ok(Card(i, top.value + 1)))
  {
    var m := l.MaxRemainingDeckSize();
    var s := BoardSpec(l, deckLeft, piles, hints, lives);
    BoardPileField(l, deckLeft, piles, hints, lives, i);
    PileFieldDecodes(piles[i], i, s[m + 5 * i .. m + 5 * i + 5]);
  }

  /** Pile i's five-bit field in the board section. */
  lemma BoardPileField(l: Layout, deckLeft: int, piles: seq<Pile>, hints: int, lives: int, i: int)
    requires BoardOk(l, deckLeft, piles, hints, lives) && 0 <= i < NUM_COLORS
    ensures var s, m := BoardSpec(l, deckLeft, piles, hints, lives), l.MaxRemainingDeckSize();
            |s| == m + 36 && s[m + 5 * i .. m + 5 * i + 5] == Slot(piles[i].size - 1, NUM_RANKS)
  {
    var m := l.MaxRemainingDeckSize();
    var s := BoardSpec(l, deckLeft, piles, hints, lives);
    BoardPilesPart(l, deckLeft, piles, hints, lives);
    SliceOfSlice(s, m, m + 25, 5 * i, 5 * i + 5);
    PilesCodeAt(piles, NUM_COLORS, i);
  }

  /** A pile's five-bit field read back. */
  lemma PileFieldDecodes(pile: Pile, i: int, field: seq<int>)
    requires 0 <= pile.size <= VALUE_MAX && pile.color == i && field == Slot(pile.size - 1, NUM_RANKS)
    ensures var top := FindOne(field);
            && (top.None? <==> PileEmpty(pile))
            && (top.Some? ==> TopCard(pile) == Ok(Card(i, top.value + 1)))
  {
    SlotDecodes(pile.size - 1, NUM_RANKS);
  }

  // ---------------------------------------------------------------------------
  // encodeDiscard
  // ---------------------------------------------------------------------------

  /** How many of the cards have card index j. */
  function Discarded(cards: seq<Card>, j: int): (n: nat)
    ensures n <= |cards|
  {
    if cards == [] then 0
    else Discarded(cards[..|cards| - 1], j) + (if CardToIndex(cards[|cards| - 1]) == j then 1 else 0)
  }

  /** For valid cards, the count at a card's index is how many copies of that card there are. */
  lemma {:induction false} DiscardedIsMultiplicity(cards: seq<Card>, c: Card)
    requires AllValid(cards) && ValidCard(c)
    ensures Discarded(cards, CardToIndex(c)) == multiset(cards)[c]
  {
    if cards != [] {
      var init, last := cards[..|cards| - 1], cards[|cards| - 1];
      assert cards == init + [last];
      DiscardedIsMultiplicity(init, c);
      CardIndexRoundTrip(c);
      CardIndexRoundTrip(last);
    }
  }

  /** The fields of the colour's cards of rank below r: count[j] set bits of as many as the card has copies. */
  function ColorCode(counts: seq<int>, color: int, r: int): (s: seq<int>)
    requires |counts| == BITS_PER_CARD && 0 <= color < NUM_COLORS && 0 <= r <= NUM_RANKS
    ensures |s| == CopiesBelow(color, r)
  {
    if r == 0 then []
    else ColorCode(counts, color, r - 1) + Thermometer(counts[color * 5 + r - 1], NumberCardInstance(color, r - 1))
  }

  /** The fields of the cards of the colours below c, colour-major and rank-minor, ten bits per colour. */
  function DiscardCode(counts: seq<int>, c: int): (s: seq<int>)
    requires |counts| == BITS_PER_CARD && 0 <= c <= NUM_COLORS
    ensures |s| == 10 * c
  {
    if c == 0 then []
    else
      ColorInstances(c - 1);
      DiscardCode(counts, c - 1) + ColorCode(counts, c - 1, NUM_RANKS)
  }

  /** How many copies of each of the 25 cards were discarded, by card index. */
  function DiscardCounts(discards: seq<Card>): (counts: seq<int>)
    ensures |counts| == BITS_PER_CARD
  {
    seq(BITS_PER_CARD, j => Discarded(discards, j))
  }

  /** The discard section. */
  function DiscardSpec(discards: seq<Card>): (s: seq<int>)
    ensures |s| == MAX_DECK_SIZE
  {
    DiscardCode(DiscardCounts(discards), NUM_COLORS)
  }

  /** The counting loop of encodeDiscard. */
  method CountDiscards(discards: seq<Card>) returns (counts: seq<int>)
    requires AllValid(discards)
    ensures counts == DiscardCounts(discards)
  {
    var discardCount := new int[BITS_PER_CARD](_ => 0);
    var k := 0;
    while k < |discards|
      invariant 0 <= k <= |discards|
      invariant forall j | 0 <= j < BITS_PER_CARD :: discardCount[j] == Discarded(discards[..k], j)
    {
      assert discards[..k + 1][..k] == discards[..k];
      var index := CardToIndex(discards[k]);
      discardCount[index] := discardCount[index] + 1;
      k := k + 1;
    }
    assert discards[..k] == discards;
    counts := discardCount[..];
  }

  /** The innermost loop of encodeDiscard: bit i of a card's field is set iff i < numDiscarded. */
  method WriteCopies(a: array<int>, at: int, numDiscarded: int, numCard: nat, ghost done: seq<int>)
    requires |done| + numCard <= a.Length && a[..] == done + Zeros(a.Length - |done|) && at == |done|
    modifies a
    ensures a[..] == done + Thermometer(numDiscarded, numCard) + Zeros(a.Length - |done| - numCard)
  {
    var i := 0;
    while i < numCard
      invariant 0 <= i <= numCard
      invariant a[..] == done + Thermometer(numDiscarded, i) + Zeros(a.Length - |done| - i)
    {
      ghost var before := done + Thermometer(numDiscarded, i);
      var bit := if i < numDiscarded then 1 else 0;
      Put(a, at + i, bit, before, 0);
      assert before + [bit] == done + Thermometer(numDiscarded, i + 1);
      i := i + 1;
    }
  }

  /** The rank loop of encodeDiscard for colour c: the fields of that colour's five cards. */
  method WriteColor(a: array<int>, at: int, counts: seq<int>, c: int, ghost done: seq<int>) returns (next: int)
    requires |counts| == BITS_PER_CARD && 0 <= c < NUM_COLORS && a.Length == MAX_DECK_SIZE
    requires done == DiscardCode(counts, c) && at == |done| && a[..] == done + Zeros(a.Length - |done|)
    modifies a
    ensures next == 10 * c + 10
    ensures a[..] == DiscardCode(counts, c + 1) + Zeros(a.Length - next)
  {
    ColorInstances(c);
    ghost var written := done;
    assert done + ColorCode(counts, c, 0) == done;
    next := at;
    var r := 0;
    while r < NUM_RANKS
      invariant 0 <= r <= NUM_RANKS
      invariant written == done + ColorCode(counts, c, r) && next == |written|
      invariant a[..] == written + Zeros(a.Length - |written|)
    {
      var numDiscarded := counts[c * 5 + r];
      var numCard := NumberCardInstance(c, r);
      CopiesMonotone(c, r + 1, NUM_RANKS);
      WriteCopies(a, next, numDiscarded, numCard, written);
      ColorCodeStep(done, counts, c, r);
      written := written + Thermometer(numDiscarded, numCard);
      next := next + numCard;
      r := r + 1;
    }
  }

  /** One more rank's copies after the fields written so far. */
  lemma ColorCodeStep(done: seq<int>, counts: seq<int>, c: int, r: int)
    requires |counts| == BITS_PER_CARD && 0 <= c < NUM_COLORS && 0 <= r < NUM_RANKS
    ensures done + ColorCode(counts, c, r + 1)
            == done + ColorCode(counts, c, r) + Thermometer(counts[c * 5 + r], NumberCardInstance(c, r))
  {
    var copies := Thermometer(counts[c * 5 + r], NumberCardInstance(c, r));
    assert ColorCode(counts, c, r + 1) == ColorCode(counts, c, r) + copies;
    SeqUtil.AppendAssoc(done, ColorCode(counts, c, r), copies);
  }

  method EncodeDiscard(discards: seq<Card>) returns (section: seq<int>)
    requires AllValid(discards)
    ensures section == DiscardSpec(discards)
  {
    var a := new int[MAX_DECK_SIZE](_ => 0);
    var counts := CountDiscards(discards);
    assert a[..] == [] + Zeros(a.Length);
    var offset := 0;
    var c := 0;
    while c < NUM_COLORS
      invariant 0 <= c <= NUM_COLORS && offset == 10 * c
      invariant a[..] == DiscardCode(counts, c) + Zeros(a.Length - offset)
    {
      offset := WriteColor(a, offset, counts, c, DiscardCode(counts, c));
      c := c + 1;
    }
    assert a[..] == DiscardCode(counts, NUM_COLORS);
    section := a[..];
  }

  /** A slice inside the front part of a concatenation is a slice of that front part. */
  lemma SliceOfFront(front: seq<int>, back: seq<int>, x: int, y: int)
    requires 0 <= x <= y <= |front|
    ensures (front + back)[x..y] == front[x..y]
  {
  }

  /** The part of a concatenation after its front part is the back part. */
  lemma SliceOfBack(front: seq<int>, back: seq<int>, x: int, y: int)
    requires x == |front| && y == |front| + |back|
    ensures (front + back)[x..y] == back
  {
  }

  lemma {:induction false} ColorCodeAt(counts: seq<int>, color: int, n: int, r: int)
    requires |counts| == BITS_PER_CARD && 0 <= color < NUM_COLORS && 0 <= r < n <= NUM_RANKS
    ensures CopiesBelow(color, r + 1) <= CopiesBelow(color, n)
    ensures ColorCode(counts, color, n)[CopiesBelow(color, r) .. CopiesBelow(color, r + 1)]
            == Thermometer(counts[color * 5 + r], NumberCardInstance(color, r))
    decreases n
  {
    CopiesMonotone(color, r + 1, n);
    var front := ColorCode(counts, color, n - 1);
    var back := Thermometer(counts[color * 5 + n - 1], NumberCardInstance(color, n - 1));
    assert ColorCode(counts, color, n) == front + back;
    if r < n - 1 {
      ColorCodeAt(counts, color, n - 1, r);
      SliceOfFront(front, back, CopiesBelow(color, r), CopiesBelow(color, r + 1));
    } else {
      SliceOfBack(front, back, CopiesBelow(color, r), CopiesBelow(color, r + 1));
    }
  }

  lemma {:induction false} DiscardCodeAt(counts: seq<int>, n: int, c: int)
    requires |counts| == BITS_PER_CARD && 0 <= c < n <= NUM_COLORS
    ensures DiscardCode(counts, n)[10 * c .. 10 * c + 10] == ColorCode(counts, c, NUM_RANKS)
    decreases n
  {
    ColorInstances(c);
    if c < n - 1 {
      DiscardCodeAt(counts, n - 1, c);
      assert DiscardCode(counts, n)[..10 * (n - 1)] == DiscardCode(counts, n - 1);
    }
  }

  /** Where the field of a card starts in the discard section. */
  function FieldAt(c: Card): (at: nat)
    requires ValidCard(c)
    ensures at + Count(c) <= MAX_DECK_SIZE
  {
    ColorInstances(c.color);
    CopiesMonotone(c.color, c.value, NUM_RANKS);
    InstancesMatchDeck(c);
    10 * c.color + CopiesBelow(c.color, c.value - 1)
  }

  /**
   * The discard section read back: a card's field starts with as many set
   * bits as copies of that card were discarded, up to the copies there are.
   */
  lemma DiscardDecodes(discards: seq<Card>, c: Card)
    requires AllValid(discards) && ValidCard(c)
    ensures var at, n := FieldAt(c), multiset(discards)[c];
            LeadingOnes(DiscardSpec(discards)[at .. at + Count(c)]) == if n < Count(c) then n else Count(c)
  {
    DiscardField(discards, c);
    DiscardedIsMultiplicity(discards, c);
    ThermometerDecodes(Discarded(discards, CardToIndex(c)), Count(c));
  }

  /** A card's field in the discard section is the thermometer of its discarded count. */
  lemma DiscardField(discards: seq<Card>, c: Card)
    requires AllValid(discards) && ValidCard(c)
    ensures DiscardSpec(discards)[FieldAt(c) .. FieldAt(c) + Count(c)]
            == Thermometer(Discarded(discards, CardToIndex(c)), Count(c))
  {
    var counts := DiscardCounts(discards);
    CountsField(counts, c);
    assert counts[CardToIndex(c)] == Discarded(discards, CardToIndex(c));
  }

  /** A card's field in the code of a table of counts. */
  lemma CountsField(counts: seq<int>, c: Card)
    requires |counts| == BITS_PER_CARD && ValidCard(c)
    ensures DiscardCode(counts, NUM_COLORS)[FieldAt(c) .. FieldAt(c) + Count(c)]
            == Thermometer(counts[CardToIndex(c)], Count(c))
  {
    var r, base := c.value - 1, 10 * c.color;
    var lo, hi := CopiesBelow(c.color, r), CopiesBelow(c.color, r + 1);
    var whole, colorCode := DiscardCode(counts, NUM_COLORS), ColorCode(counts, c.color, NUM_RANKS);
    var field := Thermometer(counts[CardToIndex(c)], Count(c));
    InstancesMatchDeck(c);
    ColorCodeAt(counts, c.color, NUM_RANKS, r);
    assert colorCode[lo..hi] == field;
    DiscardCodeAt(counts, NUM_COLORS, c.color);
    assert whole[base .. base + 10] == colorCode;
    SliceOfSlice(whole, base, base + 10, lo, hi);
    assert FieldAt(c) == base + lo && FieldAt(c) + Count(c) == base + hi;
  }

  // ---------------------------------------------------------------------------
  // encodeLastAction
  // ---------------------------------------------------------------------------

  /** The seat that moved before the active player: the one whose next seat is the active one. */
  function PrevPlayer(l: Layout, active: int): (q: int)
    requires l.Ok() && 0 <= active < l.numPlayers
    ensures 0 <= q < l.numPlayers && PlayerAt(l, q, 1) == active
  {
    if active == 0 then l.numPlayers - 1 else active - 1
  }

  /** How many seats after me player x sits: the offset PlayerAt turns back into x. */
  function RelativeSeat(l: Layout, me: int, x: int): (o: int)
    requires l.Ok() && 0 <= me < l.numPlayers && 0 <= x < l.numPlayers
    ensures 0 <= o < l.numPlayers && PlayerAt(l, me, o) == x
    ensures o == 0 <==> x == me
  {
    if me <= x then x - me else x - me + l.numPlayers
  }

  /** The encoder's remainders are these seats. */
  lemma SeatsAreMod(l: Layout, me: int, x: int)
    requires l.Ok() && 0 <= me < l.numPlayers && 0 <= x < l.numPlayers
    ensures (x + l.numPlayers - 1) % l.numPlayers == PrevPlayer(l, x)
    ensures (l.numPlayers + x - me) % l.numPlayers == RelativeSeat(l, me, x)
  {
    var p := l.numPlayers;
    if x == 0 { RemainderBelow(x + p - 1, p); } else { RemainderOnce(x + p - 1, p); }
    if me <= x { RemainderOnce(p + x - me, p); } else { RemainderBelow(p + x - me, p); }
  }

  /** The encoder's (active + numPlayers - 1) % numPlayers. */
  method PreviousSeat(l: Layout, active: int) returns (q: int)
    requires l.Ok() && 0 <= active < l.numPlayers
    ensures q == PrevPlayer(l, active)
  {
    SeatsAreMod(l, 0, active);
    q := (active + l.numPlayers - 1) % l.numPlayers;
  }

  /** The encoder's (numPlayers + x - me) % numPlayers. */
  method SeatsAfter(l: Layout, me: int, x: int) returns (o: int)
    requires l.Ok() && 0 <= me < l.numPlayers && 0 <= x < l.numPlayers
    ensures o == RelativeSeat(l, me, x)
  {
    SeatsAreMod(l, me, x);
    o := (l.numPlayers + x - me) % l.numPlayers;
  }

  /** The reveal outcome: bit i set iff the hint touched card i (CardIndices::contains). */
  function Mask(bits: set<int>, n: nat): (s: seq<int>)
    ensures |s| == n && forall i | 0 <= i < n :: s[i] == (if 0 <= i < 8 && i in bits then 1 else 0)
  {
    seq(n, i => if 0 <= i < 8 && i in bits then 1 else 0)
  }

  predicate PlayOrDiscard(t: MoveType) { t == PLAY_CARD || t == DISCARD_CARD }

  /**
   * The previous move as the server reports it: built by Move's constructor,
   * a hint names another seat and a colour or value, a play or discard names
   * a card of the hand, and the card it moved is a real card.
   */
  predicate LastMoveOk(l: Layout, me: int, active: int, m: Move, card: Card) {
    l.Ok() && 0 <= me < l.numPlayers && 0 <= active < l.numPlayers && WellFormed(m)
    && HintOk(l, m) && (PlayOrDiscard(m.kind) ==> 0 <= m.value < l.handSize && ValidCard(card))
  }

  predicate HintOk(l: Layout, m: Move) {
    && (IsHint(m.kind) ==> 0 <= m.to < l.numPlayers)
    && (m.kind == HINT_COLOR ==> 0 <= m.value < NUM_COLORS)
    && (m.kind == HINT_VALUE ==> 1 <= m.value <= NUM_RANKS)
  }

  /** Who moved, relative to me, and the move type. */
  function MoverCode(l: Layout, me: int, active: int, m: Move): (s: seq<int>)
    requires l.Ok() && 0 <= me < l.numPlayers && 0 <= active < l.numPlayers
    ensures |s| == l.numPlayers + NUM_MOVE_TYPES
  {
    Slot(RelativeSeat(l, me, PrevPlayer(l, active)), l.numPlayers) + Slot(TypeRank(m.kind), NUM_MOVE_TYPES)
  }

  /** The hinted seat relative to me, the colour revealed and the value revealed; clear for other moves. */
  function HintCode(l: Layout, me: int, m: Move): (s: seq<int>)
    requires l.Ok() && 0 <= me < l.numPlayers && HintOk(l, m)
    ensures |s| == l.numPlayers + NUM_COLORS + NUM_RANKS
  {
    Slot(if IsHint(m.kind) then RelativeSeat(l, me, m.to) else -1, l.numPlayers)
    + Slot(if m.kind == HINT_COLOR then m.value else -1, NUM_COLORS)
    + Slot(if m.kind == HINT_VALUE then m.value - 1 else -1, NUM_RANKS)
  }

  /** The cards a hint touched, the position and the card played or discarded, and the two play outcomes. */
  function LastActionTail(l: Layout, m: Move, card: Card, bits: set<int>, scored: bool, gainedHint: bool): (s: seq<int>)
    requires l.Ok()
    ensures |s| == l.handSize + l.handSize + BITS_PER_CARD + 2
  {
    (if IsHint(m.kind) then Mask(bits, l.handSize) else Zeros(l.handSize))
    + Slot(if PlayOrDiscard(m.kind) then m.value else -1, l.handSize)
    + Slot(if PlayOrDiscard(m.kind) then CardToIndex(card) else -1, BITS_PER_CARD)
    + [if m.kind == PLAY_CARD && scored then 1 else 0, if m.kind == PLAY_CARD && gainedHint then 1 else 0]
  }

  /** The last-action section: all clear before the first move. */
  function LastActionSpec(l: Layout, me: int, active: int, m: Move, card: Card, bits: set<int>,
                          score: int, prevScore: int, hints: int, prevNumHint: int): (s: seq<int>)
    requires LastMoveOk(l, me, active, m, card)
    ensures |s| == l.LastActionSectionLen()
  {
    if m.kind == INVALID_MOVE then Zeros(l.LastActionSectionLen())
    else MoverCode(l, me, active, m) + HintCode(l, me, m) + LastActionTail(l, m, card, bits, score > prevScore, hints > prevNumHint)
  }

  /** Marks bit k of the next w-bit field when the move has that field, and leaves it clear otherwise. */
  method MarkIf(a: array<int>, at: int, cond: bool, k: int, w: nat, ghost done: seq<int>)
    requires cond ==> 0 <= k < w
    requires |done| + w <= a.Length && a[..] == done + Zeros(a.Length - |done|) && at == |done|
    modifies a
    ensures a[..] == done + Slot(if cond then k else -1, w) + Zeros(a.Length - |done| - w)
  {
    if cond {
      SetBit(a, at, k, w, done);
    } else {
      EmptySlotInZeros(done, a.Length - |done|, -1, w);
    }
  }

  /** The first two fields of encodeLastAction. */
  method WriteMover(a: array<int>, l: Layout, me: int, active: int, m: Move)
    requires l.Ok() && 0 <= me < l.numPlayers && 0 <= active < l.numPlayers && m.kind != INVALID_MOVE
    requires a.Length >= l.numPlayers + NUM_MOVE_TYPES && a[..] == Zeros(a.Length)
    modifies a
    ensures a[..] == MoverCode(l, me, active, m) + Zeros(a.Length - l.numPlayers - NUM_MOVE_TYPES)
  {
    var p := l.numPlayers;
    var lastActivePlayer := PreviousSeat(l, active);
    var relativeIdx := SeatsAfter(l, me, lastActivePlayer);
    ghost var seat := Slot(relativeIdx, p);
    assert a[..] == [] + Zeros(a.Length);
    SetBit(a, 0, relativeIdx, p, []);
    assert [] + seat == seat;
    var typeIdx := TypeRank(m.kind);
    SetBit(a, p, typeIdx, NUM_MOVE_TYPES, seat);
    assert seat + Slot(typeIdx, NUM_MOVE_TYPES) == MoverCode(l, me, active, m);
  }

  /** The next three fields of encodeLastAction: what a hint named. */
  method WriteHintFields(a: array<int>, at: int, l: Layout, me: int, m: Move, ghost done: seq<int>)
    requires l.Ok() && 0 <= me < l.numPlayers && HintOk(l, m)
    requires |done| + l.numPlayers + NUM_COLORS + NUM_RANKS <= a.Length
    requires a[..] == done + Zeros(a.Length - |done|) && at == |done|
    modifies a
    ensures a[..] == done + HintCode(l, me, m) + Zeros(a.Length - |done| - l.numPlayers - NUM_COLORS - NUM_RANKS)
  {
    var p := l.numPlayers;
    var offset := at;
    if IsHint(m.kind) {
      var targetPlayer := SeatsAfter(l, me, m.to);
      SetBit(a, offset, targetPlayer, p, done);
    } else {
      EmptySlotInZeros(done, a.Length - |done|, -1, p);
    }
    ghost var cur := done + Slot(if IsHint(m.kind) then RelativeSeat(l, me, m.to) else -1, p);
    offset := offset + p;

    MarkIf(a, offset, m.kind == HINT_COLOR, m.value, NUM_COLORS, cur);
    cur := cur + Slot(if m.kind == HINT_COLOR then m.value else -1, NUM_COLORS);
    offset := offset + NUM_COLORS;

    MarkIf(a, offset, m.kind == HINT_VALUE, m.value - 1, NUM_RANKS, cur);
    assert cur + Slot(if m.kind == HINT_VALUE then m.value - 1 else -1, NUM_RANKS) == done + HintCode(l, me, m);
  }

  /** The reveal-outcome loop: a bit per card of the hand the hint touched. */
  method WriteReveal(a: array<int>, at: int, indices: CardIndices, n: nat, ghost done: seq<int>)
    requires |done| + n <= a.Length && a[..] == done + Zeros(a.Length - |done|) && at == |done|
    modifies a
    ensures a[..] == done + Mask(indices.bits, n) + Zeros(a.Length - |done| - n)
  {
    var i := 0;
    while i < n
      invariant 0 <= i <= n
      invariant a[..] == done + Mask(indices.bits, i) + Zeros(a.Length - |done| - i)
    {
      ghost var before := done + Mask(indices.bits, i);
      if indices.Contains(i) {
        Put(a, at + i, 1, before, 0);
        assert before + [1] == done + Mask(indices.bits, i + 1);
      } else {
        assert before + [0] == done + Mask(indices.bits, i + 1);
      }
      i := i + 1;
    }
  }

  /** The last four fields of encodeLastAction. */
  method WriteTail(a: array<int>, at: int, l: Layout, m: Move, card: Card, indices: CardIndices,
                   scored: bool, gainedHint: bool, ghost done: seq<int>)
    requires l.Ok() && (PlayOrDiscard(m.kind) ==> 0 <= m.value < l.handSize && ValidCard(card))
    requires a.Length == |done| + 2 * l.handSize + BITS_PER_CARD + 2
    requires a[..] == done + Zeros(a.Length - |done|) && at == |done|
    modifies a
    ensures a[..] == done + LastActionTail(l, m, card, indices.bits, scored, gainedHint)
  {
    var h := l.handSize;
    var offset := at;
    ghost var touched := if IsHint(m.kind) then Mask(indices.bits, h) else Zeros(h);
    ghost var position := Slot(if PlayOrDiscard(m.kind) then m.value else -1, h);
    ghost var played := Slot(if PlayOrDiscard(m.kind) then CardToIndex(card) else -1, BITS_PER_CARD);
    ghost var outcome := [if m.kind == PLAY_CARD && scored then 1 else 0, if m.kind == PLAY_CARD && gainedHint then 1 else 0];
    assert LastActionTail(l, m, card, indices.bits, scored, gainedHint) == touched + position + played + outcome;
    if IsHint(m.kind) {
      WriteReveal(a, offset, indices, h, done);
    } else {
      ZerosSplit(h, a.Length - |done| - h);
    }
    offset := offset + h;

    MarkIf(a, offset, PlayOrDiscard(m.kind), m.value, h, done + touched);
    offset := offset + h;

    MarkIf(a, offset, PlayOrDiscard(m.kind), CardToIndex(card), BITS_PER_CARD, done + touched + position);
    offset := offset + BITS_PER_CARD;

    WriteOutcome(a, offset, m.kind == PLAY_CARD, scored, gainedHint, done + touched + position + played);
    ConcatFour(done, touched, position, played, outcome);
  }

  lemma ConcatFour(s: seq<int>, p: seq<int>, q: seq<int>, r: seq<int>, t: seq<int>)
    ensures s + p + q + r + t == s + (p + q + r + t)
  {
  }

  /** The two play outcomes: the score went up, an information token came back. */
  method WriteOutcome(a: array<int>, at: int, isPlay: bool, scored: bool, gainedHint: bool, ghost done: seq<int>)
    requires a.Length == |done| + 2 && a[..] == done + Zeros(2) && at == |done|
    modifies a
    ensures a[..] == done + [if isPlay && scored then 1 else 0, if isPlay && gainedHint then 1 else 0]
  {
    if isPlay {
      if scored {
        Put(a, at, 1, done, 0);
      }
      if gainedHint {
        Put(a, at + 1, 1, done + [if scored then 1 else 0], 0);
      }
    }
    assert a[..] == done + [if isPlay && scored then 1 else 0, if isPlay && gainedHint then 1 else 0];
  }

  /**
   * encodeLastAction; the server's active player, score and hint stones are
   * passed in, and the hint's indices are read through CardIndices::contains.
   */
  method EncodeLastAction(l: Layout, me: int, active: int, m: Move, card: Card, indices: CardIndices,
                          score: int, prevScore: int, hints: int, prevNumHint: int) returns (section: seq<int>)
    requires LastMoveOk(l, me, active, m, card)
    ensures section == LastActionSpec(l, me, active, m, card, indices.bits, score, prevScore, hints, prevNumHint)
  {
    var a := new int[l.LastActionSectionLen()](_ => 0);
    assert a[..] == Zeros(a.Length);
    if m.kind == INVALID_MOVE {
      return a[..];
    }
    var offset := l.numPlayers + NUM_MOVE_TYPES;
    WriteMover(a, l, me, active, m);
    WriteHintFields(a, offset, l, me, m, MoverCode(l, me, active, m));
    offset := offset + l.numPlayers + NUM_COLORS + NUM_RANKS;
    WriteTail(a, offset, l, m, card, indices, score > prevScore, hints > prevNumHint, MoverCode(l, me, active, m) + HintCode(l, me, m));
    section := a[..];
  }

  /** The move type of rank t. */
  function KindOfRank(t: int): (k: MoveType)
    ensures 0 <= t < NUM_MOVE_TYPES ==> TypeRank(k) == t
  {
    if t == 0 then PLAY_CARD else if t == 1 then DISCARD_CARD
    else if t == 2 then HINT_COLOR else if t == 3 then HINT_VALUE else INVALID_MOVE
  }

  function IndexOr(r: Option<int>, d: int): int {
    match r case Some(i) => i case None => d
  }

  /**
   * Reads the previous move back from a last-action section: the move type,
   * the hinted seat turned back into a player index, and the colour, the
   * value or the card position the move named. None when no move type is set.
   */
  function DecodeLastMove(l: Layout, me: int, s: seq<int>): (r: Option<Move>)
    requires l.Ok() && 0 <= me < l.numPlayers && |s| == l.LastActionSectionLen()
  {
    var p := l.numPlayers;
    DecodeMoveParts(l, me, s[..p + 4], s[p + 4 .. 2 * p + 14], s[2 * p + 14 ..])
  }

  /** The previous move from the mover, hint and tail parts of the section. */
  function DecodeMoveParts(l: Layout, me: int, mover: seq<int>, hint: seq<int>, tail: seq<int>): Option<Move>
    requires l.Ok() && 0 <= me < l.numPlayers
    requires |mover| == l.numPlayers + NUM_MOVE_TYPES
    requires |hint| == l.numPlayers + NUM_COLORS + NUM_RANKS
    requires |tail| == l.handSize + l.handSize + BITS_PER_CARD + 2
  {
    match FindOne(mover[l.numPlayers..])
    case None => None
    case Some(t) =>
      var kind := KindOfRank(t);
      Some(Move(kind, DecodeValue(l, kind, hint, tail), DecodeTarget(l, me, kind, hint)))
  }

  /** The hinted player: the seat named in the hint part, turned back into a player index. */
  function DecodeTarget(l: Layout, me: int, kind: MoveType, hint: seq<int>): int
    requires l.Ok() && 0 <= me < l.numPlayers && |hint| == l.numPlayers + NUM_COLORS + NUM_RANKS
  {
    if !IsHint(kind) then -1
    else match FindOne(hint[..l.numPlayers]) case Some(o) => PlayerAt(l, me, o) case None => -1
  }

  /** The colour or value of a hint, or the card position of a play or discard. */
  function DecodeValue(l: Layout, kind: MoveType, hint: seq<int>, tail: seq<int>): int
    requires l.Ok() && |hint| == l.numPlayers + NUM_COLORS + NUM_RANKS
    requires |tail| == l.handSize + l.handSize + BITS_PER_CARD + 2
  {
    var p, h := l.numPlayers, l.handSize;
    if kind == HINT_COLOR then IndexOr(FindOne(hint[p .. p + 5]), -1)
    else if kind == HINT_VALUE then IndexOr(FindOne(hint[p + 5 ..]), -2) + 1
    else IndexOr(FindOne(tail[h .. 2 * h]), -1)
  }

  /** The parts of a concatenation of three. */
  lemma Parts3(x: seq<int>, y: seq<int>, z: seq<int>)
    ensures (x + y + z)[..|x|] == x
    ensures (x + y + z)[|x| .. |x| + |y|] == y
    ensures (x + y + z)[|x| + |y| ..] == z
  {
  }

  /** The parts of a concatenation of four. */
  lemma Parts4(w: seq<int>, x: seq<int>, y: seq<int>, z: seq<int>)
    ensures (w + x + y + z)[..|w|] == w
    ensures (w + x + y + z)[|w| .. |w| + |x|] == x
    ensures (w + x + y + z)[|w| + |x| .. |w| + |x| + |y|] == y
    ensures (w + x + y + z)[|w| + |x| + |y| ..] == z
  {
  }

  /** The fields of the hint part read back. */
  lemma HintCodeDecodes(l: Layout, me: int, m: Move)
    requires l.Ok() && 0 <= me < l.numPlayers && HintOk(l, m)
    ensures var s, p := HintCode(l, me, m), l.numPlayers;
            && FindOne(s[..p]) == (if IsHint(m.kind) then Some(RelativeSeat(l, me, m.to)) else None)
            && FindOne(s[p .. p + 5]) == (if m.kind == HINT_COLOR then Some(m.value) else None)
            && FindOne(s[p + 5 ..]) == (if m.kind == HINT_VALUE then Some(m.value - 1) else None)
  {
    var p := l.numPlayers;
    var tk := if IsHint(m.kind) then RelativeSeat(l, me, m.to) else -1;
    var ck := if m.kind == HINT_COLOR then m.value else -1;
    var vk := if m.kind == HINT_VALUE then m.value - 1 else -1;
    Parts3(Slot(tk, p), Slot(ck, NUM_COLORS), Slot(vk, NUM_RANKS));
    SlotDecodes(tk, p);
    SlotDecodes(ck, NUM_COLORS);
    SlotDecodes(vk, NUM_RANKS);
  }

  /** The tail's reveal field read back: bit i is set iff a hint touched card i. */
  lemma RevealDecodes(l: Layout, m: Move, card: Card, bits: set<int>, scored: bool, gainedHint: bool, i: int)
    requires l.Ok() && 0 <= i < l.handSize
    ensures LastActionTail(l, m, card, bits, scored, gainedHint)[i] == if IsHint(m.kind) && i in bits then 1 else 0
  {
    var h := l.handSize;
    var w := if IsHint(m.kind) then Mask(bits, h) else Zeros(h);
    var rest := Slot(if PlayOrDiscard(m.kind) then m.value else -1, h)
                + Slot(if PlayOrDiscard(m.kind) then CardToIndex(card) else -1, BITS_PER_CARD)
                + [if m.kind == PLAY_CARD && scored then 1 else 0, if m.kind == PLAY_CARD && gainedHint then 1 else 0];
    assert LastActionTail(l, m, card, bits, scored, gainedHint) == w + rest;
    assert (w + rest)[i] == w[i];
  }

  /** The tail's other fields read back. */
  lemma TailDecodes(l: Layout, m: Move, card: Card, bits: set<int>, scored: bool, gainedHint: bool)
    requires l.Ok() && (PlayOrDiscard(m.kind) ==> 0 <= m.value < l.handSize && ValidCard(card))
    ensures var s, h := LastActionTail(l, m, card, bits, scored, gainedHint), l.handSize;
            && FindOne(s[h .. 2 * h]) == (if PlayOrDiscard(m.kind) then Some(m.value) else None)
            && DecodeCard(s[2 * h .. 2 * h + 25]) == (if PlayOrDiscard(m.kind) then Some(card) else None)
            && s[2 * h + 25] == (if m.kind == PLAY_CARD && scored then 1 else 0)
            && s[2 * h + 26] == (if m.kind == PLAY_CARD && gainedHint then 1 else 0)
  {
    var h := l.handSize;
    var pk := if PlayOrDiscard(m.kind) then m.value else -1;
    var ck := if PlayOrDiscard(m.kind) then CardToIndex(card) else -1;
    TailParts(l, m, card, bits, scored, gainedHint);
    SlotDecodes(pk, h);
    SlotDecodes(ck, BITS_PER_CARD);
    if PlayOrDiscard(m.kind) {
      CardIndexRoundTrip(card);
    }
  }

  /** Where the tail's position field, card field and two flags lie. */
  lemma TailParts(l: Layout, m: Move, card: Card, bits: set<int>, scored: bool, gainedHint: bool)
    requires l.Ok()
    ensures var s, h := LastActionTail(l, m, card, bits, scored, gainedHint), l.handSize;
            && s[h .. 2 * h] == Slot(if PlayOrDiscard(m.kind) then m.value else -1, h)
            && s[2 * h .. 2 * h + 25] == Slot(if PlayOrDiscard(m.kind) then CardToIndex(card) else -1, BITS_PER_CARD)
            && s[2 * h + 25] == (if m.kind == PLAY_CARD && scored then 1 else 0)
            && s[2 * h + 26] == (if m.kind == PLAY_CARD && gainedHint then 1 else 0)
  {
    var h := l.handSize;
    var pk := if PlayOrDiscard(m.kind) then m.value else -1;
    var ck := if PlayOrDiscard(m.kind) then CardToIndex(card) else -1;
    var w := if IsHint(m.kind) then Mask(bits, h) else Zeros(h);
    var z := [if m.kind == PLAY_CARD && scored then 1 else 0, if m.kind == PLAY_CARD && gainedHint then 1 else 0];
    assert LastActionTail(l, m, card, bits, scored, gainedHint) == w + Slot(pk, h) + Slot(ck, BITS_PER_CARD) + z;
    Parts4(w, Slot(pk, h), Slot(ck, BITS_PER_CARD), z);
  }

  /** The mover part read back: the seat that moved, and the move type. */
  lemma MoverDecodes(l: Layout, me: int, active: int, m: Move)
    requires l.Ok() && 0 <= me < l.numPlayers && 0 <= active < l.numPlayers && m.kind != INVALID_MOVE
    ensures var s, p := MoverCode(l, me, active, m), l.numPlayers;
            && (var actor := FindOne(s[..p]);
                actor.Some? && 0 <= actor.value < p && PlayerAt(l, me, actor.value) == PrevPlayer(l, active))
            && FindOne(s[p ..]) == Some(TypeRank(m.kind))
  {
    var actor := RelativeSeat(l, me, PrevPlayer(l, active));
    Parts3(Slot(actor, l.numPlayers), Slot(TypeRank(m.kind), NUM_MOVE_TYPES), []);
    SlotDecodes(actor, l.numPlayers);
    SlotDecodes(TypeRank(m.kind), NUM_MOVE_TYPES);
  }

  /** How the last-action section of a move splits into its three parts. */
  lemma LastActionParts(l: Layout, me: int, active: int, m: Move, card: Card, bits: set<int>,
                        score: int, prevScore: int, hints: int, prevNumHint: int)
    requires LastMoveOk(l, me, active, m, card) && m.kind != INVALID_MOVE
    ensures var s, p := LastActionSpec(l, me, active, m, card, bits, score, prevScore, hints, prevNumHint), l.numPlayers;
            && s[..p + 4] == MoverCode(l, me, active, m)
            && s[p + 4 .. 2 * p + 14] == HintCode(l, me, m)
            && s[2 * p + 14 ..] == LastActionTail(l, m, card, bits, score > prevScore, hints > prevNumHint)
  {
    Parts3(MoverCode(l, me, active, m), HintCode(l, me, m), LastActionTail(l, m, card, bits, score > prevScore, hints > prevNumHint));
  }

  /**
   * The last-action section read back: the previous move comes back whole
   * when there was one, and nothing when the section is all clear.
   */
  lemma LastActionRecoversMove(l: Layout, me: int, active: int, m: Move, card: Card, bits: set<int>,
                               score: int, prevScore: int, hints: int, prevNumHint: int)
    requires LastMoveOk(l, me, active, m, card)
    ensures DecodeLastMove(l, me, LastActionSpec(l, me, active, m, card, bits, score, prevScore, hints, prevNumHint))
            == if m.kind == INVALID_MOVE then None else Some(m)
  {
    if m.kind == INVALID_MOVE {
      ClearSectionDecodes(l, me);
    } else {
      MoveSectionDecodes(l, me, active, m, card, bits, score > prevScore, hints > prevNumHint);
    }
  }

  /** The section of an actual move decodes to that move. */
  lemma MoveSectionDecodes(l: Layout, me: int, active: int, m: Move, card: Card, bits: set<int>,
                           scored: bool, gainedHint: bool)
    requires LastMoveOk(l, me, active, m, card) && m.kind != INVALID_MOVE
    ensures DecodeLastMove(l, me, MoverCode(l, me, active, m) + HintCode(l, me, m)
                                  + LastActionTail(l, m, card, bits, scored, gainedHint)) == Some(m)
  {
    DecodeOfConcat(l, me, MoverCode(l, me, active, m), HintCode(l, me, m),
                   LastActionTail(l, m, card, bits, scored, gainedHint));
    PartsRecoverMove(l, me, active, m, card, bits, scored, gainedHint);
  }

  /** Decoding a section decodes its mover, hint and tail parts. */
  lemma DecodeOfConcat(l: Layout, me: int, mover: seq<int>, hint: seq<int>, tail: seq<int>)
    requires l.Ok() && 0 <= me < l.numPlayers
    requires |mover| == l.numPlayers + NUM_MOVE_TYPES
    requires |hint| == l.numPlayers + NUM_COLORS + NUM_RANKS
    requires |tail| == l.handSize + l.handSize + BITS_PER_CARD + 2
    ensures DecodeLastMove(l, me, mover + hint + tail) == DecodeMoveParts(l, me, mover, hint, tail)
  {
    Parts3(mover, hint, tail);
  }

  /** An all-clear last-action section decodes to no move. */
  lemma ClearSectionDecodes(l: Layout, me: int)
    requires l.Ok() && 0 <= me < l.numPlayers
    ensures DecodeLastMove(l, me, Zeros(l.LastActionSectionLen())) == None
  {
    var p := l.numPlayers;
    var types := Zeros(l.LastActionSectionLen())[..p + 4][p..];
    assert forall i | 0 <= i < |types| :: types[i] == 0;
  }

  /** The three parts of a move's last-action section decode to the move. */
  lemma PartsRecoverMove(l: Layout, me: int, active: int, m: Move, card: Card, bits: set<int>,
                         scored: bool, gainedHint: bool)
    requires LastMoveOk(l, me, active, m, card) && m.kind != INVALID_MOVE
    ensures DecodeMoveParts(l, me, MoverCode(l, me, active, m), HintCode(l, me, m),
                            LastActionTail(l, m, card, bits, scored, gainedHint)) == Some(m)
  {
    MoverDecodes(l, me, active, m);
    TypeRankInjective(KindOfRank(TypeRank(m.kind)), m.kind);
    TargetRecovered(l, me, m);
    ValueRecovered(l, me, m, card, bits, scored, gainedHint);
  }

  lemma TargetRecovered(l: Layout, me: int, m: Move)
    requires l.Ok() && 0 <= me < l.numPlayers && HintOk(l, m) && WellFormed(m)
    ensures DecodeTarget(l, me, m.kind, HintCode(l, me, m)) == m.to
  {
    HintCodeDecodes(l, me, m);
  }

  lemma ValueRecovered(l: Layout, me: int, m: Move, card: Card, bits: set<int>, scored: bool, gainedHint: bool)
    requires l.Ok() && 0 <= me < l.numPlayers && HintOk(l, m) && WellFormed(m) && m.kind != INVALID_MOVE
    requires PlayOrDiscard(m.kind) ==> 0 <= m.value < l.handSize && ValidCard(card)
    ensures DecodeValue(l, m.kind, HintCode(l, me, m), LastActionTail(l, m, card, bits, scored, gainedHint)) == m.value
  {
    HintCodeDecodes(l, me, m);
    TailDecodes(l, m, card, bits, scored, gainedHint);
  }

  // ---------------------------------------------------------------------------
  // The serialized move
  // ---------------------------------------------------------------------------

  /** What the encoders read from the server. */
  datatype View = View(me: int, active: int, hands: seq<seq<Card>>, deckLeft: int, piles: seq<Pile>,
                       hints: int, lives: int, discards: seq<Card>, score: int)

  predicate ViewOk(l: Layout, v: View) {
    && HandsOk(l, v.me, v.hands)
    && BoardOk(l, v.deckLeft, v.piles, v.hints, v.lives)
    && AllValid(v.discards)
    && 0 <= v.active < l.numPlayers
  }

  /** The 0/1 features as the floats the vector holds. */
  function AsReals(s: seq<int>): (r: seq<real>)
    ensures |r| == |s| && forall i | 0 <= i < |s| :: r[i] == s[i] as real
  {
    seq(|s|, i requires 0 <= i < |s| => s[i] as real)
  }

  /**
   * HleSerializedMove: the layout and the sections the constructor encodes.
   * The belief section is handed in already encoded.
   */
  class SerializedMove {
    const layout: Layout
    var handSection: seq<int>
    var boardSection: seq<int>
    var discardSection: seq<int>
    var lastActionSection: seq<int>
    var beliefSection: seq<real>

    constructor (v: View, lastMove: Move, lastCard: Card, lastMoveIndices: CardIndices,
                 prevScore: int, prevNumHint: int, beliefs: seq<real>)
      requires ViewOk(LayoutFor(|v.hands|), v)
      requires LastMoveOk(LayoutFor(|v.hands|), v.me, v.active, lastMove, lastCard)
      requires |beliefs| == LayoutFor(|v.hands|).BeliefSectionLen()
      ensures layout == LayoutFor(|v.hands|) && Valid()
      ensures handSection == HandsSpec(layout, v.me, v.hands)
      ensures boardSection == BoardSpec(layout, v.deckLeft, v.piles, v.hints, v.lives)
      ensures discardSection == DiscardSpec(v.discards)
      ensures lastActionSection == LastActionSpec(layout, v.me, v.active, lastMove, lastCard, lastMoveIndices.bits,
                                                  v.score, prevScore, v.hints, prevNumHint)
      ensures beliefSection == beliefs
    {
      var l := LayoutFor(|v.hands|);
      var hands := EncodeHands(l, v.me, v.hands);
      var board := EncodeBoard(l, v.deckLeft, v.piles, v.hints, v.lives);
      var discard := EncodeDiscard(v.discards);
      var lastAction := EncodeLastAction(l, v.me, v.active, lastMove, lastCard, lastMoveIndices,
                                         v.score, prevScore, v.hints, prevNumHint);
      layout, handSection, boardSection, discardSection := l, hands, board, discard;
      lastActionSection, beliefSection := lastAction, beliefs;
    }

    predicate Valid()
      reads this
    {
      && layout.Ok()
      && |handSection| == layout.HandSectionLen()
      && |boardSection| == layout.BoardSectionLen()
      && |discardSection| == layout.DiscardSectionLen()
      && |lastActionSection| == layout.LastActionSectionLen()
      && |beliefSection| == layout.BeliefSectionLen()
    }

    /**
     * toArray: the sections one after the other, and the last-action section
     * once more when the greedy-action parameter is set.
     */
    method ToArray(greedyAction: bool) returns (res: seq<real>)
      requires Valid()
      ensures res == AsReals(handSection) + AsReals(boardSection) + AsReals(discardSection)
                     + AsReals(lastActionSection) + beliefSection
                     + (if greedyAction then AsReals(lastActionSection) else [])
      ensures |res| == FeatureLength(layout, greedyAction)
    {
      res := AsReals(handSection);
      res := res + AsReals(boardSection);
      res := res + AsReals(discardSection);
      res := res + AsReals(lastActionSection);
      res := res + beliefSection;
      if greedyAction {
        res := res + AsReals(lastActionSection);
      }
    }
  }

  /** The length of the feature vector: the sum of the section lengths. */
  function FeatureLength(l: Layout, greedyAction: bool): int {
    l.HandSectionLen() + l.BoardSectionLen() + l.DiscardSectionLen() + l.LastActionSectionLen()
    + l.BeliefSectionLen() + (if greedyAction then l.LastActionSectionLen() else 0)
  }

  /**
   * The feature vector's length in closed form: 59 bits per card slot of the
   * table, plus 3 per player, 2 per hand slot and 177, plus a second
   * last-action section in greedy mode.
   */
  lemma FeatureLengthFormula(l: Layout, greedyAction: bool)
    requires l.Ok()
    ensures FeatureLength(l, greedyAction)
            == 59 * l.numPlayers * l.handSize + 3 * l.numPlayers + 2 * l.handSize + 177
               + (if greedyAction then 2 * l.numPlayers + 2 * l.handSize + 41 else 0)
  {
    LayoutSizes(l);
    if l.numPlayers == 2 {
      assert l.handSize == 5;
    } else if l.numPlayers == 3 {
      assert l.handSize == 5;
    } else if l.numPlayers == 4 {
      assert l.handSize == 4;
    } else {
      assert l.numPlayers == 5 && l.handSize == 4;
    }
  }
}
