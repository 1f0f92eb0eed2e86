/**
 * SimpleBot: every card is described by YES/MAYBE/NO per colour and per
 * value plus a playable flag. Hints are read by a fixed convention (a hint
 * names playable cards), and a turn is play > helpful hint > discard.
 */
module SimpleBot {
  import opened Hanabi
  import opened Wrappers
  import SeqUtil
  import BotUtils
  import HolmesBot

  datatype Possibility = NO | MAYBE | YES

  /**
   * CardKnowledge: colours 0..4 and values 1..5. Position 0 of `values`
   * exists only because the source indexes values from 1; it is never read.
   */
  datatype Knol = Knol(colors: seq<Possibility>, values: seq<Possibility>, isPlayable: bool)

  predicate Shaped(k: Knol) {
    |k.colors| == NUMCOLORS && |k.values| == VALUE_MAX + 1
  }

  /** A YES from position lo on leaves every other position from lo on NO. */
  predicate Exclusive(s: seq<Possibility>, lo: int)
    requires 0 <= lo
  {
    forall a, b | lo <= a < |s| && lo <= b < |s| && a != b && s[a] == YES :: s[b] == NO
  }

  /** The first value from v on that the card must have, or -1. */
  function FirstYes(values: seq<Possibility>, v: int): (r: int)
    requires |values| == VALUE_MAX + 1 && 1 <= v <= VALUE_MAX + 1
    ensures r == -1 || v <= r <= VALUE_MAX
    ensures r == -1 <==> forall u | v <= u <= VALUE_MAX :: values[u] != YES
    ensures r != -1 ==> values[r] == YES && forall u | v <= u < r :: values[u] != YES
    decreases VALUE_MAX + 1 - v
  {
    if v > VALUE_MAX then -1
    else if values[v] == YES then v
    else FirstYes(values, v + 1)
  }

  /** value(): the value the card must have; -1 (an assert failure in debug builds) when none is. */
  function ValueOf(k: Knol): (r: int)
    requires Shaped(k)
    ensures r == -1 || 1 <= r <= VALUE_MAX
  {
    FirstYes(k.values, 1)
  }

  /**
   * The knowledge invariant: at most one colour and one value are YES, and
   * a card flagged playable has a known value (so value() never fails on it).
   */
  predicate KnolOk(k: Knol) {
    Shaped(k) && Exclusive(k.colors, 0) && Exclusive(k.values, 1)
    && (k.isPlayable ==> ValueOf(k) != -1)
  }

  /** Under the invariant, a YES value is the value. */
  lemma KnownValue(k: Knol, v: int)
    requires KnolOk(k) && 1 <= v <= VALUE_MAX && k.values[v] == YES
    ensures ValueOf(k) == v
  {
  }

  /** The CardKnowledge constructor. */
  function FreshKnol(): (k: Knol)
    ensures KnolOk(k) && !k.isPlayable && ValueOf(k) == -1
    ensures forall c | 0 <= c < NUMCOLORS :: k.colors[c] == MAYBE
    ensures forall v | 1 <= v <= VALUE_MAX :: k.values[v] == MAYBE
  {
    Knol(seq(NUMCOLORS, _ => MAYBE), seq(VALUE_MAX + 1, _ => MAYBE), false)
  }

  /**
   * setMustBe(color): that colour becomes YES, every other colour NO. The
   * source asserts that the colour was not already ruled out.
   */
  function MustBeColor(k: Knol, color: int): (r: Knol)
    requires Shaped(k) && ValidColor(color) && k.colors[color] != NO
    ensures Shaped(r) && Exclusive(r.colors, 0)
    ensures r.values == k.values && r.isPlayable == k.isPlayable
    ensures r.colors[color] == YES && forall c | 0 <= c < NUMCOLORS && c != color :: r.colors[c] == NO
  {
    k.(colors := seq(NUMCOLORS, c => if c == color then YES else NO))
  }

  /**
   * setMustBe(value): that value becomes YES, every other value NO. The
   * source asserts that the value was not already ruled out.
   */
  function MustBeValue(k: Knol, value: int): (r: Knol)
    requires Shaped(k) && 1 <= value <= VALUE_MAX && k.values[value] != NO
    ensures Shaped(r) && Exclusive(r.values, 1)
    ensures r.colors == k.colors && r.isPlayable == k.isPlayable && r.values[0] == k.values[0]
    ensures r.values[value] == YES && forall v | 1 <= v <= VALUE_MAX && v != value :: r.values[v] == NO
  {
    k.(values := seq(VALUE_MAX + 1, v => if v == 0 then k.values[0] else if v == value then YES else NO))
  }

  /** After setMustBe(value), value() reports that value. */
  lemma {:induction false} MustBeValueKnown(k: Knol, value: int)
    requires Shaped(k) && 1 <= value <= VALUE_MAX && k.values[value] != NO
    ensures ValueOf(MustBeValue(k, value)) == value
  {
    var r := MustBeValue(k, value);
    assert r.values[value] == YES;
    assert forall u | 1 <= u < value :: r.values[u] != YES;
  }

  /** setMustBe(color) leaves value() as it was. */
  lemma MustBeColorKeepsValue(k: Knol, color: int)
    requires Shaped(k) && ValidColor(color) && k.colors[color] != NO
    ensures ValueOf(MustBeColor(k, color)) == ValueOf(k)
  {
  }

  /** Both setters keep the knowledge invariant. */
  lemma MustBeKeepsOk(k: Knol, color: int, value: int)
    requires KnolOk(k) && ValidColor(color) && 1 <= value <= VALUE_MAX
    requires k.colors[color] != NO && k.values[value] != NO
    ensures KnolOk(MustBeColor(k, color)) && KnolOk(MustBeValue(k, value))
  {
    MustBeColorKeepsValue(k, color);
    MustBeValueKnown(k, value);
  }

  /** The loop of setMustBe(color). */
  method SetMustBeColor(k0: Knol, color: int) returns (k: Knol)
    requires Shaped(k0) && ValidColor(color) && k0.colors[color] != NO
    ensures k == MustBeColor(k0, color)
  {
    k := k0;
    var c := RED;
    while c <= BLUE
      invariant RED <= c <= BLUE + 1 && |k.colors| == NUMCOLORS
      invariant k.values == k0.values && k.isPlayable == k0.isPlayable
      invariant forall d | 0 <= d < c :: k.colors[d] == (if d == color then YES else NO)
    {
      k := k.(colors := k.colors[c := if c == color then YES else NO]);
      c := c + 1;
    }
    assert k.colors == MustBeColor(k0, color).colors;
  }

  /** The loop of setMustBe(value); position 0 is not visited. */
  method SetMustBeValue(k0: Knol, value: int) returns (k: Knol)
    requires Shaped(k0) && 1 <= value <= VALUE_MAX && k0.values[value] != NO
    ensures k == MustBeValue(k0, value)
  {
    k := k0;
    var v := 1;
    while v <= VALUE_MAX
      invariant 1 <= v <= VALUE_MAX + 1 && |k.values| == VALUE_MAX + 1 && k.values[0] == k0.values[0]
      invariant k.colors == k0.colors && k.isPlayable == k0.isPlayable
      invariant forall u | 1 <= u < v :: k.values[u] == (if u == value then YES else NO)
    {
      k := k.(values := k.values[v := if v == value then YES else NO]);
      v := v + 1;
    }
    assert k.values == MustBeValue(k0, value).values;
  }

  /** The loop of value(). */
  method KnolValue(k: Knol) returns (r: int)
    requires Shaped(k)
    ensures r == ValueOf(k)
  {
    var i := 1;
    while i <= VALUE_MAX
      invariant 1 <= i <= VALUE_MAX + 1
      invariant FirstYes(k.values, i) == FirstYes(k.values, 1)
    {
      if k.values[i] == YES {
        return i;
      }
      i := i + 1;
    }
    return -1;
  }

  predicate HandOk(hand: seq<Knol>) {
    forall i | 0 <= i < |hand| :: KnolOk(hand[i])
  }

  predicate AllOk(hk: seq<seq<Knol>>) {
    forall p | 0 <= p < |hk| :: HandOk(hk[p])
  }

  /** Replacing one hand by a well-formed one keeps every hand well-formed. */
  lemma AllOkUpdate(hk: seq<seq<Knol>>, p: int, hand: seq<Knol>)
    requires AllOk(hk) && 0 <= p < |hk| && HandOk(hand)
    ensures AllOk(hk[p := hand])
  {
  }

  // ---------------------------------------------------------------------------
  // Hints received
  // ---------------------------------------------------------------------------

  /** Neither setMustBe call of a colour hint would fail its assertion on this card. */
  predicate Admits(k: Knol, color: int, value: int)
    requires Shaped(k) && ValidColor(color) && 1 <= value <= VALUE_MAX
  {
    k.colors[color] != NO && k.values[value] != NO
  }

  /** No card a colour hint names has the hinted colour, or the value it implies, ruled out. */
  predicate ColorAdmitted(hand: seq<Knol>, bits: set<int>, color: int, value: int)
    requires HandOk(hand) && ValidColor(color) && 1 <= value <= VALUE_MAX
  {
    forall j | 0 <= j < |hand| && 0 <= j < 8 && j in bits :: Admits(hand[j], color, value)
  }

  /** No card a value hint names has the hinted value ruled out. */
  predicate ValueAdmitted(hand: seq<Knol>, bits: set<int>, value: int)
    requires HandOk(hand) && 1 <= value <= VALUE_MAX
  {
    forall j | 0 <= j < |hand| && 0 <= j < 8 && j in bits :: hand[j].values[value] != NO
  }

  /** What a colour hint tells about one named card: that colour, the given value, playable. */
  function ColorHinted(k: Knol, color: int, value: int): (r: Knol)
    requires Shaped(k) && ValidColor(color) && 1 <= value <= VALUE_MAX && Admits(k, color, value)
    ensures KnolOk(r) && r.isPlayable && ValueOf(r) == value
    ensures r.colors[color] == YES && forall c | 0 <= c < NUMCOLORS && c != color :: r.colors[c] == NO
  {
    MustBeColorKeepsValue(k, color);
    MustBeValueKnown(MustBeColor(k, color), value);
    MustBeValue(MustBeColor(k, color), value).(isPlayable := true)
  }

  /** What a value hint tells about one named card: that value, playable; colours unchanged. */
  function ValueHinted(k: Knol, value: int): (r: Knol)
    requires KnolOk(k) && 1 <= value <= VALUE_MAX && k.values[value] != NO
    ensures KnolOk(r) && r.isPlayable && ValueOf(r) == value && r.colors == k.colors
  {
    MustBeValueKnown(k, value);
    MustBeValue(k, value).(isPlayable := true)
  }

  /** The hand after a colour hint naming the positions in `bits`. */
  function ColorHintedHand(hand: seq<Knol>, bits: set<int>, color: int, value: int): (r: seq<Knol>)
    requires HandOk(hand) && ValidColor(color) && 1 <= value <= VALUE_MAX && ColorAdmitted(hand, bits, color, value)
    ensures |r| == |hand| && HandOk(r)
    ensures forall j | 0 <= j < |hand| ::
              r[j] == if 0 <= j < 8 && j in bits then ColorHinted(hand[j], color, value) else hand[j]
  {
    seq(|hand|, j requires 0 <= j < |hand| =>
      if 0 <= j < 8 && j in bits then ColorHinted(hand[j], color, value) else hand[j])
  }

  /** The hand after a value hint naming the positions in `bits`. */
  function ValueHintedHand(hand: seq<Knol>, bits: set<int>, value: int): (r: seq<Knol>)
    requires HandOk(hand) && 1 <= value <= VALUE_MAX && ValueAdmitted(hand, bits, value)
    ensures |r| == |hand| && HandOk(r)
    ensures forall j | 0 <= j < |hand| ::
              r[j] == if 0 <= j < 8 && j in bits then ValueHinted(hand[j], value) else hand[j]
  {
    seq(|hand|, j requires 0 <= j < |hand| =>
      if 0 <= j < 8 && j in bits then ValueHinted(hand[j], value) else hand[j])
  }

  /**
   * The CardIndices the server hands to observers: one add() per named
   * position, every named position inside the receiver's hand.
   */
  predicate IndicesOk(ci: CardIndices, size: int)
    reads ci
  {
    ci.count == CountBelow(ci.bits, 8) && forall j | 0 <= j < 8 && j in ci.bits :: j < size
  }

  /** The body of the colour-hint loop for one named card. */
  method HintByColor(k0: Knol, color: int, value: int) returns (k: Knol)
    requires Shaped(k0) && ValidColor(color) && 1 <= value <= VALUE_MAX && Admits(k0, color, value)
    ensures k == ColorHinted(k0, color, value)
  {
    k := SetMustBeColor(k0, color);
    k := SetMustBeValue(k, value);
    k := k.(isPlayable := true);
  }

  /** The body of the value-hint loop for one named card. */
  method HintByValue(k0: Knol, value: int) returns (k: Knol)
    requires KnolOk(k0) && 1 <= value <= VALUE_MAX && k0.values[value] != NO
    ensures k == ValueHinted(k0, value)
  {
    k := SetMustBeValue(k0, value);
    k := k.(isPlayable := true);
  }

  /** The named cards of rank below i hold their hinted knowledge, every other card its old one. */
  ghost predicate HintedBelow(hand: seq<Knol>, hand0: seq<Knol>, target: seq<Knol>, bits: set<int>, i: int) {
    |hand| == |hand0| == |target|
    && forall j | 0 <= j < |hand| ::
         hand[j] == if 0 <= j < 8 && j in bits && CountBelow(bits, j) < i then target[j] else hand0[j]
  }

  /** Hinting the card of rank i extends HintedBelow from i to i + 1. */
  lemma HintedStep(hand: seq<Knol>, hand0: seq<Knol>, target: seq<Knol>, bits: set<int>, i: int, index: int)
    requires HintedBelow(hand, hand0, target, bits, i)
    requires 0 <= index < |hand| && index < 8 && index in bits && CountBelow(bits, index) == i
    ensures HintedBelow(hand[index := target[index]], hand0, target, bits, i + 1)
  {
    forall j | 0 <= j < |hand| && 0 <= j < 8 && j in bits && CountBelow(bits, j) == i
      ensures j == index
    {
      RankInjective(bits, j, index);
    }
  }

  /** Once every rank is visited, every named card holds its hinted knowledge. */
  lemma HintedAll(hand: seq<Knol>, hand0: seq<Knol>, target: seq<Knol>, bits: set<int>)
    requires HintedBelow(hand, hand0, target, bits, CountBelow(bits, 8))
    requires forall j | 0 <= j < |hand| && !(0 <= j < 8 && j in bits) :: target[j] == hand0[j]
    ensures hand == target
  {
    forall j | 0 <= j < |hand| && 0 <= j < 8 && j in bits
      ensures CountBelow(bits, j) < CountBelow(bits, 8)
    {
      RankBelowTotal(bits, j);
    }
  }

  /** The loop of pleaseObserveColorHint over card_indices[0 .. size()). */
  method ApplyColorHint(hand0: seq<Knol>, ci: CardIndices, color: int, value: int) returns (hand: seq<Knol>)
    requires HandOk(hand0) && ValidColor(color) && 1 <= value <= VALUE_MAX && IndicesOk(ci, |hand0|)
    requires ColorAdmitted(hand0, ci.bits, color, value)
    ensures hand == ColorHintedHand(hand0, ci.bits, color, value)
  {
    ghost var target := ColorHintedHand(hand0, ci.bits, color, value);
    hand := hand0;
    var i := 0;
    while i < ci.Size()
      invariant 0 <= i <= ci.count && HintedBelow(hand, hand0, target, ci.bits, i)
    {
      var index := ci.At(i);
      HintedStep(hand, hand0, target, ci.bits, i, index);
      var knol := HintByColor(hand[index], color, value);
      hand := hand[index := knol];
      i := i + 1;
    }
    HintedAll(hand, hand0, target, ci.bits);
  }

  /** The loop of pleaseObserveValueHint over card_indices[0 .. size()). */
  method ApplyValueHint(hand0: seq<Knol>, ci: CardIndices, value: int) returns (hand: seq<Knol>)
    requires HandOk(hand0) && 1 <= value <= VALUE_MAX && IndicesOk(ci, |hand0|)
    requires ValueAdmitted(hand0, ci.bits, value)
    ensures hand == ValueHintedHand(hand0, ci.bits, value)
  {
    ghost var target := ValueHintedHand(hand0, ci.bits, value);
    hand := hand0;
    var i := 0;
    while i < ci.Size()
      invariant 0 <= i <= ci.count && HintedBelow(hand, hand0, target, ci.bits, i)
    {
      var index := ci.At(i);
      HintedStep(hand, hand0, target, ci.bits, i, index);
      var knol := HintByValue(hand[index], value);
      hand := hand[index := knol];
      i := i + 1;
    }
    HintedAll(hand, hand0, target, ci.bits);
  }

  /**
   * A value hint that only frees a hint stone: discarding is not allowed,
   * it comes from the receiver's left neighbour, and it names position 0.
   */
  predicate Reclaim(discardingAllowed: bool, from: int, to: int, numPlayers: int, namesFirst: bool) {
    !discardingAllowed && numPlayers > 0 && from == (to + 1) % numPlayers && namesFirst
  }

  /** The player on the right, who receives the fallback hint. */
  function RightOf(me: int, numPlayers: int): (r: int)
    requires 0 <= me < numPlayers
    ensures 0 <= r < numPlayers
  {
    (me + numPlayers - 1) % numPlayers
  }

  /**
   * The fallback of pleaseMakeMove (all stones in the box, a value hint to
   * the right about position 0) is exactly what receivers read as a reclaim.
   */
  lemma FallbackHintIsReclaim(me: int, numPlayers: int)
    requires 0 <= me < numPlayers
    ensures Reclaim(false, me, RightOf(me, numPlayers), numPlayers, true)
  {
    if me == 0 {
      assert RightOf(me, numPlayers) == numPlayers - 1;
    } else {
      assert RightOf(me, numPlayers) == me - 1;
    }
  }

  // ---------------------------------------------------------------------------
  // wipeOutPlayables
  // ---------------------------------------------------------------------------

  /**
   * What wipeOutPlayables(card) does to one card: a playable flag survives
   * only on a known 5 or on a card that cannot be the played colour or value.
   */
  function Wiped(k: Knol, card: Card): (r: Knol)
    requires Shaped(k) && ValidCard(card)
    ensures r == k || r == k.(isPlayable := false)
    ensures r.isPlayable <==>
              k.isPlayable && (k.values[VALUE_MAX] == YES || k.colors[card.color] == NO || k.values[card.value] == NO)
    ensures KnolOk(k) ==> KnolOk(r)
  {
    if k.isPlayable && k.values[VALUE_MAX] != YES && k.colors[card.color] != NO && k.values[card.value] != NO
    then k.(isPlayable := false)
    else k
  }

  function WipedHand(hand: seq<Knol>, card: Card): (r: seq<Knol>)
    requires HandOk(hand) && ValidCard(card)
    ensures |r| == |hand| && HandOk(r) && forall i | 0 <= i < |hand| :: r[i] == Wiped(hand[i], card)
  {
    seq(|hand|, i requires 0 <= i < |hand| => Wiped(hand[i], card))
  }

  function WipedAll(hk: seq<seq<Knol>>, card: Card): (r: seq<seq<Knol>>)
    requires AllOk(hk) && ValidCard(card)
    ensures |r| == |hk| && AllOk(r) && forall p | 0 <= p < |hk| :: r[p] == WipedHand(hk[p], card)
  {
    seq(|hk|, p requires 0 <= p < |hk| => WipedHand(hk[p], card))
  }

  /** The inner loop of wipeOutPlayables, over one player's cards. */
  method WipeHand(hand0: seq<Knol>, card: Card) returns (hand: seq<Knol>)
    requires HandOk(hand0) && ValidCard(card)
    ensures hand == WipedHand(hand0, card)
  {
    hand := hand0;
    var c := 0;
    while c < |hand|
      invariant 0 <= c <= |hand| == |hand0|
      invariant forall i | 0 <= i < c :: hand[i] == Wiped(hand0[i], card)
      invariant forall i | c <= i < |hand| :: hand[i] == hand0[i]
    {
      var knol := hand[c];
      if !knol.isPlayable || knol.values[VALUE_MAX] == YES
         || knol.colors[card.color] == NO || knol.values[card.value] == NO {
        c := c + 1;
        continue;
      }
      hand := hand[c := knol.(isPlayable := false)];
      c := c + 1;
    }
  }

  /** The outer loop of wipeOutPlayables, over the players. */
  method WipeAll(hk0: seq<seq<Knol>>, card: Card) returns (hk: seq<seq<Knol>>)
    requires AllOk(hk0) && ValidCard(card)
    ensures hk == WipedAll(hk0, card)
  {
    hk := hk0;
    var player := 0;
    while player < |hk0|
      invariant 0 <= player <= |hk0| == |hk|
      invariant forall p | 0 <= p < player :: hk[p] == WipedHand(hk0[p], card)
      invariant forall p | player <= p < |hk0| :: hk[p] == hk0[p]
    {
      var hand := WipeHand(hk0[player], card);
      hk := hk[player := hand];
      player := player + 1;
    }
  }

  // ---------------------------------------------------------------------------
  // maybePlayLowestPlayableCard
  // ---------------------------------------------------------------------------

  /** The scan of maybePlayLowestPlayableCard over the first n cards (best_value starts at 6). */
  function Lowest(hand: seq<Knol>, n: int): (r: int)
    requires (forall i | 0 <= i < |hand| :: Shaped(hand[i])) && 0 <= n <= |hand|
    ensures -1 <= r < n
  {
    if n == 0 then -1
    else
      var b := Lowest(hand, n - 1);
      var bestValue := if b == -1 then VALUE_MAX + 1 else ValueOf(hand[b]);
      if hand[n - 1].isPlayable && ValueOf(hand[n - 1]) < bestValue then n - 1 else b
  }

  /** r is -1 when no card is playable, else the first playable card of least value. */
  ghost predicate FirstLowest(hand: seq<Knol>, n: int, r: int)
    requires (forall i | 0 <= i < |hand| :: Shaped(hand[i])) && 0 <= n <= |hand|
  {
    (r == -1 <==> forall i | 0 <= i < n :: !hand[i].isPlayable)
    && (r != -1 ==>
          0 <= r < n && hand[r].isPlayable
          && (forall i | 0 <= i < n && hand[i].isPlayable :: ValueOf(hand[r]) <= ValueOf(hand[i]))
          && (forall i | 0 <= i < r && hand[i].isPlayable :: ValueOf(hand[r]) < ValueOf(hand[i])))
  }

  lemma {:induction false} LowestIsFirstLowest(hand: seq<Knol>, n: int)
    requires (forall i | 0 <= i < |hand| :: Shaped(hand[i])) && 0 <= n <= |hand|
    ensures FirstLowest(hand, n, Lowest(hand, n))
  {
    if n > 0 {
      LowestIsFirstLowest(hand, n - 1);
      var b := Lowest(hand, n - 1);
      var bestValue := if b == -1 then VALUE_MAX + 1 else ValueOf(hand[b]);
      FirstLowestStep(hand, n, b, hand[n - 1].isPlayable && ValueOf(hand[n - 1]) < bestValue);
    }
  }

  /** One more card of the scan: it takes over exactly when it is playable and lower. */
  lemma FirstLowestStep(hand: seq<Knol>, n: int, b: int, takes: bool)
    requires (forall i | 0 <= i < |hand| :: Shaped(hand[i])) && 0 < n <= |hand|
    requires FirstLowest(hand, n - 1, b)
    requires takes == (hand[n - 1].isPlayable
                       && ValueOf(hand[n - 1]) < if b == -1 then VALUE_MAX + 1 else ValueOf(hand[b]))
    ensures FirstLowest(hand, n, if takes then n - 1 else b)
  {
  }

  /** The loop of maybePlayLowestPlayableCard. */
  method LowestPlayable(hand: seq<Knol>) returns (best: int)
    requires forall i | 0 <= i < |hand| :: Shaped(hand[i])
    ensures best == Lowest(hand, |hand|)
  {
    best := -1;
    var bestValue := VALUE_MAX + 1;
    var i := 0;
    while i < |hand|
      invariant 0 <= i <= |hand| && best == Lowest(hand, i)
      invariant bestValue == if best == -1 then VALUE_MAX + 1 else ValueOf(hand[best])
    {
      if hand[i].isPlayable {
        var v := KnolValue(hand[i]);
        if v < bestValue {
          best := i;
          bestValue := v;
        }
      }
      i := i + 1;
    }
  }

  // ---------------------------------------------------------------------------
  // maybeGiveHelpfulHint
  // ---------------------------------------------------------------------------

  /**
   * A candidate hint: `information` cards learnt to be playable, and the
   * colour or value (the other one -1) and receiver; NO_HINT has none.
   */
  datatype Hint = Hint(information: int, color: int, value: int, to: int)

  const NO_HINT := Hint(0, -1, -1, -1)

  /** A touched card that is playable and not yet flagged so. */
  predicate Informs(j: int, piles: seq<int>, c: Card, k: Knol)
    requires |piles| == NUMCOLORS && ValidCard(c)
  {
    HolmesBot.Touches(j, c) && HolmesBot.ReallyPlayable(piles, c) && !k.isPlayable
  }

  /** A touched card that is not playable: the partner would take it for playable. */
  predicate Misleads(j: int, piles: seq<int>, c: Card)
    requires |piles| == NUMCOLORS && ValidCard(c)
  {
    HolmesBot.Touches(j, c) && !HolmesBot.ReallyPlayable(piles, c)
  }

  predicate PartnerOk(piles: seq<int>, hand: seq<Card>, knols: seq<Knol>) {
    |piles| == NUMCOLORS && AllValid(hand) && |hand| <= |knols|
  }

  /** information_content of candidate j over the first n cards. */
  function InfoOf(j: int, piles: seq<int>, hand: seq<Card>, knols: seq<Knol>, n: int): (r: int)
    requires PartnerOk(piles, hand, knols) && 0 <= n <= |hand|
    ensures 0 <= r <= n
  {
    if n == 0 then 0
    else InfoOf(j, piles, hand, knols, n - 1) + (if Informs(j, piles, hand[n - 1], knols[n - 1]) then 1 else 0)
  }

  /** A positive information count names a card that is playable and not yet flagged. */
  lemma {:induction false} InfoNamesNewPlayable(j: int, piles: seq<int>, hand: seq<Card>, knols: seq<Knol>, n: int)
    requires PartnerOk(piles, hand, knols) && 0 <= n <= |hand|
    requires InfoOf(j, piles, hand, knols, n) > 0
    ensures exists c | 0 <= c < n :: Informs(j, piles, hand[c], knols[c])
  {
    if !Informs(j, piles, hand[n - 1], knols[n - 1]) {
      InfoNamesNewPlayable(j, piles, hand, knols, n - 1);
    }
  }

  predicate Misinformative(j: int, piles: seq<int>, hand: seq<Card>)
    requires |piles| == NUMCOLORS && AllValid(hand)
  {
    exists c | 0 <= c < |hand| :: Misleads(j, piles, hand[c])
  }

  /** The inner loop for candidate j, stopping at the first misleading card. */
  method Score(j: int, piles: seq<int>, hand: seq<Card>, knols: seq<Knol>) returns (info: int, misinf: bool)
    requires PartnerOk(piles, hand, knols)
    ensures misinf == Misinformative(j, piles, hand)
    ensures !misinf ==> info == InfoOf(j, piles, hand, knols, |hand|)
  {
    info, misinf := 0, false;
    var c := 0;
    while c < |hand|
      invariant 0 <= c <= |hand| && info == InfoOf(j, piles, hand, knols, c)
      invariant forall i | 0 <= i < c :: !Misleads(j, piles, hand[i])
    {
      if HolmesBot.Touches(j, hand[c]) {
        if HolmesBot.ReallyPlayable(piles, hand[c]) && !knols[c].isPlayable {
          info := info + 1;
        } else if !HolmesBot.ReallyPlayable(piles, hand[c]) {
          misinf := true;
          return;
        }
      }
      c := c + 1;
    }
  }

  /** What the hint search may read: its own seat, the piles, every partner's cards and knowledge. */
  predicate TableOk(me: int, piles: seq<int>, hands: seq<seq<Card>>, hk: seq<seq<Knol>>) {
    0 <= me < |hk| && |hands| == |hk| && |piles| == NUMCOLORS
    && forall p | 0 <= p < |hk| :: AllValid(hands[p]) && |hands[p]| <= |hk[p]|
  }

  /** The partner i seats after me. */
  function PartnerOf(me: int, numPlayers: int, i: int): (p: int)
    requires 0 <= me < numPlayers && 0 <= i
    ensures 0 <= p < numPlayers
  {
    (me + i) % numPlayers
  }

  /** Candidate (i, j): candidate j (colours, then values) for the i-th partner. */
  function Info(i: int, j: int, me: int, piles: seq<int>, hands: seq<seq<Card>>, hk: seq<seq<Knol>>): int
    requires TableOk(me, piles, hands, hk) && 0 <= i
  {
    var p := PartnerOf(me, |hk|, i);
    InfoOf(j, piles, hands[p], hk[p], |hands[p]|)
  }

  predicate Admissible(i: int, j: int, me: int, piles: seq<int>, hands: seq<seq<Card>>, hk: seq<seq<Knol>>)
    requires TableOk(me, piles, hands, hk) && 0 <= i
  {
    !Misinformative(j, piles, hands[PartnerOf(me, |hk|, i)])
  }

  /** Candidate (i, j) comes before (ui, uj) in the search order. */
  predicate Before(i: int, j: int, ui: int, uj: int) {
    i < ui || (i == ui && j < uj)
  }

  /**
   * h is the outcome of the search over every candidate before (ui, uj):
   * NO_HINT when no admissible candidate informs, else the first admissible
   * candidate (ai, aj) with the greatest information.
   */
  ghost predicate BestSoFar(h: Hint, ai: int, aj: int, ui: int, uj: int,
                            me: int, piles: seq<int>, hands: seq<seq<Card>>, hk: seq<seq<Knol>>)
    requires TableOk(me, piles, hands, hk)
  {
    0 <= h.information
    && (forall i, j | 1 <= i < |hk| && 0 <= j < HolmesBot.CANDIDATES && Before(i, j, ui, uj)
                      && Admissible(i, j, me, piles, hands, hk) ::
          Info(i, j, me, piles, hands, hk) <= h.information)
    && (h.information == 0 ==> h == NO_HINT)
    && (h.information > 0 ==>
          1 <= ai < |hk| && 0 <= aj < HolmesBot.CANDIDATES && Before(ai, aj, ui, uj)
          && Admissible(ai, aj, me, piles, hands, hk)
          && h == Hint(Info(ai, aj, me, piles, hands, hk), HolmesBot.CandidateColor(aj), HolmesBot.CandidateValue(aj),
                       PartnerOf(me, |hk|, ai))
          && (forall i, j | 1 <= i < |hk| && 0 <= j < HolmesBot.CANDIDATES && Before(i, j, ai, aj)
                            && Admissible(i, j, me, piles, hands, hk) ::
                Info(i, j, me, piles, hands, hk) < h.information))
  }

  /** One candidate: replace the best when admissible and strictly more informative. */
  method Consider(h: Hint, ai: int, aj: int, i: int, j: int,
                  me: int, piles: seq<int>, hands: seq<seq<Card>>, hk: seq<seq<Knol>>)
    returns (next: Hint, ni: int, nj: int)
    requires TableOk(me, piles, hands, hk) && 1 <= i < |hk| && 0 <= j < HolmesBot.CANDIDATES
    requires BestSoFar(h, ai, aj, i, j, me, piles, hands, hk)
    ensures BestSoFar(next, ni, nj, i, j + 1, me, piles, hands, hk)
  {
    var p := PartnerOf(me, |hk|, i);
    var info, misinf := Score(j, piles, hands[p], hk[p]);
    next, ni, nj := h, ai, aj;
    if !misinf && info > h.information {
      next, ni, nj := Hint(info, HolmesBot.CandidateColor(j), HolmesBot.CandidateValue(j), p), i, j;
    }
  }

  /** Every candidate of the i-th partner: the colour loop, then the value loop. */
  method ConsiderPartner(h: Hint, ai: int, aj: int, i: int,
                         me: int, piles: seq<int>, hands: seq<seq<Card>>, hk: seq<seq<Knol>>)
    returns (next: Hint, ni: int, nj: int)
    requires TableOk(me, piles, hands, hk) && 1 <= i < |hk|
    requires BestSoFar(h, ai, aj, i, 0, me, piles, hands, hk)
    ensures BestSoFar(next, ni, nj, i + 1, 0, me, piles, hands, hk)
  {
    next, ni, nj := h, ai, aj;
    var color := RED;
    while color <= BLUE
      invariant RED <= color <= BLUE + 1
      invariant BestSoFar(next, ni, nj, i, color, me, piles, hands, hk)
    {
      next, ni, nj := Consider(next, ni, nj, i, color, me, piles, hands, hk);
      color := color + 1;
    }
    var value := 1;
    while value <= VALUE_MAX
      invariant 1 <= value <= VALUE_MAX + 1
      invariant BestSoFar(next, ni, nj, i, value + NUMCOLORS - 1, me, piles, hands, hk)
    {
      next, ni, nj := Consider(next, ni, nj, i, value + NUMCOLORS - 1, me, piles, hands, hk);
      value := value + 1;
    }
  }

  /** The search of maybeGiveHelpfulHint over every partner. */
  method HelpfulHint(me: int, piles: seq<int>, hands: seq<seq<Card>>, hk: seq<seq<Knol>>)
    returns (h: Hint, ai: int, aj: int)
    requires TableOk(me, piles, hands, hk)
    ensures BestSoFar(h, ai, aj, |hk|, 0, me, piles, hands, hk)
  {
    h, ai, aj := NO_HINT, 0, 0;
    var i := 1;
    while i < |hk|
      invariant 1 <= i <= |hk| || (i == 1 && |hk| == 1)
      invariant BestSoFar(h, ai, aj, i, 0, me, piles, hands, hk)
    {
      h, ai, aj := ConsiderPartner(h, ai, aj, i, me, piles, hands, hk);
      i := i + 1;
    }
  }

  /** The move a search outcome gives: none for NO_HINT, else a colour or a value hint. */
  function HintMove(h: Hint): (m: Option<BotUtils.Move>)
    ensures m == None <==> h.information == 0
  {
    if h.information == 0 then None
    else if h.color != -1 then Some(BotUtils.ColorHintMove(h.color, h.to))
    else Some(BotUtils.ValueHintMove(h.value, h.to))
  }

  /**
   * The convention is kept: a chosen hint goes to a partner, names only
   * playable cards, and names at least one card the partner did not yet
   * know to be playable.
   */
  lemma ChosenHintIsTruthful(h: Hint, ai: int, aj: int,
                             me: int, piles: seq<int>, hands: seq<seq<Card>>, hk: seq<seq<Knol>>)
    requires TableOk(me, piles, hands, hk)
    requires BestSoFar(h, ai, aj, |hk|, 0, me, piles, hands, hk) && h.information > 0
    ensures h.to != me && 0 <= h.to < |hk|
    ensures forall c | 0 <= c < |hands[h.to]| && HolmesBot.Touches(aj, hands[h.to][c]) ::
              HolmesBot.ReallyPlayable(piles, hands[h.to][c])
    ensures exists c | 0 <= c < |hands[h.to]| :: Informs(aj, piles, hands[h.to][c], hk[h.to][c])
  {
    var p := PartnerOf(me, |hk|, ai);
    assert h.to == p && h.information == InfoOf(aj, piles, hands[p], hk[p], |hands[p]|);
    PartnerIsOther(me, |hk|, ai);
    InfoNamesNewPlayable(aj, piles, hands[p], hk[p], |hands[p]|);
    NotMisinformative(aj, piles, hands[p]);
  }

  /** A partner 1 .. numPlayers - 1 seats away is another player. */
  lemma PartnerIsOther(me: int, numPlayers: int, i: int)
    requires 0 <= me < numPlayers && 1 <= i < numPlayers
    ensures PartnerOf(me, numPlayers, i) != me
  {
    ModBelowTwice(me + i, numPlayers);
  }

  /** A number below twice the modulus wraps around at most once. */
  lemma ModBelowTwice(x: int, n: int)
    requires 0 <= x < 2 * n
    ensures x % n == if x < n then x else x - n
  {
  }

  lemma NotMisinformative(j: int, piles: seq<int>, hand: seq<Card>)
    requires |piles| == NUMCOLORS && AllValid(hand) && !Misinformative(j, piles, hand)
    ensures forall c | 0 <= c < |hand| && HolmesBot.Touches(j, hand[c]) :: HolmesBot.ReallyPlayable(piles, hand[c])
  {
    forall c | 0 <= c < |hand| && HolmesBot.Touches(j, hand[c])
      ensures HolmesBot.ReallyPlayable(piles, hand[c])
    {
      assert !Misleads(j, piles, hand[c]);
    }
  }

  /**
   * A chosen colour hint names only cards of value pile + 1 of that colour,
   * so what receivers infer from it is true, and that pile is not complete.
   */
  lemma ColorHintInferenceHolds(h: Hint, ai: int, aj: int,
                                me: int, piles: seq<int>, hands: seq<seq<Card>>, hk: seq<seq<Knol>>)
    requires TableOk(me, piles, hands, hk)
    requires BestSoFar(h, ai, aj, |hk|, 0, me, piles, hands, hk) && h.information > 0 && h.color != -1
    ensures 0 <= h.color < NUMCOLORS && piles[h.color] < VALUE_MAX
    ensures forall c | 0 <= c < |hands[h.to]| && hands[h.to][c].color == h.color ::
              hands[h.to][c] == Card(h.color, piles[h.color] + 1)
  {
    ChosenHintIsTruthful(h, ai, aj, me, piles, hands, hk);
    var c :| 0 <= c < |hands[h.to]| && Informs(aj, piles, hands[h.to][c], hk[h.to][c]);
    assert hands[h.to][c].value == piles[h.color] + 1;
  }

  /** A chosen value hint names only cards whose pile is one below that value. */
  lemma ValueHintInferenceHolds(h: Hint, ai: int, aj: int,
                                me: int, piles: seq<int>, hands: seq<seq<Card>>, hk: seq<seq<Knol>>)
    requires TableOk(me, piles, hands, hk)
    requires BestSoFar(h, ai, aj, |hk|, 0, me, piles, hands, hk) && h.information > 0 && h.color == -1
    ensures 1 <= h.value <= VALUE_MAX
    ensures forall c | 0 <= c < |hands[h.to]| && hands[h.to][c].value == h.value ::
              piles[hands[h.to][c].color] + 1 == h.value
  {
    ChosenHintIsTruthful(h, ai, aj, me, piles, hands, hk);
  }

  // ---------------------------------------------------------------------------
  // The bot
  // ---------------------------------------------------------------------------

  /** The hand after invalidateKnol: later entries move down, fresh knowledge at the end. */
  function Invalidated(hk: seq<seq<Knol>>, player: int, cardIndex: int): (r: seq<seq<Knol>>)
    requires AllOk(hk) && 0 <= player < |hk| && 0 <= cardIndex < |hk[player]|
    ensures AllOk(r) && |r| == |hk| && |r[player]| == |hk[player]|
  {
    hk[player := SeqUtil.RemoveAt(hk[player], cardIndex) + [FreshKnol()]]
  }

  class SimpleBotImpl {
    const me: int
    var handKnowledge: seq<seq<Knol>>

    ghost predicate Valid()
      reads this
    {
      AllOk(handKnowledge)
    }

    /** SimpleBot(index, numPlayers, handSize): fresh knowledge for every card. */
    constructor(index: int, numPlayers: nat, handSize: nat)
      ensures Valid() && me == index
      ensures |handKnowledge| == numPlayers
      ensures forall p | 0 <= p < numPlayers :: handKnowledge[p] == seq(handSize, i => FreshKnol())
    {
      me := index;
      handKnowledge := seq(numPlayers, p => seq(handSize, i => FreshKnol()));
    }

    method InvalidateKnol(player: int, cardIndex: int)
      requires Valid() && 0 <= player < |handKnowledge| && 0 <= cardIndex < |handKnowledge[player]|
      modifies this
      ensures Valid() && handKnowledge == Invalidated(old(handKnowledge), player, cardIndex)
    {
      var vec := SeqUtil.ShiftDown(handKnowledge[player], cardIndex);
      vec := vec[|vec| - 1 := FreshKnol()];
      assert vec == SeqUtil.RemoveAt(handKnowledge[player], cardIndex) + [FreshKnol()];
      handKnowledge := handKnowledge[player := vec];
    }

    method ObserveBeforeDiscard(from: int, cardIndex: int)
      requires Valid() && 0 <= from < |handKnowledge| && 0 <= cardIndex < |handKnowledge[from]|
      modifies this
      ensures Valid() && handKnowledge == Invalidated(old(handKnowledge), from, cardIndex)
    {
      InvalidateKnol(from, cardIndex);
    }

    method WipeOutPlayables(played: Card)
      requires Valid() && ValidCard(played)
      modifies this
      ensures Valid() && handKnowledge == WipedAll(old(handKnowledge), played)
    {
      handKnowledge := WipeAll(handKnowledge, played);
    }

    /** `played` is the server's activeCard(), the card being played. */
    method ObserveBeforePlay(from: int, cardIndex: int, played: Card)
      requires Valid() && 0 <= from < |handKnowledge| && 0 <= cardIndex < |handKnowledge[from]|
      requires ValidCard(played)
      modifies this
      ensures Valid()
      ensures handKnowledge == WipedAll(Invalidated(old(handKnowledge), from, cardIndex), played)
    {
      InvalidateKnol(from, cardIndex);
      WipeOutPlayables(played);
    }

    /**
     * pleaseObserveColorHint: every named card is that colour and the next
     * value of its pile, and playable. A complete pile would make that value
     * 6, past the end of the value table.
     */
    method ObserveColorHint(to: int, color: int, ci: CardIndices, piles: seq<int>)
      requires Valid() && 0 <= to < |handKnowledge| && ValidColor(color)
      requires |piles| == NUMCOLORS && 0 <= piles[color] < VALUE_MAX
      requires IndicesOk(ci, |handKnowledge[to]|)
      requires ColorAdmitted(handKnowledge[to], ci.bits, color, piles[color] + 1)
      modifies this
      ensures Valid()
      ensures handKnowledge == old(handKnowledge)[to := ColorHintedHand(old(handKnowledge)[to], ci.bits, color,
                                                                          piles[color] + 1)]
    {
      var hand := ApplyColorHint(handKnowledge[to], ci, color, piles[color] + 1);
      AllOkUpdate(handKnowledge, to, hand);
      handKnowledge := handKnowledge[to := hand];
    }

    /**
     * pleaseObserveValueHint: ignored when it is a reclaim, else every named
     * card has that value and is playable.
     */
    method ObserveValueHint(from: int, to: int, value: int, ci: CardIndices, discardingAllowed: bool)
      requires Valid() && 0 <= to < |handKnowledge| && 1 <= value <= VALUE_MAX
      requires IndicesOk(ci, |handKnowledge[to]|)
      requires !Reclaim(discardingAllowed, from, to, |handKnowledge|, ci.Contains(0)) ==>
                 ValueAdmitted(handKnowledge[to], ci.bits, value)
      modifies this
      ensures Valid()
      ensures Reclaim(discardingAllowed, from, to, |old(handKnowledge)|, ci.Contains(0)) ==>
                handKnowledge == old(handKnowledge)
      ensures !Reclaim(discardingAllowed, from, to, |old(handKnowledge)|, ci.Contains(0)) ==>
                handKnowledge == old(handKnowledge)[to := ValueHintedHand(old(handKnowledge)[to], ci.bits, value)]
    {
      if Reclaim(discardingAllowed, from, to, |handKnowledge|, ci.Contains(0)) {
        return;
      }
      var hand := ApplyValueHint(handKnowledge[to], ci, value);
      AllOkUpdate(handKnowledge, to, hand);
      handKnowledge := handKnowledge[to := hand];
    }

    /**
     * maybePlayLowestPlayableCard: play the first card of least value among
     * those flagged playable; none when no card is flagged. The chosen
     * card's value is known, as the source asserts.
     */
    method MaybePlayLowestPlayableCard() returns (m: Option<BotUtils.Move>)
      requires Valid() && 0 <= me < |handKnowledge|
      ensures var best := Lowest(handKnowledge[me], |handKnowledge[me]|);
              FirstLowest(handKnowledge[me], |handKnowledge[me]|, best)
              && m == (if best == -1 then None else Some(BotUtils.PlayMove(best)))
              && (best != -1 ==> 1 <= ValueOf(handKnowledge[me][best]) <= VALUE_MAX)
    {
      var best := LowestPlayable(handKnowledge[me]);
      LowestIsFirstLowest(handKnowledge[me], |handKnowledge[me]|);
      if best != -1 {
        return Some(BotUtils.PlayMove(best));
      }
      return None;
    }

    /** maybeGiveHelpfulHint: nothing without stones, else the outcome of the search. */
    method MaybeGiveHelpfulHint(stones: int, hands: seq<seq<Card>>, piles: seq<int>)
      returns (m: Option<BotUtils.Move>, ghost h: Hint, ghost ai: int, ghost aj: int)
      requires TableOk(me, piles, hands, handKnowledge)
      ensures stones == 0 ==> m == None
      ensures stones != 0 ==> BestSoFar(h, ai, aj, |handKnowledge|, 0, me, piles, hands, handKnowledge)
                              && m == HintMove(h)
    {
      h, ai, aj := NO_HINT, 0, 0;
      if stones == 0 {
        return None, h, ai, aj;
      }
      var best;
      best, ai, aj := HelpfulHint(me, piles, hands, handKnowledge);
      h := best;
      m := HintMove(best);
    }

    /**
     * pleaseMakeMove: play a card flagged playable, else give a helpful
     * hint, else discard the oldest card; when all stones are in the box
     * discarding is not allowed, and the fallback is a value hint to the
     * right about that partner's oldest card.
     */
    method MakeMove(stones: int, hands: seq<seq<Card>>, piles: seq<int>)
      returns (m: BotUtils.Move, ghost h: Hint, ghost ai: int, ghost aj: int)
      requires Valid() && TableOk(me, piles, hands, handKnowledge)
      requires stones == NUMHINTS ==> |hands[RightOf(me, |handKnowledge|)]| > 0
      ensures var best := Lowest(handKnowledge[me], |handKnowledge[me]|);
              best != -1 ==> m == BotUtils.PlayMove(best)
      ensures var best := Lowest(handKnowledge[me], |handKnowledge[me]|);
              best == -1 && stones != 0 ==>
                BestSoFar(h, ai, aj, |handKnowledge|, 0, me, piles, hands, handKnowledge)
                && (h.information > 0 ==> Some(m) == HintMove(h))
      ensures var best := Lowest(handKnowledge[me], |handKnowledge[me]|);
              best == -1 && (stones == 0 || h.information == 0) ==>
                m == if stones == NUMHINTS
                     then var right := RightOf(me, |handKnowledge|);
                          BotUtils.ValueHintMove(hands[right][0].value, right)
                     else BotUtils.DiscardMove(0)
    {
      h, ai, aj := NO_HINT, 0, 0;
      var play := MaybePlayLowestPlayableCard();
      if play.Some? {
        return play.value, h, ai, aj;
      }
      var hint;
      hint, h, ai, aj := MaybeGiveHelpfulHint(stones, hands, piles);
      if hint.Some? {
        return hint.value, h, ai, aj;
      }
      if stones == NUMHINTS {
        var right := RightOf(me, |handKnowledge|);
        m := BotUtils.ValueHintMove(hands[right][0].value, right);
      } else {
        m := BotUtils.DiscardMove(0);
      }
    }
  }
}
