/**
 * SmartBot's knowledge of a hidden card: the table cantBe_[colour][value]
 * of ruled-out cards, the setters that rule cards out, and the scans that
 * derive the card's identity, its number of possibilities and whether it
 * is playable, valuable or worthless. CardKnowledge is a value type held
 * in vectors and copied freely; its table is a value here and each setter
 * is a method whose loops are proved against the function that specifies
 * the new table. The cached fields (possibilities_, color_, value_, the
 * trivalues and the probabilities) are recomputed on each query.
 */
module SmartKnowledge {
  import opened Hanabi
  import InfoTables

  /** trivalue. */
  datatype Trivalue = NO | MAYBE | YES

  /** A cantBe_ table: 5 colours by values 0..5, value 0 unused. */
  predicate Wf(t: seq<seq<bool>>) {
    |t| == NUMCOLORS && forall k | 0 <= k < NUMCOLORS :: |t[k]| == VALUE_MAX + 1
  }

  /** Two tables with the same cells are the same table. */
  lemma TablesEqual(a: seq<seq<bool>>, b: seq<seq<bool>>)
    requires Wf(a) && Wf(b)
    requires forall k, v | 0 <= k < NUMCOLORS && 0 <= v <= VALUE_MAX :: a[k][v] == b[k][v]
    ensures a == b
  {
    forall k | 0 <= k < NUMCOLORS
      ensures a[k] == b[k]
    {
    }
  }

  /** The table of a new CardKnowledge: nothing ruled out. */
  function Fresh(): (t: seq<seq<bool>>)
    ensures Wf(t) && forall k, v | 0 <= k < NUMCOLORS && 0 <= v <= VALUE_MAX :: !t[k][v]
  {
    seq(NUMCOLORS, k => seq(VALUE_MAX + 1, v => false))
  }

  /** The card is not ruled out. */
  predicate Possible(t: seq<seq<bool>>, c: Card)
    requires Wf(t)
  {
    ValidCard(c) && !t[c.color][c.value]
  }

  /** The colour (byColor) or value of a card. */
  function Feature(c: Card, byColor: bool): int {
    if byColor then c.color else c.value
  }

  // ---------------------------------------------------------------------------
  // What the bot knows of the game: pile heights and the cards played or discarded
  // ---------------------------------------------------------------------------

  /** Pile heights per colour and playedCount_ per card. */
  predicate GameOk(piles: seq<int>, played: seq<seq<int>>) {
    |piles| == NUMCOLORS && InfoTables.Shaped(played)
    && forall k | 0 <= k < NUMCOLORS :: 0 <= piles[k] <= VALUE_MAX
  }

  /** SmartBot::isPlayable: the card is the next one on its pile. */
  predicate IsPlayableCard(piles: seq<int>, c: Card)
    requires |piles| == NUMCOLORS && ValidCard(c)
  {
    c.value == piles[c.color] + 1
  }

  /**
   * The card can never be played: it is below its pile's next value, or
   * every copy of some value between the two is gone.
   */
  predicate Worthless(piles: seq<int>, played: seq<seq<int>>, c: Card)
    requires GameOk(piles, played) && ValidCard(c)
  {
    c.value < piles[c.color] + 1
    || exists w | piles[c.color] + 1 <= w < c.value :: played[c.color][w] == Count(Card(c.color, w))
  }

  /** SmartBot::isValuable: the last copy not yet played or discarded, and not worthless. */
  predicate Valuable(piles: seq<int>, played: seq<seq<int>>, c: Card)
    requires GameOk(piles, played) && ValidCard(c)
  {
    played[c.color][c.value] == Count(c) - 1 && !Worthless(piles, played, c)
  }

  /**
   * SmartBot::isWorthless: walks down from the card's value to the
   * pile's next value looking for a value with every copy gone.
   */
  method IsWorthless(piles: seq<int>, played: seq<seq<int>>, card: Card) returns (b: bool)
    requires GameOk(piles, played) && ValidCard(card)
    ensures b <==> Worthless(piles, played, card)
  {
    var playableValue := piles[card.color] + 1;
    if card.value < playableValue {
      return true;
    }
    var value := card.value;
    while value > playableValue
      invariant playableValue <= value <= card.value
      invariant forall w | value <= w < card.value :: played[card.color][w] != Count(Card(card.color, w))
    {
      value := value - 1;
      if played[card.color][value] == Count(Card(card.color, value)) {
        return true;
      }
    }
    return false;
  }

  /** SmartBot::isValuable. */
  method IsValuable(piles: seq<int>, played: seq<seq<int>>, card: Card) returns (b: bool)
    requires GameOk(piles, played) && ValidCard(card)
    ensures b <==> Valuable(piles, played, card)
  {
    if played[card.color][card.value] != Count(card) - 1 {
      return false;
    }
    var w := IsWorthless(piles, played, card);
    return !w;
  }

  /** A playable card is never worthless, so never both. */
  lemma PlayableNotWorthless(piles: seq<int>, played: seq<seq<int>>, c: Card)
    requires GameOk(piles, played) && ValidCard(c) && IsPlayableCard(piles, c)
    ensures !Worthless(piles, played, c)
  {
  }

  // ---------------------------------------------------------------------------
  // The setters
  // ---------------------------------------------------------------------------

  /** The three card properties a knowledge can be told about. */
  datatype Property = Playable | ValuableProp | WorthlessProp

  function Has(prop: Property, piles: seq<int>, played: seq<seq<int>>, c: Card): bool
    requires GameOk(piles, played) && ValidCard(c)
  {
    match prop
    case Playable => IsPlayableCard(piles, c)
    case ValuableProp => Valuable(piles, played, c)
    case WorthlessProp => Worthless(piles, played, c)
  }

  /** The reason a setter rules a card out. */
  datatype Rule =
    | OnlyColor(color: int)
    | OnlyValue(value: int)
    | NotColor(color: int)
    | NotValue(value: int)
    | Told(prop: Property, piles: seq<int>, played: seq<seq<int>>, yes: bool)
    | Exhausted(played: seq<seq<int>>, held: seq<seq<int>>)

  predicate RuleOk(rule: Rule) {
    match rule
    case Told(_, piles, played, _) => GameOk(piles, played)
    case Exhausted(played, held) => InfoTables.Shaped(played) && InfoTables.Shaped(held)
    case _ => true
  }

  /**
   * Whether the rule rules out the card of colour k and value v:
   * setMustBe(color) every other colour, setCannotBe(color) that colour,
   * setIsPlayable(b) / setIsValuable(b) / setIsWorthless(b) every card
   * whose property differs from b, and update() every card whose copies
   * are all played or held.
   */
  function RuleHolds(rule: Rule, k: int, v: int): bool
    requires RuleOk(rule) && 0 <= k < NUMCOLORS && 1 <= v <= VALUE_MAX
  {
    match rule
    case OnlyColor(color) => k != color
    case OnlyValue(value) => v != value
    case NotColor(color) => k == color
    case NotValue(value) => v == value
    case Told(prop, piles, played, yes) => Has(prop, piles, played, Card(k, v)) != yes
    case Exhausted(played, held) => played[k][v] + held[k][v] >= Count(Card(k, v))
  }

  /** The table after applying a setter: the cells the rule covers become true. */
  function Excluded(t: seq<seq<bool>>, rule: Rule): (r: seq<seq<bool>>)
    requires Wf(t) && RuleOk(rule)
    ensures Wf(r)
    ensures forall k, v | 0 <= k < NUMCOLORS && 0 <= v <= VALUE_MAX :: t[k][v] ==> r[k][v]
  {
    seq(NUMCOLORS, k requires 0 <= k < NUMCOLORS =>
      seq(VALUE_MAX + 1, v requires 0 <= v <= VALUE_MAX =>
        t[k][v] || (1 <= v && RuleHolds(rule, k, v))))
  }

  /** After a setter, a card is possible exactly when it was and the rule spares it. */
  lemma ExcludedMeaning(t: seq<seq<bool>>, rule: Rule, c: Card)
    requires Wf(t) && RuleOk(rule)
    ensures Possible(Excluded(t, rule), c) <==> Possible(t, c) && !RuleHolds(rule, c.color, c.value)
  {
  }

  /** The inner loop of a setter over the values of colour k. */
  method ExcludeRow(t0: seq<seq<bool>>, k: int, rule: Rule) returns (t: seq<seq<bool>>)
    requires Wf(t0) && RuleOk(rule) && 0 <= k < NUMCOLORS
    ensures t == t0[k := Excluded(t0, rule)[k]]
  {
    t := t0;
    var v := 1;
    while v <= VALUE_MAX
      invariant 1 <= v <= VALUE_MAX + 1 && Wf(t)
      invariant forall i | 0 <= i < NUMCOLORS && i != k :: t[i] == t0[i]
      invariant forall w | 0 <= w < v :: t[k][w] == Excluded(t0, rule)[k][w]
      invariant forall w | v <= w <= VALUE_MAX :: t[k][w] == t0[k][w]
    {
      if !t[k][v] && RuleHolds(rule, k, v) {
        t := t[k := t[k][v := true]];
      }
      v := v + 1;
    }
    assert t[k] == Excluded(t0, rule)[k];
  }

  /**
   * setMustBe(color), setMustBe(value), setCannotBe(color),
   * setCannotBe(value), setIsPlayable, setIsValuable, setIsWorthless: the
   * loops over every cell that rule cards out.
   */
  method Exclude(t0: seq<seq<bool>>, rule: Rule) returns (t: seq<seq<bool>>)
    requires Wf(t0) && RuleOk(rule)
    ensures t == Excluded(t0, rule)
  {
    t := t0;
    var k := RED;
    while k <= BLUE
      invariant RED <= k <= BLUE + 1 && Wf(t)
      invariant forall i | 0 <= i < k :: t[i] == Excluded(t0, rule)[i]
      invariant forall i | k <= i < NUMCOLORS :: t[i] == t0[i]
    {
      t := ExcludeRow(t, k, rule);
      k := k + 1;
    }
  }

  /**
   * setMustBe(color) rules out every card of every other colour and
   * leaves the cards of that colour as they were.
   */
  lemma MustBeColorMeaning(t: seq<seq<bool>>, color: int)
    requires Wf(t) && ValidColor(color)
    ensures forall c | ValidCard(c) && c.color != color :: !Possible(Excluded(t, OnlyColor(color)), c)
    ensures forall v | 0 <= v <= VALUE_MAX :: Excluded(t, OnlyColor(color))[color][v] == t[color][v]
  {
  }

  /** setCannotBe(color) rules out exactly the five cards of that colour. */
  lemma CannotBeColorMeaning(t: seq<seq<bool>>, color: int)
    requires Wf(t) && ValidColor(color)
    ensures forall v | 1 <= v <= VALUE_MAX :: Excluded(t, NotColor(color))[color][v]
    ensures forall k, v | 0 <= k < NUMCOLORS && 0 <= v <= VALUE_MAX && (k != color || v == 0) ::
              Excluded(t, NotColor(color))[k][v] == t[k][v]
  {
  }

  /**
   * setMustBe(value) rules out every card of every other value and
   * leaves the cards of that value as they were.
   */
  lemma MustBeValueMeaning(t: seq<seq<bool>>, value: int)
    requires Wf(t) && 1 <= value <= VALUE_MAX
    ensures forall c | ValidCard(c) && c.value != value :: !Possible(Excluded(t, OnlyValue(value)), c)
    ensures forall k | 0 <= k < NUMCOLORS :: Excluded(t, OnlyValue(value))[k][value] == t[k][value]
  {
  }

  /** setCannotBe(value) rules out exactly the five cards of that value. */
  lemma CannotBeValueMeaning(t: seq<seq<bool>>, value: int)
    requires Wf(t) && 1 <= value <= VALUE_MAX
    ensures forall k | 0 <= k < NUMCOLORS :: Excluded(t, NotValue(value))[k][value]
    ensures forall k, v | 0 <= k < NUMCOLORS && 0 <= v <= VALUE_MAX && v != value ::
              Excluded(t, NotValue(value))[k][v] == t[k][v]
  {
  }

  /** The table setMustBe(card) writes: every card but that one ruled out. */
  function OnlyCard(t: seq<seq<bool>>, c: Card): (r: seq<seq<bool>>)
    requires Wf(t)
    ensures Wf(r)
  {
    seq(NUMCOLORS, k requires 0 <= k < NUMCOLORS =>
      seq(VALUE_MAX + 1, v requires 0 <= v <= VALUE_MAX =>
        if 1 <= v then !(k == c.color && v == c.value) else t[k][v]))
  }

  /** setMustBe(card): assigns every cell, so that only the card stays possible. */
  method SetMustBeCard(t0: seq<seq<bool>>, card: Card) returns (t: seq<seq<bool>>)
    requires Wf(t0)
    ensures t == OnlyCard(t0, card)
  {
    t := t0;
    var k := RED;
    while k <= BLUE
      invariant RED <= k <= BLUE + 1 && Wf(t)
      invariant forall i | 0 <= i < k :: t[i] == OnlyCard(t0, card)[i]
      invariant forall i | k <= i < NUMCOLORS :: t[i] == t0[i]
    {
      var v := 1;
      while v <= VALUE_MAX
        invariant 1 <= v <= VALUE_MAX + 1 && Wf(t)
        invariant forall i | 0 <= i < NUMCOLORS && i != k :: t[i] == (if i < k then OnlyCard(t0, card)[i] else t0[i])
        invariant forall w | 0 <= w < v :: t[k][w] == OnlyCard(t0, card)[k][w]
        invariant forall w | v <= w <= VALUE_MAX :: t[k][w] == t0[k][w]
      {
        t := t[k := t[k][v := !(k == card.color && v == card.value)]];
        v := v + 1;
      }
      assert t[k] == OnlyCard(t0, card)[k];
      k := k + 1;
    }
  }

  /** After setMustBe(card) of a valid card, that card and no other is possible. */
  lemma OnlyCardMeaning(t: seq<seq<bool>>, c: Card)
    requires Wf(t) && ValidCard(c)
    ensures Possible(OnlyCard(t, c), c)
    ensures forall d | Possible(OnlyCard(t, c), d) :: d == c
  {
  }

  // ---------------------------------------------------------------------------
  // The scans
  // ---------------------------------------------------------------------------

  /** The scan order of the source's loops: colour by colour, value by value. */
  predicate Before(c: Card, k: int, v: int) {
    c.color < k || (c.color == k && c.value < v)
  }

  /** Every possible card has colour (value) x, and some card is possible. */
  ghost predicate Unique(t: seq<seq<bool>>, byColor: bool, x: int)
    requires Wf(t)
  {
    (exists c :: Possible(t, c)) && forall c | Possible(t, c) :: Feature(c, byColor) == x
  }

  /**
   * color() / value(): the colour (value) shared by every possible card,
   * or -1 when they differ or none is possible.
   */
  ghost function Identity(t: seq<seq<bool>>, byColor: bool): (x: int)
    requires Wf(t)
    ensures x == -1 || (x >= 0 && Unique(t, byColor, x))
    ensures x == -1 <==> forall y :: !Unique(t, byColor, y)
  {
    if exists y :: Unique(t, byColor, y) then
      var y :| Unique(t, byColor, y);
      var c :| Possible(t, c);
      assert Feature(c, byColor) == y;
      y
    else -1
  }

  /** known(): both the colour and the value are determined. */
  ghost predicate Known(t: seq<seq<bool>>)
    requires Wf(t)
  {
    Identity(t, true) >= 0 && Identity(t, false) >= 0
  }

  /** A known card is the one possible card, and a table with one possible card is known. */
  lemma KnownMeaning(t: seq<seq<bool>>)
    requires Wf(t)
    ensures Known(t) ==> Possible(t, Card(Identity(t, true), Identity(t, false)))
    ensures Known(t) ==> forall c | Possible(t, c) :: c == Card(Identity(t, true), Identity(t, false))
    ensures forall c | Possible(t, c) && (forall d | Possible(t, d) :: d == c) :: Known(t)
  {
    if Known(t) {
      var c :| Possible(t, c);
      assert c == Card(Identity(t, true), Identity(t, false));
    }
    forall c | Possible(t, c) && (forall d | Possible(t, d) :: d == c)
      ensures Known(t)
    {
      assert Unique(t, true, c.color);
      assert Unique(t, false, c.value);
    }
  }

  /** What computeIdentity's accumulator knows after the cells before (k, v). */
  ghost predicate AccScanned(t: seq<seq<bool>>, k: int, v: int, acc: int, byColor: bool)
    requires Wf(t)
  {
    && acc >= -2
    && (acc == -2 ==> forall c | Possible(t, c) :: !Before(c, k, v))
    && (acc >= 0 ==> (exists c :: Possible(t, c) && Before(c, k, v))
                     && forall c | Possible(t, c) && Before(c, k, v) :: Feature(c, byColor) == acc)
    && (acc == -1 ==> exists c, d :: Possible(t, c) && Before(c, k, v) && Possible(t, d) && Before(d, k, v)
                                    && Feature(c, byColor) != Feature(d, byColor))
  }

  /** The accumulator update of computeIdentity for one possible cell. */
  function Accumulate(acc: int, x: int): int {
    if acc == -2 || acc == x then x else -1
  }

  lemma AccStep(t: seq<seq<bool>>, k: int, v: int, acc: int, byColor: bool)
    requires Wf(t) && 0 <= k < NUMCOLORS && 1 <= v <= VALUE_MAX && AccScanned(t, k, v, acc, byColor)
    ensures !t[k][v] ==> AccScanned(t, k, v + 1, Accumulate(acc, Feature(Card(k, v), byColor)), byColor)
    ensures t[k][v] ==> AccScanned(t, k, v + 1, acc, byColor)
  {
    var here := Card(k, v);
    if !t[k][v] {
      assert Possible(t, here) && Before(here, k, v + 1);
      if acc >= 0 && acc != Feature(here, byColor) {
        var c :| Possible(t, c) && Before(c, k, v);
        assert Before(c, k, v + 1) && Feature(c, byColor) != Feature(here, byColor);
      } else if acc == -1 {
        var c, d :| Possible(t, c) && Before(c, k, v) && Possible(t, d) && Before(d, k, v)
                    && Feature(c, byColor) != Feature(d, byColor);
        assert Before(c, k, v + 1) && Before(d, k, v + 1);
      } else if acc >= 0 {
        var c :| Possible(t, c) && Before(c, k, v);
        assert Before(c, k, v + 1);
      }
    } else {
      if acc >= 0 {
        var c :| Possible(t, c) && Before(c, k, v);
        assert Before(c, k, v + 1);
      } else if acc == -1 {
        var c, d :| Possible(t, c) && Before(c, k, v) && Possible(t, d) && Before(d, k, v)
                    && Feature(c, byColor) != Feature(d, byColor);
        assert Before(c, k, v + 1) && Before(d, k, v + 1);
      }
    }
  }

  lemma AccNextColor(t: seq<seq<bool>>, k: int, acc: int, byColor: bool)
    requires Wf(t) && AccScanned(t, k, VALUE_MAX + 1, acc, byColor)
    ensures AccScanned(t, k + 1, 1, acc, byColor)
  {
    forall c | ValidCard(c)
      ensures Before(c, k, VALUE_MAX + 1) <==> Before(c, k + 1, 1)
    {
    }
  }

  /** After the whole scan the accumulator is the identity, -2 standing for no possible card. */
  lemma AccDone(t: seq<seq<bool>>, acc: int, byColor: bool)
    requires Wf(t) && AccScanned(t, NUMCOLORS, 1, acc, byColor)
    ensures acc == -2 ==> forall c :: !Possible(t, c)
    ensures (if acc == -2 then -1 else acc) == Identity(t, byColor)
  {
    assert forall c | Possible(t, c) :: Before(c, NUMCOLORS, 1);
    if acc >= 0 {
      assert Unique(t, byColor, acc);
    } else if acc == -1 {
      var c, d :| Possible(t, c) && Possible(t, d) && Feature(c, byColor) != Feature(d, byColor);
      forall y
        ensures !Unique(t, byColor, y)
      {
      }
    }
  }

  /** Both accumulators of computeIdentity after the cells before (k, v). */
  ghost predicate IdScanned(t: seq<seq<bool>>, k: int, v: int, color: int, value: int)
    requires Wf(t)
  {
    AccScanned(t, k, v, color, true) && AccScanned(t, k, v, value, false)
  }

  /** The body of computeIdentity's loop for cell (k, v). */
  method IdentityCell(t: seq<seq<bool>>, k: int, v: int, color0: int, value0: int) returns (color: int, value: int)
    requires Wf(t) && 0 <= k < NUMCOLORS && 1 <= v <= VALUE_MAX
    requires IdScanned(t, k, v, color0, value0)
    ensures IdScanned(t, k, v + 1, color, value)
  {
    AccStep(t, k, v, color0, true);
    AccStep(t, k, v, value0, false);
    color, value := color0, value0;
    if !t[k][v] {
      color := if color == -2 || color == k then k else -1;
      value := if value == -2 || value == v then v else -1;
    }
  }

  /** The loop of computeIdentity over the values of colour k. */
  method IdentityRow(t: seq<seq<bool>>, k: int, color0: int, value0: int) returns (color: int, value: int)
    requires Wf(t) && 0 <= k < NUMCOLORS
    requires IdScanned(t, k, 1, color0, value0)
    ensures IdScanned(t, k, VALUE_MAX + 1, color, value)
  {
    color, value := color0, value0;
    var v := 1;
    while v <= VALUE_MAX
      invariant 1 <= v <= VALUE_MAX + 1
      invariant IdScanned(t, k, v, color, value)
    {
      color, value := IdentityCell(t, k, v, color, value);
      v := v + 1;
    }
  }

  /**
   * computeIdentity: scans the possible cells, keeping the colour and the
   * value they share. A confused knowledge, with no possible cell, gets
   * -1 for both (the source asserts the bot is permissive first).
   */
  method ComputeIdentity(t: seq<seq<bool>>) returns (color: int, value: int)
    requires Wf(t)
    ensures color == Identity(t, true) && value == Identity(t, false)
  {
    color, value := -2, -2;
    var k := RED;
    while k <= BLUE
      invariant RED <= k <= BLUE + 1
      invariant IdScanned(t, k, 1, color, value)
    {
      color, value := IdentityRow(t, k, color, value);
      AccNextColor(t, k, color, true);
      AccNextColor(t, k, value, false);
      k := k + 1;
    }
    AccDone(t, color, true);
    AccDone(t, value, false);
    if color == -2 {
      color := -1;
    }
    if value == -2 {
      value := -1;
    }
  }

  /** known(). */
  method IsKnown(t: seq<seq<bool>>) returns (b: bool)
    requires Wf(t)
    ensures b <==> Known(t)
  {
    var color, value := ComputeIdentity(t);
    b := color != -1 && value != -1;
  }

  /** cannotBe(color) without the cached identity: all five cells of the colour are ruled out. */
  method CannotBeColor(t: seq<seq<bool>>, color: int) returns (b: bool)
    requires Wf(t) && ValidColor(color)
    ensures b <==> forall c | ValidCard(c) && c.color == color :: !Possible(t, c)
  {
    var v := 1;
    while v <= VALUE_MAX
      invariant 1 <= v <= VALUE_MAX + 1
      invariant forall w | 1 <= w < v :: t[color][w]
    {
      if !t[color][v] {
        assert Possible(t, Card(color, v));
        return false;
      }
      v := v + 1;
    }
    return true;
  }

  /** cannotBe(value) without the cached identity: the cells of that value in all five colours are ruled out. */
  method CannotBeValue(t: seq<seq<bool>>, value: int) returns (b: bool)
    requires Wf(t) && 1 <= value <= VALUE_MAX
    ensures b <==> forall c | ValidCard(c) && c.value == value :: !Possible(t, c)
  {
    var k := RED;
    while k <= BLUE
      invariant RED <= k <= BLUE + 1
      invariant forall j | RED <= j < k :: t[j][value]
    {
      if !t[k][value] {
        assert Possible(t, Card(k, value));
        return false;
      }
      k := k + 1;
    }
    return true;
  }

  /**
   * The shortcut cannotBe takes when the identity is cached agrees with
   * the scan: with the colour (value) known, a card cannot be of any
   * other colour (value) and can be of that one.
   */
  lemma CannotBeShortcut(t: seq<seq<bool>>, byColor: bool, x: int)
    requires Wf(t) && Identity(t, byColor) >= 0
    ensures (forall c | ValidCard(c) && Feature(c, byColor) == x :: !Possible(t, c)) <==> Identity(t, byColor) != x
  {
    var c :| Possible(t, c);
  }

  /** The possible cards. */
  ghost function PossibleSet(t: seq<seq<bool>>): (s: set<Card>)
    requires Wf(t)
    ensures forall c :: c in s <==> Possible(t, c)
  {
    set k, v | 0 <= k < NUMCOLORS && 1 <= v <= VALUE_MAX && !t[k][v] :: Card(k, v)
  }

  /** The possible cards before (k, v) in scan order. */
  ghost function ScannedSet(t: seq<seq<bool>>, k: int, v: int): set<Card>
    requires Wf(t)
  {
    set c | c in PossibleSet(t) && Before(c, k, v)
  }

  lemma ScannedSetStep(t: seq<seq<bool>>, k: int, v: int)
    requires Wf(t) && 0 <= k < NUMCOLORS && 1 <= v <= VALUE_MAX
    ensures Card(k, v) !in ScannedSet(t, k, v)
    ensures ScannedSet(t, k, v + 1) == ScannedSet(t, k, v) + (if t[k][v] then {} else {Card(k, v)})
  {
  }

  lemma ScannedSetNextColor(t: seq<seq<bool>>, k: int)
    requires Wf(t)
    ensures ScannedSet(t, k, VALUE_MAX + 1) == ScannedSet(t, k + 1, 1)
  {
  }

  /** possibilities(): the number of possible cards, 10 for a confused knowledge. */
  ghost function Possibilities(t: seq<seq<bool>>): int
    requires Wf(t)
  {
    if |PossibleSet(t)| == 0 then 10 else |PossibleSet(t)|
  }

  /** The loop of computePossibilities over the values of colour k. */
  method CountRow(t: seq<seq<bool>>, k: int, n0: int) returns (n: int)
    requires Wf(t) && 0 <= k < NUMCOLORS && n0 == |ScannedSet(t, k, 1)| && n0 <= k * VALUE_MAX
    ensures n == |ScannedSet(t, k + 1, 1)| && n <= (k + 1) * VALUE_MAX
  {
    n := n0;
    var v := 1;
    while v <= VALUE_MAX
      invariant 1 <= v <= VALUE_MAX + 1 && n == |ScannedSet(t, k, v)| && n <= k * VALUE_MAX + v - 1
    {
      ScannedSetStep(t, k, v);
      n := n + if t[k][v] then 0 else 1;
      v := v + 1;
    }
    ScannedSetNextColor(t, k);
  }

  /**
   * computePossibilities: counts the possible cells; a confused knowledge
   * counts as 10 (the source asserts the bot is permissive first).
   */
  method ComputePossibilities(t: seq<seq<bool>>) returns (n: int)
    requires Wf(t)
    ensures n == Possibilities(t)
    ensures 1 <= n <= NUMCOLORS * VALUE_MAX
  {
    n := 0;
    var k := RED;
    assert ScannedSet(t, k, 1) == {};
    while k <= BLUE
      invariant RED <= k <= BLUE + 1 && n == |ScannedSet(t, k, 1)| && n <= k * VALUE_MAX
    {
      n := CountRow(t, k, n);
      k := k + 1;
    }
    assert ScannedSet(t, k, 1) == PossibleSet(t);
    if n < 1 {
      n := 10;
    }
  }

  /**
   * A new table with one more cell ruled out than before has strictly
   * fewer possibilities, unless it becomes confused.
   */
  lemma {:induction false} RefinedFewer(old_: seq<seq<bool>>, t: seq<seq<bool>>)
    requires Wf(old_) && Wf(t)
    requires forall k, v | 0 <= k < NUMCOLORS && 0 <= v <= VALUE_MAX :: old_[k][v] ==> t[k][v]
    ensures PossibleSet(t) <= PossibleSet(old_)
    ensures |PossibleSet(t)| <= |PossibleSet(old_)|
  {
    assert PossibleSet(t) <= PossibleSet(old_);
    SubsetCard(PossibleSet(t), PossibleSet(old_));
  }

  lemma SubsetCard<T>(a: set<T>, b: set<T>)
    requires a <= b
    ensures |a| <= |b|
  {
    assert b == a + (b - a);
  }

  /** trivalue of a property over the possible cards; MAYBE when confused. */
  ghost function TriOf(t: seq<seq<bool>>, prop: Property, piles: seq<int>, played: seq<seq<int>>): Trivalue
    requires Wf(t) && GameOk(piles, played)
  {
    if forall c :: !Possible(t, c) then MAYBE
    else if forall c | Possible(t, c) :: Has(prop, piles, played, c) then YES
    else if forall c | Possible(t, c) :: !Has(prop, piles, played, c) then NO
    else MAYBE
  }

  /** What the counting loop of computePlayable etc. knows after the cells before (k, v). */
  ghost predicate TriScanned(t: seq<seq<bool>>, prop: Property, piles: seq<int>, played: seq<seq<int>>,
                             k: int, v: int, total: int, yes: int)
    requires Wf(t) && GameOk(piles, played)
  {
    && 0 <= yes <= total
    && (total == 0 <==> forall c | Possible(t, c) :: !Before(c, k, v))
    && (yes == total <==> forall c | Possible(t, c) && Before(c, k, v) :: Has(prop, piles, played, c))
    && (yes == 0 <==> forall c | Possible(t, c) && Before(c, k, v) :: !Has(prop, piles, played, c))
  }

  /** The counting loop over the values of colour k. */
  method TriRow(t: seq<seq<bool>>, prop: Property, piles: seq<int>, played: seq<seq<int>>,
                k: int, total0: int, yes0: int) returns (total: int, yes: int)
    requires Wf(t) && GameOk(piles, played) && 0 <= k < NUMCOLORS
    requires TriScanned(t, prop, piles, played, k, 1, total0, yes0)
    ensures TriScanned(t, prop, piles, played, k, VALUE_MAX + 1, total, yes)
  {
    total, yes := total0, yes0;
    var v := 1;
    while v <= VALUE_MAX
      invariant 1 <= v <= VALUE_MAX + 1
      invariant TriScanned(t, prop, piles, played, k, v, total, yes)
    {
      total, yes := TriCell(t, prop, piles, played, k, v, total, yes);
      v := v + 1;
    }
  }

  lemma TriNextColor(t: seq<seq<bool>>, prop: Property, piles: seq<int>, played: seq<seq<int>>,
                     k: int, total: int, yes: int)
    requires Wf(t) && GameOk(piles, played)
    requires TriScanned(t, prop, piles, played, k, VALUE_MAX + 1, total, yes)
    ensures TriScanned(t, prop, piles, played, k + 1, 1, total, yes)
  {
    assert forall c | ValidCard(c) :: Before(c, k, VALUE_MAX + 1) <==> Before(c, k + 1, 1);
  }

  /** The body of the counting loop for cell (k, v). */
  method TriCell(t: seq<seq<bool>>, prop: Property, piles: seq<int>, played: seq<seq<int>>,
                 k: int, v: int, total0: int, yes0: int) returns (total: int, yes: int)
    requires Wf(t) && GameOk(piles, played) && 0 <= k < NUMCOLORS && 1 <= v <= VALUE_MAX
    requires TriScanned(t, prop, piles, played, k, v, total0, yes0)
    ensures TriScanned(t, prop, piles, played, k, v + 1, total, yes)
  {
    total, yes := total0, yes0;
    var here := Card(k, v);
    assert forall c :: Before(c, k, v + 1) <==> Before(c, k, v) || c == here;
    if !t[k][v] {
      assert Possible(t, here);
      var has := HasProperty(prop, piles, played, here);
      total := total + 1;
      yes := yes + if has then 1 else 0;
    }
  }

  /** isPlayable / isValuable / isWorthless of the bot, as chosen by prop. */
  method HasProperty(prop: Property, piles: seq<int>, played: seq<seq<int>>, c: Card) returns (b: bool)
    requires GameOk(piles, played) && ValidCard(c)
    ensures b == Has(prop, piles, played, c)
  {
    match prop {
      case Playable => b := IsPlayableCard(piles, c);
      case ValuableProp => b := IsValuable(piles, played, c);
      case WorthlessProp => b := IsWorthless(piles, played, c);
    }
  }

  /**
   * computePlayable / computeValuable / computeWorthless: counts the
   * possible cards and those with the property; YES when all have it,
   * NO when none has, MAYBE otherwise or when confused. Also returns the
   * two counts the probability is the ratio of.
   */
  method ComputeTri(t: seq<seq<bool>>, prop: Property, piles: seq<int>, played: seq<seq<int>>)
    returns (tri: Trivalue, yes: int, total: int)
    requires Wf(t) && GameOk(piles, played)
    ensures tri == TriOf(t, prop, piles, played)
    ensures 0 <= yes <= total
  {
    total, yes := 0, 0;
    var k := RED;
    while k <= BLUE
      invariant RED <= k <= BLUE + 1
      invariant TriScanned(t, prop, piles, played, k, 1, total, yes)
    {
      total, yes := TriRow(t, prop, piles, played, k, total, yes);
      TriNextColor(t, prop, piles, played, k, total, yes);
      k := k + 1;
    }
    assert forall c | Possible(t, c) :: Before(c, NUMCOLORS, 1);
    if total < 1 {
      tri := MAYBE;
    } else {
      tri := if yes == total then YES else if yes != 0 then MAYBE else NO;
    }
  }

  /** Known playable cards are never known worthless: setIsPlayable(true) implies worthless NO. */
  lemma PlayableYesNotWorthless(t: seq<seq<bool>>, piles: seq<int>, played: seq<seq<int>>)
    requires Wf(t) && GameOk(piles, played)
    requires TriOf(t, Playable, piles, played) == YES
    ensures TriOf(t, WorthlessProp, piles, played) == NO
  {
    var c :| Possible(t, c);
    assert Has(Playable, piles, played, c);
  }

  /** After setIsPlayable(b) etc. on a table that stays unconfused, the trivalue is b. */
  lemma SetterDecides(t: seq<seq<bool>>, prop: Property, piles: seq<int>, played: seq<seq<int>>, yes: bool)
    requires Wf(t) && GameOk(piles, played)
    requires exists c :: Possible(Excluded(t, Told(prop, piles, played, yes)), c)
    ensures TriOf(Excluded(t, Told(prop, piles, played, yes)), prop, piles, played) == if yes then YES else NO
  {
    var r := Excluded(t, Told(prop, piles, played, yes));
    forall c | Possible(r, c)
      ensures Has(prop, piles, played, c) == yes
    {
      ExcludedMeaning(t, Told(prop, piles, played, yes), c);
    }
  }

  // ---------------------------------------------------------------------------
  // update()
  // ---------------------------------------------------------------------------

  /**
   * update<false>: an unknown card cannot be a card whose copies are all
   * played, discarded or located in some hand. Returns whether a cell
   * changed (the source's recompute flag).
   */
  method Update(t0: seq<seq<bool>>, played: seq<seq<int>>, located: seq<seq<int>>)
    returns (t: seq<seq<bool>>, recompute: bool)
    requires Wf(t0) && InfoTables.Shaped(played) && InfoTables.Shaped(located)
    ensures t == if Known(t0) then t0 else Excluded(t0, Exhausted(played, located))
    ensures recompute <==> exists k, v | 0 <= k < NUMCOLORS && 1 <= v <= VALUE_MAX :: !t0[k][v] && t[k][v]
    ensures !recompute ==> t == t0
  {
    var known := IsKnown(t0);
    if known {
      return t0, false;
    }
    t := Exclude(t0, Exhausted(played, located));
    recompute := false;
    var k := RED;
    while k <= BLUE
      invariant RED <= k <= BLUE + 1
      invariant recompute <==> exists i, v | 0 <= i < k && 1 <= v <= VALUE_MAX :: !t0[i][v] && t[i][v]
    {
      var v := 1;
      while v <= VALUE_MAX
        invariant 1 <= v <= VALUE_MAX + 1
        invariant recompute <==> (exists i, w | 0 <= i < k && 1 <= w <= VALUE_MAX :: !t0[i][w] && t[i][w])
                                 || exists w | 1 <= w < v :: !t0[k][w] && t[k][w]
      {
        if !t0[k][v] && t[k][v] {
          recompute := true;
        }
        v := v + 1;
      }
      k := k + 1;
    }
    if !recompute {
      forall i | 0 <= i < NUMCOLORS
        ensures t[i] == t0[i]
      {
        assert forall w | 0 <= w <= VALUE_MAX :: t[i][w] == t0[i][w];
      }
    }
  }
}

/**
 * The SmartBot player: the knowledge of every hand, the count of each
 * card played or discarded, and the count of each card located in some
 * hand, with the operations that rewrite them.
 */
module SmartBot {
  import opened Hanabi
  import HanabiServer
  import InfoTables
  import SeqUtil
  import opened SmartKnowledge

  /** A hint under consideration: a colour hint when color != -1, else a value hint. */
  datatype Hint = Hint(fitness: int, to: int, color: int, value: int)

  /** Hint::includes. */
  predicate Includes(h: Hint, c: Card) {
    if h.color != -1 then h.color == c.color else h.value == c.value
  }

  /**
   * A colour hint includes exactly the cards the server reports as that
   * colour, and a value hint exactly those it reports as that value.
   */
  lemma IncludesMatches(h: Hint, hand: seq<Card>)
    ensures (set i | 0 <= i < |hand| && Includes(h, hand[i]))
            == if h.color != -1 then HanabiServer.ColorMatches(hand, h.color)
               else HanabiServer.ValueMatches(hand, h.value)
  {
    var included := set i | 0 <= i < |hand| && Includes(h, hand[i]);
    if h.color != -1 {
      assert forall i :: i in included <==> i in HanabiServer.ColorMatches(hand, h.color);
    } else {
      assert forall i :: i in included <==> i in HanabiServer.ValueMatches(hand, h.value);
    }
  }

  /** Every knowledge table of a hand is well formed. */
  predicate HandWf(hand: seq<seq<seq<bool>>>) {
    forall i | 0 <= i < |hand| :: Wf(hand[i])
  }

  predicate AllWf(hk: seq<seq<seq<seq<bool>>>>) {
    forall p | 0 <= p < |hk| :: HandWf(hk[p])
  }

  // ---------------------------------------------------------------------------
  // reduction_in_entropy
  // ---------------------------------------------------------------------------

  /** The possibilities removed from each card, summed over the first n cards. */
  ghost function EntropyDrop(olds: seq<seq<seq<bool>>>, news: seq<seq<seq<bool>>>, n: int): int
    requires HandWf(olds) && HandWf(news) && 0 <= n <= |olds| <= |news|
  {
    if n == 0 then 0
    else EntropyDrop(olds, news, n - 1) + Possibilities(olds[n - 1]) - Possibilities(news[n - 1])
  }

  /** reduction_in_entropy: the possibilities a hint would remove from a hand. */
  method ReductionInEntropy(olds: seq<seq<seq<bool>>>, news: seq<seq<seq<bool>>>) returns (r: int)
    requires HandWf(olds) && HandWf(news) && |olds| <= |news|
    ensures r == EntropyDrop(olds, news, |olds|)
  {
    r := 0;
    var i := 0;
    while i < |olds|
      invariant 0 <= i <= |olds| && r == EntropyDrop(olds, news, i)
    {
      var before := ComputePossibilities(olds[i]);
      var after := ComputePossibilities(news[i]);
      r := r + (before - after);
      i := i + 1;
    }
  }

  /** Every new table rules out at least what the old one did, and none is confused. */
  ghost predicate Narrowed(olds: seq<seq<seq<bool>>>, news: seq<seq<seq<bool>>>)
    requires HandWf(olds) && HandWf(news) && |olds| <= |news|
  {
    forall i | 0 <= i < |olds| ::
      (exists c :: Possible(news[i], c))
      && forall k, v | 0 <= k < NUMCOLORS && 0 <= v <= VALUE_MAX :: olds[i][k][v] ==> news[i][k][v]
  }

  /** A hint that only narrows the tables, and confuses none, never increases the entropy. */
  lemma {:induction false} NarrowingReducesEntropy(olds: seq<seq<seq<bool>>>, news: seq<seq<seq<bool>>>, n: int)
    requires HandWf(olds) && HandWf(news) && 0 <= n <= |olds| <= |news| && Narrowed(olds, news)
    ensures EntropyDrop(olds, news, n) >= 0
  {
    if n > 0 {
      NarrowingReducesEntropy(olds, news, n - 1);
      var c :| Possible(news[n - 1], c);
      assert c in PossibleSet(news[n - 1]);
      RefinedFewer(olds[n - 1], news[n - 1]);
    }
  }

  // ---------------------------------------------------------------------------
  // Located cards
  // ---------------------------------------------------------------------------

  /** knownCard(). */
  ghost function KnownCard(t: seq<seq<bool>>): (c: Card)
    requires Wf(t) && Known(t)
    ensures ValidCard(c) && Possible(t, c)
  {
    KnownMeaning(t);
    Card(Identity(t, true), Identity(t, false))
  }

  /** The known cards of a hand, in order. */
  ghost function KnownIn(hand: seq<seq<seq<bool>>>): (r: seq<Card>)
    requires HandWf(hand)
    ensures AllValid(r)
  {
    if hand == [] then []
    else
      var init := hand[..|hand| - 1];
      var last := hand[|hand| - 1];
      KnownIn(init) + (if Known(last) then [KnownCard(last)] else [])
  }

  /** The known cards of every hand, player by player. */
  ghost function KnownAll(hk: seq<seq<seq<seq<bool>>>>): (r: seq<Card>)
    requires AllWf(hk)
    ensures AllValid(r)
  {
    if hk == [] then [] else KnownAll(hk[..|hk| - 1]) + KnownIn(hk[|hk| - 1])
  }

  /** locatedCount_ as updateLocatedCount computes it: each known card counted once. */
  ghost function LocatedOf(hk: seq<seq<seq<seq<bool>>>>): seq<seq<int>>
    requires AllWf(hk)
  {
    InfoTables.CountsOf(KnownAll(hk)).seen
  }

  /** Counting one more card is incrementing the counts. */
  lemma CountsOfSnoc(s: seq<Card>, c: Card)
    requires AllValid(s) && ValidCard(c)
    ensures InfoTables.CountsOf(s + [c]) == InfoTables.Increment(InfoTables.CountsOf(s), c)
  {
    assert (s + [c])[..|s|] == s;
  }

  /** The inner loop of updateLocatedCount over one hand. */
  method CountKnownHand(hand: seq<seq<seq<bool>>>, counts0: InfoTables.CardCounts, ghost base: seq<Card>)
    returns (counts: InfoTables.CardCounts)
    requires HandWf(hand) && AllValid(base) && counts0 == InfoTables.CountsOf(base)
    ensures counts == InfoTables.CountsOf(base + KnownIn(hand))
  {
    counts := counts0;
    var i := 0;
    assert base + KnownIn(hand[..0]) == base;
    while i < |hand|
      invariant 0 <= i <= |hand| && counts == InfoTables.CountsOf(base + KnownIn(hand[..i]))
    {
      var known := IsKnown(hand[i]);
      if known {
        var color, value := ComputeIdentity(hand[i]);
        CountStepKnown(hand, i, base);
        counts := InfoTables.Increment(counts, Card(color, value));
      } else {
        CountStepUnknown(hand, i, base);
      }
      i := i + 1;
    }
    assert hand[..i] == hand;
  }

  lemma KnownInStep(hand: seq<seq<seq<bool>>>, i: int)
    requires HandWf(hand) && 0 <= i < |hand|
    ensures KnownIn(hand[..i + 1]) == KnownIn(hand[..i]) + (if Known(hand[i]) then [KnownCard(hand[i])] else [])
  {
    assert hand[..i + 1][..i] == hand[..i];
  }

  /** Counting a known card i of the hand adds it to the counts. */
  lemma CountStepKnown(hand: seq<seq<seq<bool>>>, i: int, base: seq<Card>)
    requires HandWf(hand) && 0 <= i < |hand| && AllValid(base) && Known(hand[i])
    ensures InfoTables.CountsOf(base + KnownIn(hand[..i + 1]))
            == InfoTables.Increment(InfoTables.CountsOf(base + KnownIn(hand[..i])), KnownCard(hand[i]))
  {
    KnownInStep(hand, i);
    CountsOfSnoc(base + KnownIn(hand[..i]), KnownCard(hand[i]));
    SeqUtil.AppendAssoc(base, KnownIn(hand[..i]), [KnownCard(hand[i])]);
  }

  /** A card not known leaves the counts alone. */
  lemma CountStepUnknown(hand: seq<seq<seq<bool>>>, i: int, base: seq<Card>)
    requires HandWf(hand) && 0 <= i < |hand| && AllValid(base) && !Known(hand[i])
    ensures InfoTables.CountsOf(base + KnownIn(hand[..i + 1])) == InfoTables.CountsOf(base + KnownIn(hand[..i]))
  {
    KnownInStep(hand, i);
    assert KnownIn(hand[..i]) + [] == KnownIn(hand[..i]);
  }

  /** The table updateLocatedCount computes: the known cards of all hands. */
  method CountKnown(hk: seq<seq<seq<seq<bool>>>>) returns (counts: seq<seq<int>>)
    requires AllWf(hk)
    ensures counts == LocatedOf(hk)
  {
    var cc := InfoTables.CountsOf([]);
    var p := 0;
    while p < |hk|
      invariant 0 <= p <= |hk| && cc == InfoTables.CountsOf(KnownAll(hk[..p]))
    {
      assert hk[..p + 1][..p] == hk[..p];
      cc := CountKnownHand(hk[p], cc, KnownAll(hk[..p]));
      p := p + 1;
    }
    assert hk[..p] == hk;
    counts := cc.seen;
  }

  // ---------------------------------------------------------------------------
  // update<false> over every card
  // ---------------------------------------------------------------------------

  /** update<false> applied to one table. */
  ghost function Updated(t: seq<seq<bool>>, played: seq<seq<int>>, located: seq<seq<int>>): seq<seq<bool>>
    requires Wf(t) && InfoTables.Shaped(played) && InfoTables.Shaped(located)
  {
    if Known(t) then t else Excluded(t, Exhausted(played, located))
  }

  /** Ruling out the same cards twice rules out nothing more. */
  lemma ExcludedIdempotent(t: seq<seq<bool>>, rule: Rule)
    requires Wf(t) && RuleOk(rule)
    ensures Excluded(Excluded(t, rule), rule) == Excluded(t, rule)
  {
    var once := Excluded(t, rule);
    forall k | 0 <= k < NUMCOLORS
      ensures Excluded(once, rule)[k] == once[k]
    {
      assert forall v | 0 <= v <= VALUE_MAX :: Excluded(once, rule)[k][v] == once[k][v];
    }
  }

  /** A table update<false> has produced is left alone by another update with the same counts. */
  lemma UpdatedStable(t: seq<seq<bool>>, played: seq<seq<int>>, located: seq<seq<int>>)
    requires Wf(t) && InfoTables.Shaped(played) && InfoTables.Shaped(located)
    ensures Updated(Updated(t, played, located), played, located) == Updated(t, played, located)
  {
    if !Known(t) {
      ExcludedIdempotent(t, Exhausted(played, located));
    }
  }

  /** Same number of hands and of cards per hand. */
  predicate SameShape(a: seq<seq<seq<seq<bool>>>>, b: seq<seq<seq<seq<bool>>>>) {
    |a| == |b| && forall p | 0 <= p < |a| :: |a[p]| == |b[p]|
  }

  /** Every table of hk rules out at least what the matching table of hk0 did. */
  ghost predicate Refines(hk: seq<seq<seq<seq<bool>>>>, hk0: seq<seq<seq<seq<bool>>>>)
    requires AllWf(hk) && AllWf(hk0)
  {
    SameShape(hk, hk0)
    && forall p, i, k, v | 0 <= p < |hk| && 0 <= i < |hk[p]| && 0 <= k < NUMCOLORS && 0 <= v <= VALUE_MAX ::
         hk0[p][i][k][v] ==> hk[p][i][k][v]
  }

  /** The cells still possible, over every table. */
  ghost function PossibleCells(hk: seq<seq<seq<seq<bool>>>>): set<(int, int, int, int)>
    requires AllWf(hk)
  {
    set p, i, k, v | 0 <= p < |hk| && 0 <= i < |hk[p]| && 0 <= k < NUMCOLORS && 1 <= v <= VALUE_MAX
                     && !hk[p][i][k][v] :: (p, i, k, v)
  }

  /** update<false> on every table of one hand. */
  method UpdateHand(hand0: seq<seq<seq<bool>>>, played: seq<seq<int>>, located: seq<seq<int>>)
    returns (hand: seq<seq<seq<bool>>>, any: bool)
    requires HandWf(hand0) && InfoTables.Shaped(played) && InfoTables.Shaped(located)
    ensures HandWf(hand) && |hand| == |hand0|
    ensures forall i | 0 <= i < |hand| :: hand[i] == Updated(hand0[i], played, located)
    ensures any ==> exists i, k, v | 0 <= i < |hand| && 0 <= k < NUMCOLORS && 1 <= v <= VALUE_MAX ::
                      !hand0[i][k][v] && hand[i][k][v]
    ensures !any ==> hand == hand0
  {
    hand, any := hand0, false;
    var i := 0;
    while i < |hand0|
      invariant 0 <= i <= |hand0| && |hand| == |hand0| && HandWf(hand)
      invariant forall j | 0 <= j < i :: hand[j] == Updated(hand0[j], played, located)
      invariant forall j | i <= j < |hand0| :: hand[j] == hand0[j]
      invariant any ==> exists j, k, v | 0 <= j < i && 0 <= k < NUMCOLORS && 1 <= v <= VALUE_MAX ::
                          !hand0[j][k][v] && hand[j][k][v]
      invariant !any ==> hand == hand0
    {
      var t, recompute := Update(hand0[i], played, located);
      hand := hand[i := t];
      any := any || recompute;
      i := i + 1;
    }
  }

  /** update<false> on every table of every hand (the body of the fixpoint loop). */
  method UpdateAll(hk0: seq<seq<seq<seq<bool>>>>, played: seq<seq<int>>, located: seq<seq<int>>)
    returns (hk: seq<seq<seq<seq<bool>>>>, any: bool)
    requires AllWf(hk0) && InfoTables.Shaped(played) && InfoTables.Shaped(located)
    ensures AllWf(hk) && SameShape(hk, hk0)
    ensures forall p, i | 0 <= p < |hk| && 0 <= i < |hk[p]| :: hk[p][i] == Updated(hk0[p][i], played, located)
    ensures any ==> exists p, i, k, v | 0 <= p < |hk| && 0 <= i < |hk[p]| && 0 <= k < NUMCOLORS && 1 <= v <= VALUE_MAX ::
                      !hk0[p][i][k][v] && hk[p][i][k][v]
    ensures !any ==> hk == hk0
  {
    hk, any := hk0, false;
    var p := 0;
    while p < |hk0|
      invariant 0 <= p <= |hk0| && AllWf(hk) && SameShape(hk, hk0)
      invariant forall q, i | 0 <= q < p && 0 <= i < |hk[q]| :: hk[q][i] == Updated(hk0[q][i], played, located)
      invariant forall q | p <= q < |hk0| :: hk[q] == hk0[q]
      invariant any ==> exists q, i, k, v | 0 <= q < p && 0 <= i < |hk[q]| && 0 <= k < NUMCOLORS && 1 <= v <= VALUE_MAX ::
                          !hk0[q][i][k][v] && hk[q][i][k][v]
      invariant !any ==> hk == hk0
    {
      var hand, changed := UpdateHand(hk0[p], played, located);
      hk := hk[p := hand];
      any := any || changed;
      p := p + 1;
    }
  }

  /** update<false> only rules cards out. */
  lemma UpdatedRefines(hk0: seq<seq<seq<seq<bool>>>>, hk: seq<seq<seq<seq<bool>>>>,
                       played: seq<seq<int>>, located: seq<seq<int>>)
    requires AllWf(hk0) && AllWf(hk) && SameShape(hk, hk0)
    requires InfoTables.Shaped(played) && InfoTables.Shaped(located)
    requires forall p, i | 0 <= p < |hk| && 0 <= i < |hk[p]| :: hk[p][i] == Updated(hk0[p][i], played, located)
    ensures Refines(hk, hk0)
  {
  }

  /** Narrowing the tables shrinks the set of possible cells, strictly when some cell was ruled out. */
  lemma {:induction false} RefinesShrinks(hk: seq<seq<seq<seq<bool>>>>, hk0: seq<seq<seq<seq<bool>>>>,
                                          p: int, i: int, k: int, v: int)
    requires AllWf(hk) && AllWf(hk0) && Refines(hk, hk0)
    requires 0 <= p < |hk| && 0 <= i < |hk[p]| && 0 <= k < NUMCOLORS && 1 <= v <= VALUE_MAX
    requires !hk0[p][i][k][v] && hk[p][i][k][v]
    ensures PossibleCells(hk) < PossibleCells(hk0)
  {
    assert (p, i, k, v) in PossibleCells(hk0) - PossibleCells(hk);
  }

  /**
   * One round of the fixpoint loop only narrows the tables, strictly
   * when some cell was ruled out, and leaves them stable under another
   * round with the same counts.
   */
  lemma FixpointStep(hk0: seq<seq<seq<seq<bool>>>>, hk: seq<seq<seq<seq<bool>>>>,
                     played: seq<seq<int>>, located: seq<seq<int>>, any: bool)
    requires AllWf(hk0) && AllWf(hk) && SameShape(hk, hk0)
    requires InfoTables.Shaped(played) && InfoTables.Shaped(located)
    requires forall p, i | 0 <= p < |hk| && 0 <= i < |hk[p]| :: hk[p][i] == Updated(hk0[p][i], played, located)
    requires any ==> exists p, i, k, v | 0 <= p < |hk| && 0 <= i < |hk[p]| && 0 <= k < NUMCOLORS && 1 <= v <= VALUE_MAX ::
                       !hk0[p][i][k][v] && hk[p][i][k][v]
    requires !any ==> hk == hk0
    ensures Refines(hk, hk0)
    ensures any ==> PossibleCells(hk) < PossibleCells(hk0)
    ensures AtFixpoint(hk, played, located)
  {
    UpdatedRefines(hk0, hk, played, located);
    if any {
      var p, i, k, v :| 0 <= p < |hk| && 0 <= i < |hk[p]| && 0 <= k < NUMCOLORS && 1 <= v <= VALUE_MAX
                        && !hk0[p][i][k][v] && hk[p][i][k][v];
      RefinesShrinks(hk, hk0, p, i, k, v);
    }
    forall p, i | 0 <= p < |hk| && 0 <= i < |hk[p]|
      ensures Updated(hk[p][i], played, located) == hk[p][i]
    {
      UpdatedStable(hk0[p][i], played, located);
    }
  }

  /** Every table is as update<false> leaves it. */
  ghost predicate AtFixpoint(hk: seq<seq<seq<seq<bool>>>>, played: seq<seq<int>>, located: seq<seq<int>>)
    requires AllWf(hk) && InfoTables.Shaped(played) && InfoTables.Shaped(located)
  {
    forall p, i | 0 <= p < |hk| && 0 <= i < |hk[p]| :: Updated(hk[p][i], played, located) == hk[p][i]
  }

  // ---------------------------------------------------------------------------
  // The bot
  // ---------------------------------------------------------------------------

  class SmartBotImpl {
    const me: int
    var handKnowledge: seq<seq<seq<seq<bool>>>>
    var playedCount: seq<seq<int>>
    var locatedCount: seq<seq<int>>

    ghost predicate Valid()
      reads this
    {
      AllWf(handKnowledge) && InfoTables.Shaped(playedCount) && InfoTables.Shaped(locatedCount)
      && forall k, v | 0 <= k < NUMCOLORS && 1 <= v <= VALUE_MAX :: 0 <= playedCount[k][v] <= Count(Card(k, v))
    }

    /** SmartBot(index, numPlayers, handSize): fresh knowledge for every card, nothing played. */
    constructor(index: int, numPlayers: nat, handSize: nat)
      ensures Valid() && me == index
      ensures |handKnowledge| == numPlayers
      ensures forall p | 0 <= p < numPlayers :: handKnowledge[p] == seq(handSize, i => Fresh())
      ensures playedCount == InfoTables.ZeroTable() && locatedCount == InfoTables.ZeroTable()
    {
      me := index;
      handKnowledge := seq(numPlayers, p => seq(handSize, i => Fresh()));
      playedCount := InfoTables.ZeroTable();
      locatedCount := InfoTables.ZeroTable();
    }

    /**
     * invalidateKnol: the knowledge after card_index moves down one
     * place; the last entry becomes fresh knowledge for the drawn card,
     * or is dropped when no card is drawn.
     */
    method InvalidateKnol(player: int, cardIndex: int, drawNewCard: bool)
      requires Valid() && 0 <= player < |handKnowledge| && 0 <= cardIndex < |handKnowledge[player]|
      modifies this
      ensures Valid()
      ensures handKnowledge == old(handKnowledge)[player :=
                SeqUtil.RemoveAt(old(handKnowledge)[player], cardIndex) + (if drawNewCard then [Fresh()] else [])]
      ensures playedCount == old(playedCount) && locatedCount == old(locatedCount)
    {
      var vec := SeqUtil.ShiftDown(handKnowledge[player], cardIndex);
      if drawNewCard {
        vec := vec[|vec| - 1 := Fresh()];
        assert vec == SeqUtil.RemoveAt(handKnowledge[player], cardIndex) + [Fresh()];
      } else {
        vec := vec[..|vec| - 1];
        assert vec == SeqUtil.RemoveAt(handKnowledge[player], cardIndex) + [];
      }
      handKnowledge := handKnowledge[player := vec];
    }

    /** seePublicCard: one more copy of the card has been played or discarded. */
    method SeePublicCard(card: Card)
      requires Valid() && ValidCard(card) && playedCount[card.color][card.value] < Count(card)
      modifies this
      ensures Valid()
      ensures playedCount == old(playedCount)[card.color := old(playedCount)[card.color][card.value := old(playedCount)[card.color][card.value] + 1]]
      ensures 1 <= playedCount[card.color][card.value] <= Count(card)
      ensures handKnowledge == old(handKnowledge) && locatedCount == old(locatedCount)
    {
      playedCount := playedCount[card.color := playedCount[card.color][card.value := playedCount[card.color][card.value] + 1]];
    }

    /** updateLocatedCount: recounts the known cards and says whether the table changed. */
    method UpdateLocatedCount() returns (changed: bool)
      requires Valid()
      modifies this`locatedCount
      ensures Valid()
      ensures locatedCount == LocatedOf(handKnowledge)
      ensures changed <==> old(locatedCount) != LocatedOf(handKnowledge)
      ensures handKnowledge == old(handKnowledge) && playedCount == old(playedCount)
    {
      var newCount := CountKnown(handKnowledge);
      changed := newCount != locatedCount;
      locatedCount := newCount;
    }

    /**
     * The located-count fixpoint of pleaseObserveBeforeMove: update<false>
     * on every card until the located counts stop changing. Afterwards
     * every table is stable under update<false> and only narrower than
     * before.
     */
    method LocateFixpoint()
      requires Valid()
      modifies this`handKnowledge, this`locatedCount
      ensures Valid()
      ensures Refines(handKnowledge, old(handKnowledge))
      ensures locatedCount == LocatedOf(handKnowledge)
      ensures AtFixpoint(handKnowledge, playedCount, locatedCount)
      ensures playedCount == old(playedCount)
    {
      locatedCount := InfoTables.ZeroTable();
      var changed := UpdateLocatedCount();
      changed := true;
      while changed
        invariant Valid() && playedCount == old(playedCount)
        invariant Refines(handKnowledge, old(handKnowledge))
        invariant locatedCount == LocatedOf(handKnowledge)
        invariant !changed ==> AtFixpoint(handKnowledge, playedCount, locatedCount)
        decreases PossibleCells(handKnowledge), changed
      {
        ghost var before := handKnowledge;
        ghost var located := locatedCount;
        var hk, any := UpdateAll(handKnowledge, playedCount, locatedCount);
        FixpointStep(before, hk, playedCount, located, any);
        handKnowledge := hk;
        changed := UpdateLocatedCount();
        RefinesTransitive(handKnowledge, before, old(handKnowledge));
      }
    }

    /**
     * nextDiscardIndex: -1 when some card is known playable or known
     * worthless, or when every card is known valuable; otherwise the
     * first not-known-valuable card with the greatest probability of
     * being worthless. The probabilities are inputs.
     */
    method NextDiscardIndex(to: int, piles: seq<int>, probabilityWorthless: seq<real>) returns (r: int)
      requires Valid() && GameOk(piles, playedCount) && 0 <= to < |handKnowledge|
      requires |probabilityWorthless| == |handKnowledge[to]|
      requires forall i | 0 <= i < |probabilityWorthless| :: 0.0 <= probabilityWorthless[i] <= 1.0
      ensures r == -1 <==> NoDiscard(SettledOf(handKnowledge[to], piles, playedCount), KeepOf(handKnowledge[to], piles, playedCount))
      ensures r != -1 ==> BestDiscard(KeepOf(handKnowledge[to], piles, playedCount), probabilityWorthless, r)
    {
      r := DiscardIndexOf(handKnowledge[to], piles, playedCount, probabilityWorthless);
    }
  }

  /** The loop of nextDiscardIndex over one hand's knowledge. */
  method DiscardIndexOf(hand: seq<seq<seq<bool>>>, piles: seq<int>, played: seq<seq<int>>, probability: seq<real>)
    returns (r: int)
    requires HandWf(hand) && GameOk(piles, played) && |probability| == |hand|
    requires forall i | 0 <= i < |probability| :: 0.0 <= probability[i] <= 1.0
    ensures r == -1 <==> NoDiscard(SettledOf(hand, piles, played), KeepOf(hand, piles, played))
    ensures r != -1 ==> BestDiscard(KeepOf(hand, piles, played), probability, r)
  {
    ghost var settledAt := SettledOf(hand, piles, played);
    ghost var keepAt := KeepOf(hand, piles, played);
    var bestFitness: real := 0.0;
    var bestIndex := -1;
    var i := 0;
    while i < |hand|
      invariant 0 <= i <= |hand|
      invariant DiscardScan(settledAt, keepAt, probability, i, bestIndex, bestFitness)
    {
      var settled, keep := Classify(hand[i], piles, played);
      if settled {
        assert settledAt[i];
        return -1;
      }
      bestIndex, bestFitness := Consider(keepAt, probability, i, keep, bestIndex, bestFitness);
      i := i + 1;
    }
    return bestIndex;
  }

  /**
   * What nextDiscardIndex's loop knows after the first i cards: the best
   * card so far is the first one not kept with the greatest probability,
   * -1 while every card is kept.
   */
  predicate BestSoFar(keepAt: seq<bool>, probability: seq<real>, i: int, bestIndex: int, bestFitness: real)
    requires 0 <= i <= |keepAt| == |probability|
  {
    && (bestIndex == -1 <==> forall j | 0 <= j < i :: keepAt[j])
    && (bestIndex == -1 ==> bestFitness == 0.0)
    && (bestIndex != -1 ==> 0 <= bestIndex < i && !keepAt[bestIndex] && bestFitness == 100.0 + probability[bestIndex])
    && (bestIndex != -1 ==> forall j | 0 <= j < i && !keepAt[j] :: probability[j] <= probability[bestIndex])
    && (bestIndex != -1 ==> forall j | 0 <= j < bestIndex && !keepAt[j] :: probability[j] < probability[bestIndex])
  }

  predicate DiscardScan(settledAt: seq<bool>, keepAt: seq<bool>, probability: seq<real>, i: int,
                        bestIndex: int, bestFitness: real)
  {
    0 <= i <= |keepAt| == |probability| == |settledAt|
    && (forall j | 0 <= j < i :: !settledAt[j])
    && BestSoFar(keepAt, probability, i, bestIndex, bestFitness)
  }

  /** One card of nextDiscardIndex's loop: a card not known valuable replaces the best if fitter. */
  method Consider(ghost keepAt: seq<bool>, probability: seq<real>, i: int, keep: bool,
                  bestIndex0: int, bestFitness0: real) returns (bestIndex: int, bestFitness: real)
    requires 0 <= i < |keepAt| == |probability| && keep == keepAt[i]
    requires forall j | 0 <= j < |probability| :: 0.0 <= probability[j] <= 1.0
    requires BestSoFar(keepAt, probability, i, bestIndex0, bestFitness0)
    ensures BestSoFar(keepAt, probability, i + 1, bestIndex, bestFitness)
  {
    bestIndex, bestFitness := bestIndex0, bestFitness0;
    if !keep {
      var fitness := 100.0 + probability[i];
      if fitness > bestFitness {
        bestFitness := fitness;
        bestIndex := i;
      }
    }
  }

  /** The trivalues nextDiscardIndex reads: known playable or worthless, and known valuable. */
  method Classify(t: seq<seq<bool>>, piles: seq<int>, played: seq<seq<int>>) returns (settled: bool, keep: bool)
    requires Wf(t) && GameOk(piles, played)
    ensures settled == Settled(t, piles, played) && keep == Keep(t, piles, played)
  {
    var playable, _, _ := ComputeTri(t, Playable, piles, played);
    var worthless, _, _ := ComputeTri(t, WorthlessProp, piles, played);
    var valuable, _, _ := ComputeTri(t, ValuableProp, piles, played);
    settled := playable == YES || worthless == YES;
    keep := valuable == YES;
  }

  /** The card is known playable or known worthless. */
  ghost predicate Settled(t: seq<seq<bool>>, piles: seq<int>, played: seq<seq<int>>)
    requires Wf(t) && GameOk(piles, played)
  {
    TriOf(t, Playable, piles, played) == YES || TriOf(t, WorthlessProp, piles, played) == YES
  }

  /** The card is known valuable: never discard it. */
  ghost predicate Keep(t: seq<seq<bool>>, piles: seq<int>, played: seq<seq<int>>)
    requires Wf(t) && GameOk(piles, played)
  {
    TriOf(t, ValuableProp, piles, played) == YES
  }

  /** Settled, card by card. */
  ghost function SettledOf(hand: seq<seq<seq<bool>>>, piles: seq<int>, played: seq<seq<int>>): (r: seq<bool>)
    requires HandWf(hand) && GameOk(piles, played)
    ensures |r| == |hand| && forall i | 0 <= i < |hand| :: r[i] == Settled(hand[i], piles, played)
  {
    seq(|hand|, i requires 0 <= i < |hand| => Settled(hand[i], piles, played))
  }

  /** Keep, card by card. */
  ghost function KeepOf(hand: seq<seq<seq<bool>>>, piles: seq<int>, played: seq<seq<int>>): (r: seq<bool>)
    requires HandWf(hand) && GameOk(piles, played)
    ensures |r| == |hand| && forall i | 0 <= i < |hand| :: r[i] == Keep(hand[i], piles, played)
  {
    seq(|hand|, i requires 0 <= i < |hand| => Keep(hand[i], piles, played))
  }

  /** nextDiscardIndex has no card to name: some card is settled, or every card is kept. */
  predicate NoDiscard(settled: seq<bool>, keep: seq<bool>) {
    (exists i | 0 <= i < |settled| :: settled[i]) || forall i | 0 <= i < |keep| :: keep[i]
  }

  /** Card r is not kept, and no card that is not kept is likelier worthless, nor as likely and earlier. */
  predicate BestDiscard(keep: seq<bool>, probability: seq<real>, r: int)
    requires |probability| == |keep|
  {
    && 0 <= r < |keep| && !keep[r]
    && (forall j | 0 <= j < |keep| && !keep[j] :: probability[j] <= probability[r])
    && (forall j | 0 <= j < r && !keep[j] :: probability[j] < probability[r])
  }

  lemma RefinesTransitive(a: seq<seq<seq<seq<bool>>>>, b: seq<seq<seq<seq<bool>>>>, c: seq<seq<seq<seq<bool>>>>)
    requires AllWf(a) && AllWf(b) && AllWf(c) && Refines(a, b) && Refines(b, c)
    ensures Refines(a, c)
  {
  }
}
