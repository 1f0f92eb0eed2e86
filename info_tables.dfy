/**
 * The per-card tables of the information bot: CardCounts (how many copies
 * of each card have been seen) and CardPossibilityTable (for one hand slot,
 * how many copies of each card it could still be). Both are small value
 * types indexed [colour][value], value 0 unused, and are copied freely in
 * the source; here they are values, and the loops that fill or narrow a
 * table are methods proved against the functions that specify them.
 */
module InfoTables {
  import opened Wrappers
  import opened Hanabi
  import SeqUtil

  /** The 5 x 6 shape of int8_t[NUMCOLORS][5+1]. */
  predicate Shaped(t: seq<seq<int>>) {
    |t| == NUMCOLORS && forall k | 0 <= k < NUMCOLORS :: |t[k]| == VALUE_MAX + 1
  }

  predicate NonNegative(t: seq<seq<int>>)
    requires Shaped(t)
  {
    forall k, v | 0 <= k < NUMCOLORS && 0 <= v <= VALUE_MAX :: t[k][v] >= 0
  }

  /** Every cell of `a` is at most the same cell of `b`. */
  predicate AtMost(a: seq<seq<int>>, b: seq<seq<int>>)
    requires Shaped(a) && Shaped(b)
  {
    forall k, v | 0 <= k < NUMCOLORS && 0 <= v <= VALUE_MAX :: a[k][v] <= b[k][v]
  }

  function ZeroTable(): (t: seq<seq<int>>)
    ensures Shaped(t) && NonNegative(t)
    ensures forall k, v | 0 <= k < NUMCOLORS && 0 <= v <= VALUE_MAX :: t[k][v] == 0
  {
    seq(NUMCOLORS, k => seq(VALUE_MAX + 1, v => 0))
  }

  function Cell(t: seq<seq<int>>, c: Card): int
    requires Shaped(t) && ValidCard(c)
  {
    t[c.color][c.value]
  }

  // ---------------------------------------------------------------------------
  // CardCounts
  // ---------------------------------------------------------------------------

  /** CardCounts: how many copies of each card are known to be gone. */
  datatype CardCounts = CardCounts(seen: seq<seq<int>>)

  /** increment(card). */
  function Increment(cc: CardCounts, c: Card): (r: CardCounts)
    requires Shaped(cc.seen) && ValidCard(c)
    ensures Shaped(r.seen)
    ensures Cell(r.seen, c) == Cell(cc.seen, c) + 1
    ensures forall d | ValidCard(d) && d != c :: Cell(r.seen, d) == Cell(cc.seen, d)
  {
    CardCounts(cc.seen[c.color := cc.seen[c.color][c.value := cc.seen[c.color][c.value] + 1]])
  }

  /** remaining(card): the copies the deck holds less those counted. */
  function Remaining(cc: CardCounts, c: Card): int
    requires Shaped(cc.seen) && ValidCard(c)
  {
    Count(c) - Cell(cc.seen, c)
  }

  /** The counts after incrementing, in order, for every card of `cards`. */
  function CountsOf(cards: seq<Card>): (cc: CardCounts)
    requires AllValid(cards)
    ensures Shaped(cc.seen)
  {
    if cards == [] then CardCounts(ZeroTable())
    else Increment(CountsOf(cards[..|cards| - 1]), cards[|cards| - 1])
  }

  /** Counting a list of cards gives each card's number of occurrences. */
  lemma {:induction false} CountsOfOccurrences(cards: seq<Card>, c: Card)
    requires AllValid(cards) && ValidCard(c)
    ensures Cell(CountsOf(cards).seen, c) == multiset(cards)[c]
    ensures Remaining(CountsOf(cards), c) == Count(c) - multiset(cards)[c]
  {
    if cards != [] {
      var init, last := cards[..|cards| - 1], cards[|cards| - 1];
      CountsOfOccurrences(init, c);
      SeqUtil.SplitLast(cards);
      MultisetOfSnoc(init, last);
    }
  }

  lemma MultisetOfSnoc(init: seq<Card>, last: Card)
    ensures multiset(init + [last]) == multiset(init) + multiset{last}
  {
  }

  // ---------------------------------------------------------------------------
  // CardPossibilityTable
  // ---------------------------------------------------------------------------

  /** The table `from(counts)` builds: each card's remaining copies. */
  function TableOf(cc: CardCounts): (t: seq<seq<int>>)
    requires Shaped(cc.seen)
    ensures Shaped(t)
  {
    seq(NUMCOLORS, k requires 0 <= k < NUMCOLORS =>
      seq(VALUE_MAX + 1, v requires 0 <= v <= VALUE_MAX =>
        if 1 <= v then Count(Card(k, v)) - cc.seen[k][v] else 0))
  }

  /** Fills row k of the table with the remaining copies of each value of colour k. */
  method FillRow(t0: seq<seq<int>>, k: int, cc: CardCounts) returns (t: seq<seq<int>>)
    requires Shaped(t0) && Shaped(cc.seen) && 0 <= k < NUMCOLORS && t0[k][0] == 0
    ensures Shaped(t) && t == t0[k := TableOf(cc)[k]]
  {
    t := t0;
    var v := 1;
    while v <= VALUE_MAX
      invariant 1 <= v <= VALUE_MAX + 1 && Shaped(t)
      invariant forall i | 0 <= i < NUMCOLORS && i != k :: t[i] == t0[i]
      invariant forall w | 0 <= w < v :: t[k][w] == TableOf(cc)[k][w]
    {
      t := t[k := t[k][v := Remaining(cc, Card(k, v))]];
      v := v + 1;
    }
    assert t[k] == TableOf(cc)[k];
  }

  /** CardPossibilityTable::from(counts): every card's remaining copies. */
  method FromCounts(cc: CardCounts) returns (t: seq<seq<int>>)
    requires Shaped(cc.seen)
    ensures t == TableOf(cc)
  {
    t := ZeroTable();
    var k := 0;
    while k < NUMCOLORS
      invariant 0 <= k <= NUMCOLORS && Shaped(t)
      invariant forall i | 0 <= i < k :: t[i] == TableOf(cc)[i]
      invariant forall i | k <= i < NUMCOLORS :: t[i] == ZeroTable()[i]
    {
      t := FillRow(t, k, cc);
      k := k + 1;
    }
  }

  /**
   * The default CardPossibilityTable: every card with all its copies,
   * which is the table of counts with nothing seen.
   */
  method NewTable() returns (t: seq<seq<int>>)
    ensures Shaped(t) && NonNegative(t)
    ensures forall c | ValidCard(c) :: Cell(t, c) == Count(c)
    ensures t == TableOf(CardCounts(ZeroTable()))
  {
    t := FromCounts(CardCounts(ZeroTable()));
  }

  /** mark_false: the card is ruled out. */
  function MarkFalse(t: seq<seq<int>>, c: Card): (r: seq<seq<int>>)
    requires Shaped(t) && ValidCard(c)
    ensures Shaped(r) && Cell(r, c) == 0
    ensures forall d | ValidCard(d) && d != c :: Cell(r, d) == Cell(t, d)
    ensures forall k | 0 <= k < NUMCOLORS :: r[k][0] == t[k][0]
  {
    t[c.color := t[c.color][c.value := 0]]
  }

  predicate IsPossible(t: seq<seq<int>>, c: Card)
    requires Shaped(t)
  {
    ValidCard(c) && Cell(t, c) != 0
  }

  /** The two kinds of hint the information bot reasons about. */
  datatype HintKind = COLOR | VALUE

  /**
   * Whether a hint of this kind naming `x`, which touched the slot
   * (`yes`) or not, rules out the card of colour k and value v.
   */
  predicate RuledOut(kind: HintKind, x: int, yes: bool, k: int, v: int) {
    match kind
    case COLOR => (k == x) != yes
    case VALUE => (v == x) != yes
  }

  /** The table after mark_color / mark_value: the ruled-out cells are zero. */
  function Marked(t: seq<seq<int>>, kind: HintKind, x: int, yes: bool): (r: seq<seq<int>>)
    requires Shaped(t)
    ensures Shaped(r)
  {
    seq(NUMCOLORS, k requires 0 <= k < NUMCOLORS =>
      seq(VALUE_MAX + 1, v requires 0 <= v <= VALUE_MAX =>
        if 1 <= v && RuledOut(kind, x, yes, k, v) then 0 else t[k][v]))
  }

  /**
   * After a hint, a card stays possible exactly when it was possible and
   * the hint does not rule it out; no count grows and none turns negative.
   */
  lemma MarkedMeaning(t: seq<seq<int>>, kind: HintKind, x: int, yes: bool)
    requires Shaped(t) && NonNegative(t)
    ensures NonNegative(Marked(t, kind, x, yes)) && AtMost(Marked(t, kind, x, yes), t)
    ensures forall c :: IsPossible(Marked(t, kind, x, yes), c)
                        <==> IsPossible(t, c) && !RuledOut(kind, x, yes, c.color, c.value)
  {
  }

  /** The inner loop of mark_color / mark_value over the values of colour k. */
  method MarkRow(t0: seq<seq<int>>, k: int, kind: HintKind, x: int, yes: bool) returns (t: seq<seq<int>>)
    requires Shaped(t0) && 0 <= k < NUMCOLORS
    ensures t == t0[k := Marked(t0, kind, x, yes)[k]]
  {
    t := t0;
    var v := 1;
    while v <= VALUE_MAX
      invariant 1 <= v <= VALUE_MAX + 1 && Shaped(t)
      invariant forall i | 0 <= i < NUMCOLORS && i != k :: t[i] == t0[i]
      invariant forall w | 0 <= w < v :: t[k][w] == Marked(t0, kind, x, yes)[k][w]
      invariant forall w | v <= w <= VALUE_MAX :: t[k][w] == t0[k][w]
    {
      if RuledOut(kind, x, yes, k, v) {
        t := MarkFalse(t, Card(k, v));
      }
      v := v + 1;
    }
    assert t[k] == Marked(t0, kind, x, yes)[k];
  }

  /** mark_color(color, yes): the cards whose colour disagrees with the hint are ruled out. */
  method MarkColor(t0: seq<seq<int>>, color: int, yes: bool) returns (t: seq<seq<int>>)
    requires Shaped(t0)
    ensures t == Marked(t0, COLOR, color, yes)
  {
    t := t0;
    var k := 0;
    while k < NUMCOLORS
      invariant 0 <= k <= NUMCOLORS && Shaped(t)
      invariant forall i | 0 <= i < k :: t[i] == Marked(t0, COLOR, color, yes)[i]
      invariant forall i | k <= i < NUMCOLORS :: t[i] == t0[i]
    {
      t := MarkRow(t, k, COLOR, color, yes);
      k := k + 1;
    }
  }

  /** mark_value(value, yes): the cards whose value disagrees with the hint are ruled out. */
  method MarkValue(t0: seq<seq<int>>, value: int, yes: bool) returns (t: seq<seq<int>>)
    requires Shaped(t0)
    ensures t == Marked(t0, VALUE, value, yes)
  {
    t := t0;
    var k := 0;
    while k < NUMCOLORS
      invariant 0 <= k <= NUMCOLORS && Shaped(t)
      invariant forall i | 0 <= i < k :: t[i] == Marked(t0, VALUE, value, yes)[i]
      invariant forall i | k <= i < NUMCOLORS :: t[i] == t0[i]
    {
      t := MarkRow(t, k, VALUE, value, yes);
      k := k + 1;
    }
  }

  /** can_be_color: some value of that colour is still possible. */
  method CanBeColor(t: seq<seq<int>>, color: int) returns (b: bool)
    requires Shaped(t) && ValidColor(color)
    ensures b <==> exists v | 1 <= v <= VALUE_MAX :: IsPossible(t, Card(color, v))
  {
    var v := 1;
    while v <= VALUE_MAX
      invariant 1 <= v <= VALUE_MAX + 1
      invariant forall w | 1 <= w < v :: !IsPossible(t, Card(color, w))
    {
      if t[color][v] != 0 {
        assert IsPossible(t, Card(color, v));
        return true;
      }
      v := v + 1;
    }
    return false;
  }

  /** can_be_value: some colour of that value is still possible. */
  method CanBeValue(t: seq<seq<int>>, value: int) returns (b: bool)
    requires Shaped(t) && 1 <= value <= VALUE_MAX
    ensures b <==> exists k | RED <= k <= BLUE :: IsPossible(t, Card(k, value))
  {
    var k := RED;
    while k <= BLUE
      invariant RED <= k <= BLUE + 1
      invariant forall i | RED <= i < k :: !IsPossible(t, Card(i, value))
    {
      if t[k][value] != 0 {
        assert IsPossible(t, Card(k, value));
        return true;
      }
      k := k + 1;
    }
    return false;
  }

  /** A colour hint that did not touch the slot leaves no card of that colour possible. */
  lemma UntouchedColorCannotBe(t: seq<seq<int>>, color: int)
    requires Shaped(t) && ValidColor(color)
    ensures forall v | 1 <= v <= VALUE_MAX :: !IsPossible(Marked(t, COLOR, color, false), Card(color, v))
  {
  }

  /** decrement_weight_if_possible: one copy fewer, never below zero. */
  function DecrementWeightIfPossible(t: seq<seq<int>>, c: Card): (r: seq<seq<int>>)
    requires Shaped(t) && ValidCard(c)
    ensures Shaped(r)
    ensures NonNegative(t) ==> NonNegative(r) && AtMost(r, t)
    ensures Cell(t, c) > 0 ==> Cell(r, c) == Cell(t, c) - 1
    ensures Cell(t, c) == 0 ==> Cell(r, c) == 0
    ensures forall k, v | 0 <= k < NUMCOLORS && 0 <= v <= VALUE_MAX && (k != c.color || v != c.value) :: r[k][v] == t[k][v]
  {
    var n := t[c.color][c.value];
    if n != 0 then t[c.color := t[c.color][c.value := n - 1]] else t
  }

  // ---------------------------------------------------------------------------
  // is_determined / if_is_determined
  // ---------------------------------------------------------------------------

  /** The table leaves exactly one card possible, namely `c`. */
  ghost predicate DeterminedAs(t: seq<seq<int>>, c: Card)
    requires Shaped(t)
  {
    IsPossible(t, c) && forall d | IsPossible(t, d) :: d == c
  }

  /** Card c comes before position (k, v) of the colour-major scan. */
  predicate Before(c: Card, k: int, v: int) {
    c.color < k || (c.color == k && c.value < v)
  }

  /** What the scan knows after the cells before (k, v): how many possible cards, and the first. */
  ghost predicate Scanned(t: seq<seq<int>>, k: int, v: int, count: int, first: Card)
    requires Shaped(t)
  {
    && count >= 0
    && (count == 0 ==> forall c | IsPossible(t, c) :: !Before(c, k, v))
    && (count >= 1 ==> IsPossible(t, first) && Before(first, k, v))
    && (count == 1 ==> forall c | IsPossible(t, c) && Before(c, k, v) :: c == first)
    && (count >= 2 ==> exists c | IsPossible(t, c) && Before(c, k, v) :: c != first)
  }

  /** One step of the scan: cell (k, v) is counted if possible. */
  lemma ScanStep(t: seq<seq<int>>, k: int, v: int, count: int, first: Card)
    requires Shaped(t) && 0 <= k < NUMCOLORS && 1 <= v <= VALUE_MAX && Scanned(t, k, v, count, first)
    ensures t[k][v] != 0 ==> Scanned(t, k, v + 1, count + 1, if count == 0 then Card(k, v) else first)
    ensures t[k][v] == 0 ==> Scanned(t, k, v + 1, count, first)
  {
    if t[k][v] != 0 && count >= 1 {
      assert IsPossible(t, Card(k, v)) && Before(Card(k, v), k, v + 1);
    }
  }

  /** Moving from the end of colour k to the start of colour k + 1 changes nothing. */
  lemma ScanNextColor(t: seq<seq<int>>, k: int, count: int, first: Card)
    requires Shaped(t) && Scanned(t, k, VALUE_MAX + 1, count, first)
    ensures Scanned(t, k + 1, 1, count, first)
  {
    forall c | IsPossible(t, c)
      ensures Before(c, k, VALUE_MAX + 1) <==> Before(c, k + 1, 1)
    {
    }
  }

  /** The scan over the values of colour k. */
  method ScanRow(t: seq<seq<int>>, k: int, count0: int, first0: Card) returns (count: int, first: Card)
    requires Shaped(t) && 0 <= k < NUMCOLORS && Scanned(t, k, 1, count0, first0)
    ensures Scanned(t, k + 1, 1, count, first)
  {
    count, first := count0, first0;
    var v := 1;
    while v <= VALUE_MAX
      invariant 1 <= v <= VALUE_MAX + 1 && Scanned(t, k, v, count, first)
    {
      ScanStep(t, k, v, count, first);
      if t[k][v] != 0 {
        if count == 0 {
          first := Card(k, v);
        }
        count := count + 1;
      }
      v := v + 1;
    }
    ScanNextColor(t, k, count, first);
  }

  /**
   * is_determined together with if_is_determined: counts the possible
   * cards and yields the card when it is the only one.
   */
  method Determined(t: seq<seq<int>>) returns (r: Option<Card>)
    requires Shaped(t)
    ensures r.Some? ==> DeterminedAs(t, r.value)
    ensures r.None? ==> forall c :: !DeterminedAs(t, c)
  {
    var count, first := 0, Card(RED, 1);
    var k := RED;
    while k <= BLUE
      invariant RED <= k <= BLUE + 1 && Scanned(t, k, 1, count, first)
    {
      count, first := ScanRow(t, k, count, first);
      k := k + 1;
    }
    assert forall c | IsPossible(t, c) :: Before(c, k, 1);
    if count == 1 {
      r := Some(first);
    } else {
      r := None;
    }
  }
}
