/**
 * HolmesBot's knowledge of a hidden card: the cantBe_ table, the colour
 * and value once determined, and the isPlayable / isValuable /
 * isWorthless flags, with the setters and the restarting update that
 * narrow them. The knowledge is a value held in vectors; each operation
 * is a method whose loops are proved against a specification function.
 */
module HolmesKnowledge {
  import opened Hanabi
  import InfoTables
  import opened SmartKnowledge

  /** CardKnowledge. */
  datatype Knol = Knol(cantBe: seq<seq<bool>>, color: int, value: int,
                       isPlayable: bool, isValuable: bool, isWorthless: bool)

  /** A new CardKnowledge: nothing known. */
  function FreshKnol(): (k: Knol)
    ensures KnolOk(k) && k.color == -1 && k.value == -1
    ensures !k.isPlayable && !k.isValuable && !k.isWorthless
    ensures forall c | ValidCard(c) :: Possible(k.cantBe, c)
  {
    Knol(Fresh(), -1, -1, false, false, false)
  }

  /** Every value of the colour is ruled out. */
  predicate ColorOut(t: seq<seq<bool>>, color: int)
    requires Wf(t) && ValidColor(color)
  {
    forall v | 1 <= v <= VALUE_MAX :: t[color][v]
  }

  /** Every colour of the value is ruled out. */
  predicate ValueOut(t: seq<seq<bool>>, value: int)
    requires Wf(t) && 1 <= value <= VALUE_MAX
  {
    forall k | 0 <= k < NUMCOLORS :: t[k][value]
  }

  /**
   * The table is well formed, and a determined colour (value) is the only
   * one left: the setters that record it rule out all the others.
   */
  predicate KnolOk(k: Knol) {
    Wf(k.cantBe)
    && (k.color == -1 || (ValidColor(k.color) && forall c | 0 <= c < NUMCOLORS && c != k.color :: ColorOut(k.cantBe, c)))
    && (k.value == -1 || (1 <= k.value <= VALUE_MAX && forall v | 1 <= v <= VALUE_MAX && v != k.value :: ValueOut(k.cantBe, v)))
  }

  /** Every card ruled out in t0 is ruled out in t; the unused value-0 column is left alone. */
  predicate Narrower(t: seq<seq<bool>>, t0: seq<seq<bool>>)
    requires Wf(t) && Wf(t0)
  {
    (forall k, v | 0 <= k < NUMCOLORS && 1 <= v <= VALUE_MAX :: t0[k][v] ==> t[k][v])
    && forall k | 0 <= k < NUMCOLORS :: t[k][0] == t0[k][0]
  }

  /** Every setter only narrows. */
  lemma ExcludedNarrower(t: seq<seq<bool>>, rule: Rule)
    requires Wf(t) && RuleOk(rule)
    ensures Narrower(Excluded(t, rule), t)
  {
  }

  /** Narrowing the table keeps a knowledge consistent with its colour and value. */
  lemma KnolNarrowed(k0: Knol, t: seq<seq<bool>>)
    requires KnolOk(k0) && Wf(t) && Narrower(t, k0.cantBe)
    ensures KnolOk(k0.(cantBe := t))
  {
    forall c | 0 <= c < NUMCOLORS && ColorOut(k0.cantBe, c)
      ensures ColorOut(t, c)
    {
      assert forall v | 1 <= v <= VALUE_MAX :: k0.cantBe[c][v];
    }
    forall v | 1 <= v <= VALUE_MAX && ValueOut(k0.cantBe, v)
      ensures ValueOut(t, v)
    {
      assert forall k | 0 <= k < NUMCOLORS :: k0.cantBe[k][v];
    }
  }

  // ---------------------------------------------------------------------------
  // Queries and setters
  // ---------------------------------------------------------------------------

  /** cannotBe(color): the recorded colour decides when there is one, else the table. */
  method CannotBeColor(k: Knol, color: int) returns (b: bool)
    requires KnolOk(k) && ValidColor(color)
    ensures b == if k.color != -1 then k.color != color else ColorOut(k.cantBe, color)
  {
    if k.color != -1 {
      return k.color != color;
    }
    var v := 1;
    while v <= VALUE_MAX
      invariant 1 <= v <= VALUE_MAX + 1
      invariant forall w | 1 <= w < v :: k.cantBe[color][w]
    {
      if !k.cantBe[color][v] {
        return false;
      }
      v := v + 1;
    }
    return true;
  }

  /** cannotBe(value): the recorded value decides when there is one, else the table. */
  method CannotBeValue(k: Knol, value: int) returns (b: bool)
    requires KnolOk(k) && 1 <= value <= VALUE_MAX
    ensures b == if k.value != -1 then k.value != value else ValueOut(k.cantBe, value)
  {
    if k.value != -1 {
      return k.value != value;
    }
    var c := RED;
    while c <= BLUE
      invariant RED <= c <= BLUE + 1
      invariant forall j | RED <= j < c :: k.cantBe[j][value]
    {
      if !k.cantBe[c][value] {
        return false;
      }
      c := c + 1;
    }
    return true;
  }

  /**
   * With a colour recorded, the shortcut of cannotBe(color) agrees with
   * the table for every other colour.
   */
  lemma CannotBeShortcutSound(k: Knol, color: int)
    requires KnolOk(k) && ValidColor(color) && k.color != -1 && color != k.color
    ensures ColorOut(k.cantBe, color)
  {
  }

  /** setCannotBe(color): the five cells of the colour. */
  method SetCannotBeColor(t0: seq<seq<bool>>, color: int) returns (t: seq<seq<bool>>)
    requires Wf(t0) && ValidColor(color)
    ensures t == Excluded(t0, NotColor(color))
  {
    t := t0;
    var v := 1;
    while v <= VALUE_MAX
      invariant 1 <= v <= VALUE_MAX + 1 && Wf(t)
      invariant forall k, w | 0 <= k < NUMCOLORS && 0 <= w <= VALUE_MAX ::
                  t[k][w] == (if k == color && 1 <= w < v then true else t0[k][w])
    {
      t := t[color := t[color][v := true]];
      v := v + 1;
    }
    TablesEqual(t, Excluded(t0, NotColor(color)));
  }

  /** setCannotBe(value): the cells of the value in all five colours. */
  method SetCannotBeValue(t0: seq<seq<bool>>, value: int) returns (t: seq<seq<bool>>)
    requires Wf(t0) && 1 <= value <= VALUE_MAX
    ensures t == Excluded(t0, NotValue(value))
  {
    t := t0;
    var c := RED;
    while c <= BLUE
      invariant RED <= c <= BLUE + 1 && Wf(t)
      invariant forall k, w | 0 <= k < NUMCOLORS && 0 <= w <= VALUE_MAX ::
                  t[k][w] == (if k < c && w == value then true else t0[k][w])
    {
      t := t[c := t[c][value := true]];
      c := c + 1;
    }
    TablesEqual(t, Excluded(t0, NotValue(value)));
  }

  /** setMustBe(color): every other colour is ruled out and the colour recorded. */
  method SetMustBeColor(k0: Knol, color: int) returns (k: Knol)
    requires KnolOk(k0) && ValidColor(color)
    ensures k == k0.(cantBe := Excluded(k0.cantBe, OnlyColor(color)), color := color)
    ensures KnolOk(k)
  {
    var t := k0.cantBe;
    var c := RED;
    while c <= BLUE
      invariant RED <= c <= BLUE + 1 && Wf(t)
      invariant forall j, w | 0 <= j < NUMCOLORS && 0 <= w <= VALUE_MAX ::
                  t[j][w] == (if j < c then Excluded(k0.cantBe, OnlyColor(color))[j][w] else k0.cantBe[j][w])
    {
      if c != color {
        t := SetCannotBeColor(t, c);
      }
      c := c + 1;
    }
    TablesEqual(t, Excluded(k0.cantBe, OnlyColor(color)));
    ExcludedNarrower(k0.cantBe, OnlyColor(color));
    KnolNarrowed(k0, t);
    k := k0.(cantBe := t, color := color);
  }

  /** setMustBe(value): every other value is ruled out and the value recorded. */
  method SetMustBeValue(k0: Knol, value: int) returns (k: Knol)
    requires KnolOk(k0) && 1 <= value <= VALUE_MAX
    ensures k == k0.(cantBe := Excluded(k0.cantBe, OnlyValue(value)), value := value)
    ensures KnolOk(k)
  {
    var t := k0.cantBe;
    var v := 1;
    while v <= VALUE_MAX
      invariant 1 <= v <= VALUE_MAX + 1 && Wf(t)
      invariant forall j, w | 0 <= j < NUMCOLORS && 0 <= w <= VALUE_MAX ::
                  t[j][w] == (if w < v then Excluded(k0.cantBe, OnlyValue(value))[j][w] else k0.cantBe[j][w])
    {
      if v != value {
        t := SetCannotBeValue(t, v);
      }
      v := v + 1;
    }
    TablesEqual(t, Excluded(k0.cantBe, OnlyValue(value)));
    ExcludedNarrower(k0.cantBe, OnlyValue(value));
    KnolNarrowed(k0, t);
    k := k0.(cantBe := t, value := value);
  }

  /** After setMustBe(color), the recorded colour is the colour of every possible card. */
  lemma MustBeColorDetermines(k0: Knol, color: int)
    requires KnolOk(k0) && ValidColor(color)
    ensures forall c | Possible(Excluded(k0.cantBe, OnlyColor(color)), c) :: c.color == color
  {
  }

  // ---------------------------------------------------------------------------
  // What the bot knows of the game
  // ---------------------------------------------------------------------------

  /** Pile::contains(value). */
  predicate OnPile(piles: seq<int>, c: Card)
    requires |piles| == NUMCOLORS && ValidCard(c)
  {
    1 <= c.value <= piles[c.color]
  }

  /** HolmesBot::isValuable: not yet on its pile and the last copy left. */
  predicate HValuable(piles: seq<int>, played: seq<seq<int>>, c: Card)
    requires GameOk(piles, played) && ValidCard(c)
  {
    !OnPile(piles, c) && played[c.color][c.value] == Count(c) - 1
  }

  /**
   * A card SmartBot calls valuable HolmesBot calls valuable too; Holmes
   * does not ask whether the card can still be reached.
   */
  lemma SmartValuableIsHolmesValuable(piles: seq<int>, played: seq<seq<int>>, c: Card)
    requires GameOk(piles, played) && ValidCard(c)
    ensures Valuable(piles, played, c) ==> HValuable(piles, played, c)
  {
  }

  /** The card properties update() tests on every possible card. */
  datatype HProp = Contained | ValuableCard | NextOnPile

  predicate HHas(prop: HProp, piles: seq<int>, played: seq<seq<int>>, c: Card)
    requires GameOk(piles, played) && ValidCard(c)
  {
    match prop
    case Contained => OnPile(piles, c)
    case ValuableCard => HValuable(piles, played, c)
    case NextOnPile => c.value == piles[c.color] + 1
  }

  /** Every possible card has the property (true for a confused table). */
  ghost predicate Every(t: seq<seq<bool>>, prop: HProp, piles: seq<int>, played: seq<seq<int>>)
    requires Wf(t) && GameOk(piles, played)
  {
    forall c | Possible(t, c) :: HHas(prop, piles, played, c)
  }

  /** The scan for a possible card without the property, with its early exit. */
  method EveryPossible(t: seq<seq<bool>>, prop: HProp, piles: seq<int>, played: seq<seq<int>>) returns (b: bool)
    requires Wf(t) && GameOk(piles, played)
    ensures b == Every(t, prop, piles, played)
  {
    var k := RED;
    while k <= BLUE
      invariant RED <= k <= BLUE + 1
      invariant forall c | Possible(t, c) && c.color < k :: HHas(prop, piles, played, c)
    {
      var v := 1;
      while v <= VALUE_MAX
        invariant 1 <= v <= VALUE_MAX + 1
        invariant forall c | Possible(t, c) && (c.color < k || (c.color == k && c.value < v)) :: HHas(prop, piles, played, c)
      {
        if !t[k][v] && !HHas(prop, piles, played, Card(k, v)) {
          assert Possible(t, Card(k, v));
          return false;
        }
        v := v + 1;
      }
      k := k + 1;
    }
    return true;
  }

  // ---------------------------------------------------------------------------
  // update()
  // ---------------------------------------------------------------------------

  /** Counts and piles update() reads. */
  predicate CountsOk(piles: seq<int>, played: seq<seq<int>>, located: seq<seq<int>>) {
    GameOk(piles, played) && InfoTables.Shaped(located)
  }

  /**
   * Whether the restart scan of update() rules out cell (k, v): every copy
   * is played or located, or it contradicts a flag the card carries.
   */
  predicate Ruled(kn: Knol, piles: seq<int>, played: seq<seq<int>>, located: seq<seq<int>>, k: int, v: int)
    requires CountsOk(piles, played, located) && 0 <= k < NUMCOLORS && 1 <= v <= VALUE_MAX
  {
    played[k][v] + located[k][v] >= Count(Card(k, v))
    || (kn.isValuable && !HValuable(piles, played, Card(k, v)))
    || (kn.isPlayable && v != piles[k] + 1)
    || (kn.isWorthless && !OnPile(piles, Card(k, v)))
  }

  /** The table after one pass of the restart scan. */
  function Pruned(kn: Knol, piles: seq<int>, played: seq<seq<int>>, located: seq<seq<int>>): (r: seq<seq<bool>>)
    requires Wf(kn.cantBe) && CountsOk(piles, played, located)
    ensures Wf(r) && Narrower(r, kn.cantBe)
  {
    seq(NUMCOLORS, k requires 0 <= k < NUMCOLORS =>
      seq(VALUE_MAX + 1, v requires 0 <= v <= VALUE_MAX =>
        kn.cantBe[k][v] || (1 <= v && Ruled(kn, piles, played, located, k, v))))
  }

  /** The values of colour k in one pass of the restart scan. */
  method PruneRow(kn: Knol, piles: seq<int>, played: seq<seq<int>>, located: seq<seq<int>>, k: int)
    returns (row: seq<bool>, flipped: bool)
    requires Wf(kn.cantBe) && CountsOk(piles, played, located) && 0 <= k < NUMCOLORS
    ensures row == Pruned(kn, piles, played, located)[k]
    ensures flipped <==> row != kn.cantBe[k]
  {
    row := kn.cantBe[k];
    flipped := false;
    var v := 1;
    while v <= VALUE_MAX
      invariant 1 <= v <= VALUE_MAX + 1 && |row| == VALUE_MAX + 1
      invariant forall w | 0 <= w <= VALUE_MAX ::
                  row[w] == (if w < v then Pruned(kn, piles, played, located)[k][w] else kn.cantBe[k][w])
      invariant flipped <==> exists w | 0 <= w < v :: row[w] != kn.cantBe[k][w]
    {
      if !row[v] && Ruled(kn, piles, played, located, k, v) {
        row := row[v := true];
        flipped := true;
      }
      v := v + 1;
    }
    assert |Pruned(kn, piles, played, located)[k]| == VALUE_MAX + 1;
  }

  /** The restart scan: rules out the cells of Pruned, and says whether any changed. */
  method Prune(kn: Knol, piles: seq<int>, played: seq<seq<int>>, located: seq<seq<int>>)
    returns (t: seq<seq<bool>>, restart: bool)
    requires Wf(kn.cantBe) && CountsOk(piles, played, located)
    ensures t == Pruned(kn, piles, played, located)
    ensures restart <==> t != kn.cantBe
  {
    t := kn.cantBe;
    restart := false;
    var k := RED;
    while k <= BLUE
      invariant RED <= k <= BLUE + 1 && |t| == NUMCOLORS
      invariant forall j | 0 <= j < NUMCOLORS :: t[j] == (if j < k then Pruned(kn, piles, played, located)[j] else kn.cantBe[j])
      invariant restart <==> exists j | 0 <= j < k :: t[j] != kn.cantBe[j]
    {
      var row, flipped := PruneRow(kn, piles, played, located, k);
      t := t[k := row];
      restart := restart || flipped;
      k := k + 1;
    }
    assert |Pruned(kn, piles, played, located)| == NUMCOLORS;
  }

  /** Exactly one colour is not ruled out. */
  ghost predicate SoleColor(t: seq<seq<bool>>, color: int)
    requires Wf(t)
  {
    ValidColor(color) && !ColorOut(t, color) && forall c | 0 <= c < NUMCOLORS && c != color :: ColorOut(t, c)
  }

  /** Exactly one value is not ruled out. */
  ghost predicate SoleValue(t: seq<seq<bool>>, value: int)
    requires Wf(t)
  {
    1 <= value <= VALUE_MAX && !ValueOut(t, value) && forall v | 1 <= v <= VALUE_MAX && v != value :: ValueOut(t, v)
  }

  /** The colour loop of update(): the one colour left, or -1 (stopping at a second one). */
  method FindColor(kn: Knol) returns (color: int)
    requires KnolOk(kn) && kn.color == -1
    ensures color != -1 ==> SoleColor(kn.cantBe, color)
    ensures color == -1 ==> forall c :: !SoleColor(kn.cantBe, c)
  {
    color := -1;
    var k := RED;
    while k <= BLUE
      invariant RED <= k <= BLUE + 1
      invariant color == -1 ==> forall j | RED <= j < k :: ColorOut(kn.cantBe, j)
      invariant color != -1 ==> RED <= color < k && !ColorOut(kn.cantBe, color)
                                && forall j | RED <= j < k && j != color :: ColorOut(kn.cantBe, j)
    {
      var out := CannotBeColor(kn, k);
      if !out {
        if color == -1 {
          color := k;
        } else {
          return -1;
        }
      }
      k := k + 1;
    }
  }

  /** The value loop of update(): the one value left, or -1 (stopping at a second one). */
  method FindValue(kn: Knol) returns (value: int)
    requires KnolOk(kn) && kn.value == -1
    ensures value != -1 ==> SoleValue(kn.cantBe, value)
    ensures value == -1 ==> forall v :: !SoleValue(kn.cantBe, v)
  {
    value := -1;
    var v := 1;
    while v <= VALUE_MAX
      invariant 1 <= v <= VALUE_MAX + 1
      invariant value == -1 ==> forall w | 1 <= w < v :: ValueOut(kn.cantBe, w)
      invariant value != -1 ==> 1 <= value < v && !ValueOut(kn.cantBe, value)
                                && forall w | 1 <= w < v && w != value :: ValueOut(kn.cantBe, w)
    {
      var out := CannotBeValue(kn, v);
      if !out {
        if value == -1 {
          value := v;
        } else {
          return -1;
        }
      }
      v := v + 1;
    }
  }

  /** The flags update() ends with: a worthless card keeps its flags, else they are derived from the table. */
  ghost function Flags(t: seq<seq<bool>>, piles: seq<int>, played: seq<seq<int>>,
                       playable: bool, valuable: bool, worthless: bool): (bool, bool, bool)
    requires Wf(t) && GameOk(piles, played)
  {
    if worthless then (playable, valuable, worthless)
    else if !playable && !valuable && Every(t, Contained, piles, played) then (false, false, true)
    else (playable || Every(t, NextOnPile, piles, played), valuable || Every(t, ValuableCard, piles, played), false)
  }

  /**
   * What update() can still shrink: the cards not ruled out, and markers
   * for an undetermined colour and value.
   */
  ghost function Open(kn: Knol): set<(int, int)>
    requires Wf(kn.cantBe)
  {
    (set k, v | 0 <= k < NUMCOLORS && 1 <= v <= VALUE_MAX && !kn.cantBe[k][v] :: (k, v))
    + (if kn.color == -1 then {(-1, 0)} else {})
    + (if kn.value == -1 then {(-2, 0)} else {})
  }

  /**
   * Narrowing the table and determining colour or value shrinks Open, and
   * leaves it equal only when nothing changed.
   */
  lemma OpenShrinks(kn: Knol, k0: Knol)
    requires Wf(kn.cantBe) && Wf(k0.cantBe) && Narrower(kn.cantBe, k0.cantBe)
    requires k0.color != -1 ==> kn.color == k0.color
    requires k0.value != -1 ==> kn.value == k0.value
    ensures Open(kn) <= Open(k0)
    ensures Open(kn) == Open(k0) ==> kn.cantBe == k0.cantBe && (kn.color == -1 <==> k0.color == -1)
                                     && (kn.value == -1 <==> k0.value == -1)
  {
    forall k, v | 0 <= k < NUMCOLORS && 1 <= v <= VALUE_MAX
      ensures (k, v) in Open(kn) <==> !kn.cantBe[k][v]
      ensures (k, v) in Open(k0) <==> !k0.cantBe[k][v]
    {
    }
    if Open(kn) == Open(k0) {
      assert (-1, 0) in Open(kn) <==> (-1, 0) in Open(k0);
      assert (-2, 0) in Open(kn) <==> (-2, 0) in Open(k0);
      forall k, v | 0 <= k < NUMCOLORS && 0 <= v <= VALUE_MAX
        ensures kn.cantBe[k][v] == k0.cantBe[k][v]
      {
        if 1 <= v {
          assert (k, v) in Open(kn) <==> (k, v) in Open(k0);
        }
      }
      TablesEqual(kn.cantBe, k0.cantBe);
    }
  }

  /** The loop of update() is at rest: determined, or the scan would rule out nothing more. */
  ghost predicate Settled(kn: Knol, piles: seq<int>, played: seq<seq<int>>, located: seq<seq<int>>)
    requires Wf(kn.cantBe) && CountsOk(piles, played, located)
  {
    (kn.color == -1 || kn.value == -1) ==> Pruned(kn, piles, played, located) == kn.cantBe
  }

  /** The state of update()'s restart loop relative to the knowledge it started from. */
  ghost predicate Restarting(kn: Knol, k0: Knol)
  {
    KnolOk(kn) && KnolOk(k0) && Narrower(kn.cantBe, k0.cantBe)
    && kn.isPlayable == k0.isPlayable && kn.isValuable == k0.isValuable && kn.isWorthless == k0.isWorthless
    && (k0.color != -1 ==> kn.color == k0.color) && (k0.value != -1 ==> kn.value == k0.value)
  }

  /** Determine the colour and the value when one is left. */
  method Determine(kn0: Knol) returns (kn: Knol)
    requires KnolOk(kn0)
    ensures Restarting(kn, kn0)
    ensures kn0.color == -1 && kn.color != -1 ==> SoleColor(kn0.cantBe, kn.color)
  {
    kn := kn0;
    if kn.color == -1 {
      var color := FindColor(kn);
      if color != -1 {
        kn := SetMustBeColor(kn, color);
        ExcludedNarrower(kn0.cantBe, OnlyColor(color));
      }
    }
    if kn.value == -1 {
      ghost var mid := kn;
      var value := FindValue(kn);
      if value != -1 {
        kn := SetMustBeValue(kn, value);
        ExcludedNarrower(mid.cantBe, OnlyValue(value));
      }
    }
  }

  /** One round of the restart loop: determine colour and value, then prune unless both are known. */
  method UpdateRound(kn0: Knol, piles: seq<int>, played: seq<seq<int>>, located: seq<seq<int>>)
    returns (kn: Knol, restart: bool)
    requires CountsOk(piles, played, located) && KnolOk(kn0)
    ensures Restarting(kn, kn0)
    ensures restart ==> Open(kn) < Open(kn0)
    ensures !restart ==> Settled(kn, piles, played, located)
  {
    var mid := Determine(kn0);
    kn := mid;
    restart := false;
    if kn.value == -1 || kn.color == -1 {
      var t;
      t, restart := Prune(mid, piles, played, located);
      kn := mid.(cantBe := t);
      KnolNarrowed(mid, t);
      if restart {
        OpenShrinks(kn, mid);
        OpenShrinks(mid, kn0);
      }
    }
  }

  /** The restart loop of update(), up to the pass that rules out nothing. */
  method Restart(k0: Knol, piles: seq<int>, played: seq<seq<int>>, located: seq<seq<int>>) returns (kn: Knol)
    requires KnolOk(k0) && CountsOk(piles, played, located)
    ensures Restarting(kn, k0) && Settled(kn, piles, played, located)
    ensures Open(kn) <= Open(k0)
  {
    kn := k0;
    OpenShrinks(kn, k0);
    var restart := true;
    while restart
      invariant Restarting(kn, k0) && Open(kn) <= Open(k0)
      invariant !restart ==> Settled(kn, piles, played, located)
      decreases Open(kn), restart
    {
      ghost var prev := kn;
      kn, restart := UpdateRound(kn, piles, played, located);
      NarrowerTransitive(kn.cantBe, prev.cantBe, k0.cantBe);
      OpenShrinks(kn, prev);
    }
  }

  /**
   * update(): determines the colour and value when only one is left and
   * prunes the table against the counts and the flags, restarting until
   * a pass rules out nothing; then sets the flags the table implies. The
   * table is at rest for the flags the card came in with.
   */
  method Update(k0: Knol, piles: seq<int>, played: seq<seq<int>>, located: seq<seq<int>>) returns (kn: Knol)
    requires KnolOk(k0) && CountsOk(piles, played, located)
    ensures KnolOk(kn) && Narrower(kn.cantBe, k0.cantBe)
    ensures k0.color != -1 ==> kn.color == k0.color
    ensures k0.value != -1 ==> kn.value == k0.value
    ensures Settled(kn.(isPlayable := k0.isPlayable, isValuable := k0.isValuable, isWorthless := k0.isWorthless),
                    piles, played, located)
    ensures (kn.isPlayable, kn.isValuable, kn.isWorthless)
            == Flags(kn.cantBe, piles, played, k0.isPlayable, k0.isValuable, k0.isWorthless)
    ensures Open(kn) <= Open(k0)
    ensures Open(kn) == Open(k0) ==> kn.cantBe == k0.cantBe && kn.color == k0.color && kn.value == k0.value
    ensures UpdatedFrom(kn, k0, piles, played, located)
  {
    var rested := Restart(k0, piles, played, located);
    OpenShrinks(rested, k0);
    kn := SetFlags(rested, piles, played);
    assert kn.(isPlayable := k0.isPlayable, isValuable := k0.isValuable, isWorthless := k0.isWorthless) == rested;
  }

  /**
   * kn is a result update() gives for k0 under these counts: narrower,
   * keeping a determined colour or value, at rest for the flags k0 came
   * in with, and carrying the flags update() then sets.
   */
  ghost predicate UpdatedFrom(kn: Knol, k0: Knol, piles: seq<int>, played: seq<seq<int>>, located: seq<seq<int>>)
    requires CountsOk(piles, played, located)
  {
    KnolOk(kn) && KnolOk(k0) && Narrower(kn.cantBe, k0.cantBe)
    && (k0.color != -1 ==> kn.color == k0.color) && (k0.value != -1 ==> kn.value == k0.value)
    && Settled(kn.(isPlayable := k0.isPlayable, isValuable := k0.isValuable, isWorthless := k0.isWorthless),
               piles, played, located)
    && (kn.isPlayable, kn.isValuable, kn.isWorthless)
       == Flags(kn.cantBe, piles, played, k0.isPlayable, k0.isValuable, k0.isWorthless)
  }

  /** The flags of a card are those update() would set again from its table. */
  ghost predicate FlagsAtRest(kn: Knol, piles: seq<int>, played: seq<seq<int>>)
    requires KnolOk(kn) && GameOk(piles, played)
  {
    (kn.isPlayable, kn.isValuable, kn.isWorthless)
    == Flags(kn.cantBe, piles, played, kn.isPlayable, kn.isValuable, kn.isWorthless)
  }

  /** Setting the flags a second time from the same table changes nothing. */
  lemma UpdatedFlagsAtRest(kn: Knol, k0: Knol, piles: seq<int>, played: seq<seq<int>>, located: seq<seq<int>>)
    requires CountsOk(piles, played, located) && UpdatedFrom(kn, k0, piles, played, located)
    ensures FlagsAtRest(kn, piles, played)
  {
  }

  lemma NarrowerTransitive(a: seq<seq<bool>>, b: seq<seq<bool>>, c: seq<seq<bool>>)
    requires Wf(a) && Wf(b) && Wf(c) && Narrower(a, b) && Narrower(b, c)
    ensures Narrower(a, c)
  {
  }

  /** The flag tail of update(). */
  method SetFlags(k0: Knol, piles: seq<int>, played: seq<seq<int>>) returns (kn: Knol)
    requires KnolOk(k0) && GameOk(piles, played)
    ensures kn.cantBe == k0.cantBe && kn.color == k0.color && kn.value == k0.value
    ensures (kn.isPlayable, kn.isValuable, kn.isWorthless)
            == Flags(k0.cantBe, piles, played, k0.isPlayable, k0.isValuable, k0.isWorthless)
  {
    kn := k0;
    if kn.isWorthless {
      return;
    }
    if !kn.isPlayable && !kn.isValuable {
      var contained := EveryPossible(kn.cantBe, Contained, piles, played);
      if contained {
        kn := kn.(isWorthless := true);
        return;
      }
    }
    if !kn.isValuable {
      var valuable := EveryPossible(kn.cantBe, ValuableCard, piles, played);
      if valuable {
        kn := kn.(isValuable := true);
      }
    }
    if !kn.isPlayable {
      var playable := EveryPossible(kn.cantBe, NextOnPile, piles, played);
      if playable {
        kn := kn.(isPlayable := true);
      }
    }
  }

  /**
   * update() flags a card worthless only when it was already, or when
   * every possible card is on its pile and no other flag was set.
   */
  lemma FlagsWorthless(t: seq<seq<bool>>, piles: seq<int>, played: seq<seq<int>>, p: bool, v: bool, w: bool)
    requires Wf(t) && GameOk(piles, played)
    ensures Flags(t, piles, played, p, v, w).2 ==> w || (!p && !v && Every(t, Contained, piles, played))
    ensures !w && Flags(t, piles, played, p, v, w).2 ==> !Flags(t, piles, played, p, v, w).0
  {
  }

  /**
   * At rest with a playable flag, every possible card is the next one on
   * its pile: the scan has ruled out the rest.
   */
  lemma SettledPlayable(kn: Knol, piles: seq<int>, played: seq<seq<int>>, located: seq<seq<int>>, c: Card)
    requires KnolOk(kn) && CountsOk(piles, played, located) && Settled(kn, piles, played, located)
    requires kn.isPlayable && (kn.color == -1 || kn.value == -1) && Possible(kn.cantBe, c)
    ensures c.value == piles[c.color] + 1
  {
    assert !Pruned(kn, piles, played, located)[c.color][c.value];
  }

  /** Some colour of the value is still possible for the card and valuable. */
  predicate ValuableLeft(kn: Knol, piles: seq<int>, played: seq<seq<int>>, value: int)
    requires KnolOk(kn) && GameOk(piles, played)
  {
    1 <= value <= VALUE_MAX
    && exists k | 0 <= k < NUMCOLORS :: Possible(kn.cantBe, Card(k, value)) && HValuable(piles, played, Card(k, value))
  }

  /** couldBeValuable: false outside 1..5, else whether some colour of the value is possible and valuable. */
  method CouldBeValuable(kn: Knol, piles: seq<int>, played: seq<seq<int>>, value: int) returns (b: bool)
    requires KnolOk(kn) && GameOk(piles, played)
    ensures b == ValuableLeft(kn, piles, played, value)
  {
    if value < 1 || VALUE_MAX < value {
      return false;
    }
    var k := RED;
    while k <= BLUE
      invariant RED <= k <= BLUE + 1
      invariant forall j | RED <= j < k :: !(Possible(kn.cantBe, Card(j, value)) && HValuable(piles, played, Card(j, value)))
    {
      if !kn.cantBe[k][value] && HValuable(piles, played, Card(k, value)) {
        return true;
      }
      k := k + 1;
    }
    return false;
  }
}

/**
 * The HolmesBot player: its knowledge of every card in every hand, the
 * counts of played and located cards, and the observers that keep them
 * up to date; plus the hint it would give a partner.
 */
module HolmesBot {
  import opened Hanabi
  import InfoTables
  import SeqUtil
  import opened SmartKnowledge
  import opened HolmesKnowledge

  predicate HandOk(hand: seq<Knol>) {
    forall i | 0 <= i < |hand| :: KnolOk(hand[i])
  }

  predicate AllOk(hk: seq<seq<Knol>>) {
    forall p | 0 <= p < |hk| :: HandOk(hk[p])
  }

  predicate SameShape(hk: seq<seq<Knol>>, hk0: seq<seq<Knol>>) {
    |hk| == |hk0| && forall p | 0 <= p < |hk| :: |hk[p]| == |hk0[p]|
  }

  // ---------------------------------------------------------------------------
  // Located cards
  // ---------------------------------------------------------------------------

  /** Both colour and value are determined. */
  predicate Determined(kn: Knol) {
    kn.color != -1 && kn.value != -1
  }

  /** The determined cards of a hand, in order. */
  function KnownIn(hand: seq<Knol>): (r: seq<Card>)
    requires HandOk(hand)
    ensures AllValid(r) && |r| <= |hand|
  {
    if hand == [] then []
    else
      var last := hand[|hand| - 1];
      KnownIn(hand[..|hand| - 1]) + (if Determined(last) then [Card(last.color, last.value)] else [])
  }

  /** The determined cards of every hand, player by player. */
  function KnownAll(hk: seq<seq<Knol>>): (r: seq<Card>)
    requires AllOk(hk)
    ensures AllValid(r)
  {
    if hk == [] then [] else KnownAll(hk[..|hk| - 1]) + KnownIn(hk[|hk| - 1])
  }

  /** locatedCount_ as updateLocatedCount computes it. */
  function LocatedOf(hk: seq<seq<Knol>>): (r: seq<seq<int>>)
    requires AllOk(hk)
    ensures InfoTables.Shaped(r)
  {
    InfoTables.CountsOf(KnownAll(hk)).seen
  }

  /** Hands whose cards carry the same colours and values locate the same cards. */
  lemma {:induction false} KnownInSame(hand: seq<Knol>, hand0: seq<Knol>)
    requires HandOk(hand) && HandOk(hand0) && |hand| == |hand0|
    requires forall i | 0 <= i < |hand| :: hand[i].color == hand0[i].color && hand[i].value == hand0[i].value
    ensures KnownIn(hand) == KnownIn(hand0)
  {
    if hand != [] {
      KnownInSame(hand[..|hand| - 1], hand0[..|hand0| - 1]);
    }
  }

  lemma {:induction false} KnownAllSame(hk: seq<seq<Knol>>, hk0: seq<seq<Knol>>)
    requires AllOk(hk) && AllOk(hk0) && SameShape(hk, hk0)
    requires forall p, i | 0 <= p < |hk| && 0 <= i < |hk[p]| :: hk[p][i].color == hk0[p][i].color && hk[p][i].value == hk0[p][i].value
    ensures KnownAll(hk) == KnownAll(hk0)
  {
    if hk != [] {
      KnownAllSame(hk[..|hk| - 1], hk0[..|hk0| - 1]);
      KnownInSame(hk[|hk| - 1], hk0[|hk0| - 1]);
    }
  }

  lemma CountsOfSnoc(s: seq<Card>, c: Card)
    requires AllValid(s) && ValidCard(c)
    ensures InfoTables.CountsOf(s + [c]) == InfoTables.Increment(InfoTables.CountsOf(s), c)
  {
    assert (s + [c])[..|s|] == s;
  }

  lemma KnownInStep(hand: seq<Knol>, i: int)
    requires HandOk(hand) && 0 <= i < |hand|
    ensures KnownIn(hand[..i + 1])
            == KnownIn(hand[..i]) + (if Determined(hand[i]) then [Card(hand[i].color, hand[i].value)] else [])
  {
    assert hand[..i + 1][..i] == hand[..i];
  }

  /** Counting a determined card i of the hand adds it to the counts. */
  lemma CountStepKnown(hand: seq<Knol>, i: int, base: seq<Card>)
    requires HandOk(hand) && 0 <= i < |hand| && AllValid(base) && Determined(hand[i])
    ensures InfoTables.CountsOf(base + KnownIn(hand[..i + 1]))
            == InfoTables.Increment(InfoTables.CountsOf(base + KnownIn(hand[..i])), Card(hand[i].color, hand[i].value))
  {
    KnownInStep(hand, i);
    var known := KnownIn(hand[..i]);
    var c := Card(hand[i].color, hand[i].value);
    CountsOfSnoc(base + known, c);
    SeqUtil.AppendAssoc(base, known, [c]);
  }

  /** An undetermined card i of the hand leaves the counts alone. */
  lemma CountStepUnknown(hand: seq<Knol>, i: int, base: seq<Card>)
    requires HandOk(hand) && 0 <= i < |hand| && AllValid(base) && !Determined(hand[i])
    ensures InfoTables.CountsOf(base + KnownIn(hand[..i + 1])) == InfoTables.CountsOf(base + KnownIn(hand[..i]))
  {
    KnownInStep(hand, i);
    var known := KnownIn(hand[..i]);
    assert known + [] == known;
  }

  /** The inner loop of updateLocatedCount over one hand. */
  method CountKnownHand(hand: seq<Knol>, counts0: InfoTables.CardCounts, ghost base: seq<Card>)
    returns (counts: InfoTables.CardCounts)
    requires HandOk(hand) && AllValid(base) && counts0 == InfoTables.CountsOf(base)
    ensures counts == InfoTables.CountsOf(base + KnownIn(hand))
  {
    counts := counts0;
    var i := 0;
    assert base + KnownIn(hand[..0]) == base;
    while i < |hand|
      invariant 0 <= i <= |hand| && counts == InfoTables.CountsOf(base + KnownIn(hand[..i]))
    {
      var k := hand[i].color;
      if k != -1 {
        var v := hand[i].value;
        if v != -1 {
          CountStepKnown(hand, i, base);
          counts := InfoTables.Increment(counts, Card(k, v));
        } else {
          CountStepUnknown(hand, i, base);
        }
      } else {
        CountStepUnknown(hand, i, base);
      }
      i := i + 1;
    }
    assert hand[..i] == hand;
  }

  /** The table updateLocatedCount computes: the determined cards of all hands. */
  method CountKnown(hk: seq<seq<Knol>>) returns (counts: seq<seq<int>>)
    requires AllOk(hk)
    ensures counts == LocatedOf(hk)
  {
    var cc := InfoTables.CountsOf([]);
    var p := 0;
    while p < |hk|
      invariant 0 <= p <= |hk| && cc == InfoTables.CountsOf(KnownAll(hk[..p]))
    {
      assert hk[..p + 1][..p] == hk[..p];
      cc := CountKnownHand(hk[p], cc, KnownAll(hk[..p]));
      p := p + 1;
    }
    assert hk[..p] == hk;
    counts := cc.seen;
  }

  // ---------------------------------------------------------------------------
  // update() over every card
  // ---------------------------------------------------------------------------

  /** kn narrows k0 and keeps a colour or value k0 had determined. */
  ghost predicate KnolRefines(kn: Knol, k0: Knol) {
    KnolOk(kn) && KnolOk(k0) && Narrower(kn.cantBe, k0.cantBe)
    && (k0.color != -1 ==> kn.color == k0.color) && (k0.value != -1 ==> kn.value == k0.value)
  }

  ghost predicate Refines(hk: seq<seq<Knol>>, hk0: seq<seq<Knol>>) {
    SameShape(hk, hk0) && forall p, i | 0 <= p < |hk| && 0 <= i < |hk[p]| :: KnolRefines(hk[p][i], hk0[p][i])
  }

  lemma RefinesTransitive(a: seq<seq<Knol>>, b: seq<seq<Knol>>, c: seq<seq<Knol>>)
    requires Refines(a, b) && Refines(b, c)
    ensures Refines(a, c)
  {
    forall p, i | 0 <= p < |a| && 0 <= i < |a[p]|
      ensures KnolRefines(a[p][i], c[p][i])
    {
      NarrowerTransitive(a[p][i].cantBe, b[p][i].cantBe, c[p][i].cantBe);
    }
  }

  /**
   * An undetermined card respects the counts: no card it may still be has
   * all its copies played or located.
   */
  ghost predicate RespectsCounts(kn: Knol, played: seq<seq<int>>, located: seq<seq<int>>)
    requires KnolOk(kn) && InfoTables.Shaped(played) && InfoTables.Shaped(located)
  {
    !Determined(kn) ==>
      forall c | Possible(kn.cantBe, c) :: played[c.color][c.value] + located[c.color][c.value] < Count(c)
  }

  /** A card update() has left at rest respects the counts it was updated with. */
  lemma SettledRespects(kn: Knol, piles: seq<int>, played: seq<seq<int>>, located: seq<seq<int>>)
    requires KnolOk(kn) && CountsOk(piles, played, located) && Settled(kn, piles, played, located)
    ensures RespectsCounts(kn, played, located)
  {
    if !Determined(kn) {
      forall c | Possible(kn.cantBe, c)
        ensures played[c.color][c.value] + located[c.color][c.value] < Count(c)
      {
        assert !Pruned(kn, piles, played, located)[c.color][c.value];
      }
    }
  }

  /** update() applied to every card of a hand. */
  method UpdateHand(hand0: seq<Knol>, piles: seq<int>, played: seq<seq<int>>, located: seq<seq<int>>)
    returns (hand: seq<Knol>)
    requires HandOk(hand0) && CountsOk(piles, played, located)
    ensures HandOk(hand) && |hand| == |hand0|
    ensures forall i | 0 <= i < |hand| :: KnolRefines(hand[i], hand0[i]) && RespectsCounts(hand[i], played, located)
    ensures forall i | 0 <= i < |hand| :: UpdatedFrom(hand[i], hand0[i], piles, played, located)
  {
    hand := hand0;
    var i := 0;
    while i < |hand0|
      invariant 0 <= i <= |hand0| && |hand| == |hand0| && HandOk(hand)
      invariant forall j | 0 <= j < i :: KnolRefines(hand[j], hand0[j]) && RespectsCounts(hand[j], played, located)
      invariant forall j | 0 <= j < i :: UpdatedFrom(hand[j], hand0[j], piles, played, located)
      invariant forall j | i <= j < |hand0| :: hand[j] == hand0[j]
    {
      var kn := HolmesKnowledge.Update(hand0[i], piles, played, located);
      SettledRespects(kn.(isPlayable := hand0[i].isPlayable, isValuable := hand0[i].isValuable,
                          isWorthless := hand0[i].isWorthless), piles, played, located);
      hand := hand[i := kn];
      i := i + 1;
    }
  }

  /** Every card of hk is what update() gives for the card of hk0 at its place. */
  ghost predicate UpdatedAll(hk: seq<seq<Knol>>, hk0: seq<seq<Knol>>, piles: seq<int>, played: seq<seq<int>>,
                             located: seq<seq<int>>)
    requires CountsOk(piles, played, located)
  {
    SameShape(hk, hk0)
    && forall p, i | 0 <= p < |hk| && 0 <= i < |hk[p]| ::
         UpdatedFrom(hk[p][i], hk0[p][i], piles, played, located)
  }

  /** update() on every card of every hand (the body of the do-while loop). */
  method UpdateAll(hk0: seq<seq<Knol>>, piles: seq<int>, played: seq<seq<int>>, located: seq<seq<int>>)
    returns (hk: seq<seq<Knol>>)
    requires AllOk(hk0) && CountsOk(piles, played, located)
    ensures AllOk(hk) && Refines(hk, hk0)
    ensures forall p, i | 0 <= p < |hk| && 0 <= i < |hk[p]| :: RespectsCounts(hk[p][i], played, located)
    ensures UpdatedAll(hk, hk0, piles, played, located)
  {
    hk := hk0;
    var p := 0;
    while p < |hk0|
      invariant 0 <= p <= |hk0| && AllOk(hk) && SameShape(hk, hk0)
      invariant forall q, i | 0 <= q < p && 0 <= i < |hk[q]| ::
                  KnolRefines(hk[q][i], hk0[q][i]) && RespectsCounts(hk[q][i], played, located)
      invariant forall q, i | 0 <= q < p && 0 <= i < |hk[q]| ::
                  UpdatedFrom(hk[q][i], hk0[q][i], piles, played, located)
      invariant forall q | p <= q < |hk0| :: hk[q] == hk0[q]
    {
      var hand := UpdateHand(hk0[p], piles, played, located);
      hk := hk[p := hand];
      p := p + 1;
    }
  }

  /** Which colours (d = 0) and values (d = 1) are still undetermined, card by card. */
  ghost function Undetermined(hk: seq<seq<Knol>>): set<(int, int, int)> {
    set p, i, d | 0 <= p < |hk| && 0 <= i < |hk[p]| && 0 <= d < 2
                  && (if d == 0 then hk[p][i].color == -1 else hk[p][i].value == -1) :: (p, i, d)
  }

  /**
   * Refining never undetermines a card, and a change in the located
   * cards means some card was determined: this is why the do-while loop
   * of pleaseObserveBeforeMove ends.
   */
  lemma UndeterminedShrinks(hk: seq<seq<Knol>>, hk0: seq<seq<Knol>>)
    requires AllOk(hk) && AllOk(hk0) && Refines(hk, hk0)
    ensures Undetermined(hk) <= Undetermined(hk0)
    ensures LocatedOf(hk) != LocatedOf(hk0) ==> Undetermined(hk) < Undetermined(hk0)
  {
    forall p, i, d | 0 <= p < |hk| && 0 <= i < |hk[p]| && 0 <= d < 2
      ensures (p, i, d) in Undetermined(hk) <==> (if d == 0 then hk[p][i].color == -1 else hk[p][i].value == -1)
      ensures (p, i, d) in Undetermined(hk0) <==> (if d == 0 then hk0[p][i].color == -1 else hk0[p][i].value == -1)
    {
    }
    if Undetermined(hk) == Undetermined(hk0) {
      forall p, i | 0 <= p < |hk| && 0 <= i < |hk[p]|
        ensures hk[p][i].color == hk0[p][i].color && hk[p][i].value == hk0[p][i].value
      {
        assert (p, i, 0) in Undetermined(hk) <==> (p, i, 0) in Undetermined(hk0);
        assert (p, i, 1) in Undetermined(hk) <==> (p, i, 1) in Undetermined(hk0);
      }
      KnownAllSame(hk, hk0);
    }
  }

  /** The size pleaseObserveBeforeMove gives a hand's knowledge: vector::resize. */
  function Resized(hand: seq<Knol>, n: nat): (r: seq<Knol>)
    ensures |r| == n
    ensures forall i | 0 <= i < n && i < |hand| :: r[i] == hand[i]
    ensures forall i | |hand| <= i < n :: r[i] == FreshKnol()
  {
    if n <= |hand| then hand[..n] else hand + seq(n - |hand|, i => FreshKnol())
  }

  /** Every hand's knowledge resized to the hand. */
  function ResizedAll(hk: seq<seq<Knol>>, sizes: seq<nat>): (r: seq<seq<Knol>>)
    requires |sizes| == |hk|
    ensures |r| == |hk| && forall p | 0 <= p < |r| :: r[p] == Resized(hk[p], sizes[p])
    ensures AllOk(hk) ==> AllOk(r)
  {
    seq(|hk|, p requires 0 <= p < |hk| => Resized(hk[p], sizes[p]))
  }

  // ---------------------------------------------------------------------------
  // Hints
  // ---------------------------------------------------------------------------

  /** The value a colour hint names: the next value of the pile, clamped to 5 when permissive. */
  function HintValue(pile: int, permissive: bool): (v: int)
    requires 0 <= pile <= VALUE_MAX && (permissive || pile < VALUE_MAX)
    ensures 1 <= v <= VALUE_MAX
    ensures pile < VALUE_MAX ==> v == pile + 1
  {
    if permissive && pile + 1 > VALUE_MAX then VALUE_MAX else pile + 1
  }

  /**
   * One card after a colour hint: a touched card must be the colour (and,
   * unless its value is known or it is worthless, the pile's next value);
   * an untouched card cannot be the colour.
   */
  function ColorHinted(kn: Knol, color: int, value: int, touched: bool): (r: Knol)
    requires KnolOk(kn) && ValidColor(color) && 1 <= value <= VALUE_MAX
    ensures KnolOk(r) && Narrower(r.cantBe, kn.cantBe)
    ensures r.isPlayable == kn.isPlayable && r.isValuable == kn.isValuable && r.isWorthless == kn.isWorthless
    ensures touched ==> r.color == color && forall c | Possible(r.cantBe, c) :: c.color == color
    ensures touched && kn.value == -1 && !kn.isWorthless ==> r.value == value && forall c | Possible(r.cantBe, c) :: c.value == value
    ensures touched && (kn.value != -1 || kn.isWorthless) ==> r.value == kn.value
    ensures !touched ==> ColorOut(r.cantBe, color) && r.color == kn.color && r.value == kn.value
  {
    if touched then
      var t := Excluded(kn.cantBe, OnlyColor(color));
      ExcludedNarrower(kn.cantBe, OnlyColor(color));
      KnolNarrowed(kn, t);
      var k := kn.(cantBe := t, color := color);
      if kn.value == -1 && !kn.isWorthless then
        ExcludedNarrower(t, OnlyValue(value));
        KnolNarrowed(k, Excluded(t, OnlyValue(value)));
        NarrowerTransitive(Excluded(t, OnlyValue(value)), t, kn.cantBe);
        k.(cantBe := Excluded(t, OnlyValue(value)), value := value)
      else k
    else
      ExcludedNarrower(kn.cantBe, NotColor(color));
      KnolNarrowed(kn, Excluded(kn.cantBe, NotColor(color)));
      kn.(cantBe := Excluded(kn.cantBe, NotColor(color)))
  }

  /** A hand's knowledge after a colour hint touching the indices in `touched`. */
  function ColorHintedHand(hand: seq<Knol>, color: int, value: int, touched: set<int>): (r: seq<Knol>)
    requires HandOk(hand) && ValidColor(color) && 1 <= value <= VALUE_MAX
    ensures |r| == |hand| && HandOk(r)
  {
    seq(|hand|, i requires 0 <= i < |hand| => ColorHinted(hand[i], color, value, i in touched))
  }

  /** The loop of pleaseObserveColorHint over the hinted player's hand. */
  method ColorHintHand(hand0: seq<Knol>, color: int, value: int, touched: set<int>) returns (hand: seq<Knol>)
    requires HandOk(hand0) && ValidColor(color) && 1 <= value <= VALUE_MAX
    ensures hand == ColorHintedHand(hand0, color, value, touched)
  {
    hand := hand0;
    var i := 0;
    while i < |hand0|
      invariant 0 <= i <= |hand0| && |hand| == |hand0|
      invariant forall j | 0 <= j < i :: hand[j] == ColorHinted(hand0[j], color, value, j in touched)
      invariant forall j | i <= j < |hand0| :: hand[j] == hand0[j]
    {
      var kn := hand[i];
      if i in touched {
        kn := SetMustBeColor(kn, color);
        if kn.value == -1 && !kn.isWorthless {
          kn := SetMustBeValue(kn, value);
        }
      } else {
        var t := SetCannotBeColor(kn.cantBe, color);
        kn := kn.(cantBe := t);
      }
      hand := hand[i := kn];
      i := i + 1;
    }
    assert hand == ColorHintedHand(hand0, color, value, touched);
  }

  /** The first card not flagged valuable, or -1. */
  function FirstUnvaluable(hand: seq<Knol>): (r: int)
    ensures -1 <= r < |hand|
    ensures r == -1 <==> forall i | 0 <= i < |hand| :: hand[i].isValuable
    ensures r != -1 ==> !hand[r].isValuable && forall i | 0 <= i < r :: hand[i].isValuable
  {
    if hand == [] then -1
    else if !hand[0].isValuable then 0
    else
      var r := FirstUnvaluable(hand[1..]);
      if r == -1 then -1 else r + 1
  }

  /** Some card is flagged playable or worthless. */
  predicate AnyFlagged(hand: seq<Knol>) {
    exists i | 0 <= i < |hand| :: hand[i].isPlayable || hand[i].isWorthless
  }

  /** The card nextDiscardIndex picks: none while some card is flagged, else the first not valuable. */
  function DiscardIndex(hand: seq<Knol>): (r: int)
    ensures -1 <= r < |hand|
    ensures AnyFlagged(hand) ==> r == -1
    ensures r != -1 ==> !hand[r].isValuable && !hand[r].isPlayable && !hand[r].isWorthless
  {
    if AnyFlagged(hand) then -1 else FirstUnvaluable(hand)
  }

  datatype Hint = Hint(information: int, color: int, value: int, to: int)

  /** Candidate j of bestHintForPlayer: colours 0..4 first, then values 1..5. */
  function CandidateColor(j: int): int {
    if j < NUMCOLORS then j else -1
  }

  function CandidateValue(j: int): int {
    if j < NUMCOLORS then -1 else j - NUMCOLORS + 1
  }

  const CANDIDATES := NUMCOLORS + VALUE_MAX

  predicate Touches(j: int, c: Card) {
    if j < NUMCOLORS then c.color == CandidateColor(j) else c.value == CandidateValue(j)
  }

  predicate ReallyPlayable(piles: seq<int>, c: Card)
    requires |piles| == NUMCOLORS && ValidCard(c)
  {
    c.value == piles[c.color] + 1
  }

  /** A touched card that is playable and not yet known to be so: information. */
  predicate Informs(j: int, piles: seq<int>, c: Card, kn: Knol)
    requires |piles| == NUMCOLORS && ValidCard(c)
  {
    Touches(j, c) && ReallyPlayable(piles, c) && !kn.isPlayable
  }

  /**
   * A touched card that is not playable, and that the partner would take
   * for playable: its other feature is unknown and it is not worthless.
   */
  predicate Misleads(j: int, piles: seq<int>, c: Card, kn: Knol)
    requires |piles| == NUMCOLORS && ValidCard(c)
  {
    Touches(j, c) && !ReallyPlayable(piles, c)
    && (if j < NUMCOLORS then kn.value == -1 else kn.color == -1) && !kn.isWorthless
  }

  predicate PartnerOk(piles: seq<int>, hand: seq<Card>, knols: seq<Knol>) {
    |piles| == NUMCOLORS && AllValid(hand) && |hand| == |knols|
  }

  /** information_content of candidate j over the first n cards. */
  function InfoOf(j: int, piles: seq<int>, hand: seq<Card>, knols: seq<Knol>, n: int): (r: int)
    requires PartnerOk(piles, hand, knols) && 0 <= n <= |hand|
    ensures 0 <= r <= n
  {
    if n == 0 then 0
    else InfoOf(j, piles, hand, knols, n - 1) + (if Informs(j, piles, hand[n - 1], knols[n - 1]) then 1 else 0)
  }

  predicate Misinformative(j: int, piles: seq<int>, hand: seq<Card>, knols: seq<Knol>)
    requires PartnerOk(piles, hand, knols)
  {
    exists i | 0 <= i < |hand| :: Misleads(j, piles, hand[i], knols[i])
  }

  /** Candidate j may be chosen: not the value to avoid, and not misinformative. */
  predicate Admissible(j: int, avoid: int, piles: seq<int>, hand: seq<Card>, knols: seq<Knol>)
    requires PartnerOk(piles, hand, knols)
  {
    !(NUMCOLORS <= j && CandidateValue(j) == avoid) && !Misinformative(j, piles, hand, knols)
  }

  function IndexOf(h: Hint): int {
    if h.color != -1 then h.color else h.value + NUMCOLORS - 1
  }

  /**
   * h is the best of the first n candidates: -1 when none is admissible,
   * else the first admissible candidate with the greatest information.
   */
  ghost predicate BestOf(h: Hint, n: int, avoid: int, piles: seq<int>, hand: seq<Card>, knols: seq<Knol>)
    requires PartnerOk(piles, hand, knols)
  {
    (h.information == -1 ==>
       h.color == -1 && h.value == -1 && forall j | 0 <= j < n :: !Admissible(j, avoid, piles, hand, knols))
    && (h.information != -1 ==>
          var j := IndexOf(h);
          0 <= j < n && h.color == CandidateColor(j) && h.value == CandidateValue(j)
          && Admissible(j, avoid, piles, hand, knols) && h.information == InfoOf(j, piles, hand, knols, |hand|)
          && (forall i | 0 <= i < n && Admissible(i, avoid, piles, hand, knols) ::
                InfoOf(i, piles, hand, knols, |hand|) <= h.information)
          && (forall i | 0 <= i < j && Admissible(i, avoid, piles, hand, knols) ::
                InfoOf(i, piles, hand, knols, |hand|) < h.information))
  }

  /** The inner loop of bestHintForPlayer for candidate j, stopping at the first misleading card. */
  method Score(j: int, piles: seq<int>, hand: seq<Card>, knols: seq<Knol>) returns (info: int, misinf: bool)
    requires PartnerOk(piles, hand, knols)
    ensures misinf == Misinformative(j, piles, hand, knols)
    ensures !misinf ==> info == InfoOf(j, piles, hand, knols, |hand|)
  {
    info, misinf := 0, false;
    var c := 0;
    while c < |hand|
      invariant 0 <= c <= |hand| && info == InfoOf(j, piles, hand, knols, c)
      invariant forall i | 0 <= i < c :: !Misleads(j, piles, hand[i], knols[i])
    {
      if Touches(j, hand[c]) {
        if ReallyPlayable(piles, hand[c]) && !knols[c].isPlayable {
          info := info + 1;
        } else if !ReallyPlayable(piles, hand[c]) && (if j < NUMCOLORS then knols[c].value == -1 else knols[c].color == -1)
                  && !knols[c].isWorthless {
          misinf := true;
          return;
        }
      }
      c := c + 1;
    }
  }

  /** One candidate of bestHintForPlayer: replace the best when strictly more informative. */
  method Consider(best: Hint, j: int, avoid: int, piles: seq<int>, hand: seq<Card>, knols: seq<Knol>)
    returns (next: Hint)
    requires PartnerOk(piles, hand, knols) && 0 <= j < CANDIDATES
    requires BestOf(best, j, avoid, piles, hand, knols)
    ensures BestOf(next, j + 1, avoid, piles, hand, knols) && next.to == best.to
  {
    next := best;
    if NUMCOLORS <= j && CandidateValue(j) == avoid {
      return;
    }
    var info, misinf := Score(j, piles, hand, knols);
    if misinf {
      return;
    }
    if info > best.information {
      next := Hint(info, CandidateColor(j), CandidateValue(j), best.to);
      assert IndexOf(next) == j;
    }
  }

  /** What wipeOutPlayables does to one card: a card that could be the played one loses its playable flag unless valuable. */
  function Wiped(kn: Knol, card: Card): (r: Knol)
    requires Wf(kn.cantBe) && ValidCard(card)
    ensures r == kn || r == kn.(isPlayable := false)
    ensures r.isPlayable != kn.isPlayable <==> kn.isPlayable && !kn.isValuable && !kn.cantBe[card.color][card.value]
  {
    if kn.isPlayable && !kn.isValuable && !kn.cantBe[card.color][card.value] then kn.(isPlayable := false) else kn
  }

  /** Every hand's knowledge after wipeOutPlayables(card). */
  function WipedTable(hk: seq<seq<Knol>>, card: Card): (r: seq<seq<Knol>>)
    requires AllOk(hk) && ValidCard(card)
    ensures SameShape(r, hk)
    ensures forall p, i | 0 <= p < |r| && 0 <= i < |r[p]| :: r[p][i] == Wiped(hk[p][i], card)
  {
    seq(|hk|, p requires 0 <= p < |hk| => seq(|hk[p]|, i requires 0 <= i < |hk[p]| => Wiped(hk[p][i], card)))
  }

  method WipeHand(hand0: seq<Knol>, card: Card) returns (hand: seq<Knol>)
    requires HandOk(hand0) && ValidCard(card)
    ensures |hand| == |hand0| && forall i | 0 <= i < |hand| :: hand[i] == Wiped(hand0[i], card)
  {
    hand := hand0;
    var c := 0;
    while c < |hand|
      invariant 0 <= c <= |hand| == |hand0|
      invariant forall i | 0 <= i < c :: hand[i] == Wiped(hand0[i], card)
      invariant forall i | c <= i < |hand| :: hand[i] == hand0[i]
    {
      var kn := hand[c];
      if kn.isPlayable && !kn.isValuable && !kn.cantBe[card.color][card.value] {
        hand := hand[c := kn.(isPlayable := false)];
      }
      c := c + 1;
    }
  }

  /** The knowledge of every hand after wipeOutPlayables(card). */
  method WipeAll(hk0: seq<seq<Knol>>, card: Card) returns (hk: seq<seq<Knol>>)
    requires AllOk(hk0) && ValidCard(card)
    ensures SameShape(hk, hk0)
    ensures forall p, i | 0 <= p < |hk| && 0 <= i < |hk[p]| :: hk[p][i] == Wiped(hk0[p][i], card)
  {
    hk := hk0;
    var player := 0;
    while player < |hk0|
      invariant 0 <= player <= |hk0| && SameShape(hk, hk0)
      invariant forall p, i | 0 <= p < player && 0 <= i < |hk[p]| :: hk[p][i] == Wiped(hk0[p][i], card)
      invariant forall p | player <= p < |hk0| :: hk[p] == hk0[p]
    {
      var hand := WipeHand(hk0[player], card);
      hk := hk[player := hand];
      player := player + 1;
    }
  }

  /** The hint bestHintForPlayer returns for a partner with cards `hand` and knowledge `knols`. */
  method BestHint(partner: int, piles: seq<int>, played: seq<seq<int>>, hand: seq<Card>, knols: seq<Knol>)
    returns (best: Hint)
    requires PartnerOk(piles, hand, knols) && HandOk(knols) && GameOk(piles, played)
    ensures best.to == partner
    ensures BestOf(best, CANDIDATES, AvoidOf(piles, played, hand, knols), piles, hand, knols)
  {
    best := Hint(-1, -1, -1, partner);
    var color := RED;
    while color <= BLUE
      invariant RED <= color <= BLUE + 1 && best.to == partner
      invariant BestOf(best, color, -1, piles, hand, knols)
    {
      best := Consider(best, color, -1, piles, hand, knols);
      color := color + 1;
    }
    var discardIndex := NextDiscardIndex(knols);
    var valueToAvoid := -1;
    if discardIndex != -1 {
      valueToAvoid := hand[discardIndex].value;
      var could := CouldBeValuable(knols[discardIndex], piles, played, valueToAvoid);
      if !could {
        valueToAvoid := -1;
      }
    }
    assert forall j | 0 <= j < NUMCOLORS :: Admissible(j, -1, piles, hand, knols) == Admissible(j, valueToAvoid, piles, hand, knols);
    var value := 1;
    while value <= VALUE_MAX
      invariant 1 <= value <= VALUE_MAX + 1 && best.to == partner
      invariant BestOf(best, value + NUMCOLORS - 1, valueToAvoid, piles, hand, knols)
    {
      best := Consider(best, value + NUMCOLORS - 1, valueToAvoid, piles, hand, knols);
      value := value + 1;
    }
  }

  /** The value bestHintForPlayer avoids: that of the card the partner would discard next, when it could be valuable. */
  function AvoidOf(piles: seq<int>, played: seq<seq<int>>, hand: seq<Card>, knols: seq<Knol>): int
    requires PartnerOk(piles, hand, knols) && HandOk(knols) && GameOk(piles, played)
  {
    var d := DiscardIndex(knols);
    if d != -1 && ValuableLeft(knols[d], piles, played, hand[d].value) then hand[d].value else -1
  }

  /** nextDiscardIndex over a hand's knowledge. */
  method NextDiscardIndex(hand: seq<Knol>) returns (r: int)
    ensures r == DiscardIndex(hand)
  {
    var i := 0;
    while i < |hand|
      invariant 0 <= i <= |hand|
      invariant forall j | 0 <= j < i :: !hand[j].isPlayable && !hand[j].isWorthless
    {
      if hand[i].isPlayable || hand[i].isWorthless {
        return -1;
      }
      i := i + 1;
    }
    i := 0;
    while i < |hand|
      invariant 0 <= i <= |hand|
      invariant forall j | 0 <= j < i :: hand[j].isValuable
    {
      if !hand[i].isValuable {
        return i;
      }
      i := i + 1;
    }
    return -1;
  }

  /** The lowest value any pile wants next. */
  method LowestPlayable(piles: seq<int>) returns (lowest: int)
    requires |piles| == NUMCOLORS && forall k | 0 <= k < NUMCOLORS :: 0 <= piles[k] <= VALUE_MAX
    ensures 1 <= lowest <= VALUE_MAX + 1
    ensures forall k | 0 <= k < NUMCOLORS :: lowest <= piles[k] + 1
    ensures exists k | 0 <= k < NUMCOLORS :: lowest == piles[k] + 1
  {
    lowest := 6;
    var color := RED;
    while color <= BLUE
      invariant RED <= color <= BLUE + 1 && 1 <= lowest <= 6
      invariant forall k | 0 <= k < color :: lowest <= piles[k] + 1
      invariant color > RED ==> exists k | 0 <= k < color :: lowest == piles[k] + 1
    {
      if piles[color] + 1 < lowest || color == RED {
        lowest := piles[color] + 1;
      }
      color := color + 1;
    }
  }

  class HolmesBotImpl {
    const me: int
    const permissive: bool
    var handKnowledge: seq<seq<Knol>>
    var playedCount: seq<seq<int>>
    var locatedCount: seq<seq<int>>
    var lowestPlayableValue: int

    ghost predicate Valid()
      reads this
    {
      AllOk(handKnowledge) && InfoTables.Shaped(playedCount) && InfoTables.Shaped(locatedCount)
      && forall k, v | 0 <= k < NUMCOLORS && 1 <= v <= VALUE_MAX :: 0 <= playedCount[k][v] <= Count(Card(k, v))
    }

    /**
     * HolmesBot(index, numPlayers, handSize): fresh knowledge for every
     * card, nothing played. The source leaves the located counts unset
     * until the first observation; here they start at zero.
     */
    constructor(index: int, numPlayers: nat, handSize: nat, permissive: bool)
      ensures Valid() && me == index && this.permissive == permissive
      ensures |handKnowledge| == numPlayers
      ensures forall p | 0 <= p < numPlayers :: handKnowledge[p] == seq(handSize, i => FreshKnol())
      ensures playedCount == InfoTables.ZeroTable() && locatedCount == InfoTables.ZeroTable()
    {
      me := index;
      this.permissive := permissive;
      handKnowledge := seq(numPlayers, p => seq(handSize, i => FreshKnol()));
      playedCount := InfoTables.ZeroTable();
      locatedCount := InfoTables.ZeroTable();
      lowestPlayableValue := 1;
    }

    /**
     * invalidateKnol: the entries after card_index move down one place
     * and the last becomes fresh knowledge for the drawn card.
     */
    method InvalidateKnol(player: int, cardIndex: int)
      requires Valid() && 0 <= player < |handKnowledge| && 0 <= cardIndex < |handKnowledge[player]|
      modifies this
      ensures Valid()
      ensures handKnowledge == old(handKnowledge)[player :=
                SeqUtil.RemoveAt(old(handKnowledge)[player], cardIndex) + [FreshKnol()]]
      ensures |handKnowledge[player]| == |old(handKnowledge)[player]|
      ensures playedCount == old(playedCount) && locatedCount == old(locatedCount)
      ensures lowestPlayableValue == old(lowestPlayableValue)
    {
      var vec := SeqUtil.ShiftDown(handKnowledge[player], cardIndex);
      vec := vec[|vec| - 1 := FreshKnol()];
      assert vec == SeqUtil.RemoveAt(handKnowledge[player], cardIndex) + [FreshKnol()];
      handKnowledge := handKnowledge[player := vec];
    }

    /** seePublicCard: one more copy of the card is played or discarded. */
    method SeePublicCard(card: Card)
      requires Valid() && ValidCard(card) && playedCount[card.color][card.value] < Count(card)
      modifies this
      ensures Valid()
      ensures playedCount == old(playedCount)[card.color := old(playedCount)[card.color][card.value :=
                old(playedCount)[card.color][card.value] + 1]]
      ensures 1 <= playedCount[card.color][card.value] <= Count(card)
      ensures handKnowledge == old(handKnowledge) && locatedCount == old(locatedCount)
      ensures lowestPlayableValue == old(lowestPlayableValue)
    {
      playedCount := playedCount[card.color := playedCount[card.color][card.value := playedCount[card.color][card.value] + 1]];
    }

    /** updateLocatedCount: recount the determined cards; true when the table changed. */
    method UpdateLocatedCount() returns (changed: bool)
      requires Valid()
      modifies this
      ensures Valid()
      ensures locatedCount == LocatedOf(handKnowledge)
      ensures changed <==> old(locatedCount) != LocatedOf(handKnowledge)
      ensures handKnowledge == old(handKnowledge) && playedCount == old(playedCount)
      ensures lowestPlayableValue == old(lowestPlayableValue)
    {
      var newCount := CountKnown(handKnowledge);
      changed := newCount != locatedCount;
      locatedCount := newCount;
    }

    /**
     * The do-while loop of pleaseObserveBeforeMove: update() on every card
     * until the located counts stop changing. It ends because a change in
     * the counts means some card's colour or value was determined.
     */
    method LocateFixpoint(piles: seq<int>) returns (ghost last: seq<seq<Knol>>)
      requires Valid() && GameOk(piles, playedCount)
      modifies this
      ensures Valid() && Refines(handKnowledge, old(handKnowledge))
      ensures locatedCount == LocatedOf(handKnowledge)
      ensures forall p, i | 0 <= p < |handKnowledge| && 0 <= i < |handKnowledge[p]| ::
                RespectsCounts(handKnowledge[p][i], playedCount, locatedCount)
      ensures AllOk(last) && Refines(last, old(handKnowledge))
      ensures UpdatedAll(handKnowledge, last, piles, playedCount, locatedCount)
      ensures forall p, i | 0 <= p < |handKnowledge| && 0 <= i < |handKnowledge[p]| ::
                FlagsAtRest(handKnowledge[p][i], piles, playedCount)
      ensures playedCount == old(playedCount) && lowestPlayableValue == old(lowestPlayableValue)
    {
      locatedCount := InfoTables.ZeroTable();
      var changed := UpdateLocatedCount();
      changed := true;
      last := handKnowledge;
      while changed
        invariant Valid() && playedCount == old(playedCount) && lowestPlayableValue == old(lowestPlayableValue)
        invariant Refines(handKnowledge, old(handKnowledge))
        invariant locatedCount == LocatedOf(handKnowledge)
        invariant !changed ==> forall p, i | 0 <= p < |handKnowledge| && 0 <= i < |handKnowledge[p]| ::
                                 RespectsCounts(handKnowledge[p][i], playedCount, locatedCount)
        invariant AllOk(last) && Refines(last, old(handKnowledge))
        invariant !changed ==> UpdatedAll(handKnowledge, last, piles, playedCount, locatedCount)
        decreases Undetermined(handKnowledge), changed
      {
        ghost var before := handKnowledge;
        var hk := UpdateAll(handKnowledge, piles, playedCount, locatedCount);
        UndeterminedShrinks(hk, before);
        RefinesTransitive(hk, before, old(handKnowledge));
        handKnowledge := hk;
        last := before;
        changed := UpdateLocatedCount();
      }
      forall p, i | 0 <= p < |handKnowledge| && 0 <= i < |handKnowledge[p]|
        ensures FlagsAtRest(handKnowledge[p][i], piles, playedCount)
      {
        UpdatedFlagsAtRest(handKnowledge[p][i], last[p][i], piles, playedCount, locatedCount);
      }
    }

    /**
     * pleaseObserveBeforeMove: each hand's knowledge is resized to the
     * hand, the located counts are brought to their fixpoint, and the
     * lowest playable value is recomputed.
     */
    method ObserveBeforeMove(handSizes: seq<nat>, piles: seq<int>) returns (ghost last: seq<seq<Knol>>)
      requires Valid() && GameOk(piles, playedCount) && |handSizes| == |handKnowledge|
      modifies this
      ensures Valid() && playedCount == old(playedCount)
      ensures |handKnowledge| == |handSizes| && forall p | 0 <= p < |handSizes| :: |handKnowledge[p]| == handSizes[p]
      ensures Refines(handKnowledge, ResizedAll(old(handKnowledge), handSizes))
      ensures locatedCount == LocatedOf(handKnowledge)
      ensures forall p, i | 0 <= p < |handKnowledge| && 0 <= i < |handKnowledge[p]| ::
                RespectsCounts(handKnowledge[p][i], playedCount, locatedCount)
      ensures AllOk(last) && Refines(last, ResizedAll(old(handKnowledge), handSizes))
      ensures UpdatedAll(handKnowledge, last, piles, playedCount, locatedCount)
      ensures forall p, i | 0 <= p < |handKnowledge| && 0 <= i < |handKnowledge[p]| ::
                FlagsAtRest(handKnowledge[p][i], piles, playedCount)
      ensures forall k | 0 <= k < NUMCOLORS :: lowestPlayableValue <= piles[k] + 1
      ensures exists k | 0 <= k < NUMCOLORS :: lowestPlayableValue == piles[k] + 1
    {
      handKnowledge := ResizedAll(handKnowledge, handSizes);
      last := LocateFixpoint(piles);
      lowestPlayableValue := LowestPlayable(piles);
    }

    /** wipeOutPlayables(card) over every hand. */
    method WipeOutPlayables(card: Card)
      requires Valid() && ValidCard(card)
      modifies this
      ensures Valid() && SameShape(handKnowledge, old(handKnowledge))
      ensures handKnowledge == WipedTable(old(handKnowledge), card)
      ensures playedCount == old(playedCount) && locatedCount == old(locatedCount)
      ensures lowestPlayableValue == old(lowestPlayableValue)
    {
      var hk := WipeAll(handKnowledge, card);
      ghost var target := WipedTable(handKnowledge, card);
      forall p | 0 <= p < |hk| ensures hk[p] == target[p] {
        assert |hk[p]| == |target[p]|;
      }
      handKnowledge := hk;
    }

    /** pleaseObserveBeforeDiscard: the discarded card is seen and its knowledge dropped. */
    method ObserveBeforeDiscard(card: Card, from: int, cardIndex: int)
      requires Valid() && ValidCard(card) && playedCount[card.color][card.value] < Count(card)
      requires 0 <= from < |handKnowledge| && 0 <= cardIndex < |handKnowledge[from]|
      modifies this
      ensures Valid()
      ensures playedCount == old(playedCount)[card.color := old(playedCount)[card.color][card.value :=
                old(playedCount)[card.color][card.value] + 1]]
      ensures handKnowledge == old(handKnowledge)[from :=
                SeqUtil.RemoveAt(old(handKnowledge)[from], cardIndex) + [FreshKnol()]]
      ensures locatedCount == old(locatedCount) && lowestPlayableValue == old(lowestPlayableValue)
    {
      SeePublicCard(card);
      InvalidateKnol(from, cardIndex);
    }

    /**
     * pleaseObserveBeforePlay: a card that lands on its pile and is not
     * valuable wipes out the playable flags it could explain; then the
     * card is seen and its knowledge dropped.
     */
    method ObserveBeforePlay(card: Card, from: int, cardIndex: int, piles: seq<int>)
      requires Valid() && ValidCard(card) && playedCount[card.color][card.value] < Count(card)
      requires GameOk(piles, playedCount)
      requires 0 <= from < |handKnowledge| && 0 <= cardIndex < |handKnowledge[from]|
      modifies this
      ensures Valid()
      ensures playedCount == old(playedCount)[card.color := old(playedCount)[card.color][card.value :=
                old(playedCount)[card.color][card.value] + 1]]
      ensures var wiped := if card.value == piles[card.color] + 1 && !HValuable(piles, old(playedCount), card)
                           then WipedTable(old(handKnowledge), card) else old(handKnowledge);
              handKnowledge == wiped[from := SeqUtil.RemoveAt(wiped[from], cardIndex) + [FreshKnol()]]
      ensures locatedCount == old(locatedCount) && lowestPlayableValue == old(lowestPlayableValue)
    {
      if card.value == piles[card.color] + 1 && !HValuable(piles, playedCount, card) {
        WipeOutPlayables(card);
      }
      SeePublicCard(card);
      InvalidateKnol(from, cardIndex);
    }

    /**
     * pleaseObserveColorHint: every touched card of the hinted player must
     * be the colour, and its value the pile's next one unless known or
     * worthless; every other card cannot be the colour.
     */
    method ObserveColorHint(to: int, color: int, touched: set<int>, piles: seq<int>)
      requires Valid() && 0 <= to < |handKnowledge| && ValidColor(color) && GameOk(piles, playedCount)
      requires permissive || piles[color] < VALUE_MAX
      modifies this
      ensures Valid()
      ensures handKnowledge == old(handKnowledge)[to :=
                ColorHintedHand(old(handKnowledge)[to], color, HintValue(piles[color], permissive), touched)]
      ensures playedCount == old(playedCount) && locatedCount == old(locatedCount)
      ensures lowestPlayableValue == old(lowestPlayableValue)
    {
      var value := piles[color] + 1;
      if permissive {
        value := if value < VALUE_MAX then value else VALUE_MAX;
      }
      var hand := ColorHintHand(handKnowledge[to], color, value, touched);
      handKnowledge := handKnowledge[to := hand];
    }

    /** nextDiscardIndex(to). */
    method NextDiscard(to: int) returns (r: int)
      requires Valid() && 0 <= to < |handKnowledge|
      ensures r == DiscardIndex(handKnowledge[to])
    {
      r := NextDiscardIndex(handKnowledge[to]);
    }

    /** bestHintForPlayer(partner): the partner's cards are visible, their knowledge is ours. */
    method BestHintForPlayer(partner: int, hand: seq<Card>, piles: seq<int>) returns (best: Hint)
      requires Valid() && 0 <= partner < |handKnowledge| && GameOk(piles, playedCount)
      requires AllValid(hand) && |hand| == |handKnowledge[partner]|
      ensures best.to == partner
      ensures BestOf(best, CANDIDATES, AvoidOf(piles, playedCount, hand, handKnowledge[partner]), piles, hand,
                     handKnowledge[partner])
    {
      best := BestHint(partner, piles, playedCount, hand, handKnowledge[partner]);
    }
  }
}
