/**
 * The information bot's hint encoding and its public knowledge: the
 * decoding of a hint under the three- and four-way strategies, the search
 * for useless cards, and the per-player public possibility tables that
 * hints, plays and discards narrow.
 */
module InfoBot {
  import opened Wrappers
  import opened Hanabi
  import HanabiServer
  import opened InfoTables
  import opened InfoContainers
  import SeqUtil
  import InfoView

  /** MAXHANDSIZE: the capacity of a HandInfo. */
  const MAX_HAND_SIZE := 5

  /** Hinted: the colour is set for a colour hint, the value for a value hint, the other is -1. */
  datatype Hinted = Hinted(kind: HintKind, color: int, value: int)

  /** A hint and the player it was given to. */
  datatype Hint = Hint(hinted: Hinted, to: int)

  function MakeHinted(kind: HintKind, k: int): (h: Hinted)
    ensures h.kind == kind
    ensures kind == COLOR ==> h.color == k && h.value == -1
    ensures kind == VALUE ==> h.value == k && h.color == -1
  {
    match kind
    case COLOR => Hinted(COLOR, k, -1)
    case VALUE => Hinted(VALUE, -1, k)
  }

  function WithColor(k: int): Hinted { MakeHinted(COLOR, k) }

  function WithValue(v: int): Hinted { MakeHinted(VALUE, v) }

  /** The positions of the hand a hint touches. */
  function Touched(hand: seq<Card>, h: Hinted): set<int> {
    if h.kind == COLOR then HanabiServer.ColorMatches(hand, h.color) else HanabiServer.ValueMatches(hand, h.value)
  }

  /** The hint names the colour or the value of some card of the hand. */
  predicate FromHand(hand: seq<Card>, h: Hinted) {
    exists i | 0 <= i < |hand| :: h == WithColor(hand[i].color) || h == WithValue(hand[i].value)
  }

  /** A hint naming a colour or value of the hand touches at least one of its cards, so the server accepts it. */
  lemma FromHandTouches(hand: seq<Card>, h: Hinted)
    requires FromHand(hand, h)
    ensures Touched(hand, h) != {}
  {
    var i :| 0 <= i < |hand| && (h == WithColor(hand[i].color) || h == WithValue(hand[i].value));
    assert i in Touched(hand, h);
  }

  // ---------------------------------------------------------------------------
  // HintStrategy3 / HintStrategy4
  // ---------------------------------------------------------------------------

  /**
   * HintStrategy3::decode_hint: 0 for a value hint touching the chosen
   * card, 1 for a colour hint touching it, 2 for a hint missing it.
   */
  function DecodeHint3(h: Hinted, cardIndices: CardIndices, cardIndex: int): (r: int)
    reads cardIndices
    ensures 0 <= r < 3
    ensures r == 2 <==> !cardIndices.Contains(cardIndex)
    ensures r == 0 <==> cardIndices.Contains(cardIndex) && h.kind == VALUE
  {
    if cardIndices.Contains(cardIndex) then
      if h.kind == VALUE then 0 else 1
    else 2
  }

  /**
   * HintStrategy4::decode_hint: as the three-way decoding, but a hint
   * missing the chosen card is 2 for a value hint and 3 for a colour hint.
   */
  function DecodeHint4(h: Hinted, cardIndices: CardIndices, cardIndex: int): (r: int)
    reads cardIndices
    ensures 0 <= r < 4
    ensures r < 2 <==> cardIndices.Contains(cardIndex)
    ensures r % 2 == 0 <==> h.kind == VALUE
  {
    if cardIndices.Contains(cardIndex) then
      if h.kind == VALUE then 0 else 1
    else
      if h.kind == VALUE then 2 else 3
  }

  /** The hints one card of the hand contributes to answer 2 (three-way): its colour, then its value, where they differ. */
  function CardCalls3(card: Card, hintCard: Card): seq<Hinted> {
    (if card.color != hintCard.color then [WithColor(card.color)] else [])
    + (if card.value != hintCard.value then [WithValue(card.value)] else [])
  }

  /** The hints for answer 2 (three-way), card by card in hand order. */
  function OtherCalls3(hand: seq<Card>, hintCard: Card): seq<Hinted>
    decreases |hand|
  {
    if hand == [] then [] else OtherCalls3(hand[..|hand| - 1], hintCard) + CardCalls3(hand[|hand| - 1], hintCard)
  }

  /** A hint naming a feature of a hand's prefix names a feature of the hand. */
  lemma FromHandGrows(init: seq<Card>, hand: seq<Card>, h: Hinted)
    requires |init| <= |hand| && init == hand[..|init|]
    requires FromHand(init, h)
    ensures FromHand(hand, h)
  {
    var k :| 0 <= k < |init| && (h == WithColor(init[k].color) || h == WithValue(init[k].value));
    assert hand[k] == init[k];
  }

  /** Every hint of `calls` comes from the hand and avoids the chosen card's colour, or its value. */
  predicate Sound3(hand: seq<Card>, hintCard: Card, calls: seq<Hinted>) {
    && (forall j | 0 <= j < |calls| :: calls[j].kind == COLOR ==> calls[j].color != hintCard.color)
    && (forall j | 0 <= j < |calls| :: calls[j].kind == VALUE ==> calls[j].value != hintCard.value)
    && (forall j | 0 <= j < |calls| :: FromHand(hand, calls[j]))
  }

  /** Every hint for answer 2 (three-way) comes from the hand and avoids the chosen card's colour, or its value. */
  lemma {:induction false} OtherCalls3Sound(hand: seq<Card>, hintCard: Card)
    ensures Sound3(hand, hintCard, OtherCalls3(hand, hintCard))
    decreases |hand|
  {
    if hand != [] {
      var init := hand[..|hand| - 1];
      var last := hand[|hand| - 1];
      var front := OtherCalls3(init, hintCard);
      OtherCalls3Sound(init, hintCard);
      assert Sound3(init, hintCard, front);
      var calls := front + CardCalls3(last, hintCard);
      assert init == hand[..|init|];
      forall j | 0 <= j < |calls|
        ensures calls[j].kind == COLOR ==> calls[j].color != hintCard.color
        ensures calls[j].kind == VALUE ==> calls[j].value != hintCard.value
        ensures FromHand(hand, calls[j])
      {
        if j < |front| {
          assert calls[j] == front[j];
          assert FromHand(init, front[j]);
          FromHandGrows(init, hand, front[j]);
        } else {
          var m := j - |front|;
          assert calls[j] == CardCalls3(last, hintCard)[m];
          if last.color != hintCard.color && m == 0 {
            assert calls[j] == WithColor(hand[|hand| - 1].color);
          } else {
            assert calls[j] == WithValue(hand[|hand| - 1].value) && last.value != hintCard.value;
          }
        }
      }
    }
  }

  /** Every colour and every value of the hand that the chosen card lacks is offered for answer 2 (three-way). */
  lemma {:induction false} OtherCalls3Covers(hand: seq<Card>, hintCard: Card)
    ensures var calls := OtherCalls3(hand, hintCard);
      && (forall i | 0 <= i < |hand| && hand[i].color != hintCard.color :: WithColor(hand[i].color) in calls)
      && (forall i | 0 <= i < |hand| && hand[i].value != hintCard.value :: WithValue(hand[i].value) in calls)
    decreases |hand|
  {
    if hand != [] {
      var init := hand[..|hand| - 1];
      var last := hand[|hand| - 1];
      OtherCalls3Covers(init, hintCard);
      var front := OtherCalls3(init, hintCard);
      var tail := CardCalls3(last, hintCard);
      var calls := front + tail;
      forall i | 0 <= i < |hand| && hand[i].color != hintCard.color
        ensures WithColor(hand[i].color) in calls
      {
        if i < |init| {
          assert hand[i] == init[i];
        } else {
          assert WithColor(last.color) in tail;
        }
      }
      forall i | 0 <= i < |hand| && hand[i].value != hintCard.value
        ensures WithValue(hand[i].value) in calls
      {
        if i < |init| {
          assert hand[i] == init[i];
        } else {
          assert WithValue(last.value) in tail;
        }
      }
    }
  }

  /** The hints encode_hint offers for answer 2 (three-way): every colour and value of the hand the chosen card lacks. */
  method OtherHints3(hand: seq<Card>, hintCard: Card) returns (calls: seq<Hinted>)
    ensures calls == OtherCalls3(hand, hintCard)
    ensures forall j | 0 <= j < |calls| :: calls[j].kind == COLOR ==> calls[j].color != hintCard.color
    ensures forall j | 0 <= j < |calls| :: calls[j].kind == VALUE ==> calls[j].value != hintCard.value
    ensures forall i | 0 <= i < |hand| && hand[i].color != hintCard.color :: WithColor(hand[i].color) in calls
    ensures forall i | 0 <= i < |hand| && hand[i].value != hintCard.value :: WithValue(hand[i].value) in calls
    ensures forall j | 0 <= j < |calls| :: FromHand(hand, calls[j])
  {
    calls := [];
    var i := 0;
    while i < |hand|
      invariant 0 <= i <= |hand|
      invariant calls == OtherCalls3(hand[..i], hintCard)
    {
      var card := hand[i];
      assert hand[..i + 1][..i] == hand[..i];
      if card.color != hintCard.color {
        calls := calls + [WithColor(card.color)];
      }
      if card.value != hintCard.value {
        calls := calls + [WithValue(card.value)];
      }
      i := i + 1;
    }
    assert hand[..i] == hand;
    OtherCalls3Sound(hand, hintCard);
    OtherCalls3Covers(hand, hintCard);
  }

  /**
   * HintStrategy3::encode_hint: the hints that carry answer `hintType`,
   * in the order they are offered. Every one of them, given to this hand,
   * decodes to that answer (types beyond 1 all mean answer 2).
   */
  method EncodeHint3(hand: seq<Card>, cardIndex: int, hintType: int) returns (calls: seq<Hinted>)
    requires 0 <= cardIndex < |hand| <= MAX_HAND_SIZE
    ensures hintType == 0 ==> calls == [WithValue(hand[cardIndex].value)]
    ensures hintType == 1 ==> calls == [WithColor(hand[cardIndex].color)]
    ensures forall j, ci: CardIndices | 0 <= j < |calls| && ci.bits == Touched(hand, calls[j]) ::
              DecodeHint3(calls[j], ci, cardIndex) == (if hintType == 0 || hintType == 1 then hintType else 2)
    ensures forall j | 0 <= j < |calls| :: FromHand(hand, calls[j])
  {
    var hintCard := hand[cardIndex];
    if hintType == 0 {
      calls := [WithValue(hintCard.value)];
    } else if hintType == 1 {
      calls := [WithColor(hintCard.color)];
    } else {
      calls := OtherHints3(hand, hintCard);
    }
  }

  /** The hint one card contributes to answer 2 (values) or 3 (colours) of the four-way strategy. */
  function CardCalls4(card: Card, hintCard: Card, kind: HintKind): seq<Hinted> {
    if kind == VALUE && card.value != hintCard.value then [WithValue(card.value)]
    else if kind == COLOR && card.color != hintCard.color then [WithColor(card.color)]
    else []
  }

  /** The hints for answer 2 or 3 (four-way), card by card in hand order. */
  function OtherCalls4(hand: seq<Card>, hintCard: Card, kind: HintKind): seq<Hinted>
    decreases |hand|
  {
    if hand == [] then []
    else OtherCalls4(hand[..|hand| - 1], hintCard, kind) + CardCalls4(hand[|hand| - 1], hintCard, kind)
  }

  /** Every hint of `calls` is of the asked kind, avoids the chosen card's feature of that kind and comes from the hand. */
  predicate Sound4(hand: seq<Card>, hintCard: Card, kind: HintKind, calls: seq<Hinted>) {
    && (forall j | 0 <= j < |calls| :: calls[j].kind == kind)
    && (forall j | 0 <= j < |calls| :: kind == COLOR ==> calls[j].color != hintCard.color)
    && (forall j | 0 <= j < |calls| :: kind == VALUE ==> calls[j].value != hintCard.value)
    && (forall j | 0 <= j < |calls| :: FromHand(hand, calls[j]))
  }

  /** Every hint for answer 2 or 3 (four-way) is of the asked kind, avoids the chosen card's feature of that kind and comes from the hand. */
  lemma {:induction false} OtherCalls4Sound(hand: seq<Card>, hintCard: Card, kind: HintKind)
    ensures Sound4(hand, hintCard, kind, OtherCalls4(hand, hintCard, kind))
    decreases |hand|
  {
    if hand != [] {
      var init := hand[..|hand| - 1];
      var last := hand[|hand| - 1];
      var front := OtherCalls4(init, hintCard, kind);
      OtherCalls4Sound(init, hintCard, kind);
      assert Sound4(init, hintCard, kind, front);
      var calls := front + CardCalls4(last, hintCard, kind);
      assert init == hand[..|init|];
      forall j | 0 <= j < |calls|
        ensures calls[j].kind == kind
        ensures kind == COLOR ==> calls[j].color != hintCard.color
        ensures kind == VALUE ==> calls[j].value != hintCard.value
        ensures FromHand(hand, calls[j])
      {
        if j < |front| {
          assert calls[j] == front[j];
          assert FromHand(init, front[j]);
          FromHandGrows(init, hand, front[j]);
        } else {
          assert calls[j] == CardCalls4(last, hintCard, kind)[0];
          if kind == VALUE {
            assert calls[j] == WithValue(hand[|hand| - 1].value) && last.value != hintCard.value;
          } else {
            assert calls[j] == WithColor(hand[|hand| - 1].color) && last.color != hintCard.color;
          }
        }
      }
    }
  }

  /** Every feature of the asked kind that the hand has and the chosen card lacks is offered for answer 2 or 3 (four-way). */
  lemma {:induction false} OtherCalls4Covers(hand: seq<Card>, hintCard: Card, kind: HintKind)
    ensures var calls := OtherCalls4(hand, hintCard, kind);
      && (kind == COLOR ==> forall i | 0 <= i < |hand| && hand[i].color != hintCard.color :: WithColor(hand[i].color) in calls)
      && (kind == VALUE ==> forall i | 0 <= i < |hand| && hand[i].value != hintCard.value :: WithValue(hand[i].value) in calls)
    decreases |hand|
  {
    if hand != [] {
      var init := hand[..|hand| - 1];
      var last := hand[|hand| - 1];
      OtherCalls4Covers(init, hintCard, kind);
      var front := OtherCalls4(init, hintCard, kind);
      var tail := CardCalls4(last, hintCard, kind);
      var calls := front + tail;
      if kind == COLOR {
        forall i | 0 <= i < |hand| && hand[i].color != hintCard.color
          ensures WithColor(hand[i].color) in calls
        {
          if i < |init| {
            assert hand[i] == init[i];
          } else {
            assert WithColor(last.color) in tail;
          }
        }
      }
      if kind == VALUE {
        forall i | 0 <= i < |hand| && hand[i].value != hintCard.value
          ensures WithValue(hand[i].value) in calls
        {
          if i < |init| {
            assert hand[i] == init[i];
          } else {
            assert WithValue(last.value) in tail;
          }
        }
      }
    }
  }

  /** The hints encode_hint offers for answer 2 or 3 (four-way): the values, or the colours, the chosen card lacks. */
  method OtherHints4(hand: seq<Card>, hintCard: Card, kind: HintKind) returns (calls: seq<Hinted>)
    ensures calls == OtherCalls4(hand, hintCard, kind)
    ensures forall j | 0 <= j < |calls| :: calls[j].kind == kind
    ensures forall j | 0 <= j < |calls| :: kind == COLOR ==> calls[j].color != hintCard.color
    ensures forall j | 0 <= j < |calls| :: kind == VALUE ==> calls[j].value != hintCard.value
    ensures kind == COLOR ==> forall i | 0 <= i < |hand| && hand[i].color != hintCard.color :: WithColor(hand[i].color) in calls
    ensures kind == VALUE ==> forall i | 0 <= i < |hand| && hand[i].value != hintCard.value :: WithValue(hand[i].value) in calls
    ensures forall j | 0 <= j < |calls| :: FromHand(hand, calls[j])
  {
    calls := [];
    var i := 0;
    while i < |hand|
      invariant 0 <= i <= |hand|
      invariant calls == OtherCalls4(hand[..i], hintCard, kind)
    {
      var card := hand[i];
      assert hand[..i + 1][..i] == hand[..i];
      if kind == VALUE && card.value != hintCard.value {
        calls := calls + [WithValue(card.value)];
      } else if kind == COLOR && card.color != hintCard.color {
        calls := calls + [WithColor(card.color)];
      }
      i := i + 1;
    }
    assert hand[..i] == hand;
    OtherCalls4Sound(hand, hintCard, kind);
    OtherCalls4Covers(hand, hintCard, kind);
  }

  /**
   * HintStrategy4::encode_hint: the hints that carry answer `hintType`;
   * each of them, given to this hand, decodes to that answer (types beyond
   * 2 all mean answer 3).
   */
  method EncodeHint4(hand: seq<Card>, cardIndex: int, hintType: int) returns (calls: seq<Hinted>)
    requires 0 <= cardIndex < |hand| <= MAX_HAND_SIZE
    ensures hintType == 0 ==> calls == [WithValue(hand[cardIndex].value)]
    ensures hintType == 1 ==> calls == [WithColor(hand[cardIndex].color)]
    ensures forall j, ci: CardIndices | 0 <= j < |calls| && ci.bits == Touched(hand, calls[j]) ::
              DecodeHint4(calls[j], ci, cardIndex) == (if 0 <= hintType <= 2 then hintType else 3)
    ensures forall j | 0 <= j < |calls| :: FromHand(hand, calls[j])
  {
    var hintCard := hand[cardIndex];
    if hintType == 0 {
      calls := [WithValue(hintCard.value)];
    } else if hintType == 1 {
      calls := [WithColor(hintCard.color)];
    } else if hintType == 2 {
      calls := OtherHints4(hand, hintCard, VALUE);
    } else {
      calls := OtherHints4(hand, hintCard, COLOR);
    }
  }

  // ---------------------------------------------------------------------------
  // find_useless_cards
  // ---------------------------------------------------------------------------

  /** The card a table is determined as, if it leaves exactly one possible. */
  ghost function DetOf(t: seq<seq<int>>): Option<Card>
    requires Shaped(t)
  {
    if exists c :: DeterminedAs(t, c) then Some(var c :| DeterminedAs(t, c); c) else None
  }

  /** The outcome of Determined is DetOf, since a determined table names one card. */
  lemma DeterminedIsDetOf(t: seq<seq<int>>, r: Option<Card>)
    requires Shaped(t)
    requires r.Some? ==> DeterminedAs(t, r.value)
    requires r.None? ==> forall c :: !DeterminedAs(t, c)
    ensures r == DetOf(t)
  {
  }

  predicate ShapedHand(hand: seq<seq<seq<int>>>) {
    forall i | 0 <= i < |hand| :: Shaped(hand[i])
  }

  /** What each slot's table is determined as. */
  ghost function Dets(hand: seq<seq<seq<int>>>): (d: seq<Option<Card>>)
    requires ShapedHand(hand)
    ensures |d| == |hand| && forall i | 0 <= i < |hand| :: d[i] == DetOf(hand[i])
  {
    seq(|hand|, i requires 0 <= i < |hand| => DetOf(hand[i]))
  }

  /** Slots i and j are both live and determined as the same card. */
  predicate SameDetermined(dets: seq<Option<Card>>, dead: seq<bool>, i: int, j: int)
    requires |dead| == |dets| && 0 <= i < |dets| && 0 <= j < |dets|
  {
    !dead[i] && !dead[j] && dets[i].Some? && dets[i] == dets[j]
  }

  /**
   * Among the first n slots, x is useless: surely dead, or determined as
   * the same card as another live slot.
   */
  predicate UselessUpTo(dets: seq<Option<Card>>, dead: seq<bool>, n: int, x: int)
    requires |dead| == |dets| && 0 <= n <= |dets|
  {
    0 <= x < n && (dead[x] || exists j | 0 <= j < n && j != x :: SameDetermined(dets, dead, x, j))
  }

  /**
   * The `seen` map after n slots: zero for a card no live slot below n is
   * determined as, otherwise one more than such a slot.
   */
  ghost predicate SeenAfter(dets: seq<Option<Card>>, dead: seq<bool>, n: int, seen: seq<seq<int>>)
    requires |dead| == |dets| && 0 <= n <= |dets|
  {
    Shaped(seen)
    && (forall c | ValidCard(c) && Cell(seen, c) == 0 :: forall j | 0 <= j < n :: dead[j] || dets[j] != Some(c))
    && (forall c | ValidCard(c) && Cell(seen, c) != 0 ::
          1 <= Cell(seen, c) <= n && !dead[Cell(seen, c) - 1] && dets[Cell(seen, c) - 1] == Some(c))
  }

  /** Every element of `s` lies in 0 .. n-1. */
  predicate Below(s: seq<int>, n: int) {
    forall i | 0 <= i < |s| :: 0 <= s[i] < n
  }

  /** A distinct list of indices below n that lacks t, itself below n, has room for t. */
  lemma RoomFor(s: seq<int>, t: int, n: nat)
    requires Distinct(s) && Below(s, n) && 0 <= t < n && t !in s
    ensures |s| < n
  {
    var s' := s + [t];
    assert Below(s', n);
    DistinctBound(s', n);
  }

  /** useless.insert(t) for an index below n <= MAX_HAND_SIZE: the set gains t and nothing else. */
  method InsertIndex(useless: FixedCapacitySet<int>, t: int, n: int)
    requires useless.Valid() && useless.elements.cap == MAX_HAND_SIZE && Distinct(useless.Elems())
    requires Below(useless.Elems(), n) && 0 <= t < n <= MAX_HAND_SIZE
    modifies useless.elements, useless.elements.buffer
    ensures useless.Valid() && Distinct(useless.Elems()) && Below(useless.Elems(), n)
    ensures forall x :: x in useless.Elems() <==> x in old(useless.Elems()) || x == t
  {
    ghost var before := useless.Elems();
    if t !in before {
      RoomFor(before, t, n);
    }
    useless.Insert(t);
    InsertedProperties(before, t);
    assert forall k | 0 <= k < |useless.Elems()| :: useless.Elems()[k] in useless.Elems();
  }

  /** std::sort over distinct indices below n: the members of `xs` in 0 .. n-1, ascending. */
  function Ascending(xs: seq<int>, n: nat): (r: seq<int>)
    ensures forall y :: y in r <==> y in xs && 0 <= y < n
    ensures forall i, j | 0 <= i < j < |r| :: r[i] < r[j]
    ensures forall i | 0 <= i < |r| :: 0 <= r[i] < n
  {
    if n == 0 then []
    else
      var r := Ascending(xs, n - 1);
      if n - 1 in xs then r + [n - 1] else r
  }

  /** One iteration of find_useless_cards, for slot i. */
  method VisitSlot(hand: seq<seq<seq<int>>>, dead: seq<bool>, i: int, useless: FixedCapacitySet<int>, seen0: seq<seq<int>>,
                   ghost dets: seq<Option<Card>>)
    returns (seen: seq<seq<int>>)
    requires ShapedHand(hand) && |dead| == |hand| <= MAX_HAND_SIZE && 0 <= i < |hand|
    requires |dets| == |hand| && dets[i] == DetOf(hand[i])
    requires useless.Valid() && useless.elements.cap == MAX_HAND_SIZE && Distinct(useless.Elems())
    requires Below(useless.Elems(), i) && forall x :: x in useless.Elems() <==> UselessUpTo(dets, dead, i, x)
    requires SeenAfter(dets, dead, i, seen0)
    modifies useless.elements, useless.elements.buffer
    ensures useless.Valid() && Distinct(useless.Elems()) && Below(useless.Elems(), i + 1)
    ensures forall x :: x in useless.Elems() <==> UselessUpTo(dets, dead, i + 1, x)
    ensures SeenAfter(dets, dead, i + 1, seen)
  {
    seen := seen0;
    if dead[i] {
      InsertIndex(useless, i, i + 1);
      DeadStep(dets, dead, i);
      SeenStep(dets, dead, i, seen0);
    } else {
      var d := Determined(hand[i]);
      DeterminedIsDetOf(hand[i], d);
      if d.Some? {
        var c := d.value;
        if seen[c.color][c.value] != 0 {
          var j0 := seen[c.color][c.value] - 1;
          ghost var before := useless.Elems();
          InsertIndex(useless, i, i + 1);
          ghost var middle := useless.Elems();
          InsertIndex(useless, j0, i + 1);
          assert forall x :: x in useless.Elems() <==> x in before || x == i || x == j0 by {
            assert forall x :: x in middle <==> x in before || x == i;
          }
          UsefulStep(dets, dead, i, j0);
          SeenStep(dets, dead, i, seen0);
        } else {
          seen := seen[c.color := seen[c.color][c.value := i + 1]];
          FreshStep(dets, dead, i, c);
          FreshSeen(dets, dead, i, c, seen0);
        }
      } else {
        NoneStep(dets, dead, i);
        SeenStep(dets, dead, i, seen0);
      }
    }
  }

  /** A dead slot makes itself useless and nothing else. */
  lemma DeadStep(dets: seq<Option<Card>>, dead: seq<bool>, i: int)
    requires |dead| == |dets| && 0 <= i < |dets| && dead[i]
    ensures forall x :: UselessUpTo(dets, dead, i + 1, x) <==> UselessUpTo(dets, dead, i, x) || x == i
  {
    forall x | UselessUpTo(dets, dead, i, x)
      ensures UselessUpTo(dets, dead, i + 1, x)
    {
      if !dead[x] {
        var j :| 0 <= j < i && j != x && SameDetermined(dets, dead, x, j);
      }
    }
  }

  /** A live slot determined as no card makes nothing useless. */
  lemma NoneStep(dets: seq<Option<Card>>, dead: seq<bool>, i: int)
    requires |dead| == |dets| && 0 <= i < |dets| && !dead[i] && dets[i].None?
    ensures forall x :: UselessUpTo(dets, dead, i + 1, x) <==> UselessUpTo(dets, dead, i, x)
  {
    forall x | UselessUpTo(dets, dead, i, x)
      ensures UselessUpTo(dets, dead, i + 1, x)
    {
      if !dead[x] {
        var j :| 0 <= j < i && j != x && SameDetermined(dets, dead, x, j);
      }
    }
    forall x | UselessUpTo(dets, dead, i + 1, x)
      ensures UselessUpTo(dets, dead, i, x)
    {
      if !dead[x] {
        var j :| 0 <= j < i + 1 && j != x && SameDetermined(dets, dead, x, j);
        assert j != i && x != i;
      }
    }
  }

  /** When slot i adds no card to `seen`, the map already describes the first i + 1 slots. */
  lemma SeenStep(dets: seq<Option<Card>>, dead: seq<bool>, i: int, seen: seq<seq<int>>)
    requires |dead| == |dets| && 0 <= i < |dets| && SeenAfter(dets, dead, i, seen)
    requires dead[i] || dets[i].None? || (ValidCard(dets[i].value) && Cell(seen, dets[i].value) != 0)
    ensures SeenAfter(dets, dead, i + 1, seen)
  {
  }

  /** Recording slot i as the first live slot determined as c keeps `seen` exact. */
  lemma FreshSeen(dets: seq<Option<Card>>, dead: seq<bool>, i: int, c: Card, seen: seq<seq<int>>)
    requires |dead| == |dets| && 0 <= i < |dets| && ValidCard(c)
    requires SeenAfter(dets, dead, i, seen) && Cell(seen, c) == 0
    requires !dead[i] && dets[i] == Some(c)
    ensures SeenAfter(dets, dead, i + 1, seen[c.color := seen[c.color][c.value := i + 1]])
  {
    var seen' := seen[c.color := seen[c.color][c.value := i + 1]];
    assert forall d | ValidCard(d) && d != c :: Cell(seen', d) == Cell(seen, d);
  }

  /** A live slot i determined as the card of an earlier live slot j0 makes exactly i and j0 newly useless. */
  lemma UsefulStep(dets: seq<Option<Card>>, dead: seq<bool>, i: int, j0: int)
    requires |dead| == |dets| && 0 <= j0 < i < |dets|
    requires SameDetermined(dets, dead, i, j0)
    ensures forall x :: UselessUpTo(dets, dead, i + 1, x) <==> UselessUpTo(dets, dead, i, x) || x == i || x == j0
  {
    forall x | UselessUpTo(dets, dead, i + 1, x) && x != i && x != j0
      ensures UselessUpTo(dets, dead, i, x)
    {
      if !dead[x] {
        var j :| 0 <= j < i + 1 && j != x && SameDetermined(dets, dead, x, j);
        if j == i {
          assert SameDetermined(dets, dead, x, j0);
          assert UselessUpTo(dets, dead, i, x);
        }
      }
    }
    forall x | UselessUpTo(dets, dead, i, x)
      ensures UselessUpTo(dets, dead, i + 1, x)
    {
      if !dead[x] {
        var j :| 0 <= j < i && j != x && SameDetermined(dets, dead, x, j);
      }
    }
    assert SameDetermined(dets, dead, j0, i);
    assert UselessUpTo(dets, dead, i + 1, j0);
    assert SameDetermined(dets, dead, i, j0);
    assert UselessUpTo(dets, dead, i + 1, i);
  }

  /** A live slot determined as a card no earlier live slot has adds nothing useless. */
  lemma FreshStep(dets: seq<Option<Card>>, dead: seq<bool>, i: int, c: Card)
    requires |dead| == |dets| && 0 <= i < |dets| && ValidCard(c)
    requires forall j | 0 <= j < i :: dead[j] || dets[j] != Some(c)
    requires !dead[i] && dets[i] == Some(c)
    ensures forall x :: UselessUpTo(dets, dead, i + 1, x) <==> UselessUpTo(dets, dead, i, x)
  {
    forall x | UselessUpTo(dets, dead, i, x)
      ensures UselessUpTo(dets, dead, i + 1, x)
    {
      if !dead[x] {
        var j :| 0 <= j < i && j != x && SameDetermined(dets, dead, x, j);
      }
    }
    forall x | UselessUpTo(dets, dead, i + 1, x)
      ensures UselessUpTo(dets, dead, i, x)
    {
      if !dead[x] {
        var j :| 0 <= j < i + 1 && j != x && SameDetermined(dets, dead, x, j);
        assert j != i && x != i;
      }
    }
  }

  /**
   * find_useless_cards: the slots that are surely dead, and every live
   * slot determined as the same card as another live slot, in ascending
   * order without repetition. Whether a slot is surely dead
   * (probability_is_dead == 1.0) is given as `dead`.
   */
  method FindUselessCards(dead: seq<bool>, hand: seq<seq<seq<int>>>) returns (r: seq<int>)
    requires ShapedHand(hand) && |dead| == |hand| <= MAX_HAND_SIZE
    ensures forall x :: x in r <==> UselessUpTo(Dets(hand), dead, |hand|, x)
    ensures forall i, j | 0 <= i < j < |r| :: r[i] < r[j]
  {
    var useless := new FixedCapacitySet<int>(MAX_HAND_SIZE);
    var seen := ZeroTable();
    ghost var dets := Dets(hand);
    var i := 0;
    while i < |hand|
      invariant 0 <= i <= |hand|
      invariant useless.Valid() && useless.elements.cap == MAX_HAND_SIZE && Distinct(useless.Elems())
      invariant Below(useless.Elems(), i) && forall x :: x in useless.Elems() <==> UselessUpTo(dets, dead, i, x)
      invariant SeenAfter(dets, dead, i, seen)
      invariant fresh(useless.elements) && fresh(useless.elements.buffer)
      modifies useless.elements, useless.elements.buffer
    {
      seen := VisitSlot(hand, dead, i, useless, seen, dets);
      i := i + 1;
    }
    var vec := [];
    var k := 0;
    while k < useless.Size()
      invariant 0 <= k <= useless.elements.size && vec == useless.Elems()[..k]
    {
      vec := vec + [useless.elements.At(k)];
      k := k + 1;
    }
    assert vec == useless.Elems();
    r := Ascending(vec, |hand|);
  }

  // ---------------------------------------------------------------------------
  // InfoBotImpl: the public possibility tables
  // ---------------------------------------------------------------------------

  /**
   * A table consistent with the public counts: shaped, never negative, and
   * no card allowed more copies than remain unaccounted for.
   */
  ghost predicate Consistent(t: seq<seq<int>>, cc: CardCounts)
    requires Shaped(cc.seen)
  {
    Shaped(t) && NonNegative(t)
    && forall c | ValidCard(c) && Cell(t, c) > 0 :: Cell(t, c) <= Remaining(cc, c)
  }

  /** No card has been counted more often than it has copies. */
  ghost predicate CountsPossible(cc: CardCounts) {
    Shaped(cc.seen) && NonNegative(cc.seen) && forall c | ValidCard(c) :: Remaining(cc, c) >= 0
  }

  /** The number a hint names: its colour or its value. */
  function Named(h: Hinted): int {
    if h.kind == COLOR then h.color else h.value
  }

  /** A hand of tables after update_public_info_for_hint: slot i learns whether card_indices contains i. */
  function MarkedHand(hand: seq<seq<seq<int>>>, h: Hinted, bits: set<int>): (r: seq<seq<seq<int>>>)
    requires ShapedHand(hand)
    ensures |r| == |hand| && ShapedHand(r)
  {
    seq(|hand|, i requires 0 <= i < |hand| => Marked(hand[i], h.kind, Named(h), 0 <= i < 8 && i in bits))
  }

  /** Every table of one hand after decrement_weight_if_possible(c). */
  function DecrementedHand(hand: seq<seq<seq<int>>>, c: Card): (r: seq<seq<seq<int>>>)
    requires ValidCard(c) && ShapedHand(hand)
    ensures |r| == |hand| && ShapedHand(r)
  {
    seq(|hand|, i requires 0 <= i < |hand| => DecrementWeightIfPossible(hand[i], c))
  }

  /** Every table of every hand after decrement_weight_if_possible(c). */
  function DecrementedAll(info: seq<seq<seq<seq<int>>>>, c: Card): (r: seq<seq<seq<seq<int>>>>)
    requires ValidCard(c) && forall p | 0 <= p < |info| :: ShapedHand(info[p])
    ensures |r| == |info| && forall p | 0 <= p < |info| :: |r[p]| == |info[p]| && ShapedHand(r[p])
  {
    seq(|info|, p requires 0 <= p < |info| => DecrementedHand(info[p], c))
  }

  /** A fresh table counts every copy, which is consistent with nothing counted yet. */
  lemma NewTableConsistent(t: seq<seq<int>>)
    requires Shaped(t) && NonNegative(t) && forall c | ValidCard(c) :: Cell(t, c) == Count(c)
    ensures Consistent(t, CardCounts(ZeroTable()))
  {
  }

  /** A hint only zeroes cells, so a consistent table stays consistent. */
  lemma MarkedConsistent(t: seq<seq<int>>, cc: CardCounts, kind: HintKind, x: int, yes: bool)
    requires Shaped(cc.seen) && Consistent(t, cc)
    ensures Consistent(Marked(t, kind, x, yes), cc)
  {
    MarkedMeaning(t, kind, x, yes);
    var r := Marked(t, kind, x, yes);
    forall c | ValidCard(c) && Cell(r, c) > 0
      ensures Cell(r, c) <= Remaining(cc, c)
    {
      assert Cell(r, c) == Cell(t, c);
    }
  }

  /**
   * Seeing card c lowers its remaining copies by one and every table's
   * count of c by one (where positive), so consistency is kept.
   */
  lemma {:induction false} DecrementConsistent(t: seq<seq<int>>, cc: CardCounts, c: Card)
    requires Shaped(cc.seen) && ValidCard(c) && Consistent(t, cc)
    ensures Consistent(DecrementWeightIfPossible(t, c), InfoTables.Increment(cc, c))
  {
    var r := DecrementWeightIfPossible(t, c);
    var cc' := InfoTables.Increment(cc, c);
    forall d | ValidCard(d) && Cell(r, d) > 0
      ensures Cell(r, d) <= Remaining(cc', d)
    {
      if d != c {
        assert Cell(r, d) == Cell(t, d);
      }
    }
  }

  /** from(public_counts) is consistent with the counts it was built from, while none is overdrawn. */
  lemma TableOfConsistent(cc: CardCounts)
    requires CountsPossible(cc)
    ensures Consistent(TableOf(cc), cc)
  {
    var t := TableOf(cc);
    forall k, v | 0 <= k < NUMCOLORS && 0 <= v <= VALUE_MAX
      ensures t[k][v] >= 0
    {
      if 1 <= v {
        assert Remaining(cc, Card(k, v)) >= 0;
      }
    }
  }

  /**
   * A truthful hint keeps every slot's true card possible: marking the
   * tables with the positions the hint really touches rules out no card
   * that is actually there.
   */
  lemma {:induction false} TruthfulHintKeepsCards(tables: seq<seq<seq<int>>>, hand: seq<Card>, h: Hinted)
    requires ShapedHand(tables) && |tables| == |hand| <= MAX_HAND_SIZE && AllValid(hand)
    requires forall i | 0 <= i < |hand| :: NonNegative(tables[i]) && IsPossible(tables[i], hand[i])
    ensures forall i | 0 <= i < |hand| :: IsPossible(MarkedHand(tables, h, Touched(hand, h))[i], hand[i])
  {
    var bits := Touched(hand, h);
    forall i | 0 <= i < |hand|
      ensures IsPossible(MarkedHand(tables, h, bits)[i], hand[i])
    {
      var yes := 0 <= i < 8 && i in bits;
      MarkedMeaning(tables[i], h.kind, Named(h), yes);
      assert !RuledOut(h.kind, Named(h), yes, hand[i].color, hand[i].value);
    }
  }

  /** One player's public HandInfo built by the sized constructor: handSize fresh tables. */
  method NewHandInfo(handSize: int) returns (hand: seq<seq<seq<int>>>)
    requires 0 <= handSize <= MAX_HAND_SIZE
    ensures |hand| == handSize && ShapedHand(hand)
    ensures forall i, c | 0 <= i < handSize && ValidCard(c) :: Cell(hand[i], c) == Count(c)
    ensures forall i | 0 <= i < handSize :: Consistent(hand[i], CardCounts(ZeroTable()))
  {
    var t := NewTable();
    NewTableConsistent(t);
    hand := seq(handSize, _ => t);
  }

  /** InfoBotImpl: the bot's seat, and what every player publicly knows of their own hand. */
  class InfoBotImpl {
    const me: int
    const numPlayers: int
    var publicInfo: seq<seq<seq<seq<int>>>>
    /** What any newly drawn card could be: the cards publicly seen so far. */
    var publicCounts: CardCounts
    var lastView: InfoView.GameView
    const permissive: bool

    /**
     * The public tables: one hand per player, at most MAX_HAND_SIZE
     * tables each, and outside permissive mode every table consistent
     * with the public counts.
     */
    ghost predicate Valid()
      reads this
    {
      |publicInfo| == numPlayers && Shaped(publicCounts.seen)
      && (forall p | 0 <= p < numPlayers :: |publicInfo[p]| <= MAX_HAND_SIZE && ShapedHand(publicInfo[p]))
      && (!permissive ==>
            CountsPossible(publicCounts)
            && forall p, i | 0 <= p < numPlayers && 0 <= i < |publicInfo[p]| :: Consistent(publicInfo[p][i], publicCounts))
    }

    /** The constructor: each player starts with handSize tables allowing every copy of every card. */
    constructor (index: int, numPlayers: int, handSize: int, permissive: bool)
      requires 0 <= numPlayers && 0 <= handSize <= MAX_HAND_SIZE
      ensures Valid() && me == index && this.numPlayers == numPlayers && this.permissive == permissive
      ensures publicCounts == CardCounts(ZeroTable()) && lastView == InfoView.InitialView(numPlayers, handSize)
      ensures forall p | 0 <= p < numPlayers :: |publicInfo[p]| == handSize
      ensures forall p, i, c | 0 <= p < numPlayers && 0 <= i < handSize && ValidCard(c) :: Cell(publicInfo[p][i], c) == Count(c)
    {
      me := index;
      this.numPlayers := numPlayers;
      this.permissive := permissive;
      publicCounts := CardCounts(ZeroTable());
      lastView := InfoView.InitialView(numPlayers, handSize);
      var hand := NewHandInfo(handSize);
      var info := [];
      var i := 0;
      while i < numPlayers
        invariant 0 <= i <= numPlayers && |info| == i
        invariant forall p | 0 <= p < i :: info[p] == hand
      {
        info := info + [hand];
        i := i + 1;
      }
      publicInfo := info;
    }

    /**
     * update_public_info_for_hint: every table of the hinted player is
     * marked with the hint, touched or not; nothing else changes.
     */
    method UpdatePublicInfoForHint(hint: Hint, cardIndices: CardIndices)
      requires Valid() && 0 <= hint.to < numPlayers
      modifies this
      ensures Valid() && publicCounts == old(publicCounts) && lastView == old(lastView)
      ensures publicInfo == old(publicInfo)[hint.to := MarkedHand(old(publicInfo)[hint.to], hint.hinted, cardIndices.bits)]
    {
      var info := publicInfo[hint.to];
      var h := hint.hinted;
      var marked := MarkHand(info, h, cardIndices);
      if !permissive {
        forall j | 0 <= j < |info|
          ensures Consistent(marked[j], publicCounts)
        {
          MarkedConsistent(info[j], publicCounts, h.kind, Named(h), 0 <= j < 8 && j in cardIndices.bits);
        }
      }
      publicInfo := publicInfo[hint.to := marked];
    }

    /**
     * update_public_info_for_discard_or_play: the played or discarded
     * slot is erased from the player's tables, a table for the
     * replacement is pushed while the deck is not empty (built before the
     * card is counted), every table of every player loses one copy of the
     * card, and the card is counted. The source asserts the slot could be
     * the card unless in permissive mode.
     */
    method UpdatePublicInfoForDiscardOrPlay(player: int, index: int, card: Card)
      requires Valid() && 0 <= player < numPlayers && 0 <= index < |publicInfo[player]| && ValidCard(card)
      requires permissive || IsPossible(publicInfo[player][index], card)
      modifies this
      ensures Valid() && lastView == old(lastView)
      ensures publicCounts == InfoTables.Increment(old(publicCounts), card)
      ensures publicInfo == DecrementedAll(old(publicInfo)[player :=
                SeqUtil.RemoveAt(old(publicInfo)[player], index) + (if lastView.deckSize != 0 then [TableOf(old(publicCounts))] else [])], card)
    {
      var info := SeqUtil.RemoveAt(publicInfo[player], index);
      ghost var erased := info;
      if lastView.deckSize != 0 {
        var t := FromCounts(publicCounts);
        info := info + [t];
        assert info == erased + [TableOf(publicCounts)];
      } else {
        assert info == erased + [];
      }
      var all := publicInfo[player := info];
      if !permissive {
        ConsistentBeforeCount(publicCounts, publicInfo[player][index], card);
        TableOfConsistent(publicCounts);
      }
      var result := DecrementAll(all, card);
      if !permissive {
        forall p, i | 0 <= p < |all| && 0 <= i < |all[p]|
          ensures Consistent(result[p][i], InfoTables.Increment(publicCounts, card))
        {
          DecrementConsistent(all[p][i], publicCounts, card);
        }
        CountsStayPossible(publicCounts, publicInfo[player][index], card);
      }
      publicInfo := result;
      publicCounts := InfoTables.Increment(publicCounts, card);
    }
  }

  /** A card some consistent table allows has a copy left to count. */
  lemma ConsistentBeforeCount(cc: CardCounts, t: seq<seq<int>>, c: Card)
    requires CountsPossible(cc) && Consistent(t, cc) && IsPossible(t, c)
    ensures Remaining(cc, c) >= 1
  {
  }

  /** Counting a card with a copy left keeps every count within its copies. */
  lemma CountsStayPossible(cc: CardCounts, t: seq<seq<int>>, c: Card)
    requires CountsPossible(cc) && Consistent(t, cc) && IsPossible(t, c)
    ensures CountsPossible(InfoTables.Increment(cc, c))
  {
    var cc' := InfoTables.Increment(cc, c);
    forall d | ValidCard(d)
      ensures Remaining(cc', d) >= 0
    {
      if d != c {
        assert Cell(cc'.seen, d) == Cell(cc.seen, d);
      }
    }
    forall k, v | 0 <= k < NUMCOLORS && 0 <= v <= VALUE_MAX
      ensures cc'.seen[k][v] >= 0
    {
      if 1 <= v && (k != c.color || v != c.value) {
        assert cc'.seen[k][v] == Cell(cc'.seen, Card(k, v)) == Cell(cc.seen, Card(k, v));
      }
    }
  }

  /** The loop of update_public_info_for_hint over one hand's tables. */
  method MarkHand(info: seq<seq<seq<int>>>, h: Hinted, cardIndices: CardIndices) returns (marked: seq<seq<seq<int>>>)
    requires ShapedHand(info)
    ensures marked == MarkedHand(info, h, cardIndices.bits)
  {
    marked := [];
    var i := 0;
    while i < |info|
      invariant 0 <= i <= |info| && |marked| == i
      invariant forall j | 0 <= j < i :: marked[j] == MarkedHand(info, h, cardIndices.bits)[j]
    {
      var t;
      if h.kind == COLOR {
        t := MarkColor(info[i], h.color, cardIndices.Contains(i));
      } else {
        t := MarkValue(info[i], h.value, cardIndices.Contains(i));
      }
      marked := marked + [t];
      i := i + 1;
    }
  }

  /** One hand's tables after decrement_weight_if_possible(c), slot by slot. */
  method DecrementHand(hand: seq<seq<seq<int>>>, c: Card) returns (r: seq<seq<seq<int>>>)
    requires ShapedHand(hand) && ValidCard(c)
    ensures r == DecrementedHand(hand, c)
  {
    r := [];
    var i := 0;
    while i < |hand|
      invariant 0 <= i <= |hand| && |r| == i
      invariant forall j | 0 <= j < i :: r[j] == DecrementWeightIfPossible(hand[j], c)
    {
      r := r + [DecrementWeightIfPossible(hand[i], c)];
      i := i + 1;
    }
  }

  /** The loop over every player's tables in update_public_info_for_discard_or_play. */
  method DecrementAll(info: seq<seq<seq<seq<int>>>>, c: Card) returns (r: seq<seq<seq<seq<int>>>>)
    requires ValidCard(c) && forall p | 0 <= p < |info| :: ShapedHand(info[p])
    ensures r == DecrementedAll(info, c)
  {
    r := [];
    var p := 0;
    while p < |info|
      invariant 0 <= p <= |info| && |r| == p
      invariant forall q | 0 <= q < p :: r[q] == DecrementedAll(info, c)[q]
    {
      var hand := DecrementHand(info[p], c);
      r := r + [hand];
      p := p + 1;
    }
  }
}
