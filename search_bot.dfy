/**
 * SearchBot's beliefs: the set of hands a player could be holding, each with
 * an unnormalised weight, enumerated from the deck composition and narrowed
 * by hints, plays, discards and draws. The weights are exact reals here.
 */
module SearchBot {
  import opened Wrappers
  import opened Hanabi
  import opened BotUtils
  import SeqUtil
  import HanabiServer

  type Hand = seq<Card>

  /** HandDist: each believed hand with its weight (the partner-bot clones stored beside it are not modelled). */
  type HandDist = map<Hand, real>

  // ---------------------------------------------------------------------------
  // populateInitialHandDistribution_
  // ---------------------------------------------------------------------------

  /** The composition after one copy of c is drawn. */
  function Drawn(d: DeckComposition, c: Card): (r: DeckComposition)
    ensures Get(r, c) == Get(d, c) - 1 && forall x | x != c :: Get(r, x) == Get(d, x)
  {
    d[c := Get(d, c) - 1]
  }

  /** s can be drawn in order from d: every card still has a positive count when it is drawn. */
  ghost predicate Drawable(d: DeckComposition, s: Hand)
    decreases |s|
  {
    s == [] || (Get(d, s[0]) > 0 && Drawable(Drawn(d, s[0]), s[1..]))
  }

  /**
   * The weight given to a hand drawn as s: the weight passed in, multiplied
   * in turn by the count of each card at the moment it is drawn.
   */
  ghost function Weight(prob: real, d: DeckComposition, s: Hand): real
    decreases |s|
  {
    if s == [] then prob else Weight(prob * Get(d, s[0]) as real, Drawn(d, s[0]), s[1..])
  }

  /** Every hand that can be drawn gets a positive weight from a positive one. */
  lemma {:induction false} DrawableWeightPositive(prob: real, d: DeckComposition, s: Hand)
    requires prob > 0.0 && Drawable(d, s)
    ensures Weight(prob, d, s) > 0.0
    decreases |s|
  {
    if s != [] {
      var a := Get(d, s[0]);
      var x := prob * a as real;
      assert x > 0.0 by {
        assert a as real > 0.0;
      }
      assert x == prob * Get(d, s[0]) as real;
      WeightUnfold(prob, d, s);
      assert Weight(prob, d, s) == Weight(x, Drawn(d, s[0]), s[1..]);
      DrawableWeightPositive(x, Drawn(d, s[0]), s[1..]);
    }
  }

  /** A hand can be drawn in order exactly when its card multiplicities fit within the deck. */
  lemma {:induction false} DrawableIffFits(d: DeckComposition, s: Hand)
    ensures Drawable(d, s) <==> CanRemove(d, s)
    decreases |s|
  {
    if s != [] {
      var c, rest := s[0], s[1..];
      assert s == [c] + rest;
      DrawableIffFits(Drawn(d, c), rest);
      assert forall x :: multiset(s)[x] == multiset(rest)[x] + (if x == c then 1 else 0);
      if CanRemove(d, s) {
        assert multiset(s)[c] <= Get(d, c);
        forall x | x in rest ensures multiset(rest)[x] <= Get(Drawn(d, c), x) {
          assert x in s;
        }
      }
      if Drawable(d, s) {
        forall x | x in s ensures multiset(s)[x] <= Get(d, x) {
          if x != c {
            assert x in rest;
          }
        }
      }
    }
  }

  /** h extends `hand` to handSize cards by an in-order draw from the deck. */
  ghost predicate Completes(h: Hand, hand: Hand, deck: DeckComposition, handSize: int) {
    |h| == handSize && |hand| <= |h| && h[..|hand|] == hand && Drawable(deck, h[|hand|..])
  }

  /** Drawing c next splits the completions of `hand` by their next card. */
  lemma CompletesStep(h: Hand, hand: Hand, deck: DeckComposition, handSize: int, c: Card)
    requires |hand| < handSize && Get(deck, c) > 0
    ensures Completes(h, hand + [c], Drawn(deck, c), handSize) <==>
              Completes(h, hand, deck, handSize) && h[|hand|] == c
  {
    var n := |hand|;
    if |h| == handSize {
      var t := h[n..];
      assert t[0] == h[n] && t[1..] == h[n + 1..];
      assert Drawable(deck, t) <==> Get(deck, h[n]) > 0 && Drawable(Drawn(deck, h[n]), h[n + 1..]);
      assert h[..n + 1] == h[..n] + [h[n]];
      PrefixSplit(h[..n], h[n], hand, c);
    }
  }

  /** The weight of a completion is the weight passed down with its next card, over the rest. */
  lemma WeightStep(prob: real, deck: DeckComposition, h: Hand, n: nat, count: int, drawn: DeckComposition)
    requires n < |h| && count == Get(deck, h[n]) && drawn == Drawn(deck, h[n])
    ensures Weight(prob, deck, h[n..]) == Weight(prob * count as real, drawn, h[n + 1..])
  {
    var t := h[n..];
    assert t[0] == h[n] && t[1..] == h[n + 1..];
    WeightUnfold(prob, deck, t);
    assert prob * Get(deck, t[0]) as real == prob * count as real;
  }

  lemma WeightUnfold(prob: real, d: DeckComposition, s: Hand)
    requires s != []
    ensures Weight(prob, d, s) == Weight(prob * Get(d, s[0]) as real, Drawn(d, s[0]), s[1..])
  {
  }

  lemma PrefixSplit(a: Hand, x: Card, b: Hand, y: Card)
    requires |a| == |b|
    ensures a + [x] == b + [y] <==> a == b && x == y
  {
    if a + [x] == b + [y] {
      assert a == (a + [x])[..|a|] && b == (b + [y])[..|b|];
      assert x == (a + [x])[|a|];
    }
  }

  /** Every completion draws a next card that is a key of the deck with a positive count. */
  lemma CompletesNext(h: Hand, hand: Hand, deck: DeckComposition, handSize: int)
    requires Completes(h, hand, deck, handSize) && |hand| < handSize
    ensures h[|hand|] in deck && deck[h[|hand|]] > 0
  {
    assert h[|hand|..][0] == h[|hand|];
  }

  /** A hand at full size completes only to itself. */
  lemma CompletesFull(h: Hand, hand: Hand, deck: DeckComposition)
    ensures Completes(h, hand, deck, |hand|) <==> h == hand
  {
    if h == hand {
      assert h[|hand|..] == [];
    }
  }

  /** A completion counted once its next card is in K (a full hand always counts). */
  ghost predicate NewBy(h: Hand, hand: Hand, deck: DeckComposition, handSize: int, K: set<Card>) {
    Completes(h, hand, deck, handSize) && (|hand| < |h| ==> h[|hand|] in K)
  }

  /**
   * dist is dist0 with every completion of `hand` whose next card is in K
   * inserted (or overwritten) at weight prob times its number of ways.
   */
  ghost predicate PopulatedBy(dist: HandDist, dist0: HandDist, hand: Hand, prob: real, deck: DeckComposition,
                              handSize: int, K: set<Card>)
  {
    (forall h :: h in dist <==> h in dist0 || NewBy(h, hand, deck, handSize, K))
    && forall h | h in dist ::
         dist[h] == if NewBy(h, hand, deck, handSize, K) then Weight(prob, deck, h[|hand|..]) else dist0[h]
  }

  /**
   * populateInitialHandDistribution_: every hand of handSize cards that
   * extends `hand` by an in-order draw from the deck is inserted with weight
   * prob times its number of ways; hand and deck are restored on return.
   */
  method Populate(hand0: Hand, prob: real, deck0: DeckComposition, handSize: int, dist0: HandDist)
    returns (hand: Hand, deck: DeckComposition, dist: HandDist)
    requires |hand0| <= handSize
    ensures hand == hand0 && deck == deck0
    ensures forall h :: h in dist <==> h in dist0 || Completes(h, hand0, deck0, handSize)
    ensures forall h | h in dist ::
              dist[h] == if Completes(h, hand0, deck0, handSize) then Weight(prob, deck0, h[|hand0|..]) else dist0[h]
    decreases handSize - |hand0|, 1
  {
    hand, deck, dist := hand0, deck0, dist0;
    if |hand| == handSize {
      dist := dist[hand := prob];
      forall h ensures Completes(h, hand0, deck0, handSize) <==> h == hand0 {
        CompletesFull(h, hand0, deck0);
      }
      assert hand0[|hand0|..] == [];
      return;
    }
    var rest := deck0.Keys;
    while rest != {}
      invariant rest <= deck0.Keys && hand == hand0 && deck == deck0
      invariant PopulatedBy(dist, dist0, hand0, prob, deck0, handSize, deck0.Keys - rest)
      decreases rest
    {
      var card :| card in rest;
      hand, deck, dist := PopulateCard(card, hand, prob, deck, handSize, dist, dist0, deck0.Keys - rest);
      rest := rest - {card};
    }
    forall h | Completes(h, hand0, deck0, handSize) ensures NewBy(h, hand0, deck0, handSize, deck0.Keys) {
      CompletesNext(h, hand0, deck0, handSize);
    }
  }

  /** One deck entry of the loop: draw the card if any copy is left, recurse, and put it back. */
  method PopulateCard(card: Card, hand0: Hand, prob: real, deck0: DeckComposition, handSize: int,
                      dist1: HandDist, ghost dist0: HandDist, ghost K: set<Card>)
    returns (hand: Hand, deck: DeckComposition, dist: HandDist)
    requires |hand0| < handSize && card in deck0 && card !in K
    requires PopulatedBy(dist1, dist0, hand0, prob, deck0, handSize, K)
    ensures hand == hand0 && deck == deck0
    ensures PopulatedBy(dist, dist0, hand0, prob, deck0, handSize, K + {card})
    decreases handSize - |hand0|, 0
  {
    hand, deck, dist := hand0, deck0, dist1;
    var count := deck[card];
    if count > 0 {
      deck := deck[card := deck[card] - 1];
      hand := hand + [card];
      assert deck == Drawn(deck0, card);
      hand, deck, dist := Populate(hand, prob * count as real, deck, handSize, dist);
      AddCardCompletions(dist, dist1, dist0, hand0, hand0 + [card], prob, deck0, Drawn(deck0, card), count,
                         handSize, K, card);
      hand := hand[..|hand| - 1];
      deck := deck[card := deck[card] + 1];
    } else {
      forall h | Completes(h, hand0, deck0, handSize) ensures h[|hand0|] != card {
        CompletesNext(h, hand0, deck0, handSize);
      }
    }
  }

  /** Inserting the completions that draw `card` next extends the covered set of next cards by `card`. */
  lemma AddCardCompletions(dist: HandDist, dist1: HandDist, dist0: HandDist, hand0: Hand, hand1: Hand, prob: real,
                           deck0: DeckComposition, drawn: DeckComposition, count: int, handSize: int,
                           K: set<Card>, card: Card)
    requires |hand0| < handSize && card !in K && count == Get(deck0, card) > 0
    requires hand1 == hand0 + [card] && drawn == Drawn(deck0, card)
    requires PopulatedBy(dist1, dist0, hand0, prob, deck0, handSize, K)
    requires forall h :: h in dist <==> h in dist1 || Completes(h, hand1, drawn, handSize)
    requires forall h | h in dist ::
               dist[h] == if Completes(h, hand1, drawn, handSize)
                          then Weight(prob * count as real, drawn, h[|hand1|..])
                          else dist1[h]
    ensures PopulatedBy(dist, dist0, hand0, prob, deck0, handSize, K + {card})
  {
    forall h ensures Completes(h, hand1, drawn, handSize) <==>
                     Completes(h, hand0, deck0, handSize) && h[|hand0|] == card
    {
      CompletesStep(h, hand0, deck0, handSize, card);
    }
    forall h | h in dist && Completes(h, hand1, drawn, handSize)
      ensures dist[h] == Weight(prob, deck0, h[|hand0|..])
    {
      var n := |hand0|;
      assert |hand1| == n + 1 && h[n] == card;
      assert dist[h] == Weight(prob * count as real, drawn, h[n + 1..]);
      WeightStep(prob, deck0, h, n, count, drawn);
    }
  }

  // ---------------------------------------------------------------------------
  // filterBeliefsConsistentWithHint_
  // ---------------------------------------------------------------------------

  /** The attribute a hint names: the colour for a colour hint, the value otherwise. */
  function HintedAttribute(kind: MoveType, c: Card): int {
    if kind == HINT_COLOR then c.color else c.value
  }

  /** A position is in a CardIndices mask: only positions 0..7 are ever reported. */
  predicate InMask(bits: set<int>, i: int) {
    0 <= i < 8 && i in bits
  }

  /** The mask of an optional CardIndices argument (null: no restriction). */
  function RelevantBits(relevant: CardIndices?): (r: Option<set<int>>)
    reads relevant
    ensures r.None? <==> relevant == null
  {
    if relevant == null then None else Some(relevant.bits)
  }

  /** Position i takes part in the test: every position, or only the relevant ones when those are given. */
  predicate Relevant(relevant: Option<set<int>>, i: int) {
    relevant.None? || InMask(relevant.value, i)
  }

  /**
   * At every relevant position the card has the hinted attribute exactly
   * when the hint touched that position.
   */
  predicate ConsistentWithHint(h: Hand, move: Move, touched: set<int>, relevant: Option<set<int>>) {
    forall i | 0 <= i < |h| && Relevant(relevant, i) ::
      InMask(touched, i) <==> HintedAttribute(move.kind, h[i]) == move.value
  }

  /** The inner loop of the filter: scan the positions and stop at the first inconsistent one. */
  method KeepHand(h: Hand, move: Move, touched: CardIndices, relevant: CardIndices?) returns (keep: bool)
    ensures keep == ConsistentWithHint(h, move, touched.bits, RelevantBits(relevant))
  {
    keep := true;
    var i := 0;
    while i < |h|
      invariant 0 <= i <= |h|
      invariant forall j | 0 <= j < i && Relevant(RelevantBits(relevant), j) ::
                  InMask(touched.bits, j) <==> HintedAttribute(move.kind, h[j]) == move.value
    {
      if relevant != null && !relevant.Contains(i) {
        i := i + 1;
        continue;
      }
      var cardValue := HintedAttribute(move.kind, h[i]);
      var consistent := if touched.Contains(i) then cardValue == move.value else cardValue != move.value;
      if !consistent {
        keep := false;
        return;
      }
      i := i + 1;
    }
  }

  /** filterBeliefsConsistentWithHint_: erases every hand the hint rules out and keeps the rest with their weights. */
  method FilterHint(move: Move, touched: CardIndices, dist0: HandDist, relevant: CardIndices?) returns (dist: HandDist)
    ensures forall h :: h in dist <==> h in dist0 && ConsistentWithHint(h, move, touched.bits, RelevantBits(relevant))
    ensures forall h | h in dist :: dist[h] == dist0[h]
  {
    dist := dist0;
    var keys := dist0.Keys;
    while keys != {}
      invariant keys <= dist0.Keys
      invariant forall h :: h in dist <==>
                  h in dist0 && (h in keys || ConsistentWithHint(h, move, touched.bits, RelevantBits(relevant)))
      invariant forall h | h in dist :: dist[h] == dist0[h]
      decreases keys
    {
      var h :| h in keys;
      var keep := KeepHand(h, move, touched, relevant);
      if !keep {
        dist := dist - {h};
      }
      keys := keys - {h};
    }
  }

  /** What FilterHint leaves: the consistent hands of dist0, at their old weights. */
  ghost predicate FilteredBy(dist: HandDist, dist0: HandDist, move: Move, touched: set<int>, relevant: Option<set<int>>) {
    (forall h :: h in dist <==> h in dist0 && ConsistentWithHint(h, move, touched, relevant))
    && forall h | h in dist :: dist[h] == dist0[h]
  }

  /**
   * The positions the server reports for a hint are consistent with the
   * hand it was given to, whatever positions are taken as relevant: the
   * true hand never fails the filter.
   */
  lemma ServerHintIsConsistent(h: Hand, move: Move, touched: set<int>, relevant: Option<set<int>>)
    requires |h| <= 8
    requires touched == if move.kind == HINT_COLOR then HanabiServer.ColorMatches(h, move.value)
                        else HanabiServer.ValueMatches(h, move.value)
    ensures ConsistentWithHint(h, move, touched, relevant)
  {
  }

  // ---------------------------------------------------------------------------
  // updateBeliefsFromMyDraw_
  // ---------------------------------------------------------------------------

  /** The hand read back from a new hand: the drawn card dropped (when one was drawn) and `played` put back at idx. */
  function Origin(nh: Hand, idx: nat, played: Card, full: bool): (h: Hand)
    requires full ==> |nh| > 0
    requires idx + (if full then 1 else 0) <= |nh|
    ensures |h| == |nh| + (if full then 0 else 1) && h[idx] == played
  {
    var base := if full then nh[..|nh| - 1] else nh;
    base[..idx] + [played] + base[idx..]
  }

  /** Origin applies to nh. */
  predicate HasOrigin(nh: Hand, idx: nat, full: bool) {
    (full ==> |nh| > 0) && idx + (if full then 1 else 0) <= |nh|
  }

  /**
   * Belief h becomes nh after this player used card idx, which was `played`:
   * h loses that card and, when a card was drawn, gains at the end a card
   * of which a copy is left once the rest of the hand is taken out of the deck.
   */
  ghost predicate DrawsFrom(nh: Hand, h: Hand, idx: nat, played: Card, deck: DeckComposition, full: bool)
    requires idx < |h|
  {
    var base := SeqUtil.RemoveAt(h, idx);
    h[idx] == played &&
    if full then |nh| == |h| && nh[..|nh| - 1] == base && Get(Removed(deck, base), nh[|nh| - 1]) > 0
    else nh == base
  }

  /** A new hand comes from exactly one old hand, the one Origin reads back. */
  lemma DrawsFromOrigin(nh: Hand, h: Hand, idx: nat, played: Card, deck: DeckComposition, full: bool)
    requires idx < |h| && DrawsFrom(nh, h, idx, played, deck, full)
    ensures HasOrigin(nh, idx, full) && Origin(nh, idx, played, full) == h
  {
    var base := SeqUtil.RemoveAt(h, idx);
    assert base[..idx] == h[..idx] && base[idx..] == h[idx + 1..];
    assert h == h[..idx] + [h[idx]] + h[idx + 1..];
  }

  /** What MyDraw leaves: every new hand of every old hand, and nothing else. */
  ghost predicate DrawnBy(dist: HandDist, dist0: HandDist, idx: nat, played: Card, deck: DeckComposition, full: bool)
    requires forall h | h in dist0 :: idx < |h|
  {
    (forall h, nh | h in dist0 && DrawsFrom(nh, h, idx, played, deck, full) :: nh in dist && dist[nh] == dist0[h])
    && forall nh | nh in dist ::
         HasOrigin(nh, idx, full) && Origin(nh, idx, played, full) in dist0
         && DrawsFrom(nh, Origin(nh, idx, played, full), idx, played, deck, full)
         && dist[nh] == dist0[Origin(nh, idx, played, full)]
  }

  /** The partial result after the old hands in `done` were handled. */
  ghost predicate DrawnUpTo(nd: HandDist, dist0: HandDist, done: set<Hand>, idx: nat, played: Card,
                            deck: DeckComposition, full: bool)
    requires forall h | h in dist0 :: idx < |h|
    requires done <= dist0.Keys
  {
    (forall h, nh | h in done && DrawsFrom(nh, h, idx, played, deck, full) :: nh in nd && nd[nh] == dist0[h])
    && forall nh | nh in nd ::
         HasOrigin(nh, idx, full) && Origin(nh, idx, played, full) in done
         && DrawsFrom(nh, Origin(nh, idx, played, full), idx, played, deck, full)
         && nd[nh] == dist0[Origin(nh, idx, played, full)]
  }

  /**
   * updateBeliefsFromMyDraw_: keeps the hands holding `played` at idx; each
   * loses that card and, when the hand is full again after the draw, is
   * extended by every card still in the deck, at its old weight.
   */
  method MyDraw(idx: nat, played: Card, deck0: DeckComposition, full: bool, dist0: HandDist)
    returns (dist: HandDist)
    requires forall h | h in dist0 :: idx < |h|
    requires forall h | h in dist0 && h[idx] == played :: CanRemove(deck0, SeqUtil.RemoveAt(h, idx))
    ensures forall h, nh | h in dist0 && DrawsFrom(nh, h, idx, played, deck0, full) :: nh in dist && dist[nh] == dist0[h]
    ensures forall nh | nh in dist ::
              HasOrigin(nh, idx, full) && Origin(nh, idx, played, full) in dist0
              && DrawsFrom(nh, Origin(nh, idx, played, full), idx, played, deck0, full)
              && dist[nh] == dist0[Origin(nh, idx, played, full)]
  {
    dist := map[];
    var deck := deck0;
    var rest := dist0.Keys;
    while rest != {}
      invariant rest <= dist0.Keys && deck == deck0
      invariant DrawnUpTo(dist, dist0, dist0.Keys - rest, idx, played, deck0, full)
      decreases rest
    {
      var h :| h in rest;
      dist, deck := DrawAndRecord(h, idx, played, deck, full, dist, dist0, dist0.Keys - rest);
      rest := rest - {h};
    }
  }

  /** One iteration of the loop over the old hands, with the partial result it extends. */
  method DrawAndRecord(h: Hand, idx: nat, played: Card, deck0: DeckComposition, full: bool, nd0: HandDist,
                       dist0: HandDist, ghost done: set<Hand>)
    returns (nd: HandDist, deck: DeckComposition)
    requires forall g | g in dist0 :: idx < |g|
    requires forall g | g in dist0 && g[idx] == played :: CanRemove(deck0, SeqUtil.RemoveAt(g, idx))
    requires done <= dist0.Keys && h in dist0 && h !in done
    requires DrawnUpTo(nd0, dist0, done, idx, played, deck0, full)
    ensures deck == deck0
    ensures DrawnUpTo(nd, dist0, done + {h}, idx, played, deck0, full)
  {
    nd, deck := DrawOne(h, dist0[h], idx, played, deck0, full, nd0);
    DrawnStep(nd, nd0, dist0, done, h, idx, played, deck0, full);
  }

  /** Adding the new hands of one more old hand extends the partial result. */
  lemma DrawnStep(nd: HandDist, nd0: HandDist, dist0: HandDist, done: set<Hand>, h: Hand, idx: nat, played: Card,
                  deck: DeckComposition, full: bool)
    requires forall g | g in dist0 :: idx < |g|
    requires done <= dist0.Keys && h in dist0 && h !in done
    requires DrawnUpTo(nd0, dist0, done, idx, played, deck, full)
    requires forall nh :: nh in nd <==> nh in nd0 || DrawsFrom(nh, h, idx, played, deck, full)
    requires forall nh | nh in nd :: nd[nh] == if DrawsFrom(nh, h, idx, played, deck, full) then dist0[h] else nd0[nh]
    ensures DrawnUpTo(nd, dist0, done + {h}, idx, played, deck, full)
  {
    forall nh | DrawsFrom(nh, h, idx, played, deck, full)
      ensures HasOrigin(nh, idx, full) && Origin(nh, idx, played, full) == h
    {
      DrawsFromOrigin(nh, h, idx, played, deck, full);
    }
    forall g, nh | g in done && DrawsFrom(nh, g, idx, played, deck, full)
      ensures !DrawsFrom(nh, h, idx, played, deck, full)
    {
      DrawsFromOrigin(nh, g, idx, played, deck, full);
    }
  }

  /** The body of the loop for one old hand h of weight w. */
  method DrawOne(h: Hand, w: real, idx: nat, played: Card, deck0: DeckComposition, full: bool, nd0: HandDist)
    returns (nd: HandDist, deck: DeckComposition)
    requires idx < |h|
    requires h[idx] == played ==> CanRemove(deck0, SeqUtil.RemoveAt(h, idx))
    ensures deck == deck0
    ensures forall nh :: nh in nd <==> nh in nd0 || DrawsFrom(nh, h, idx, played, deck0, full)
    ensures forall nh | nh in nd :: nd[nh] == if DrawsFrom(nh, h, idx, played, deck0, full) then w else nd0[nh]
  {
    nd, deck := nd0, deck0;
    if h[idx] != played {
      return;
    }
    var newHand := SeqUtil.RemoveAt(h, idx);
    deck := RemoveFromDeck(newHand, deck);
    if full {
      var rest := deck.Keys;
      while rest != {}
        invariant rest <= deck.Keys && deck == Removed(deck0, newHand)
        invariant forall nh :: nh in nd <==>
                    nh in nd0 || (DrawsFrom(nh, h, idx, played, deck0, full) && nh[|nh| - 1] !in rest)
        invariant forall nh | nh in nd ::
                    nd[nh] == if DrawsFrom(nh, h, idx, played, deck0, full) && nh[|nh| - 1] !in rest then w else nd0[nh]
        decreases rest
      {
        var card :| card in rest;
        var count := deck[card];
        if count > 0 {
          nd := nd[newHand + [card] := w];
        }
        ExtendedBy(newHand, card, h, idx, played, deck0);
        rest := rest - {card};
      }
    } else {
      nd := nd[newHand := w];
    }
    deck := AddToDeck(newHand, deck);
    RemoveThenAddRestores(deck0, newHand);
  }

  /** The full-hand extensions of one survivor are its base followed by one card of positive count. */
  lemma ExtendedBy(base: Hand, card: Card, h: Hand, idx: nat, played: Card, deck: DeckComposition)
    requires idx < |h| && h[idx] == played && base == SeqUtil.RemoveAt(h, idx)
    ensures DrawsFrom(base + [card], h, idx, played, deck, true) <==> Get(Removed(deck, base), card) > 0
    ensures forall nh | DrawsFrom(nh, h, idx, played, deck, true) && nh[|nh| - 1] == card :: nh == base + [card]
  {
    assert (base + [card])[..|base|] == base;
    forall nh | DrawsFrom(nh, h, idx, played, deck, true) && nh[|nh| - 1] == card ensures nh == base + [card] {
      assert nh == nh[..|nh| - 1] + [nh[|nh| - 1]];
    }
  }

  // ---------------------------------------------------------------------------
  // updateBeliefsFromRevealedCard_
  // ---------------------------------------------------------------------------

  /** The number of relevant positions below n of h that hold c. */
  function CopiesBelow(h: Hand, c: Card, relevant: Option<set<int>>, n: nat): nat
    requires n <= |h|
  {
    if n == 0 then 0
    else CopiesBelow(h, c, relevant, n - 1) + if Relevant(relevant, n - 1) && h[n - 1] == c then 1 else 0
  }

  /** The number of relevant positions of h that hold c. */
  function Copies(h: Hand, c: Card, relevant: Option<set<int>>): nat
  {
    CopiesBelow(h, c, relevant, |h|)
  }

  /** A hand with k copies of the revealed card keeps weight times (remaining - k) / remaining. */
  function Rescaled(p: real, remaining: int, k: int): real
    requires remaining > 0
  {
    p * (remaining - k) as real / remaining as real
  }

  /** The counting loop of updateBeliefsFromRevealedCard_. */
  method CountCopies(h: Hand, c: Card, relevant: CardIndices?) returns (inHand: nat)
    ensures inHand == Copies(h, c, RelevantBits(relevant))
  {
    inHand := 0;
    var i := 0;
    while i < |h|
      invariant 0 <= i <= |h| && inHand == CopiesBelow(h, c, RelevantBits(relevant), i)
    {
      if relevant != null && !relevant.Contains(i) {
        i := i + 1;
        continue;
      }
      if h[i] == c {
        inHand := inHand + 1;
      }
      i := i + 1;
    }
  }

  /**
   * updateBeliefsFromRevealedCard_: a hand holding k copies of the card just
   * seen drawn keeps its weight scaled by (remaining - k) / remaining, and is
   * erased when that is not positive; hands with no copy are untouched.
   */
  method RevealCard(revealed: Card, deck: DeckComposition, dist0: HandDist, relevant: CardIndices?)
    returns (dist: HandDist)
    requires Get(deck, revealed) + 1 > 0
    ensures forall h :: h in dist <==>
              h in dist0 &&
              (Copies(h, revealed, RelevantBits(relevant)) == 0 || Rescaled(dist0[h], Get(deck, revealed) + 1, Copies(h, revealed, RelevantBits(relevant))) > 0.0)
    ensures forall h | h in dist :: dist[h] ==
              if Copies(h, revealed, RelevantBits(relevant)) == 0 then dist0[h]
              else Rescaled(dist0[h], Get(deck, revealed) + 1, Copies(h, revealed, RelevantBits(relevant)))
  {
    var remaining := Get(deck, revealed) + 1;
    dist := dist0;
    var keys := dist0.Keys;
    while keys != {}
      invariant keys <= dist0.Keys
      invariant forall h :: h in dist <==>
                  h in dist0 &&
                  (h in keys || Copies(h, revealed, RelevantBits(relevant)) == 0 || Rescaled(dist0[h], remaining, Copies(h, revealed, RelevantBits(relevant))) > 0.0)
      invariant forall h | h in dist :: dist[h] ==
                  if h in keys || Copies(h, revealed, RelevantBits(relevant)) == 0 then dist0[h]
                  else Rescaled(dist0[h], remaining, Copies(h, revealed, RelevantBits(relevant)))
      decreases keys
    {
      var h :| h in keys;
      var inHand := CountCopies(h, revealed, relevant);
      if inHand > 0 {
        var newProb := Rescaled(dist[h], remaining, inHand);
        if newProb > 0.0 {
          dist := dist[h := newProb];
        } else {
          dist := dist - {h};
        }
      }
      keys := keys - {h};
    }
  }

  /** What RevealCard leaves. */
  ghost predicate RevealedBy(dist: HandDist, dist0: HandDist, revealed: Card, deck: DeckComposition,
                             relevant: Option<set<int>>)
    requires Get(deck, revealed) + 1 > 0
  {
    (forall h :: h in dist <==>
       h in dist0 &&
       (Copies(h, revealed, relevant) == 0 || Rescaled(dist0[h], Get(deck, revealed) + 1, Copies(h, revealed, relevant)) > 0.0))
    && forall h | h in dist :: dist[h] ==
         if Copies(h, revealed, relevant) == 0 then dist0[h]
         else Rescaled(dist0[h], Get(deck, revealed) + 1, Copies(h, revealed, relevant))
  }

  /**
   * A hand of positive weight holding k > 0 copies survives the reveal
   * exactly when fewer than `remaining` copies were left to draw, and its
   * weight never grows.
   */
  lemma RevealSurvivor(p: real, remaining: int, k: int)
    requires p > 0.0 && remaining > 0 && k > 0
    ensures Rescaled(p, remaining, k) > 0.0 <==> k < remaining
    ensures Rescaled(p, remaining, k) < p
  {
    var r := remaining as real;
    var q := (remaining - k) as real;
    assert q < r;
    assert Rescaled(p, remaining, k) == (p * q) / r;
    if k < remaining {
      assert p * q > 0.0;
    } else {
      assert p * q <= 0.0;
    }
    assert p * q < p * r;
  }

  // ---------------------------------------------------------------------------
  // checkBeliefs_
  // ---------------------------------------------------------------------------

  /** checkBeliefs_: passes (true) when the true hand is among the beliefs, and throws (false) when it is not. */
  method CheckBeliefs(dist: HandDist, trueHand: Hand) returns (ok: bool)
    ensures ok <==> trueHand in dist
  {
    if trueHand !in dist {
      return false;
    }
    return true;
  }

  // ---------------------------------------------------------------------------
  // The bot's belief state
  // ---------------------------------------------------------------------------

  /** SearchBot's own beliefs about its hand (the sub-bots and search state are not modelled). */
  class SearchBotImpl {
    const me: int
    var handDist: HandDist
    var inited: bool

    /** Before init_ the distribution is empty, which init_ asserts. */
    ghost predicate Valid()
      reads this
    {
      !inited ==> handDist == map[]
    }

    constructor (index: int)
      ensures me == index && handDist == map[] && !inited && Valid()
    {
      me := index;
      handDist := map[];
      inited := false;
    }

    /**
     * pleaseObserveBeforeMove's first call runs init_: every hand of
     * handSize cards the deck (as this player sees it) can supply, weighted
     * by its number of ordered draws.
     */
    method ObserveBeforeMove(deck: DeckComposition, handSize: nat)
      requires Valid()
      modifies this
      ensures Valid() && inited
      ensures old(inited) ==> handDist == old(handDist)
      ensures !old(inited) ==> (forall h :: h in handDist <==> Completes(h, [], deck, handSize))
      ensures !old(inited) ==> forall h | h in handDist :: handDist[h] == Weight(1.0, deck, h)
    {
      if !inited {
        var hand, deck1, dist := Populate([], 1.0, deck, handSize, handDist);
        assert forall h: Hand :: h[0..] == h;
        handDist := dist;
        inited := true;
      }
    }

    /** The four-argument filterBeliefsConsistentWithHint_: only a hint to this player filters, then the beliefs are checked. */
    method ObserveHint(move: Move, touched: CardIndices, trueHand: Hand) returns (ok: bool)
      requires Valid()
      modifies this
      ensures Valid()
      ensures move.to != me ==> handDist == old(handDist) && ok
      ensures move.to == me ==> forall h :: h in handDist <==> h in old(handDist) && ConsistentWithHint(h, move, touched.bits, None)
      ensures move.to == me ==> forall h | h in handDist :: handDist[h] == old(handDist)[h]
      ensures move.to == me ==> (ok <==> trueHand in handDist)
      ensures inited == old(inited)
    {
      if move.to != me {
        return true;
      }
      handDist := FilterHint(move, touched, handDist, null);
      ok := CheckBeliefs(handDist, trueHand);
    }

    /**
     * updateBeliefsFromDraw_: after this player's own play or discard the
     * beliefs follow the card used; after another player's, the card that
     * player drew (the last of a full hand) is revealed. Then the beliefs are checked.
     */
    method ObserveDraw(who: int, cardIndex: nat, played: Card, deck: DeckComposition, full: bool,
                       drawn: Card, trueHand: Hand) returns (ok: bool)
      requires who == me ==> forall h | h in handDist :: cardIndex < |h|
      requires who == me ==> forall h | h in handDist && h[cardIndex] == played ::
                 CanRemove(deck, SeqUtil.RemoveAt(h, cardIndex))
      requires who != me && full ==> Get(deck, drawn) + 1 > 0
      requires Valid()
      modifies this
      ensures Valid() && inited == old(inited)
      ensures who == me ==>
                (forall h, nh | h in old(handDist) && DrawsFrom(nh, h, cardIndex, played, deck, full) ::
                   nh in handDist && handDist[nh] == old(handDist)[h])
                && forall nh | nh in handDist ::
                     HasOrigin(nh, cardIndex, full) && Origin(nh, cardIndex, played, full) in old(handDist)
                     && DrawsFrom(nh, Origin(nh, cardIndex, played, full), cardIndex, played, deck, full)
                     && handDist[nh] == old(handDist)[Origin(nh, cardIndex, played, full)]
      ensures who != me && !full ==> handDist == old(handDist)
      ensures who != me && full ==> RevealedBy(handDist, old(handDist), drawn, deck, None)
      ensures who != me && full ==> forall h | h in handDist ::
                h in old(handDist) && (old(handDist)[h] > 0.0 ==> handDist[h] <= old(handDist)[h])
      ensures ok <==> trueHand in handDist
    {
      if who == me {
        handDist := MyDraw(cardIndex, played, deck, full, handDist);
      } else if full {
        ghost var before := handDist;
        handDist := RevealCard(drawn, deck, handDist, null);
        forall h | h in handDist && before[h] > 0.0 ensures handDist[h] <= before[h] {
          if Copies(h, drawn, None) > 0 {
            RevealSurvivor(before[h], Get(deck, drawn) + 1, Copies(h, drawn, None));
          }
        }
      }
      ok := CheckBeliefs(handDist, trueHand);
    }
  }
}
