/**
 * JointSearchBot's deferred belief frames. Each frame keeps the hand
 * distribution of a player at an earlier point of the game, together with
 * hand_map: for each position of that player's current hand, the position
 * the same card had in the frame's hand, or -1 for a card drawn since.
 * Later plays, discards, draws and hints are applied to every frame through
 * that map, and a hand found impossible in a frame is pruned from the later
 * frames it leads to.
 */
module JointSearchBot {
  import opened Wrappers
  import opened Hanabi
  import opened BotUtils
  import SeqUtil
  import opened SearchBot

  /**
   * BeliefFrame: one deferred belief update (its simulated server and the
   * partner's distribution are not modelled).
   */
  datatype BeliefFrame = BeliefFrame(frameIdx: int, move: Move, handMap: seq<int>, lastMove: Move,
                                     cheatHand: Hand, handDist: HandDist)

  /** Every entry is -1 or a slot of the frame's hand, and no slot is mapped twice. */
  predicate MapOk(handMap: seq<int>) {
    (forall j | 0 <= j < |handMap| :: -1 <= handMap[j] < |handMap|)
    && forall j, k | 0 <= j < k < |handMap| && handMap[j] != -1 :: handMap[j] != handMap[k]
  }

  /** The frame's hand slots that still hold a card of the current hand. */
  function Slots(handMap: seq<int>): set<int> {
    set j | 0 <= j < |handMap| && handMap[j] != -1 :: handMap[j]
  }

  /** The frame's slots of the current positions a hint touched. */
  function Translated(touched: set<int>, handMap: seq<int>): set<int> {
    set j | 0 <= j < |handMap| && handMap[j] != -1 && InMask(touched, j) :: handMap[j]
  }

  // ---------------------------------------------------------------------------
  // BeliefFrame::BeliefFrame
  // ---------------------------------------------------------------------------

  /**
   * The BeliefFrame constructor: hand_map starts as the identity over the
   * player's hand size and the distribution is a copy of the player's current one.
   */
  method NewFrame(frameIdx: int, move: Move, lastMove: Move, cheatHand: Hand, handSize: nat, handDist: HandDist)
    returns (f: BeliefFrame)
    ensures f.frameIdx == frameIdx && f.move == move && f.lastMove == lastMove
    ensures f.cheatHand == cheatHand && f.handDist == handDist
    ensures |f.handMap| == handSize && forall i | 0 <= i < handSize :: f.handMap[i] == i
  {
    var handMap: seq<int> := [];
    var i := 0;
    while i < handSize
      invariant 0 <= i <= handSize && |handMap| == i
      invariant forall j | 0 <= j < i :: handMap[j] == j
    {
      handMap := handMap + [i];
      i := i + 1;
    }
    f := BeliefFrame(frameIdx, move, handMap, lastMove, cheatHand, handDist);
  }

  /** A new frame's map is well formed and maps every slot. */
  lemma IdentityMapOk(handMap: seq<int>)
    requires forall i | 0 <= i < |handMap| :: handMap[i] == i
    ensures MapOk(handMap)
    ensures forall s :: s in Slots(handMap) <==> 0 <= s < |handMap|
  {
    forall s | 0 <= s < |handMap| ensures s in Slots(handMap) {
      assert handMap[s] == s;
    }
  }

  // ---------------------------------------------------------------------------
  // updateBeliefsFromDraw_: the frames of the player who drew
  // ---------------------------------------------------------------------------

  /** hand_map after the card at cardIndex is used: that entry goes, later ones move down, and -1 is appended. */
  function ShiftedMap(handMap: seq<int>, cardIndex: int): (m: seq<int>)
    requires 0 <= cardIndex < |handMap|
    ensures |m| == |handMap|
  {
    SeqUtil.RemoveAt(handMap, cardIndex) + [-1]
  }

  /**
   * The shift keeps the map well formed; the used card's slot is no longer
   * mapped and every other mapped slot still is.
   */
  lemma ShiftKeepsMapOk(handMap: seq<int>, cardIndex: int)
    requires 0 <= cardIndex < |handMap| && MapOk(handMap)
    ensures MapOk(ShiftedMap(handMap, cardIndex))
    ensures Slots(ShiftedMap(handMap, cardIndex)) == Slots(handMap) - {handMap[cardIndex]}
  {
    var m := ShiftedMap(handMap, cardIndex);
    var n := |handMap|;
    assert forall j | 0 <= j < n - 1 :: m[j] == handMap[if j < cardIndex then j else j + 1];
    assert m[n - 1] == -1;
    forall j, k | 0 <= j < k < n && m[j] != -1 ensures m[j] != m[k] {
      if k < n - 1 {
        var j', k' := if j < cardIndex then j else j + 1, if k < cardIndex then k else k + 1;
        assert j' < k' && m[j] == handMap[j'] && m[k] == handMap[k'];
      }
    }
    forall s | s in Slots(handMap) - {handMap[cardIndex]} ensures s in Slots(m) {
      var j :| 0 <= j < n && handMap[j] != -1 && handMap[j] == s;
      assert j != cardIndex;
      if j < cardIndex {
        assert m[j] == s;
      } else {
        assert m[j - 1] == s;
      }
    }
    forall s | s in Slots(m) ensures s in Slots(handMap) - {handMap[cardIndex]} {
      var j :| 0 <= j < n && m[j] != -1 && m[j] == s;
      var j' := if j < cardIndex then j else j + 1;
      assert handMap[j'] == s && j' != cardIndex;
    }
  }

  /** The frame after the draw of its player: see PruneFrame. */
  ghost predicate PrunedBy(g: BeliefFrame, f: BeliefFrame, cardIndex: int, played: Card)
    requires PrunableAt(f, cardIndex)
  {
    var slot := f.handMap[cardIndex];
    g == f.(handMap := ShiftedMap(f.handMap, cardIndex), handDist := g.handDist)
    && (slot == -1 ==> g.handDist == f.handDist)
    && (slot != -1 ==>
          (forall h :: h in g.handDist <==> h in f.handDist && h[slot] == played)
          && forall h | h in g.handDist :: g.handDist[h] == f.handDist[h])
  }

  /** What a frame demands of a draw at cardIndex: the position exists and its slot exists in every hand. */
  predicate PrunableAt(f: BeliefFrame, cardIndex: int) {
    0 <= cardIndex < |f.handMap|
    && (f.handMap[cardIndex] != -1 ==> forall h | h in f.handDist :: 0 <= f.handMap[cardIndex] < |h|)
  }

  /**
   * One frame of the loop in updateBeliefsFromDraw_: when the used card
   * already existed at the frame, the frame keeps only the hands holding the
   * played card in that card's slot; then hand_map is shifted.
   */
  method PruneFrame(f: BeliefFrame, cardIndex: int, played: Card) returns (g: BeliefFrame)
    requires PrunableAt(f, cardIndex)
    ensures PrunedBy(g, f, cardIndex, played)
  {
    var oldIndex := f.handMap[cardIndex];
    var dist := f.handDist;
    if oldIndex != -1 {
      var keys := f.handDist.Keys;
      while keys != {}
        invariant keys <= f.handDist.Keys
        invariant forall h :: h in dist <==> h in f.handDist && (h in keys || h[oldIndex] == played)
        invariant forall h | h in dist :: dist[h] == f.handDist[h]
        decreases keys
      {
        var h :| h in keys;
        if h[oldIndex] != played {
          dist := dist - {h};
        }
        keys := keys - {h};
      }
    }
    g := f.(handDist := dist, handMap := ShiftedMap(f.handMap, cardIndex));
  }

  /** The loop over the drawing player's history. */
  method PruneHistory(frames0: seq<BeliefFrame>, cardIndex: int, played: Card) returns (frames: seq<BeliefFrame>)
    requires forall i | 0 <= i < |frames0| :: PrunableAt(frames0[i], cardIndex)
    ensures |frames| == |frames0|
    ensures forall i | 0 <= i < |frames0| :: PrunedBy(frames[i], frames0[i], cardIndex, played)
  {
    frames := frames0;
    var i := 0;
    while i < |frames|
      invariant 0 <= i <= |frames| == |frames0|
      invariant forall j | 0 <= j < i :: PrunedBy(frames[j], frames0[j], cardIndex, played)
      invariant forall j | i <= j < |frames| :: frames[j] == frames0[j]
    {
      var g := PruneFrame(frames[i], cardIndex, played);
      frames := frames[i := g];
      i := i + 1;
    }
  }

  // ---------------------------------------------------------------------------
  // updateBeliefsFromDraw_: the revealed card, in every frame
  // ---------------------------------------------------------------------------

  /** Every mapped slot fits in a CardIndices mask. */
  predicate SlotsFit(handMap: seq<int>) {
    forall j | 0 <= j < |handMap| :: -1 <= handMap[j] < 32
  }

  /** The relevant_indices loop: one add() per mapped slot. */
  method MappedSlots(handMap: seq<int>) returns (relevant: CardIndices)
    requires SlotsFit(handMap)
    ensures fresh(relevant) && relevant.bits == Slots(handMap)
  {
    relevant := new CardIndices();
    var i := 0;
    while i < |handMap|
      invariant 0 <= i <= |handMap|
      invariant relevant.bits == Slots(handMap[..i])
      modifies relevant
    {
      if handMap[i] != -1 {
        relevant.Add(handMap[i]);
      }
      assert handMap[..i + 1] == handMap[..i] + [handMap[i]];
      SlotsSnoc(handMap[..i], handMap[i]);
      i := i + 1;
    }
    assert handMap[..i] == handMap;
  }

  lemma SlotsSnoc(m: seq<int>, x: int)
    ensures Slots(m + [x]) == Slots(m) + (if x != -1 then {x} else {})
  {
    var m' := m + [x];
    forall s | s in Slots(m') ensures s in Slots(m) + (if x != -1 then {x} else {}) {
      var j :| 0 <= j < |m'| && m'[j] != -1 && m'[j] == s;
      if j < |m| {
        assert m[j] == s;
      }
    }
    forall s | s in Slots(m) ensures s in Slots(m') {
      var j :| 0 <= j < |m| && m[j] != -1 && m[j] == s;
      assert m'[j] == s;
    }
    if x != -1 {
      assert m'[|m|] == x;
    }
  }

  /** Each frame of `after` is its frame of `before` with the revealed card counted at its mapped slots. */
  ghost predicate FramesRevealed(after: seq<BeliefFrame>, before: seq<BeliefFrame>, revealed: Card, deck: DeckComposition)
    requires Get(deck, revealed) + 1 > 0
  {
    |after| == |before|
    && forall i | 0 <= i < |before| ::
         after[i] == before[i].(handDist := after[i].handDist)
         && RevealedBy(after[i].handDist, before[i].handDist, revealed, deck, Some(Slots(before[i].handMap)))
  }

  predicate AllSlotsFit(frames: seq<BeliefFrame>) {
    forall i | 0 <= i < |frames| :: SlotsFit(frames[i].handMap)
  }

  /** The inner loop over a player's frames: the revealed card counted only at each frame's mapped slots. */
  method RevealFrames(frames0: seq<BeliefFrame>, revealed: Card, deck: DeckComposition) returns (frames: seq<BeliefFrame>)
    requires Get(deck, revealed) + 1 > 0 && AllSlotsFit(frames0)
    ensures FramesRevealed(frames, frames0, revealed, deck)
  {
    frames := frames0;
    var i := 0;
    while i < |frames|
      invariant 0 <= i <= |frames| == |frames0|
      invariant forall j | 0 <= j < i ::
                  frames[j] == frames0[j].(handDist := frames[j].handDist)
                  && RevealedBy(frames[j].handDist, frames0[j].handDist, revealed, deck, Some(Slots(frames0[j].handMap)))
      invariant forall j | i <= j < |frames| :: frames[j] == frames0[j]
    {
      var relevant := MappedSlots(frames[i].handMap);
      var dist := RevealCard(revealed, deck, frames[i].handDist, relevant);
      frames := frames[i := frames[i].(handDist := dist)];
      i := i + 1;
    }
  }

  /**
   * The outer loop of the reveal: every player's current distribution, with
   * no restriction, and every player's frames.
   */
  method RevealToAll(dists0: seq<HandDist>, history0: seq<seq<BeliefFrame>>, revealed: Card, deck: DeckComposition)
    returns (dists: seq<HandDist>, history: seq<seq<BeliefFrame>>)
    requires |dists0| == |history0| && Get(deck, revealed) + 1 > 0
    requires forall p | 0 <= p < |history0| :: AllSlotsFit(history0[p])
    ensures |dists| == |history| == |history0|
    ensures forall p | 0 <= p < |dists0| :: RevealedBy(dists[p], dists0[p], revealed, deck, None)
    ensures forall p | 0 <= p < |history0| :: FramesRevealed(history[p], history0[p], revealed, deck)
  {
    dists, history := dists0, history0;
    var p := 0;
    while p < |dists|
      invariant 0 <= p <= |dists| == |history| == |history0|
      invariant forall q | 0 <= q < p ::
                  RevealedBy(dists[q], dists0[q], revealed, deck, None)
                  && FramesRevealed(history[q], history0[q], revealed, deck)
      invariant forall q | p <= q < |dists| :: dists[q] == dists0[q] && history[q] == history0[q]
    {
      var dist := RevealCard(revealed, deck, dists[p], null);
      dists := dists[p := dist];
      var frames := RevealFrames(history[p], revealed, deck);
      history := history[p := frames];
      p := p + 1;
    }
  }

  // ---------------------------------------------------------------------------
  // filterBeliefsConsistentWithHint_ over the history
  // ---------------------------------------------------------------------------

  /** The loop that translates the hinted positions through hand_map, skipping unmapped ones. */
  method TranslateHint(handMap: seq<int>, touched: CardIndices) returns (hist: CardIndices, relevant: CardIndices)
    requires SlotsFit(handMap)
    ensures fresh(hist) && fresh(relevant) && hist != relevant
    ensures hist.bits == Translated(touched.bits, handMap) && relevant.bits == Slots(handMap)
  {
    hist := new CardIndices();
    relevant := new CardIndices();
    var i := 0;
    while i < |handMap|
      invariant 0 <= i <= |handMap|
      invariant relevant.bits == Slots(handMap[..i])
      invariant hist.bits == Translated(touched.bits, handMap[..i])
      modifies hist, relevant
    {
      if handMap[i] != -1 {
        relevant.Add(handMap[i]);
        if touched.Contains(i) {
          hist.Add(handMap[i]);
        }
      }
      assert handMap[..i + 1] == handMap[..i] + [handMap[i]];
      SlotsSnoc(handMap[..i], handMap[i]);
      TranslatedSnoc(touched.bits, handMap[..i], handMap[i]);
      i := i + 1;
    }
    assert handMap[..i] == handMap;
  }

  lemma TranslatedSnoc(t: set<int>, m: seq<int>, x: int)
    ensures Translated(t, m + [x]) == Translated(t, m) + (if x != -1 && InMask(t, |m|) then {x} else {})
  {
    var m' := m + [x];
    forall s | s in Translated(t, m') ensures s in Translated(t, m) + (if x != -1 && InMask(t, |m|) then {x} else {}) {
      var j :| 0 <= j < |m'| && m'[j] != -1 && InMask(t, j) && m'[j] == s;
      if j < |m| {
        assert m[j] == s;
      }
    }
    forall s | s in Translated(t, m) ensures s in Translated(t, m') {
      var j :| 0 <= j < |m| && m[j] != -1 && InMask(t, j) && m[j] == s;
      assert m'[j] == s;
    }
    if x != -1 && InMask(t, |m|) {
      assert m'[|m|] == x;
    }
  }

  /**
   * What the translated filter means: a frame hand is kept exactly when,
   * at every current position still mapped to one of its slots, its card
   * there has the hinted attribute iff the hint touched that position.
   */
  lemma TranslatedConsistency(h: Hand, move: Move, touched: set<int>, handMap: seq<int>)
    requires MapOk(handMap) && |handMap| <= 8 && |h| == |handMap|
    ensures ConsistentWithHint(h, move, Translated(touched, handMap), Some(Slots(handMap))) <==>
            forall i | 0 <= i < |handMap| && handMap[i] != -1 ::
              (InMask(touched, i) <==> HintedAttribute(move.kind, h[handMap[i]]) == move.value)
  {
    var T, S := Translated(touched, handMap), Slots(handMap);
    if ConsistentWithHint(h, move, T, Some(S)) {
      forall i | 0 <= i < |handMap| && handMap[i] != -1
        ensures InMask(touched, i) <==> HintedAttribute(move.kind, h[handMap[i]]) == move.value
      {
        var k := handMap[i];
        assert k in S;
        if k in T {
          var j :| 0 <= j < |handMap| && handMap[j] != -1 && InMask(touched, j) && handMap[j] == k;
          assert j == i;
        }
        if InMask(touched, i) {
          assert k in T;
        }
      }
    } else {
      var k :| 0 <= k < |h| && Relevant(Some(S), k) &&
               !(InMask(T, k) <==> HintedAttribute(move.kind, h[k]) == move.value);
      var i :| 0 <= i < |handMap| && handMap[i] != -1 && handMap[i] == k;
      if k in T {
        var j :| 0 <= j < |handMap| && handMap[j] != -1 && InMask(touched, j) && handMap[j] == k;
        assert j == i;
      }
      if InMask(touched, i) {
        assert k in T;
      }
    }
  }

  /** The loop over the hinted player's frames. */
  method FilterHistory(frames0: seq<BeliefFrame>, move: Move, touched: CardIndices) returns (frames: seq<BeliefFrame>)
    requires AllSlotsFit(frames0)
    ensures |frames| == |frames0|
    ensures forall i | 0 <= i < |frames0| ::
              frames[i] == frames0[i].(handDist := frames[i].handDist)
              && FilteredBy(frames[i].handDist, frames0[i].handDist, move,
                            Translated(touched.bits, frames0[i].handMap), Some(Slots(frames0[i].handMap)))
  {
    frames := frames0;
    var i := 0;
    while i < |frames|
      invariant 0 <= i <= |frames| == |frames0|
      invariant forall j | 0 <= j < i ::
                  frames[j] == frames0[j].(handDist := frames[j].handDist)
                  && FilteredBy(frames[j].handDist, frames0[j].handDist, move,
                                Translated(touched.bits, frames0[j].handMap), Some(Slots(frames0[j].handMap)))
      invariant forall j | i <= j < |frames| :: frames[j] == frames0[j]
    {
      var hist, relevant := TranslateHint(frames[i].handMap, touched);
      var dist := FilterHint(move, hist, frames[i].handDist, relevant);
      frames := frames[i := frames[i].(handDist := dist)];
      i := i + 1;
    }
  }

  // ---------------------------------------------------------------------------
  // propagatePrunedHand_
  // ---------------------------------------------------------------------------

  /** The position of my card used between frame k and the next one, or -1 when no card was drawn. */
  function DrawIndex(frames: seq<BeliefFrame>, k: int): int
    requires 0 <= k < |frames|
  {
    if k == |frames| - 1 then -1
    else
      var m := frames[k + 1].lastMove;
      if m.kind == PLAY_CARD || m.kind == DISCARD_CARD then m.value else -1
  }

  /** Every draw from frame k on uses a position of a hand of n cards. */
  predicate DrawsFit(frames: seq<BeliefFrame>, k: int, n: int) {
    forall j | 0 <= k <= j < |frames| :: DrawIndex(frames, j) == -1 || 0 <= DrawIndex(frames, j) < n
  }

  /** The distribution after frame k: the next frame's, or the current one after the last frame. */
  function NextDist(frames: seq<BeliefFrame>, current: HandDist, k: int): HandDist
    requires 0 <= k < |frames|
  {
    if k == |frames| - 1 then current else frames[k + 1].handDist
  }

  /**
   * A hand s of the next distribution that `hand` of frame k leads to: the
   * same hand when no card was drawn, otherwise the hand without the used
   * card followed by any card.
   */
  ghost predicate Successor(frames: seq<BeliefFrame>, k: int, hand: Hand, s: Hand)
    requires 0 <= k < |frames| && DrawsFit(frames, k, |hand|)
  {
    var di := DrawIndex(frames, k);
    if di == -1 then s == hand
    else |s| == |hand| && s[..|s| - 1] == SeqUtil.RemoveAt(hand, di) && ValidCard(s[|s| - 1])
  }

  predicate SubDist(a: HandDist, b: HandDist) {
    forall h | h in a :: h in b && a[h] == b[h]
  }

  /** Only hands were erased, only from the frames from `from` on and from the current distribution. */
  ghost predicate Shrunk(frames: seq<BeliefFrame>, current: HandDist, frames0: seq<BeliefFrame>, current0: HandDist,
                         from: int)
  {
    |frames| == |frames0| && SubDist(current, current0)
    && forall j | 0 <= j < |frames| ::
         frames[j] == frames0[j].(handDist := frames[j].handDist)
         && SubDist(frames[j].handDist, frames0[j].handDist)
         && (j < from ==> frames[j] == frames0[j])
  }

  lemma ShrunkTrans(f2: seq<BeliefFrame>, c2: HandDist, f1: seq<BeliefFrame>, c1: HandDist,
                    f0: seq<BeliefFrame>, c0: HandDist, from: int)
    requires Shrunk(f1, c1, f0, c0, from) && Shrunk(f2, c2, f1, c1, from)
    ensures Shrunk(f2, c2, f0, c0, from)
  {
  }

  /** Erasing hands leaves every recorded move, hence every draw index, as it was. */
  lemma ShrunkKeepsDraws(frames: seq<BeliefFrame>, current: HandDist, frames0: seq<BeliefFrame>, current0: HandDist,
                         from: int, k: int, n: int)
    requires Shrunk(frames, current, frames0, current0, from) && DrawsFit(frames0, k, n)
    ensures DrawsFit(frames, k, n)
    ensures forall j | 0 <= j < |frames| :: DrawIndex(frames, j) == DrawIndex(frames0, j)
  {
    forall j | 0 <= j < |frames| ensures DrawIndex(frames, j) == DrawIndex(frames0, j) {
      if j < |frames| - 1 {
        assert frames[j + 1].lastMove == frames0[j + 1].lastMove;
      }
    }
  }

  /**
   * The body of `if (next_hand_dist.count(s))`: erase s from the next
   * distribution and, unless frame k is the last, prune it onwards.
   */
  method EraseAndPropagate(frames0: seq<BeliefFrame>, current0: HandDist, k: nat, s: Hand)
    returns (frames: seq<BeliefFrame>, current: HandDist)
    requires k < |frames0| && DrawsFit(frames0, k + 1, |s|)
    ensures Shrunk(frames, current, frames0, current0, k + 1)
    ensures forall t :: t in NextDist(frames, current, k) <==> t in NextDist(frames0, current0, k) && t != s
    ensures s !in NextDist(frames0, current0, k) ==> frames == frames0 && current == current0
    decreases |frames0| - k, 0
  {
    frames, current := frames0, current0;
    var isLast := k == |frames| - 1;
    if s in NextDist(frames, current, k) {
      if isLast {
        current := current - {s};
      } else {
        var next := frames[k + 1];
        frames := frames[k + 1 := next.(handDist := next.handDist - {s})];
        ghost var f1, c1 := frames, current;
        ShrunkKeepsDraws(f1, c1, frames0, current0, k + 1, k + 1, |s|);
        frames, current := PropagatePrunedHand(frames, current, k + 1, s);
        ShrunkTrans(frames, current, f1, c1, frames0, current0, k + 1);
      }
    }
  }

  /**
   * propagatePrunedHand_: `hand` was found impossible at frame frameIdx, so
   * every hand it leads to in the next distribution is erased, and each one
   * that was present is pruned onwards in turn.
   */
  method PropagatePrunedHand(frames0: seq<BeliefFrame>, current0: HandDist, frameIdx: nat, hand: Hand)
    returns (frames: seq<BeliefFrame>, current: HandDist)
    requires frameIdx < |frames0| && DrawsFit(frames0, frameIdx, |hand|)
    ensures Shrunk(frames, current, frames0, current0, frameIdx + 1)
    ensures forall t :: t in NextDist(frames, current, frameIdx) <==>
              t in NextDist(frames0, current0, frameIdx) && !Successor(frames0, frameIdx, hand, t)
    ensures (forall t | Successor(frames0, frameIdx, hand, t) :: t !in NextDist(frames0, current0, frameIdx)) ==>
              frames == frames0 && current == current0
    decreases |frames0| - frameIdx, 1
  {
    frames, current := frames0, current0;
    var isLast := frameIdx == |frames| - 1;
    var myNextMove := if isLast then NO_MOVE else frames[frameIdx + 1].lastMove;
    var drawIndex := if isLast then -1
                     else if myNextMove.kind == PLAY_CARD || myNextMove.kind == DISCARD_CARD then myNextMove.value
                     else -1;
    assert drawIndex == DrawIndex(frames0, frameIdx);
    if drawIndex == -1 {
      frames, current := EraseAndPropagate(frames, current, frameIdx, hand);
    } else {
      var newHand := SeqUtil.RemoveAt(hand, drawIndex);
      var cardIdx := 0;
      while cardIdx < 25
        invariant 0 <= cardIdx <= 25
        invariant Shrunk(frames, current, frames0, current0, frameIdx + 1)
        invariant forall t :: t in NextDist(frames, current, frameIdx) <==>
                    t in NextDist(frames0, current0, frameIdx) && !PrunedBelow(frames0, frameIdx, hand, t, cardIdx)
        invariant (forall t | Successor(frames0, frameIdx, hand, t) :: t !in NextDist(frames0, current0, frameIdx)) ==>
                    frames == frames0 && current == current0
      {
        var drawn := IndexToCard(cardIdx);
        ghost var f1, c1 := frames, current;
        ShrunkKeepsDraws(f1, c1, frames0, current0, frameIdx + 1, frameIdx, |hand|);
        SuccessorAt(frames0, frameIdx, hand, newHand, cardIdx);
        frames, current := EraseAndPropagate(frames, current, frameIdx, newHand + [drawn]);
        ShrunkTrans(frames, current, f1, c1, frames0, current0, frameIdx + 1);
        cardIdx := cardIdx + 1;
      }
      forall t ensures PrunedBelow(frames0, frameIdx, hand, t, 25) == Successor(frames0, frameIdx, hand, t) {
        SuccessorIndexed(frames0, frameIdx, hand, t);
      }
    }
  }

  /** t is a successor whose drawn card has an index below n. */
  ghost predicate PrunedBelow(frames: seq<BeliefFrame>, k: int, hand: Hand, t: Hand, n: int)
    requires 0 <= k < |frames| && DrawsFit(frames, k, |hand|)
  {
    Successor(frames, k, hand, t) && |t| > 0 && CardToIndex(t[|t| - 1]) < n
  }

  /** The successor erased for card index n is the only one whose drawn card has that index. */
  lemma SuccessorAt(frames: seq<BeliefFrame>, k: int, hand: Hand, newHand: Hand, n: int)
    requires 0 <= k < |frames| && DrawsFit(frames, k, |hand|) && DrawIndex(frames, k) != -1
    requires newHand == SeqUtil.RemoveAt(hand, DrawIndex(frames, k)) && 0 <= n < 25
    ensures forall t :: PrunedBelow(frames, k, hand, t, n + 1) <==>
              PrunedBelow(frames, k, hand, t, n) || t == newHand + [IndexToCard(n)]
  {
    forall t ensures PrunedBelow(frames, k, hand, t, n + 1) <==>
                     PrunedBelow(frames, k, hand, t, n) || t == newHand + [IndexToCard(n)]
    {
      SuccessorAtOne(frames, k, hand, newHand, n, t);
    }
  }

  lemma SuccessorAtOne(frames: seq<BeliefFrame>, k: int, hand: Hand, newHand: Hand, n: int, t: Hand)
    requires 0 <= k < |frames| && DrawsFit(frames, k, |hand|) && DrawIndex(frames, k) != -1
    requires newHand == SeqUtil.RemoveAt(hand, DrawIndex(frames, k)) && 0 <= n < 25
    ensures PrunedBelow(frames, k, hand, t, n + 1) <==>
            PrunedBelow(frames, k, hand, t, n) || t == newHand + [IndexToCard(n)]
  {
    NewSuccessor(frames, k, hand, newHand, n);
    if PrunedBelow(frames, k, hand, t, n + 1) && CardToIndex(t[|t| - 1]) == n {
      SuccessorOfIndex(frames, k, hand, newHand, n, t);
    }
  }

  /** The hand with card n drawn is a successor whose drawn card has index n. */
  lemma NewSuccessor(frames: seq<BeliefFrame>, k: int, hand: Hand, newHand: Hand, n: int)
    requires 0 <= k < |frames| && DrawsFit(frames, k, |hand|) && DrawIndex(frames, k) != -1
    requires newHand == SeqUtil.RemoveAt(hand, DrawIndex(frames, k)) && 0 <= n < 25
    ensures PrunedBelow(frames, k, hand, newHand + [IndexToCard(n)], n + 1)
    ensures !PrunedBelow(frames, k, hand, newHand + [IndexToCard(n)], n)
  {
    var u := newHand + [IndexToCard(n)];
    IndexCardRoundTrip(n);
    assert u[..|u| - 1] == newHand;
  }

  /** A successor whose drawn card has index n is the hand with card n drawn. */
  lemma SuccessorOfIndex(frames: seq<BeliefFrame>, k: int, hand: Hand, newHand: Hand, n: int, t: Hand)
    requires 0 <= k < |frames| && DrawsFit(frames, k, |hand|) && DrawIndex(frames, k) != -1
    requires newHand == SeqUtil.RemoveAt(hand, DrawIndex(frames, k)) && 0 <= n < 25
    requires Successor(frames, k, hand, t) && |t| > 0 && CardToIndex(t[|t| - 1]) == n
    ensures t == newHand + [IndexToCard(n)]
  {
    var last := t[|t| - 1];
    assert t[..|t| - 1] == newHand;
    CardIndexRoundTrip(last);
    SeqUtil.SplitLast(t);
  }

  /** When a card was drawn, every successor's drawn card has an index below 25. */
  lemma SuccessorIndexed(frames: seq<BeliefFrame>, k: int, hand: Hand, t: Hand)
    requires 0 <= k < |frames| && DrawsFit(frames, k, |hand|) && DrawIndex(frames, k) != -1
    ensures PrunedBelow(frames, k, hand, t, 25) == Successor(frames, k, hand, t)
  {
  }

  // ---------------------------------------------------------------------------
  // The bot
  // ---------------------------------------------------------------------------

  /** JointSearchBot's beliefs: every player's current distribution and every player's frames. */
  class JointSearchBotImpl {
    const me: int
    const numPlayers: int
    var handDists: seq<HandDist>
    var history: seq<seq<BeliefFrame>>

    constructor Init(index: int, players: nat)
      ensures me == index && numPlayers == players
      ensures handDists == [] && |history| == players && forall p | 0 <= p < players :: history[p] == []
    {
      me := index;
      numPlayers := players;
      handDists := [];
      history := seq(players, _ => []);
    }

    /** The constructor: joint search throws for more than two players (null here). */
    static method Create(index: int, players: nat) returns (bot: JointSearchBotImpl?)
      ensures bot == null <==> players > 2
      ensures bot != null ==> fresh(bot) && bot.me == index && bot.numPlayers == players
                              && bot.handDists == [] && |bot.history| == players
                              && forall p | 0 <= p < players :: bot.history[p] == []
    {
      if players > 2 {
        return null;
      }
      bot := new JointSearchBotImpl.Init(index, players);
    }

    /**
     * updateBeliefsFromDraw_: the drawing player's distribution follows the
     * card used (against the public deck), each of that player's frames drops
     * the hands contradicting it and shifts its map, and then the card is
     * revealed to every player's distribution and every frame.
     */
    method ObserveDraw(who: int, cardIndex: nat, played: Card, publicDeck: DeckComposition, full: bool)
      returns (ghost drawn: HandDist, ghost pruned: seq<BeliefFrame>)
      requires 0 <= who < |handDists| == |history|
      requires forall h | h in handDists[who] :: cardIndex < |h|
      requires forall h | h in handDists[who] && h[cardIndex] == played ::
                 CanRemove(publicDeck, SeqUtil.RemoveAt(h, cardIndex))
      requires forall i | 0 <= i < |history[who]| :: PrunableAt(history[who][i], cardIndex)
      requires forall p | 0 <= p < |history| :: AllSlotsFit(history[p])
      requires Get(publicDeck, played) + 1 > 0
      modifies this
      ensures DrawnBy(drawn, old(handDists[who]), cardIndex, played, publicDeck, full)
      ensures |pruned| == |old(history[who])|
              && forall i | 0 <= i < |pruned| :: PrunedBy(pruned[i], old(history[who][i]), cardIndex, played)
      ensures |handDists| == |history| == old(|history|)
      ensures forall p | 0 <= p < |handDists| ::
                RevealedBy(handDists[p], if p == who then drawn else old(handDists[p]), played, publicDeck, None)
      ensures forall p | 0 <= p < |history| ::
                FramesRevealed(history[p], if p == who then pruned else old(history[p]), played, publicDeck)
    {
      var afterDraw := MyDraw(cardIndex, played, publicDeck, full, handDists[who]);
      drawn := afterDraw;
      var frames := PruneHistory(history[who], cardIndex, played);
      pruned := frames;
      forall i | 0 <= i < |frames| ensures SlotsFit(frames[i].handMap) {
        var m := history[who][i].handMap;
        assert SlotsFit(m) && frames[i].handMap == ShiftedMap(m, cardIndex);
      }
      handDists, history := RevealToAll(handDists[who := afterDraw], history[who := frames], played, publicDeck);
    }

    /**
     * The joint filterBeliefsConsistentWithHint_: each frame of the hinted
     * player is filtered with the hint translated through its hand_map, then
     * that player's current distribution with the hint as given.
     */
    method ObserveHint(move: Move, touched: CardIndices)
      requires 0 <= move.to < |handDists| == |history|
      requires AllSlotsFit(history[move.to])
      modifies this
      ensures |handDists| == |history| == old(|history|)
      ensures forall p | 0 <= p < |history| && p != move.to :: history[p] == old(history[p]) && handDists[p] == old(handDists[p])
      ensures FilteredBy(handDists[move.to], old(handDists[move.to]), move, touched.bits, None)
      ensures |history[move.to]| == |old(history[move.to])|
      ensures forall i | 0 <= i < |history[move.to]| ::
                var f := old(history[move.to][i]);
                history[move.to][i] == f.(handDist := history[move.to][i].handDist)
                && FilteredBy(history[move.to][i].handDist, f.handDist, move,
                              Translated(touched.bits, f.handMap), Some(Slots(f.handMap)))
    {
      var frames := FilterHistory(history[move.to], move, touched);
      history := history[move.to := frames];
      var dist := FilterHint(move, touched, handDists[move.to], null);
      handDists := handDists[move.to := dist];
    }

    /** propagatePrunedHand_ on player who's frames and current distribution. */
    method PropagatePruned(who: int, frameIdx: nat, hand: Hand)
      requires 0 <= who < |handDists| == |history|
      requires frameIdx < |history[who]| && DrawsFit(history[who], frameIdx, |hand|)
      modifies this
      ensures |handDists| == |history| == old(|history|)
      ensures forall p | 0 <= p < |history| && p != who :: history[p] == old(history[p]) && handDists[p] == old(handDists[p])
      ensures Shrunk(history[who], handDists[who], old(history[who]), old(handDists[who]), frameIdx + 1)
      ensures forall t :: t in NextDist(history[who], handDists[who], frameIdx) <==>
                t in NextDist(old(history[who]), old(handDists[who]), frameIdx)
                && !Successor(old(history[who]), frameIdx, hand, t)
    {
      var frames, current := PropagatePrunedHand(history[who], handDists[who], frameIdx, hand);
      history := history[who := frames];
      handDists := handDists[who := current];
    }
  }
}
