/**
 * FactorizedBeliefs: for each of five hand slots, how many copies of each of
 * the 25 cards it may still be, together with the colours and ranks revealed
 * for that slot. The source keeps each of these in a TwoBitArray word; since
 * such a word behaves as thirty-two independent cells (TwoBits.CellsWithField),
 * a word is modelled here by its cells 0..24, the ones the source uses. Slot
 * i's counts are the row counts[i] (cell cardToIndex(c) for card c); slot
 * i's revealed colours or ranks are cells 5i..5i+4 of the revealed rows.
 */
module BotBeliefs {
  import opened Wrappers
  import opened Hanabi
  import opened HanabiServer
  import opened BotUtils
  import opened SeqUtil

  const SLOTS := 5
  const CELLS := 25

  /** A word's used cells: 25 of them, each a 2-bit value. */
  predicate IsRow(row: seq<int>) {
    |row| == CELLS && forall k | 0 <= k < CELLS :: 0 <= row[k] < 4
  }

  predicate IsTable(rows: seq<seq<int>>) {
    |rows| == SLOTS && forall i | 0 <= i < SLOTS :: IsRow(rows[i])
  }

  /** A word whose used cells are all zero. */
  function ZeroRow(): seq<int> {
    seq(CELLS, k => 0)
  }

  /** Cell k of slot i's five cells. */
  function SlotCell(row: seq<int>, i: int, k: int): int
    requires |row| == CELLS && 0 <= i < SLOTS && 0 <= k < 5
  {
    row[5 * i + k]
  }

  // ---------------------------------------------------------------------------
  // checkSum
  // ---------------------------------------------------------------------------

  /** The sum of the first n cells of slot `card`'s five (cells 5·card onwards). */
  function PartialRowSum(row: seq<int>, card: int, n: int): int
    requires |row| == CELLS && 0 <= card < SLOTS && 0 <= n <= 5
  {
    if n == 0 then 0 else PartialRowSum(row, card, n - 1) + SlotCell(row, card, n - 1)
  }

  function RowSum(row: seq<int>, card: int): int
    requires |row| == CELLS && 0 <= card < SLOTS
  {
    PartialRowSum(row, card, 5)
  }

  /** checkSum: whether the five cells of slot `card` add up to expectVal. */
  method CheckSum(arr: seq<int>, card: int, expectVal: int) returns (ok: bool)
    requires |arr| == CELLS && 0 <= card < SLOTS
    ensures ok <==> RowSum(arr, card) == expectVal
  {
    var sum := 0;
    var size := 5;
    var i := 0;
    while i < size
      invariant 0 <= i <= 5 && size == 5
      invariant sum == PartialRowSum(arr, card, i)
    {
      sum := sum + SlotCell(arr, card, i);
      i := i + 1;
    }
    ok := sum == expectVal;
  }

  /** Five cells whose only non-zero one holds 1 sum to 1. */
  lemma {:induction false} RowSumOfSingle(row: seq<int>, card: int, col: int, n: int)
    requires |row| == CELLS && 0 <= card < SLOTS && 0 <= col < 5 && 0 <= n <= 5
    requires SlotCell(row, card, col) == 1
    requires forall k | 0 <= k < 5 && k != col :: SlotCell(row, card, k) == 0
    ensures PartialRowSum(row, card, n) == if col < n then 1 else 0
    decreases n
  {
    if n > 0 {
      RowSumOfSingle(row, card, col, n - 1);
    }
  }

  // ---------------------------------------------------------------------------
  // The loops over cells
  // ---------------------------------------------------------------------------

  /** The innermost constructor loop: cell j of each slot gets n below the hand size, else 0. */
  method SetColumn(rows0: seq<seq<int>>, j: int, hs: int, n: int) returns (rows: seq<seq<int>>)
    requires IsTable(rows0) && 0 <= j < CELLS && 0 <= n < 4
    ensures IsTable(rows)
    ensures forall i | 0 <= i < SLOTS :: rows[i] == rows0[i][j := if i < hs then n else 0]
  {
    rows := rows0;
    for i := 0 to SLOTS
      invariant |rows| == SLOTS
      invariant forall r | 0 <= r < SLOTS :: rows[r] == if r < i then rows0[r][j := if r < hs then n else 0] else rows0[r]
    {
      rows := rows[i := rows[i][j := if i < hs then n else 0]];
    }
  }

  /** What the constructor puts in cell j of slot i: the deck's count of card j below the hand size, else 0. */
  function InitialCell(deck: DeckComposition, hs: int, i: int, j: int): int {
    if i < hs && IndexToCard(j) in deck then deck[IndexToCard(j)] else 0
  }

  /** Cells 0 .. k - 1 of every slot hold their initial counts. */
  predicate CountsBelow(rows: seq<seq<int>>, deck: DeckComposition, hs: int, k: int) {
    IsTable(rows) && 0 <= k <= CELLS
    && forall i, j | 0 <= i < SLOTS && 0 <= j < k :: rows[i][j] == InitialCell(deck, hs, i, j)
  }

  /** Setting column k as SetColumn does extends CountsBelow by one cell. */
  lemma CountsStep(rows0: seq<seq<int>>, rows: seq<seq<int>>, deck: DeckComposition, hs: int, k: int)
    requires CountsBelow(rows0, deck, hs, k) && k < CELLS && IndexToCard(k) in deck && IsTable(rows)
    requires forall i | 0 <= i < SLOTS :: rows[i] == rows0[i][k := if i < hs then deck[IndexToCard(k)] else 0]
    ensures CountsBelow(rows, deck, hs, k + 1)
  {
    forall i, j | 0 <= i < SLOTS && 0 <= j < k + 1
      ensures rows[i][j] == InitialCell(deck, hs, i, j)
    {
      assert rows[i] == rows0[i][k := if i < hs then deck[IndexToCard(k)] else 0];
      if j < k {
        assert rows[i][j] == rows0[i][j];
      }
    }
  }

  /** The value loop of the constructor for colour c: the colour's five cells. */
  method CountColor(rows0: seq<seq<int>>, deck: DeckComposition, hs: int, c: int) returns (rows: seq<seq<int>>)
    requires forall card | ValidCard(card) :: card in deck && 0 <= deck[card] < 4
    requires 0 <= c < NUMCOLORS && CountsBelow(rows0, deck, hs, 5 * c)
    ensures CountsBelow(rows, deck, hs, 5 * c + 5)
  {
    rows := rows0;
    for v := 1 to VALUE_MAX + 1
      invariant CountsBelow(rows, deck, hs, 5 * c + v - 1)
    {
      var card := Card(c, v);
      CardIndexRoundTrip(card);
      var next := SetColumn(rows, CardToIndex(card), hs, deck[card]);
      CountsStep(rows, next, deck, hs, CardToIndex(card));
      rows := next;
    }
  }

  /** The constructor's count loops, colour by colour and value by value. */
  method InitialCounts(deck: DeckComposition, hs: int) returns (rows: seq<seq<int>>)
    requires forall c | ValidCard(c) :: c in deck && 0 <= deck[c] < 4
    ensures IsTable(rows)
    ensures forall i, j | 0 <= i < SLOTS && 0 <= j < CELLS ::
              rows[i][j] == if i < hs then deck[IndexToCard(j)] else 0
  {
    rows := seq(SLOTS, i => ZeroRow());
    for c := RED to NUMCOLORS
      invariant CountsBelow(rows, deck, hs, 5 * c)
    {
      rows := CountColor(rows, deck, hs, c);
    }
    forall j | 0 <= j < CELLS
      ensures IndexToCard(j) in deck
    {
      assert ValidCard(IndexToCard(j));
    }
  }

  /** What a hint names of card j: its colour for a colour hint, else its value. */
  function Attribute(kind: MoveType, j: int): int
    requires 0 <= j < CELLS
  {
    if kind == HINT_COLOR then IndexToCard(j).color else IndexToCard(j).value
  }

  /** The inner loop of updateFromHint: card j leaves every slot whose membership in the hint disagrees with `matches`. */
  method ZeroInconsistent(rows0: seq<seq<int>>, j: int, matches: bool, hs: int, touched: set<int>)
    returns (rows: seq<seq<int>>)
    requires IsTable(rows0) && 0 <= j < CELLS && 0 <= hs <= SLOTS
    ensures IsTable(rows)
    ensures forall i | 0 <= i < SLOTS ::
              rows[i] == if i < hs && (i in touched) != matches then rows0[i][j := 0] else rows0[i]
  {
    rows := rows0;
    for i := 0 to hs
      invariant |rows| == SLOTS
      invariant forall r | 0 <= r < SLOTS ::
                  rows[r] == if r < i && (r in touched) != matches then rows0[r][j := 0] else rows0[r]
    {
      var consistent := if i in touched then matches else !matches;
      if !consistent {
        rows := rows[i := rows[i][j := 0]];
      }
    }
  }

  /** Whether the hint rules card k out of slot i: k matching the hint disagrees with the slot being touched. */
  predicate RuledOut(kind: MoveType, value: int, hs: int, touched: set<int>, i: int, k: int)
    requires 0 <= k < CELLS
  {
    i < hs && (i in touched) != (Attribute(kind, k) == value)
  }

  /** The count loops of updateFromHint: a slot keeps card k exactly when the hint does not rule k out. */
  method FilterCounts(rows0: seq<seq<int>>, kind: MoveType, value: int, hs: int, touched: set<int>)
    returns (rows: seq<seq<int>>)
    requires IsTable(rows0) && 0 <= hs <= SLOTS
    ensures IsTable(rows)
    ensures forall i, k | 0 <= i < SLOTS && 0 <= k < CELLS && RuledOut(kind, value, hs, touched, i, k) ::
              rows[i][k] == 0
    ensures forall i, k | 0 <= i < SLOTS && 0 <= k < CELLS && !RuledOut(kind, value, hs, touched, i, k) ::
              rows[i][k] == rows0[i][k]
    ensures rows == Filtered(rows0, kind, value, hs, touched)
  {
    rows := rows0;
    for j := 0 to CELLS
      invariant IsTable(rows)
      invariant forall i, k | 0 <= i < SLOTS && 0 <= k < j && RuledOut(kind, value, hs, touched, i, k) ::
                  rows[i][k] == 0
      invariant forall i, k | 0 <= i < SLOTS && 0 <= k < CELLS && !(k < j && RuledOut(kind, value, hs, touched, i, k)) ::
                  rows[i][k] == rows0[i][k]
    {
      rows := FilterColumn(rows, rows0, kind, value, hs, touched, j);
    }
    var f := Filtered(rows0, kind, value, hs, touched);
    forall i | 0 <= i < SLOTS ensures rows[i] == f[i] {
      assert forall k | 0 <= k < CELLS :: rows[i][k] == f[i][k];
    }
  }

  /** One pass of FilterCounts's outer loop, over card j. */
  method FilterColumn(prev: seq<seq<int>>, rows0: seq<seq<int>>, kind: MoveType, value: int, hs: int, touched: set<int>, j: int)
    returns (rows: seq<seq<int>>)
    requires IsTable(prev) && IsTable(rows0) && 0 <= hs <= SLOTS && 0 <= j < CELLS
    requires forall i, k | 0 <= i < SLOTS && 0 <= k < j && RuledOut(kind, value, hs, touched, i, k) ::
               prev[i][k] == 0
    requires forall i, k | 0 <= i < SLOTS && 0 <= k < CELLS && !(k < j && RuledOut(kind, value, hs, touched, i, k)) ::
               prev[i][k] == rows0[i][k]
    ensures IsTable(rows)
    ensures forall i, k | 0 <= i < SLOTS && 0 <= k < j + 1 && RuledOut(kind, value, hs, touched, i, k) ::
              rows[i][k] == 0
    ensures forall i, k | 0 <= i < SLOTS && 0 <= k < CELLS && !(k < j + 1 && RuledOut(kind, value, hs, touched, i, k)) ::
              rows[i][k] == rows0[i][k]
  {
    var matches := Attribute(kind, j) == value;
    rows := ZeroInconsistent(prev, j, matches, hs, touched);
  }

  /**
   * The revealed loops of updateFromHint: each touched slot gets a 1 in
   * column `col`, and its five cells then sum to one, which the source
   * asserts with checkSum. That holds when no other column of a touched
   * slot was revealed before.
   */
  method RevealTouched(w0: seq<int>, hs: int, touched: set<int>, col: int) returns (w: seq<int>)
    requires IsRow(w0) && 0 <= hs <= SLOTS && 0 <= col < 5
    requires forall i, k | 0 <= i < hs && i in touched && 0 <= k < 5 && k != col :: SlotCell(w0, i, k) == 0
    ensures IsRow(w)
    ensures forall i | 0 <= i < hs && i in touched :: SlotCell(w, i, col) == 1
    ensures forall i, k | 0 <= i < SLOTS && 0 <= k < 5 && !(i < hs && i in touched && k == col) ::
              SlotCell(w, i, k) == SlotCell(w0, i, k)
    ensures forall i | 0 <= i < hs && i in touched :: RowSum(w, i) == 1
  {
    w := w0;
    for i := 0 to hs
      invariant IsRow(w)
      invariant forall r | 0 <= r < i && r in touched :: SlotCell(w, r, col) == 1
      invariant forall r, k | 0 <= r < SLOTS && 0 <= k < 5 && !(r < i && r in touched && k == col) ::
                  SlotCell(w, r, k) == SlotCell(w0, r, k)
      invariant forall r | 0 <= r < i && r in touched :: RowSum(w, r) == 1
    {
      if i in touched {
        w := RevealSlot(w, w0, hs, touched, col, i);
      }
    }
  }

  /** One touched slot of RevealTouched's loop. */
  method RevealSlot(prev: seq<int>, w0: seq<int>, hs: int, touched: set<int>, col: int, i: int) returns (w: seq<int>)
    requires IsRow(prev) && IsRow(w0) && 0 <= col < 5 && 0 <= i < hs <= SLOTS && i in touched
    requires forall i, k | 0 <= i < hs && i in touched && 0 <= k < 5 && k != col :: SlotCell(w0, i, k) == 0
    requires forall r | 0 <= r < i && r in touched :: SlotCell(prev, r, col) == 1
    requires forall r, k | 0 <= r < SLOTS && 0 <= k < 5 && !(r < i && r in touched && k == col) ::
               SlotCell(prev, r, k) == SlotCell(w0, r, k)
    requires forall r | 0 <= r < i && r in touched :: RowSum(prev, r) == 1
    ensures IsRow(w)
    ensures forall r | 0 <= r < i + 1 && r in touched :: SlotCell(w, r, col) == 1
    ensures forall r, k | 0 <= r < SLOTS && 0 <= k < 5 && !(r < i + 1 && r in touched && k == col) ::
              SlotCell(w, r, k) == SlotCell(w0, r, k)
    ensures forall r | 0 <= r < i + 1 && r in touched :: RowSum(w, r) == 1
  {
    w := prev[5 * i + col := 1];
    SlotCellsAfterUpdate(prev, i, col, 1);
    forall r | 0 <= r < i && r in touched ensures RowSum(w, r) == 1 {
      RowSumUnchanged(prev, w, r, 5);
    }
    forall k | 0 <= k < 5 && k != col ensures SlotCell(w, i, k) == 0 {
      assert SlotCell(w, i, k) == SlotCell(prev, i, k) == SlotCell(w0, i, k);
    }
    RowSumOfSingle(w, i, col, 5);
    var ok := CheckSum(w, i, 1);
    assert ok;
  }

  /** Writing one cell changes that cell of that slot. */
  lemma SlotCellAfterUpdate(w: seq<int>, i: int, col: int, v: int, r: int, k: int)
    requires |w| == CELLS && 0 <= i < SLOTS && 0 <= col < 5
    requires 0 <= r < SLOTS && 0 <= k < 5 && (r != i || k != col)
    ensures SlotCell(w[5 * i + col := v], r, k) == SlotCell(w, r, k)
  {
    if r < i {
      assert 5 * r + k < 5 * i + col;
    } else if r > i {
      assert 5 * r + k > 5 * i + col;
    }
  }

  /** Writing one cell changes that cell of that slot and nothing else. */
  lemma SlotCellsAfterUpdate(w: seq<int>, i: int, col: int, v: int)
    requires |w| == CELLS && 0 <= i < SLOTS && 0 <= col < 5
    ensures SlotCell(w[5 * i + col := v], i, col) == v
    ensures forall r, k | 0 <= r < SLOTS && 0 <= k < 5 && (r != i || k != col) ::
              SlotCell(w[5 * i + col := v], r, k) == SlotCell(w, r, k)
  {
    forall r, k | 0 <= r < SLOTS && 0 <= k < 5 && (r != i || k != col)
      ensures SlotCell(w[5 * i + col := v], r, k) == SlotCell(w, r, k)
    {
      SlotCellAfterUpdate(w, i, col, v, r, k);
    }
  }

  /** A slot's sum depends on its own five cells only. */
  lemma {:induction false} RowSumUnchanged(a: seq<int>, b: seq<int>, card: int, n: int)
    requires |a| == CELLS && |b| == CELLS && 0 <= card < SLOTS && 0 <= n <= 5
    requires forall k | 0 <= k < 5 :: SlotCell(a, card, k) == SlotCell(b, card, k)
    ensures PartialRowSum(a, card, n) == PartialRowSum(b, card, n)
    decreases n
  {
    if n > 0 {
      RowSumUnchanged(a, b, card, n - 1);
    }
  }

  /** The loop of updateFromRevealedCard: a slot that could be the card now counts `remaining` copies of it. */
  method ReduceColumn(rows0: seq<seq<int>>, id: int, hs: int, remaining: int) returns (rows: seq<seq<int>>)
    requires IsTable(rows0) && 0 <= id < CELLS && 0 <= hs <= SLOTS
    requires forall i | 0 <= i < hs :: rows0[i][id] == remaining + 1 || rows0[i][id] == 0
    ensures IsTable(rows)
    ensures rows == Reduced(rows0, id, hs, remaining)
  {
    rows := rows0;
    for i := 0 to hs
      invariant IsTable(rows)
      invariant forall r | 0 <= r < SLOTS ::
                  rows[r] == if r < i && rows0[r][id] != 0 then rows0[r][id := remaining] else rows0[r]
    {
      rows := rows[i := rows[i][id := if rows[i][id] == 0 then 0 else remaining]];
    }
  }

  /** Copies every cell of `src` over `dst`, one at a time. */
  method CopyCells(dst: seq<int>, src: seq<int>) returns (w: seq<int>)
    requires IsRow(dst) && IsRow(src)
    ensures w == src
  {
    w := dst;
    for j := 0 to CELLS
      invariant |w| == CELLS
      invariant forall k | 0 <= k < CELLS :: w[k] == if k < j then src[k] else dst[k]
    {
      w := w[j := src[j]];
    }
  }

  /** Moves slot i+1's five cells onto slot i's, in place. */
  method ShiftSlot(w0: seq<int>, i: int) returns (w: seq<int>)
    requires IsRow(w0) && 0 <= i < SLOTS - 1
    ensures IsRow(w)
    ensures forall k | 0 <= k < 5 :: SlotCell(w, i, k) == SlotCell(w0, i + 1, k)
    ensures forall r, k | 0 <= r < SLOTS && r != i && 0 <= k < 5 :: SlotCell(w, r, k) == SlotCell(w0, r, k)
  {
    w := w0;
    for j := 0 to 5
      invariant IsRow(w)
      invariant forall k | 0 <= k < j :: SlotCell(w, i, k) == SlotCell(w0, i + 1, k)
      invariant forall r, k | 0 <= r < SLOTS && 0 <= k < 5 && !(r == i && k < j) :: SlotCell(w, r, k) == SlotCell(w0, r, k)
    {
      var v := SlotCell(w, i + 1, j);
      var w' := w[5 * i + j := v];
      SlotCellsAfterUpdate(w, i, j, v);
      forall k | 0 <= k < j + 1 ensures SlotCell(w', i, k) == SlotCell(w0, i + 1, k) {
        if k < j {
          assert SlotCell(w', i, k) == SlotCell(w, i, k);
        }
      }
      w := w';
    }
  }

  /** Zeroes slot i's five cells. */
  method ZeroSlot(w0: seq<int>, i: int) returns (w: seq<int>)
    requires IsRow(w0) && 0 <= i < SLOTS
    ensures IsRow(w)
    ensures forall k | 0 <= k < 5 :: SlotCell(w, i, k) == 0
    ensures forall r, k | 0 <= r < SLOTS && r != i && 0 <= k < 5 :: SlotCell(w, r, k) == SlotCell(w0, r, k)
  {
    w := w0;
    for j := 0 to 5
      invariant IsRow(w)
      invariant forall k | 0 <= k < j :: SlotCell(w, i, k) == 0
      invariant forall r, k | 0 <= r < SLOTS && 0 <= k < 5 && !(r == i && k < j) :: SlotCell(w, r, k) == SlotCell(w0, r, k)
    {
      var w' := w[5 * i + j := 0];
      SlotCellsAfterUpdate(w, i, j, 0);
      forall k | 0 <= k < j + 1 ensures SlotCell(w', i, k) == 0 {
        if k < j {
          assert SlotCell(w', i, k) == SlotCell(w, i, k);
        }
      }
      w := w';
    }
  }

  /** Zeroes every cell of a slot's counts. */
  method ZeroCells(w0: seq<int>) returns (w: seq<int>)
    requires IsRow(w0)
    ensures w == ZeroRow()
  {
    w := w0;
    for j := 0 to CELLS
      invariant |w| == CELLS
      invariant forall k | 0 <= k < CELLS :: w[k] == if k < j then 0 else w0[k]
    {
      w := w[j := 0];
    }
  }

  /** The loop over the deck map in updateFromDraw: each card's cell gets its count. */
  method SetDeckCells(w0: seq<int>, deck: DeckComposition) returns (w: seq<int>)
    requires IsRow(w0)
    requires forall c | c in deck :: ValidCard(c) && 0 <= deck[c] < 4
    ensures IsRow(w)
    ensures forall k | 0 <= k < CELLS :: w[k] == if IndexToCard(k) in deck then deck[IndexToCard(k)] else w0[k]
  {
    w := w0;
    var rest := deck.Keys;
    while rest != {}
      invariant rest <= deck.Keys && IsRow(w)
      invariant forall k | 0 <= k < CELLS ::
                  w[k] == if IndexToCard(k) in deck && IndexToCard(k) !in rest then deck[IndexToCard(k)] else w0[k]
      decreases |rest|
    {
      var c :| c in rest;
      var id := CardToIndex(c);
      CardIndexRoundTrip(c);
      forall k | 0 <= k < CELLS && IndexToCard(k) == c
        ensures k == id
      {
        IndexCardRoundTrip(k);
      }
      w := w[id := deck[c]];
      rest := rest - {c};
    }
  }

  /** The shifting loop of updateFromDraw: slots from..to-1 each take the next slot's counts and revealed cells. */
  method ShiftSlots(counts0: seq<seq<int>>, color0: seq<int>, rank0: seq<int>, from: int, to: int)
    returns (counts: seq<seq<int>>, color: seq<int>, rank: seq<int>)
    requires IsTable(counts0) && IsRow(color0) && IsRow(rank0) && 0 <= from && to <= SLOTS - 1
    ensures IsTable(counts) && IsRow(color) && IsRow(rank)
    ensures counts == ShiftedRows(counts0, from, to)
    ensures forall r, k | from <= r < to && 0 <= k < 5 ::
              SlotCell(color, r, k) == SlotCell(color0, r + 1, k) && SlotCell(rank, r, k) == SlotCell(rank0, r + 1, k)
    ensures forall r, k | 0 <= r < SLOTS && !(from <= r < to) && 0 <= k < 5 ::
              SlotCell(color, r, k) == SlotCell(color0, r, k) && SlotCell(rank, r, k) == SlotCell(rank0, r, k)
  {
    counts, color, rank := counts0, color0, rank0;
    if from < to {
      var i := from;
      while i < to
        invariant from <= i <= to
        invariant ShiftedUpTo(counts, color, rank, counts0, color0, rank0, from, i)
      {
        counts, color, rank := ShiftOne(counts, color, rank, counts0, color0, rank0, from, i);
        i := i + 1;
      }
    }
    var shifted := ShiftedRows(counts0, from, to);
    assert |counts| == |shifted|;
    forall r | 0 <= r < SLOTS ensures counts[r] == shifted[r] {
    }
  }

  /** The state of ShiftSlots's loop once slots from..i-1 have been shifted. */
  predicate ShiftedUpTo(counts: seq<seq<int>>, color: seq<int>, rank: seq<int>,
                        counts0: seq<seq<int>>, color0: seq<int>, rank0: seq<int>, from: int, i: int)
    requires IsTable(counts0) && IsRow(color0) && IsRow(rank0) && 0 <= from && i <= SLOTS - 1
  {
    CountsShiftedUpTo(counts, counts0, from, i) && CellsShiftedUpTo(color, color0, from, i) && CellsShiftedUpTo(rank, rank0, from, i)
  }

  predicate CountsShiftedUpTo(counts: seq<seq<int>>, counts0: seq<seq<int>>, from: int, i: int)
    requires IsTable(counts0) && 0 <= from && i <= SLOTS - 1
  {
    && IsTable(counts)
    && (forall r | from <= r < i :: counts[r] == counts0[r + 1])
    && (forall r | 0 <= r < SLOTS && !(from <= r < i) :: counts[r] == counts0[r])
  }

  predicate CellsShiftedUpTo(w: seq<int>, w0: seq<int>, from: int, i: int)
    requires IsRow(w0) && 0 <= from && i <= SLOTS - 1
  {
    && IsRow(w)
    && (forall r, k | from <= r < i && 0 <= k < 5 :: SlotCell(w, r, k) == SlotCell(w0, r + 1, k))
    && (forall r, k | 0 <= r < SLOTS && !(from <= r < i) && 0 <= k < 5 :: SlotCell(w, r, k) == SlotCell(w0, r, k))
  }

  /** One pass of ShiftSlots's loop: slot i takes slot i+1's counts and revealed cells. */
  method ShiftOne(counts1: seq<seq<int>>, color1: seq<int>, rank1: seq<int>,
                  counts0: seq<seq<int>>, color0: seq<int>, rank0: seq<int>, from: int, i: int)
    returns (counts: seq<seq<int>>, color: seq<int>, rank: seq<int>)
    requires IsTable(counts0) && IsRow(color0) && IsRow(rank0) && 0 <= from <= i < SLOTS - 1
    requires ShiftedUpTo(counts1, color1, rank1, counts0, color0, rank0, from, i)
    ensures ShiftedUpTo(counts, color, rank, counts0, color0, rank0, from, i + 1)
  {
    counts := ShiftCounts(counts1, counts0, from, i);
    color := ShiftCells(color1, color0, from, i);
    rank := ShiftCells(rank1, rank0, from, i);
  }

  /** The counts part of one pass: cell by cell, slot i gets slot i+1's counts. */
  method ShiftCounts(counts1: seq<seq<int>>, counts0: seq<seq<int>>, from: int, i: int) returns (counts: seq<seq<int>>)
    requires IsTable(counts0) && 0 <= from <= i < SLOTS - 1
    requires CountsShiftedUpTo(counts1, counts0, from, i)
    ensures CountsShiftedUpTo(counts, counts0, from, i + 1)
  {
    var row := CopyCells(counts1[i], counts1[i + 1]);
    counts := counts1[i := row];
    assert counts[i] == counts0[i + 1];
  }

  /** The revealed part of one pass, for one word. */
  method ShiftCells(w1: seq<int>, w0: seq<int>, from: int, i: int) returns (w: seq<int>)
    requires IsRow(w0) && 0 <= from <= i < SLOTS - 1
    requires CellsShiftedUpTo(w1, w0, from, i)
    ensures CellsShiftedUpTo(w, w0, from, i + 1)
  {
    w := ShiftSlot(w1, i);
  }

  /** The end of updateFromDraw: slot `last` gets the counts `row` and nothing revealed. */
  method ResetSlot(counts0: seq<seq<int>>, color0: seq<int>, rank0: seq<int>, last: int, row: seq<int>)
    returns (counts: seq<seq<int>>, color: seq<int>, rank: seq<int>)
    requires IsTable(counts0) && IsRow(color0) && IsRow(rank0) && IsRow(row) && 0 <= last < SLOTS
    ensures IsTable(counts) && IsRow(color) && IsRow(rank)
    ensures counts == counts0[last := row]
    ensures forall k | 0 <= k < 5 :: SlotCell(color, last, k) == 0 && SlotCell(rank, last, k) == 0
    ensures forall r, k | 0 <= r < SLOTS && r != last && 0 <= k < 5 ::
              SlotCell(color, r, k) == SlotCell(color0, r, k) && SlotCell(rank, r, k) == SlotCell(rank0, r, k)
  {
    counts := counts0[last := row];
    color := ZeroSlot(color0, last);
    rank := ZeroSlot(rank0, last);
  }

  // ---------------------------------------------------------------------------
  // What each update does to the counts, as functions of the old counts
  // ---------------------------------------------------------------------------

  /** The counts after a hint: every card the hint rules out of a slot is zeroed there. */
  function Filtered(rows: seq<seq<int>>, kind: MoveType, value: int, hs: int, touched: set<int>): (r: seq<seq<int>>)
    requires IsTable(rows)
    ensures IsTable(r)
    // a hint only takes possibilities away
    ensures forall i, k | 0 <= i < SLOTS && 0 <= k < CELLS :: r[i][k] == rows[i][k] || r[i][k] == 0
    // what is left in a slot of the hand agrees with the hint
    ensures forall i, k | 0 <= i < hs && i < SLOTS && 0 <= k < CELLS && r[i][k] != 0 ::
              (i in touched) <==> Attribute(kind, k) == value
    // slots past the hand are left alone
    ensures forall i | hs <= i < SLOTS && 0 <= i :: r[i] == rows[i]
  {
    seq(SLOTS, i requires 0 <= i < SLOTS => FilteredRow(rows[i], kind, value, hs, touched, i))
  }

  /** Slot i's counts after a hint. */
  function FilteredRow(row: seq<int>, kind: MoveType, value: int, hs: int, touched: set<int>, i: int): (r: seq<int>)
    requires IsRow(row)
    ensures IsRow(r)
  {
    seq(CELLS, k requires 0 <= k < CELLS => if RuledOut(kind, value, hs, touched, i, k) then 0 else row[k])
  }

  /** The counts after card `id` is revealed: a slot that could be it now counts `remaining` copies. */
  function Reduced(rows: seq<seq<int>>, id: int, hs: int, remaining: int): (r: seq<seq<int>>)
    requires Shaped(rows) && 0 <= id < CELLS
    ensures Shaped(r)
    // only card id's cells change, and a slot that had ruled the card out still does
    ensures forall i, k | 0 <= i < SLOTS && 0 <= k < CELLS && k != id :: r[i][k] == rows[i][k]
    ensures forall i | 0 <= i < SLOTS :: (r[i][id] == 0) == (rows[i][id] == 0 || (i < hs && remaining == 0))
  {
    seq(SLOTS, i requires 0 <= i < SLOTS => if i < hs && rows[i][id] != 0 then rows[i][id := remaining] else rows[i])
  }

  /** A table of five slots of 25 cells, whatever the cells hold. */
  predicate Shaped(rows: seq<seq<int>>) {
    |rows| == SLOTS && forall i | 0 <= i < SLOTS :: |rows[i]| == CELLS
  }

  /** Slots from..to-1 take the next slot's counts. */
  function ShiftedRows(rows: seq<seq<int>>, from: int, to: int): (r: seq<seq<int>>)
    requires |rows| == SLOTS && to <= SLOTS - 1
    ensures |r| == SLOTS
  {
    seq(SLOTS, i requires 0 <= i < SLOTS => if from <= i < to then rows[i + 1] else rows[i])
  }

  /** A fresh slot's counts: each card's count in `deck`, 0 for a card missing from it. */
  function DeckRow(deck: DeckComposition): (row: seq<int>)
    ensures |row| == CELLS
  {
    seq(CELLS, k requires 0 <= k < CELLS => if IndexToCard(k) in deck then deck[IndexToCard(k)] else 0)
  }

  /** The slot updateFromDraw draws into (hand full again) or clears (no card drawn). */
  function LastSlot(hs: int, fullSize: int): int {
    if hs == fullSize then hs - 1 else hs
  }

  function Min(a: int, b: int): int {
    if a < b then a else b
  }

  /** What updateFromDraw may index: the shifted slots and the one drawn into or cleared. */
  predicate DrawFits(hs: int, fullSize: int) {
    Min(hs, fullSize - 1) <= SLOTS - 1 && hs <= fullSize
    && (hs == fullSize ==> 1 <= hs <= SLOTS)
    && (hs < fullSize ==> 0 <= hs < SLOTS)
  }

  /**
   * The counts after a card left slot `idx` and the hand now holds hs cards
   * out of a full hand of fullSize: the slots above idx move down; a drawn
   * card (hand full again) gets the deck's counts, otherwise the slot past
   * the hand is cleared.
   */
  function DrawnCounts(rows: seq<seq<int>>, idx: int, hs: int, fullSize: int, deck: DeckComposition): (r: seq<seq<int>>)
    requires Shaped(rows) && DrawFits(hs, fullSize)
    ensures Shaped(r)
  {
    if hs == fullSize then ShiftedRows(rows, idx, Min(hs, fullSize - 1))[hs - 1 := DeckRow(deck)]
    else ShiftedRows(rows, idx, Min(hs, fullSize - 1))[hs := ZeroRow()]
  }

  /** The beliefs about a hand are sound when every slot still counts its true card as possible. */
  predicate Sound(rows: seq<seq<int>>, hand: seq<Card>)
    requires Shaped(rows)
  {
    |hand| <= SLOTS
    && forall i | 0 <= i < |hand| :: ValidCard(hand[i]) && rows[i][CardToIndex(hand[i])] > 0
  }

  // ---------------------------------------------------------------------------
  // The beliefs object
  // ---------------------------------------------------------------------------

  class FactorizedBeliefs {
    /** counts[i][cardToIndex(c)]: how many copies of c slot i may be (one word per slot). */
    var counts: seq<seq<int>>
    /** Cells 5i..5i+4: the colours revealed for slot i. */
    var colorRevealed: seq<int>
    /** Cells 5i..5i+4: the ranks (value - 1) revealed for slot i. */
    var rankRevealed: seq<int>
    var handSize: int
    const p: int

    predicate Valid()
      reads this
    {
      IsTable(counts) && IsRow(colorRevealed) && IsRow(rankRevealed)
    }

    /** The revealed word a hint of this kind writes. */
    function RevealedFor(kind: MoveType): seq<int>
      reads this`colorRevealed, this`rankRevealed
    {
      if kind == HINT_COLOR then colorRevealed else rankRevealed
    }

    /**
     * Every slot below the hand size the rules deal may be any card not
     * seen on the piles or in the discards (no hand is counted as seen),
     * the slots above it nothing; nothing is revealed yet.
     */
    constructor (s: Server, player: int)
      requires s.Valid() && Conserved(s.discards, s.hands, -1, s.piles) && 0 <= player < s.numPlayers
      ensures Valid() && p == player
      ensures forall i, j | 0 <= i < SLOTS && 0 <= j < CELLS ::
                counts[i][j] == if i < HandSize(s.numPlayers, s.handSizeOverride)
                                then Remaining(s.discards, s.hands, -1, s.piles, IndexToCard(j)) else 0
      ensures colorRevealed == ZeroRow() && rankRevealed == ZeroRow()
      ensures handSize == |s.hands[player]|
    {
      p := player;
      var r := GetCurrentDeckComposition(s, -1);
      var deck := r.value;
      var rows := InitialCounts(deck, HandSize(s.numPlayers, s.handSizeOverride));
      counts := rows;
      colorRevealed := ZeroRow();
      rankRevealed := ZeroRow();
      handSize := s.SizeOfHandOfPlayer(player).value;
    }

    /**
     * updateFromHint: each slot of this player's hand loses the cards the
     * hint rules out, and each touched slot has the hinted colour or rank
     * revealed, after which exactly one colour (or rank) is revealed for it.
     */
    method UpdateFromHint(move: Move, cardIndices: CardIndices, s: Server)
      requires Valid() && s.Valid() && 0 <= p < s.numPlayers && |s.hands[p]| <= SLOTS
      requires move.kind == HINT_COLOR || move.kind == HINT_VALUE
      requires move.kind == HINT_COLOR ==> ValidColor(move.value)
      requires move.kind == HINT_VALUE ==> 1 <= move.value <= VALUE_MAX
      requires forall i, k | 0 <= i < |s.hands[p]| && i in cardIndices.bits && 0 <= k < 5 && k != HintColumn(move) ::
                 SlotCell(RevealedFor(move.kind), i, k) == 0
      modifies this
      ensures Valid() && handSize == |s.hands[p]|
      ensures counts == Filtered(old(counts), move.kind, move.value, handSize, cardIndices.bits)
      ensures move.kind == HINT_COLOR ==> rankRevealed == old(rankRevealed)
      ensures move.kind == HINT_VALUE ==> colorRevealed == old(colorRevealed)
      ensures forall i | 0 <= i < handSize && i in cardIndices.bits :: SlotCell(RevealedFor(move.kind), i, HintColumn(move)) == 1
      ensures forall i, k | 0 <= i < SLOTS && 0 <= k < 5 && !(i < handSize && i in cardIndices.bits && k == HintColumn(move)) ::
                SlotCell(RevealedFor(move.kind), i, k) == SlotCell(old(RevealedFor(move.kind)), i, k)
      ensures forall i | 0 <= i < handSize && i in cardIndices.bits :: RowSum(RevealedFor(move.kind), i) == 1
    {
      var revealed := RevealedFor(move.kind);
      handSize := s.SizeOfHandOfPlayer(p).value;
      counts := FilterCounts(counts, move.kind, move.value, handSize, cardIndices.bits);
      if move.kind == HINT_COLOR {
        assert revealed == colorRevealed;
        colorRevealed := RevealTouched(colorRevealed, handSize, cardIndices.bits, move.value);
      } else {
        assert revealed == rankRevealed;
        var rank := move.value - 1;
        rankRevealed := RevealTouched(rankRevealed, handSize, cardIndices.bits, rank);
      }
    }

    /**
     * updateFromRevealedCard: `deck.at` fails when the card is not in the
     * composition, changing nothing; otherwise each slot that could be the
     * card now counts the copies that remained before the draw.
     */
    method UpdateFromRevealedCard(played: Card, deck: DeckComposition) returns (found: bool)
      requires Valid() && ValidCard(played) && 0 <= handSize <= SLOTS
      requires played in deck ==>
                 forall i | 0 <= i < handSize ::
                   counts[i][CardToIndex(played)] == deck[played] + 1 || counts[i][CardToIndex(played)] == 0
      modifies this
      ensures found <==> played in deck
      ensures !found ==> unchanged(this)
      ensures found ==> Valid() && counts == Reduced(old(counts), CardToIndex(played), handSize, deck[played])
                        && colorRevealed == old(colorRevealed) && rankRevealed == old(rankRevealed)
                        && handSize == old(handSize)
    {
      var cardId := CardToIndex(played);
      if played !in deck {
        return false;
      }
      var remaining := deck[played];
      counts := ReduceColumn(counts, cardId, handSize, remaining);
      found := true;
    }

    /**
     * updateFromDraw: the card at cardIndex has left this player's hand;
     * the slots above it move down one, and the last slot either gets the
     * deck's counts (a card was drawn and the hand is full again) or is
     * cleared (no card was drawn).
     */
    method UpdateFromDraw(deck: DeckComposition, cardIndex: int, s: Server)
      requires Valid() && s.Valid() && 0 <= p < s.numPlayers && 0 <= cardIndex
      requires DrawFits(|s.hands[p]|, HandSize(s.numPlayers, s.handSizeOverride))
      requires forall c | c in deck :: ValidCard(c) && 0 <= deck[c] < 4
      modifies this
      ensures Valid() && handSize == |s.hands[p]|
      ensures counts == DrawnCounts(old(counts), cardIndex, handSize, HandSize(s.numPlayers, s.handSizeOverride), deck)
      ensures forall r, k | cardIndex <= r < Min(handSize, HandSize(s.numPlayers, s.handSizeOverride) - 1) && 0 <= k < 5 ::
                SlotCell(colorRevealed, r, k) == SlotCell(old(colorRevealed), r + 1, k)
                && SlotCell(rankRevealed, r, k) == SlotCell(old(rankRevealed), r + 1, k)
      ensures forall k | 0 <= k < 5 ::
                SlotCell(colorRevealed, LastSlot(handSize, HandSize(s.numPlayers, s.handSizeOverride)), k) == 0
                && SlotCell(rankRevealed, LastSlot(handSize, HandSize(s.numPlayers, s.handSizeOverride)), k) == 0
      ensures forall r, k | 0 <= r < SLOTS && r != LastSlot(handSize, HandSize(s.numPlayers, s.handSizeOverride))
                            && !(cardIndex <= r < Min(handSize, HandSize(s.numPlayers, s.handSizeOverride) - 1)) && 0 <= k < 5 ::
                SlotCell(colorRevealed, r, k) == SlotCell(old(colorRevealed), r, k)
                && SlotCell(rankRevealed, r, k) == SlotCell(old(rankRevealed), r, k)
    {
      handSize := s.SizeOfHandOfPlayer(p).value;
      var fullSize := HandSize(s.numPlayers, s.handSizeOverride);
      counts, colorRevealed, rankRevealed :=
        ShiftSlots(counts, colorRevealed, rankRevealed, cardIndex, Min(handSize, fullSize - 1));
      var last := LastSlot(handSize, fullSize);
      var row := ZeroCells(counts[last]);
      if handSize == fullSize {
        row := SetDeckCells(row, deck);
        assert row == DeckRow(deck);
      }
      counts, colorRevealed, rankRevealed := ResetSlot(counts, colorRevealed, rankRevealed, last, row);
    }
  }

  /** The column of a slot's revealed cells a hint writes: the colour, or the rank value - 1. */
  function HintColumn(move: Move): int {
    if move.kind == HINT_COLOR then move.value else move.value - 1
  }

  // ---------------------------------------------------------------------------
  // The updates keep the beliefs sound
  // ---------------------------------------------------------------------------

  /** A truthful hint (it touches exactly the slots that match) never rules out a slot's true card. */
  lemma HintKeepsTrueCards(rows: seq<seq<int>>, kind: MoveType, value: int, hand: seq<Card>, touched: set<int>)
    requires IsTable(rows) && Sound(rows, hand) && (kind == HINT_COLOR || kind == HINT_VALUE)
    requires touched == if kind == HINT_COLOR then ColorMatches(hand, value) else ValueMatches(hand, value)
    ensures Sound(Filtered(rows, kind, value, |hand|, touched), hand)
  {
    var r := Filtered(rows, kind, value, |hand|, touched);
    forall i | 0 <= i < |hand| ensures r[i][CardToIndex(hand[i])] > 0 {
      var k := CardToIndex(hand[i]);
      CardIndexRoundTrip(hand[i]);
      assert !RuledOut(kind, value, |hand|, touched, i, k);
      assert r[i] == FilteredRow(rows[i], kind, value, |hand|, touched, i);
    }
  }

  /**
   * Revealing a card keeps a slot's true card possible, provided this
   * player's own copies of it are among the copies that remained.
   */
  lemma RevealKeepsTrueCards(rows: seq<seq<int>>, played: Card, hand: seq<Card>, remaining: int)
    requires IsTable(rows) && Sound(rows, hand) && ValidCard(played)
    requires forall i | 0 <= i < |hand| ::
               rows[i][CardToIndex(played)] == remaining + 1 || rows[i][CardToIndex(played)] == 0
    requires multiset(hand)[played] <= remaining
    ensures Sound(Reduced(rows, CardToIndex(played), |hand|, remaining), hand)
  {
    var r := Reduced(rows, CardToIndex(played), |hand|, remaining);
    forall i | 0 <= i < |hand| ensures r[i][CardToIndex(hand[i])] > 0 {
      if hand[i] == played {
        assert hand[i] in multiset(hand);
      } else {
        CardIndexRoundTrip(hand[i]);
        CardIndexRoundTrip(played);
      }
    }
  }

  /**
   * After a card leaves slot idx, the shifted beliefs describe the hand the
   * server keeps (the card removed, the drawn card appended): every slot's
   * true card stays possible, the drawn one because the deck counts it.
   */
  lemma DrawKeepsTrueCards(rows: seq<seq<int>>, idx: int, hand: seq<Card>, drawn: Option<Card>,
                           fullSize: int, deck: DeckComposition)
    requires IsTable(rows) && Sound(rows, hand) && 0 <= idx < |hand| <= fullSize
    requires drawn.Some? ==> |hand| == fullSize && ValidCard(drawn.value) && drawn.value in deck && deck[drawn.value] > 0
    requires DrawFits(if drawn.Some? then |hand| else |hand| - 1, fullSize)
    ensures var newHand := RemoveAt(hand, idx) + (if drawn.Some? then [drawn.value] else []);
            Sound(DrawnCounts(rows, idx, |newHand|, fullSize, deck), newHand)
  {
    var newHand := RemoveAt(hand, idx) + (if drawn.Some? then [drawn.value] else []);
    var hs := |newHand|;
    var r := DrawnCounts(rows, idx, hs, fullSize, deck);
    var shifted := ShiftedRows(rows, idx, Min(hs, fullSize - 1));
    forall i | 0 <= i < hs ensures ValidCard(newHand[i]) && r[i][CardToIndex(newHand[i])] > 0 {
      if i < |hand| - 1 {
        var j := if i < idx then i else i + 1;
        assert newHand[i] == hand[j];
        assert r[i] == shifted[i] == rows[j];
      } else {
        CardIndexRoundTrip(drawn.value);
        assert r[i] == DeckRow(deck);
      }
    }
  }
}
