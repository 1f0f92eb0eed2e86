/**
 * TwoBitArray: thirty-two 2-bit cells packed into one 64-bit word.
 */
module TwoBits {
  // ---------------------------------------------------------------------------
  // The packed word
  // ---------------------------------------------------------------------------

  /** get: cell i sits at bits 2i and 2i+1. */
  function Slot(w: bv64, i: bv5): bv2 {
    ((w >> ((i as bv7) * 2)) & 3) as bv2
  }

  /** set: clear the two bits of cell i, then or in the new value. */
  function WithSlot(w: bv64, i: bv5, v: bv2): bv64 {
    (w & !((3 as bv64) << ((i as bv7) * 2))) | ((v as bv64) << ((i as bv7) * 2))
  }

  lemma SlotWithSlotSame(w: bv64, i: bv5, v: bv2)
    ensures Slot(WithSlot(w, i, v), i) == v
  {
  }

  lemma SlotWithSlotOther(w: bv64, i: bv5, v: bv2, j: bv5)
    requires i != j
    ensures Slot(WithSlot(w, i, v), j) == Slot(w, j)
  {
  }

  lemma Bv5RoundTrip(i: int)
    requires 0 <= i < 32
    ensures (i as bv5) as int == i
  {
  }

  lemma Bv2RoundTrip(v: int)
    requires 0 <= v < 4
    ensures (v as bv2) as int == v
  {
  }

  /** The cell at an int index, as an int. */
  function Field(w: bv64, i: int): (v: int)
    requires 0 <= i < 32
    ensures 0 <= v < 4
  {
    Slot(w, i as bv5) as int
  }

  /** The word with the cell at an int index replaced. */
  function WithField(w: bv64, i: int, v: int): bv64
    requires 0 <= i < 32 && 0 <= v < 4
  {
    WithSlot(w, i as bv5, v as bv2)
  }

  /** set(i, v) makes get(i) == v. */
  lemma FieldSame(w: bv64, i: int, v: int)
    requires 0 <= i < 32 && 0 <= v < 4
    ensures Field(WithField(w, i, v), i) == v
  {
    SlotWithSlotSame(w, i as bv5, v as bv2);
    Bv2RoundTrip(v);
  }

  /** set(i, v) leaves get(j) alone for every other cell j. */
  lemma FieldOther(w: bv64, i: int, v: int, j: int)
    requires 0 <= i < 32 && 0 <= v < 4 && 0 <= j < 32 && i != j
    ensures Field(WithField(w, i, v), j) == Field(w, j)
  {
    Bv5RoundTrip(i);
    Bv5RoundTrip(j);
    SlotWithSlotOther(w, i as bv5, v as bv2, j as bv5);
  }

  /** Both lemmas at once, for every cell. */
  lemma FieldUpdate(w: bv64, i: int, v: int)
    requires 0 <= i < 32 && 0 <= v < 4
    ensures forall j | 0 <= j < 32 :: Field(WithField(w, i, v), j) == if j == i then v else Field(w, j)
  {
    forall j | 0 <= j < 32
      ensures Field(WithField(w, i, v), j) == if j == i then v else Field(w, j)
    {
      if j == i {
        FieldSame(w, i, v);
      } else {
        FieldOther(w, i, v, j);
      }
    }
  }

  /**
   * TwoBitArray. The source's default constructor leaves the word
   * uninitialised; here its initial contents are a parameter.
   */
  class TwoBitArray {
    var x: bv64

    constructor (init: bv64)
      ensures x == init
    {
      x := init;
    }

    function Get(index: int): (v: int)
      reads this
      requires 0 <= index < 32
      ensures 0 <= v < 4
    {
      Field(x, index)
    }

    method Set(index: int, value: int)
      requires 0 <= index < 32 && 0 <= value < 4
      modifies this
      ensures x == WithField(old(x), index, value)
      ensures Get(index) == value
      ensures forall j | 0 <= j < 32 && j != index :: Get(j) == old(Get(j))
    {
      FieldUpdate(x, index, value);
      x := WithField(x, index, value);
    }
  }

  /** The word as its thirty-two cells. */
  function Cells(w: bv64): (cells: seq<int>)
    ensures |cells| == 32
    ensures forall k | 0 <= k < 32 :: 0 <= cells[k] < 4
  {
    seq(32, k requires 0 <= k < 32 => Field(w, k))
  }

  /** set(i, v) acts on the word's cells as replacing cell i by v. */
  lemma CellsWithField(w: bv64, i: int, v: int)
    requires 0 <= i < 32 && 0 <= v < 4
    ensures Cells(WithField(w, i, v)) == Cells(w)[i := v]
  {
    FieldUpdate(w, i, v);
  }
}
