/**
 * The inline containers of the information bot: a vector with a fixed
 * capacity kept in a buffer of that size, and a set built on it that keeps
 * its elements in insertion order.
 */
module InfoContainers {
  import SeqUtil

  /** fixed_capacity_vector: `size` live elements at the front of a buffer of `cap` slots. */
  class FixedCapacityVector<T(0)> {
    const cap: nat
    const buffer: array<T>
    var size: nat

    ghost predicate Valid()
      reads this
    {
      buffer.Length == cap && size <= cap
    }

    /** The live elements, in order. */
    ghost function Contents(): seq<T>
      reads this, buffer
      requires Valid()
    {
      buffer[..size]
    }

    constructor (cap: nat)
      ensures Valid() && fresh(buffer) && this.cap == cap
      ensures Contents() == []
    {
      this.cap := cap;
      buffer := new T[cap];
      size := 0;
    }

    /** The sized constructor: `n` copies of the default element, placed by emplace_back. */
    constructor Sized(cap: nat, n: nat, init: T)
      requires n <= cap
      ensures Valid() && fresh(buffer) && this.cap == cap
      ensures Contents() == seq(n, _ => init)
    {
      this.cap := cap;
      buffer := new T[cap];
      size := 0;
      new;
      var i := 0;
      while i < n
        invariant 0 <= i <= n && Valid() && size == i
        invariant Contents() == seq(i, _ => init)
        modifies this, buffer
      {
        EmplaceBack(init);
        i := i + 1;
      }
    }

    /** emplace_back: asserts a free slot, then appends. */
    method EmplaceBack(x: T)
      requires Valid() && size < cap
      modifies this, buffer
      ensures Valid() && Contents() == old(Contents()) + [x]
    {
      buffer[size] := x;
      size := size + 1;
    }

    /**
     * erase(it): removes the element at position `it`, moving every later
     * element one place to the front.
     */
    method Erase(it: int)
      requires Valid() && 0 <= it < size
      modifies this, buffer
      ensures Valid() && Contents() == SeqUtil.RemoveAt(old(Contents()), it)
    {
      ghost var s := buffer[..size];
      size := size - 1;
      var i := it;
      while i < size
        invariant Valid() && size == |s| - 1
        invariant it <= i <= size
        invariant forall j | 0 <= j < it :: buffer[j] == s[j]
        invariant forall j | it <= j < i :: buffer[j] == s[j + 1]
        invariant forall j | i <= j <= size :: buffer[j] == s[j]
      {
        buffer[i] := buffer[i + 1];
        i := i + 1;
      }
      assert buffer[..size] == SeqUtil.RemoveAt(s, it);
    }

    function At(i: int): (x: T)
      reads this, buffer
      requires Valid() && 0 <= i < size
      ensures x == Contents()[i]
    {
      buffer[i]
    }

    function Size(): (n: int)
      reads this
      requires Valid()
      ensures n == |Contents()|
    {
      size
    }

    predicate Empty()
      reads this
      requires Valid()
    {
      size == 0
    }
  }

  /** The elements of `s` with `x` added at the end unless it is already there. */
  function Inserted<T(==)>(s: seq<T>, x: T): (r: seq<T>)
  {
    if x in s then s else s + [x]
  }

  predicate Distinct<T(==)>(s: seq<T>) {
    forall i, j | 0 <= i < j < |s| :: s[i] != s[j]
  }

  /**
   * Inserting keeps the elements distinct, adds exactly `x` and never
   * reorders, and inserting the same element again changes nothing.
   */
  lemma InsertedProperties<T>(s: seq<T>, x: T)
    requires Distinct(s)
    ensures Distinct(Inserted(s, x))
    ensures forall y :: y in Inserted(s, x) <==> y in s || y == x
    ensures Inserted(s, x)[..|s|] == s
    ensures Inserted(Inserted(s, x), x) == Inserted(s, x)
  {
  }

  /** The elements of `s` with every element above `x` moved one lower. */
  function Squeeze(s: seq<int>, x: int): (r: seq<int>)
    ensures |r| == |s|
    ensures forall i | 0 <= i < |s| && s[i] < x :: r[i] == s[i]
    ensures forall i | 0 <= i < |s| && s[i] > x :: r[i] == s[i] - 1
  {
    seq(|s|, i requires 0 <= i < |s| => if s[i] > x then s[i] - 1 else s[i])
  }

  /**
   * Distinct integers drawn from 0 .. n-1 number at most n: a set of
   * indices into a hand never outgrows a capacity equal to the hand size.
   */
  lemma {:induction false} DistinctBound(s: seq<int>, n: nat)
    requires Distinct(s) && forall i | 0 <= i < |s| :: 0 <= s[i] < n
    ensures |s| <= n
    decreases |s|
  {
    if s != [] {
      var x := s[|s| - 1];
      var init := s[..|s| - 1];
      var r := Squeeze(init, x);
      assert forall i | 0 <= i < |init| :: init[i] != x;
      forall i, j | 0 <= i < j < |r|
        ensures r[i] != r[j]
      {
      }
      DistinctBound(r, n - 1);
    }
  }

  /** fixed_capacity_set: a fixed-capacity vector holding each element at most once. */
  class FixedCapacitySet<T(0, ==)> {
    const elements: FixedCapacityVector<T>

    ghost predicate Valid()
      reads this, elements
    {
      elements.Valid()
    }

    ghost function Elems(): seq<T>
      reads this, elements, elements.buffer
      requires Valid()
    {
      elements.Contents()
    }

    constructor (cap: nat)
      ensures Valid() && fresh(elements) && fresh(elements.buffer) && elements.cap == cap
      ensures Elems() == []
    {
      elements := new FixedCapacityVector(cap);
    }

    /**
     * insert: a scan for an equal element returns early; otherwise the
     * element is appended, which needs a free slot.
     */
    method Insert(t: T)
      requires Valid() && (t !in Elems() ==> elements.size < elements.cap)
      modifies elements, elements.buffer
      ensures Valid() && Elems() == Inserted(old(Elems()), t)
    {
      var i := 0;
      while i < elements.size
        invariant 0 <= i <= elements.size
        invariant forall j | 0 <= j < i :: elements.buffer[j] != t
      {
        if elements.At(i) == t {
          return;
        }
        i := i + 1;
      }
      elements.EmplaceBack(t);
    }

    function Size(): (n: int)
      reads this, elements
      requires Valid()
      ensures n == elements.size
    {
      elements.Size()
    }
  }
}
