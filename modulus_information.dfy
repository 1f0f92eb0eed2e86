/**
 * ModulusInformation of the information bot: a value below a modulus, the
 * unit in which hints carry information. Answers to several questions are
 * packed into one number by mixed-radix `combine` and unpacked in the same
 * order by `split`; hints to several players are summed with `add` and
 * taken apart with `subtract`.
 *
 * Every value the source builds is non-negative, so C++'s truncating / and
 * % coincide with Dafny's here.
 */
module ModulusInfo {
  /** A (modulus, value) pair. */
  datatype Info = Info(modulus: int, value: int)

  predicate ValidInfo(a: Info) {
    a.modulus >= 1 && 0 <= a.value < a.modulus
  }

  /** ModulusInformation::none(): the pair carrying no information. */
  function NoInfo(): (a: Info)
    ensures ValidInfo(a) && a.modulus == 1
  {
    Info(1, 0)
  }

  function Min(a: int, b: int): int {
    if a <= b then a else b
  }

  // ---------------------------------------------------------------------------
  // Arithmetic facts
  // ---------------------------------------------------------------------------

  /** Division by q is determined by any decomposition x = d*q + r with 0 <= r < q. */
  lemma DivModUnique(x: int, q: int, d: int, r: int)
    requires q > 0 && 0 <= r < q && x == d * q + r
    ensures x / q == d && x % q == r
  {
    var d2, r2 := x / q, x % q;
    assert x == d2 * q + r2 && 0 <= r2 < q;
    assert (d - d2) * q == r2 - r;
    if d - d2 >= 1 {
      MulAtLeast(d - d2, q);
    } else if d2 - d >= 1 {
      MulAtLeast(d2 - d, q);
    }
  }

  lemma MulAtLeast(a: int, q: int)
    requires a >= 1 && q > 0
    ensures a * q >= q
  {
    assert a * q == (a - 1) * q + q;
  }

  /** Dividing by a divisor no larger than x leaves at least one. */
  lemma DivAtLeastOne(x: int, m: int)
    requires 1 <= m <= x
    ensures x / m >= 1
  {
    DivModUnique(x, m, 1 + (x - m) / m, (x - m) % m);
  }

  lemma MulAssoc(a: int, b: int, c: int)
    ensures (a * b) * c == a * (b * c)
  {
  }

  lemma MulDistrib(a: int, b: int, c: int)
    ensures (a + b) * c == a * c + b * c
  {
  }

  /** A digit below m times q, plus a remainder below q, stays below m*q. */
  lemma DigitBound(d: int, m: int, r: int, q: int)
    requires 0 <= d < m && 0 <= r < q
    ensures 0 <= d * q + r < m * q
  {
    assert d * q <= (m - 1) * q by {
      assert (m - 1) * q - d * q == (m - 1 - d) * q;
    }
    assert (m - 1) * q + q == m * q;
  }

  // ---------------------------------------------------------------------------
  // Specification functions
  // ---------------------------------------------------------------------------

  /** combine: `b` becomes the least significant digit. */
  function Combined(a: Info, b: Info): (r: Info)
    requires ValidInfo(a) && ValidInfo(b)
    ensures ValidInfo(r)
  {
    DigitBound(a.value, a.modulus, b.value, b.modulus);
    Info(a.modulus * b.modulus, a.value * b.modulus + b.value)
  }

  /**
   * What split(m) leaves behind: the modulus divided by m and the value
   * below that. The source divides by modulus / m, so that must be at
   * least 1 even in permissive mode.
   */
  function SplitRest(a: Info, m: int): (r: Info)
    requires ValidInfo(a) && 1 <= m <= a.modulus
    ensures ValidInfo(r) && r.modulus == a.modulus / m
  {
    var q := a.modulus / m;
    DivAtLeastOne(a.modulus, m);
    Info(q, a.value - (a.value / q) * q)
  }

  /** What split(m) returns: the most significant digit, clamped below m. */
  function SplitDigit(a: Info, m: int): (d: Info)
    requires ValidInfo(a) && 1 <= m <= a.modulus
    ensures ValidInfo(d) && d.modulus == m
  {
    var q := SplitRest(a, m).modulus;
    assert a.value / q >= 0;
    Info(m, Min(a.value / q, m - 1))
  }

  /** When m divides the modulus, split(m) undoes combine: the digit and the rest come back. */
  lemma {:induction false} SplitUndoesCombine(a: Info, b: Info)
    requires ValidInfo(a) && ValidInfo(b)
    ensures a.modulus <= Combined(a, b).modulus
    ensures SplitDigit(Combined(a, b), a.modulus) == a
    ensures SplitRest(Combined(a, b), a.modulus) == b
  {
    var c := Combined(a, b);
    DivModUnique(c.modulus, a.modulus, b.modulus, 0);
    MulAtLeast(b.modulus, a.modulus);
    DivModUnique(c.value, b.modulus, a.value, b.value);
  }

  /** The product of the moduli of a list of pieces. */
  function Product(ds: seq<Info>): (p: int)
    requires forall i | 0 <= i < |ds| :: ValidInfo(ds[i])
    ensures p >= 1
  {
    if ds == [] then 1 else
      var rest := Product(ds[1..]);
      assert ValidInfo(ds[0]);
      MulAtLeast(ds[0].modulus, rest);
      ds[0].modulus * rest
  }

  /** The mixed-radix number the pieces spell, the first piece most significant. */
  function Number(ds: seq<Info>): (n: int)
    requires forall i | 0 <= i < |ds| :: ValidInfo(ds[i])
    ensures 0 <= n < Product(ds)
  {
    if ds == [] then 0 else
      assert ValidInfo(ds[0]);
      DigitBound(ds[0].value, ds[0].modulus, Number(ds[1..]), Product(ds[1..]));
      ds[0].value * Product(ds[1..]) + Number(ds[1..])
  }

  /** The answers combined in order into `acc`, as get_hint_info_for_player does starting from none(). */
  function CombineAll(acc: Info, ds: seq<Info>): (r: Info)
    requires ValidInfo(acc) && forall i | 0 <= i < |ds| :: ValidInfo(ds[i])
    ensures ValidInfo(r)
    decreases |ds|
  {
    if ds == [] then acc else CombineAll(Combined(acc, ds[0]), ds[1..])
  }

  /** The pieces split off in order by the moduli `ms`, as infer_own_from_hint_sum does. */
  function SplitAll(a: Info, ms: seq<int>): (r: seq<Info>)
    requires ValidInfo(a)
    ensures |r| <= |ms|
    decreases |ms|
  {
    if ms == [] || !(1 <= ms[0] <= a.modulus) then []
    else [SplitDigit(a, ms[0])] + SplitAll(SplitRest(a, ms[0]), ms[1..])
  }

  function Moduli(ds: seq<Info>): (ms: seq<int>)
    ensures |ms| == |ds| && forall i | 0 <= i < |ds| :: ms[i] == ds[i].modulus
  {
    if ds == [] then [] else [ds[0].modulus] + Moduli(ds[1..])
  }

  /** Combining in order multiplies the moduli and appends the digits below the accumulated value. */
  lemma {:induction false} CombineAllIs(acc: Info, ds: seq<Info>)
    requires ValidInfo(acc) && forall i | 0 <= i < |ds| :: ValidInfo(ds[i])
    ensures CombineAll(acc, ds) == Info(acc.modulus * Product(ds), acc.value * Product(ds) + Number(ds))
    decreases |ds|
  {
    if ds != [] {
      var c := Combined(acc, ds[0]);
      CombineAllIs(c, ds[1..]);
      var p, n := Product(ds[1..]), Number(ds[1..]);
      var m0, d0 := ds[0].modulus, ds[0].value;
      assert Product(ds) == m0 * p && Number(ds) == d0 * p + n;
      MulAssoc(acc.modulus, m0, p);
      MulAssoc(acc.value, m0, p);
      MulDistrib(acc.value * m0, d0, p);
    }
  }

  /** Splitting the spelled number by the same moduli gives the digits back. */
  lemma {:induction false} SplitAllNumber(ds: seq<Info>)
    requires forall i | 0 <= i < |ds| :: ValidInfo(ds[i])
    ensures SplitAll(Info(Product(ds), Number(ds)), Moduli(ds)) == ds
    decreases |ds|
  {
    if ds != [] {
      var a := Info(Product(ds), Number(ds));
      var tail := Info(Product(ds[1..]), Number(ds[1..]));
      SplitUndoesCombine(ds[0], tail);
      assert Combined(ds[0], tail) == a;
      SplitAllNumber(ds[1..]);
      assert Moduli(ds)[1..] == Moduli(ds[1..]);
    }
  }

  /**
   * The round trip of the hint protocol: the answers combined from none()
   * are split back, by the same moduli in the same order, into exactly the
   * answers.
   */
  lemma CombineThenSplit(ds: seq<Info>)
    requires forall i | 0 <= i < |ds| :: ValidInfo(ds[i])
    ensures SplitAll(CombineAll(NoInfo(), ds), Moduli(ds)) == ds
  {
    CombineAllIs(NoInfo(), ds);
    var p, n := Product(ds), Number(ds);
    assert CombineAll(NoInfo(), ds) == Info(p, n) by {
      assert 1 * p == p && 0 * p + n == n;
    }
    SplitAllNumber(ds);
  }

  /** add: the sum of the two values modulo the shared modulus. */
  function Added(a: Info, b: Info): (r: Info)
    requires ValidInfo(a) && ValidInfo(b) && a.modulus == b.modulus
    ensures ValidInfo(r) && r.modulus == a.modulus
  {
    Info(a.modulus, (a.value + b.value) % a.modulus)
  }

  /** subtract: the difference of the two values modulo the shared modulus. */
  function Subtracted(a: Info, b: Info): (r: Info)
    requires ValidInfo(a) && ValidInfo(b) && a.modulus == b.modulus
    ensures ValidInfo(r) && r.modulus == a.modulus
  {
    Info(a.modulus, (a.modulus + a.value - b.value) % a.modulus)
  }

  /** subtract undoes add. */
  lemma SubtractUndoesAdd(a: Info, b: Info)
    requires ValidInfo(a) && ValidInfo(b) && a.modulus == b.modulus
    ensures Subtracted(Added(a, b), b) == a
  {
    var m, x, y := a.modulus, a.value, b.value;
    if x + y < m {
      DivModUnique(x + y, m, 0, x + y);
      DivModUnique(m + x, m, 1, x);
    } else {
      DivModUnique(x + y, m, 1, x + y - m);
      DivModUnique(x, m, 0, x);
    }
  }

  /** add undoes subtract. */
  lemma AddUndoesSubtract(a: Info, b: Info)
    requires ValidInfo(a) && ValidInfo(b) && a.modulus == b.modulus
    ensures Added(Subtracted(a, b), b) == a
  {
    var m, x, y := a.modulus, a.value, b.value;
    if x >= y {
      DivModUnique(m + x - y, m, 1, x - y);
      DivModUnique(x, m, 0, x);
    } else {
      DivModUnique(m + x - y, m, 0, m + x - y);
      DivModUnique(m + x, m, 1, x);
    }
  }

  class ModulusInformation {
    var modulus: int
    var value: int

    function Pair(): Info
      reads this
    {
      Info(modulus, value)
    }

    /** The source asserts value < modulus; every value it builds is non-negative. */
    constructor (m: int, v: int)
      requires 0 <= v < m
      ensures Pair() == Info(m, v) && ValidInfo(Pair())
    {
      modulus := m;
      value := v;
    }

    /** combine(other): other becomes the least significant digit. */
    method Combine(other: ModulusInformation)
      requires ValidInfo(Pair()) && ValidInfo(other.Pair())
      modifies this
      ensures Pair() == Combined(old(Pair()), old(other.Pair()))
    {
      var m, v := other.modulus, other.value;
      value := value * m + v;
      modulus := modulus * m;
    }

    /**
     * split(m, permissive): the most significant digit is returned and
     * removed. The source asserts that m divides the modulus unless
     * permissive; it divides by modulus / m, so m must not exceed it.
     */
    method Split(m: int, permissive: bool) returns (r: ModulusInformation)
      requires ValidInfo(Pair()) && 1 <= m <= modulus
      requires !permissive ==> modulus % m == 0
      modifies this
      ensures fresh(r)
      ensures r.Pair() == SplitDigit(old(Pair()), m)
      ensures Pair() == SplitRest(old(Pair()), m)
    {
      ghost var a := Pair();
      var q := modulus / m;
      assert q == SplitRest(a, m).modulus;
      var v := value / q;
      assert Min(v, m - 1) == SplitDigit(a, m).value;
      modulus := q;
      value := value - v * q;
      assert Pair() == SplitRest(a, m);
      r := new ModulusInformation(m, Min(v, m - 1));
    }

    /** cast_up(m): a wider modulus for the same value. */
    method CastUp(m: int)
      requires ValidInfo(Pair()) && modulus <= m && value < m
      modifies this
      ensures ValidInfo(Pair()) && Pair() == Info(m, old(value))
    {
      modulus := m;
    }

    /** cast_down(m): a narrower modulus that still holds the value. */
    method CastDown(m: int)
      requires ValidInfo(Pair()) && modulus >= m && value < m
      modifies this
      ensures ValidInfo(Pair()) && Pair() == Info(m, old(value))
    {
      modulus := m;
    }

    /** add(other): the source asserts both have the same modulus. */
    method Add(other: ModulusInformation)
      requires ValidInfo(Pair()) && ValidInfo(other.Pair()) && modulus == other.modulus
      modifies this
      ensures Pair() == Added(old(Pair()), old(other.Pair()))
    {
      value := (value + other.value) % modulus;
    }

    /** subtract(other): the source asserts both have the same modulus. */
    method Subtract(other: ModulusInformation)
      requires ValidInfo(Pair()) && ValidInfo(other.Pair()) && modulus == other.modulus
      modifies this
      ensures Pair() == Subtracted(old(Pair()), old(other.Pair()))
    {
      value := (modulus + value - other.value) % modulus;
    }
  }
}
