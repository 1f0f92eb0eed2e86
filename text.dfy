/**
 * The string primitives the web front end and the Python web server rely on:
 * splitting on a separator character (Python's `str.split(sep)`), joining,
 * printing an integer in decimal (JavaScript's number-to-string and
 * Python's `str(int)` agree on integers), Python's `int(str)`, ASCII
 * upper/lower case and JavaScript's `replace` with a one-character pattern.
 */
module Text {
  import opened Wrappers

  // ---------------------------------------------------------------------
  // Splitting and joining
  // ---------------------------------------------------------------------

  /** `sep.join(parts)`. */
  function Join(parts: seq<string>, sep: char): (s: string)
    requires |parts| >= 1
    decreases |parts|
  {
    if |parts| == 1 then parts[0] else parts[0] + [sep] + Join(parts[1..], sep)
  }

  predicate NoSep(parts: seq<string>, sep: char) {
    forall i :: 0 <= i < |parts| ==> sep !in parts[i]
  }

  /**
   * `s.split(sep)` with an explicit one-character separator: every
   * occurrence separates, so adjacent separators give empty parts and the
   * empty string gives one empty part. Joining the parts back gives `s`.
   */
  function {:induction false} Split(s: string, sep: char): (parts: seq<string>)
    ensures |parts| >= 1
    ensures NoSep(parts, sep)
    ensures Join(parts, sep) == s
    ensures |parts| == 1 <==> sep !in s
    decreases |s|
  {
    if |s| == 0 then [""]
    else
      var rest := Split(s[1..], sep);
      if s[0] == sep then
        assert s == [sep] + s[1..];
        [""] + rest
      else
        var parts := [[s[0]] + rest[0]] + rest[1..];
        assert parts[1..] == rest[1..];
        assert s == [s[0]] + s[1..];
        parts
  }

  lemma {:induction false} JoinOneSep(parts: seq<string>, sep: char)
    requires |parts| >= 1 && NoSep(parts, sep)
    ensures sep in Join(parts, sep) <==> |parts| > 1
    decreases |parts|
  {
    if |parts| > 1 {
      var tail := Join(parts[1..], sep);
      assert Join(parts, sep) == parts[0] + [sep] + tail;
      assert Join(parts, sep)[|parts[0]|] == sep;
    }
  }

  /** Splitting undoes joining when no part contains the separator. */
  lemma {:induction false} SplitJoin(parts: seq<string>, sep: char)
    requires |parts| >= 1 && NoSep(parts, sep)
    ensures Split(Join(parts, sep), sep) == parts
    decreases |parts|, |parts[0]|
  {
    var s := Join(parts, sep);
    if |parts[0]| == 0 {
      if |parts| == 1 {
      } else {
        var tail := Join(parts[1..], sep);
        assert s == [sep] + tail;
        assert s[1..] == tail;
        SplitJoin(parts[1..], sep);
        assert parts == [""] + parts[1..];
      }
    } else {
      var c := parts[0][0];
      var shorter := [parts[0][1..]] + parts[1..];
      assert NoSep(shorter, sep) by {
        forall i | 0 <= i < |shorter| ensures sep !in shorter[i] {
          if i == 0 {
            assert parts[0] == [c] + parts[0][1..];
          } else {
            assert shorter[i] == parts[i];
          }
        }
      }
      assert c != sep by { assert c == parts[0][0]; }
      assert shorter[1..] == parts[1..];
      if |parts| == 1 {
        assert s == [c] + Join(shorter, sep) by {
          assert parts[0] == [c] + parts[0][1..];
        }
      } else {
        assert s == [c] + Join(shorter, sep) by {
          assert parts[0] == [c] + parts[0][1..];
          assert Join(shorter, sep) == parts[0][1..] + [sep] + Join(parts[1..], sep);
        }
      }
      assert s[1..] == Join(shorter, sep);
      SplitJoin(shorter, sep);
      var rest := Split(s[1..], sep);
      assert rest == shorter;
      assert Split(s, sep) == [[c] + rest[0]] + rest[1..];
      assert [c] + parts[0][1..] == parts[0];
    }
  }

  // ---------------------------------------------------------------------
  // Decimal digits
  // ---------------------------------------------------------------------

  predicate IsDigit(c: char) { '0' <= c <= '9' }

  function DigitChar(d: int): (c: char)
    requires 0 <= d < 10
    ensures IsDigit(c)
  {
    ('0' as int + d) as char
  }

  function DigitValue(c: char): (d: int)
    requires IsDigit(c)
    ensures 0 <= d < 10 && DigitChar(d) == c
  {
    c as int - '0' as int
  }

  predicate AllDigits(s: string) { forall i :: 0 <= i < |s| ==> IsDigit(s[i]) }

  /** The value of a string of decimal digits, most significant first. */
  function DigitsValue(s: string): (n: nat)
    requires AllDigits(s)
    decreases |s|
  {
    if |s| == 0 then 0 else DigitsValue(s[..|s| - 1]) * 10 + DigitValue(s[|s| - 1])
  }

  /** The decimal digits of a natural number, without leading zeros. */
  function {:induction false} NatToString(n: nat): (s: string)
    ensures |s| >= 1 && AllDigits(s)
    ensures DigitsValue(s) == n
    ensures s[0] == '0' ==> n == 0
    decreases n
  {
    if n < 10 then [DigitChar(n)]
    else
      var s := NatToString(n / 10) + [DigitChar(n % 10)];
      assert s[..|s| - 1] == NatToString(n / 10);
      s
  }

  /** Distinct numbers print differently. */
  lemma NatToStringInjective(a: nat, b: nat)
    ensures NatToString(a) == NatToString(b) ==> a == b
  {
  }

  /** The decimal form of an integer: a minus sign before the digits of a negative one. */
  function IntToString(n: int): (s: string)
    ensures |s| >= 1
    ensures ' ' !in s
  {
    if n < 0 then "-" + NatToString(-n) else NatToString(n)
  }

  // ---------------------------------------------------------------------
  // Python's int(str)
  // ---------------------------------------------------------------------

  /**
   * The characters `str.strip()` removes whose code is below 256: tab,
   * line feed, vertical tab, form feed, carriage return, the file, group,
   * record and unit separators, space, next line and no-break space.
   */
  predicate IsPySpace(c: char) {
    var k := c as int;
    (9 <= k <= 13) || (28 <= k <= 32) || k == 0x85 || k == 0xA0
  }

  function StripLeft(s: string): (t: string)
    ensures |t| <= |s| && t == s[|s| - |t|..]
    ensures |t| > 0 ==> !IsPySpace(t[0])
    decreases |s|
  {
    if |s| > 0 && IsPySpace(s[0]) then StripLeft(s[1..]) else s
  }

  function StripRight(s: string): (t: string)
    ensures |t| <= |s| && t == s[..|t|]
    ensures |t| > 0 ==> !IsPySpace(t[|t| - 1])
    decreases |s|
  {
    if |s| > 0 && IsPySpace(s[|s| - 1]) then StripRight(s[..|s| - 1]) else s
  }

  function Strip(s: string): string { StripRight(StripLeft(s)) }

  /**
   * The digit part int() accepts: digits, where single underscores may
   * separate two digits.
   */
  predicate DigitGroups(s: string) {
    |s| > 0 && IsDigit(s[0]) && IsDigit(s[|s| - 1])
    && (forall i :: 0 <= i < |s| ==> IsDigit(s[i]) || s[i] == '_')
    && (forall i :: 0 <= i < |s| - 1 ==> !DoubleUnderscoreAt(s, i))
  }

  predicate DoubleUnderscoreAt(s: string, i: int)
    requires 0 <= i < |s| - 1
  {
    s[i] == '_' && s[i + 1] == '_'
  }

  function DropUnderscores(s: string): (t: string)
    ensures (forall i :: 0 <= i < |s| ==> IsDigit(s[i]) || s[i] == '_') ==> AllDigits(t)
    ensures AllDigits(s) ==> t == s
    decreases |s|
  {
    if |s| == 0 then ""
    else if s[|s| - 1] == '_' then DropUnderscores(s[..|s| - 1])
    else DropUnderscores(s[..|s| - 1]) + [s[|s| - 1]]
  }

  /**
   * int(s) for a string: surrounding white space is ignored, an optional
   * sign, then decimal digit groups (leading zeros allowed); None where
   * int() raises ValueError.
   */
  function PyInt(s: string): (r: Option<int>)
    ensures r.Some? ==> |Strip(s)| > 0
  {
    var t := Strip(s);
    if |t| == 0 then None else SignedInt(t)
  }

  /** The part of int() after stripping: an optional sign, then digit groups. */
  function SignedInt(t: string): Option<int>
    requires |t| > 0
  {
    var negative := t[0] == '-';
    var body := if t[0] == '-' || t[0] == '+' then t[1..] else t;
    if !DigitGroups(body) then None
    else
      var n: int := DigitsValue(DropUnderscores(body));
      Some(if negative then -n else n)
  }

  /** int() reads back every integer its decimal form prints. */
  lemma PyIntOfIntToString(n: int)
    ensures PyInt(IntToString(n)) == Some(n)
  {
    var s := IntToString(n);
    StripKeeps(s);
    if n < 0 {
      SignedIntOfNegative(-n);
    } else {
      SignedIntOfDigits(n);
    }
  }

  lemma SignedIntOfDigits(m: nat)
    ensures SignedInt(NatToString(m)) == Some(m)
  {
    NatDigitsParse(m);
    assert IsDigit(NatToString(m)[0]);
  }

  lemma SignedIntOfNegative(m: nat)
    ensures SignedInt("-" + NatToString(m)) == Some(-(m as int))
  {
    NatDigitsParse(m);
    assert ("-" + NatToString(m))[1..] == NatToString(m);
  }

  /** A string that neither starts nor ends with white space is its own strip. */
  lemma StripKeeps(s: string)
    requires |s| > 0 && !IsPySpace(s[0]) && !IsPySpace(s[|s| - 1])
    ensures Strip(s) == s
  {
    assert StripLeft(s) == s;
  }

  /** The digits of a natural number form one digit group with nothing to drop. */
  lemma NatDigitsParse(m: nat)
    ensures DigitGroups(NatToString(m))
    ensures DropUnderscores(NatToString(m)) == NatToString(m)
  {
  }

  // ---------------------------------------------------------------------
  // Case and replacement
  // ---------------------------------------------------------------------

  function UpperChar(c: char): (u: char)
    ensures !('a' <= u <= 'z')
  {
    if 'a' <= c <= 'z' then (c as int - 32) as char else c
  }

  function LowerChar(c: char): (l: char)
    ensures !('A' <= l <= 'Z')
  {
    if 'A' <= c <= 'Z' then (c as int + 32) as char else c
  }

  /** `toUpperCase()` on ASCII letters; other characters are kept. */
  function Upper(s: string): (u: string)
    ensures |u| == |s| && forall i :: 0 <= i < |s| ==> u[i] == UpperChar(s[i])
  {
    seq(|s|, i requires 0 <= i < |s| => UpperChar(s[i]))
  }

  /** `lower()` on ASCII letters; other characters are kept. */
  function Lower(s: string): (l: string)
    ensures |l| == |s| && forall i :: 0 <= i < |s| ==> l[i] == LowerChar(s[i])
  {
    seq(|s|, i requires 0 <= i < |s| => LowerChar(s[i]))
  }

  predicate IsUpper(s: string) { Upper(s) == s }

  /** Upper-casing is idempotent. */
  lemma UpperIdempotent(s: string)
    ensures IsUpper(Upper(s))
  {
    assert Upper(Upper(s)) == Upper(s);
  }

  /** The position of the first `x` in `s`, or |s| when there is none. */
  function IndexOf(s: string, x: char): (i: nat)
    ensures i <= |s| && x !in s[..i]
    ensures i < |s| ==> s[i] == x
    ensures i == |s| <==> x !in s
    decreases |s|
  {
    if |s| == 0 then 0
    else if s[0] == x then 0
    else
      var i := 1 + IndexOf(s[1..], x);
      assert s[..i] == [s[0]] + s[1..][..i - 1];
      assert s == [s[0]] + s[1..];
      i
  }

  /**
   * `s.replace(x, y)` with one-character strings: only the first
   * occurrence of `x` is replaced.
   */
  function ReplaceFirst(s: string, x: char, y: char): (r: string)
    ensures |r| == |s|
    ensures x !in s ==> r == s
    ensures var i := IndexOf(s, x); i < |s| ==> r == s[..i] + [y] + s[i + 1..]
  {
    var i := IndexOf(s, x);
    if i == |s| then s else s[..i] + [y] + s[i + 1..]
  }
}
