/** Small sequence helpers used by several modules. */
module SeqUtil {
  /** The sequence without its element at position i (vector::erase). */
  function RemoveAt<T>(s: seq<T>, i: int): (r: seq<T>)
    requires 0 <= i < |s|
    ensures |r| == |s| - 1
    ensures forall k :: 0 <= k < i ==> r[k] == s[k]
    ensures forall k :: i <= k < |r| ==> r[k] == s[k + 1]
  {
    s[..i] + s[i + 1..]
  }

  lemma RemoveAtMultiset<T>(s: seq<T>, i: int)
    requires 0 <= i < |s|
    ensures multiset(RemoveAt(s, i)) + multiset{s[i]} == multiset(s)
  {
    assert s == s[..i] + [s[i]] + s[i + 1..];
  }

  /**
   * The shifting loop of the bots' invalidateKnol: each entry after
   * position i moves down one place and the last entry stays where it was.
   */
  method ShiftDown<T>(s0: seq<T>, i: int) returns (s: seq<T>)
    requires 0 <= i < |s0|
    ensures s == RemoveAt(s0, i) + [s0[|s0| - 1]]
  {
    s := s0;
    var j := i;
    while j + 1 < |s|
      invariant i <= j < |s0| && |s| == |s0|
      invariant forall m | 0 <= m < i :: s[m] == s0[m]
      invariant forall m | i <= m < j :: s[m] == s0[m + 1]
      invariant forall m | j <= m < |s0| :: s[m] == s0[m]
    {
      s := s[j := s[j + 1]];
      j := j + 1;
    }
    assert forall m | 0 <= m < |s| :: s[m] == (RemoveAt(s0, i) + [s0[|s0| - 1]])[m];
  }

  /** Concatenation regrouped. */
  lemma AppendAssoc<T>(s: seq<T>, t: seq<T>, u: seq<T>)
    ensures s + (t + u) == s + t + u
  {
  }

  /** A non-empty sequence is its front followed by its last element. */
  lemma SplitLast<T>(s: seq<T>)
    requires |s| > 0
    ensures s == s[..|s| - 1] + [s[|s| - 1]]
  {
  }

  function Reverse<T>(s: seq<T>): (r: seq<T>)
    ensures |r| == |s|
    ensures forall k :: 0 <= k < |s| ==> r[k] == s[|s| - 1 - k]
  {
    if s == [] then [] else Reverse(s[1..]) + [s[0]]
  }

}
