/**
 * copyKeys: the keys of an ordered map, in the order the map iterates them,
 * which is ascending in the map's key order. Dafny's maps carry no order,
 * so the order is a parameter, a strict total order on the keys.
 */
module MapKeys {
  ghost predicate StrictTotalOrder<K(!new)>(less: (K, K) -> bool, keys: set<K>) {
    && (forall a | a in keys :: !less(a, a))
    && (forall a, b, c | a in keys && b in keys && c in keys :: less(a, b) && less(b, c) ==> less(a, c))
    && (forall a, b | a in keys && b in keys :: a == b || less(a, b) || less(b, a))
  }

  predicate IsLeast<K>(less: (K, K) -> bool, x: K, keys: set<K>) {
    x in keys && forall y | y in keys && y != x :: less(x, y)
  }

  /** Every non-empty set of keys has a least key, which is what the map's iteration visits first. */
  lemma {:induction false} LeastExists<K(!new)>(less: (K, K) -> bool, keys: set<K>)
    requires keys != {} && StrictTotalOrder(less, keys)
    ensures exists x :: IsLeast(less, x, keys)
    decreases |keys|
  {
    var a :| a in keys;
    var rest := keys - {a};
    if rest == {} {
      assert forall y | y in keys :: y == a by {
        forall y | y in keys ensures y == a {
          assert y !in rest;
        }
      }
      assert IsLeast(less, a, keys);
    } else {
      LeastExists(less, rest);
      var m :| IsLeast(less, m, rest);
      if less(a, m) {
        assert IsLeast(less, a, keys);
      } else {
        assert IsLeast(less, m, keys);
      }
    }
  }

  /**
   * The keys in ascending order, each exactly once. The loop visits the
   * keys as the map's iterator does: the least key not yet visited next.
   */
  method CopyKeys<K(!new), V>(m: map<K, V>, less: (K, K) -> bool) returns (res: seq<K>)
    requires StrictTotalOrder(less, m.Keys)
    ensures forall k :: k in res <==> k in m
    ensures forall i, j | 0 <= i < j < |res| :: less(res[i], res[j])
    ensures |res| == |m.Keys|
  {
    res := [];
    var rest := m.Keys;
    while rest != {}
      invariant rest <= m.Keys
      invariant forall k :: k in m <==> k in rest || k in res
      invariant forall k | k in res :: k !in rest
      invariant forall i, j | 0 <= i < j < |res| :: less(res[i], res[j])
      invariant forall i, k | 0 <= i < |res| && k in rest :: less(res[i], k)
      invariant |res| + |rest| == |m.Keys|
      decreases |rest|
    {
      LeastExists(less, rest);
      var k :| IsLeast(less, k, rest);
      res := res + [k];
      rest := rest - {k};
    }
  }
}
