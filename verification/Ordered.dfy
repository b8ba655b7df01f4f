/** The key order in which an iterator walks a `std::map`. */
module Ordered {
  import opened Wrappers

  ghost predicate StrictTotal<K(!new)>(lt: (K, K) -> bool) {
    && (forall x :: !lt(x, x))
    && (forall x, y, z :: lt(x, y) && lt(y, z) ==> lt(x, z))
    && (forall x, y :: x != y ==> lt(x, y) || lt(y, x))
  }

  ghost predicate IsFirst<K>(k: K, s: set<K>, lt: (K, K) -> bool) {
    k in s && forall x | x in s :: x == k || lt(k, x)
  }

  ghost predicate Ascending<K>(ks: seq<K>, lt: (K, K) -> bool) {
    forall i, j | 0 <= i < j < |ks| :: lt(ks[i], ks[j])
  }

  lemma FirstExists<K(!new)>(s: set<K>, lt: (K, K) -> bool)
    requires s != {} && StrictTotal(lt)
    ensures exists k :: IsFirst(k, s, lt)
  {
    var x :| x in s;
    if s == {x} {
      assert IsFirst(x, s, lt);
    } else {
      var rest := s - {x};
      assert s == rest + {x};
      FirstExists(rest, lt);
      var k :| IsFirst(k, rest, lt);
      assert IsFirst(if lt(k, x) then k else x, s, lt);
    }
  }

  function First<K(!new)>(s: set<K>, lt: (K, K) -> bool): (k: K)
    requires s != {} && StrictTotal(lt)
    ensures IsFirst(k, s, lt)
  {
    FirstExists(s, lt);
    var k :| k in s && forall x | x in s :: x == k || lt(k, x);
    k
  }

  /** The elements of `s` in ascending order. */
  function InOrder<K(!new)>(s: set<K>, lt: (K, K) -> bool): (ks: seq<K>)
    requires StrictTotal(lt)
    ensures Ascending(ks, lt) && |ks| == |s| && forall k :: k in ks <==> k in s
    decreases |s|
  {
    if s == {} then []
    else
      var k := First(s, lt);
      assert s == (s - {k}) + {k};
      [k] + InOrder(s - {k}, lt)
  }

  /** There is only one ascending list of given elements. */
  lemma {:induction false} InOrderUnique<K(!new)>(ks: seq<K>, s: set<K>, lt: (K, K) -> bool)
    requires StrictTotal(lt) && Ascending(ks, lt) && forall k :: k in ks <==> k in s
    ensures ks == InOrder(s, lt)
    decreases |ks|
  {
    if ks == [] {
      assert s == {};
    } else {
      var k := ks[0];
      assert k in ks;
      assert k == First(s, lt);
      assert forall x :: x in ks[1..] <==> x in s - {k} by {
        forall x ensures x in ks[1..] <==> x in s - {k} {
          if x in ks[1..] {
            var i :| 0 <= i < |ks[1..]| && ks[1..][i] == x;
            assert lt(ks[0], ks[i + 1]);
          }
        }
      }
      InOrderUnique(ks[1..], s - {k}, lt);
    }
  }

  lemma AscendingWithout<K>(ks: seq<K>, i: nat, lt: (K, K) -> bool)
    requires i < |ks| && Ascending(ks, lt)
    ensures Ascending(Without(ks, i), lt)
  {
    forall m, n | 0 <= m < n < |ks| - 1 ensures lt(Without(ks, i)[m], Without(ks, i)[n]) {
      WithoutAt(ks, i, m);
      WithoutAt(ks, i, n);
    }
  }

  lemma {:induction false} SizeBound<K>(s: set<K>, ks: seq<K>)
    requires forall k | k in s :: k in ks
    ensures |s| <= |ks|
    decreases ks
  {
    if ks == [] {
      assert s == {};
    } else {
      var rest := s - {ks[0]};
      SizeBound(rest, ks[1..]);
      assert s <= rest + {ks[0]};
      Larger(s, rest + {ks[0]});
    }
  }

  lemma {:induction false} Larger<K>(s: set<K>, t: set<K>)
    requires s <= t
    ensures |s| <= |t|
    decreases s
  {
    if s == {} {
    } else {
      var k :| k in s;
      Larger(s - {k}, t - {k});
    }
  }
}
