/** Cardinalities of finite sets and the pigeonhole principle. */
module Sets {
  function Range(lo: nat, hi: nat): (s: set<nat>)
    requires lo <= hi
    ensures |s| == hi - lo
    ensures forall x :: x in s <==> lo <= x < hi
    decreases hi - lo
  {
    if lo == hi then {} else Range(lo, hi - 1) + {hi - 1}
  }

  lemma SubsetSize<T>(s: set<T>, t: set<T>)
    requires s <= t
    ensures |s| <= |t|
    ensures |s| == |t| ==> s == t
  {
    assert |t - s| == |t| - |s|;
    assert t == s + (t - s);
  }

  lemma DisjointSize<T>(s: set<T>, t: set<T>)
    requires s !! t
    ensures |s + t| == |s| + |t|
  {
  }

  lemma UnionSize<T>(s: set<T>, t: set<T>)
    ensures |s + t| <= |s| + |t|
  {
    assert |s + t| == |s| + |t - s|;
    SubsetSize(t - s, t);
  }

  /** A sequence without repetition has as many elements as positions. */
  lemma {:induction false} Distinct<T>(q: seq<T>)
    requires forall i, j | 0 <= i < j < |q| :: q[i] != q[j]
    ensures |set x | x in q| == |q|
  {
    if q != [] {
      var r := q[..|q|-1];
      Distinct(r);
      assert q == r + [q[|q|-1]];
      assert (set x | x in q) == (set x | x in r) + {q[|q|-1]};
    }
  }

  /** n distinct numbers below n are all of them. */
  lemma Onto(q: seq<nat>, b: nat)
    requires b < |q| && forall i | 0 <= i < |q| :: q[i] < |q|
    requires forall i, j | 0 <= i < j < |q| :: q[i] != q[j]
    ensures b in q
  {
    var all := set x | x in q;
    Distinct(q);
    SubsetSize(all, Range(0, |q|));
    assert b in Range(0, |q|);
  }

  lemma {:induction false} ValuesSize<K, V>(m: map<K, V>)
    ensures |m.Values| <= |m|
    decreases |m|
  {
    if m.Keys != {} {
      var k :| k in m;
      var r := m - {k};
      assert r.Keys == m.Keys - {k};
      ValuesSize(r);
      assert m.Values <= r.Values + {m[k]} by {
        forall v | v in m.Values ensures v in r.Values + {m[k]} {
          var j :| j in m && m[j] == v;
          if j != k { assert j in r && r[j] == v; }
        }
      }
      SubsetSize(m.Values, r.Values + {m[k]});
    } else {
      assert m.Values == {};
    }
  }
}
