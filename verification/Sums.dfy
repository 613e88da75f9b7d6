/** Sums of a real-valued map over a set of its keys. */
module Sums {

  ghost function Total<K>(s: set<K>, w: map<K, real>): real
    requires s <= w.Keys
  {
    if s == {} then 0.0
    else
      var x :| x in s;
      w[x] + Total(s - {x}, w)
  }

  lemma {:induction false} TotalTake<K>(s: set<K>, w: map<K, real>, x: K)
    requires s <= w.Keys && x in s
    ensures Total(s, w) == w[x] + Total(s - {x}, w)
    decreases |s|
  {
    var y :| y in s && Total(s, w) == w[y] + Total(s - {y}, w);
    if x != y {
      TotalTake(s - {y}, w, x);
      TotalTake(s - {x}, w, y);
      assert s - {y} - {x} == s - {x} - {y};
    }
  }

  lemma TotalAdd<K>(s: set<K>, w: map<K, real>, x: K)
    requires s <= w.Keys && x in w && x !in s
    ensures Total(s + {x}, w) == Total(s, w) + w[x]
  {
    TotalTake(s + {x}, w, x);
    assert s + {x} - {x} == s;
  }

  lemma {:induction false} TotalDisjoint<K>(a: set<K>, b: set<K>, w: map<K, real>)
    requires a <= w.Keys && b <= w.Keys && a !! b
    ensures Total(a + b, w) == Total(a, w) + Total(b, w)
    decreases |b|
  {
    if b == {} {
      assert a + b == a;
    } else {
      var x :| x in b;
      TotalDisjoint(a, b - {x}, w);
      TotalTake(b, w, x);
      TotalTake(a + b, w, x);
      assert a + b - {x} == a + (b - {x});
    }
  }

  lemma TotalOverlap<K>(a: set<K>, b: set<K>, w: map<K, real>)
    requires a <= w.Keys && b <= w.Keys
    ensures Total(a, w) + Total(b, w) == Total(a + b, w) + Total(a * b, w)
  {
    TotalDisjoint(a, b - a, w);
    TotalDisjoint(b * a, b - a, w);
    assert a + (b - a) == a + b && b * a + (b - a) == b && b * a == a * b;
  }

  lemma {:induction false} TotalNonNegative<K>(s: set<K>, w: map<K, real>)
    requires s <= w.Keys && forall k :: k in s ==> w[k] >= 0.0
    ensures Total(s, w) >= 0.0
    ensures Total(s, w) > 0.0 ==> exists k :: k in s && w[k] > 0.0
    decreases |s|
  {
    if s == {} {
    } else {
      var x :| x in s && Total(s, w) == w[x] + Total(s - {x}, w);
      TotalNonNegative(s - {x}, w);
    }
  }

  lemma TotalMonotone<K>(a: set<K>, b: set<K>, w: map<K, real>)
    requires a <= b <= w.Keys && forall k :: k in b ==> w[k] >= 0.0
    ensures Total(a, w) <= Total(b, w)
  {
    TotalDisjoint(a, b - a, w);
    TotalNonNegative(b - a, w);
    assert a + (b - a) == b;
  }

  lemma {:induction false} TotalDominates<K>(s: set<K>, v: map<K, real>, w: map<K, real>)
    requires s <= v.Keys && s <= w.Keys && forall k :: k in s ==> v[k] <= w[k]
    ensures Total(s, v) <= Total(s, w)
    decreases |s|
  {
    if s == {} {
    } else {
      var x :| x in s && Total(s, v) == v[x] + Total(s - {x}, v);
      TotalDominates(s - {x}, v, w);
      TotalTake(s, w, x);
    }
  }

  lemma TotalLess<K>(s: set<K>, v: map<K, real>, w: map<K, real>, x: K)
    requires s <= v.Keys && s <= w.Keys && (forall k :: k in s ==> v[k] <= w[k]) && x in s && v[x] < w[x]
    ensures Total(s, v) < Total(s, w)
  {
    TotalTake(s, v, x);
    TotalTake(s, w, x);
    TotalDominates(s - {x}, v, w);
  }
}
