/** Sums of real weights over finite sets, independent of the order in which a set is walked. */
module WeightSum {

  ghost function Sum<K>(s: set<K>, w: map<K, real>): real
    requires s <= w.Keys
    decreases |s|
  {
    if s == {} then 0.0
    else
      var x :| x in s;
      w[x] + Sum(s - {x}, w)
  }

  /** Any element may be taken out first. */
  lemma {:induction false} SumPick<K>(s: set<K>, w: map<K, real>, x: K)
    requires s <= w.Keys && x in s
    ensures Sum(s, w) == w[x] + Sum(s - {x}, w)
    decreases |s|
  {
    var y :| y in s && Sum(s, w) == w[y] + Sum(s - {y}, w);
    if y != x {
      SumPick(s - {y}, w, x);
      SumPick(s - {x}, w, y);
      assert s - {y} - {x} == s - {x} - {y};
    }
  }

  lemma {:induction false} SumDisjoint<K>(a: set<K>, b: set<K>, w: map<K, real>)
    requires a + b <= w.Keys && a !! b
    ensures Sum(a + b, w) == Sum(a, w) + Sum(b, w)
    decreases |a|
  {
    if a == {} {
      assert a + b == b;
    } else {
      var x :| x in a;
      SumDisjoint(a - {x}, b, w);
      SumPick(a, w, x);
      SumPick(a + b, w, x);
      assert a + b - {x} == (a - {x}) + b;
    }
  }

  lemma SumSplit<K>(s: set<K>, part: set<K>, w: map<K, real>)
    requires s <= w.Keys && part <= s
    ensures Sum(s, w) == Sum(part, w) + Sum(s - part, w)
  {
    SumDisjoint(part, s - part, w);
    assert part + (s - part) == s;
  }

  /** Inclusion and exclusion. */
  lemma SumOverlap<K>(a: set<K>, b: set<K>, w: map<K, real>)
    requires a + b <= w.Keys
    ensures Sum(a + b, w) + Sum(a * b, w) == Sum(a, w) + Sum(b, w)
  {
    SumSplit(a + b, a, w);
    SumSplit(b, a * b, w);
    assert a + b - a == b - a * b;
  }

  predicate NonNegative<K>(w: map<K, real>) {
    forall k :: k in w ==> w[k] >= 0.0
  }

  lemma {:induction false} SumNonNegative<K>(s: set<K>, w: map<K, real>)
    requires s <= w.Keys && NonNegative(w)
    ensures Sum(s, w) >= 0.0
    decreases |s|
  {
    if s != {} {
      var x :| x in s;
      SumPick(s, w, x);
      SumNonNegative(s - {x}, w);
    }
  }

  lemma {:induction false} SumZero<K>(s: set<K>, w: map<K, real>)
    requires s <= w.Keys && forall k :: k in s ==> w[k] == 0.0
    ensures Sum(s, w) == 0.0
    decreases |s|
  {
    if s != {} {
      var x :| x in s;
      SumPick(s, w, x);
      SumZero(s - {x}, w);
    }
  }

  lemma SumMonotone<K>(a: set<K>, b: set<K>, w: map<K, real>)
    requires a <= b <= w.Keys && NonNegative(w)
    ensures Sum(a, w) <= Sum(b, w)
  {
    SumSplit(b, a, w);
    SumNonNegative(b - a, w);
  }

  /** Weights between u and 1.5 u have sums in the same range. */
  lemma {:induction false} SumBetween<K>(s: set<K>, u: map<K, real>, w: map<K, real>)
    requires s <= u.Keys && s <= w.Keys
    requires forall k :: k in s ==> u[k] <= w[k] <= 1.5 * u[k]
    ensures Sum(s, u) <= Sum(s, w) <= 1.5 * Sum(s, u)
    decreases |s|
  {
    if s != {} {
      var x :| x in s;
      SumPick(s, u, x);
      SumPick(s, w, x);
      SumBetween(s - {x}, u, w);
    }
  }
}
