/** Sums of an integer-valued function over a finite set of integers, used to count the edges
    of a graph independently of the order in which its vertices are visited. */
module SetSums {

  /** A set of positive size has an element to pick. */
  lemma Occupied(s: set<int>)
    requires |s| > 0
    ensures exists x :: x in s
  {
    if forall x :: x !in s {
      assert false;
    }
  }

  /** The same for a set of pairs. */
  lemma OccupiedPairs(s: set<(int, int)>)
    requires |s| > 0
    ensures exists x :: x in s
  {
    if forall x :: x !in s {
      assert false;
    }
  }

  /** A subset has at most as many elements as the set, and as many only when it is the set. */
  lemma SubsetCard<T>(a: set<T>, b: set<T>)
    requires a <= b
    ensures |a| <= |b|
    ensures |a| == |b| ==> a == b
    ensures |a| < |b| ==> |b - a| > 0
  {
    assert b * a == a;
    assert |b - a| == |b| - |a|;
    if |a| == |b| {
      assert b - a == {};
      forall x | x in b
        ensures x in a
      {
        assert x !in b - a;
      }
    }
  }

  /** Moving one picked element from the elements still to visit to the visited ones. */
  lemma Moved(keys: set<int>, rest: set<int>, u: int)
    requires u in rest && rest <= keys
    ensures rest - {u} <= keys && keys - (rest - {u}) == (keys - rest) + {u}
  {
  }

  /** The sum of `f` over `s`. */
  ghost function Sum(s: set<int>, f: int -> int): int
    decreases s
  {
    if exists x :: x in s then var x :| x in s; f(x) + Sum(s - {x}, f) else 0
  }

  /** Any element can be taken out of the sum first. */
  lemma {:induction false} SumRemove(s: set<int>, f: int -> int, y: int)
    requires y in s
    ensures Sum(s, f) == f(y) + Sum(s - {y}, f)
    decreases s
  {
    var x :| x in s && Sum(s, f) == f(x) + Sum(s - {x}, f);
    if x != y {
      SumRemove(s - {x}, f, y);
      SumRemove(s - {y}, f, x);
      assert s - {x} - {y} == s - {y} - {x};
    }
  }

  /** Adding an element outside the set adds its value. */
  lemma SumInsert(s: set<int>, f: int -> int, y: int)
    requires y !in s
    ensures Sum(s + {y}, f) == Sum(s, f) + f(y)
  {
    SumRemove(s + {y}, f, y);
    assert s + {y} - {y} == s;
  }

  /** Functions that agree on `s` have the same sum over it. */
  lemma {:induction false} SumCongruent(s: set<int>, f: int -> int, g: int -> int)
    requires forall x :: x in s ==> f(x) == g(x)
    ensures Sum(s, f) == Sum(s, g)
    decreases s
  {
    if x :| x in s {
      SumRemove(s, f, x);
      SumRemove(s, g, x);
      SumCongruent(s - {x}, f, g);
    }
  }

  /** The sum is linear: summing `f + g` pointwise adds the sums. */
  lemma {:induction false} SumAdd(s: set<int>, f: int -> int, g: int -> int, h: int -> int)
    requires forall x :: x in s ==> h(x) == f(x) + g(x)
    ensures Sum(s, h) == Sum(s, f) + Sum(s, g)
    decreases s
  {
    if x :| x in s {
      SumRemove(s, f, x);
      SumRemove(s, g, x);
      SumRemove(s, h, x);
      SumAdd(s - {x}, f, g, h);
    }
  }

  /** A function that is zero on `s` sums to zero over it. */
  lemma SumZero(s: set<int>, f: int -> int)
    requires forall x :: x in s ==> f(x) == 0
    ensures Sum(s, f) == 0
  {
    SumCongruent(s, f, x => 0);
    SumConstZero(s);
  }

  /** The zero function sums to zero. */
  lemma {:induction false} SumConstZero(s: set<int>)
    ensures Sum(s, x => 0) == 0
    decreases s
  {
    if x :| x in s {
      SumRemove(s, x => 0, x);
      SumConstZero(s - {x});
    }
  }

  /** Splitting a set into a subset and the rest splits the sum. */
  lemma {:induction false} SumSplit(s: set<int>, t: set<int>, f: int -> int)
    requires s <= t
    ensures Sum(t, f) == Sum(s, f) + Sum(t - s, f)
    decreases s
  {
    if x :| x in s {
      SumRemove(s, f, x);
      SumRemove(t, f, x);
      SumSplit(s - {x}, t - {x}, f);
      assert t - {x} - (s - {x}) == t - s;
    } else {
      forall z | z in t
        ensures z in t - s
      {
        assert z !in s;
      }
      assert t - s == t;
    }
  }

  /** A non-negative function has a non-negative sum, which is larger than zero exactly when
      some element has a positive value. */
  lemma {:induction false} SumPositive(s: set<int>, f: int -> int)
    requires forall x :: x in s ==> f(x) >= 0
    ensures Sum(s, f) >= 0
    ensures Sum(s, f) > 0 <==> exists x :: x in s && f(x) > 0
    decreases s
  {
    if x :| x in s {
      SumRemove(s, f, x);
      SumPositive(s - {x}, f);
      if f(x) == 0 && Sum(s - {x}, f) == 0 {
        forall y | y in s
          ensures f(y) <= 0
        {
          if y != x {
            assert y in s - {x};
          }
        }
      }
    }
  }

  /** With a non-negative function, a subset sums to at most the whole set, and to exactly it
      only when the function is zero on every element left out. */
  lemma SumSubset(s: set<int>, t: set<int>, f: int -> int)
    requires s <= t && forall x :: x in t ==> f(x) >= 0
    ensures Sum(s, f) <= Sum(t, f)
    ensures Sum(s, f) == Sum(t, f) ==> forall x :: x in t - s ==> f(x) == 0
    ensures Sum(s, f) < Sum(t, f) ==> exists x :: x in t - s && f(x) > 0
  {
    SumSplit(s, t, f);
    SumPositive(t - s, f);
  }

  /** Summing an indicator of `y` counts whether `y` is in the set. */
  lemma SumIndicator(s: set<int>, f: int -> int, y: int)
    requires forall x :: f(x) == if x == y then 1 else 0
    ensures Sum(s, f) == if y in s then 1 else 0
  {
    if y in s {
      SumRemove(s, f, y);
      SumZero(s - {y}, f);
    } else {
      SumZero(s, f);
    }
  }
}
