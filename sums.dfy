/** Grouping a set by a key, sums over the values of a map taken in no
    particular order, and the existence of a minimum: the reductions whose
    iteration order is that of a hash table. */
module Sums {

  /** The sum of f over the values of m. */
  ghost function Sum<K>(m: map<K, nat>, f: nat -> nat): nat
    decreases |m|
  {
    if m == map[] then 0
    else
      var k :| k in m;
      assert (m - {k}).Keys == m.Keys - {k};
      f(m[k]) + Sum(m - {k}, f)
  }

  /** The sum does not depend on which key is taken first. */
  lemma SumSplit<K>(m: map<K, nat>, f: nat -> nat, k: K)
    requires k in m
    ensures Sum(m, f) == f(m[k]) + Sum(m - {k}, f)
    decreases |m|
  {
    var j :| j in m && Sum(m, f) == f(m[j]) + Sum(m - {j}, f);
    if j != k {
      assert (m - {j}).Keys == m.Keys - {j};
      assert (m - {k}).Keys == m.Keys - {k};
      SumSplit(m - {j}, f, k);
      SumSplit(m - {k}, f, j);
      assert m - {j} - {k} == m - {k} - {j};
    }
  }

  function Identity(x: nat): nat {
    x
  }

  function Square(x: nat): nat {
    x * x
  }

  ghost function Total<K>(m: map<K, nat>): nat {
    Sum(m, Identity)
  }

  ghost function SumOfSquares<K>(m: map<K, nat>): nat {
    Sum(m, Square)
  }

  /** Counting one more under key k raises the total by one. */
  lemma TotalIncrement<K>(m: map<K, nat>, k: K)
    ensures Total(m[k := if k in m then m[k] + 1 else 1]) == Total(m) + 1
  {
    var m' := m[k := if k in m then m[k] + 1 else 1];
    SumSplit(m', Identity, k);
    if k in m {
      SumSplit(m, Identity, k);
      assert m' - {k} == m - {k};
    } else {
      assert m' - {k} == m;
    }
  }

  /** The sum of squares of naturals lies between their sum and its
      square. */
  lemma {:induction false} SquaresBetween<K>(m: map<K, nat>)
    ensures Total(m) <= SumOfSquares(m) <= Total(m) * Total(m)
    decreases |m|
  {
    if m != map[] {
      var k :| k in m;
      SumSplit(m, Identity, k);
      SumSplit(m, Square, k);
      assert (m - {k}).Keys == m.Keys - {k};
      SquaresBetween(m - {k});
      SquareStep(m[k], Total(m - {k}), SumOfSquares(m - {k}));
    }
  }

  lemma SquareStep(a: nat, t: nat, q: nat)
    requires t <= q <= t * t
    ensures a + t <= a * a + q <= (a + t) * (a + t)
  {
    if a > 0 {
      assert a * a == a * (a - 1) + a;
    }
    assert (a + t) * (a + t) == a * a + 2 * (a * t) + t * t;
  }

  /** A finite non-empty set has an element where f is least. */
  lemma MinExists<T>(s: set<T>, f: T -> int)
    requires s != {}
    ensures exists x :: x in s && forall y :: y in s ==> f(x) <= f(y)
    decreases |s|
  {
    var x :| x in s;
    if s != {x} {
      MinExists(s - {x}, f);
      var z :| z in s - {x} && forall y :: y in s - {x} ==> f(z) <= f(y);
      if f(x) <= f(z) {
        assert forall y :: y in s ==> f(x) <= f(y);
      } else {
        assert forall y :: y in s ==> f(z) <= f(y);
      }
    }
  }

  /** The keys f gives the elements of s. */
  function Image<T, K(==)>(s: set<T>, f: T -> K): set<K> {
    set x | x in s :: f(x)
  }

  /** The elements of s with key k. */
  function Preimage<T, K(==)>(s: set<T>, f: T -> K, k: K): set<T> {
    set x | x in s && f(x) == k
  }

  /** For each key f gives some element of s, how many elements have it. */
  function Group<T, K(==)>(s: set<T>, f: T -> K): map<K, nat> {
    map k | k in Image(s, f) :: |Preimage(s, f, k)|
  }

  /** One more element counts one more under its own key and changes no
      other count. */
  lemma GroupAdd<T, K>(s: set<T>, f: T -> K, x: T)
    requires x !in s
    ensures var m := Group(s, f);
      Group(s + {x}, f) == m[f(x) := if f(x) in m then m[f(x)] + 1 else 1]
  {
    var m := Group(s, f);
    var m' := Group(s + {x}, f);
    var n := m[f(x) := if f(x) in m then m[f(x)] + 1 else 1];
    assert Image(s + {x}, f) == Image(s, f) + {f(x)};
    forall k | k in m' ensures m'[k] == n[k] {
      PreimageAdd(s, f, x, k);
    }
    assert m'.Keys == n.Keys;
  }

  lemma PreimageAdd<T, K>(s: set<T>, f: T -> K, x: T, k: K)
    requires x !in s
    ensures |Preimage(s + {x}, f, k)| ==
      (if k in Image(s, f) then |Preimage(s, f, k)| else 0) + if k == f(x) then 1 else 0
  {
    if k !in Image(s, f) {
      assert Preimage(s, f, k) == {};
    }
    if k == f(x) {
      assert Preimage(s + {x}, f, k) == Preimage(s, f, k) + {x};
    } else {
      assert Preimage(s + {x}, f, k) == Preimage(s, f, k);
    }
  }

  /** The counts of a grouping add up to the size of the set. */
  lemma {:induction false} GroupTotal<T, K>(s: set<T>, f: T -> K)
    ensures Total(Group(s, f)) == |s|
    decreases |s|
  {
    if s == {} {
      assert Group(s, f) == map[];
    } else {
      var x :| x in s;
      GroupTotal(s - {x}, f);
      GroupAdd(s - {x}, f, x);
      assert s - {x} + {x} == s;
      TotalIncrement(Group(s - {x}, f), f(x));
    }
  }

  /** The keys of a grouping are exactly the keys of the elements, and each
      count is at least one. */
  lemma GroupKeys<T, K>(s: set<T>, f: T -> K)
    ensures forall k :: k in Group(s, f) <==> exists x :: x in s && f(x) == k
    ensures forall k :: k in Group(s, f) ==> 1 <= Group(s, f)[k]
  {
    forall k | k in Group(s, f) ensures 1 <= Group(s, f)[k] {
      var x :| x in s && f(x) == k;
      assert x in Preimage(s, f, k);
    }
  }
}
