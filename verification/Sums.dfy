// Finite sums of reals indexed by the keys of a map. The order of summation is
// left open; the lemmas show that it does not matter.
module Sums {

  ghost function Total<K>(m: map<K, real>): real
  {
    if m == map[] then 0.0
    else
      var k :| k in m;
      m[k] + Total(m - {k})
  }

  // The sum can be peeled at any key.
  lemma {:induction false} TotalPeel<K>(m: map<K, real>, k: K)
    requires k in m
    ensures Total(m) == m[k] + Total(m - {k})
    decreases |m|
  {
    var j :| j in m && Total(m) == m[j] + Total(m - {j});
    if j != k {
      TotalPeel(m - {j}, k);
      TotalPeel(m - {k}, j);
      assert m - {j} - {k} == m - {k} - {j};
    }
  }

  lemma TotalInsert<K>(m: map<K, real>, k: K, v: real)
    requires k !in m
    ensures Total(m[k := v]) == v + Total(m)
  {
    TotalPeel(m[k := v], k);
    assert m[k := v] - {k} == m;
  }

  lemma {:induction false} TotalSplit<K>(m: map<K, real>, a: map<K, real>, b: map<K, real>)
    requires forall k :: k in m <==> k in a || k in b
    requires forall k | k in a :: k !in b && m[k] == a[k]
    requires forall k | k in b :: m[k] == b[k]
    ensures Total(m) == Total(a) + Total(b)
    decreases |a|
  {
    if a == map[] {
      assert m == b;
    } else {
      var k :| k in a;
      TotalPeel(a, k);
      TotalPeel(m, k);
      var m', a' := m - {k}, a - {k};
      assert |a'| < |a|;
      TotalSplit(m', a', b);
    }
  }

  lemma {:induction false} TotalMonotone<K>(a: map<K, real>, b: map<K, real>)
    requires a.Keys == b.Keys
    requires forall k | k in a :: a[k] <= b[k]
    ensures Total(a) <= Total(b)
    decreases |a|
  {
    if a == map[] {
      assert b == map[];
    } else {
      var k :| k in a;
      TotalPeel(a, k);
      TotalPeel(b, k);
      TotalMonotone(a - {k}, b - {k});
    }
  }

  lemma {:induction false} TotalNonNegative<K>(m: map<K, real>)
    requires forall k | k in m :: 0.0 <= m[k]
    ensures 0.0 <= Total(m)
    ensures forall k | k in m :: m[k] <= Total(m)
    decreases |m|
  {
    forall k | k in m
      ensures m[k] <= Total(m)
    {
      TotalPeel(m, k);
      TotalNonNegative(m - {k});
    }
  }

  ghost predicate Adds(f: real -> real, x: real, y: real) {
    f(x + y) == f(x) + f(y)
  }

  ghost predicate Additive(f: real -> real) {
    f(0.0) == 0.0 && forall x, y :: Adds(f, x, y)
  }

  lemma AddsAt(f: real -> real, x: real, y: real)
    requires Additive(f)
    ensures f(x + y) == f(x) + f(y)
  {
    assert Adds(f, x, y);
  }

  // An additive map of the entries is the same map of the sum.
  lemma {:induction false} TotalAdditive<K>(m: map<K, real>, image: map<K, real>, f: real -> real)
    requires Additive(f)
    requires forall k :: k in m <==> k in image
    requires forall k | k in m :: image[k] == f(m[k])
    ensures Total(image) == f(Total(m))
    decreases |m|
  {
    if m == map[] {
      assert image == map[];
    } else {
      var k :| k in m;
      TotalPeel(m, k);
      TotalPeel(image, k);
      TotalAdditive(m - {k}, image - {k}, f);
      AddsAt(f, m[k], Total(m - {k}));
    }
  }

  // Python's sum(d.values()), whatever order the dict yields its keys in.
  method SumValues<K(==)>(m: map<K, real>) returns (total: real)
    ensures total == Total(m)
  {
    total := 0.0;
    var rest := m.Keys;
    assert m == (map k | k in rest :: m[k]);
    while rest != {}
      invariant rest <= m.Keys
      invariant total + Total(map k | k in rest :: m[k]) == Total(m)
      decreases rest
    {
      assert |rest| > 0;
      var k :| k in rest;
      ghost var before := map j | j in rest :: m[j];
      TotalPeel(before, k);
      assert before - {k} == (map j | j in rest - {k} :: m[j]);
      total := total + m[k];
      rest := rest - {k};
    }
  }
}
