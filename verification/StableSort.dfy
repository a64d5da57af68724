// Python's list sort: stable, on a key order given as a comparison.
module StableSort {

  function InsertBy<T>(le: (T, T) -> bool, x: T, s: seq<T>): seq<T> {
    if s == [] then [x]
    else if le(x, s[0]) then [x] + s
    else [s[0]] + InsertBy(le, x, s[1..])
  }

  function SortBy<T>(le: (T, T) -> bool, s: seq<T>): seq<T> {
    if s == [] then [] else InsertBy(le, s[0], SortBy(le, s[1..]))
  }

  ghost predicate TotalPreorder<T(!new)>(le: (T, T) -> bool) {
    && (forall a, b :: le(a, b) || le(b, a))
    && (forall a, b, c :: le(a, b) && le(b, c) ==> le(a, c))
  }

  ghost predicate Sorted<T>(le: (T, T) -> bool, s: seq<T>) {
    forall i, j | 0 <= i < j < |s| :: le(s[i], s[j])
  }

  // First by le1, ties by le2.
  function Lex<T>(le1: (T, T) -> bool, le2: (T, T) -> bool): (T, T) -> bool {
    (a, b) => le1(a, b) && (le1(b, a) ==> le2(a, b))
  }

  lemma {:induction false} InsertPermutes<T>(le: (T, T) -> bool, x: T, s: seq<T>)
    ensures multiset(InsertBy(le, x, s)) == multiset([x]) + multiset(s)
  {
    if s != [] && !le(x, s[0]) {
      InsertPermutes(le, x, s[1..]);
      assert s == [s[0]] + s[1..];
    }
  }

  lemma {:induction false} SortPermutes<T>(le: (T, T) -> bool, s: seq<T>)
    ensures multiset(SortBy(le, s)) == multiset(s)
    ensures |SortBy(le, s)| == |s|
  {
    if s != [] {
      SortPermutes(le, s[1..]);
      InsertPermutes(le, s[0], SortBy(le, s[1..]));
      assert s == [s[0]] + s[1..];
    }
    assert |multiset(SortBy(le, s))| == |SortBy(le, s)|;
  }

  lemma SameMembers<T>(s: seq<T>, t: seq<T>, x: T)
    requires multiset(s) == multiset(t)
    ensures x in s <==> x in t
  {
    assert x in multiset(s) <==> x in multiset(t);
  }

  // Inserting the element that came first keeps the lexicographic order.
  lemma {:induction false} InsertKeepsLex<T(!new)>(le1: (T, T) -> bool, le2: (T, T) -> bool, x: T, s: seq<T>)
    requires TotalPreorder(le1) && Sorted(Lex(le1, le2), s)
    requires forall y | y in s :: le2(x, y)
    ensures Sorted(Lex(le1, le2), InsertBy(le1, x, s))
  {
    if s != [] && !le1(x, s[0]) {
      var rest := InsertBy(le1, x, s[1..]);
      InsertKeepsLex(le1, le2, x, s[1..]);
      InsertPermutes(le1, x, s[1..]);
      forall y | y in rest
        ensures Lex(le1, le2)(s[0], y)
      {
        assert y in multiset(rest);
        if y != x {
          assert y in multiset(s[1..]);
          var k :| 0 <= k < |s| - 1 && s[1..][k] == y;
          assert Lex(le1, le2)(s[0], s[k + 1]);
        }
      }
    } else if s != [] {
      FirstPrecedes(le1, le2, x, s);
    }
  }

  lemma FirstPrecedes<T(!new)>(le1: (T, T) -> bool, le2: (T, T) -> bool, x: T, s: seq<T>)
    requires TotalPreorder(le1) && Sorted(Lex(le1, le2), s) && s != [] && le1(x, s[0])
    requires forall y | y in s :: le2(x, y)
    ensures forall y | y in s :: Lex(le1, le2)(x, y)
  {
  }

  // Stability: sorting a list already in le2 order by le1 gives the order "by
  // le1, ties by le2".
  lemma {:induction false} SortIsStable<T(!new)>(le1: (T, T) -> bool, le2: (T, T) -> bool, s: seq<T>)
    requires TotalPreorder(le1) && Sorted(le2, s)
    ensures Sorted(Lex(le1, le2), SortBy(le1, s))
  {
    if s != [] {
      assert forall i, j | 0 <= i < j < |s| - 1 :: le2(s[1..][i], s[1..][j]) by {
        forall i, j | 0 <= i < j < |s| - 1
          ensures le2(s[1..][i], s[1..][j])
        {
          assert le2(s[i + 1], s[j + 1]);
        }
      }
      SortIsStable(le1, le2, s[1..]);
      SortPermutes(le1, s[1..]);
      forall y | y in SortBy(le1, s[1..])
        ensures le2(s[0], y)
      {
        SameMembers(SortBy(le1, s[1..]), s[1..], y);
        var k :| 0 <= k < |s| - 1 && s[1..][k] == y;
        assert le2(s[0], s[k + 1]);
      }
      InsertKeepsLex(le1, le2, s[0], SortBy(le1, s[1..]));
    }
  }

  lemma {:induction false} SortSorts<T(!new)>(le: (T, T) -> bool, s: seq<T>)
    requires TotalPreorder(le)
    ensures Sorted(le, SortBy(le, s))
  {
    SortIsStable(le, (a, b) => true, s);
    forall i, j | 0 <= i < j < |s|
      ensures |SortBy(le, s)| == |s| && le(SortBy(le, s)[i], SortBy(le, s)[j])
    {
      SortPermutes(le, s);
      assert Lex(le, (a, b) => true)(SortBy(le, s)[i], SortBy(le, s)[j]);
    }
    SortPermutes(le, s);
  }

  lemma SameHead<T>(le: (T, T) -> bool, s: seq<T>, t: seq<T>)
    requires multiset(s) == multiset(t) && s != [] && t != [] && Sorted(le, s) && Sorted(le, t)
    requires Separates(le, s)
    ensures s[0] == t[0]
  {
    SameMembers(s, t, s[0]);
    SameMembers(s, t, t[0]);
    var i :| 0 <= i < |s| && s[i] == t[0];
    var j :| 0 <= j < |t| && t[j] == s[0];
    assert i > 0 ==> le(s[0], s[i]);
    assert j > 0 ==> le(t[0], t[j]);
  }

  // The order tells all members apart.
  ghost predicate Separates<T>(le: (T, T) -> bool, s: seq<T>) {
    forall a, b | a in s && b in s && le(a, b) && le(b, a) :: a == b
  }

  lemma Tail<T>(le: (T, T) -> bool, s: seq<T>)
    requires s != [] && Sorted(le, s) && Separates(le, s)
    ensures Sorted(le, s[1..]) && Separates(le, s[1..])
    ensures s == [s[0]] + s[1..] && multiset(s[1..]) == multiset(s) - multiset{s[0]}
  {
    assert s == [s[0]] + s[1..];
    TailSorted(le, s);
    forall a | a in s[1..]
      ensures a in s
    {
    }
  }

  lemma SeparatesPermuted<T>(le: (T, T) -> bool, s: seq<T>, t: seq<T>)
    requires multiset(s) == multiset(t) && Separates(le, s)
    ensures Separates(le, t)
  {
    forall a | a in t
      ensures a in s
    {
      SameMembers(s, t, a);
    }
  }

  // An order that tells all members apart has one sorted arrangement.
  lemma {:induction false} SortedUnique<T>(le: (T, T) -> bool, s: seq<T>, t: seq<T>)
    requires multiset(s) == multiset(t) && Sorted(le, s) && Sorted(le, t) && Separates(le, s)
    ensures s == t
  {
    assert |multiset(s)| == |multiset(t)|;
    if s != [] {
      SeparatesPermuted(le, s, t);
      SameHead(le, s, t);
      Tail(le, s);
      Tail(le, t);
      SortedUnique(le, s[1..], t[1..]);
    }
  }

  lemma TailSorted<T>(le: (T, T) -> bool, s: seq<T>)
    requires s != [] && Sorted(le, s)
    ensures Sorted(le, s[1..])
  {
  }
}
