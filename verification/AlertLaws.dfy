// The promises of the alert queue: one order, priorities first, pages that
// neither skip nor repeat, an exact paging flag and exact counts.
module AlertLaws {
  import opened Prelude
  import opened StableSort
  import opened AlertQueue
  import Text

  predicate UniqueIds(rows: seq<Row>) {
    DistinctBy((r: Row) => r.id, rows)
  }

  // ------------------------------------------------ one order

  lemma LexPreorder<T(!new)>(le1: (T, T) -> bool, le2: (T, T) -> bool)
    requires TotalPreorder(le1) && TotalPreorder(le2)
    ensures TotalPreorder(Lex(le1, le2))
  {
  }

  lemma CreatedOrders()
    ensures TotalPreorder(OldestFirst) && TotalPreorder(NewestFirst)
  {
    forall a: Row, b: Row
      ensures OldestFirst(a, b) || OldestFirst(b, a)
    {
      Text.LessTotal(a.created, b.created);
    }
    forall a: Row, b: Row, c: Row | OldestFirst(a, b) && OldestFirst(b, c)
      ensures OldestFirst(a, c)
    {
      AtMostTransitive(a.created, b.created, c.created);
    }
    forall a: Row, b: Row
      ensures NewestFirst(a, b) == OldestFirst(b, a)
    {
    }
  }

  lemma AtMostTransitive(a: string, b: string, c: string)
    requires Text.AtMost(a, b) && Text.AtMost(b, c)
    ensures Text.AtMost(a, c)
  {
    Text.LessTotal(a, b);
    Text.LessTotal(b, c);
    if Text.Less(c, a) {
      if Text.Less(a, b) {
        Text.LessTransitive(c, a, b);
      }
    }
  }

  lemma RowOrders()
    ensures TotalPreorder(ByRank) && TotalPreorder(HighestScore) && TotalPreorder(LowId) && TotalPreorder(HighId)
    ensures TotalPreorder(OldestFirst) && TotalPreorder(NewestFirst)
  {
    CreatedOrders();
    assert TotalPreorder(ByRank);
    assert TotalPreorder(HighestScore);
    assert TotalPreorder(LowId);
    assert TotalPreorder(HighId);
  }

  lemma OrderIsTotal(key: SortKey)
    ensures TotalPreorder(Order(key))
  {
    RowOrders();
    match key
    case AgeAsc =>
      LexPreorder(OldestFirst, LowId);
      LexPreorder(ByRank, Lex(OldestFirst, LowId));
    case AgeDesc =>
      LexPreorder(NewestFirst, HighId);
      LexPreorder(ByRank, Lex(NewestFirst, HighId));
    case ByScore =>
      LexPreorder(HighestScore, LowId);
      LexPreorder(ByRank, Lex(HighestScore, LowId));
  }

  // The order, spelled out.
  lemma OrderUnfolds(key: SortKey, a: Row, b: Row)
    ensures Order(key)(a, b) <==>
      match key
      case AgeAsc => ByRank(a, b) && (ByRank(b, a) ==> OldestFirst(a, b) && (OldestFirst(b, a) ==> a.id <= b.id))
      case AgeDesc => ByRank(a, b) && (ByRank(b, a) ==> NewestFirst(a, b) && (NewestFirst(b, a) ==> a.id >= b.id))
      case ByScore => ByRank(a, b) && (ByRank(b, a) ==> HighestScore(a, b) && (HighestScore(b, a) ==> a.id <= b.id))
  {
    match key
    case AgeAsc =>
      assert Order(key)(a, b) == (ByRank(a, b) && (ByRank(b, a) ==> Lex(OldestFirst, LowId)(a, b)));
      assert Lex(OldestFirst, LowId)(a, b) == (OldestFirst(a, b) && (OldestFirst(b, a) ==> LowId(a, b)));
    case AgeDesc =>
      assert Order(key)(a, b) == (ByRank(a, b) && (ByRank(b, a) ==> Lex(NewestFirst, HighId)(a, b)));
      assert Lex(NewestFirst, HighId)(a, b) == (NewestFirst(a, b) && (NewestFirst(b, a) ==> HighId(a, b)));
    case ByScore =>
      assert Order(key)(a, b) == (ByRank(a, b) && (ByRank(b, a) ==> Lex(HighestScore, LowId)(a, b)));
      assert Lex(HighestScore, LowId)(a, b) == (HighestScore(a, b) && (HighestScore(b, a) ==> LowId(a, b)));
  }

  lemma OrderTellsApart(key: SortKey, rows: seq<Row>, a: Row, b: Row)
    requires UniqueIds(rows) && a in rows && b in rows && Order(key)(a, b) && Order(key)(b, a)
    ensures a == b
  {
    var i :| 0 <= i < |rows| && rows[i] == a;
    var j :| 0 <= j < |rows| && rows[j] == b;
    OrderUnfolds(key, a, b);
    OrderUnfolds(key, b, a);
  }

  lemma ArrangedSorted(key: SortKey, rows: seq<Row>)
    ensures Sorted(Order(key), Arranged(key, rows))
    ensures multiset(Arranged(key, rows)) == multiset(rows) && |Arranged(key, rows)| == |rows|
  {
    if key.AgeDesc? {
      RowOrders();
      var byId := SortBy(HighId, rows);
      var byAge := SortBy(NewestFirst, byId);
      SortSorts(HighId, rows);
      SortIsStable(NewestFirst, HighId, byId);
      SortIsStable(ByRank, Lex(NewestFirst, HighId), byAge);
      SortPermutes(HighId, rows);
      SortPermutes(NewestFirst, byId);
      SortPermutes(ByRank, byAge);
    } else {
      OrderIsTotal(key);
      SortSorts(Order(key), rows);
      SortPermutes(Order(key), rows);
    }
  }

  // The three successive stable sorts are one sort by (category rank, created
  // descending, id descending), the only arrangement in that order.
  lemma {:induction false} ThreeSortsAreOne(rows: seq<Row>)
    requires UniqueIds(rows)
    ensures Arranged(AgeDesc, rows) == SortBy(Order(AgeDesc), rows)
  {
    ArrangedSorted(AgeDesc, rows);
    OrderIsTotal(AgeDesc);
    SortSorts(Order(AgeDesc), rows);
    SortPermutes(Order(AgeDesc), rows);
    var s, t := Arranged(AgeDesc, rows), SortBy(Order(AgeDesc), rows);
    forall a, b | a in s && b in s && Order(AgeDesc)(a, b) && Order(AgeDesc)(b, a)
      ensures a == b
    {
      SameMembers(s, rows, a);
      SameMembers(s, rows, b);
      OrderTellsApart(AgeDesc, rows, a, b);
    }
    SortedUnique(Order(AgeDesc), s, t);
  }

  // No lower-priority category ever precedes a higher one.
  lemma PriorityFirst(rows: seq<Row>, status: string, category: string, key: SortKey, i: nat, j: nat)
    requires i < j < |Queue(rows, status, category, key)|
    ensures Rank(Queue(rows, status, category, key)[i].category) <= Rank(Queue(rows, status, category, key)[j].category)
  {
    var q := Queue(rows, status, category, key);
    ArrangedSorted(key, Matching(rows, status, category));
    assert Order(key)(q[i], q[j]);
    OrderUnfolds(key, q[i], q[j]);
  }

  // Position of a category in the order of priority; anything unlisted comes last.
  predicate MoreUrgent(c: string, d: string) {
    || (c == "proliferation" && d != "proliferation")
    || (c == "terrorism" && d !in {"proliferation", "terrorism"})
    || (c == "sanction" && d !in {"proliferation", "terrorism", "sanction"})
    || (c == "pep" && d !in {"proliferation", "terrorism", "sanction", "pep"})
    || (c == "other" && d !in {"proliferation", "terrorism", "sanction", "pep", "other"})
  }

  lemma RankExactly(c: string, d: string)
    ensures Rank(c) < Rank(d) <==> MoreUrgent(c, d)
  {
  }

  // Which of two alerts of the queue comes first: the more urgent category; within
  // one, by the sort key the higher score, the earlier or the later creation; then
  // the lower id, or for newest first the higher.
  lemma QueueOrder(rows: seq<Row>, status: string, category: string, key: SortKey, i: nat, j: nat)
    requires i < j < |Queue(rows, status, category, key)|
    ensures
      var a, b := Queue(rows, status, category, key)[i], Queue(rows, status, category, key)[j];
      || MoreUrgent(a.category, b.category)
      || (&& !MoreUrgent(b.category, a.category)
          && match key
             case ByScore => a.score > b.score || (a.score == b.score && a.id <= b.id)
             case AgeAsc => Text.Less(a.created, b.created) || (a.created == b.created && a.id <= b.id)
             case AgeDesc => Text.Less(b.created, a.created) || (a.created == b.created && a.id >= b.id))
  {
    var q := Queue(rows, status, category, key);
    var a, b := q[i], q[j];
    ArrangedSorted(key, Matching(rows, status, category));
    assert Order(key)(a, b);
    OrderUnfolds(key, a, b);
    RankExactly(a.category, b.category);
    RankExactly(b.category, a.category);
    Text.LessTotal(a.created, b.created);
  }

  // Which alerts it holds: those with the status and category asked for, if any is.
  lemma MatchesExactly(r: Row, status: string, category: string)
    ensures Matches(r, status, category) <==>
      !(status != "" && r.status != status) && !(category != "" && r.category != category)
  {
  }

  // ------------------------------------------------ what is in the queue

  lemma {:induction false} MatchingExactly(rows: seq<Row>, status: string, category: string, r: Row)
    ensures r in Matching(rows, status, category) <==> r in rows && Matches(r, status, category)
  {
    if rows != [] {
      var front, last := rows[..|rows| - 1], rows[|rows| - 1];
      assert rows == front + [last];
      MatchingExactly(front, status, category, r);
    }
  }

  lemma {:induction false} MatchingUnique(rows: seq<Row>, status: string, category: string)
    requires UniqueIds(rows)
    ensures UniqueIds(Matching(rows, status, category))
  {
    if rows != [] {
      var front, last := rows[..|rows| - 1], rows[|rows| - 1];
      MatchingUnique(front, status, category);
      var m := Matching(front, status, category);
      forall i | 0 <= i < |m|
        ensures m[i].id != last.id
      {
        MatchingExactly(front, status, category, m[i]);
        var k :| 0 <= k < |front| && front[k] == m[i];
        assert rows[k].id != rows[|rows| - 1].id;
      }
    }
  }

  // The queue holds exactly the matching alerts, each once.
  lemma QueueExactly(rows: seq<Row>, status: string, category: string, key: SortKey)
    requires UniqueIds(rows)
    ensures forall r :: r in Queue(rows, status, category, key) <==> r in rows && Matches(r, status, category)
    ensures UniqueIds(Queue(rows, status, category, key))
  {
    var m, q := Matching(rows, status, category), Queue(rows, status, category, key);
    ArrangedSorted(key, m);
    forall r
      ensures r in q <==> r in rows && Matches(r, status, category)
    {
      SameMembers(q, m, r);
      MatchingExactly(rows, status, category, r);
    }
    MatchingUnique(rows, status, category);
    PermutedDistinct((r: Row) => r.id, m, q);
  }

  // ------------------------------------------------ paging

  function Pages<T>(q: seq<T>, limit: nat, n: nat): seq<T> {
    if n == 0 then [] else Pages(q, limit, n - 1) + Page(q, (n - 1) * limit, limit)
  }

  // Consecutive pages concatenate to the queue itself.
  lemma {:induction false} PagesConcatenate<T>(q: seq<T>, limit: nat, n: nat)
    requires limit > 0
    ensures Pages(q, limit, n) == q[..Min(n * limit, |q|)]
    ensures n * limit >= |q| ==> Pages(q, limit, n) == q
  {
    if n > 0 {
      PagesConcatenate(q, limit, n - 1);
      Distribute(n - 1, limit);
      OnePageMore(q, (n - 1) * limit, limit);
    }
  }

  lemma Distribute(n: nat, limit: nat)
    ensures (n + 1) * limit == n * limit + limit && n * limit >= 0
  {
  }

  lemma OnePageMore<T>(q: seq<T>, from: nat, limit: nat)
    ensures q[..Min(from, |q|)] + Page(q, from, limit) == q[..Min(from + limit, |q|)]
  {
  }

  // ------------------------------------------------ the second read

  // Of a page exactly the alerts still there are returned, as they are now.
  lemma {:induction false} RestoredExactly(page: seq<Row>, now: map<int, Row>, r: Row)
    ensures r in Restored(page, now) <==> exists p | p in page :: p.id in now && now[p.id] == r
  {
    if page != [] {
      var front, last := page[..|page| - 1], page[|page| - 1];
      assert page == front + [last];
      RestoredExactly(front, now, r);
      assert r in Restored(page, now) <==> r in Restored(front, now) || (last.id in now && now[last.id] == r);
    }
  }

  // They keep the page's order.
  lemma {:induction false} RestoredInOrder(first: seq<Row>, rest: seq<Row>, now: map<int, Row>)
    ensures Restored(first + rest, now) == Restored(first, now) + Restored(rest, now)
  {
    if rest != [] {
      RestoredInOrder(first, rest[..|rest| - 1], now);
      assert (first + rest)[..|first + rest| - 1] == first + rest[..|rest| - 1];
    } else {
      assert first + rest == first;
    }
  }

  // ------------------------------------------------ an unchanged set

  // The second read finds every row as the first one saw it.
  ghost predicate Unchanged(rows: seq<Row>, now: map<int, Row>) {
    forall r | r in rows :: r.id in now && now[r.id] == r
  }

  lemma {:induction false} RestoredUnchanged(page: seq<Row>, rows: seq<Row>, now: map<int, Row>)
    requires Unchanged(rows, now) && forall r | r in page :: r in rows
    ensures Restored(page, now) == page
  {
    if page != [] {
      RestoredUnchanged(page[..|page| - 1], rows, now);
      assert page[|page| - 1] in page;
      assert page == page[..|page| - 1] + [page[|page| - 1]];
    }
  }

  // `truncated` is true exactly when a page that starts before the end leaves
  // alerts unseen after it.
  lemma {:induction false} TruncatedExactly(rows: seq<Row>, now: map<int, Row>, status: string, limit: int, offset: int)
    requires UniqueIds(rows) && Unchanged(rows, now) && limit >= 0 && offset >= 0
    ensures
      var q := Queue(rows, status, "", ByScore);
      var alerts := Restored(Page(q, offset, limit), now);
      && |q| == CountOf(rows, status, "")
      && alerts == Page(q, offset, limit)
      && (offset + |alerts| < CountOf(rows, status, "") <==> offset < |q| && offset + limit < |q|)
  {
    var q := Queue(rows, status, "", ByScore);
    QueueExactly(rows, status, "", ByScore);
    ArrangedSorted(ByScore, Matching(rows, status, ""));
    forall r | r in Page(q, offset, limit)
      ensures r in rows
    {
      assert r in q;
    }
    RestoredUnchanged(Page(q, offset, limit), rows, now);
  }

  // Uncapped counts are the sizes of the unlimited queue, category by category.
  lemma {:induction false} CountsMatchQueue(rows: seq<Row>, status: string, category: string, key: SortKey, limit: int)
    requires limit >= |rows|
    ensures CountOf(rows, status, category) == |Page(Queue(rows, status, category, key), 0, limit)|
    ensures category != "" ==>
      CountOf(rows, status, category) == |Matching(Queue(rows, status, "", key), status, category)|
  {
    var m := Matching(rows, status, category);
    ArrangedSorted(key, m);
    MatchingShorter(rows, status, category);
    ArrangedSorted(key, Matching(rows, status, ""));
    MatchingOfPermutation(Queue(rows, status, "", key), Matching(rows, status, ""), status, category);
    MatchingTwice(rows, status, category);
  }

  lemma {:induction false} MatchingShorter(rows: seq<Row>, status: string, category: string)
    ensures |Matching(rows, status, category)| <= |rows|
  {
    if rows != [] {
      MatchingShorter(rows[..|rows| - 1], status, category);
    }
  }

  lemma {:induction false} MatchingTwice(rows: seq<Row>, status: string, category: string)
    ensures Matching(Matching(rows, status, ""), status, category) == Matching(rows, status, category)
  {
    if rows != [] {
      var front, last := rows[..|rows| - 1], rows[|rows| - 1];
      MatchingTwice(front, status, category);
      var m := Matching(front, status, "");
      assert (m + [last])[..|m|] == m;
    }
  }

  lemma {:induction false} MatchingOfPermutation(s: seq<Row>, t: seq<Row>, status: string, category: string)
    requires multiset(s) == multiset(t)
    ensures |Matching(s, status, category)| == |Matching(t, status, category)|
  {
    MatchingCounts(s, status, category);
    MatchingCounts(t, status, category);
    assert multiset(Matching(s, status, category)) == multiset(Matching(t, status, category));
    assert |multiset(Matching(s, status, category))| == |Matching(s, status, category)|;
    assert |multiset(Matching(t, status, category))| == |Matching(t, status, category)|;
  }

  lemma {:induction false} MatchingCounts(s: seq<Row>, status: string, category: string)
    ensures forall r: Row ::
      multiset(Matching(s, status, category))[r] == if Matches(r, status, category) then multiset(s)[r] else 0
  {
    if s != [] {
      var front, last := s[..|s| - 1], s[|s| - 1];
      assert s == front + [last];
      MatchingCounts(front, status, category);
    }
  }
}
