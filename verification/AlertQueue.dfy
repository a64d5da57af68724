// The alert queue: category priority decided before the page is cut, composed
// stable sorts, a two-phase read, and the paging flag of the API.
module AlertQueue {
  import opened Prelude
  import opened StableSort
  import Text

  // One joined row of the light read; created is "" where created_at is NULL.
  datatype Row = Row(id: int, score: real, created: string, category: string, status: string)

  datatype SortKey = AgeAsc | AgeDesc | ByScore

  const PAGE_MAX := 200
  const MAX_OFFSET := 10_000_000

  function Rank(category: string): int {
    if category == "proliferation" then 0
    else if category == "terrorism" then 1
    else if category == "sanction" then 2
    else if category == "pep" then 3
    else if category == "other" then 4
    else 9
  }

  // ------------------------------------------------ the orders

  predicate ByRank(a: Row, b: Row) {
    Rank(a.category) <= Rank(b.category)
  }

  predicate NewestFirst(a: Row, b: Row) {
    Text.AtMost(b.created, a.created)
  }

  predicate OldestFirst(a: Row, b: Row) {
    Text.AtMost(a.created, b.created)
  }

  predicate HighestScore(a: Row, b: Row) {
    -a.score <= -b.score
  }

  predicate LowId(a: Row, b: Row) {
    a.id <= b.id
  }

  predicate HighId(a: Row, b: Row) {
    a.id >= b.id
  }

  // The order each sort key promises: rank, then the key, then the id.
  function Order(key: SortKey): (Row, Row) -> bool {
    match key
    case AgeAsc => Lex(ByRank, Lex(OldestFirst, LowId))
    case AgeDesc => Lex(ByRank, Lex(NewestFirst, HighId))
    case ByScore => Lex(ByRank, Lex(HighestScore, LowId))
  }

  // How the code arranges the rows: a tuple key for two of the orders, three
  // successive stable sorts, least significant first, for newest-first.
  function Arranged(key: SortKey, rows: seq<Row>): seq<Row> {
    match key
    case AgeDesc => SortBy(ByRank, SortBy(NewestFirst, SortBy(HighId, rows)))
    case AgeAsc => SortBy(Order(AgeAsc), rows)
    case ByScore => SortBy(Order(ByScore), rows)
  }

  predicate Matches(r: Row, status: string, category: string) {
    (status == "" || r.status == status) && (category == "" || r.category == category)
  }

  function Matching(rows: seq<Row>, status: string, category: string): seq<Row> {
    if rows == [] then []
    else
      var front := Matching(rows[..|rows| - 1], status, category);
      if Matches(rows[|rows| - 1], status, category) then front + [rows[|rows| - 1]] else front
  }

  function Queue(rows: seq<Row>, status: string, category: string, key: SortKey): seq<Row> {
    Arranged(key, Matching(rows, status, category))
  }

  function Page<T>(q: seq<T>, offset: int, limit: int): seq<T> {
    var from := Min(Max(0, offset), |q|);
    q[from..Min(from + Max(0, limit), |q|)]
  }

  // The page's alerts still found by the second read, in the page's order.
  function Restored(page: seq<Row>, now: map<int, Row>): seq<Row> {
    if page == [] then []
    else
      var front := Restored(page[..|page| - 1], now);
      var id := page[|page| - 1].id;
      if id in now then front + [now[id]] else front
  }

  // ------------------------------------------------ the reads

  // light: the first read; now: what the second read finds, by id.
  method ReadQueue(light: seq<Row>, now: map<int, Row>, status: string, category: string, key: SortKey,
                   limit: int, offset: int) returns (out: seq<Row>)
    ensures out == Restored(Page(Queue(light, status, category, key), offset, limit), now)
  {
    var ranked: seq<Row> := [];
    for i := 0 to |light|
      invariant ranked == Matching(light[..i], status, category)
    {
      assert light[..i + 1][..i] == light[..i];
      var r := light[i];
      if !(status != "" && r.status != status) && !(category != "" && r.category != category) {
        ranked := ranked + [r];
      }
    }
    assert light[..|light|] == light;
    var ordered := ranked;
    match key {
      case AgeAsc => ordered := SortBy(Order(AgeAsc), ordered);
      case AgeDesc =>
        ordered := SortBy(HighId, ordered);
        ordered := SortBy(NewestFirst, ordered);
        ordered := SortBy(ByRank, ordered);
      case ByScore => ordered := SortBy(Order(ByScore), ordered);
    }
    var page := Page(ordered, offset, limit);
    out := [];
    for i := 0 to |page|
      invariant out == Restored(page[..i], now)
    {
      assert page[..i + 1][..i] == page[..i];
      if page[i].id in now {
        out := out + [now[page[i].id]];
      }
    }
    assert page[..|page|] == page;
  }

  // GET /alerts: total is counted by a query of its own.
  method ApiAlerts(light: seq<Row>, now: map<int, Row>, total: nat, status: string, limit: int, offset: int)
    returns (alerts: seq<Row>, truncated: bool)
    ensures
      var cap := if limit < 1 then 1 else if limit > 200 then 200 else limit;
      var start := if offset < 0 then 0 else if offset > 10_000_000 then 10_000_000 else offset;
      && alerts == Restored(Page(Queue(light, if status == "all" then "" else status, "", ByScore), start, cap), now)
      && (truncated <==> start + |alerts| < total)
  {
    var cap := Max(1, Min(limit, PAGE_MAX));
    var start := Max(0, Min(offset, MAX_OFFSET));
    alerts := ReadQueue(light, now, if status == "all" then "" else status, "", ByScore, cap, start);
    truncated := start + |alerts| < total;
  }

  datatype Bucket = Bucket(open: nat, pending: nat)

  function CountOf(rows: seq<Row>, status: string, category: string): nat {
    |Matching(rows, status, category)|
  }

  predicate Waiting(r: Row) {
    r.status == "open" || r.status == "pending_review"
  }

  // The counts of one more row.
  lemma CountNext(rows: seq<Row>, i: nat, status: string, c: string)
    requires i < |rows|
    ensures CountOf(rows[..i + 1], status, c)
         == CountOf(rows[..i], status, c) + (if Matches(rows[i], status, c) then 1 else 0)
  {
    assert rows[..i + 1][..i] == rows[..i];
  }

  // One bucket per category met so far, with its two counts.
  ghost predicate Counted(rows: seq<Row>, counts: map<string, Bucket>) {
    forall c ::
      && (c in counts <==> exists r :: r in rows && r.category == c && Waiting(r))
      && (c != "" ==> (if c in counts then counts[c] else Bucket(0, 0))
                      == Bucket(CountOf(rows, "open", c), CountOf(rows, "pending_review", c)))
  }

  function WithRow(counts: map<string, Bucket>, r: Row): map<string, Bucket> {
    if !Waiting(r) then counts
    else
      var bucket := if r.category in counts then counts[r.category] else Bucket(0, 0);
      counts[r.category :=
        if r.status == "open" then bucket.(open := bucket.open + 1) else bucket.(pending := bucket.pending + 1)]
  }

  lemma CountedNext(rows: seq<Row>, i: nat, counts: map<string, Bucket>)
    requires i < |rows| && Counted(rows[..i], counts)
    ensures Counted(rows[..i + 1], WithRow(counts, rows[i]))
  {
    var next := WithRow(counts, rows[i]);
    assert rows[..i + 1] == rows[..i] + [rows[i]];
    forall c
      ensures c in next <==> exists r :: r in rows[..i + 1] && r.category == c && Waiting(r)
      ensures c != "" ==> (if c in next then next[c] else Bucket(0, 0))
                          == Bucket(CountOf(rows[..i + 1], "open", c), CountOf(rows[..i + 1], "pending_review", c))
    {
      CountNext(rows, i, "open", c);
      CountNext(rows, i, "pending_review", c);
      assert c in next <==> c in counts || (rows[i].category == c && Waiting(rows[i]));
    }
  }

  // alert_counts: one bucket per category met among open and staged alerts.
  method AlertCounts(rows: seq<Row>) returns (counts: map<string, Bucket>)
    ensures forall c :: c in counts <==>
      exists r :: r in rows && r.category == c && (r.status == "open" || r.status == "pending_review")
    ensures forall c | c in counts && c != "" ::
      counts[c] == Bucket(CountOf(rows, "open", c), CountOf(rows, "pending_review", c))
    ensures forall c | c !in counts && c != "" ::
      CountOf(rows, "open", c) == 0 && CountOf(rows, "pending_review", c) == 0
  {
    counts := map[];
    for i := 0 to |rows|
      invariant Counted(rows[..i], counts)
    {
      CountedNext(rows, i, counts);
      var r := rows[i];
      if r.status == "open" || r.status == "pending_review" {
        var bucket := if r.category in counts then counts[r.category] else Bucket(0, 0);
        counts := counts[r.category :=
          if r.status == "open" then bucket.(open := bucket.open + 1) else bucket.(pending := bucket.pending + 1)];
      }
    }
    assert rows[..|rows|] == rows;
  }
}
