// Effective ownership of a customer by its identified beneficial owners: the
// cached, cycle-guarded walk over parent links, the recursive share it computes,
// and what that share means (conservation, monotonicity, order independence).
module Ownership {
  import opened Prelude
  import opened Forest
  import Sums
  import Text

  // One ubo_links row. A stake that is NULL, NaN or infinite is None.
  datatype OwnerRow = OwnerRow(
    id: int,
    parent: Option<int>,
    canonicalKey: string,
    pct: Option<real>,
    control: string,
    isUbo: bool,
    isNominee: bool)

  type Table = map<int, OwnerRow>

  function Stake(r: OwnerRow): (s: real)
    ensures 0.0 <= s
  {
    if r.pct.Some? && r.pct.value > 0.0 then r.pct.value else 0.0
  }

  function Links(t: Table): Parents {
    map id | id in t :: t[id].parent
  }

  // ------------------------------------------------ the share of one row

  // A root's share is its own stake, a row below it owns its stake of what its
  // parent owns, and a row whose chain runs into a cycle owns nothing.
  ghost function Share(t: Table, id: int): real
    requires id in t
    decreases if Rooted(Links(t), id) then Height(Links(t), id) else 0
  {
    var g := Links(t);
    if !Rooted(g, id) then 0.0
    else if Parent(g, id).None? then Stake(t[id])
    else
      HeightStep(g, id);
      Stake(t[id]) * Share(t, Parent(g, id).value) / 100.0
  }

  lemma {:induction false} ShareStep(t: Table, id: int)
    requires id in t
    ensures Parent(Links(t), id).None? ==> Share(t, id) == Stake(t[id])
    ensures Parent(Links(t), id).Some? ==>
      Share(t, id) == Stake(t[id]) * Share(t, Parent(Links(t), id).value) / 100.0
  {
    HeightStep(Links(t), id);
  }

  lemma {:induction false} ShareNonNegative(t: Table, id: int)
    requires id in t
    ensures 0.0 <= Share(t, id)
    decreases if Rooted(Links(t), id) then Height(Links(t), id) else 0
  {
    var g := Links(t);
    if Rooted(g, id) && Parent(g, id).Some? {
      HeightStep(g, id);
      ShareNonNegative(t, Parent(g, id).value);
      ProductNonNegative(Stake(t[id]), Share(t, Parent(g, id).value));
    }
  }

  lemma ProductNonNegative(a: real, b: real)
    requires 0.0 <= a && 0.0 <= b
    ensures 0.0 <= a * b
  {
  }

  // Read off the rows alone: a row owns something of the customer only if its
  // chain of parents never meets a cycle.
  lemma {:induction false} ShareZeroOnCycle(t: Table, id: int)
    requires id in t && ReachesCycle(Links(t), id)
    ensures Share(t, id) == 0.0
  {
    RootedOrCycle(Links(t), id);
  }

  ghost predicate IsShare(t: Table, id: int, s: real)
    requires id in t
  {
    s == Share(t, id)
  }

  ghost predicate Faithful(t: Table, cache: map<int, real>) {
    forall id | id in cache :: id in t && IsShare(t, id, cache[id])
  }

  // path lists rows from r upwards, each the parent of the one before; above the
  // last one lies a row of known share `base`, or nothing when base is None.
  ghost predicate Climbed(t: Table, r: int, path: seq<int>, base: Option<real>, above: int)
  {
    && (forall id | id in path :: id in t)
    && above in t
    && (forall i | 0 <= i < |path| - 1 :: Parent(Links(t), path[i]) == Some(path[i + 1]))
    && (if |path| == 0 then above == r && base.Some? else path[0] == r)
    && (base.Some? ==> base.value == Share(t, above))
    && (|path| > 0 ==> Parent(Links(t), path[|path| - 1]) == if base.Some? then Some(above) else None)
  }

  // First half of the iterative evaluation: collect the uncached path up to a
  // cached row, a root, or a row met again (a cycle, which contributes 0).
  method Climb(t: Table, cache: map<int, real>, r: int)
    returns (path: seq<int>, base: Option<real>, ghost above: int)
    requires r in t && Faithful(t, cache)
    ensures Climbed(t, r, path, base, above)
    ensures path == [] ==> r in cache
  {
    ghost var g := Links(t);
    path, base := [], None;
    var onPath: set<int> := {};
    var cur := r;
    while true
      invariant cur in t && onPath <= t.Keys
      invariant forall id :: id in onPath <==> id in path
      invariant forall i | 0 <= i < |path| :: path[i] in t && Up(g, r, i) == Some(path[i])
      invariant Up(g, r, |path|) == Some(cur)
      invariant forall i | 0 <= i < |path| - 1 :: Parent(g, path[i]) == Some(path[i + 1])
      invariant if |path| == 0 then cur == r else path[0] == r && Parent(g, path[|path| - 1]) == Some(cur)
      decreases t.Keys - onPath
    {
      if cur in cache {
        return path, Some(cache[cur]), cur;
      }
      if cur in onPath {
        var j :| 0 <= j < |path| && path[j] == cur;
        UpCompose(g, r, j, |path| - j);
        CycleNotRooted(g, cur, |path| - j);
        return path, Some(0.0), cur;
      }
      UpCompose(g, r, |path|, 1);
      onPath := onPath + {cur};
      path := path + [cur];
      var parent := t[cur].parent;
      if parent.None? || parent.value !in t {
        return path, None, cur;
      }
      assert Up(g, cur, 1) == Some(parent.value);
      cur := parent.value;
    }
  }

  // Second half: fold the stakes back down the path, filling the cache.
  method Eff(t: Table, cache: map<int, real>, r: int) returns (share: real, filled: map<int, real>)
    requires r in t && Faithful(t, cache)
    ensures IsShare(t, r, share)
    ensures Faithful(t, filled) && r in filled && forall id | id in cache :: id in filled
  {
    ghost var above;
    var path, base;
    path, base, above := Climb(t, cache, r);
    ghost var known := base;
    filled := cache;
    var i := |path|;
    while i > 0
      invariant 0 <= i <= |path|
      invariant if i < |path| then base == Some(Share(t, path[i])) else base == known
      invariant Faithful(t, filled) && cache.Keys <= filled.Keys
      invariant i < |path| ==> path[i] in filled
    {
      i := i - 1;
      var node := path[i];
      ShareStep(t, node);
      var val := Stake(t[node]);
      if base.Some? {
        val := val * base.value / 100.0;
      }
      assert base.None? ==> Parent(Links(t), node).None?;
      assert base.Some? ==> Parent(Links(t), node).Some? && base.value == Share(t, Parent(Links(t), node).value);
      assert val == Share(t, node);
      filled := filled[node := val];
      base := Some(val);
    }
    share := filled[r];
  }

  // ------------------------------------------------ the deduplicated total

  type GroupKey = (string, Option<int>)

  // The same owner under the same parent; an empty key is replaced by the row id.
  function Group(r: OwnerRow): GroupKey {
    (if r.canonicalKey != "" then r.canonicalKey else "#" + Text.Decimal(r.id), r.parent)
  }

  function ParentIds(t: Table): set<int> {
    set id | id in t && t[id].parent.Some? :: t[id].parent.value
  }

  // Leaves that count: identified beneficial owners that are not nominees and
  // have no row recorded below them.
  function Counted(t: Table): set<int> {
    set id | id in t && !t[id].isNominee && t[id].isUbo && id !in ParentIds(t)
  }

  // best holds, for every group met among ids, the largest share in that group.
  ghost predicate IsBest(t: Table, ids: set<int>, best: map<GroupKey, real>)
    requires ids <= t.Keys
  {
    && (forall id | id in ids :: Group(t[id]) in best && Share(t, id) <= best[Group(t[id])])
    && (forall k | k in best :: exists id :: id in ids && Group(t[id]) == k && Share(t, id) == best[k])
  }

  lemma {:induction false} BestStep(t: Table, ids: set<int>, best: map<GroupKey, real>, id: int)
    requires id in t && ids <= t.Keys && IsBest(t, ids, best)
    ensures
      var k := Group(t[id]);
      var seen := if k in best then best[k] else 0.0;
      IsBest(t, ids + {id}, best[k := if seen < Share(t, id) then Share(t, id) else seen])
  {
    ShareNonNegative(t, id);
    var k := Group(t[id]);
    var seen := if k in best then best[k] else 0.0;
    var next := best[k := if seen < Share(t, id) then Share(t, id) else seen];
    forall j | j in next
      ensures exists i :: i in ids + {id} && Group(t[i]) == j && Share(t, i) == next[j]
    {
      if j == k && next[j] == Share(t, id) {
        assert id in ids + {id};
      } else {
        var i :| i in ids && Group(t[i]) == j && Share(t, i) == best[j];
        assert i in ids + {id};
      }
    }
  }

  lemma {:induction false} BestExists(t: Table, ids: set<int>) returns (best: map<GroupKey, real>)
    requires ids <= t.Keys
    ensures IsBest(t, ids, best)
    decreases |ids|
  {
    if ids == {} {
      best := map[];
    } else {
      var id := Pick(ids);
      best := BestExists(t, ids - {id});
      BestStep(t, ids - {id}, best, id);
      var k := Group(t[id]);
      var seen := if k in best then best[k] else 0.0;
      best := best[k := if seen < Share(t, id) then Share(t, id) else seen];
      assert ids - {id} + {id} == ids;
    }
  }

  lemma BestUnique(t: Table, ids: set<int>, a: map<GroupKey, real>, b: map<GroupKey, real>)
    requires ids <= t.Keys && IsBest(t, ids, a) && IsBest(t, ids, b)
    ensures a == b
  {
  }

  ghost function Best(t: Table): (best: map<GroupKey, real>)
    ensures IsBest(t, Counted(t), best)
  {
    assert exists best :: IsBest(t, Counted(t), best) by {
      var best := BestExists(t, Counted(t));
    }
    var best :| IsBest(t, Counted(t), best);
    best
  }

  ghost function Identified(t: Table): real {
    var total := Sums.Total(Best(t));
    if total < 100.0 then total else 100.0
  }

  predicate UniqueIds(rows: seq<OwnerRow>) {
    DistinctBy((r: OwnerRow) => r.id, rows)
  }

  // {r["id"]: r for r in rows}
  function TableOf(rows: seq<OwnerRow>): Table
  {
    if rows == [] then map[]
    else
      var last := rows[|rows| - 1];
      TableOf(rows[..|rows| - 1])[last.id := last]
  }

  lemma {:induction false} TableOfRows(rows: seq<OwnerRow>)
    requires UniqueIds(rows)
    ensures forall r | r in rows :: r.id in TableOf(rows) && TableOf(rows)[r.id] == r
    ensures forall id | id in TableOf(rows) :: TableOf(rows)[id] in rows && TableOf(rows)[id].id == id
  {
    if rows != [] {
      var front, last := rows[..|rows| - 1], rows[|rows| - 1];
      TableOfRows(front);
      assert rows == front + [last];
      forall r | r in rows
        ensures r.id in TableOf(rows) && TableOf(rows)[r.id] == r
      {
        var i :| 0 <= i < |rows| && rows[i] == r;
        assert i < |rows| - 1 ==> front[i] == r && r in front;
      }
    }
  }

  method BuildTable(rows: seq<OwnerRow>) returns (byId: Table)
    ensures byId == TableOf(rows)
  {
    byId := map[];
    for i := 0 to |rows|
      invariant byId == TableOf(rows[..i])
    {
      assert rows[..i + 1][..i] == rows[..i];
      byId := byId[rows[i].id := rows[i]];
    }
    assert rows[..|rows|] == rows;
  }

  // The counted leaves among the first n rows.
  ghost function CountedAmong(t: Table, rows: seq<OwnerRow>, n: nat): set<int>
    requires n <= |rows|
  {
    set r | r in rows[..n] && r.id in Counted(t) :: r.id
  }

  lemma {:induction false} CountedNext(t: Table, rows: seq<OwnerRow>, n: nat)
    requires UniqueIds(rows) && t == TableOf(rows) && n < |rows|
    ensures CountedAmong(t, rows, n) <= t.Keys
    ensures
      var r := rows[n];
      && r.id in t && t[r.id] == r
      && CountedAmong(t, rows, n + 1)
         == CountedAmong(t, rows, n) + (if r.isNominee || !r.isUbo || r.id in ParentIds(t) then {} else {r.id})
  {
    TableOfRows(rows);
    assert rows[..n + 1] == rows[..n] + [rows[n]];
    assert rows[n] in rows;
  }

  lemma {:induction false} CountedByTheEnd(t: Table, rows: seq<OwnerRow>)
    requires UniqueIds(rows) && t == TableOf(rows)
    ensures CountedAmong(t, rows, |rows|) == Counted(t)
  {
    TableOfRows(rows);
    assert rows[..|rows|] == rows;
    forall id | id in Counted(t)
      ensures id in CountedAmong(t, rows, |rows|)
    {
      assert t[id] in rows;
    }
  }

  method BestShares(rows: seq<OwnerRow>, byId: Table) returns (best: map<GroupKey, real>)
    requires UniqueIds(rows) && byId == TableOf(rows)
    ensures IsBest(byId, Counted(byId), best)
  {
    var parentsWithChildren := ParentIds(byId);
    var cache: map<int, real> := map[];
    best := map[];
    ghost var done: set<int> := {};
    for i := 0 to |rows|
      invariant done == CountedAmong(byId, rows, i) && done <= byId.Keys
      invariant Faithful(byId, cache) && IsBest(byId, done, best)
    {
      CountedNext(byId, rows, i);
      var r := rows[i];
      if !(r.isNominee || !r.isUbo || r.id in parentsWithChildren) {
        var share;
        share, cache := Eff(byId, cache, r.id);
        BestStep(byId, done, best, r.id);
        var key := Group(r);
        var seen := if key in best then best[key] else 0.0;
        best := best[key := if seen < share then share else seen];
        done := done + {r.id};
      }
    }
    CountedByTheEnd(byId, rows);
  }

  method IdentifiedOwnership(rows: seq<OwnerRow>) returns (identified: real)
    requires UniqueIds(rows)
    ensures identified == Identified(TableOf(rows))
  {
    var byId := BuildTable(rows);
    var best := BestShares(rows, byId);
    BestUnique(byId, Counted(byId), best, Best(byId));
    var total := Sums.SumValues(best);
    identified := if total < 100.0 then total else 100.0;
  }

  // ------------------------------------------------ the opacity band

  datatype Band = FullyTransparent | SingleLayerForeign | MultiLayerOffshore | NomineeOrBearer | UboUndisclosed

  predicate NomineeControlled(r: OwnerRow) {
    !r.isNominee && r.control == "nominee"
  }

  predicate Beneficial(r: OwnerRow) {
    !r.isNominee && r.isUbo
  }

  ghost function BandOf(natural: bool, t: Table): Band {
    if natural then FullyTransparent
    else if exists id :: id in t && NomineeControlled(t[id]) then NomineeOrBearer
    else if !exists id :: id in t && Beneficial(t[id]) then UboUndisclosed
    else if Identified(t) < 50.0 then MultiLayerOffshore
    else if Identified(t) < 75.0 then SingleLayerForeign
    else FullyTransparent
  }

  // any(...) over the rows and over the table built from them agree.
  lemma {:induction false} AnyRow(rows: seq<OwnerRow>, p: OwnerRow -> bool)
    requires UniqueIds(rows)
    ensures (exists r | r in rows :: p(r)) ==> exists id :: id in TableOf(rows) && p(TableOf(rows)[id])
    ensures (exists id :: id in TableOf(rows) && p(TableOf(rows)[id])) ==> exists r | r in rows :: p(r)
  {
    TableOfRows(rows);
    var t := TableOf(rows);
    if r :| r in rows && p(r) {
      assert r.id in t && p(t[r.id]);
    }
    if exists id :: id in t && p(t[id]) {
      var id :| id in t && p(t[id]);
      assert exists r | r in rows :: p(r) by {
        var r := t[id];
        assert r in rows && p(r);
      }
    }
  }

  method OwnershipState(customerType: string, rows: seq<OwnerRow>) returns (band: Band)
    requires UniqueIds(rows)
    ensures band == BandOf(customerType == "natural", TableOf(rows))
  {
    if customerType == "natural" {
      return FullyTransparent;
    }
    if rows == [] {
      return UboUndisclosed;
    }
    AnyRow(rows, NomineeControlled);
    AnyRow(rows, Beneficial);
    if exists r | r in rows :: NomineeControlled(r) {
      return NomineeOrBearer;
    }
    if !exists r | r in rows :: Beneficial(r) {
      return UboUndisclosed;
    }
    var identified := IdentifiedOwnership(rows);
    band := if identified < 50.0 then MultiLayerOffshore
            else if identified < 75.0 then SingleLayerForeign
            else FullyTransparent;
  }
}
