// What the effective shares mean: nothing is counted twice, a proportionate
// structure never reaches the 100% clamp, raising a stake never makes a customer
// look more opaque, and the order of the rows is irrelevant.
module OwnershipLaws {
  import opened Prelude
  import opened Forest
  import opened Ownership
  import Sums

  // ------------------------------------------------ order of the rows

  lemma {:induction false} RowOrderIrrelevant(rows: seq<OwnerRow>, shuffled: seq<OwnerRow>, natural: bool)
    requires UniqueIds(rows) && multiset(rows) == multiset(shuffled)
    ensures UniqueIds(shuffled) && TableOf(shuffled) == TableOf(rows)
    ensures Identified(TableOf(shuffled)) == Identified(TableOf(rows))
    ensures BandOf(natural, TableOf(shuffled)) == BandOf(natural, TableOf(rows))
  {
    PermutedDistinct((r: OwnerRow) => r.id, rows, shuffled);
    TableOfRows(rows);
    TableOfRows(shuffled);
    var t, u := TableOf(rows), TableOf(shuffled);
    forall r: OwnerRow
      ensures r in rows <==> r in shuffled
    {
      assert r in multiset(rows) <==> r in multiset(shuffled);
    }
    forall id | id in t
      ensures id in u && t[id] == u[id]
    {
      assert t[id] in shuffled;
    }
    forall id | id in u
      ensures id in t
    {
      assert u[id] in rows;
    }
  }

  // ------------------------------------------------ conservation

  ghost function Shares(t: Table): map<int, real> {
    map id | id in t :: Share(t, id)
  }

  function Stakes(t: Table): map<int, real> {
    map id | id in t :: Stake(t[id])
  }

  // What the given rows hold, out of one amount per row.
  ghost function Held(amounts: map<int, real>, ids: set<int>): real
    requires ids <= amounts.Keys
  {
    Sums.Total(At(amounts, ids))
  }

  function At(amounts: map<int, real>, ids: set<int>): map<int, real>
    requires ids <= amounts.Keys
  {
    map id | id in ids :: amounts[id]
  }

  lemma HeldSplit(amounts: map<int, real>, ids: set<int>, part: set<int>)
    requires part <= ids <= amounts.Keys
    ensures Held(amounts, ids) == Held(amounts, part) + Held(amounts, ids - part)
  {
    Sums.TotalSplit(At(amounts, ids), At(amounts, part), At(amounts, ids - part));
  }

  lemma HeldOne(amounts: map<int, real>, id: int)
    requires id in amounts
    ensures Held(amounts, {id}) == amounts[id]
  {
    Sums.TotalPeel(At(amounts, {id}), id);
    assert At(amounts, {id}) - {id} == map[];
  }

  function Roots(t: Table): set<int> {
    set id | id in t && Parent(Links(t), id).None?
  }

  function Children(t: Table, p: int): set<int> {
    set id | id in t && Parent(Links(t), id) == Some(p)
  }

  // The stakes of the roots, and of the children of every row, sum to at most 100.
  ghost predicate Proportionate(t: Table) {
    && Held(Stakes(t), Roots(t)) <= 100.0
    && forall p | p in t :: Held(Stakes(t), Children(t, p)) <= 100.0
  }

  ghost predicate Under(t: Table, id: int, top: int)
    requires id in t
  {
    exists n: nat :: Up(Links(t), id, n) == Some(top)
  }

  ghost function LeavesUnder(t: Table, tops: set<int>): (leaves: set<int>)
    ensures leaves <= t.Keys
  {
    set d | d in Counted(t) && exists top :: top in tops && Under(t, d, top)
  }

  ghost function Subtree(t: Table, top: int): set<int> {
    set d | d in t && Under(t, d, top)
  }

  lemma UnderChild(t: Table, d: int, p: int)
    requires d in t
    ensures Under(t, d, p) <==> (d == p && p in t) || exists c :: c in Children(t, p) && Under(t, d, c)
  {
    var g := Links(t);
    if Under(t, d, p) {
      var n: nat :| Up(g, d, n) == Some(p);
      if n > 0 {
        UpCompose(g, d, n - 1, 1);
        var c := Up(g, d, n - 1).value;
        assert Up(g, c, 1) == Some(p);
        assert Up(g, c, 1) == (if Parent(g, c).None? then None else Up(g, Parent(g, c).value, 0));
        assert c in Children(t, p) && Under(t, d, c);
      }
    }
    if c :| c in Children(t, p) && Under(t, d, c) {
      var n: nat :| Up(g, d, n) == Some(c);
      UpCompose(g, d, n, 1);
      assert Up(g, c, 1) == Up(g, p, 0);
      assert Up(g, d, n + 1) == Some(p);
    }
    if d == p {
      assert Up(g, d, 0) == Some(p);
    }
  }

  // A row lies under at most one row of any given height.
  lemma UnderUnique(t: Table, d: int, a: int, b: int)
    requires d in t && a in t && b in t && Under(t, d, a) && Under(t, d, b)
    requires Rooted(Links(t), a) && Rooted(Links(t), b)
    requires Height(Links(t), a) == Height(Links(t), b)
    ensures a == b
  {
    var g := Links(t);
    var m: nat :| Up(g, d, m) == Some(a);
    var n: nat :| Up(g, d, n) == Some(b);
    UpHeight(g, d, m);
    UpHeight(g, d, n);
  }

  // What the counted leaves at or below a row hold is at most the row's amount.
  ghost predicate WithinRow(t: Table, amounts: map<int, real>, c: int)
    requires t.Keys <= amounts.Keys && c in t
  {
    Held(amounts, LeavesUnder(t, {c})) <= amounts[c]
  }

  // If every row of one level passes on no more than its amount, so does the level.
  lemma {:induction false} LevelWithin(t: Table, amounts: map<int, real>, level: set<int>, h: nat)
    requires level <= t.Keys <= amounts.Keys
    requires forall c | c in level :: Rooted(Links(t), c) && Height(Links(t), c) == h && WithinRow(t, amounts, c)
    ensures Held(amounts, LeavesUnder(t, level)) <= Held(amounts, level)
    decreases |level|
  {
    if level == {} {
      assert LeavesUnder(t, level) == {};
    } else {
      var c := Pick(level);
      LevelWithin(t, amounts, level - {c}, h);
      HeldSplit(amounts, level, {c});
      HeldOne(amounts, c);
      LeavesSplit(t, level, c, h);
      HeldSplit(amounts, LeavesUnder(t, level), LeavesUnder(t, {c}));
    }
  }

  lemma LeavesSplit(t: Table, level: set<int>, c: int, h: nat)
    requires level <= t.Keys && c in level
    requires forall x | x in level :: Rooted(Links(t), x) && Height(Links(t), x) == h
    ensures LeavesUnder(t, {c}) <= LeavesUnder(t, level)
    ensures LeavesUnder(t, level) - LeavesUnder(t, {c}) == LeavesUnder(t, level - {c})
  {
    forall d | d in LeavesUnder(t, {c})
      ensures d in LeavesUnder(t, level) && d !in LeavesUnder(t, level - {c})
    {
      assert c in level && Under(t, d, c);
      forall x | x in level - {c} && Under(t, d, x)
        ensures false
      {
        UnderUnique(t, d, c, x);
      }
    }
    forall d | d in LeavesUnder(t, level) - LeavesUnder(t, {c})
      ensures d in LeavesUnder(t, level - {c})
    {
      var x :| x in level && Under(t, d, x);
      assert x in level - {c};
    }
    forall d | d in LeavesUnder(t, level - {c})
      ensures d in LeavesUnder(t, level)
    {
      var x :| x in level - {c} && Under(t, d, x);
      assert x in level;
    }
  }

  ghost function PartOf(s: real): real -> real {
    x => x * s / 100.0
  }

  lemma PartOfAdditive(s: real)
    ensures Sums.Additive(PartOf(s))
  {
  }

  // Children own, together, at most what their parent owns.
  lemma {:induction false} ChildrenWithinShare(t: Table, p: int)
    requires p in t && Held(Stakes(t), Children(t, p)) <= 100.0
    ensures Held(Shares(t), Children(t, p)) <= Share(t, p)
  {
    var s, kids := Share(t, p), Children(t, p);
    ShareNonNegative(t, p);
    ChildShares(t, p);
    PartOfAdditive(s);
    Sums.TotalAdditive(At(Stakes(t), kids), At(Shares(t), kids), PartOf(s));
    AtMostWhole(Held(Stakes(t), kids), s);
  }

  lemma {:induction false} ChildShare(t: Table, p: int, c: int)
    requires c in t && Parent(Links(t), c) == Some(p)
    ensures Share(t, c) == PartOf(Share(t, p))(Stake(t[c]))
  {
    ShareStep(t, c);
  }

  lemma {:induction false} ChildShares(t: Table, p: int)
    requires p in t
    ensures forall c | c in Children(t, p) :: Shares(t)[c] == PartOf(Share(t, p))(Stakes(t)[c])
  {
    forall c | c in Children(t, p)
      ensures Shares(t)[c] == PartOf(Share(t, p))(Stakes(t)[c])
    {
      ChildShare(t, p, c);
    }
  }

  lemma AtMostWhole(x: real, s: real)
    requires x <= 100.0 && 0.0 <= s
    ensures PartOf(s)(x) <= s
  {
  }

  // The counted leaves below any row never exceed that row's effective share: a
  // row on or above a cycle has no share, and neither has anything below it.
  lemma LeavesWithinShare(t: Table, id: int)
    requires Proportionate(t) && id in t
    ensures WithinRow(t, Shares(t), id)
  {
    if Rooted(Links(t), id) {
      RootedLeavesWithinShare(t, id);
    } else {
      var leaves := LeavesUnder(t, {id});
      forall d | d in leaves
        ensures At(Shares(t), leaves)[d] == 0.0
      {
        var n: nat :| Up(Links(t), d, n) == Some(id);
        UpHeight(Links(t), d, n);
      }
      ZeroTotal(At(Shares(t), leaves));
    }
  }

  lemma {:induction false} RootedLeavesWithinShare(t: Table, id: int)
    requires Proportionate(t) && id in t && Rooted(Links(t), id)
    ensures WithinRow(t, Shares(t), id)
    decreases |Subtree(t, id)|
  {
    var kids, leaves := Children(t, id), LeavesUnder(t, {id});
    if kids == {} {
      ChildlessLeaves(t, id);
      ShareNonNegative(t, id);
      HeldOne(Shares(t), id);
    } else {
      var h := Height(Links(t), id) + 1;
      forall c | c in kids
        ensures Rooted(Links(t), c) && Height(Links(t), c) == h && WithinRow(t, Shares(t), c)
      {
        HeightStep(Links(t), c);
        SubtreeShrinks(t, id, c);
        RootedLeavesWithinShare(t, c);
      }
      LevelWithin(t, Shares(t), kids, h);
      ParentLeaves(t, id);
      ChildrenWithinShare(t, id);
    }
  }

  lemma ChildlessLeaves(t: Table, id: int)
    requires id in t && Children(t, id) == {}
    ensures LeavesUnder(t, {id}) == {} || LeavesUnder(t, {id}) == {id}
  {
    forall d | d in LeavesUnder(t, {id})
      ensures d == id
    {
      UnderChild(t, d, id);
    }
  }

  // A row with children is not a leaf; its leaves are those of its children.
  lemma ParentLeaves(t: Table, id: int)
    requires id in t && Children(t, id) != {}
    ensures LeavesUnder(t, {id}) == LeavesUnder(t, Children(t, id))
  {
    var child := Pick(Children(t, id));
    assert t[child].parent.Some? && t[child].parent.value == id;
    assert id in ParentIds(t);
    forall d | d in Counted(t)
      ensures d in LeavesUnder(t, {id}) <==> d in LeavesUnder(t, Children(t, id))
    {
      UnderChild(t, d, id);
      assert d in LeavesUnder(t, {id}) <==> Under(t, d, id);
    }
  }

  lemma SubtreeShrinks(t: Table, id: int, c: int)
    requires id in t && Rooted(Links(t), id) && c in Children(t, id)
    ensures |Subtree(t, c)| < |Subtree(t, id)|
  {
    forall d | d in Subtree(t, c)
      ensures d in Subtree(t, id)
    {
      UnderChild(t, d, id);
    }
    UnderChild(t, id, id);
    if id in Subtree(t, c) {
      var n: nat :| Up(Links(t), id, n) == Some(c);
      HeightStep(Links(t), c);
      UpHeight(Links(t), id, n);
      assert false;
    }
    assert Subtree(t, c) <= Subtree(t, id) - {id};
    SubsetSize(Subtree(t, c), Subtree(t, id) - {id});
  }

  lemma RootsWithinWhole(t: Table)
    requires Proportionate(t)
    ensures Held(Shares(t), LeavesUnder(t, Roots(t))) <= 100.0
  {
    var roots := Roots(t);
    forall r | r in roots
      ensures Rooted(Links(t), r) && Height(Links(t), r) == 0 && WithinRow(t, Shares(t), r)
    {
      HeightStep(Links(t), r);
      LeavesWithinShare(t, r);
    }
    LevelWithin(t, Shares(t), roots, 0);
    RootShares(t);
  }

  lemma RootShares(t: Table)
    ensures At(Shares(t), Roots(t)) == At(Stakes(t), Roots(t))
  {
    forall r | r in Roots(t)
      ensures Share(t, r) == Stake(t[r])
    {
      ShareStep(t, r);
    }
  }

  // All counted leaves together hold at most 100.
  lemma LeavesWithinWhole(t: Table)
    requires Proportionate(t)
    ensures Held(Shares(t), Counted(t)) <= 100.0
  {
    RootsWithinWhole(t);
    var rooted := LeavesUnder(t, Roots(t));
    var stray := Counted(t) - rooted;
    forall d | d in stray
      ensures At(Shares(t), stray)[d] == 0.0
    {
      if Rooted(Links(t), d) {
        UnderSomeRoot(t, d);
      }
    }
    HeldSplit(Shares(t), Counted(t), rooted);
    ZeroTotal(At(Shares(t), stray));
  }

  lemma {:induction false} UnderSomeRoot(t: Table, d: int)
    requires d in t && Rooted(Links(t), d)
    ensures exists r :: r in Roots(t) && Under(t, d, r)
    decreases Height(Links(t), d)
  {
    var g := Links(t);
    assert Up(g, d, 0) == Some(d);
    if Parent(g, d).None? {
      assert d in Roots(t) && Under(t, d, d);
    } else {
      HeightStep(g, d);
      var p := Parent(g, d).value;
      UnderSomeRoot(t, p);
      var r :| r in Roots(t) && Under(t, p, r);
      var n: nat :| Up(g, p, n) == Some(r);
      assert Up(g, d, n + 1) == Some(r);
      assert Under(t, d, r);
    }
  }

  lemma {:induction false} ZeroTotal<K>(m: map<K, real>)
    requires forall k | k in m :: m[k] == 0.0
    ensures Sums.Total(m) == 0.0
    decreases |m|
  {
    if m != map[] {
      var k :| k in m;
      Sums.TotalPeel(m, k);
      ZeroTotal(m - {k});
    }
  }

  // Counting the largest stake of each group counts no more than every stake.
  lemma {:induction false} GroupsWithinLeaves(t: Table, ids: set<int>, best: map<GroupKey, real>)
    requires ids <= t.Keys && IsBest(t, ids, best)
    ensures Sums.Total(best) <= Held(Shares(t), ids)
    decreases |best|
  {
    SharesNonNegative(t, ids);
    if best == map[] {
      Sums.TotalNonNegative(At(Shares(t), ids));
    } else {
      var k := PickKey(best);
      var mine := InGroup(t, ids, k);
      Sums.TotalPeel(best, k);
      BestWithout(t, ids, best, k);
      GroupsWithinLeaves(t, ids - mine, best - {k});
      HeldSplit(Shares(t), ids, mine);
      GroupTop(t, ids, best, k);
    }
  }

  function InGroup(t: Table, ids: set<int>, k: GroupKey): set<int>
    requires ids <= t.Keys
  {
    set id | id in ids && Group(t[id]) == k
  }

  lemma GroupTop(t: Table, ids: set<int>, best: map<GroupKey, real>, k: GroupKey)
    requires ids <= t.Keys && IsBest(t, ids, best) && k in best
    ensures best[k] <= Held(Shares(t), InGroup(t, ids, k))
  {
    var mine := InGroup(t, ids, k);
    var top :| top in ids && Group(t[top]) == k && Share(t, top) == best[k];
    SharesNonNegative(t, mine);
    Sums.TotalNonNegative(At(Shares(t), mine));
    assert At(Shares(t), mine)[top] == best[k];
  }

  lemma SharesNonNegative(t: Table, ids: set<int>)
    requires ids <= t.Keys
    ensures forall id | id in ids :: 0.0 <= At(Shares(t), ids)[id]
  {
    forall id | id in ids
      ensures 0.0 <= At(Shares(t), ids)[id]
    {
      ShareNonNegative(t, id);
    }
  }

  lemma BestWithout(t: Table, ids: set<int>, best: map<GroupKey, real>, k: GroupKey)
    requires ids <= t.Keys && IsBest(t, ids, best)
    ensures IsBest(t, ids - InGroup(t, ids, k), best - {k})
  {
  }

  // Conservation: in a proportionate structure the deduplicated total is at most
  // 100 before the clamp, so the clamp changes nothing.
  lemma Conservation(t: Table)
    requires Proportionate(t)
    ensures Sums.Total(Best(t)) <= Held(Shares(t), Counted(t)) <= 100.0
    ensures Identified(t) == Sums.Total(Best(t))
  {
    LeavesWithinWhole(t);
    GroupsWithinLeaves(t, Counted(t), Best(t));
  }

  // One corporate owner of the whole customer, two owners of 60 each below it.
  function OverAllocated(): Table {
    map[
      1 := OwnerRow(1, None, "holding", Some(100.0), "ownership", true, false),
      2 := OwnerRow(2, Some(1), "a", Some(60.0), "ownership", true, false),
      3 := OwnerRow(3, Some(1), "b", Some(60.0), "ownership", true, false)]
  }

  lemma OverAllocatedShares()
    ensures var t := OverAllocated(); Share(t, 2) == 60.0 && Share(t, 3) == 60.0
  {
    var t := OverAllocated();
    ShareStep(t, 1);
    ShareStep(t, 2);
    ShareStep(t, 3);
  }

  lemma OverAllocatedLeaves()
    ensures Counted(OverAllocated()) == {2, 3}
    ensures Roots(OverAllocated()) == {1}
  {
  }

  // Limiting the direct stakes alone is not enough: here the leaves count 120,
  // and only the clamp brings the identified ownership back to 100.
  lemma ClampNeeded()
    ensures
      var t := OverAllocated();
      && Held(Stakes(t), Roots(t)) == 100.0
      && Sums.Total(Best(t)) == 120.0 && Identified(t) == 100.0
  {
    var t := OverAllocated();
    OverAllocatedLeaves();
    OverAllocatedShares();
    HeldOne(Stakes(t), 1);
    var a, b: GroupKey := ("a", Some(1)), ("b", Some(1));
    var best: map<GroupKey, real> := map[a := 60.0, b := 60.0];
    assert Group(t[2]) == a && Group(t[3]) == b;
    assert IsBest(t, Counted(t), best) by {
      assert 2 in Counted(t) && 3 in Counted(t);
    }
    BestUnique(t, Counted(t), best, Best(t));
    Sums.TotalPeel(best, a);
    var rest := best - {a};
    Sums.TotalPeel(rest, b);
    assert rest - {b} == map[];
  }

  // ------------------------------------------------ raising stakes

  // Same rows, links, flags and keys; no stake is lower.
  ghost predicate Raised(t: Table, u: Table) {
    && t.Keys == u.Keys
    && forall id | id in t ::
         && u[id] == t[id].(pct := u[id].pct)
         && Stake(t[id]) <= Stake(u[id])
  }

  lemma RaisedLinks(t: Table, u: Table)
    requires Raised(t, u)
    ensures Links(t) == Links(u) && Counted(t) == Counted(u)
    ensures forall id | id in t :: Group(t[id]) == Group(u[id])
  {
    forall id | id in t
      ensures t[id].parent == u[id].parent && Group(t[id]) == Group(u[id])
    {
      assert u[id] == t[id].(pct := u[id].pct);
    }
    assert Links(t) == Links(u);
    forall p
      ensures p in ParentIds(t) <==> p in ParentIds(u)
    {
      if p in ParentIds(t) {
        var id :| id in t && t[id].parent == Some(p);
        assert u[id].parent == Some(p);
      }
      if p in ParentIds(u) {
        var id :| id in u && u[id].parent == Some(p);
        assert t[id].parent == Some(p);
      }
    }
    assert ParentIds(t) == ParentIds(u);
    forall id | id in t
      ensures id in Counted(t) <==> id in Counted(u)
    {
      assert u[id] == t[id].(pct := u[id].pct);
    }
    assert Counted(t) == Counted(u);
  }

  lemma {:induction false} ShareRaised(t: Table, u: Table, id: int)
    requires Raised(t, u) && id in t
    ensures Share(t, id) <= Share(u, id)
    decreases if Rooted(Links(t), id) then Height(Links(t), id) else 0
  {
    RaisedLinks(t, u);
    var g := Links(t);
    if Rooted(g, id) && Parent(g, id).Some? {
      HeightStep(g, id);
      var p := Parent(g, id).value;
      ShareRaised(t, u, p);
      ShareNonNegative(t, p);
      ProductMonotone(Stake(t[id]), Stake(u[id]), Share(t, p), Share(u, p));
    }
  }

  lemma ProductMonotone(a: real, b: real, x: real, y: real)
    requires 0.0 <= a <= b && 0.0 <= x <= y
    ensures a * x <= b * y
  {
  }

  // Least opaque first, among the bands that depend on the total.
  function Opacity(b: Band): int {
    match b
    case FullyTransparent => 0
    case SingleLayerForeign => 1
    case MultiLayerOffshore => 2
    case NomineeOrBearer => 3
    case UboUndisclosed => 4
  }

  // Every group's best share is at least what it was.
  lemma RaisedBest(t: Table, u: Table, b: map<GroupKey, real>, c: map<GroupKey, real>, k: GroupKey)
    requires Raised(t, u) && IsBest(t, Counted(t), b) && IsBest(u, Counted(u), c) && k in b
    ensures k in c && b[k] <= c[k]
  {
    RaisedLinks(t, u);
    var id :| id in Counted(t) && Group(t[id]) == k && Share(t, id) == b[k];
    ShareRaised(t, u, id);
    assert Group(u[id]) == k;
  }

  lemma SameGroups(t: Table, u: Table, b: map<GroupKey, real>, c: map<GroupKey, real>, k: GroupKey)
    requires Raised(t, u) && IsBest(t, Counted(t), b) && IsBest(u, Counted(u), c) && k in c
    ensures k in b
  {
    RaisedLinks(t, u);
    var id :| id in Counted(u) && Group(u[id]) == k && Share(u, id) == c[k];
    assert Group(t[id]) == k;
  }

  lemma RaisedTotal(t: Table, u: Table)
    requires Raised(t, u)
    ensures Sums.Total(Best(t)) <= Sums.Total(Best(u))
    ensures Identified(t) <= Identified(u)
  {
    var b, c := Best(t), Best(u);
    forall k | k in b
      ensures k in c && b[k] <= c[k]
    {
      RaisedBest(t, u, b, c, k);
    }
    forall k | k in c
      ensures k in b
    {
      SameGroups(t, u, b, c, k);
    }
    Sums.TotalMonotone(b, c);
  }

  lemma RaisedFlags(t: Table, u: Table)
    requires Raised(t, u)
    ensures (exists id :: id in t && NomineeControlled(t[id])) <==> exists id :: id in u && NomineeControlled(u[id])
    ensures (exists id :: id in t && Beneficial(t[id])) <==> exists id :: id in u && Beneficial(u[id])
  {
    forall id | id in t
      ensures id in u && (NomineeControlled(t[id]) <==> NomineeControlled(u[id])) &&
        (Beneficial(t[id]) <==> Beneficial(u[id]))
    {
    }
    forall id | id in u
      ensures id in t
    {
    }
  }

  // Raising stakes, with flags and keys fixed, never lowers the identified
  // ownership nor moves the customer to a more opaque band.
  lemma RaisedNeverMoreOpaque(t: Table, u: Table, natural: bool)
    requires Raised(t, u)
    ensures Identified(t) <= Identified(u)
    ensures Opacity(BandOf(natural, u)) <= Opacity(BandOf(natural, t))
  {
    RaisedTotal(t, u);
    RaisedFlags(t, u);
  }
}
