// What the ownership walk counts, read off the recorded fields: which rows count,
// which of them count as one owner, and what each opacity band says of the rows.
module OwnershipMeaning {
  import opened Prelude
  import opened Forest
  import opened Ownership
  import opened OwnershipLaws
  import Sums
  import Text

  // ------------------------------------------------ stakes and leaves

  // A root owns its recorded percentage; one that is missing or not positive is 0.
  lemma {:induction false} RootShare(t: Table, id: int)
    requires id in t && (t[id].parent.None? || t[id].parent.value !in t)
    ensures Share(t, id) == (if t[id].pct.Some? && t[id].pct.value > 0.0 then t[id].pct.value else 0.0)
  {
    ShareStep(t, id);
  }

  // A row below another owns its percentage of what that one owns.
  lemma {:induction false} ChildOwns(t: Table, id: int)
    requires id in t && t[id].parent.Some? && t[id].parent.value in t
    ensures
      var above := Share(t, t[id].parent.value);
      Share(t, id) == (if t[id].pct.Some? && t[id].pct.value > 0.0 then t[id].pct.value * above / 100.0 else 0.0)
  {
    ShareStep(t, id);
  }

  // Exactly the identified owners that no row names as its parent count.
  lemma CountedExactly(t: Table, id: int)
    ensures id in Counted(t) <==>
      id in t && t[id].isUbo && !t[id].isNominee && forall j | j in t :: t[j].parent != Some(id)
  {
    if id in t && exists j :: j in t && t[j].parent == Some(id) {
      var j :| j in t && t[j].parent == Some(id);
      assert t[j].parent.value in ParentIds(t);
    }
  }

  // ------------------------------------------------ one owner, counted once

  // The same owner under the same parent, or both directly.
  predicate SameOwner(a: OwnerRow, b: OwnerRow) {
    a.canonicalKey != "" && a.canonicalKey == b.canonicalKey && a.parent == b.parent
  }

  // Rows stored under their ids; no key is written like a stand-in for a missing one.
  predicate Plain(t: Table) {
    forall id | id in t :: t[id].id == id && (t[id].canonicalKey == "" || t[id].canonicalKey[0] != '#')
  }

  lemma StandInsDiffer(a: int, b: int)
    ensures "#" + Text.Decimal(a) == "#" + Text.Decimal(b) <==> a == b
  {
    if "#" + Text.Decimal(a) == "#" + Text.Decimal(b) {
      assert ("#" + Text.Decimal(a))[1..] == Text.Decimal(a) && ("#" + Text.Decimal(b))[1..] == Text.Decimal(b);
      Text.DecimalInjective(a, b);
    }
  }

  // Two rows fall into one group if and only if they name the same owner under the
  // same parent; a row without a key shares its group with no other.
  lemma GroupExactly(t: Table, i: int, j: int)
    requires Plain(t) && i in t && j in t && i != j
    ensures Group(t[i]) == Group(t[j]) <==> SameOwner(t[i], t[j])
  {
    StandInsDiffer(i, j);
    assert t[i].canonicalKey == "" ==> Group(t[i]).0[0] == '#';
    assert t[j].canonicalKey == "" ==> Group(t[j]).0[0] == '#';
  }

  ghost predicate StandsFor(t: Table, d: int, c: int)
    requires c in t && d in t
  {
    (d == c || SameOwner(t[c], t[d])) && Share(t, c) <= Share(t, d)
  }

  // Some chosen row stands for c.
  ghost predicate Covered(t: Table, chosen: set<int>, c: int)
    requires c in t && chosen <= t.Keys
  {
    exists d :: d in chosen && StandsFor(t, d, c)
  }

  // chosen holds one row of every owner among ids, one with the largest share.
  ghost predicate Represents(t: Table, ids: set<int>, chosen: set<int>)
    requires ids <= t.Keys
  {
    chosen <= ids && AllDiffer(t, chosen) && AllCovered(t, ids, chosen)
  }

  ghost predicate AllDiffer(t: Table, chosen: set<int>)
    requires chosen <= t.Keys
  {
    forall i, j | i in chosen && j in chosen && i != j :: !SameOwner(t[i], t[j])
  }

  ghost predicate AllCovered(t: Table, ids: set<int>, chosen: set<int>)
    requires ids <= t.Keys && chosen <= t.Keys
  {
    forall c {:trigger Covered(t, chosen, c)} | c in ids :: Covered(t, chosen, c)
  }

  // The rows of one group, and one of them with the largest share.
  lemma TopOfGroup(t: Table, ids: set<int>, best: map<GroupKey, real>, k: GroupKey)
    returns (top: int)
    requires ids <= t.Keys && IsBest(t, ids, best) && k in best
    ensures top in InGroup(t, ids, k) && Share(t, top) == best[k]
    ensures Tops(t, InGroup(t, ids, k), top)
  {
    top :| top in ids && Group(t[top]) == k && Share(t, top) == best[k];
    forall c | c in InGroup(t, ids, k)
      ensures Share(t, c) <= Share(t, top)
    {
      assert Group(t[c]) == k;
    }
  }

  ghost predicate Tops(t: Table, mine: set<int>, top: int)
    requires mine <= t.Keys && top in mine
  {
    forall c | c in mine :: Share(t, c) <= Share(t, top)
  }

  lemma {:induction false} GroupsRepresented(t: Table, ids: set<int>, best: map<GroupKey, real>)
    returns (chosen: set<int>)
    requires Plain(t) && ids <= t.Keys && IsBest(t, ids, best)
    ensures Represents(t, ids, chosen) && Sums.Total(best) == Held(Shares(t), chosen)
    decreases |best|
  {
    if best == map[] {
      chosen := {};
      NoneInGroups(t, ids, best);
    } else {
      var k := PickKey(best);
      var top := TopOfGroup(t, ids, best, k);
      BestWithout(t, ids, best, k);
      assert |best - {k}| < |best|;
      var others := GroupsRepresented(t, ids - InGroup(t, ids, k), best - {k});
      chosen := others + {top};
      OneMoreOwner(t, ids, best, k, top, others);
    }
  }

  lemma {:induction false} OneMoreOwner(t: Table, ids: set<int>, best: map<GroupKey, real>, k: GroupKey, top: int,
                                        others: set<int>)
    requires Plain(t) && ids <= t.Keys && top in InGroup(t, ids, k) && Tops(t, InGroup(t, ids, k), top)
    requires k in best && Share(t, top) == best[k]
    requires Represents(t, ids - InGroup(t, ids, k), others)
    requires Sums.Total(best - {k}) == Held(Shares(t), others)
    ensures Represents(t, ids, others + {top}) && Sums.Total(best) == Held(Shares(t), others + {top})
  {
    Sums.TotalPeel(best, k);
    OneMoreHeld(t, others, top);
    StillDiffer(t, ids, k, top, others);
    AllStillCovered(t, ids, k, top, others);
  }

  lemma NoneInGroups(t: Table, ids: set<int>, best: map<GroupKey, real>)
    requires ids <= t.Keys && IsBest(t, ids, best) && best == map[]
    ensures ids == {}
  {
    if ids != {} {
      var c := Pick(ids);
      assert false;
    }
  }

  lemma {:induction false} OneMoreHeld(t: Table, others: set<int>, top: int)
    requires others <= t.Keys && top in t && top !in others
    ensures Held(Shares(t), others + {top}) == Share(t, top) + Held(Shares(t), others)
  {
    HeldSplit(Shares(t), others + {top}, {top});
    HeldOne(Shares(t), top);
    assert others + {top} - {top} == others;
  }

  lemma OtherOwners(t: Table, ids: set<int>, k: GroupKey, top: int, j: int)
    requires Plain(t) && ids <= t.Keys && top in InGroup(t, ids, k) && j in ids - InGroup(t, ids, k)
    ensures !SameOwner(t[top], t[j]) && !SameOwner(t[j], t[top])
  {
    GroupExactly(t, top, j);
  }

  lemma StillCovered(t: Table, ids: set<int>, k: GroupKey, top: int, others: set<int>, c: int)
    requires Plain(t) && ids <= t.Keys && top in InGroup(t, ids, k) && Tops(t, InGroup(t, ids, k), top)
    requires others <= ids && c in ids && (c in InGroup(t, ids, k) || Covered(t, others, c))
    ensures Covered(t, others + {top}, c)
  {
    if c in InGroup(t, ids, k) {
      if c != top {
        GroupExactly(t, c, top);
      }
      assert top in others + {top} && StandsFor(t, top, c);
    } else {
      var d :| d in others && StandsFor(t, d, c);
      assert d in others + {top};
    }
  }

  lemma StillDiffer(t: Table, ids: set<int>, k: GroupKey, top: int, others: set<int>)
    requires Plain(t) && ids <= t.Keys && top in InGroup(t, ids, k)
    requires others <= ids - InGroup(t, ids, k) && AllDiffer(t, others)
    ensures AllDiffer(t, others + {top})
  {
    forall j | j in others
      ensures !SameOwner(t[top], t[j]) && !SameOwner(t[j], t[top])
    {
      OtherOwners(t, ids, k, top, j);
    }
  }

  lemma AllStillCovered(t: Table, ids: set<int>, k: GroupKey, top: int, others: set<int>)
    requires Plain(t) && ids <= t.Keys && top in InGroup(t, ids, k) && Tops(t, InGroup(t, ids, k), top)
    requires others <= ids && AllCovered(t, ids - InGroup(t, ids, k), others)
    ensures AllCovered(t, ids, others + {top})
  {
    forall c | c in ids
      ensures Covered(t, others + {top}, c)
    {
      assert c !in InGroup(t, ids, k) ==> Covered(t, others, c);
      StillCovered(t, ids, k, top, others, c);
    }
  }

  // The total is what one row of every owner holds, the largest where an owner is
  // recorded more than once under the same parent.
  lemma TotalOfOwners(t: Table) returns (chosen: set<int>)
    requires Plain(t)
    ensures Represents(t, Counted(t), chosen) && Sums.Total(Best(t)) == Held(Shares(t), chosen)
  {
    chosen := GroupsRepresented(t, Counted(t), Best(t));
  }

  // Where no owner is recorded twice under one parent, every counted leaf counts.
  lemma NothingMerged(t: Table)
    requires Plain(t) && forall i, j | i in Counted(t) && j in Counted(t) && i != j :: !SameOwner(t[i], t[j])
    ensures Sums.Total(Best(t)) == Held(Shares(t), Counted(t))
  {
    var chosen := TotalOfOwners(t);
    forall c | c in Counted(t)
      ensures c in chosen
    {
      assert AllCovered(t, Counted(t), chosen) && Covered(t, chosen, c);
      var d :| d in chosen && StandsFor(t, d, c);
    }
    assert chosen == Counted(t);
  }

  // ------------------------------------------------ an owner under two parents

  // "x" owns all of two companies that own 60 and 40 of the customer.
  function TwoCompanies(): Table {
    map[
      1 := OwnerRow(1, None, "a", Some(60.0), "ownership", true, false),
      2 := OwnerRow(2, None, "b", Some(40.0), "ownership", true, false),
      3 := OwnerRow(3, Some(1), "x", Some(100.0), "ownership", true, false),
      4 := OwnerRow(4, Some(2), "x", Some(100.0), "ownership", true, false)]
  }

  lemma TwoCompaniesLeaves()
    ensures Counted(TwoCompanies()) == {3, 4}
    ensures Held(Shares(TwoCompanies()), {3, 4}) == 100.0
  {
    var t := TwoCompanies();
    forall id | id in t
      ensures id in Counted(t) <==> id in {3, 4}
    {
      CountedExactly(t, id);
      assert t[3].parent == Some(1) && t[4].parent == Some(2);
    }
    RootShare(t, 1);
    RootShare(t, 2);
    ChildOwns(t, 3);
    ChildOwns(t, 4);
    HeldSplit(Shares(t), {3, 4}, {3});
    HeldOne(Shares(t), 3);
    HeldOne(Shares(t), 4);
    assert {3, 4} - {3} == {4};
  }

  lemma TwoCompaniesTotal()
    ensures Sums.Total(Best(TwoCompanies())) == 100.0
  {
    var t := TwoCompanies();
    TwoCompaniesLeaves();
    assert !SameOwner(t[3], t[4]) && !SameOwner(t[4], t[3]);
    forall i, j | i in Counted(t) && j in Counted(t) && i != j
      ensures !SameOwner(t[i], t[j])
    {
      assert i in {3, 4} && j in {3, 4};
    }
    NothingMerged(t);
  }

  // Both stakes count: all of the customer is identified.
  lemma OwnerUnderTwoParents()
    ensures
      var t := TwoCompanies();
      Sums.Total(Best(t)) == 100.0 && Identified(t) == 100.0 && BandOf(false, t) == FullyTransparent
  {
    var t := TwoCompanies();
    TwoCompaniesTotal();
    BandsExactly(t);
    assert 3 in t && t[3].isUbo && !t[3].isNominee;
  }

  // ------------------------------------------------ the bands

  ghost predicate AnyNomineeControl(t: Table) {
    exists i :: i in t && !t[i].isNominee && t[i].control == "nominee"
  }

  ghost predicate AnyIdentified(t: Table) {
    exists i :: i in t && !t[i].isNominee && t[i].isUbo
  }

  // What each band says of a legal person's rows.
  lemma BandsExactly(t: Table)
    ensures BandOf(true, t) == FullyTransparent
    ensures
      var band, total, named := BandOf(false, t), Sums.Total(Best(t)), !AnyNomineeControl(t) && AnyIdentified(t);
      && (band == NomineeOrBearer <==> AnyNomineeControl(t))
      && (band == UboUndisclosed <==> !AnyNomineeControl(t) && !AnyIdentified(t))
      && (band == MultiLayerOffshore <==> named && total < 50.0)
      && (band == SingleLayerForeign <==> named && 50.0 <= total < 75.0)
      && (band == FullyTransparent <==> named && 75.0 <= total)
  {
    FlagsExactly(t);
  }

  lemma FlagsExactly(t: Table)
    ensures (exists id :: id in t && NomineeControlled(t[id])) <==> AnyNomineeControl(t)
    ensures (exists id :: id in t && Beneficial(t[id])) <==> AnyIdentified(t)
  {
    if i :| i in t && !t[i].isNominee && t[i].control == "nominee" {
      assert NomineeControlled(t[i]);
    }
    if i :| i in t && !t[i].isNominee && t[i].isUbo {
      assert Beneficial(t[i]);
    }
    if i :| i in t && NomineeControlled(t[i]) {
      assert !t[i].isNominee && t[i].control == "nominee";
    }
    if i :| i in t && Beneficial(t[i]) {
      assert !t[i].isNominee && t[i].isUbo;
    }
  }
}
