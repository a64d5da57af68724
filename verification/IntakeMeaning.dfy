// What admitting an owner asks for, in terms of the request, the customer and the
// rows recorded for it, and which refusal names what.
module IntakeMeaning {
  import opened Prelude
  import opened Forest
  import opened OwnerIntake
  import Sums

  // A row of the customer the request is for, in its organisation.
  predicate Recorded(s: Register, a: Request, id: int) {
    id in s.links && s.links[id].customer == a.customer && s.links[id].org == a.org
  }

  function RowsOf(s: Register, a: Request): set<int> {
    set id | id in s.links && Recorded(s, a, id)
  }

  // ------------------------------------------------ chains of owners

  // From the first row up, each the parent of the one before, to one without a parent.
  ghost predicate ChainToTop(s: Register, a: Request, path: seq<int>) {
    && path != [] && (forall k | 0 <= k < |path| :: Recorded(s, a, path[k]))
    && (forall k | 0 <= k < |path| - 1 :: s.links[path[k]].parent == Some(path[k + 1]))
    && s.links[path[|path| - 1]].parent.None?
  }

  ghost predicate TopWithin(s: Register, a: Request, id: int, n: int) {
    exists path :: ChainToTop(s, a, path) && path[0] == id && |path| <= n
  }

  lemma {:induction false} TopWithinExactly(s: Register, a: Request, id: int, n: nat)
    requires Recorded(s, a, id) && Closed(Scope(s.links, a.customer, a.org))
    ensures TopWithin(s, a, id, n + 1) <==> RootWithin(Scope(s.links, a.customer, a.org), id, n)
    decreases n
  {
    var g := Scope(s.links, a.customer, a.org);
    assert id in g && g[id] == s.links[id].parent;
    if s.links[id].parent.None? {
      assert ChainToTop(s, a, [id]);
    } else {
      var up := s.links[id].parent.value;
      assert up in g && Recorded(s, a, up);
      if n > 0 {
        TopWithinExactly(s, a, up, n - 1);
      }
      if path :| ChainToTop(s, a, path) && path[0] == id && |path| <= n + 1 {
        ChainTail(s, a, path);
        assert TopWithin(s, a, up, n);
      }
      if n > 0 && TopWithin(s, a, up, n) {
        var path :| ChainToTop(s, a, path) && path[0] == up && |path| <= n;
        ChainLonger(s, a, id, path);
      }
    }
  }

  lemma ChainTail(s: Register, a: Request, path: seq<int>)
    requires ChainToTop(s, a, path) && s.links[path[0]].parent.Some?
    ensures |path| > 1 && ChainToTop(s, a, path[1..]) && Some(path[1]) == s.links[path[0]].parent
  {
    forall k | 0 <= k < |path| - 2
      ensures s.links[path[1..][k]].parent == Some(path[1..][k + 1])
    {
      assert s.links[path[k + 1]].parent == Some(path[k + 2]);
    }
  }

  lemma ChainLonger(s: Register, a: Request, id: int, path: seq<int>)
    requires ChainToTop(s, a, path) && Recorded(s, a, id) && s.links[id].parent == Some(path[0])
    ensures ChainToTop(s, a, [id] + path)
  {
  }

  // ------------------------------------------------ what is asked for

  // What has to hold for a request not to be refused for this reason.
  ghost predicate Meets(s: Register, a: Request, refusal: Refusal) {
    match refusal
    case NameRequired => !a.nameBlank
    case PctOutOfRange => a.pct.Some? ==> 0.0 <= a.pct.value && a.pct.value <= 100.0
    case CustomerNotFound => exists c | c in s.customers :: c == a.customer && s.customers[c].org == a.org
    case OwnOwner => a.customer in s.customers ==> forall f | f in a.forms :: f !in s.customers[a.customer].forms
    case TooManyOwners => |RowsOf(s, a)| < 200
    case ForeignParent => a.parent.Some? ==> Recorded(s, a, a.parent.value)
    case ChainTooDeep => a.parent.Some? ==> TopWithin(s, a, a.parent.value, 9)
    case TotalAboveHundred =>
      a.pct.Some? && a.parent.None? ==> Sums.Total(Direct(s.links, a.customer, a.org)) + a.pct.value <= 100.005
    case CircularChain => true  // in a valid register no chain is circular
  }

  // The first refusal, in this order, whose condition fails, and none if all hold.
  ghost function FirstFailed(s: Register, a: Request): Option<Refusal> {
    if !Meets(s, a, NameRequired) then Some(NameRequired)
    else if !Meets(s, a, PctOutOfRange) then Some(PctOutOfRange)
    else if !Meets(s, a, CustomerNotFound) then Some(CustomerNotFound)
    else if !Meets(s, a, OwnOwner) then Some(OwnOwner)
    else if !Meets(s, a, TooManyOwners) then Some(TooManyOwners)
    else if !Meets(s, a, ForeignParent) then Some(ForeignParent)
    else if !Meets(s, a, ChainTooDeep) then Some(ChainTooDeep)
    else if !Meets(s, a, TotalAboveHundred) then Some(TotalAboveHundred)
    else None
  }

  lemma RefusedExactly(s: Register, a: Request)
    requires Valid(s)
    ensures Refused(s, a) == FirstFailed(s, a)
  {
    Conditions(s, a);
    if a.customer in s.customers {
      OwnOwnerCondition(s, a);
    }
    if a.parent.Some? && a.parent.value in Scope(s.links, a.customer, a.org) {
      DepthCondition(s, a);
    }
  }

  // The conditions as the checks put them.
  lemma Conditions(s: Register, a: Request)
    requires Valid(s)
    ensures
      var g := Scope(s.links, a.customer, a.org);
      && (Meets(s, a, CustomerNotFound) <==> a.customer in s.customers && s.customers[a.customer].org == a.org)
      && (Meets(s, a, TooManyOwners) <==> |g| < MAX_UBOS_PER_CUSTOMER)
      && (Meets(s, a, ForeignParent) <==> (a.parent.Some? ==> a.parent.value in g))
  {
    assert RowsOf(s, a) == Scope(s.links, a.customer, a.org).Keys;
  }

  lemma OwnOwnerCondition(s: Register, a: Request)
    requires a.customer in s.customers
    ensures Meets(s, a, OwnOwner) <==> a.forms * s.customers[a.customer].forms == {}
  {
    if !Meets(s, a, OwnOwner) {
      var f :| f in a.forms && f in s.customers[a.customer].forms;
      assert f in a.forms * s.customers[a.customer].forms;
    }
  }

  lemma DepthCondition(s: Register, a: Request)
    requires Valid(s) && a.parent.Some? && a.parent.value in Scope(s.links, a.customer, a.org)
    ensures Meets(s, a, ChainTooDeep) <==>
      RootWithin(Scope(s.links, a.customer, a.org), a.parent.value, MAX_UBO_DEPTH - 2)
  {
    assert ValidStructure(s.links, a.customer, a.org);
    TopWithinExactly(s, a, a.parent.value, 8);
  }

  // A request is admitted if and only if no condition fails.
  lemma AdmittedExactly(s: Register, a: Request)
    requires Valid(s)
    ensures Admissible(s, a) <==> FirstFailed(s, a) == None
  {
    var g := Scope(s.links, a.customer, a.org);
    RefusedExactly(s, a);
    assert ValidStructure(s.links, a.customer, a.org);
    if a.parent.Some? && a.parent.value in g {
      ChainedIsForest(g, a.parent.value);
      WithinIsHeight(g, a.parent.value, MAX_UBO_DEPTH - 2);
    }
  }
}
