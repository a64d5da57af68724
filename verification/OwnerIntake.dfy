// Recording beneficial owners: the checks add_ubo makes before it inserts a row,
// and the shape every recorded ownership structure therefore has.
module OwnerIntake {
  import opened Prelude
  import opened Forest
  import Sums

  const MAX_UBO_DEPTH := 10
  const MAX_UBOS_PER_CUSTOMER := 200
  const UBO_THRESHOLD_PCT := 25.0

  // forms: the spellings under which the customer itself is known (case-folded
  // names and canonical keys).
  datatype Customer = Customer(org: int, forms: set<string>)

  datatype Link = Link(
    org: int,
    customer: int,
    parent: Option<int>,
    pct: Option<real>,
    control: string,
    isUbo: bool,
    isNominee: bool)

  datatype Request = Request(
    customer: int,
    org: int,
    nameBlank: bool,
    forms: set<string>,
    pct: Option<real>,
    control: string,
    isNominee: bool,
    parent: Option<int>)

  datatype Refusal =
    | NameRequired
    | PctOutOfRange
    | CustomerNotFound
    | OwnOwner
    | TooManyOwners
    | ForeignParent
    | CircularChain
    | ChainTooDeep
    | TotalAboveHundred

  datatype Register = Register(customers: map<int, Customer>, links: map<int, Link>)

  // ------------------------------------------------ rounding

  // Python's round(x, 2): to the nearest hundredth, ties to the even one.
  function RoundHalfEven(x: real): int {
    var f := x.Floor;
    var d := x - f as real;
    if d < 0.5 then f else if d > 0.5 then f + 1 else if f % 2 == 0 then f else f + 1
  }

  function Round2(x: real): real {
    RoundHalfEven(x * 100.0) as real / 100.0
  }

  // The check "rounded total above 100" admits exactly the totals up to 100.005.
  lemma TotalCheckExact(x: real)
    ensures Round2(x) <= 100.0 <==> x <= 100.005
  {
  }

  // ------------------------------------------------ one customer's structure

  function Scope(links: map<int, Link>, customer: int, org: int): Parents {
    map id | id in links && links[id].customer == customer && links[id].org == org :: links[id].parent
  }

  // The direct stakes: rows without a parent that record a percentage.
  function Direct(links: map<int, Link>, customer: int, org: int): map<int, real> {
    map id | id in links && links[id].customer == customer && links[id].org == org
             && links[id].parent.None? && links[id].pct.Some? :: links[id].pct.value
  }

  // Every parent link leads to a row of the same structure.
  ghost predicate Closed(g: Parents) {
    forall id | id in g && g[id].Some? :: g[id].value in g
  }

  // Closed, acyclic, and no chain longer than MAX_UBO_DEPTH levels.
  ghost predicate Chained(g: Parents) {
    Closed(g) && forall id | id in g :: RootWithin(g, id, MAX_UBO_DEPTH - 1)
  }

  lemma ChainedIsForest(g: Parents, id: int)
    requires Chained(g) && id in g
    ensures Rooted(g, id) && Height(g, id) + 1 <= MAX_UBO_DEPTH && !ReachesCycle(g, id)
  {
    assert RootWithin(g, id, MAX_UBO_DEPTH - 1);
    assert Height(g, id) <= MAX_UBO_DEPTH - 1;
    RootedOrCycle(g, id);
  }

  ghost predicate ValidStructure(links: map<int, Link>, customer: int, org: int) {
    && Chained(Scope(links, customer, org))
    && |Scope(links, customer, org)| <= MAX_UBOS_PER_CUSTOMER
    && Round2(Sums.Total(Direct(links, customer, org))) <= 100.0
  }

  function IsUbo(control: string, pct: Option<real>, isNominee: bool): bool {
    !isNominee && (control == "senior_official" || (pct.Some? && pct.value >= UBO_THRESHOLD_PCT))
  }

  ghost predicate ValidLink(s: Register, l: Link) {
    && l.customer in s.customers && s.customers[l.customer].org == l.org
    && (l.pct.Some? ==> 0.0 <= l.pct.value <= 100.0)
    && l.isUbo == IsUbo(l.control, l.pct, l.isNominee)
    && (l.parent.Some? ==>
         && l.parent.value in s.links
         && s.links[l.parent.value].customer == l.customer
         && s.links[l.parent.value].org == l.org)
  }

  ghost predicate Valid(s: Register) {
    && (forall id | id in s.links :: ValidLink(s, s.links[id]))
    && (forall c: int, o: int :: ValidStructure(s.links, c, o))
  }

  lemma {:induction false} WithinIsHeight(g: Parents, id: int, n: nat)
    requires id in g && Rooted(g, id)
    ensures RootWithin(g, id, n) <==> Height(g, id) <= n
  {
    if Height(g, id) <= n {
      RootWithinMonotone(g, id, Height(g, id), n);
    }
  }

  // ------------------------------------------------ the depth walk

  // The walk up from the proposed parent: the new row's level, or a refusal.
  method CheckDepth(g: Parents, parent: int) returns (r: Result<int, Refusal>)
    requires parent in g
    ensures r.Err? ==> r.error == CircularChain || r.error == ChainTooDeep
    ensures Closed(g) ==> (r.Ok? <==> Rooted(g, parent) && Height(g, parent) + 2 <= MAX_UBO_DEPTH)
    ensures Closed(g) && r.Ok? ==> r.value == Height(g, parent) + 2
    ensures Closed(g) && r == Err(CircularChain) ==> !Rooted(g, parent)
  {
    var depth := 2;
    var seen := {parent};
    var nxt := g[parent];
    ghost var cur := parent;
    while nxt.Some?
      invariant 2 <= depth <= MAX_UBO_DEPTH
      invariant Closed(g) ==> cur in g && Up(g, parent, depth - 2) == Some(cur) && nxt == g[cur]
      invariant Closed(g) ==> forall x | x in seen :: exists j: nat :: j <= depth - 2 && Up(g, parent, j) == Some(x)
      decreases MAX_UBO_DEPTH - depth
    {
      ghost var k := depth - 2;
      if Closed(g) {
        UpCompose(g, parent, k, 1);
        assert Up(g, cur, 1) == Some(nxt.value);
        assert Up(g, parent, k + 1) == Some(nxt.value);
        UpHeight(g, parent, k + 1);
      }
      if nxt.value in seen {
        if Closed(g) {
          var j: nat :| j <= k && Up(g, parent, j) == Some(nxt.value);
          UpCompose(g, parent, j, k + 1 - j);
          CycleNotRooted(g, nxt.value, k + 1 - j);
        }
        return Err(CircularChain);
      }
      seen := seen + {nxt.value};
      depth := depth + 1;
      if depth > MAX_UBO_DEPTH {
        return Err(ChainTooDeep);
      }
      cur := nxt.value;
      nxt := if nxt.value in g then g[nxt.value] else None;
    }
    if Closed(g) {
      UpHeight(g, parent, depth - 2);
      HeightStep(g, cur);
    }
    return Ok(depth);
  }

  // ------------------------------------------------ what is admitted

  // Stated on the structure itself, not on the walk that checks it.
  ghost predicate Admissible(s: Register, a: Request) {
    var g := Scope(s.links, a.customer, a.org);
    && !a.nameBlank
    && (a.pct.Some? ==> 0.0 <= a.pct.value <= 100.0)
    && a.customer in s.customers && s.customers[a.customer].org == a.org
    && a.forms * s.customers[a.customer].forms == {}
    && |g| < MAX_UBOS_PER_CUSTOMER
    && (a.parent.Some? ==> a.parent.value in g && Rooted(g, a.parent.value)
                           && Height(g, a.parent.value) + 2 <= MAX_UBO_DEPTH)
    && (a.pct.Some? && a.parent.None? ==>
         Sums.Total(Direct(s.links, a.customer, a.org)) + a.pct.value <= 100.005)
  }

  // Why a request is refused: the first of the conditions, in this order, that it
  // fails. (In a valid register no chain is circular.)
  ghost function Refused(s: Register, a: Request): Option<Refusal>
    requires Valid(s)
  {
    var g := Scope(s.links, a.customer, a.org);
    if a.nameBlank then Some(NameRequired)
    else if a.pct.Some? && !(0.0 <= a.pct.value <= 100.0) then Some(PctOutOfRange)
    else if a.customer !in s.customers || s.customers[a.customer].org != a.org then Some(CustomerNotFound)
    else if a.forms * s.customers[a.customer].forms != {} then Some(OwnOwner)
    else if |g| >= MAX_UBOS_PER_CUSTOMER then Some(TooManyOwners)
    else if a.parent.Some? && a.parent.value !in g then Some(ForeignParent)
    else if a.parent.Some? && !RootWithin(g, a.parent.value, MAX_UBO_DEPTH - 2) then Some(ChainTooDeep)
    else if a.pct.Some? && a.parent.None? && Sums.Total(Direct(s.links, a.customer, a.org)) + a.pct.value > 100.005
      then Some(TotalAboveHundred)
    else None
  }

  function NewLink(a: Request): Link {
    Link(a.org, a.customer, a.parent, a.pct, a.control, IsUbo(a.control, a.pct, a.isNominee), a.isNominee)
  }

  // One call: an admissible request adds exactly one row, any other changes nothing.
  ghost predicate AddStep(s: Register, a: Request, rowid: int, s': Register, r: Result<int, Refusal>) {
    && rowid !in s.links
    && (r.Ok? <==> Admissible(s, a))
    && s' == (if r.Ok? then s.(links := s.links[rowid := NewLink(a)]) else s)
    && (r.Ok? ==> r.value == rowid)
  }

  class OwnerRegister {
    var customers: map<int, Customer>
    var links: map<int, Link>

    ghost function State(): Register
      reads this
    {
      Register(customers, links)
    }

    constructor (customers: map<int, Customer>)
      ensures this.customers == customers && links == map[]
    {
      this.customers, links := customers, map[];
    }

    // The checks of _check_ubo_structure, in its order.
    method CheckStructure(a: Request) returns (refusal: Option<Refusal>)
      requires Valid(State())
      requires a.customer in customers && customers[a.customer].org == a.org
      ensures refusal.None? <==>
        var g := Scope(links, a.customer, a.org);
        && a.forms * customers[a.customer].forms == {}
        && |g| < MAX_UBOS_PER_CUSTOMER
        && (a.parent.Some? ==> a.parent.value in g && Rooted(g, a.parent.value)
                               && Height(g, a.parent.value) + 2 <= MAX_UBO_DEPTH)
      ensures refusal.Some? && !a.nameBlank && (a.pct.Some? ==> 0.0 <= a.pct.value <= 100.0) ==>
        refusal == Refused(State(), a)
    {
      var g := Scope(links, a.customer, a.org);
      assert ValidStructure(links, a.customer, a.org);
      if a.forms * customers[a.customer].forms != {} {
        return Some(OwnOwner);
      }
      if |g| >= MAX_UBOS_PER_CUSTOMER {
        return Some(TooManyOwners);
      }
      if a.parent.None? {
        return None;
      }
      if a.parent.value !in g {
        return Some(ForeignParent);
      }
      ChainedIsForest(g, a.parent.value);
      WithinIsHeight(g, a.parent.value, MAX_UBO_DEPTH - 2);
      var depth := CheckDepth(g, a.parent.value);
      return if depth.Err? then Some(depth.error) else None;
    }

    // rowid is the fresh primary key the database assigns; being fresh, it can
    // never equal the parent, so the row is never its own parent.
    method AddUbo(a: Request, rowid: int) returns (r: Result<int, Refusal>)
      requires Valid(State()) && rowid !in links
      modifies this
      ensures AddStep(old(State()), a, rowid, State(), r)
      ensures Valid(State())
      ensures r.Err? ==> Some(r.error) == Refused(old(State()), a)
      ensures r.Ok? ==> a.parent != Some(rowid)
    {
      ghost var before := State();
      if a.nameBlank {
        return Err(NameRequired);
      }
      if a.pct.Some? && !(0.0 <= a.pct.value <= 100.0) {
        return Err(PctOutOfRange);
      }
      var isUbo := false;
      if !a.isNominee {
        isUbo := a.control == "senior_official" || (a.pct.Some? && a.pct.value >= UBO_THRESHOLD_PCT);
      }
      if !(a.customer in customers && customers[a.customer].org == a.org) {
        return Err(CustomerNotFound);
      }
      var refusal := CheckStructure(a);
      if refusal.Some? {
        return Err(refusal.value);
      }
      if a.pct.Some? && a.parent.None? {
        var existing := Sums.SumValues(Direct(links, a.customer, a.org));
        TotalCheckExact(existing + a.pct.value);
        if Round2(existing + a.pct.value) > 100.0 {
          return Err(TotalAboveHundred);
        }
      }
      links := links[rowid := Link(a.org, a.customer, a.parent, a.pct, a.control, isUbo, a.isNominee)];
      r := Ok(rowid);
      AddKeepsValid(before, a, rowid, State(), r);
    }
  }

  // ------------------------------------------------ the invariant

  lemma {:induction false} RootWithinExtended(g: Parents, id: int, parent: Option<int>, x: int, n: nat)
    requires Closed(g) && id !in g && x in g && RootWithin(g, x, n)
    ensures RootWithin(g[id := parent], x, n)
    decreases n
  {
    if Parent(g, x).Some? {
      RootWithinExtended(g, id, parent, Parent(g, x).value, n - 1);
    }
  }

  lemma AddKeepsChained(g: Parents, id: int, parent: Option<int>)
    requires Chained(g) && id !in g
    requires parent.Some? ==> parent.value in g && Height(g, parent.value) + 2 <= MAX_UBO_DEPTH
    ensures Chained(g[id := parent])
  {
    var h := g[id := parent];
    forall x | x in h
      ensures RootWithin(h, x, MAX_UBO_DEPTH - 1)
    {
      if x != id {
        RootWithinExtended(g, id, parent, x, MAX_UBO_DEPTH - 1);
      } else if parent.Some? {
        var p := parent.value;
        RootWithinMonotone(g, p, Height(g, p), MAX_UBO_DEPTH - 2);
        RootWithinExtended(g, id, parent, p, MAX_UBO_DEPTH - 2);
      }
    }
  }

  // A new row extends its own customer's structure and no other.
  lemma InsertedScope(links: map<int, Link>, l: Link, rowid: int, c: int, o: int)
    requires rowid !in links
    ensures rowid !in Scope(links, c, o)
    ensures Scope(links[rowid := l], c, o)
         == if l.customer == c && l.org == o then Scope(links, c, o)[rowid := l.parent] else Scope(links, c, o)
  {
  }

  lemma InsertedDirect(links: map<int, Link>, l: Link, rowid: int, c: int, o: int)
    requires rowid !in links
    ensures rowid !in Direct(links, c, o)
    ensures Direct(links[rowid := l], c, o)
         == if l.customer == c && l.org == o && l.parent.None? && l.pct.Some?
            then Direct(links, c, o)[rowid := l.pct.value] else Direct(links, c, o)
  {
  }

  lemma AddKeepsStructure(s: Register, a: Request, rowid: int, c: int, o: int)
    requires Valid(s) && Admissible(s, a) && rowid !in s.links
    ensures ValidStructure(s.links[rowid := NewLink(a)], c, o)
  {
    var g, direct := Scope(s.links, c, o), Direct(s.links, c, o);
    assert ValidStructure(s.links, c, o);
    InsertedScope(s.links, NewLink(a), rowid, c, o);
    InsertedDirect(s.links, NewLink(a), rowid, c, o);
    if c == a.customer && o == a.org {
      AddKeepsChained(g, rowid, a.parent);
      assert |g[rowid := a.parent]| == |g| + 1;
      if a.pct.Some? && a.parent.None? {
        Sums.TotalInsert(direct, rowid, a.pct.value);
        TotalCheckExact(Sums.Total(direct) + a.pct.value);
      }
    }
  }

  lemma AddKeepsValid(s: Register, a: Request, rowid: int, s': Register, r: Result<int, Refusal>)
    requires Valid(s) && AddStep(s, a, rowid, s', r)
    ensures Valid(s')
  {
    if r.Ok? {
      forall c: int, o: int
        ensures ValidStructure(s'.links, c, o)
      {
        AddKeepsStructure(s, a, rowid, c, o);
      }
      forall id | id in s'.links
        ensures ValidLink(s', s'.links[id])
      {
        if id != rowid {
          assert ValidLink(s, s.links[id]);
        }
      }
    }
  }

  // ------------------------------------------------ whole runs

  ghost predicate Next(s: Register, s': Register) {
    || (exists a: Request, rowid: int, r: Result<int, Refusal> :: AddStep(s, a, rowid, s', r))
    || (s.links == s'.links && forall c | c in s.customers :: c in s'.customers && s'.customers[c] == s.customers[c])
  }

  // Any sequence of add_ubo calls, interleaved with the onboarding of customers,
  // from a register without owners.
  ghost predicate Run(run: seq<Register>) {
    && |run| > 0 && run[0].links == map[]
    && forall i | 0 <= i < |run| - 1 :: Next(run[i], run[i + 1])
  }

  lemma EmptyValid(s: Register)
    requires s.links == map[]
    ensures Valid(s)
  {
  }

  lemma {:induction false} RunStaysValid(run: seq<Register>, i: nat)
    requires Run(run) && i < |run|
    ensures Valid(run[i])
  {
    if i == 0 {
      EmptyValid(run[0]);
    } else {
      RunStaysValid(run, i - 1);
      var s, s' := run[i - 1], run[i];
      assert Next(s, s');
      if a: Request, rowid: int, r: Result<int, Refusal> :| AddStep(s, a, rowid, s', r) {
        AddKeepsValid(s, a, rowid, s', r);
      } else {
        forall c: int, o: int
          ensures ValidStructure(s'.links, c, o)
        {
          assert ValidStructure(s.links, c, o);
        }
        forall id | id in s'.links
          ensures ValidLink(s', s'.links[id])
        {
          assert ValidLink(s, s.links[id]);
        }
      }
    }
  }

  // A second direct owner of 40.004 beside one of 60 is accepted, although the
  // total is then above 100.
  lemma AcceptedAboveHundred()
    ensures
      var first := Link(1, 7, None, Some(60.0), "ownership", true, false);
      var s := Register(map[7 := Customer(1, {})], map[1 := first]);
      var a := Request(7, 1, false, {"b"}, Some(40.004), "ownership", false, None);
      var s' := s.(links := s.links[2 := NewLink(a)]);
      AddStep(s, a, 2, s', Ok(2)) && Sums.Total(Direct(s'.links, 7, 1)) == 100.004
  {
    var first := Link(1, 7, None, Some(60.0), "ownership", true, false);
    var s := Register(map[7 := Customer(1, {})], map[1 := first]);
    var a := Request(7, 1, false, {"b"}, Some(40.004), "ownership", false, None);
    var direct := Direct(s.links, 7, 1);
    assert direct == map[1 := 60.0];
    assert direct - {1} == map[];
    Sums.TotalPeel(direct, 1);
    assert Scope(s.links, 7, 1) == map[1 := None];
    InsertedDirect(s.links, NewLink(a), 2, 7, 1);
    Sums.TotalInsert(direct, 2, 40.004);
  }

  // Who is a beneficial owner, in every run: an owner that is no nominee and holds at
  // least 25 percent or is recorded as a senior official, and nobody else.
  lemma BeneficialExactly(run: seq<Register>, i: nat, id: int)
    requires Run(run) && i < |run| && id in run[i].links
    ensures
      var l := run[i].links[id];
      l.isUbo <==> !l.isNominee && (l.control == "senior_official" || (l.pct.Some? && l.pct.value >= 25.0))
  {
    RunStaysValid(run, i);
    assert ValidLink(run[i], run[i].links[id]);
  }

  // An accepted request is recorded as it was made, any other not at all.
  lemma RecordedAsAsked(s: Register, a: Request, rowid: int, s': Register, r: Result<int, Refusal>)
    requires AddStep(s, a, rowid, s', r)
    ensures r.Err? ==> s' == s
    ensures r.Ok? ==>
      && r.value == rowid && s'.customers == s.customers && rowid in s'.links && s'.links - {rowid} == s.links
      && var l := s'.links[rowid];
         && l.org == a.org && l.customer == a.customer && l.parent == a.parent && l.pct == a.pct
         && l.control == a.control && l.isNominee == a.isNominee
         && (l.isUbo <==> !a.isNominee && (a.control == "senior_official" || (a.pct.Some? && a.pct.value >= 25.0)))
  {
    assert s.links[rowid := NewLink(a)] - {rowid} == s.links;
  }

  // The direct stakes of a customer: what its rows without a parent record.
  lemma DirectExactly(links: map<int, Link>, customer: int, org: int, id: int)
    ensures id in Direct(links, customer, org) <==>
      && id in links && links[id].customer == customer && links[id].org == org
      && links[id].parent.None? && links[id].pct.Some?
    ensures id in Direct(links, customer, org) ==> Some(Direct(links, customer, org)[id]) == links[id].pct
    ensures id in Scope(links, customer, org) <==>
      id in links && links[id].customer == customer && links[id].org == org
    ensures id in Scope(links, customer, org) ==> Scope(links, customer, org)[id] == links[id].parent
  {
  }

  // What the invariant says of every state of every run, spelled out.
  lemma RunStructure(run: seq<Register>, i: nat, id: int)
    requires Run(run) && i < |run| && id in run[i].links
    ensures
      var links := run[i].links;
      var l := links[id];
      var g := Scope(links, l.customer, l.org);
      && l.customer in run[i].customers && run[i].customers[l.customer].org == l.org
      && (l.pct.Some? ==> 0.0 <= l.pct.value && l.pct.value <= 100.0)
      && (l.parent.Some? ==> l.parent.value in links && links[l.parent.value].customer == l.customer
                             && links[l.parent.value].org == l.org)
      && !ReachesCycle(g, id)
      && Rooted(g, id) && Height(g, id) + 1 <= 10
      && |g| <= 200
      && Round2(Sums.Total(Direct(links, l.customer, l.org))) <= 100.0
      && Sums.Total(Direct(links, l.customer, l.org)) <= 100.005
  {
    RunStaysValid(run, i);
    var links := run[i].links;
    var l := links[id];
    assert ValidLink(run[i], l);
    assert ValidStructure(links, l.customer, l.org);
    ChainedIsForest(Scope(links, l.customer, l.org), id);
    TotalCheckExact(Sums.Total(Direct(links, l.customer, l.org)));
  }
}
