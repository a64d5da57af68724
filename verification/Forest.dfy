// Parent-linked rows: arbitrary parent maps, possibly with cycles and links to
// rows that are not there.
module Forest {
  import opened Prelude

  type Parents = map<int, Option<int>>

  // The row a parent link leads to; a link to a missing row leads nowhere.
  function Parent(t: Parents, id: int): Option<int>
    requires id in t
  {
    if t[id].Some? && t[id].value in t then t[id] else None
  }

  ghost predicate RootWithin(t: Parents, id: int, n: nat)
    requires id in t
    decreases n
  {
    Parent(t, id).None? || (n > 0 && RootWithin(t, Parent(t, id).value, n - 1))
  }

  // The chain of parents ends at a root.
  ghost predicate Rooted(t: Parents, id: int)
    requires id in t
  {
    exists n: nat :: RootWithin(t, id, n)
  }

  // How many parent links lead from a row to its root.
  ghost function Height(t: Parents, id: int): (h: nat)
    requires id in t && Rooted(t, id)
    ensures RootWithin(t, id, h)
    ensures forall n: nat :: n < h ==> !RootWithin(t, id, n)
  {
    var n: nat :| RootWithin(t, id, n);
    LeastRootWithin(t, id, n)
  }

  ghost function LeastRootWithin(t: Parents, id: int, n: nat): (h: nat)
    requires id in t && RootWithin(t, id, n)
    ensures RootWithin(t, id, h)
    ensures forall m: nat :: m < h ==> !RootWithin(t, id, m)
    decreases n
  {
    if Parent(t, id).None? then 0
    else
      var h := LeastRootWithin(t, Parent(t, id).value, n - 1);
      h + 1
  }

  lemma {:induction false} RootWithinMonotone(t: Parents, id: int, m: nat, n: nat)
    requires id in t && m <= n && RootWithin(t, id, m)
    ensures RootWithin(t, id, n)
    decreases m
  {
    if Parent(t, id).Some? {
      RootWithinMonotone(t, Parent(t, id).value, m - 1, n - 1);
    }
  }

  // Height is determined by the parent's height.
  lemma HeightStep(t: Parents, id: int)
    requires id in t
    ensures Parent(t, id).None? ==> Rooted(t, id) && Height(t, id) == 0
    ensures Parent(t, id).Some? ==> (Rooted(t, id) <==> Rooted(t, Parent(t, id).value))
    ensures Parent(t, id).Some? && Rooted(t, id) ==> Height(t, id) == Height(t, Parent(t, id).value) + 1
  {
    if Parent(t, id).None? {
      assert RootWithin(t, id, 0);
    } else {
      var p := Parent(t, id).value;
      if Rooted(t, id) {
        var n: nat :| RootWithin(t, id, n);
        assert RootWithin(t, p, n - 1);
      }
      if Rooted(t, p) {
        var hp := Height(t, p);
        assert RootWithin(t, id, hp + 1);
        var h := Height(t, id);
        assert RootWithin(t, p, h - 1);
      }
    }
  }

  // The row reached by following n parent links.
  function Up(t: Parents, id: int, n: nat): (r: Option<int>)
    requires id in t
    ensures r.Some? ==> r.value in t
    decreases n
  {
    if n == 0 then Some(id)
    else if Parent(t, id).None? then None
    else Up(t, Parent(t, id).value, n - 1)
  }

  lemma {:induction false} UpCompose(t: Parents, id: int, m: nat, n: nat)
    requires id in t
    ensures Up(t, id, m + n) == (if Up(t, id, m).Some? then Up(t, Up(t, id, m).value, n) else None)
    decreases m
  {
    if m > 0 && Parent(t, id).Some? {
      UpCompose(t, Parent(t, id).value, m - 1, n);
    }
  }

  // Going up n links from a rooted row lands exactly n levels closer to the root.
  lemma {:induction false} UpHeight(t: Parents, id: int, n: nat)
    requires id in t && Up(t, id, n).Some?
    ensures Rooted(t, id) <==> Rooted(t, Up(t, id, n).value)
    ensures Rooted(t, id) ==> Height(t, id) == Height(t, Up(t, id, n).value) + n
    decreases n
  {
    if n > 0 {
      HeightStep(t, id);
      UpHeight(t, Parent(t, id).value, n - 1);
    }
  }

  // A row that meets itself again on its own chain never reaches a root.
  lemma {:induction false} CycleNotRooted(t: Parents, id: int, n: nat)
    requires id in t && n > 0 && Up(t, id, n) == Some(id)
    ensures !Rooted(t, id)
  {
    UpHeight(t, id, n);
  }

  ghost predicate OnCycle(t: Parents, id: int)
    requires id in t
  {
    exists n: nat :: n > 0 && Up(t, id, n) == Some(id)
  }

  ghost predicate ReachesCycle(t: Parents, id: int)
    requires id in t
  {
    exists m: nat :: Up(t, id, m).Some? && OnCycle(t, Up(t, id, m).value)
  }

  // In a finite table a chain either ends at a root or runs into a cycle.
  lemma RootedOrCycle(t: Parents, id: int)
    requires id in t
    ensures Rooted(t, id) <==> !ReachesCycle(t, id)
  {
    if Rooted(t, id) && ReachesCycle(t, id) {
      var m: nat :| Up(t, id, m).Some? && OnCycle(t, Up(t, id, m).value);
      var c := Up(t, id, m).value;
      var n: nat :| n > 0 && Up(t, c, n) == Some(c);
      CycleNotRooted(t, c, n);
      UpHeight(t, id, m);
      assert false;
    }
    if !Rooted(t, id) {
      var seen: set<int>, cur, k := {}, id, 0;
      while cur !in seen
        invariant seen <= t.Keys && cur in t
        invariant Up(t, id, k) == Some(cur)
        invariant forall x | x in seen :: exists j: nat :: j < k && Up(t, id, j) == Some(x)
        decreases t.Keys - seen
      {
        UpHeight(t, id, k);
        HeightStep(t, cur);
        seen := seen + {cur};
        UpCompose(t, id, k, 1);
        assert Up(t, cur, 1) == Some(Parent(t, cur).value);
        forall x | x in seen
          ensures exists j: nat :: j < k + 1 && Up(t, id, j) == Some(x)
        {
          if x == cur {
            assert k < k + 1 && Up(t, id, k) == Some(x);
          } else {
            var j: nat :| j < k && Up(t, id, j) == Some(x);
            assert j < k + 1;
          }
        }
        cur, k := Parent(t, cur).value, k + 1;
      }
      var j: nat :| j < k && Up(t, id, j) == Some(cur);
      UpCompose(t, id, j, k - j);
      assert k - j > 0 && Up(t, cur, k - j) == Some(cur);
      assert OnCycle(t, cur);
      assert ReachesCycle(t, id);
    }
  }
}
