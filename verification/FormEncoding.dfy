// Stripe's form encoding: nested dicts and lists become a[b][0][c]=v pairs. For
// bracket-free, non-empty keys nothing is lost: the names differ pairwise and
// the pruned tree can be read back from the pairs.
module FormEncoding {
  import opened Prelude
  import Text

  datatype Value =
    | Null
    | Bool(b: bool)
    | Scalar(text: string)
    | Dict(entries: Entries)
    | List(items: seq<Value>)

  datatype Entry = Entry(key: string, value: Value)

  type Entries = seq<Entry>
  type Pairs = seq<(string, string)>

  // ------------------------------------------------ sizes, for termination

  function Size(v: Value): nat
    decreases v, 0
  {
    match v
    case Null => 0
    case Bool(_) => 0
    case Scalar(_) => 0
    case Dict(entries) => 1 + SizeEntries(entries)
    case List(items) => 1 + SizeItems(items)
  }

  function SizeEntries(es: Entries): nat
    decreases es, 1
  {
    if es == [] then 0 else 1 + Size(es[0].value) + SizeEntries(es[1..])
  }

  function SizeItems(xs: seq<Value>): nat
    decreases xs, 1
  {
    if xs == [] then 0 else 1 + Size(xs[0]) + SizeItems(xs[1..])
  }

  // {str(i): x for i, x in enumerate(items)}
  function Indexed(xs: seq<Value>, from: nat): (es: Entries)
    ensures SizeEntries(es) == SizeItems(xs) && |es| == |xs|
    ensures forall i | 0 <= i < |es| :: es[i] == Entry(Text.Decimal(from + i), xs[i])
  {
    if xs == [] then [] else
      var rest := Indexed(xs[1..], from + 1);
      [Entry(Text.Decimal(from), xs[0])] + rest
  }

  // ------------------------------------------------ the encoder

  function NameOf(prefix: string, key: string): string {
    if prefix != "" then prefix + "[" + key + "]" else key
  }

  function FlattenNames(es: Entries, prefix: string): Pairs
    decreases SizeEntries(es), 0
  {
    if es == [] then [] else FlattenNamed(es[0].value, NameOf(prefix, es[0].key)) + FlattenNames(es[1..], prefix)
  }

  function FlattenNamed(v: Value, name: string): Pairs
    decreases Size(v), 1
  {
    match v
    case Null => []
    case Bool(b) => [(name, if b then "true" else "false")]
    case Scalar(text) => [(name, text)]
    case Dict(entries) => FlattenNames(entries, name)
    case List(items) => FlattenNames(Indexed(items, 0), name)
  }

  lemma {:induction false} FlattenFirst(out: Pairs, es: Entries, prefix: string)
    requires es != []
    ensures
      var first := FlattenNamed(es[0].value, NameOf(prefix, es[0].key));
      out + FlattenNames(es, prefix) == out + first + FlattenNames(es[1..], prefix)
    ensures Size(es[0].value) < SizeEntries(es) && SizeEntries(es[1..]) < SizeEntries(es)
  {
  }

  method Flatten(params: Entries, prefix: string) returns (out: Pairs)
    ensures out == FlattenNames(params, prefix)
    decreases SizeEntries(params), 0
  {
    out := [];
    var rest := params;
    while rest != []
      invariant SizeEntries(rest) <= SizeEntries(params)
      invariant out + FlattenNames(rest, prefix) == FlattenNames(params, prefix)
      decreases |rest|
    {
      var Entry(k, v) := rest[0];
      var name := if prefix != "" then prefix + "[" + k + "]" else k;
      var pairs := FlattenValue(v, name);
      FlattenFirst(out, rest, prefix);
      out := out + pairs;
      rest := rest[1..];
    }
  }

  // What one value under its full name adds to the output.
  method FlattenValue(v: Value, name: string) returns (pairs: Pairs)
    ensures pairs == FlattenNamed(v, name)
    decreases Size(v), 1
  {
    match v {
      case Null => pairs := [];
      case Dict(entries) => pairs := Flatten(entries, name);
      case List(items) => pairs := Flatten(Indexed(items, 0), name);
      case Bool(b) => pairs := [(name, if b then "true" else "false")];
      case Scalar(text) => pairs := [(name, text)];
    }
  }

  // dict(pairs): the last value of each name.
  function DictOf(pairs: Pairs): map<string, string> {
    if pairs == [] then map[]
    else
      var last := pairs[|pairs| - 1];
      DictOf(pairs[..|pairs| - 1])[last.0 := last.1]
  }

  // ------------------------------------------------ paths

  type Path = seq<string>
  type PathPairs = seq<(Path, string)>

  function EntriesOf(v: Value): (es: Entries)
    ensures v.Dict? || v.List? ==> SizeEntries(es) < Size(v)
  {
    match v
    case Dict(entries) => entries
    case List(items) => Indexed(items, 0)
    case _ => []
  }

  function Prefixed(k: string, ps: PathPairs): (qs: PathPairs)
    ensures |qs| == |ps| && forall i | 0 <= i < |ps| :: qs[i] == ([k] + ps[i].0, ps[i].1)
  {
    if ps == [] then [] else [([k] + ps[0].0, ps[0].1)] + Prefixed(k, ps[1..])
  }

  // The leaves of a value with the path of keys that leads to each.
  function Leaves(v: Value): PathPairs
    decreases Size(v), 1
  {
    match v
    case Null => []
    case Bool(b) => [([], if b then "true" else "false")]
    case Scalar(text) => [([], text)]
    case Dict(entries) => LeavesOf(entries)
    case List(items) => LeavesOf(Indexed(items, 0))
  }

  function LeavesOf(es: Entries): PathPairs
    decreases SizeEntries(es), 0
  {
    if es == [] then [] else Prefixed(es[0].key, Leaves(es[0].value)) + LeavesOf(es[1..])
  }

  predicate Bare(s: string) {
    forall i | 0 <= i < |s| :: s[i] != '[' && s[i] != ']'
  }

  predicate GoodKey(k: string) {
    k != "" && Bare(k)
  }

  // Dict keys are good and distinct among siblings, all the way down.
  predicate WellFormed(v: Value)
    decreases Size(v), 1
  {
    match v
    case Null => true
    case Bool(_) => true
    case Scalar(_) => true
    case Dict(entries) => WellFormedEntries(entries)
    case List(items) => WellFormedEntries(Indexed(items, 0))
  }

  predicate WellFormedEntries(es: Entries)
    decreases SizeEntries(es), 0
  {
    es == [] ||
      (GoodKey(es[0].key) && (forall i | 1 <= i < |es| :: es[i].key != es[0].key)
       && WellFormed(es[0].value) && WellFormedEntries(es[1..]))
  }

  // ------------------------------------------------ names and paths

  function Brackets(p: Path): string {
    if p == [] then "" else "[" + p[0] + "]" + Brackets(p[1..])
  }

  // The name a path is written as.
  function Render(p: Path): string {
    if p == [] then "" else p[0] + Brackets(p[1..])
  }

  function BareLength(s: string): (n: nat)
    ensures n <= |s| && Bare(s[..n])
    ensures n < |s| ==> s[n] == '[' || s[n] == ']'
  {
    if s == "" || s[0] == '[' || s[0] == ']' then 0
    else
      var n := BareLength(s[1..]);
      assert s[..n + 1] == [s[0]] + s[1..][..n];
      n + 1
  }

  // Reading a name back: the key up to the first bracket, then bracketed keys.
  function Parse(name: string): Path {
    var n := BareLength(name);
    [name[..n]] + ParseBrackets(name[n..])
  }

  function ParseBrackets(s: string): Path
    decreases |s|
  {
    if s == "" then []
    else
      var n := BareLength(s[1..]);
      [s[1..][..n]] + ParseBrackets(s[Min(n + 2, |s|)..])
  }

  lemma {:induction false} BareLengthOf(a: string, u: string)
    requires Bare(a) && (u == "" || u[0] == '[' || u[0] == ']')
    ensures BareLength(a + u) == |a|
  {
    var s, n := a + u, BareLength(a + u);
    assert forall i | 0 <= i < |a| :: s[i] == a[i];
    assert |a| < |s| ==> s[|a|] == u[0];
    assert forall i | 0 <= i < n :: s[..n][i] == s[i];
  }

  lemma {:induction false} ParseBracketsRender(p: Path)
    requires forall k | k in p :: Bare(k)
    ensures ParseBrackets(Brackets(p)) == p
  {
    if p != [] {
      var s, rest := Brackets(p), Brackets(p[1..]);
      var tail := "]" + rest;
      assert s == "[" + (p[0] + tail);
      assert s[1..] == p[0] + tail;
      BareLengthOf(p[0], tail);
      assert s[1..][..|p[0]|] == p[0];
      assert s[|p[0]| + 2..] == rest;
      ParseBracketsRender(p[1..]);
    }
  }

  // Parsing inverts rendering, so different paths have different names.
  lemma ParseRender(p: Path)
    requires p != [] && forall k | k in p :: Bare(k)
    ensures Parse(Render(p)) == p
  {
    var rest := Brackets(p[1..]);
    BracketsOpen(p[1..]);
    ParseFirst(p[0], rest);
    assert forall k | k in p[1..] :: k in p;
    ParseBracketsRender(p[1..]);
  }

  lemma {:induction false} BracketsOpen(p: Path)
    ensures Brackets(p) != "" ==> Brackets(p)[0] == '['
  {
  }

  lemma {:induction false} ParseFirst(a: string, rest: string)
    requires Bare(a) && (rest == "" || rest[0] == '[')
    ensures Parse(a + rest) == [a] + ParseBrackets(rest)
  {
    BareLengthOf(a, rest);
    assert (a + rest)[..|a|] == a && (a + rest)[|a|..] == rest;
  }

  lemma {:induction false} BracketsAppend(p: Path, k: string)
    ensures Brackets(p + [k]) == Brackets(p) + "[" + k + "]"
  {
    if p == [] {
      assert p + [k] == [k];
      assert Brackets([k][1..]) == "";
    } else {
      assert (p + [k])[1..] == p[1..] + [k];
      BracketsAppend(p[1..], k);
    }
  }

  lemma RenderAppend(p: Path, k: string)
    requires p != [] ==> p[0] != ""
    ensures Render(p + [k]) == NameOf(Render(p), k)
  {
    if p == [] {
      assert p + [k] == [k];
      assert [k][1..] == [];
    } else {
      var q := p + [k];
      assert q[1..] == p[1..] + [k] && q[0] == p[0];
      BracketsAppend(p[1..], k);
      assert Render(q) == p[0] + (Brackets(p[1..]) + "[" + k + "]");
      assert Render(p) != "";
    }
  }

  function Named(at: Path, ps: PathPairs): (named: Pairs)
    ensures |named| == |ps| && forall i | 0 <= i < |ps| :: named[i] == (Render(at + ps[i].0), ps[i].1)
  {
    if ps == [] then [] else [(Render(at + ps[0].0), ps[0].1)] + Named(at, ps[1..])
  }

  // The encoder's output is the leaves, each under its rendered path.
  lemma {:induction false} NamesArePaths(es: Entries, at: Path)
    requires WellFormedEntries(es) && (at != [] ==> at[0] != "")
    ensures FlattenNames(es, Render(at)) == Named(at, LeavesOf(es))
    decreases SizeEntries(es), 0
  {
    if es != [] {
      var Entry(k, v) := es[0];
      RenderAppend(at, k);
      NamedValue(v, at + [k]);
      NamesArePaths(es[1..], at);
      NamedPrefixed(at, k, Leaves(v));
      NamedAppend(at, Prefixed(k, Leaves(v)), LeavesOf(es[1..]));
    }
  }

  lemma {:induction false} NamedPrefixed(at: Path, k: string, ps: PathPairs)
    ensures Named(at, Prefixed(k, ps)) == Named(at + [k], ps)
  {
    forall i | 0 <= i < |ps|
      ensures Named(at, Prefixed(k, ps))[i] == Named(at + [k], ps)[i]
    {
      assert at + ([k] + ps[i].0) == at + [k] + ps[i].0;
    }
  }

  lemma {:induction false} NamedAppend(at: Path, ps: PathPairs, qs: PathPairs)
    ensures Named(at, ps + qs) == Named(at, ps) + Named(at, qs)
  {
  }

  lemma {:induction false} NamedValue(v: Value, at: Path)
    requires WellFormed(v) && at != [] && at[0] != ""
    ensures FlattenNamed(v, Render(at)) == Named(at, Leaves(v))
    decreases Size(v), 1
  {
    if v.Dict? || v.List? {
      NamesArePaths(EntriesOf(v), at);
    } else {
      assert at + [] == at;
    }
  }

  // The keys of p lead from v, through dicts and by index through lists, to a leaf
  // that is sent as this text.
  ghost predicate LeadsTo(v: Value, p: Path, text: string)
    decreases |p|
  {
    if p == [] then
      (v.Bool? && text == if v.b then "true" else "false") || (v.Scalar? && text == v.text)
    else if v.Dict? then
      exists i :: 0 <= i < |v.entries| && v.entries[i].key == p[0] && LeadsTo(v.entries[i].value, p[1..], text)
    else
      v.List? && exists i :: 0 <= i < |v.items| && p[0] == Text.Decimal(i) && LeadsTo(v.items[i], p[1..], text)
  }

  // The same from one of the entries.
  ghost predicate LeadsFrom(es: Entries, p: Path, text: string) {
    p != [] && exists i :: 0 <= i < |es| && es[i].key == p[0] && LeadsTo(es[i].value, p[1..], text)
  }

  lemma {:induction false} LeavesExactly(v: Value, p: Path, text: string)
    ensures (p, text) in Leaves(v) <==> LeadsTo(v, p, text)
    decreases Size(v), 1
  {
    if v.Dict? || v.List? {
      LeavesOfExactly(EntriesOf(v), p, text);
      if v.List? && p != [] {
        var es := Indexed(v.items, 0);
        forall i | 0 <= i < |es|
          ensures es[i].key == Text.Decimal(i) && es[i].value == v.items[i]
        {
        }
      }
    }
  }

  lemma {:induction false} PrefixedExactly(k: string, ps: PathPairs, p: Path, text: string)
    ensures (p, text) in Prefixed(k, ps) <==> p != [] && p[0] == k && (p[1..], text) in ps
  {
    var qs := Prefixed(k, ps);
    if p != [] && p[0] == k && (p[1..], text) in ps {
      var i :| 0 <= i < |ps| && ps[i] == (p[1..], text);
      assert qs[i].0 == p;
    }
    if (p, text) in qs {
      var i :| 0 <= i < |qs| && qs[i] == (p, text);
      assert p[1..] == ps[i].0;
      assert ps[i] == (p[1..], text);
    }
  }

  lemma {:induction false} LeavesOfExactly(es: Entries, p: Path, text: string)
    ensures (p, text) in LeavesOf(es) <==> LeadsFrom(es, p, text)
    decreases SizeEntries(es), 0
  {
    if es != [] {
      var Entry(k, v) := es[0];
      PrefixedExactly(k, Leaves(v), p, text);
      if p != [] {
        LeavesExactly(v, p[1..], text);
      }
      LeavesOfExactly(es[1..], p, text);
      if LeadsFrom(es[1..], p, text) {
        var i :| 0 <= i < |es| - 1 && es[1..][i].key == p[0] && LeadsTo(es[1..][i].value, p[1..], text);
        assert es[i + 1] == es[1..][i];
      }
      if LeadsFrom(es, p, text) {
        var i :| 0 <= i < |es| && es[i].key == p[0] && LeadsTo(es[i].value, p[1..], text);
        assert i > 0 ==> es[1..][i - 1] == es[i];
      }
    }
  }

  // The pair sent for each leaf.
  lemma {:induction false} SentInOrder(es: Entries, i: nat)
    requires WellFormedEntries(es) && i < |LeavesOf(es)|
    ensures |FlattenNames(es, "")| == |LeavesOf(es)|
    ensures FlattenNames(es, "")[i] == (Render(LeavesOf(es)[i].0), LeavesOf(es)[i].1)
  {
    NamesArePaths(es, []);
    assert [] + LeavesOf(es)[i].0 == LeavesOf(es)[i].0;
  }

  // A pair is sent exactly if its name is the path of a leaf with that text.
  lemma {:induction false} SentExactly(es: Entries, name: string, text: string)
    requires WellFormedEntries(es)
    ensures (name, text) in FlattenNames(es, "") <==> exists p :: Render(p) == name && LeadsFrom(es, p, text)
  {
    if (name, text) in FlattenNames(es, "") {
      SentForLeaf(es, name, text);
    }
    if p :| Render(p) == name && LeadsFrom(es, p, text) {
      LeafSent(es, p, text);
    }
  }

  lemma {:induction false} SentForLeaf(es: Entries, name: string, text: string)
    requires WellFormedEntries(es) && (name, text) in FlattenNames(es, "")
    ensures exists p :: Render(p) == name && LeadsFrom(es, p, text)
  {
    NamesArePaths(es, []);
    var i :| 0 <= i < |FlattenNames(es, "")| && FlattenNames(es, "")[i] == (name, text);
    SentInOrder(es, i);
    var p := LeavesOf(es)[i].0;
    assert LeavesOf(es)[i] == (p, text);
    LeavesOfExactly(es, p, text);
  }

  lemma {:induction false} LeafSent(es: Entries, p: Path, text: string)
    requires WellFormedEntries(es) && LeadsFrom(es, p, text)
    ensures (Render(p), text) in FlattenNames(es, "")
  {
    LeavesOfExactly(es, p, text);
    var i :| 0 <= i < |LeavesOf(es)| && LeavesOf(es)[i] == (p, text);
    SentInOrder(es, i);
  }

  // ------------------------------------------------ names never collide

  lemma {:induction false} PathsGood(es: Entries, i: nat)
    requires WellFormedEntries(es) && i < |LeavesOf(es)|
    ensures LeavesOf(es)[i].0 != [] && forall k | k in LeavesOf(es)[i].0 :: GoodKey(k)
    ensures exists j :: 0 <= j < |es| && LeavesOf(es)[i].0[0] == es[j].key
    decreases SizeEntries(es), 0
  {
    var Entry(k, v) := es[0];
    var here := Prefixed(k, Leaves(v));
    if i < |here| {
      PathsGoodValue(v, i);
      assert LeavesOf(es)[i] == here[i];
      assert LeavesOf(es)[i].0[0] == es[0].key;
    } else {
      PathsGood(es[1..], i - |here|);
      assert LeavesOf(es)[i] == LeavesOf(es[1..])[i - |here|];
      var j :| 0 <= j < |es| - 1 && LeavesOf(es)[i].0[0] == es[1..][j].key;
      assert es[1..][j] == es[j + 1];
    }
  }

  lemma {:induction false} PathsGoodValue(v: Value, i: nat)
    requires WellFormed(v) && i < |Leaves(v)|
    ensures forall k | k in Leaves(v)[i].0 :: GoodKey(k)
    decreases Size(v), 1
  {
    if v.Dict? || v.List? {
      PathsGood(EntriesOf(v), i);
    }
  }

  // A leaf of the first entry and one of a later entry start with different keys.
  lemma {:induction false} LaterPathsDiffer(es: Entries, i: nat, j: nat)
    requires WellFormedEntries(es) && es != [] && i < |Leaves(es[0].value)| <= j < |LeavesOf(es)|
    ensures LeavesOf(es)[i].0 != LeavesOf(es)[j].0
  {
    var here, rest := Prefixed(es[0].key, Leaves(es[0].value)), LeavesOf(es[1..]);
    PathsGood(es[1..], j - |here|);
    var m :| 0 <= m < |es| - 1 && rest[j - |here|].0[0] == es[1..][m].key;
    assert es[m + 1].key != es[0].key;
    assert here[i].0[0] == es[0].key;
  }

  lemma {:induction false} PathsDistinct(es: Entries, i: nat, j: nat)
    requires WellFormedEntries(es) && i < j < |LeavesOf(es)|
    ensures LeavesOf(es)[i].0 != LeavesOf(es)[j].0
    decreases SizeEntries(es), 0
  {
    var n := |Leaves(es[0].value)|;
    if j < n {
      PathsDistinctValue(es[0].value, i, j);
      var here := Prefixed(es[0].key, Leaves(es[0].value));
      assert here[i].0[1..] == Leaves(es[0].value)[i].0 && here[j].0[1..] == Leaves(es[0].value)[j].0;
    } else if i < n {
      LaterPathsDiffer(es, i, j);
    } else {
      PathsDistinct(es[1..], i - n, j - n);
    }
  }

  lemma {:induction false} PathsDistinctValue(v: Value, i: nat, j: nat)
    requires WellFormed(v) && i < j < |Leaves(v)|
    ensures Leaves(v)[i].0 != Leaves(v)[j].0
    decreases Size(v), 1
  {
    PathsDistinct(EntriesOf(v), i, j);
  }

  // Flattened names are pairwise distinct ...
  lemma {:induction false} NamesDistinct(es: Entries, i: nat, j: nat)
    requires WellFormedEntries(es) && i < j < |FlattenNames(es, "")|
    ensures FlattenNames(es, "")[i].0 != FlattenNames(es, "")[j].0
  {
    NamesArePaths(es, []);
    var ps := LeavesOf(es);
    PathsDistinct(es, i, j);
    PathsGood(es, i);
    PathsGood(es, j);
    assert [] + ps[i].0 == ps[i].0 && [] + ps[j].0 == ps[j].0;
    ParseRender(ps[i].0);
    ParseRender(ps[j].0);
  }

  lemma {:induction false} DictKeepsAll(pairs: Pairs)
    requires forall i, j | 0 <= i < j < |pairs| :: pairs[i].0 != pairs[j].0
    ensures |DictOf(pairs)| == |pairs|
    ensures forall i | 0 <= i < |pairs| :: pairs[i].0 in DictOf(pairs) && DictOf(pairs)[pairs[i].0] == pairs[i].1
  {
    if pairs != [] {
      var front, last := pairs[..|pairs| - 1], pairs[|pairs| - 1];
      DictKeepsAll(front);
      if last.0 in DictOf(front) {
        DictNames(front, last.0);
      }
    }
  }

  lemma {:induction false} DictNames(pairs: Pairs, name: string)
    requires name in DictOf(pairs)
    ensures exists i :: 0 <= i < |pairs| && pairs[i].0 == name
  {
    var front, last := pairs[..|pairs| - 1], pairs[|pairs| - 1];
    if last.0 == name {
      assert pairs[|pairs| - 1].0 == name;
    } else {
      DictNames(front, name);
      var i :| 0 <= i < |front| && front[i].0 == name;
      assert pairs[i].0 == name;
    }
  }

  // ... so dict(...) drops nothing.
  lemma {:induction false} DictDropsNothing(es: Entries)
    requires WellFormedEntries(es)
    ensures
      var pairs := FlattenNames(es, "");
      |DictOf(pairs)| == |pairs| && forall i | 0 <= i < |pairs| ::
        pairs[i].0 in DictOf(pairs) && DictOf(pairs)[pairs[i].0] == pairs[i].1
  {
    var pairs := FlattenNames(es, "");
    forall i, j | 0 <= i < j < |pairs|
      ensures pairs[i].0 != pairs[j].0
    {
      NamesDistinct(es, i, j);
    }
    DictKeepsAll(pairs);
  }

  // ------------------------------------------------ reading the tree back

  // The tree without null leaves and empty containers, lists as index-keyed maps.
  datatype Form = Absent | Leaf(text: string) | Node(kids: map<string, Form>)

  function Prune(v: Value): Form
    decreases Size(v), 1
  {
    match v
    case Null => Absent
    case Bool(b) => Leaf(if b then "true" else "false")
    case Scalar(text) => Leaf(text)
    case Dict(entries) => NodeOf(PruneEntries(entries))
    case List(items) => NodeOf(PruneEntries(Indexed(items, 0)))
  }

  function PruneEntries(es: Entries): map<string, Form>
    decreases SizeEntries(es), 0
  {
    if es == [] then map[]
    else
      var first, rest := Prune(es[0].value), PruneEntries(es[1..]);
      if first.Absent? then rest else rest[es[0].key := first]
  }

  function NodeOf(kids: map<string, Form>): Form {
    if kids == map[] then Absent else Node(kids)
  }

  function Kids(f: Form): map<string, Form> {
    if f.Node? then f.kids else map[]
  }

  function Child(f: Form, k: string): Form {
    if k in Kids(f) then Kids(f)[k] else Absent
  }

  // Storing one value at the end of a path.
  function Put(f: Form, path: Path, text: string): Form
    decreases |path|
  {
    if path == [] then Leaf(text)
    else Node(Kids(f)[path[0] := Put(Child(f, path[0]), path[1..], text)])
  }

  function Build(f: Form, ps: PathPairs): Form
    decreases |ps|
  {
    if ps == [] then f else Build(Put(f, ps[0].0, ps[0].1), ps[1..])
  }

  // Decoding a form: parse each name, store each value.
  function Parsed(pairs: Pairs): (ps: PathPairs)
    ensures |ps| == |pairs| && forall i | 0 <= i < |pairs| :: ps[i] == (Parse(pairs[i].0), pairs[i].1)
  {
    if pairs == [] then [] else [(Parse(pairs[0].0), pairs[0].1)] + Parsed(pairs[1..])
  }

  function Decode(pairs: Pairs): Form {
    Build(Absent, Parsed(pairs))
  }

  lemma {:induction false} BuildAppend(f: Form, ps: PathPairs, qs: PathPairs)
    ensures Build(f, ps + qs) == Build(Build(f, ps), qs)
    decreases |ps|
  {
    if ps == [] {
      assert ps + qs == qs;
    } else {
      assert (ps + qs)[1..] == ps[1..] + qs;
      BuildAppend(Put(f, ps[0].0, ps[0].1), ps[1..], qs);
    }
  }

  lemma {:induction false} BuildPresent(f: Form, ps: PathPairs)
    requires !f.Absent? || ps != []
    ensures !Build(f, ps).Absent?
    decreases |ps|
  {
    if ps != [] {
      BuildPresent(Put(f, ps[0].0, ps[0].1), ps[1..]);
    }
  }

  // Pairs that share their first key build one child and touch no other.
  lemma {:induction false} BuildPrefixed(kids: map<string, Form>, k: string, ps: PathPairs)
    requires ps != []
    ensures Build(NodeOf(kids), Prefixed(k, ps)) == Node(kids[k := Build(if k in kids then kids[k] else Absent, ps)])
    decreases |ps|
  {
    var first := if k in kids then kids[k] else Absent;
    var next := kids[k := Put(first, ps[0].0, ps[0].1)];
    var qs := Prefixed(k, ps);
    assert qs[0].0[0] == k && qs[0].0[1..] == ps[0].0;
    assert Kids(NodeOf(kids)) == kids && Put(NodeOf(kids), qs[0].0, ps[0].1) == Node(next) == NodeOf(next);
    assert qs[1..] == Prefixed(k, ps[1..]);
    if |ps| > 1 {
      BuildPrefixed(next, k, ps[1..]);
      assert next[k := Build(next[k], ps[1..])] == kids[k := Build(first, ps)];
    } else {
      assert ps[1..] == [] && qs[1..] == [];
    }
  }

  lemma {:induction false} NotPrunedKey(es: Entries, k: string)
    requires forall i | 0 <= i < |es| :: es[i].key != k
    ensures k !in PruneEntries(es)
    decreases |es|
  {
    if es != [] {
      forall i | 0 <= i < |es| - 1
        ensures es[1..][i].key != k
      {
        assert es[1..][i] == es[i + 1];
      }
      NotPrunedKey(es[1..], k);
    }
  }

  lemma {:induction false} BuildLeavesOf(kids: map<string, Form>, es: Entries)
    requires WellFormedEntries(es) && forall i | 0 <= i < |es| :: es[i].key !in kids
    ensures Build(NodeOf(kids), LeavesOf(es)) == NodeOf(kids + PruneEntries(es))
    decreases SizeEntries(es), 0
  {
    if es == [] {
      assert kids + map[] == kids;
    } else {
      var Entry(k, v) := es[0];
      var rest := es[1..];
      BuildLeaves(v);
      BuildAppend(NodeOf(kids), Prefixed(k, Leaves(v)), LeavesOf(rest));
      var next := if Leaves(v) == [] then kids else kids[k := Prune(v)];
      BuildFirst(kids, k, v);
      forall i | 0 <= i < |rest|
        ensures rest[i].key !in next
      {
        assert rest[i] == es[i + 1];
      }
      BuildLeavesOf(next, rest);
      MergePruned(kids, es);
    }
  }

  lemma {:induction false} MergePruned(kids: map<string, Form>, es: Entries)
    requires WellFormedEntries(es) && es != [] && es[0].key !in kids
    ensures
      var Entry(k, v) := es[0];
      (if Prune(v).Absent? then kids else kids[k := Prune(v)]) + PruneEntries(es[1..]) == kids + PruneEntries(es)
  {
    var k, rest := es[0].key, es[1..];
    forall i | 0 <= i < |rest|
      ensures rest[i].key != k
    {
      assert rest[i] == es[i + 1];
    }
    NotPrunedKey(rest, k);
  }

  lemma {:induction false} BuildFirst(kids: map<string, Form>, k: string, v: Value)
    requires k !in kids && Build(Absent, Leaves(v)) == Prune(v)
    ensures Build(NodeOf(kids), Prefixed(k, Leaves(v)))
         == NodeOf(if Leaves(v) == [] then kids else kids[k := Prune(v)])
    ensures Prune(v).Absent? <==> Leaves(v) == []
  {
    if Leaves(v) != [] {
      BuildPrefixed(kids, k, Leaves(v));
      BuildPresent(Absent, Leaves(v));
    }
  }

  lemma {:induction false} BuildLeaves(v: Value)
    requires WellFormed(v)
    ensures Build(Absent, Leaves(v)) == Prune(v)
    decreases Size(v), 1
  {
    if v.Dict? || v.List? {
      BuildLeavesOf(map[], EntriesOf(v));
      assert map[] + PruneEntries(EntriesOf(v)) == PruneEntries(EntriesOf(v));
    } else if !v.Null? {
      assert Leaves(v)[1..] == [];
    }
  }

  // Parsing the names gives the leaves with their paths.
  lemma {:induction false} ParsedBack(es: Entries)
    requires WellFormedEntries(es)
    ensures Parsed(FlattenNames(es, "")) == LeavesOf(es)
  {
    var ps := LeavesOf(es);
    NamesArePaths(es, []);
    var parsed := Parsed(FlattenNames(es, ""));
    forall i | 0 <= i < |ps|
      ensures parsed[i] == ps[i]
    {
      PathsGood(es, i);
      assert [] + ps[i].0 == ps[i].0;
      ParseRender(ps[i].0);
    }
  }

  // Lossless: decoding the pairs gives back the pruned tree.
  lemma {:induction false} DecodeFlatten(es: Entries)
    requires WellFormedEntries(es)
    ensures Decode(FlattenNames(es, "")) == NodeOf(PruneEntries(es))
  {
    ParsedBack(es);
    BuildLeavesOf(map[], es);
    assert map[] + PruneEntries(es) == PruneEntries(es);
  }

  // ------------------------------------------------ list indices are good keys

  lemma {:induction false} DigitsGood(n: nat)
    ensures GoodKey(Text.DecimalNat(n))
  {
  }

  // A list is well formed whenever its items are.
  lemma {:induction false} IndexedWellFormed(xs: seq<Value>, from: nat)
    requires forall x | x in xs :: WellFormed(x)
    ensures WellFormedEntries(Indexed(xs, from))
  {
    if xs != [] {
      var es := Indexed(xs, from);
      DigitsGood(from);
      forall i | 1 <= i < |es|
        ensures es[i].key != es[0].key
      {
        if es[i].key == es[0].key {
          Text.DecimalNatInjective(from + i, from);
        }
      }
      assert es[1..] == Indexed(xs[1..], from + 1);
      IndexedWellFormed(xs[1..], from + 1);
    }
  }

  lemma ListExample()
    ensures FlattenNames(Indexed([Bool(true), Null, Scalar("x")], 0), "a[b]") ==
      [("a[b][0]", "true"), ("a[b][2]", "x")]
  {
    var named := [Entry("0", Bool(true)), Entry("1", Null), Entry("2", Scalar("x"))];
    assert Indexed([Bool(true), Null, Scalar("x")], 0) == named by {
      assert Text.Decimal(0) == "0" && Text.Decimal(1) == "1" && Text.Decimal(2) == "2";
    }
    assert named[1..] == [Entry("1", Null), Entry("2", Scalar("x"))];
    assert named[1..][1..] == [Entry("2", Scalar("x"))] && named[1..][1..][1..] == [];
    assert NameOf("a[b]", "0") == "a[b][0]" && NameOf("a[b]", "2") == "a[b][2]";
    assert FlattenNames(named[1..][1..], "a[b]") == [("a[b][2]", "x")];
    assert FlattenNames(named[1..], "a[b]") == [("a[b][2]", "x")];
  }

  // {"a": {"b": [True, None, "x"]}} is sent as a[b][0]=true and a[b][2]=x.
  lemma SentExample()
    ensures FlattenNames([Entry("a", Dict([Entry("b", List([Bool(true), Null, Scalar("x")]))]))], "") ==
      [("a[b][0]", "true"), ("a[b][2]", "x")]
  {
    var inner := [Entry("b", List([Bool(true), Null, Scalar("x")]))];
    assert inner[1..] == [] && NameOf("a", "b") == "a[b]";
    ListExample();
    var es := [Entry("a", Dict(inner))];
    assert es[1..] == [] && FlattenNames(es, "") == FlattenNames(inner, "a");
  }

  // The condition on keys is needed: an empty key and a bracketed one collide.
  lemma BadKeysCollide()
    ensures FlattenNames([Entry("", Dict([Entry("a", Scalar("1"))])), Entry("a", Scalar("2"))], "") ==
      [("a", "1"), ("a", "2")]
    ensures FlattenNames([Entry("a", Dict([Entry("b", Scalar("1"))])), Entry("a[b]", Scalar("2"))], "") ==
      [("a[b]", "1"), ("a[b]", "2")]
  {
    var inner := [Entry("a", Scalar("1"))];
    assert inner[1..] == [];
    assert FlattenNames(inner, "") == [("a", "1")];
    var es := [Entry("", Dict(inner)), Entry("a", Scalar("2"))];
    assert es[1..] == [Entry("a", Scalar("2"))] && es[1..][1..] == [];
    assert FlattenNames(es[1..], "") == [("a", "2")];
    var inner' := [Entry("b", Scalar("1"))];
    assert inner'[1..] == [];
    assert NameOf("a", "b") == "a[b]";
    assert FlattenNames(inner', "a") == [("a[b]", "1")];
    var es' := [Entry("a", Dict(inner')), Entry("a[b]", Scalar("2"))];
    assert es'[1..] == [Entry("a[b]", Scalar("2"))] && es'[1..][1..] == [];
    assert FlattenNames(es'[1..], "") == [("a[b]", "2")];
  }
}
