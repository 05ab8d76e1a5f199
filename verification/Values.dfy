/**
 * Python object trees: what a blueprint keeps in memory and what model_dump makes of it.
 * An object, a dictionary and a list are alike: a node with keyed children.
 */
module Values {
  import opened Wrappers
  import opened Seqs

  /** The families of src/nfvcl/blueprints_ng/resources.py. */
  datatype Kind = Plain | Deployable | Configuration

  /** Which object a resource is: a registered one has a slot, a copy nested elsewhere has none. */
  datatype Handle = Slot(n: nat) | Inline

  datatype Tag =
    | ListTag
    | DictTag
    | ModelTag(cls: string)
    | ResourceTag(cls: string, kind: Kind, handle: Handle)

  datatype Key = Name(name: string) | Index(index: nat)

  type Path = seq<Key>

  datatype Value =
    | Str(s: string)
    | Atom(n: int) // numbers, booleans, None, enums, dates: nothing is looked for inside
    | Node(tag: Tag, kids: Kids)

  datatype Kids = End | Kid(key: Key, val: Value, rest: Kids)

  function Keys(kids: Kids): set<Key> {
    match kids
    case End => {}
    case Kid(k, _, rest) => {k} + Keys(rest)
  }

  /** Dictionary keys and list positions occur once, all the way down. */
  ghost predicate Wf(v: Value) {
    v.Node? ==> WfKids(v.kids)
  }

  ghost predicate WfKids(kids: Kids) {
    kids.Kid? ==> kids.key !in Keys(kids.rest) && Wf(kids.val) && WfKids(kids.rest)
  }

  function Lookup(kids: Kids, key: Key): (r: Option<Value>)
    ensures r.Some? <==> key in Keys(kids)
  {
    match kids
    case End => None
    case Kid(k, v, rest) => if k == key then Some(v) else Lookup(rest, key)
  }

  function Get(v: Value, path: Path): Option<Value>
    decreases |path|
  {
    if path == [] then Some(v)
    else if !v.Node? then None
    else
      match Lookup(v.kids, path[0])
      case None => None
      case Some(u) => Get(u, path[1..])
  }

  /** The assignment current[path[-1]] = x, current being what path[:-1] leads to. */
  function Put(v: Value, path: Path, x: Value): Value
    requires Get(v, path).Some?
    decreases v, 0
  {
    if path == [] then x else Node(v.tag, PutKid(v.kids, path, x))
  }

  function PutKid(kids: Kids, path: Path, x: Value): Kids
    requires path != [] && path[0] in Keys(kids) && Get(Lookup(kids, path[0]).value, path[1..]).Some?
    decreases kids, 1
  {
    if kids.key == path[0] then Kid(kids.key, Put(kids.val, path[1..], x), kids.rest)
    else Kid(kids.key, kids.val, PutKid(kids.rest, path, x))
  }

  // ------------------------------------------------------------------ searching

  datatype Target = Resources | Deployables | References

  /** The type test of a search, with its check function. */
  predicate Hits(t: Target, v: Value) {
    match t
    case Resources => v.Node? && v.tag.ResourceTag?
    case Deployables => v.Node? && v.tag.ResourceTag? && v.tag.kind == Deployable
    case References => v.Str? && IsRef(v.s)
  }

  predicate IsRef(s: string) { |s| >= 4 && s[..4] == "REF=" }

  /** __find_field_occurrences: the paths of all hits, outer before inner, nested ones included. */
  function Find(t: Target, v: Value, here: Path): seq<Path> {
    (if Hits(t, v) then [here] else []) + (if v.Node? then FindKids(t, v.kids, here) else [])
  }

  function FindKids(t: Target, kids: Kids, here: Path): seq<Path> {
    match kids
    case End => []
    case Kid(k, v, rest) => Find(t, v, here + [k]) + FindKids(t, rest, here)
  }

  lemma {:induction false} Found(t: Target, v: Value, here: Path, p: Path)
    requires Wf(v)
    ensures p in Find(t, v, here) <==>
            here <= p && Get(v, p[|here|..]).Some? && Hits(t, Get(v, p[|here|..]).value)
    decreases v, 0
  {
    if v.Node? { FoundKids(t, v.kids, here, p); }
    if here <= p && p != here { assert p[|here|..][1..] == p[|here| + 1..]; }
    assert p[|p|..] == [];
  }

  lemma {:induction false} FoundKids(t: Target, kids: Kids, here: Path, p: Path)
    requires WfKids(kids)
    ensures p in FindKids(t, kids, here) <==>
            here < p && p[|here|] in Keys(kids)
            && var u := Lookup(kids, p[|here|]).value;
               Get(u, p[|here| + 1..]).Some? && Hits(t, Get(u, p[|here| + 1..]).value)
    decreases kids, 1
  {
    if kids.Kid? {
      Found(t, kids.val, here + [kids.key], p);
      FoundKids(t, kids.rest, here, p);
      assert here + [kids.key] <= p <==> here < p && p[|here|] == kids.key;
    }
  }

  lemma {:induction false} FoundOnce(t: Target, v: Value, here: Path)
    requires Wf(v)
    ensures Distinct(Find(t, v, here))
    decreases v, 0
  {
    if v.Node? {
      FoundOnceKids(t, v.kids, here);
      forall p | p in FindKids(t, v.kids, here) ensures p != here { FoundKids(t, v.kids, here, p); }
      if Hits(t, v) { DistinctConcat([here], FindKids(t, v.kids, here)); }
      else { assert [] + FindKids(t, v.kids, here) == FindKids(t, v.kids, here); }
    }
  }

  lemma {:induction false} FoundOnceKids(t: Target, kids: Kids, here: Path)
    requires WfKids(kids)
    ensures Distinct(FindKids(t, kids, here))
    decreases kids, 1
  {
    if kids.Kid? {
      FoundOnce(t, kids.val, here + [kids.key]);
      FoundOnceKids(t, kids.rest, here);
      forall p | p in Find(t, kids.val, here + [kids.key]) ensures p !in FindKids(t, kids.rest, here) {
        Found(t, kids.val, here + [kids.key], p);
        FoundKids(t, kids.rest, here, p);
        assert p[|here|] == kids.key;
      }
      DistinctConcat(Find(t, kids.val, here + [kids.key]), FindKids(t, kids.rest, here));
    }
  }

  // ------------------------------------------------------------------- dumping

  /** model_dump: objects become dictionaries. */
  function Dump(v: Value): Value {
    if v.Node? then Node(if v.tag.ListTag? then ListTag else DictTag, DumpKids(v.kids)) else v
  }

  function DumpKids(kids: Kids): Kids {
    match kids
    case End => End
    case Kid(k, v, rest) => Kid(k, Dump(v), DumpKids(rest))
  }

  /** The dump of v, found at here, with some paths already overwritten. */
  function Over(v: Value, here: Path, m: map<Path, Value>): Value {
    if here in m then m[here]
    else if v.Node? then Node(if v.tag.ListTag? then ListTag else DictTag, OverKids(v.kids, here, m))
    else v
  }

  function OverKids(kids: Kids, here: Path, m: map<Path, Value>): Kids {
    match kids
    case End => End
    case Kid(k, v, rest) => Kid(k, Over(v, here + [k], m), OverKids(rest, here, m))
  }

  lemma {:induction false} OverNothing(v: Value, here: Path)
    ensures Over(v, here, map[]) == Dump(v)
    decreases v, 0
  {
    if v.Node? { OverNothingKids(v.kids, here); }
  }

  lemma {:induction false} OverNothingKids(kids: Kids, here: Path)
    ensures OverKids(kids, here, map[]) == DumpKids(kids)
    decreases kids, 1
  {
    if kids.Kid? {
      OverNothing(kids.val, here + [kids.key]);
      OverNothingKids(kids.rest, here);
    }
  }

  lemma PrefixStep(here: Path, k: Key, p: Path)
    ensures here + [k] <= p <==> here < p && p[|here|] == k
  {
  }

  lemma {:induction false} OverElsewhere(v: Value, here: Path, m: map<Path, Value>, p: Path, x: Value)
    requires !(here <= p)
    ensures Over(v, here, m[p := x]) == Over(v, here, m)
    decreases v, 0
  {
    if v.Node? { OverElsewhereKids(v.kids, here, m, p, x); }
  }

  lemma {:induction false} OverElsewhereKids(kids: Kids, here: Path, m: map<Path, Value>, p: Path, x: Value)
    requires !(here < p) || p[|here|] !in Keys(kids)
    ensures OverKids(kids, here, m[p := x]) == OverKids(kids, here, m)
    decreases kids, 1
  {
    if kids.Kid? {
      PrefixStep(here, kids.key, p);
      OverElsewhere(kids.val, here + [kids.key], m, p, x);
      OverElsewhereKids(kids.rest, here, m, p, x);
    }
  }

  /** No path above p has been overwritten. */
  ghost predicate Reachable(m: map<Path, Value>, p: Path) {
    forall q :: q in m ==> !(q < p)
  }

  /** What is read at a reachable path: the dump of what the object has there, as far as overwritten. */
  lemma {:induction false} GetOver(v: Value, here: Path, m: map<Path, Value>, rest: Path)
    requires Wf(v) && Get(v, rest).Some? && Reachable(m, here + rest)
    ensures Get(Over(v, here, m), rest) == Some(Over(Get(v, rest).value, here + rest, m))
    decreases v
  {
    if rest == [] {
      assert here + rest == here;
    } else {
      assert here < here + rest;
      var u := Lookup(v.kids, rest[0]).value;
      LookupOver(v.kids, here, m, rest[0]);
      LookupSmaller(v.kids, rest[0]);
      assert here + [rest[0]] + rest[1..] == here + rest;
      GetOver(u, here + [rest[0]], m, rest[1..]);
    }
  }

  lemma {:induction false} LookupOver(kids: Kids, here: Path, m: map<Path, Value>, key: Key)
    requires key in Keys(kids)
    ensures Lookup(OverKids(kids, here, m), key) == Some(Over(Lookup(kids, key).value, here + [key], m))
  {
    if kids.key != key { LookupOver(kids.rest, here, m, key); }
  }

  lemma {:induction false} LookupSmaller(kids: Kids, key: Key)
    requires key in Keys(kids)
    ensures Lookup(kids, key).value < kids
    ensures WfKids(kids) ==> Wf(Lookup(kids, key).value)
  {
    if kids.key != key { LookupSmaller(kids.rest, key); }
  }

  /** What is written at a reachable path joins the overwritten ones. */
  lemma {:induction false} PutOver(v: Value, here: Path, m: map<Path, Value>, rest: Path, x: Value)
    requires Wf(v) && Get(v, rest).Some? && Reachable(m, here + rest)
    ensures Get(Over(v, here, m), rest).Some?
    ensures Put(Over(v, here, m), rest, x) == Over(v, here, m[here + rest := x])
    decreases v, 0
  {
    GetOver(v, here, m, rest);
    if rest == [] {
      assert here + rest == here;
    } else {
      assert here < here + rest;
      PutOverKids(v.kids, here, m, rest, x);
    }
  }

  lemma {:induction false} PutOverKids(kids: Kids, here: Path, m: map<Path, Value>, rest: Path, x: Value)
    requires rest != [] && WfKids(kids) && rest[0] in Keys(kids)
    requires Get(Lookup(kids, rest[0]).value, rest[1..]).Some? && Reachable(m, here + rest)
    ensures rest[0] in Keys(OverKids(kids, here, m))
    ensures Get(Lookup(OverKids(kids, here, m), rest[0]).value, rest[1..]).Some?
    ensures PutKid(OverKids(kids, here, m), rest, x) == OverKids(kids, here, m[here + rest := x])
    decreases kids, 1
  {
    var p := here + rest;
    assert here + [rest[0]] + rest[1..] == p;
    LookupOver(kids, here, m, rest[0]);
    LookupSmaller(kids, rest[0]);
    GetOver(Lookup(kids, rest[0]).value, here + [rest[0]], m, rest[1..]);
    if kids.key == rest[0] {
      PutOver(kids.val, here + [kids.key], m, rest[1..], x);
      OverElsewhereKids(kids.rest, here, m, p, x);
    } else {
      PrefixStep(here, kids.key, p);
      OverElsewhere(kids.val, here + [kids.key], m, p, x);
      PutOverKids(kids.rest, here, m, rest, x);
    }
  }

  // ------------------------------------------------------------ deepest first

  function InsertDeep(p: Path, s: seq<Path>): (t: seq<Path>)
    ensures multiset(t) == multiset(s) + multiset{p}
  {
    if s == [] || |p| > |s[0]| then
      assert s + [] == s;
      [p] + s
    else
      assert s == [s[0]] + s[1..];
      [s[0]] + InsertDeep(p, s[1..])
  }

  /** sorted(paths, key=len, reverse=True), which keeps the order of paths of equal length. */
  function DeepestFirst(paths: seq<Path>): (t: seq<Path>)
    ensures multiset(t) == multiset(paths)
  {
    if paths == [] then []
    else
      assert paths == paths[..|paths| - 1] + [paths[|paths| - 1]];
      InsertDeep(paths[|paths| - 1], DeepestFirst(paths[..|paths| - 1]))
  }

  ghost predicate ByDepth(s: seq<Path>) {
    forall i, j :: 0 <= i < j < |s| ==> |s[i]| >= |s[j]|
  }

  lemma InsertDeepSorted(p: Path, s: seq<Path>)
    requires ByDepth(s)
    ensures ByDepth(InsertDeep(p, s))
  {
    if s == [] || |p| > |s[0]| {
    } else {
      InsertDeepSorted(p, s[1..]);
      var t := InsertDeep(p, s[1..]);
      forall k | 0 <= k < |t| ensures |s[0]| >= |t[k]| {
        assert t[k] in multiset(t);
        assert t[k] == p || t[k] in s[1..];
      }
    }
  }

  lemma DeepestFirstSorted(paths: seq<Path>)
    ensures ByDepth(DeepestFirst(paths))
    ensures forall p :: p in DeepestFirst(paths) <==> p in paths
  {
    if paths != [] {
      DeepestFirstSorted(paths[..|paths| - 1]);
      InsertDeepSorted(paths[|paths| - 1], DeepestFirst(paths[..|paths| - 1]));
    }
    forall p ensures p in DeepestFirst(paths) <==> p in paths {
      assert p in paths <==> p in multiset(paths);
      assert p in DeepestFirst(paths) <==> p in multiset(DeepestFirst(paths));
    }
  }

  lemma InsertDeepOnce(p: Path, s: seq<Path>)
    requires Distinct(s) && p !in s
    ensures Distinct(InsertDeep(p, s))
  {
    if s == [] || |p| > |s[0]| {
    } else {
      InsertDeepOnce(p, s[1..]);
      var t := InsertDeep(p, s[1..]);
      forall k | 0 <= k < |t| ensures s[0] != t[k] {
        assert t[k] in multiset(t);
        assert t[k] == p || t[k] in s[1..];
      }
    }
  }

  lemma DeepestFirstOnce(paths: seq<Path>)
    requires Distinct(paths)
    ensures Distinct(DeepestFirst(paths))
  {
    if paths != [] {
      var n := |paths| - 1;
      DeepestFirstOnce(paths[..n]);
      DeepestFirstSorted(paths[..n]);
      InsertDeepOnce(paths[n], DeepestFirst(paths[..n]));
    }
  }

  /** In this order, when a path's turn comes nothing above it has been overwritten. */
  lemma {:induction false} StillReachable(s: seq<Path>, i: nat, m: map<Path, Value>)
    requires ByDepth(s) && Distinct(s) && i < |s|
    requires forall q :: q in m ==> q in s[..i]
    ensures Reachable(m, s[i]) && s[i] !in m
  {
    forall q | q in m ensures !(q < s[i]) && q != s[i] {
      var k :| 0 <= k < i && s[..i][k] == q;
      assert |s[k]| >= |s[i]|;
    }
  }
}
