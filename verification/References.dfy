/**
 * Replacing resources by references in a dumped tree, and references by resources in a loaded one
 * (src/nfvcl/blueprints_ng/blueprint_ng.py, the two __override_variables_in_dict functions).
 */
module References {
  import opened Wrappers
  import opened Seqs
  import opened Values

  const REF := "REF="

  function IdOf(v: Value): Option<string> {
    if !v.Node? then None
    else
      match Lookup(v.kids, Name("id"))
      case Some(Str(s)) => Some(s)
      case _ => None
  }

  /** A resource declares its id as an optional string. */
  ghost predicate TypedIds(v: Value) {
    v.Node? ==>
      && (v.tag.ResourceTag? ==> Lookup(v.kids, Name("id")).Some? && !Lookup(v.kids, Name("id")).value.Node?)
      && TypedIdsKids(v.kids)
  }

  ghost predicate TypedIdsKids(kids: Kids) {
    kids.Kid? ==> TypedIds(kids.val) && TypedIdsKids(kids.rest)
  }

  lemma {:induction false} TypedIdsAt(v: Value, p: Path)
    requires TypedIds(v) && Wf(v) && Get(v, p).Some?
    ensures TypedIds(Get(v, p).value) && Wf(Get(v, p).value)
    decreases |p|
  {
    if p != [] {
      TypedIdsLookup(v.kids, p[0]);
      LookupSmaller(v.kids, p[0]);
      TypedIdsAt(Lookup(v.kids, p[0]).value, p[1..]);
    }
  }

  lemma {:induction false} TypedIdsLookup(kids: Kids, key: Key)
    requires TypedIdsKids(kids) && key in Keys(kids)
    ensures TypedIds(Lookup(kids, key).value)
  {
    if kids.key != key { TypedIdsLookup(kids.rest, key); }
  }

  function At(v: Value, p: Path): Value {
    match Get(v, p)
    case Some(u) => u
    case None => Atom(0)
  }

  lemma {:induction false} GetSplit(v: Value, p: Path, q: Path)
    ensures Get(v, p + q) == match Get(v, p) case Some(u) => Get(u, q) case None => None
    decreases |p|
  {
    if p == [] {
      assert p + q == q;
    } else {
      assert (p + q)[1..] == p[1..] + q;
      if v.Node? && Lookup(v.kids, p[0]).Some? { GetSplit(Lookup(v.kids, p[0]).value, p[1..], q); }
    }
  }

  // -------------------------------------------- resources become references

  function RefOf(v: Value): Value {
    match IdOf(v)
    case Some(id) => Str(REF + id)
    case None => Dump(v)
  }

  predicate Known(obj: Value, p: Path, ids: set<string>) {
    IdOf(At(obj, p)).Some? && IdOf(At(obj, p)).value in ids
  }

  function FirstUnknown(obj: Value, paths: seq<Path>, ids: set<string>): (k: nat)
    ensures k <= |paths| && (k < |paths| ==> !Known(obj, paths[k], ids))
    ensures forall i :: 0 <= i < k ==> Known(obj, paths[i], ids)
  {
    if paths == [] || !Known(obj, paths[0], ids) then 0 else 1 + FirstUnknown(obj, paths[1..], ids)
  }

  function Refs(obj: Value, paths: seq<Path>): map<Path, Value> {
    map p | p in paths :: RefOf(At(obj, p))
  }

  /** The dump after __override_variables_in_dict, and whether it ran to its end. */
  function Overridden(t: Target, obj: Value, ids: set<string>): (Value, bool) {
    var paths := DeepestFirst(Find(t, obj, []));
    var k := FirstUnknown(obj, paths, ids);
    (Over(obj, [], Refs(obj, paths[..k])), k == |paths|)
  }

  // -------------------------------------------- references become resources

  /** What str.split("REF=") leaves before the next separator. */
  function UpToRef(s: string): string {
    if s == [] || IsRef(s) then [] else [s[0]] + UpToRef(s[1..])
  }

  /** s.split("REF=")[1], for a string that starts with the separator. */
  function RefId(s: string): string
    requires IsRef(s)
  {
    UpToRef(s[4..])
  }

  predicate NoRefInside(s: string) {
    forall i :: 0 <= i <= |s| ==> !IsRef(s[i..])
  }

  lemma {:induction false} UpToRefAll(s: string)
    requires NoRefInside(s)
    ensures UpToRef(s) == s
  {
    if s != [] {
      assert s[0..] == s;
      assert forall i :: 0 <= i <= |s| - 1 ==> s[1..][i..] == s[i + 1..];
      UpToRefAll(s[1..]);
    }
  }

  /** A reference names its id back, if the id does not contain the separator. */
  lemma RefIdOfRef(id: string)
    requires NoRefInside(id)
    ensures IsRef(REF + id) && RefId(REF + id) == id
  {
    assert (REF + id)[..4] == REF;
    assert (REF + id)[4..] == id;
    UpToRefAll(id);
  }

  predicate Resolvable(d: Value, p: Path, reg: map<string, Value>) {
    Hits(Target.References, At(d, p)) && RefId(At(d, p).s) in reg
  }

  function FirstUnresolvable(d: Value, paths: seq<Path>, reg: map<string, Value>): (k: nat)
    ensures k <= |paths| && (k < |paths| ==> !Resolvable(d, paths[k], reg))
    ensures forall i :: 0 <= i < k ==> Resolvable(d, paths[i], reg)
  {
    if paths == [] || !Resolvable(d, paths[0], reg) then 0 else 1 + FirstUnresolvable(d, paths[1..], reg)
  }

  function TargetAt(d: Value, p: Path, reg: map<string, Value>): Value {
    if Resolvable(d, p, reg) then reg[RefId(At(d, p).s)] else At(d, p)
  }

  function Targets(d: Value, paths: seq<Path>, reg: map<string, Value>): map<Path, Value> {
    map p | p in paths :: TargetAt(d, p, reg)
  }

  /** The dictionary after __override_variables_in_dict_ref, and whether it ran to its end. */
  function Resolved(d: Value, reg: map<string, Value>): (Value, bool) {
    var paths := DeepestFirst(Find(Target.References, d, []));
    var k := FirstUnresolvable(d, paths, reg);
    (Over(d, [], Targets(d, paths[..k], reg)), k == |paths|)
  }

  /** A tree as it comes from the database: dictionaries, lists and leaves. */
  predicate Plainly(v: Value) {
    v.Node? ==> (v.tag.ListTag? || v.tag.DictTag?) && PlainlyKids(v.kids)
  }

  predicate PlainlyKids(kids: Kids) {
    kids.Kid? ==> Plainly(kids.val) && PlainlyKids(kids.rest)
  }

  lemma {:induction false} DumpOfPlain(v: Value)
    requires Plainly(v)
    ensures Dump(v) == v
    decreases v, 0
  {
    if v.Node? { DumpOfPlainKids(v.kids); }
  }

  lemma {:induction false} DumpOfPlainKids(kids: Kids)
    requires PlainlyKids(kids)
    ensures DumpKids(kids) == kids
    decreases kids, 1
  {
    if kids.Kid? {
      DumpOfPlain(kids.val);
      DumpOfPlainKids(kids.rest);
    }
  }

  lemma FindPaths(t: Target, obj: Value)
    requires Wf(obj)
    ensures var paths := DeepestFirst(Find(t, obj, []));
            && ByDepth(paths) && Distinct(paths)
            && forall p :: p in paths <==> Get(obj, p).Some? && Hits(t, Get(obj, p).value)
  {
    var found := Find(t, obj, []);
    DeepestFirstSorted(found);
    FoundOnce(t, obj, []);
    DeepestFirstOnce(found);
    forall p ensures p in found <==> Get(obj, p).Some? && Hits(t, Get(obj, p).value) {
      Found(t, obj, [], p);
      assert p[0..] == p;
    }
  }

  // --------------------------------------------------- the loops, in place

  /** A nested dictionary being edited through its paths. */
  class Document {
    var root: Value

    constructor (root: Value)
      ensures this.root == root
    {
      this.root := root;
    }

    /** for key in path[:-1]: current = current[key] */
    method Enclosing(path: Path) returns (current: Value)
      requires path != [] && Get(root, path).Some?
      ensures current.Node? && Lookup(current.kids, path[|path| - 1]) == Get(root, path)
    {
      current := root;
      var i := 0;
      while i < |path| - 1
        invariant 0 <= i <= |path| - 1
        invariant Get(root, path[..i]) == Some(current)
      {
        assert path[..i] + path[i..] == path;
        GetSplit(root, path[..i], path[i..]);
        GetSplit(root, path[..i], [path[i]]);
        assert path[..i] + [path[i]] == path[..i + 1];
        current := Lookup(current.kids, path[i]).value;
        i := i + 1;
      }
      assert path[..i] + [path[i]] == path;
      GetSplit(root, path[..i], [path[i]]);
    }

    /** current[path[-1]] */
    method Occurrence(path: Path) returns (v: Value)
      requires path != [] && Get(root, path).Some?
      ensures Get(root, path) == Some(v)
    {
      var current := Enclosing(path);
      v := Lookup(current.kids, path[|path| - 1]).value;
    }

    /** The body of the first loop: the resource at the path gives way to its reference. */
    method RefAt(path: Path, registered: set<string>) returns (ok: bool)
      requires path != [] && Get(root, path).Some?
      requires var v := Get(root, path).value; v.Node? && Lookup(v.kids, Name("id")).Some?
      modifies this
      ensures var id := IdOf(Get(old(root), path).value);
              if id.Some? && id.value in registered
              then ok && root == Put(old(root), path, Str(REF + id.value))
              else !ok && root == old(root)
    {
      var occurrence := Occurrence(path);
      var currentId := Lookup(occurrence.kids, Name("id")).value;
      ok := currentId.Str? && currentId.s in registered;
      if ok { root := Put(root, path, Str(REF + currentId.s)); }
    }

    /** Replaces every resource of the family t in obj by its reference, in the dump of obj. */
    method OverrideVariables(obj: Value, t: Target, registered: set<string>) returns (ok: bool)
      requires t == Resources || t == Deployables
      requires !Hits(t, obj) // the loop indexes the last key of each path
      requires Wf(obj) && TypedIds(obj)
      requires root == Dump(obj)
      modifies this
      ensures (root, ok) == Overridden(t, obj, registered)
    {
      hide Over, Refs, Find, DeepestFirst, Get, Put, Lookup, Wf, TypedIds, Dump;
      var paths := DeepestFirst(Find(t, obj, []));
      NothingReplaced(t, obj);
      ghost var last := FirstUnknown(obj, paths, registered);
      var i := 0;
      while i < |paths|
        invariant 0 <= i <= last <= |paths|
        invariant root == ReplacedUpTo(t, obj, i)
      {
        OverrideTurn(t, obj, registered, i);
        ok := RefAt(paths[i], registered);
        if !ok { break; }
        i := i + 1;
      }
      ok := i == |paths|;
    }

    /** The body of the second loop: the reference at the path gives way to the resource it names. */
    method TargetOfRefAt(path: Path, registered: map<string, Value>) returns (ok: bool)
      requires path != [] && Get(root, path).Some? && Hits(Target.References, Get(root, path).value)
      modifies this
      ensures var id := RefId(Get(old(root), path).value.s);
              if id in registered
              then ok && root == Put(old(root), path, registered[id])
              else !ok && root == old(root)
    {
      var occurrence := Occurrence(path);
      var id := RefId(occurrence.s);
      ok := id in registered;
      if ok { root := Put(root, path, registered[id]); }
    }

    /** Replaces every reference by the resource registered under its id. */
    method OverrideReferences(registered: map<string, Value>) returns (ok: bool)
      requires root.Node? && Plainly(root) && Wf(root)
      modifies this
      ensures (root, ok) == Resolved(old(root), registered)
    {
      hide Over, Targets, Find, DeepestFirst, Get, Put, Wf, Plainly, UpToRef;
      ghost var d := root;
      var paths := DeepestFirst(Find(Target.References, root, []));
      NothingResolved(d, registered);
      ghost var last := FirstUnresolvable(d, paths, registered);
      var i := 0;
      while i < |paths|
        invariant 0 <= i <= last <= |paths|
        invariant root == ResolvedUpTo(d, registered, i)
      {
        ResolveTurn(d, registered, i);
        ok := TargetOfRefAt(paths[i], registered);
        if !ok { break; }
        i := i + 1;
      }
      ok := i == |paths|;
    }
  }

  /** The dump of obj after i turns of the first loop. */
  ghost function ReplacedUpTo(t: Target, obj: Value, i: nat): Value
    requires i <= |DeepestFirst(Find(t, obj, []))|
  {
    Over(obj, [], Refs(obj, DeepestFirst(Find(t, obj, []))[..i]))
  }

  /** The tree d after i turns of the second loop. */
  ghost function ResolvedUpTo(d: Value, reg: map<string, Value>, i: nat): Value
    requires i <= |DeepestFirst(Find(Target.References, d, []))|
  {
    Over(d, [], Targets(d, DeepestFirst(Find(Target.References, d, []))[..i], reg))
  }

  lemma NothingReplaced(t: Target, obj: Value)
    ensures ReplacedUpTo(t, obj, 0) == Dump(obj)
  {
    OverNothing(obj, []);
    assert Refs(obj, DeepestFirst(Find(t, obj, []))[..0]) == map[];
  }

  lemma NothingResolved(d: Value, reg: map<string, Value>)
    requires Plainly(d)
    ensures ResolvedUpTo(d, reg, 0) == d
  {
    OverNothing(d, []);
    DumpOfPlain(d);
    assert Targets(d, DeepestFirst(Find(Target.References, d, []))[..0], reg) == map[];
  }

  /** One turn of the loop: the occurrence is found intact, and its reference joins the others. */
  lemma {:induction false} OverrideStep(t: Target, obj: Value, i: nat)
    requires t == Resources || t == Deployables
    requires !Hits(t, obj) && Wf(obj) && TypedIds(obj)
    requires i < |DeepestFirst(Find(t, obj, []))|
    ensures var path, root := DeepestFirst(Find(t, obj, []))[i], ReplacedUpTo(t, obj, i);
            && path != []
            && Get(root, path).Some?
            && Get(root, path).value.Node?
            && Lookup(Get(root, path).value.kids, Name("id")).Some?
            && IdOf(Get(root, path).value) == IdOf(At(obj, path))
            && Put(root, path, RefOf(At(obj, path))) == ReplacedUpTo(t, obj, i + 1)
  {
    var paths := DeepestFirst(Find(t, obj, []));
    var path, m := paths[i], Refs(obj, paths[..i]);
    TurnOf(t, obj, i, m, RefOf(At(obj, path)));
    TypedIdsAt(obj, path);
    FindPaths(t, obj);
    IdNotReplaced(t, obj, path, m);
    IdSurvives(At(obj, path), path, m);
    RefsGrow(obj, paths, i);
  }

  lemma RefsGrow(obj: Value, paths: seq<Path>, i: nat)
    requires i < |paths|
    ensures Refs(obj, paths[..i + 1]) == Refs(obj, paths[..i])[paths[i] := RefOf(At(obj, paths[i]))]
  {
    assert paths[..i + 1] == paths[..i] + [paths[i]];
  }

  lemma OverrideTurn(t: Target, obj: Value, ids: set<string>, i: nat)
    requires t == Resources || t == Deployables
    requires !Hits(t, obj) && Wf(obj) && TypedIds(obj)
    requires var paths := DeepestFirst(Find(t, obj, [])); i < |paths| && i <= FirstUnknown(obj, paths, ids)
    ensures var paths := DeepestFirst(Find(t, obj, []));
            var path, root := paths[i], ReplacedUpTo(t, obj, i);
            && path != [] && Get(root, path).Some?
            && var v := Get(root, path).value;
               && v.Node? && Lookup(v.kids, Name("id")).Some?
               && var id := IdOf(v);
                  if id.Some? && id.value in ids
                  then i < FirstUnknown(obj, paths, ids)
                       && Put(root, path, Str(REF + id.value)) == ReplacedUpTo(t, obj, i + 1)
                  else i == FirstUnknown(obj, paths, ids)
  {
    OverrideStep(t, obj, i);
  }

  lemma ResolveTurn(d: Value, reg: map<string, Value>, i: nat)
    requires d.Node? && Wf(d)
    requires var paths := DeepestFirst(Find(Target.References, d, []));
             i < |paths| && i <= FirstUnresolvable(d, paths, reg)
    ensures var paths := DeepestFirst(Find(Target.References, d, []));
            var path, root := paths[i], ResolvedUpTo(d, reg, i);
            && path != [] && Get(root, path).Some? && Hits(Target.References, Get(root, path).value)
            && var id := RefId(Get(root, path).value.s);
               if id in reg
               then i < FirstUnresolvable(d, paths, reg)
                    && Put(root, path, reg[id]) == ResolvedUpTo(d, reg, i + 1)
               else i == FirstUnresolvable(d, paths, reg)
  {
    ResolveStep(d, reg, i);
  }

  lemma IdNotReplaced(t: Target, obj: Value, path: Path, m: map<Path, Value>)
    requires t == Resources || t == Deployables
    requires Wf(obj) && TypedIds(obj) && Get(obj, path).Some? && Hits(t, Get(obj, path).value)
    requires forall q :: q in m ==> Get(obj, q).Some? && Hits(t, Get(obj, q).value)
    ensures path + [Name("id")] !in m
  {
    TypedIdsAt(obj, path);
    GetSplit(obj, path, [Name("id")]);
  }

  /** One turn of either loop: the next path is read as dumped and written without disturbing the rest. */
  lemma TurnOf(t: Target, obj: Value, i: nat, m: map<Path, Value>, x: Value)
    requires Wf(obj) && !Hits(t, obj)
    requires i < |DeepestFirst(Find(t, obj, []))|
    requires forall q :: q in m ==> q in DeepestFirst(Find(t, obj, []))[..i]
    ensures var path := DeepestFirst(Find(t, obj, []))[i];
            && path != [] && path !in m
            && Get(obj, path) == Some(At(obj, path)) && Hits(t, At(obj, path))
            && Get(Over(obj, [], m), path) == Some(Over(At(obj, path), path, m))
            && Put(Over(obj, [], m), path, x) == Over(obj, [], m[path := x])
  {
    FindPaths(t, obj);
    TurnAt(t, obj, DeepestFirst(Find(t, obj, [])), i, m, x);
  }

  lemma {:induction false} TurnAt(t: Target, obj: Value, paths: seq<Path>, i: nat, m: map<Path, Value>, x: Value)
    requires Wf(obj) && !Hits(t, obj)
    requires ByDepth(paths) && Distinct(paths)
    requires i < |paths| && Get(obj, paths[i]).Some? && Hits(t, Get(obj, paths[i]).value)
    requires forall q :: q in m ==> q in paths[..i]
    ensures var path := paths[i];
            && path != [] && path !in m
            && Get(obj, path) == Some(At(obj, path)) && Hits(t, At(obj, path))
            && Get(Over(obj, [], m), path) == Some(Over(At(obj, path), path, m))
            && Put(Over(obj, [], m), path, x) == Over(obj, [], m[path := x])
  {
    var path := paths[i];
    StillReachable(paths, i, m);
    assert [] + path == path;
    GetOver(obj, [], m, path);
    PutOver(obj, [], m, path, x);
  }

  lemma ResolveStep(d: Value, reg: map<string, Value>, i: nat)
    requires d.Node? && Wf(d)
    requires i < |DeepestFirst(Find(Target.References, d, []))|
    ensures var path, root := DeepestFirst(Find(Target.References, d, []))[i], ResolvedUpTo(d, reg, i);
            && path != []
            && Get(root, path) == Some(At(d, path))
            && Hits(Target.References, At(d, path))
            && Put(root, path, TargetAt(d, path, reg)) == ResolvedUpTo(d, reg, i + 1)
  {
    var paths := DeepestFirst(Find(Target.References, d, []));
    var m := Targets(d, paths[..i], reg);
    TurnOf(Target.References, d, i, m, TargetAt(d, paths[i], reg));
    TargetsGrow(d, paths, i, reg);
  }

  lemma TargetsGrow(d: Value, paths: seq<Path>, i: nat, reg: map<string, Value>)
    requires i < |paths|
    ensures Targets(d, paths[..i + 1], reg) == Targets(d, paths[..i], reg)[paths[i] := TargetAt(d, paths[i], reg)]
  {
  }

  /** The id of a resource is still there when its turn comes: a leaf is never replaced. */
  lemma IdSurvives(v: Value, here: Path, m: map<Path, Value>)
    requires v.Node? && v.tag.ResourceTag? && TypedIds(v) && here !in m
    requires here + [Name("id")] !in m
    ensures var w := Over(v, here, m);
            w.Node? && Lookup(w.kids, Name("id")) == Lookup(v.kids, Name("id")) && IdOf(w) == IdOf(v)
  {
    LookupOver(v.kids, here, m, Name("id"));
  }

  // ------------------------------------------------ the structural rewrites

  /** The dump in which each branch is cut at its outermost resource of the family. */
  function Cut(t: Target, v: Value): Value {
    if Hits(t, v) then RefOf(v)
    else if v.Node? then Node(if v.tag.ListTag? then ListTag else DictTag, CutKids(t, v.kids))
    else v
  }

  function CutKids(t: Target, kids: Kids): Kids {
    match kids
    case End => End
    case Kid(k, v, rest) => Kid(k, Cut(t, v), CutKids(t, rest))
  }

  /** Overwriting all hits, inner ones included, is cutting at the outer ones. */
  lemma {:induction false} OverAllIsCut(t: Target, v: Value, here: Path, m: map<Path, Value>)
    requires Wf(v)
    requires forall p :: Get(v, p).Some? ==> (here + p in m <==> Hits(t, Get(v, p).value))
    requires forall p :: Get(v, p).Some? && here + p in m ==> m[here + p] == RefOf(Get(v, p).value)
    ensures Over(v, here, m) == Cut(t, v)
    decreases v, 0
  {
    assert Get(v, []) == Some(v) && here + [] == here;
    if v.Node? && !Hits(t, v) {
      forall k, p | k in Keys(v.kids) && Get(Lookup(v.kids, k).value, p).Some?
        ensures here + [k] + p in m <==> Hits(t, Get(Lookup(v.kids, k).value, p).value)
        ensures here + [k] + p in m ==> m[here + [k] + p] == RefOf(Get(Lookup(v.kids, k).value, p).value)
      {
        assert ([k] + p)[1..] == p;
        assert Get(v, [k] + p) == Get(Lookup(v.kids, k).value, p);
        assert here + ([k] + p) == here + [k] + p;
      }
      OverAllIsCutKids(t, v.kids, here, m);
    }
  }

  lemma {:induction false} OverAllIsCutKids(t: Target, kids: Kids, here: Path, m: map<Path, Value>)
    requires WfKids(kids)
    requires forall k, p :: k in Keys(kids) && Get(Lookup(kids, k).value, p).Some? ==>
                              (here + [k] + p in m <==> Hits(t, Get(Lookup(kids, k).value, p).value))
    requires forall k, p :: k in Keys(kids) && Get(Lookup(kids, k).value, p).Some? && here + [k] + p in m ==>
                              m[here + [k] + p] == RefOf(Get(Lookup(kids, k).value, p).value)
    ensures OverKids(kids, here, m) == CutKids(t, kids)
    decreases kids, 1
  {
    if kids.Kid? {
      assert Lookup(kids, kids.key) == Some(kids.val);
      OverAllIsCut(t, kids.val, here + [kids.key], m);
      forall k | k in Keys(kids.rest) ensures Lookup(kids, k) == Lookup(kids.rest, k) {}
      OverAllIsCutKids(t, kids.rest, here, m);
    }
  }

  /** Every resource of the family, nested ones included, is registered. */
  ghost predicate AllKnown(t: Target, obj: Value, ids: set<string>) {
    forall p :: Get(obj, p).Some? && Hits(t, Get(obj, p).value) ==>
                  IdOf(Get(obj, p).value).Some? && IdOf(Get(obj, p).value).value in ids
  }

  lemma OverAllIsCutTop(t: Target, v: Value, m: map<Path, Value>)
    requires Wf(v)
    requires forall p :: p in m <==> Get(v, p).Some? && Hits(t, Get(v, p).value)
    requires forall p :: p in m ==> m[p] == RefOf(At(v, p))
    ensures Over(v, [], m) == Cut(t, v)
  {
    forall p | Get(v, p).Some? ensures [] + p in m <==> Hits(t, Get(v, p).value)
                               ensures [] + p in m ==> m[[] + p] == RefOf(Get(v, p).value)
    {
      assert [] + p == p;
    }
    OverAllIsCut(t, v, [], m);
  }

  lemma KnownToTheEnd(t: Target, obj: Value, paths: seq<Path>, ids: set<string>)
    requires forall p :: p in paths <==> Get(obj, p).Some? && Hits(t, Get(obj, p).value)
    ensures FirstUnknown(obj, paths, ids) == |paths| <==> AllKnown(t, obj, ids)
  {
    var k := FirstUnknown(obj, paths, ids);
    if k < |paths| { assert paths[k] in paths; }
    if k == |paths| {
      forall p | p in paths ensures Known(obj, p, ids) {
        var i :| 0 <= i < |paths| && paths[i] == p;
      }
    }
  }

  lemma ReplacedIsCut(t: Target, obj: Value, paths: seq<Path>, ids: set<string>)
    requires Wf(obj) && forall p :: p in paths <==> Get(obj, p).Some? && Hits(t, Get(obj, p).value)
    ensures FirstUnknown(obj, paths, ids) == |paths| <==> AllKnown(t, obj, ids)
    ensures Over(obj, [], Refs(obj, paths[..|paths|])) == Cut(t, obj)
  {
    KnownToTheEnd(t, obj, paths, ids);
    assert paths[..|paths|] == paths;
    OverAllIsCutTop(t, obj, Refs(obj, paths));
  }

  /**
   * The deepest-first in-place replacement runs to its end iff every occurrence is registered, and
   * then it is the structural rewrite.
   */
  lemma {:induction false} OverriddenIsCut(t: Target, obj: Value, ids: set<string>)
    requires Wf(obj)
    ensures Overridden(t, obj, ids).1 <==> AllKnown(t, obj, ids)
    ensures Overridden(t, obj, ids).1 ==> Overridden(t, obj, ids).0 == Cut(t, obj)
  {
    FindPaths(t, obj);
    ReplacedIsCut(t, obj, DeepestFirst(Find(t, obj, [])), ids);
  }

  /** The tree in which every reference is replaced by what it names. */
  function Resolve(d: Value, reg: map<string, Value>): Value {
    if Hits(Target.References, d) && RefId(d.s) in reg then reg[RefId(d.s)]
    else if d.Node? then Node(if d.tag.ListTag? then ListTag else DictTag, ResolveKids(d.kids, reg))
    else d
  }

  function ResolveKids(kids: Kids, reg: map<string, Value>): Kids {
    match kids
    case End => End
    case Kid(k, v, rest) => Kid(k, Resolve(v, reg), ResolveKids(rest, reg))
  }

  ghost predicate AllResolvable(d: Value, reg: map<string, Value>) {
    forall p :: Get(d, p).Some? && Hits(Target.References, Get(d, p).value) ==> RefId(Get(d, p).value.s) in reg
  }

  lemma {:induction false} OverAllIsResolve(v: Value, here: Path, m: map<Path, Value>, reg: map<string, Value>)
    requires Wf(v) && AllResolvable(v, reg)
    requires forall p :: Get(v, p).Some? ==> (here + p in m <==> Hits(Target.References, Get(v, p).value))
    requires forall p :: Get(v, p).Some? && here + p in m ==> m[here + p] == TargetAt(v, p, reg)
    ensures Over(v, here, m) == Resolve(v, reg)
    decreases v, 0
  {
    assert Get(v, []) == Some(v) && here + [] == here;
    if v.Node? {
      forall k, p | k in Keys(v.kids) && Get(Lookup(v.kids, k).value, p).Some?
        ensures var u := Get(Lookup(v.kids, k).value, p).value;
                && (here + [k] + p in m <==> Hits(Target.References, u))
                && (Hits(Target.References, u) ==> RefId(u.s) in reg && m[here + [k] + p] == reg[RefId(u.s)])
      {
        assert ([k] + p)[1..] == p;
        assert Get(v, [k] + p) == Get(Lookup(v.kids, k).value, p);
        assert here + ([k] + p) == here + [k] + p;
      }
      OverAllIsResolveKids(v.kids, here, m, reg);
    }
  }

  lemma {:induction false} OverAllIsResolveKids(kids: Kids, here: Path, m: map<Path, Value>, reg: map<string, Value>)
    requires WfKids(kids)
    requires forall k, p :: k in Keys(kids) && Get(Lookup(kids, k).value, p).Some? ==>
               var u := Get(Lookup(kids, k).value, p).value;
               && (here + [k] + p in m <==> Hits(Target.References, u))
               && (Hits(Target.References, u) ==> RefId(u.s) in reg && m[here + [k] + p] == reg[RefId(u.s)])
    ensures OverKids(kids, here, m) == ResolveKids(kids, reg)
    decreases kids, 1
  {
    if kids.Kid? {
      assert Lookup(kids, kids.key) == Some(kids.val);
      OverAllIsResolve(kids.val, here + [kids.key], m, reg);
      forall k | k in Keys(kids.rest) ensures Lookup(kids, k) == Lookup(kids.rest, k) {}
      OverAllIsResolveKids(kids.rest, here, m, reg);
    }
  }

  lemma OverAllIsResolveTop(d: Value, m: map<Path, Value>, reg: map<string, Value>)
    requires Wf(d) && AllResolvable(d, reg)
    requires forall p :: p in m <==> Get(d, p).Some? && Hits(Target.References, Get(d, p).value)
    requires forall p :: p in m ==> m[p] == TargetAt(d, p, reg)
    ensures Over(d, [], m) == Resolve(d, reg)
  {
    forall p | Get(d, p).Some? ensures [] + p in m <==> Hits(Target.References, Get(d, p).value)
                               ensures [] + p in m ==> m[[] + p] == TargetAt(d, p, reg)
    {
      assert [] + p == p;
    }
    OverAllIsResolve(d, [], m, reg);
  }

  lemma ResolvableToTheEnd(d: Value, paths: seq<Path>, reg: map<string, Value>)
    requires forall p :: p in paths <==> Get(d, p).Some? && Hits(Target.References, Get(d, p).value)
    ensures FirstUnresolvable(d, paths, reg) == |paths| <==> AllResolvable(d, reg)
  {
    var k := FirstUnresolvable(d, paths, reg);
    if k < |paths| { assert paths[k] in paths; }
    if k == |paths| {
      forall p | p in paths ensures Resolvable(d, p, reg) {
        var i :| 0 <= i < |paths| && paths[i] == p;
      }
    }
  }

  /** The in-place resolution runs to its end iff every reference is known, and is then structural. */
  lemma {:induction false} ResolvedIsResolve(d: Value, reg: map<string, Value>)
    requires Wf(d)
    ensures Resolved(d, reg).1 <==> AllResolvable(d, reg)
    ensures Resolved(d, reg).1 ==> Resolved(d, reg).0 == Resolve(d, reg)
  {
    FindPaths(Target.References, d);
    SubstitutedIsResolve(d, DeepestFirst(Find(Target.References, d, [])), reg);
  }

  lemma SubstitutedIsResolve(d: Value, paths: seq<Path>, reg: map<string, Value>)
    requires Wf(d) && forall p :: p in paths <==> Get(d, p).Some? && Hits(Target.References, Get(d, p).value)
    ensures FirstUnresolvable(d, paths, reg) == |paths| <==> AllResolvable(d, reg)
    ensures AllResolvable(d, reg) ==> Over(d, [], Targets(d, paths[..|paths|], reg)) == Resolve(d, reg)
  {
    ResolvableToTheEnd(d, paths, reg);
    assert paths[..|paths|] == paths;
    if FirstUnresolvable(d, paths, reg) == |paths| { OverAllIsResolveTop(d, Targets(d, paths, reg), reg); }
  }
}
