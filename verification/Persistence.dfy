/** Saving a blueprint and loading it back (src/nfvcl/blueprints_ng/blueprint_ng.py). */
module Persistence {
  import opened Wrappers
  import opened Seqs
  import opened Values
  import opened References
  import opened Schemas

  /** One item of registered_resources: key, class path, resource. */
  datatype Entry = Entry(id: string, cls: string, value: Value)

  /** The part of the document saved to the database that depends on resources. */
  datatype Saved = Saved(registered: seq<Entry>, state: Value, corrupted: bool)

  /** What loading depends on: the classes, the type of the state, the areas that have a VIM. */
  datatype Context = Context(classes: map<string, Class>, state: Schema, empty: Value, areas: set<int>)

  function RegMap(es: seq<Entry>): (m: map<string, Value>)
    ensures m.Keys == Ids(es)
  {
    if es == [] then map[]
    else
      var n := |es| - 1;
      assert es == es[..n] + [es[n]];
      RegMap(es[..n])[es[n].id := es[n].value]
  }

  function Ids(es: seq<Entry>): set<string> {
    set e | e in es :: e.id
  }

  lemma {:induction false} RegMapAt(es: seq<Entry>, i: nat)
    requires i < |es| && DistinctIds(es)
    ensures es[i].id in RegMap(es) && RegMap(es)[es[i].id] == es[i].value
  {
    var n := |es| - 1;
    if i < n {
      assert es[..n][i] == es[i] && es[i].id != es[n].id;
      RegMapAt(es[..n], i);
    }
  }

  lemma RegMapOf(es: seq<Entry>, id: string)
    requires id in RegMap(es)
    ensures exists i :: 0 <= i < |es| && es[i].id == id && es[i].value == RegMap(es)[id]
  {
    var n := |es| - 1;
    if es[n].id != id {
      RegMapOf(es[..n], id);
      var i :| 0 <= i < n && es[..n][i].id == id && es[..n][i].value == RegMap(es[..n])[id];
      assert es[i].id == id;
    }
  }

  ghost predicate DistinctIds(es: seq<Entry>) {
    forall i, j :: 0 <= i < j < |es| ==> es[i].id != es[j].id
  }

  lemma RegMapAppend(es: seq<Entry>, e: Entry)
    ensures RegMap(es + [e]) == RegMap(es)[e.id := e.value]
  {
    assert (es + [e])[..|es|] == es;
  }

  predicate IsConfiguration(v: Value) {
    v.Node? && v.tag.ResourceTag? && v.tag.kind == Configuration
  }

  function DumpEntries(es: seq<Entry>): (out: seq<Entry>)
    ensures |out| == |es|
    ensures forall i :: 0 <= i < |es| ==> out[i] == es[i].(value := Dump(es[i].value))
  {
    if es == [] then [] else [es[0].(value := Dump(es[0].value))] + DumpEntries(es[1..])
  }

  function SavedValue(e: Entry, ids: set<string>): (Value, bool) {
    if IsConfiguration(e.value) then Overridden(Deployables, e.value, ids) else (Dump(e.value), true)
  }

  /** The dumped registry with the deployables of each configuration overridden, up to a failure. */
  function SavedEntries(es: seq<Entry>, ids: set<string>): (r: (seq<Entry>, bool))
    ensures |r.0| == |es|
  {
    if es == [] then ([], true)
    else
      var (v, ok) := SavedValue(es[0], ids);
      if !ok then ([es[0].(value := v)] + DumpEntries(es[1..]), false)
      else
        var (rest, ok') := SavedEntries(es[1..], ids);
        ([es[0].(value := v)] + rest, ok')
  }

  /** The specification of __serialize_content. */
  function SavedOf(es: seq<Entry>, state: Value, corrupted: bool): Saved {
    var (s, ok) := Overridden(Resources, state, Ids(es));
    if !ok then Saved(DumpEntries(es), s, true)
    else
      var (saved, ok') := SavedEntries(es, Ids(es));
      Saved(saved, s, corrupted || !ok')
  }

  /** The entries in their order, under their ids and classes; a configuration is cut or dumped. */
  ghost predicate EntriesKept(es: seq<Entry>, saved: seq<Entry>) {
    && |saved| == |es|
    && forall i :: 0 <= i < |es| ==>
                     && saved[i].id == es[i].id && saved[i].cls == es[i].cls
                     && (!IsConfiguration(es[i].value) ==> saved[i].value == Dump(es[i].value))
  }

  lemma {:induction false} DumpedAreKept(es: seq<Entry>)
    ensures EntriesKept(es, DumpEntries(es))
  {
    if es != [] { DumpedAreKept(es[1..]); }
  }

  lemma {:induction false} SavedAreKept(es: seq<Entry>, ids: set<string>)
    ensures EntriesKept(es, SavedEntries(es, ids).0)
  {
    if es != [] {
      SavedAreKept(es[1..], ids);
      DumpedAreKept(es[1..]);
    }
  }

  lemma SavedKeepsEntries(es: seq<Entry>, state: Value, corrupted: bool)
    ensures EntriesKept(es, SavedOf(es, state, corrupted).registered)
  {
    SavedAreKept(es, Ids(es));
    DumpedAreKept(es);
  }

  /** What the type system guarantees of an object tree in memory. */
  ghost predicate Typed(v: Value) { Wf(v) && TypedIds(v) }

  ghost predicate TypedEntries(es: seq<Entry>) {
    forall i :: 0 <= i < |es| ==> Typed(es[i].value)
  }

  // ------------------------------------------------------------------ loading

  function SetKid(kids: Kids, key: Key, x: Value): Kids {
    match kids
    case End => Kid(key, x, End)
    case Kid(k, v, rest) => if k == key then Kid(k, x, rest) else Kid(k, v, SetKid(rest, key, x))
  }

  function HasVim(v: Value, areas: set<int>): bool {
    v.Node? &&
    match Lookup(v.kids, Name("area"))
    case Some(Atom(a)) => a in areas
    case _ => false
  }

  /** register_resource; None when it raises. A resource without an id takes a new uuid. */
  function Register(es: seq<Entry>, v: Value, areas: set<int>, uuid: string): Option<seq<Entry>>
    requires v.Node? && v.tag.ResourceTag?
  {
    var id := IdOf(v);
    if id.Some? && id.value != "" && id.value in Ids(es) then None
    else
      var v' := if id.Some? && id.value != "" then v else Node(v.tag, SetKid(v.kids, Name("id"), Str(uuid)));
      var id' := if id.Some? && id.value != "" then id.value else uuid;
      if v.tag.kind == Deployable && !HasVim(v, areas) then None
      else Some(es + [Entry(id', v.tag.cls, v')])
  }

  /** The resource has an id that is not empty. */
  predicate HasId(v: Value) {
    IdOf(v).Some? && IdOf(v).value != ""
  }

  /** The resource names an area that has a VIM. */
  ghost predicate InServedArea(v: Value, areas: set<int>) {
    v.Node? && exists a :: a in areas && Lookup(v.kids, Name("area")) == Some(Atom(a))
  }

  /** A resource may be registered: its id, if any, is not in use, and a deployable's area has a VIM. */
  ghost predicate Acceptable(es: seq<Entry>, v: Value, areas: set<int>)
    requires v.Node? && v.tag.ResourceTag?
  {
    && (HasId(v) ==> IdOf(v).value !in Ids(es))
    && (v.tag.kind == Deployable ==> InServedArea(v, areas))
  }

  /**
   * The entry that v becomes: the resource in it bears the id of the entry, which is its own or else
   * the uuid, and in all other fields is as v was.
   */
  ghost predicate EntryOf(v: Value, uuid: string, e: Entry)
    requires v.Node? && v.tag.ResourceTag?
  {
    && IdOf(e.value) == Some(e.id) && e.id == (if HasId(v) then IdOf(v).value else uuid)
    && e.value.tag == v.tag && e.cls == v.tag.cls
    && (HasId(v) ==> e.value == v)
    && forall key :: key != Name("id") ==> Lookup(e.value.kids, key) == Lookup(v.kids, key)
  }

  lemma {:induction false} SetKidLookup(kids: Kids, key: Key, x: Value, other: Key)
    ensures Lookup(SetKid(kids, key, x), other) == if other == key then Some(x) else Lookup(kids, other)
  {
    if kids.Kid? && kids.key != key { SetKidLookup(kids.rest, key, x, other); }
  }

  /** Registering succeeds iff the resource is acceptable, and then appends its entry. */
  lemma RegisterMeans(es: seq<Entry>, v: Value, areas: set<int>, uuid: string)
    requires v.Node? && v.tag.ResourceTag?
    ensures Register(es, v, areas, uuid).Some? <==> Acceptable(es, v, areas)
    ensures Register(es, v, areas, uuid).Some? ==>
              var out := Register(es, v, areas, uuid).value;
              |out| == |es| + 1 && out[..|es|] == es && EntryOf(v, uuid, out[|es|])
  {
    forall key ensures Lookup(SetKid(v.kids, Name("id"), Str(uuid)), key) ==
                       if key == Name("id") then Some(Str(uuid)) else Lookup(v.kids, key)
    {
      SetKidLookup(v.kids, Name("id"), Str(uuid), key);
    }
  }

  /** Every resource bears the id of its entry, and no id is there twice. */
  ghost predicate UnderOwnIds(es: seq<Entry>) {
    DistinctIds(es) && forall i :: 0 <= i < |es| ==> IdOf(es[i].value) == Some(es[i].id)
  }

  /** A registry under own ids stays one, for resources with an id or a new uuid. */
  lemma RegisterKeepsOwnIds(es: seq<Entry>, v: Value, areas: set<int>, uuid: string)
    requires v.Node? && v.tag.ResourceTag? && UnderOwnIds(es) && (HasId(v) || uuid !in Ids(es))
    ensures Register(es, v, areas, uuid).Some? ==> UnderOwnIds(Register(es, v, areas, uuid).value)
  {
    RegisterMeans(es, v, areas, uuid);
    if Register(es, v, areas, uuid).Some? {
      var out := Register(es, v, areas, uuid).value;
      assert out == es + [out[|es|]];
      DistinctIdsAppend(es, out[|es|]);
    }
  }

  /** get_class_from_path(cls).model_validate(d), as a new object; None when it raises. */
  function Build(ctx: Context, cls: string, d: Value, slot: nat): (r: Option<Value>)
    ensures r.Some? ==> r.value.Node? && r.value.tag.ResourceTag?
  {
    if cls !in ctx.classes || !d.Node? then None
    else
      match ValidateFields(ctx.classes[cls].fields, d.kids)
      case None => None
      case Some(kids) => Some(Node(ResourceTag(cls, ctx.classes[cls].kind, Slot(slot)), kids))
  }

  function TypeName(kind: Kind): string {
    match kind
    case Plain => "Resource"
    case Deployable => "ResourceDeployable"
    case Configuration => "ResourceConfiguration"
  }

  predicate TypeIs(v: Value, kind: Kind) {
    v.Node? && Lookup(v.kids, Name("type")) == Some(Str(TypeName(kind)))
  }

  /** The first pass of __from_db over the saved registry. */
  function LoadDeployables(ctx: Context, es: seq<Entry>, acc: seq<Entry>, uuids: nat -> string): Option<seq<Entry>>
    decreases |es|
  {
    if es == [] then Some(acc)
    else if !TypeIs(es[0].value, Deployable) then LoadDeployables(ctx, es[1..], acc, uuids)
    else
      match Build(ctx, es[0].cls, es[0].value, |acc|)
      case None => None
      case Some(v) =>
        match Register(acc, v, ctx.areas, uuids(|acc|))
        case None => None
        case Some(acc') => LoadDeployables(ctx, es[1..], acc', uuids)
  }

  /** What one entry adds in the first pass. */
  lemma DeployableNext(ctx: Context, e: Entry, rest: seq<Entry>, acc: seq<Entry>, uuids: nat -> string)
    ensures var r := LoadDeployables(ctx, [e] + rest, acc, uuids);
            if !TypeIs(e.value, Deployable) then r == LoadDeployables(ctx, rest, acc, uuids)
            else
              match Build(ctx, e.cls, e.value, |acc|)
              case None => r == None
              case Some(v) =>
                match Register(acc, v, ctx.areas, uuids(|acc|))
                case None => r == None
                case Some(next) => r == LoadDeployables(ctx, rest, next, uuids)
  {
    assert ([e] + rest)[1..] == rest;
  }

  /** The second pass: references are resolved against what is registered so far. */
  function LoadConfigurations(ctx: Context, es: seq<Entry>, acc: seq<Entry>, uuids: nat -> string): Option<seq<Entry>>
    decreases |es|
  {
    if es == [] then Some(acc)
    else if !TypeIs(es[0].value, Configuration) then LoadConfigurations(ctx, es[1..], acc, uuids)
    else
      var (d, ok) := Resolved(es[0].value, RegMap(acc));
      if !ok then None
      else
        match Build(ctx, es[0].cls, d, |acc|)
        case None => None
        case Some(v) =>
          match Register(acc, v, ctx.areas, uuids(|acc|))
          case None => None
          case Some(acc') => LoadConfigurations(ctx, es[1..], acc', uuids)
  }

  datatype Loaded = Loaded(registered: seq<Entry>, state: Value, corrupted: bool)

  /** The specification of __from_db; None when it raises. */
  function LoadedFrom(ctx: Context, doc: Saved, uuids: nat -> string): Option<Loaded> {
    match LoadDeployables(ctx, doc.registered, [], uuids)
    case None => None
    case Some(first) =>
      match LoadConfigurations(ctx, doc.registered, first, uuids)
      case None => None
      case Some(all) =>
        var (s, ok) := Resolved(doc.state, RegMap(all));
        if !ok then None
        else
          match Validate(ctx.state, s)
          case Some(state) => Some(Loaded(all, state, doc.corrupted))
          case None => Some(Loaded(all, ctx.empty, true))
  }

  // -------------------------------------------------------- the blueprint object

  class Blueprint {
    var registered: seq<Entry>
    var state: Value
    var corrupted: bool

    constructor (registered: seq<Entry>, state: Value, corrupted: bool)
      ensures this.registered == registered && this.state == state && this.corrupted == corrupted
    {
      this.registered, this.state, this.corrupted := registered, state, corrupted;
    }

    /**
     * False when it raises, and then nothing is registered. A resource without an id gets the uuid;
     * the entry appended is that of the resource as it then is.
     */
    method RegisterResource(v: Value, areas: set<int>, uuid: string) returns (ok: bool)
      requires v.Node? && v.tag.ResourceTag?
      modifies this`registered
      ensures ok <==> Acceptable(old(registered), v, areas)
      ensures ok ==> && |registered| == |old(registered)| + 1 && registered[..|old(registered)|] == old(registered)
                     && EntryOf(v, uuid, registered[|old(registered)|])
      ensures ok && old(UnderOwnIds(registered)) && (HasId(v) || uuid !in Ids(old(registered))) ==>
                UnderOwnIds(registered)
      ensures match Register(old(registered), v, areas, uuid)
              case Some(es) => ok && registered == es
              case None => !ok && registered == old(registered)
    {
      RegisterMeans(registered, v, areas, uuid);
      if UnderOwnIds(registered) && (HasId(v) || uuid !in Ids(registered)) {
        RegisterKeepsOwnIds(registered, v, areas, uuid);
      }
      var id, value := IdOf(v), v;
      if id.Some? && id.value != "" && id.value in Ids(registered) { return false; }
      if !(id.Some? && id.value != "") {
        id, value := Some(uuid), Node(v.tag, SetKid(v.kids, Name("id"), Str(uuid)));
      }
      if v.tag.kind == Deployable && !HasVim(v, areas) { return false; }
      registered := registered + [Entry(id.value, v.tag.cls, value)];
      ok := true;
    }

    /** The dumped value of one entry, overridden if it is a configuration. */
    method OverrideEntry(e: Entry, ids: set<string>) returns (v: Value, good: bool)
      requires Typed(e.value)
      ensures (v, good) == SavedValue(e, ids)
    {
      var inner := new Document(Dump(e.value));
      good := true;
      if IsConfiguration(e.value) { good := inner.OverrideVariables(e.value, Deployables, ids); }
      v := inner.root;
    }

    /** The loop over the configurations: they are overridden in the dumped registry, up to a failure. */
    method OverrideConfigurations(ids: set<string>) returns (es: seq<Entry>, good: bool)
      requires TypedEntries(registered)
      ensures (es, good) == SavedEntries(registered, ids)
    {
      es := [];
      var i := 0;
      assert registered[0..] == registered;
      assert es + SavedEntries(registered, ids).0 == SavedEntries(registered, ids).0;
      while i < |registered|
        invariant 0 <= i <= |registered|
        invariant SavedEntries(registered, ids)
                  == (es + SavedEntries(registered[i..], ids).0, SavedEntries(registered[i..], ids).1)
      {
        var e := registered[i];
        var v;
        v, good := OverrideEntry(e, ids);
        assert registered[i..][1..] == registered[i + 1..];
        if !good {
          es := es + ([e.(value := v)] + DumpEntries(registered[i + 1..]));
          return;
        }
        Regroup(es, e.(value := v), SavedEntries(registered[i + 1..], ids).0);
        es := es + [e.(value := v)];
        i := i + 1;
      }
      assert registered[i..] == [] && es + [] == es;
      good := true;
    }

    /** Even a save that is flagged keeps every entry, and those that are no configurations in full. */
    method SerializeContent() returns (doc: Saved)
      requires Typed(state) && !Hits(Resources, state) && TypedEntries(registered)
      ensures EntriesKept(registered, doc.registered) && (corrupted ==> doc.corrupted)
      ensures doc == SavedOf(registered, state, corrupted)
    {
      SavedKeepsEntries(registered, state, corrupted);
      var dumped := new Document(Dump(state));
      var ok := dumped.OverrideVariables(state, Resources, Ids(registered));
      if !ok { return Saved(DumpEntries(registered), dumped.root, true); }
      var es, good := OverrideConfigurations(Ids(registered));
      doc := Saved(es, dumped.root, corrupted || !good);
    }

    method RegisterDeployables(ctx: Context, es: seq<Entry>, uuids: nat -> string) returns (ok: bool)
      modifies this`registered
      ensures match LoadDeployables(ctx, es, old(registered), uuids)
              case Some(all) => ok && registered == all
              case None => !ok
    {
      ghost var acc := registered;
      var i := 0;
      assert es[0..] == es;
      while i < |es|
        invariant 0 <= i <= |es|
        invariant LoadDeployables(ctx, es, acc, uuids) == LoadDeployables(ctx, es[i..], registered, uuids)
      {
        assert es[i..][1..] == es[i + 1..];
        if TypeIs(es[i].value, Deployable) {
          var built := Build(ctx, es[i].cls, es[i].value, |registered|);
          if built.None? { return false; }
          ok := RegisterResource(built.value, ctx.areas, uuids(|registered|));
          if !ok { return; }
        }
        i := i + 1;
      }
      ok := true;
    }

    /** The second pass over the saved registry; false when it raises. */
    method RegisterConfigurations(ctx: Context, es: seq<Entry>, uuids: nat -> string) returns (ok: bool)
      requires forall i :: 0 <= i < |es| ==> FromDict(es[i].value)
      modifies this`registered
      ensures match LoadConfigurations(ctx, es, old(registered), uuids)
              case Some(all) => ok && registered == all
              case None => !ok
    {
      ghost var acc := registered;
      var i := 0;
      assert es[0..] == es;
      while i < |es|
        invariant 0 <= i <= |es|
        invariant LoadConfigurations(ctx, es, acc, uuids) == LoadConfigurations(ctx, es[i..], registered, uuids)
      {
        assert es[i..][1..] == es[i + 1..];
        if TypeIs(es[i].value, Configuration) {
          var inner := new Document(es[i].value);
          ok := inner.OverrideReferences(RegMap(registered));
          if !ok { return; }
          var built := Build(ctx, es[i].cls, inner.root, |registered|);
          if built.None? { return false; }
          ok := RegisterResource(built.value, ctx.areas, uuids(|registered|));
          if !ok { return; }
        }
        i := i + 1;
      }
      ok := true;
    }
  }

  /** A dictionary read from the database. */
  ghost predicate FromDict(v: Value) { v.Node? && Plainly(v) && Wf(v) }

  /** The state with its references resolved, if it is valid. */
  method LoadState(ctx: Context, saved: Value, reg: map<string, Value>) returns (ok: bool, v: Option<Value>)
    requires saved.Node? && Plainly(saved) && Wf(saved)
    ensures ok == Resolved(saved, reg).1 && (ok ==> v == Validate(ctx.state, Resolved(saved, reg).0))
  {
    var dict := new Document(saved);
    ok := dict.OverrideReferences(reg);
    if !ok { return false, None; }
    v := Validate(ctx.state, dict.root);
  }

  method FromDb(ctx: Context, doc: Saved, uuids: nat -> string) returns (b: Option<Blueprint>)
    requires doc.state.Node? && Plainly(doc.state) && Wf(doc.state)
    requires forall i :: 0 <= i < |doc.registered| ==> FromDict(doc.registered[i].value)
    ensures match LoadedFrom(ctx, doc, uuids)
            case None => b.None?
            case Some(l) => && b.Some? && fresh(b.value)
                            && b.value.registered == l.registered
                            && b.value.state == l.state
                            && b.value.corrupted == l.corrupted
  {
    hide LoadDeployables, LoadConfigurations, Resolved, Validate, Plainly, Wf, RegMap;
    var instance := new Blueprint([], ctx.empty, doc.corrupted);
    var ok := instance.RegisterDeployables(ctx, doc.registered, uuids);
    if !ok { return None; }
    ok := instance.RegisterConfigurations(ctx, doc.registered, uuids);
    if !ok { return None; }
    var state;
    ok, state := LoadState(ctx, doc.state, RegMap(instance.registered));
    if !ok { return None; }
    if state.Some? { instance.state := state.value; } else { instance.corrupted := true; }
    b := Some(instance);
  }

  // ------------------------------------------------ when a save is corrupted

  /** Every resource met by a save is registered. */
  ghost predicate AllRegistered(es: seq<Entry>, state: Value) {
    AllKnown(Resources, state, Ids(es)) && KnownFrom(es, 0, Ids(es))
  }

  /** The configurations from k on have all that they hold registered. */
  ghost predicate KnownFrom(es: seq<Entry>, k: nat, ids: set<string>) {
    forall i :: k <= i < |es| && IsConfiguration(es[i].value) ==> AllKnown(Deployables, es[i].value, ids)
  }

  function CutEntries(es: seq<Entry>): (out: seq<Entry>)
    ensures |out| == |es|
  {
    if es == [] then []
    else [CutEntry(es[0])] + CutEntries(es[1..])
  }

  function CutEntry(e: Entry): Entry {
    e.(value := if IsConfiguration(e.value) then Cut(Deployables, e.value) else Dump(e.value))
  }

  lemma KnownTail(es: seq<Entry>, ids: set<string>)
    requires es != []
    ensures KnownFrom(es[1..], 0, ids) <==> KnownFrom(es, 1, ids)
  {
    var rest := es[1..];
    assert forall i :: 0 <= i < |rest| ==> rest[i] == es[i + 1];
    if KnownFrom(rest, 0, ids) {
      forall i | 1 <= i < |es| && IsConfiguration(es[i].value) ensures AllKnown(Deployables, es[i].value, ids) {
        assert es[i] == rest[i - 1];
      }
    }
  }

  lemma {:induction false} SavedEntriesAre(es: seq<Entry>, ids: set<string>)
    requires TypedEntries(es)
    ensures SavedEntries(es, ids).1 <==> KnownFrom(es, 0, ids)
    ensures SavedEntries(es, ids).1 ==> SavedEntries(es, ids).0 == CutEntries(es)
  {
    if es != [] {
      SavedEntriesAre(es[1..], ids);
      KnownTail(es, ids);
      OverriddenIsCut(Deployables, es[0].value, ids);
    }
  }

  /**
   * A save is flagged corrupted exactly when the blueprint already was or some resource in the state
   * or in a configuration, nested ones included, is not registered. Otherwise every branch of the
   * state is cut at its outermost resource, and every configuration at its deployables.
   */
  lemma CorruptedExactlyWhen(es: seq<Entry>, state: Value, corrupted: bool)
    requires Typed(state) && TypedEntries(es)
    ensures SavedOf(es, state, corrupted).corrupted <==> corrupted || !AllRegistered(es, state)
    ensures AllRegistered(es, state) ==>
              SavedOf(es, state, corrupted) == Saved(CutEntries(es), Cut(Resources, state), corrupted)
  {
    OverriddenIsCut(Resources, state, Ids(es));
    SavedEntriesAre(es, Ids(es));
  }

  // ---------------------------------------------------------- the round trip

  /** A registered resource that a save can carry. */
  ghost predicate GoodEntry(ctx: Context, e: Entry, reg: map<string, Value>) {
    && e.value.Node? && e.value.tag.ResourceTag? && e.value.tag.cls == e.cls
    && IdOf(e.value) == Some(e.id) && e.id != "" && NoRefInside(e.id)
    && e.cls in ctx.classes && ctx.classes[e.cls].kind == e.value.tag.kind
    && ConformsFields(ctx.classes[e.cls].fields, e.value.kids)
    && Typed(e.value) && TypeIs(e.value, e.value.tag.kind)
    && match e.value.tag.kind
       case Plain => false
       case Deployable => NoResourceKids(e.value.kids) && HasVim(e.value, ctx.areas)
       case Configuration =>
         && LinkedKids(e.value.kids, reg) && CleanKids(e.value.kids)
         && OnlyFamilyKids(Deployables, e.value.kids)
  }

  ghost predicate GoodRegistry(ctx: Context, es: seq<Entry>) {
    && DistinctIds(es)
    && forall i :: 0 <= i < |es| ==> GoodEntry(ctx, es[i], RegMap(es))
  }

  /** Every resource in the state, nested ones included, has a registered id; the outermost the class, too. */
  ghost predicate GoodState(ctx: Context, es: seq<Entry>, state: Value) {
    && Typed(state) && Conforms(ctx.state, state) && Clean(state)
    && state.Node? && !state.tag.ResourceTag?
    && DeepKnown(state, Ids(es)) && Fits(state, RegMap(es))
  }

  /** That is so when each outermost resource is the very object registered under its id. */
  lemma LinkedIsGood(ctx: Context, es: seq<Entry>, state: Value)
    requires GoodRegistry(ctx, es) && Linked(state, RegMap(es))
    ensures DeepKnown(state, Ids(es)) && Fits(state, RegMap(es)) && Copies(state, RegMap(es))
  {
    LinkedIsDeep(ctx, es, state);
    LinkedCopies(state, RegMap(es));
  }

  /** Nested occurrences included, a good blueprint only refers to registered resources. */
  lemma {:induction false} LinkedIsDeep(ctx: Context, es: seq<Entry>, v: Value)
    requires GoodRegistry(ctx, es) && Linked(v, RegMap(es))
    ensures DeepKnown(v, Ids(es))
    decreases v, 0
  {
    if v.Node? {
      if v.tag.ResourceTag? {
        RegMapOf(es, IdOf(v).value);
        var i :| 0 <= i < |es| && es[i].id == IdOf(v).value && es[i].value == v;
        assert GoodEntry(ctx, es[i], RegMap(es));
        if v.tag.kind == Deployable {
          NoResourceDeep(v.kids, Ids(es));
        } else {
          LinkedIsDeepKids(ctx, es, v.kids);
        }
      } else {
        LinkedIsDeepKids(ctx, es, v.kids);
      }
    }
  }

  lemma {:induction false} LinkedIsDeepKids(ctx: Context, es: seq<Entry>, kids: Kids)
    requires GoodRegistry(ctx, es) && LinkedKids(kids, RegMap(es))
    ensures DeepKnownKids(kids, Ids(es))
    decreases kids, 1
  {
    if kids.Kid? {
      LinkedIsDeep(ctx, es, kids.val);
      LinkedIsDeepKids(ctx, es, kids.rest);
    }
  }

  /** So its save is not corrupted. */
  lemma GoodIsRegistered(ctx: Context, es: seq<Entry>, state: Value)
    requires GoodRegistry(ctx, es) && GoodState(ctx, es, state)
    ensures AllRegistered(es, state) && TypedEntries(es)
  {
    DeepKnownAll(Resources, state, Ids(es));
    forall i | 0 <= i < |es| && IsConfiguration(es[i].value)
      ensures AllKnown(Deployables, es[i].value, Ids(es))
    {
      assert GoodEntry(ctx, es[i], RegMap(es));
      LinkedIsDeepKids(ctx, es, es[i].value.kids);
      assert es[i] in es;
      DeepKnownAll(Deployables, es[i].value, Ids(es));
    }
    forall i | 0 <= i < |es| ensures Typed(es[i].value) { assert GoodEntry(ctx, es[i], RegMap(es)); }
  }

  /** What has been loaded so far of the registry whose resources are reg. */
  ghost predicate Partial(acc: seq<Entry>, reg: map<string, Value>) {
    && DistinctIds(acc)
    && OwnIds(RegMap(acc))
    && Agree(reg, RegMap(acc))
    && forall k :: 0 <= k < |acc| ==> LoadedEntry(acc[k], k, reg, RegMap(acc))
  }

  /** An entry loaded as object number k: the one saved, up to identity, linked to the loaded registry. */
  ghost predicate LoadedEntry(e: Entry, k: nat, reg: map<string, Value>, loaded: map<string, Value>) {
    && e.value.Node? && e.value.tag.ResourceTag?
    && e.value.tag.handle == Slot(k) && e.value.tag.cls == e.cls
    && IdOf(e.value) == Some(e.id)
    && e.id in reg && Erase(e.value) == Erase(reg[e.id])
    && (IsConfiguration(e.value) ==> LinkedKids(e.value.kids, loaded))
  }

  lemma LoadedEntryGrows(e: Entry, k: nat, reg: map<string, Value>, m: map<string, Value>, m': map<string, Value>)
    requires LoadedEntry(e, k, reg, m)
    requires forall id :: id in m ==> id in m' && m'[id] == m[id]
    ensures LoadedEntry(e, k, reg, m')
  {
    if IsConfiguration(e.value) { LinkedGrowsKids(e.value.kids, m, m'); }
  }

  lemma RegistryGrows(m: map<string, Value>, id: string, v: Value, reg: map<string, Value>)
    requires OwnIds(m) && Agree(reg, m) && id !in m
    requires v.Node? && v.tag.ResourceTag? && IdOf(v) == Some(id) && id in reg && Erase(v) == Erase(reg[id])
    ensures OwnIds(m[id := v]) && Agree(reg, m[id := v])
  {
  }

  lemma PartialGrows(acc: seq<Entry>, e: Entry, reg: map<string, Value>)
    requires Partial(acc, reg) && e.id !in Ids(acc)
    requires LoadedEntry(e, |acc|, reg, RegMap(acc))
    ensures Partial(acc + [e], reg)
    ensures Ids(acc + [e]) == Ids(acc) + {e.id}
  {
    RegMapAppend(acc, e);
    RegistryGrows(RegMap(acc), e.id, e.value, reg);
    DistinctIdsAppend(acc, e);
    EntriesGrow(acc, e, reg);
  }

  lemma EntriesGrow(acc: seq<Entry>, e: Entry, reg: map<string, Value>)
    requires e.id !in Ids(acc)
    requires forall k :: 0 <= k < |acc| ==> LoadedEntry(acc[k], k, reg, RegMap(acc))
    requires LoadedEntry(e, |acc|, reg, RegMap(acc))
    ensures var all := acc + [e]; forall k :: 0 <= k < |all| ==> LoadedEntry(all[k], k, reg, RegMap(all))
  {
    var all := acc + [e];
    RegMapAppend(acc, e);
    forall k | 0 <= k < |all| ensures LoadedEntry(all[k], k, reg, RegMap(all)) {
      assert all[k] == if k < |acc| then acc[k] else e;
      LoadedEntryGrows(all[k], k, reg, RegMap(acc), RegMap(all));
    }
  }

  lemma DistinctIdsAppend(acc: seq<Entry>, e: Entry)
    requires DistinctIds(acc) && e.id !in Ids(acc)
    ensures DistinctIds(acc + [e])
    ensures Ids(acc + [e]) == Ids(acc) + {e.id}
  {
    assert forall i :: 0 <= i < |acc| ==> acc[i] in acc;
    var all := acc + [e];
    forall id ensures id in Ids(all) <==> id in Ids(acc) || id == e.id {
      if id in Ids(acc) {
        var x :| x in acc && x.id == id;
        assert x in all;
      }
      assert e in all;
    }
  }

  /** A relinked resource keeps the keys it had, hence its id and its type. */
  lemma {:induction false} RelinkLookup(kids: Kids, reg: map<string, Value>, key: Key)
    ensures Lookup(RelinkKids(kids, reg), key)
            == match Lookup(kids, key) case Some(v) => Some(Relink(v, reg)) case None => None
  {
    if kids.Kid? { RelinkLookup(kids.rest, reg, key); }
  }

  /** A deployable is built again from its dump. */
  lemma BuildsDeployable(ctx: Context, e: Entry, reg: map<string, Value>, acc: seq<Entry>)
    requires GoodEntry(ctx, e, reg) && e.value.tag.kind == Deployable && e.id in reg && reg[e.id] == e.value
    ensures var v := e.value.(tag := e.value.tag.(handle := Slot(|acc|)));
            && Build(ctx, e.cls, Dump(e.value), |acc|) == Some(v)
            && LoadedEntry(Entry(e.id, e.cls, v), |acc|, reg, RegMap(acc))
            && (e.id !in Ids(acc) ==>
                  forall uuid :: Register(acc, v, ctx.areas, uuid) == Some(acc + [Entry(e.id, e.cls, v)]))
  {
    NothingToLinkKids(e.value.kids, map[]);
    var fields := ctx.classes[e.cls].fields;
    ValidateThawFields(fields, e.value.kids, ThawKids(e.value.kids, map[]), map[]);
  }

  /** Resolving the references of a saved configuration puts the loaded deployables back. */
  lemma ResolvesConfiguration(e: Entry, reg: map<string, Value>, loaded: map<string, Value>)
    requires IsConfiguration(e.value) && Typed(e.value)
    requires LinkedKids(e.value.kids, reg) && CleanKids(e.value.kids) && OnlyFamilyKids(Deployables, e.value.kids)
    requires GoodIds(reg.Keys) && IdsInKids(e.value.kids, loaded.Keys)
    ensures Resolved(CutEntry(e).value, loaded) == (Node(DictTag, ThawKids(e.value.kids, loaded)), true)
    ensures FromDict(CutEntry(e).value)
  {
    var d := Cut(Deployables, e.value);
    CutKeepsWf(Deployables, e.value);
    CutsToDict(e.value);
    LinkedIdsKids(e.value.kids, reg);
    ResolveCutIsThawKids(Deployables, e.value.kids, reg.Keys, loaded);
    ResolvedWhole(d, loaded);
  }

  lemma ResolvedWhole(d: Value, reg: map<string, Value>)
    requires Wf(d) && AllRefsIn(d, reg)
    ensures Resolved(d, reg) == (Resolve(d, reg), true)
  {
    AllRefsResolve(d, reg);
    ResolvedIsResolve(d, reg);
  }

  /** A configuration itself is no deployable: it is cut to a dictionary. */
  lemma CutsToDict(v: Value)
    requires IsConfiguration(v) && Typed(v)
    ensures Cut(Deployables, v) == Node(DictTag, CutKids(Deployables, v.kids))
  {
  }

  lemma AllRefsResolve(d: Value, reg: map<string, Value>)
    requires AllRefsIn(d, reg)
    ensures AllResolvable(d, reg)
  {
    forall p | Get(d, p).Some? && Hits(Target.References, Get(d, p).value)
      ensures RefId(Get(d, p).value.s) in reg
    {
      AllRefsAt(d, reg, p);
    }
  }

  /** The resource loaded for e as object number k. */
  function Reloaded(e: Entry, k: nat, loaded: map<string, Value>): Entry
    requires e.value.Node? && e.value.tag.ResourceTag?
  {
    e.(value := Node(ResourceTag(e.cls, e.value.tag.kind, Slot(k)),
                     if IsConfiguration(e.value) then RelinkKids(e.value.kids, loaded) else e.value.kids))
  }

  lemma ReloadedIsLoaded(e: Entry, reg: map<string, Value>, acc: seq<Entry>)
    requires IsConfiguration(e.value) && e.value.tag.cls == e.cls && IdOf(e.value) == Some(e.id)
    requires e.id in reg && reg[e.id] == e.value
    requires LinkedKids(e.value.kids, reg) && IdsInKids(e.value.kids, Ids(acc))
    requires Partial(acc, reg)
    ensures LoadedEntry(Reloaded(e, |acc|, RegMap(acc)), |acc|, reg, RegMap(acc))
  {
    LinkedIdsKids(e.value.kids, reg);
    LinkedCopiesKids(e.value.kids, reg);
    RelinkSameKids(e.value.kids, reg, RegMap(acc));
    RelinkLinksKids(e.value.kids, RegMap(acc));
    RelinkLookup(e.value.kids, RegMap(acc), Name("id"));
  }

  lemma RegistersReloaded(e: Entry, k: nat, m: map<string, Value>, acc: seq<Entry>, areas: set<int>, uuid: string)
    requires IsConfiguration(e.value) && IdOf(e.value) == Some(e.id) && e.id != "" && e.id !in Ids(acc)
    ensures Register(acc, Reloaded(e, k, m).value, areas, uuid) == Some(acc + [Reloaded(e, k, m)])
  {
    RelinkLookup(e.value.kids, m, Name("id"));
  }

  /** A configuration is built again from its dump once its references are resolved. */
  lemma BuildsConfiguration(ctx: Context, e: Entry, reg: map<string, Value>, acc: seq<Entry>)
    requires GoodEntry(ctx, e, reg) && e.value.tag.kind == Configuration && e.id in reg && reg[e.id] == e.value
    requires Partial(acc, reg) && IdsInKids(e.value.kids, Ids(acc))
    ensures Build(ctx, e.cls, Node(DictTag, ThawKids(e.value.kids, RegMap(acc))), |acc|)
            == Some(Reloaded(e, |acc|, RegMap(acc)).value)
  {
    var loaded, kids := RegMap(acc), e.value.kids;
    LinkedCopiesKids(kids, reg);
    FitsFromKids(kids, reg, loaded);
    ValidateThawFields(ctx.classes[e.cls].fields, kids, ThawKids(kids, loaded), loaded);
  }

  // The two passes, entry by entry.

  /** The saved entries of a good registry, from i on. */
  ghost function CutFrom(es: seq<Entry>, i: nat): seq<Entry>
    requires i <= |es|
  {
    CutEntries(es[i..])
  }

  lemma CutFromStep(es: seq<Entry>, i: nat)
    requires i < |es|
    ensures CutFrom(es, i) == [CutEntry(es[i])] + CutFrom(es, i + 1)
  {
    assert es[i..][1..] == es[i + 1..];
  }

  function IdsOfKind(es: seq<Entry>, i: nat, kind: Kind): set<string>
    requires i <= |es|
  {
    set k | i <= k < |es| && es[k].value.Node? && es[k].value.tag.ResourceTag? && es[k].value.tag.kind == kind
      :: es[k].id
  }

  lemma CutEntryType(ctx: Context, e: Entry, reg: map<string, Value>, kind: Kind)
    requires GoodEntry(ctx, e, reg)
    ensures TypeIs(CutEntry(e).value, kind) <==> e.value.tag.kind == kind
  {
    CutLookup(Deployables, e.value.kids, Name("type"));
    DumpLookup(e.value.kids, Name("type"));
  }

  lemma {:induction false} CutLookup(t: Target, kids: Kids, key: Key)
    ensures Lookup(CutKids(t, kids), key) == match Lookup(kids, key) case Some(v) => Some(Cut(t, v)) case None => None
  {
    if kids.Kid? { CutLookup(t, kids.rest, key); }
  }

  lemma {:induction false} DumpLookup(kids: Kids, key: Key)
    ensures Lookup(DumpKids(kids), key) == match Lookup(kids, key) case Some(v) => Some(Dump(v)) case None => None
  {
    if kids.Kid? { DumpLookup(kids.rest, key); }
  }

  /** The ids from i on are not among those already loaded. */
  ghost predicate Ahead(es: seq<Entry>, i: nat, acc: seq<Entry>, kind: Kind)
    requires i <= |es|
  {
    IdsOfKind(es, i, kind) !! Ids(acc)
  }

  lemma KindStep(es: seq<Entry>, i: nat, kind: Kind)
    requires i < |es| && es[i].value.Node? && es[i].value.tag.ResourceTag?
    ensures IdsOfKind(es, i, kind)
            == (if es[i].value.tag.kind == kind then {es[i].id} else {}) + IdsOfKind(es, i + 1, kind)
    ensures DistinctIds(es) ==> es[i].id !in IdsOfKind(es, i + 1, kind)
  {
    var s, t := IdsOfKind(es, i, kind), IdsOfKind(es, i + 1, kind);
    forall id ensures id in s <==> (es[i].value.tag.kind == kind && id == es[i].id) || id in t {
      if id in s {
        var k :| i <= k < |es| && es[k].value.Node? && es[k].value.tag.ResourceTag?
                 && es[k].value.tag.kind == kind && es[k].id == id;
        assert k == i || i + 1 <= k;
      }
    }
  }

  lemma AheadNow(ctx: Context, es: seq<Entry>, i: nat, acc: seq<Entry>, kind: Kind)
    requires GoodRegistry(ctx, es) && i < |es| && Ahead(es, i, acc, kind)
    ensures es[i].value.Node? && es[i].value.tag.ResourceTag?
    ensures es[i].value.tag.kind == kind ==> es[i].id !in Ids(acc)
  {
    assert GoodEntry(ctx, es[i], RegMap(es));
    KindStep(es, i, kind);
  }

  lemma AheadNext(ctx: Context, es: seq<Entry>, i: nat, acc: seq<Entry>, next: seq<Entry>, kind: Kind)
    requires GoodRegistry(ctx, es) && i < |es| && Ahead(es, i, acc, kind)
    requires es[i].value.Node? && es[i].value.tag.ResourceTag?
    requires Ids(next) == Ids(acc) + if es[i].value.tag.kind == kind then {es[i].id} else {}
    ensures Ahead(es, i + 1, next, kind)
    ensures Ids(next) + IdsOfKind(es, i + 1, kind) == Ids(acc) + IdsOfKind(es, i, kind)
  {
    KindStep(es, i, kind);
  }

  /** One turn of the first pass. */
  lemma DeployableTurn(ctx: Context, es: seq<Entry>, i: nat, acc: seq<Entry>, uuids: nat -> string)
    returns (next: seq<Entry>)
    requires GoodRegistry(ctx, es) && i < |es| && es[i].value.Node? && es[i].value.tag.ResourceTag?
    requires Partial(acc, RegMap(es)) && (es[i].value.tag.kind == Deployable ==> es[i].id !in Ids(acc))
    ensures LoadDeployables(ctx, CutFrom(es, i), acc, uuids) == LoadDeployables(ctx, CutFrom(es, i + 1), next, uuids)
    ensures Partial(next, RegMap(es))
    ensures Ids(next) == Ids(acc) + if es[i].value.tag.kind == Deployable then {es[i].id} else {}
  {
    var e, reg := es[i], RegMap(es);
    assert GoodEntry(ctx, e, reg);
    CutFromStep(es, i);
    DeployableNext(ctx, CutEntry(e), CutFrom(es, i + 1), acc, uuids);
    CutEntryType(ctx, e, reg, Deployable);
    if e.value.tag.kind == Deployable {
      DeployableReady(ctx, es, i, acc, uuids(|acc|));
      next := acc + [Entry(e.id, e.cls, e.value.(tag := e.value.tag.(handle := Slot(|acc|))))];
    } else {
      next := acc;
    }
  }

  /** A saved deployable is built and registered as what was saved. */
  lemma DeployableReady(ctx: Context, es: seq<Entry>, i: nat, acc: seq<Entry>, uuid: string)
    requires GoodRegistry(ctx, es) && i < |es| && es[i].value.Node? && es[i].value.tag.ResourceTag?
    requires Partial(acc, RegMap(es)) && es[i].id !in Ids(acc) && es[i].value.tag.kind == Deployable
    ensures var e := es[i];
            var loaded := Entry(e.id, e.cls, e.value.(tag := e.value.tag.(handle := Slot(|acc|))));
            && Build(ctx, e.cls, Dump(e.value), |acc|) == Some(loaded.value)
            && Register(acc, loaded.value, ctx.areas, uuid) == Some(acc + [loaded])
            && Partial(acc + [loaded], RegMap(es)) && Ids(acc + [loaded]) == Ids(acc) + {e.id}
  {
    var e, reg := es[i], RegMap(es);
    assert GoodEntry(ctx, e, reg);
    RegMapAt(es, i);
    BuildsDeployable(ctx, e, reg, acc);
    PartialGrows(acc, Entry(e.id, e.cls, e.value.(tag := e.value.tag.(handle := Slot(|acc|)))), reg);
  }

  lemma {:induction false} LoadsDeployables(ctx: Context, es: seq<Entry>, i: nat, acc: seq<Entry>, uuids: nat -> string)
    returns (all: seq<Entry>)
    requires GoodRegistry(ctx, es) && i <= |es|
    requires Partial(acc, RegMap(es)) && Ahead(es, i, acc, Deployable)
    ensures LoadDeployables(ctx, CutFrom(es, i), acc, uuids) == Some(all)
    ensures Partial(all, RegMap(es)) && Ids(all) == Ids(acc) + IdsOfKind(es, i, Deployable)
    decreases |es| - i
  {
    if i == |es| {
      assert CutFrom(es, i) == [] && IdsOfKind(es, i, Deployable) == {};
      all := acc;
    } else {
      AheadNow(ctx, es, i, acc, Deployable);
      var next := DeployableTurn(ctx, es, i, acc, uuids);
      AheadNext(ctx, es, i, acc, next, Deployable);
      all := LoadsDeployables(ctx, es, i + 1, next, uuids);
    }
  }

  /** One turn of the second pass. */
  lemma ConfigurationTurn(ctx: Context, es: seq<Entry>, i: nat, acc: seq<Entry>, uuids: nat -> string)
    returns (next: seq<Entry>)
    requires GoodRegistry(ctx, es) && i < |es| && es[i].value.Node? && es[i].value.tag.ResourceTag?
    requires Partial(acc, RegMap(es)) && (es[i].value.tag.kind == Configuration ==> es[i].id !in Ids(acc))
    requires IdsOfKind(es, 0, Deployable) <= Ids(acc)
    ensures LoadConfigurations(ctx, CutFrom(es, i), acc, uuids)
            == LoadConfigurations(ctx, CutFrom(es, i + 1), next, uuids)
    ensures Partial(next, RegMap(es))
    ensures Ids(next) == Ids(acc) + if es[i].value.tag.kind == Configuration then {es[i].id} else {}
  {
    var e, reg := es[i], RegMap(es);
    assert GoodEntry(ctx, e, reg);
    CutFromStep(es, i);
    CutEntryType(ctx, e, reg, Configuration);
    if e.value.tag.kind == Configuration {
      ConfigurationReady(ctx, es, i, acc, uuids(|acc|));
      next := acc + [Reloaded(e, |acc|, RegMap(acc))];
      LoadsOne(ctx, CutEntry(e), CutFrom(es, i + 1), acc, next, uuids);
    } else {
      next := acc;
    }
  }

  /** What the second pass does with a configuration that resolves, builds and registers. */
  lemma LoadsOne(ctx: Context, e: Entry, rest: seq<Entry>, acc: seq<Entry>, next: seq<Entry>, uuids: nat -> string)
    requires TypeIs(e.value, Configuration)
    requires Resolved(e.value, RegMap(acc)).1
    requires var v := Build(ctx, e.cls, Resolved(e.value, RegMap(acc)).0, |acc|);
             v.Some? && Register(acc, v.value, ctx.areas, uuids(|acc|)) == Some(next)
    ensures LoadConfigurations(ctx, [e] + rest, acc, uuids) == LoadConfigurations(ctx, rest, next, uuids)
  {
    assert ([e] + rest)[1..] == rest;
  }

  /** A saved configuration is resolved, built and registered as what was saved. */
  lemma ConfigurationReady(ctx: Context, es: seq<Entry>, i: nat, acc: seq<Entry>, uuid: string)
    requires GoodRegistry(ctx, es) && i < |es| && es[i].value.Node? && es[i].value.tag.ResourceTag?
    requires Partial(acc, RegMap(es)) && es[i].id !in Ids(acc) && es[i].value.tag.kind == Configuration
    requires IdsOfKind(es, 0, Deployable) <= Ids(acc)
    ensures var (e, loaded) := (es[i], Reloaded(es[i], |acc|, RegMap(acc)));
            var d := Node(DictTag, ThawKids(e.value.kids, RegMap(acc)));
            && Resolved(CutEntry(e).value, RegMap(acc)) == (d, true) && FromDict(CutEntry(e).value)
            && Build(ctx, e.cls, d, |acc|) == Some(loaded.value)
            && Register(acc, loaded.value, ctx.areas, uuid) == Some(acc + [loaded])
            && Partial(acc + [loaded], RegMap(es)) && Ids(acc + [loaded]) == Ids(acc) + {e.id}
  {
    var e, reg := es[i], RegMap(es);
    assert GoodEntry(ctx, e, reg);
    RegMapAt(es, i);
    GoodRegistryIds(ctx, es);
    DeployablesLoaded(ctx, es, e.value.kids, Ids(acc));
    ResolvesConfiguration(e, reg, RegMap(acc));
    BuildsConfiguration(ctx, e, reg, acc);
    RegistersReloaded(e, |acc|, RegMap(acc), acc, ctx.areas, uuid);
    ReloadedIsLoaded(e, reg, acc);
    PartialGrows(acc, Reloaded(e, |acc|, RegMap(acc)), reg);
  }

  lemma {:induction false} LoadsConfigurations(ctx: Context, es: seq<Entry>, i: nat, acc: seq<Entry>,
                                               uuids: nat -> string)
    returns (all: seq<Entry>)
    requires GoodRegistry(ctx, es) && i <= |es|
    requires Partial(acc, RegMap(es)) && Ahead(es, i, acc, Configuration)
    requires IdsOfKind(es, 0, Deployable) <= Ids(acc)
    ensures LoadConfigurations(ctx, CutFrom(es, i), acc, uuids) == Some(all)
    ensures Partial(all, RegMap(es)) && Ids(all) == Ids(acc) + IdsOfKind(es, i, Configuration)
    decreases |es| - i
  {
    if i == |es| {
      assert CutFrom(es, i) == [] && IdsOfKind(es, i, Configuration) == {};
      all := acc;
    } else {
      AheadNow(ctx, es, i, acc, Configuration);
      var next := ConfigurationTurn(ctx, es, i, acc, uuids);
      AheadNext(ctx, es, i, acc, next, Configuration);
      all := LoadsConfigurations(ctx, es, i + 1, next, uuids);
    }
  }

  lemma GoodRegistryIds(ctx: Context, es: seq<Entry>)
    requires GoodRegistry(ctx, es)
    ensures GoodIds(RegMap(es).Keys)
  {
    forall id | id in RegMap(es) ensures NoRefInside(id) {
      RegMapOf(es, id);
      var i :| 0 <= i < |es| && es[i].id == id;
      assert GoodEntry(ctx, es[i], RegMap(es));
    }
  }

  /** The deployables a configuration refers to are loaded by the first pass. */
  lemma {:induction false} DeployablesLoaded(ctx: Context, es: seq<Entry>, kids: Kids, ids: set<string>)
    requires LinkedKids(kids, RegMap(es)) && OnlyFamilyKids(Deployables, kids)
    requires IdsOfKind(es, 0, Deployable) <= ids
    ensures IdsInKids(kids, ids)
    decreases kids, 1
  {
    if kids.Kid? {
      DeployableLoaded(ctx, es, kids.val, ids);
      DeployablesLoaded(ctx, es, kids.rest, ids);
    }
  }

  lemma {:induction false} DeployableLoaded(ctx: Context, es: seq<Entry>, v: Value, ids: set<string>)
    requires Linked(v, RegMap(es)) && OnlyFamily(Deployables, v)
    requires IdsOfKind(es, 0, Deployable) <= ids
    ensures IdsIn(v, ids)
    decreases v, 0
  {
    if v.Node? {
      if v.tag.ResourceTag? {
        RegMapOf(es, IdOf(v).value);
        var i :| 0 <= i < |es| && es[i].id == IdOf(v).value && es[i].value == v;
        assert es[i].id in IdsOfKind(es, 0, Deployable);
      } else {
        DeployablesLoaded(ctx, es, v.kids, ids);
      }
    }
  }

  /** The registry is loaded as it was saved, up to object identity, and the state is linked to it. */
  ghost predicate SameRegistry(es: seq<Entry>, corrupted: bool, l: Loaded) {
    var reg, loaded := RegMap(es), RegMap(l.registered);
    && loaded.Keys == reg.Keys
    && Partial(l.registered, reg)
    && Linked(l.state, loaded)
    && l.corrupted == corrupted
  }

  /**
   * The save/load round trip: the document saved from a good blueprint loads into the same registry
   * and a state in which every occurrence of an id, as in the configurations, is the one object
   * registered under it. The state comes back iff each outermost resource in it looked like that one;
   * a copy that has changed is lost.
   */
  lemma RoundTrip(ctx: Context, es: seq<Entry>, state: Value, corrupted: bool, uuids: nat -> string)
    returns (l: Loaded)
    requires GoodRegistry(ctx, es) && GoodState(ctx, es, state)
    ensures LoadedFrom(ctx, SavedOf(es, state, corrupted), uuids) == Some(l)
    ensures SameRegistry(es, corrupted, l)
    ensures Erase(l.state) == Erase(state) <==> Copies(state, RegMap(es))
  {
    GoodIsRegistered(ctx, es, state);
    CorruptedExactlyWhen(es, state, corrupted);
    var all := RegistryComesBack(ctx, es, uuids);
    var back := StateComesBack(ctx, es, state, all);
    l := Loaded(all, back, corrupted);
  }

  lemma RegistryComesBack(ctx: Context, es: seq<Entry>, uuids: nat -> string) returns (all: seq<Entry>)
    requires GoodRegistry(ctx, es)
    ensures var first := LoadDeployables(ctx, CutEntries(es), [], uuids);
            first.Some? && LoadConfigurations(ctx, CutEntries(es), first.value, uuids) == Some(all)
    ensures Partial(all, RegMap(es)) && Ids(all) == Ids(es)
  {
    assert es[0..] == es;
    assert Partial([], RegMap(es));
    var first := LoadsDeployables(ctx, es, 0, [], uuids);
    KindsAhead(ctx, es, first);
    all := LoadsConfigurations(ctx, es, 0, first, uuids);
    AllKindsLoaded(ctx, es, all);
  }

  lemma KindsAhead(ctx: Context, es: seq<Entry>, first: seq<Entry>)
    requires GoodRegistry(ctx, es) && Ids(first) == IdsOfKind(es, 0, Deployable)
    ensures Ahead(es, 0, first, Configuration)
  {
  }

  lemma AllKindsLoaded(ctx: Context, es: seq<Entry>, all: seq<Entry>)
    requires GoodRegistry(ctx, es)
    requires Ids(all) == IdsOfKind(es, 0, Deployable) + IdsOfKind(es, 0, Configuration)
    ensures Ids(all) == Ids(es)
  {
    forall id | id in Ids(es) ensures id in Ids(all) {
      var e :| e in es && e.id == id;
      var i :| 0 <= i < |es| && es[i] == e;
      assert GoodEntry(ctx, es[i], RegMap(es));
    }
    forall id | id in Ids(all) ensures id in Ids(es) {
      var i :| 0 <= i < |es| && es[i].id == id;
      assert es[i] in es;
    }
  }

  lemma StateComesBack(ctx: Context, es: seq<Entry>, state: Value, all: seq<Entry>) returns (back: Value)
    requires GoodRegistry(ctx, es) && GoodState(ctx, es, state)
    requires Partial(all, RegMap(es)) && Ids(all) == Ids(es)
    ensures var (d, ok) := Resolved(Cut(Resources, state), RegMap(all)); ok && Validate(ctx.state, d) == Some(back)
    ensures Linked(back, RegMap(all)) && (Erase(back) == Erase(state) <==> Copies(state, RegMap(es)))
  {
    var reg, loaded := RegMap(es), RegMap(all);
    CutKeepsWf(Resources, state);
    AnyResourceIsFamily(state);
    GoodRegistryIds(ctx, es);
    FitsIds(state, reg);
    ResolveCutIsThaw(Resources, state, reg.Keys, loaded);
    AllRefsResolve(Cut(Resources, state), loaded);
    ResolvedIsResolve(Cut(Resources, state), loaded);
    FitsFrom(state, reg, loaded);
    ValidateThaw(ctx.state, state, loaded);
    RelinkSame(state, reg, loaded);
    RelinkLinks(state, loaded);
    back := Relink(state, loaded);
  }

  /**
   * Loading the saved registry with any other state: it raises iff some reference in the state is to
   * no registered resource. A state that is not valid is replaced by the empty one and flagged.
   */
  lemma LoadsExactlyWhen(ctx: Context, es: seq<Entry>, doc: Saved, uuids: nat -> string) returns (all: seq<Entry>)
    requires GoodRegistry(ctx, es) && doc.registered == CutEntries(es) && Wf(doc.state)
    ensures Partial(all, RegMap(es)) && Ids(all) == Ids(es)
    ensures LoadedFrom(ctx, doc, uuids).Some? <==> AllResolvable(doc.state, RegMap(all))
    ensures LoadedFrom(ctx, doc, uuids).Some? ==>
              var (l, valid) := (LoadedFrom(ctx, doc, uuids).value,
                                 Validate(ctx.state, Resolve(doc.state, RegMap(all))));
              && l.registered == all && (l.corrupted <==> doc.corrupted || valid.None?)
              && l.state == if valid.Some? then valid.value else ctx.empty
  {
    all := RegistryComesBack(ctx, es, uuids);
    LoadedWith(ctx, doc, uuids, all);
    ResolvedIsResolve(doc.state, RegMap(all));
  }

  /** Once both passes are through, the state decides. */
  lemma LoadedWith(ctx: Context, doc: Saved, uuids: nat -> string, all: seq<Entry>)
    requires var first := LoadDeployables(ctx, doc.registered, [], uuids);
             first.Some? && LoadConfigurations(ctx, doc.registered, first.value, uuids) == Some(all)
    ensures var (r, (d, ok)) := (LoadedFrom(ctx, doc, uuids), Resolved(doc.state, RegMap(all)));
            && (r.Some? <==> ok)
            && (ok ==> r.value == match Validate(ctx.state, d)
                                  case Some(v) => Loaded(all, v, doc.corrupted)
                                  case None => Loaded(all, ctx.empty, true))
  {
  }
}
