/** Typed models: what model_validate makes of a dictionary in which resources have been put back. */
module Schemas {
  import opened Wrappers
  import opened Values
  import opened References

  /** The declared type of a field. */
  datatype Schema =
    | Leaf
    | ListOf(item: Schema)
    | DictOf(item: Schema)
    | OrNone(some: Schema)
    | ModelOf(cls: string, fields: Fields)
    | ResourceOf(cls: string, kind: Kind, subclasses: set<string>, fields: Fields)

  datatype Fields = NoField | Field(name: string, schema: Schema, rest: Fields)

  /** A resource class: its family and its declared fields. */
  datatype Class = Class(kind: Kind, fields: Fields)

  function FieldNames(fields: Fields): set<Key> {
    match fields
    case NoField => {}
    case Field(n, _, rest) => {Name(n)} + FieldNames(rest)
  }

  /** model_validate; None is a ValidationError. An instance of the declared class is kept as it is. */
  function Validate(s: Schema, d: Value): Option<Value>
    decreases s, 0, End
  {
    match s
    case Leaf => if d.Node? then None else Some(d)
    case OrNone(t) => if d.Atom? then Some(d) else Validate(t, d)
    case ListOf(t) =>
      if d.Node? && d.tag.ListTag? then
        match ValidateItems(t, d.kids)
        case Some(kids) => Some(Node(ListTag, kids))
        case None => None
      else None
    case DictOf(t) =>
      if d.Node? && d.tag.DictTag? then
        match ValidateItems(t, d.kids)
        case Some(kids) => Some(Node(DictTag, kids))
        case None => None
      else None
    case ModelOf(cls, fields) =>
      if d.Node? && d.tag == ModelTag(cls) then Some(d)
      else if d.Node? && d.tag.DictTag? then
        match ValidateFields(fields, d.kids)
        case Some(kids) => Some(Node(ModelTag(cls), kids))
        case None => None
      else None
    case ResourceOf(cls, kind, subclasses, fields) =>
      if d.Node? && d.tag.ResourceTag? && d.tag.cls in subclasses then Some(d)
      else if d.Node? && d.tag.DictTag? then
        match ValidateFields(fields, d.kids)
        case Some(kids) => Some(Node(ResourceTag(cls, kind, Inline), kids))
        case None => None
      else None
  }

  function ValidateItems(item: Schema, kids: Kids): Option<Kids>
    decreases item, 1, kids
  {
    match kids
    case End => Some(End)
    case Kid(k, v, rest) =>
      match (Validate(item, v), ValidateItems(item, rest))
      case (Some(v'), Some(rest')) => Some(Kid(k, v', rest'))
      case _ => None
  }

  /** Each declared field is looked up by name; other keys are ignored. */
  function ValidateFields(fields: Fields, kids: Kids): Option<Kids>
    decreases fields, 0, End
  {
    match fields
    case NoField => Some(End)
    case Field(n, s, rest) =>
      match Lookup(kids, Name(n))
      case None => None
      case Some(v) =>
        match (Validate(s, v), ValidateFields(rest, kids))
        case (Some(v'), Some(rest')) => Some(Kid(Name(n), v', rest'))
        case _ => None
  }

  /** v is an object of the declared type; of a resource only the class is asked. */
  ghost predicate Conforms(s: Schema, v: Value)
    decreases s, 0, End
  {
    match s
    case Leaf => !v.Node?
    case OrNone(t) => v.Atom? || Conforms(t, v)
    case ListOf(t) => v.Node? && v.tag.ListTag? && ConformsItems(t, v.kids)
    case DictOf(t) => v.Node? && v.tag.DictTag? && ConformsItems(t, v.kids)
    case ModelOf(cls, fields) => v.Node? && v.tag == ModelTag(cls) && ConformsFields(fields, v.kids)
    case ResourceOf(_, _, subclasses, _) => v.Node? && v.tag.ResourceTag? && v.tag.cls in subclasses
  }

  ghost predicate ConformsItems(item: Schema, kids: Kids)
    decreases item, 1, kids
  {
    kids.Kid? ==> Conforms(item, kids.val) && ConformsItems(item, kids.rest)
  }

  ghost predicate ConformsFields(fields: Fields, kids: Kids)
    decreases fields, 0, End
  {
    match fields
    case NoField => kids.End?
    case Field(n, s, rest) =>
      && kids.Kid? && kids.key == Name(n) && Name(n) !in FieldNames(rest)
      && Conforms(s, kids.val) && ConformsFields(rest, kids.rest)
  }

  // ------------------------------------------ trees linked to a registry

  /** Every outermost resource in v is the very object registered under its id. */
  ghost predicate Linked(v: Value, reg: map<string, Value>) {
    v.Node? ==>
      if v.tag.ResourceTag? then IdOf(v).Some? && IdOf(v).value in reg && reg[IdOf(v).value] == v
      else LinkedKids(v.kids, reg)
  }

  ghost predicate LinkedKids(kids: Kids, reg: map<string, Value>) {
    kids.Kid? ==> Linked(kids.val, reg) && LinkedKids(kids.rest, reg)
  }

  /** No string outside resources looks like a reference. */
  ghost predicate Clean(v: Value) {
    match v
    case Str(s) => !IsRef(s)
    case Atom(_) => true
    case Node(tag, kids) => tag.ResourceTag? || CleanKids(kids)
  }

  ghost predicate CleanKids(kids: Kids) {
    kids.Kid? ==> Clean(kids.val) && CleanKids(kids.rest)
  }

  /** Only resources of the family are met on the way down to the outermost ones. */
  ghost predicate OnlyFamily(t: Target, v: Value) {
    v.Node? ==> if v.tag.ResourceTag? then Hits(t, v) else OnlyFamilyKids(t, v.kids)
  }

  ghost predicate OnlyFamilyKids(t: Target, kids: Kids) {
    kids.Kid? ==> OnlyFamily(t, kids.val) && OnlyFamilyKids(t, kids.rest)
  }

  lemma {:induction false} AnyResourceIsFamily(v: Value)
    ensures OnlyFamily(Resources, v)
    decreases v, 0
  {
    if v.Node? && !v.tag.ResourceTag? { AnyResourceIsFamilyKids(v.kids); }
  }

  lemma {:induction false} AnyResourceIsFamilyKids(kids: Kids)
    ensures OnlyFamilyKids(Resources, kids)
    decreases kids, 1
  {
    if kids.Kid? { AnyResourceIsFamily(kids.val); AnyResourceIsFamilyKids(kids.rest); }
  }

  ghost predicate NoResource(v: Value) {
    v.Node? ==> !v.tag.ResourceTag? && NoResourceKids(v.kids)
  }

  ghost predicate NoResourceKids(kids: Kids) {
    kids.Kid? ==> NoResource(kids.val) && NoResourceKids(kids.rest)
  }

  /** The dump in which each outermost resource is back as the object registered under its id. */
  function Thaw(v: Value, reg: map<string, Value>): Value {
    if v.Node? && v.tag.ResourceTag? then
      if IdOf(v).Some? && IdOf(v).value in reg then reg[IdOf(v).value] else v
    else if v.Node? then Node(if v.tag.ListTag? then ListTag else DictTag, ThawKids(v.kids, reg))
    else v
  }

  function ThawKids(kids: Kids, reg: map<string, Value>): Kids {
    match kids
    case End => End
    case Kid(k, v, rest) => Kid(k, Thaw(v, reg), ThawKids(rest, reg))
  }

  /** The object in which each outermost resource is the one registered under its id in reg. */
  function Relink(v: Value, reg: map<string, Value>): Value {
    if v.Node? && v.tag.ResourceTag? then
      if IdOf(v).Some? && IdOf(v).value in reg then reg[IdOf(v).value] else v
    else if v.Node? then Node(v.tag, RelinkKids(v.kids, reg))
    else v
  }

  function RelinkKids(kids: Kids, reg: map<string, Value>): Kids {
    match kids
    case End => End
    case Kid(k, v, rest) => Kid(k, Relink(v, reg), RelinkKids(rest, reg))
  }

  // -------------------------------------------- cutting and resolving again

  /** Ids that a reference can carry. */
  ghost predicate GoodIds(ids: set<string>) {
    forall id :: id in ids ==> NoRefInside(id)
  }

  lemma {:induction false} ResolveCutIsThaw(t: Target, v: Value, ids: set<string>, reg': map<string, Value>)
    requires t == Resources || t == Deployables
    requires IdsIn(v, ids) && Clean(v) && OnlyFamily(t, v) && GoodIds(ids)
    requires IdsIn(v, reg'.Keys)
    ensures Resolve(Cut(t, v), reg') == Thaw(v, reg')
    ensures Plainly(Cut(t, v)) && AllRefsIn(Cut(t, v), reg')
    decreases v, 0
  {
    if v.Node? {
      if v.tag.ResourceTag? {
        RefIdOfRef(IdOf(v).value);
      } else {
        ResolveCutIsThawKids(t, v.kids, ids, reg');
      }
    }
  }

  lemma {:induction false} ResolveCutIsThawKids(t: Target, kids: Kids, ids: set<string>, reg': map<string, Value>)
    requires t == Resources || t == Deployables
    requires IdsInKids(kids, ids) && CleanKids(kids) && OnlyFamilyKids(t, kids) && GoodIds(ids)
    requires IdsInKids(kids, reg'.Keys)
    ensures ResolveKids(CutKids(t, kids), reg') == ThawKids(kids, reg')
    ensures PlainlyKids(CutKids(t, kids)) && AllRefsInKids(CutKids(t, kids), reg')
    decreases kids, 1
  {
    if kids.Kid? {
      ResolveCutIsThaw(t, kids.val, ids, reg');
      ResolveCutIsThawKids(t, kids.rest, ids, reg');
    }
  }

  /** The ids of the outermost resources. */
  ghost predicate IdsIn(v: Value, ids: set<string>) {
    v.Node? ==> if v.tag.ResourceTag? then IdOf(v).Some? && IdOf(v).value in ids else IdsInKids(v.kids, ids)
  }

  ghost predicate IdsInKids(kids: Kids, ids: set<string>) {
    kids.Kid? ==> IdsIn(kids.val, ids) && IdsInKids(kids.rest, ids)
  }

  lemma {:induction false} LinkedIds(v: Value, reg: map<string, Value>)
    requires Linked(v, reg)
    ensures IdsIn(v, reg.Keys)
    decreases v, 0
  {
    if v.Node? && !v.tag.ResourceTag? { LinkedIdsKids(v.kids, reg); }
  }

  lemma {:induction false} LinkedIdsKids(kids: Kids, reg: map<string, Value>)
    requires LinkedKids(kids, reg)
    ensures IdsInKids(kids, reg.Keys)
    decreases kids, 1
  {
    if kids.Kid? { LinkedIds(kids.val, reg); LinkedIdsKids(kids.rest, reg); }
  }

  /** Every reference in d is in the registry. */
  ghost predicate AllRefsIn(d: Value, reg: map<string, Value>) {
    match d
    case Str(s) => IsRef(s) ==> RefId(s) in reg
    case Atom(_) => true
    case Node(_, kids) => AllRefsInKids(kids, reg)
  }

  ghost predicate AllRefsInKids(kids: Kids, reg: map<string, Value>) {
    kids.Kid? ==> AllRefsIn(kids.val, reg) && AllRefsInKids(kids.rest, reg)
  }

  lemma {:induction false} AllRefsAt(d: Value, reg: map<string, Value>, p: Path)
    requires AllRefsIn(d, reg) && Get(d, p).Some?
    ensures Hits(Target.References, Get(d, p).value) ==> RefId(Get(d, p).value.s) in reg
    decreases |p|
  {
    if p != [] {
      AllRefsLookup(d.kids, reg, p[0]);
      AllRefsAt(Lookup(d.kids, p[0]).value, reg, p[1..]);
    }
  }

  lemma {:induction false} AllRefsLookup(kids: Kids, reg: map<string, Value>, key: Key)
    requires AllRefsInKids(kids, reg) && key in Keys(kids)
    ensures AllRefsIn(Lookup(kids, key).value, reg)
  {
    if kids.key != key { AllRefsLookup(kids.rest, reg, key); }
  }

  lemma {:induction false} DumpKeepsWf(v: Value)
    requires Wf(v)
    ensures Wf(Dump(v))
    decreases v, 0
  {
    if v.Node? { DumpKeepsWfKids(v.kids); }
  }

  lemma {:induction false} DumpKeepsWfKids(kids: Kids)
    requires WfKids(kids)
    ensures WfKids(DumpKids(kids)) && Keys(DumpKids(kids)) == Keys(kids)
    decreases kids, 1
  {
    if kids.Kid? { DumpKeepsWf(kids.val); DumpKeepsWfKids(kids.rest); }
  }

  lemma {:induction false} CutKeepsWf(t: Target, v: Value)
    requires Wf(v)
    ensures Wf(Cut(t, v))
    decreases v, 0
  {
    if Hits(t, v) { DumpKeepsWf(v); } else if v.Node? { CutKeepsWfKids(t, v.kids); }
  }

  lemma {:induction false} CutKeepsWfKids(t: Target, kids: Kids)
    requires WfKids(kids)
    ensures WfKids(CutKids(t, kids)) && Keys(CutKids(t, kids)) == Keys(kids)
    decreases kids, 1
  {
    if kids.Kid? { CutKeepsWf(t, kids.val); CutKeepsWfKids(t, kids.rest); }
  }

  // ------------------------------------------------------- validating again

  /** reg has, under each id, a resource of the class v has there. */
  ghost predicate Fits(v: Value, reg: map<string, Value>) {
    v.Node? ==>
      if v.tag.ResourceTag? then
        && IdOf(v).Some? && IdOf(v).value in reg
        && var r := reg[IdOf(v).value]; r.Node? && r.tag.ResourceTag? && r.tag.cls == v.tag.cls
      else FitsKids(v.kids, reg)
  }

  ghost predicate FitsKids(kids: Kids, reg: map<string, Value>) {
    kids.Kid? ==> Fits(kids.val, reg) && FitsKids(kids.rest, reg)
  }

  /** Validation turns the dump with resources put back into the object linked to them. */
  lemma {:induction false} ValidateThaw(s: Schema, v: Value, reg: map<string, Value>)
    requires Conforms(s, v) && Fits(v, reg)
    ensures Validate(s, Thaw(v, reg)) == Some(Relink(v, reg))
    decreases s, 0, End
  {
    match s
    case Leaf =>
    case OrNone(t) => if !v.Atom? { ValidateThaw(t, v, reg); }
    case ListOf(t) => ValidateThawItems(t, v.kids, reg);
    case DictOf(t) => ValidateThawItems(t, v.kids, reg);
    case ModelOf(cls, fields) => ValidateThawFields(fields, v.kids, ThawKids(v.kids, reg), reg);
    case ResourceOf(_, _, _, _) =>
  }

  lemma {:induction false} ValidateThawItems(item: Schema, kids: Kids, reg: map<string, Value>)
    requires ConformsItems(item, kids) && FitsKids(kids, reg)
    ensures ValidateItems(item, ThawKids(kids, reg)) == Some(RelinkKids(kids, reg))
    decreases item, 1, kids
  {
    if kids.Kid? {
      ValidateThaw(item, kids.val, reg);
      ValidateThawItems(item, kids.rest, reg);
    }
  }

  lemma {:induction false} ValidateThawFields(fields: Fields, kids: Kids, all: Kids, reg: map<string, Value>)
    requires ConformsFields(fields, kids) && FitsKids(kids, reg)
    requires forall k :: k in FieldNames(fields) ==> Lookup(all, k) == Lookup(ThawKids(kids, reg), k)
    ensures ValidateFields(fields, all) == Some(RelinkKids(kids, reg))
    decreases fields, 0, End
  {
    if fields.Field? {
      ValidateThaw(fields.schema, kids.val, reg);
      assert Lookup(all, kids.key) == Some(Thaw(kids.val, reg));
      ValidateThawFields(fields.rest, kids.rest, all, reg);
    }
  }

  // ------------------------------------------------ equality up to identity

  /** The tree with object identities forgotten. */
  function Erase(v: Value): Value {
    if v.Node? then
      Node(match v.tag case ResourceTag(c, k, _) => ResourceTag(c, k, Inline) case tag => tag, EraseKids(v.kids))
    else v
  }

  function EraseKids(kids: Kids): Kids {
    match kids
    case End => End
    case Kid(k, v, rest) => Kid(k, Erase(v), EraseKids(rest))
  }

  /** Two registries agree up to identity where both are defined. */
  ghost predicate Agree(reg: map<string, Value>, reg': map<string, Value>) {
    forall id :: id in reg && id in reg' ==> Erase(reg[id]) == Erase(reg'[id])
  }

  /** Every outermost resource in v looks like the one registered under its id. */
  ghost predicate Copies(v: Value, reg: map<string, Value>) {
    v.Node? ==>
      if v.tag.ResourceTag? then IdOf(v).Some? && IdOf(v).value in reg && Erase(reg[IdOf(v).value]) == Erase(v)
      else CopiesKids(v.kids, reg)
  }

  ghost predicate CopiesKids(kids: Kids, reg: map<string, Value>) {
    kids.Kid? ==> Copies(kids.val, reg) && CopiesKids(kids.rest, reg)
  }

  /** Relinking changes nothing but identities iff the resources looked like those registered. */
  lemma {:induction false} RelinkSame(v: Value, reg: map<string, Value>, reg': map<string, Value>)
    requires IdsIn(v, reg.Keys) && IdsIn(v, reg'.Keys) && Agree(reg, reg')
    ensures Erase(Relink(v, reg')) == Erase(v) <==> Copies(v, reg)
    decreases v, 0
  {
    if v.Node? {
      if v.tag.ResourceTag? {
        assert Erase(reg[IdOf(v).value]) == Erase(reg'[IdOf(v).value]);
      } else {
        RelinkSameKids(v.kids, reg, reg');
      }
    }
  }

  lemma {:induction false} RelinkSameKids(kids: Kids, reg: map<string, Value>, reg': map<string, Value>)
    requires IdsInKids(kids, reg.Keys) && IdsInKids(kids, reg'.Keys) && Agree(reg, reg')
    ensures EraseKids(RelinkKids(kids, reg')) == EraseKids(kids) <==> CopiesKids(kids, reg)
    decreases kids, 1
  {
    if kids.Kid? { RelinkSame(kids.val, reg, reg'); RelinkSameKids(kids.rest, reg, reg'); }
  }

  /** The registered object itself looks like itself, and is of its class. */
  lemma {:induction false} LinkedCopies(v: Value, reg: map<string, Value>)
    requires Linked(v, reg)
    ensures Copies(v, reg) && Fits(v, reg)
    decreases v, 0
  {
    if v.Node? && !v.tag.ResourceTag? { LinkedCopiesKids(v.kids, reg); }
  }

  lemma {:induction false} LinkedCopiesKids(kids: Kids, reg: map<string, Value>)
    requires LinkedKids(kids, reg)
    ensures CopiesKids(kids, reg) && FitsKids(kids, reg)
    decreases kids, 1
  {
    if kids.Kid? { LinkedCopies(kids.val, reg); LinkedCopiesKids(kids.rest, reg); }
  }

  lemma {:induction false} FitsIds(v: Value, reg: map<string, Value>)
    requires Fits(v, reg)
    ensures IdsIn(v, reg.Keys)
    decreases v, 0
  {
    if v.Node? && !v.tag.ResourceTag? { FitsIdsKids(v.kids, reg); }
  }

  lemma {:induction false} FitsIdsKids(kids: Kids, reg: map<string, Value>)
    requires FitsKids(kids, reg)
    ensures IdsInKids(kids, reg.Keys)
    decreases kids, 1
  {
    if kids.Kid? { FitsIds(kids.val, reg); FitsIdsKids(kids.rest, reg); }
  }

  /** Each resource is registered under its own id. */
  ghost predicate OwnIds(reg: map<string, Value>) {
    forall id :: id in reg ==> reg[id].Node? && reg[id].tag.ResourceTag? && IdOf(reg[id]) == Some(id)
  }

  lemma {:induction false} RelinkLinks(v: Value, reg: map<string, Value>)
    requires IdsIn(v, reg.Keys) && OwnIds(reg)
    ensures Linked(Relink(v, reg), reg)
    decreases v, 0
  {
    if v.Node? && !v.tag.ResourceTag? { RelinkLinksKids(v.kids, reg); }
  }

  lemma {:induction false} RelinkLinksKids(kids: Kids, reg: map<string, Value>)
    requires IdsInKids(kids, reg.Keys) && OwnIds(reg)
    ensures LinkedKids(RelinkKids(kids, reg), reg)
    decreases kids, 1
  {
    if kids.Kid? { RelinkLinks(kids.val, reg); RelinkLinksKids(kids.rest, reg); }
  }

  lemma {:induction false} LinkedGrows(v: Value, reg: map<string, Value>, reg': map<string, Value>)
    requires Linked(v, reg) && forall id :: id in reg ==> id in reg' && reg'[id] == reg[id]
    ensures Linked(v, reg')
    decreases v, 0
  {
    if v.Node? && !v.tag.ResourceTag? { LinkedGrowsKids(v.kids, reg, reg'); }
  }

  lemma {:induction false} LinkedGrowsKids(kids: Kids, reg: map<string, Value>, reg': map<string, Value>)
    requires LinkedKids(kids, reg) && forall id :: id in reg ==> id in reg' && reg'[id] == reg[id]
    ensures LinkedKids(kids, reg')
    decreases kids, 1
  {
    if kids.Kid? { LinkedGrows(kids.val, reg, reg'); LinkedGrowsKids(kids.rest, reg, reg'); }
  }

  lemma {:induction false} FitsFrom(v: Value, reg: map<string, Value>, reg': map<string, Value>)
    requires Fits(v, reg) && IdsIn(v, reg'.Keys) && Agree(reg, reg')
    ensures Fits(v, reg')
    decreases v, 0
  {
    if v.Node? {
      if v.tag.ResourceTag? {
        assert Erase(reg[IdOf(v).value]) == Erase(reg'[IdOf(v).value]);
      } else {
        FitsFromKids(v.kids, reg, reg');
      }
    }
  }

  lemma {:induction false} FitsFromKids(kids: Kids, reg: map<string, Value>, reg': map<string, Value>)
    requires FitsKids(kids, reg) && IdsInKids(kids, reg'.Keys) && Agree(reg, reg')
    ensures FitsKids(kids, reg')
    decreases kids, 1
  {
    if kids.Kid? { FitsFrom(kids.val, reg, reg'); FitsFromKids(kids.rest, reg, reg'); }
  }

  /** Where there is no resource there is nothing to put back. */
  lemma {:induction false} NothingToLink(v: Value, reg: map<string, Value>)
    requires NoResource(v)
    ensures Dump(v) == Thaw(v, reg) && Relink(v, reg) == v && Fits(v, reg)
    decreases v, 0
  {
    if v.Node? { NothingToLinkKids(v.kids, reg); }
  }

  lemma {:induction false} NothingToLinkKids(kids: Kids, reg: map<string, Value>)
    requires NoResourceKids(kids)
    ensures DumpKids(kids) == ThawKids(kids, reg) && RelinkKids(kids, reg) == kids && FitsKids(kids, reg)
    decreases kids, 1
  {
    if kids.Kid? { NothingToLink(kids.val, reg); NothingToLinkKids(kids.rest, reg); }
  }

  // ---------------------------------------------------- nested occurrences

  /** Every resource, nested ones included, has an id among ids. */
  ghost predicate DeepKnown(v: Value, ids: set<string>) {
    v.Node? ==>
      && (v.tag.ResourceTag? ==> IdOf(v).Some? && IdOf(v).value in ids)
      && DeepKnownKids(v.kids, ids)
  }

  ghost predicate DeepKnownKids(kids: Kids, ids: set<string>) {
    kids.Kid? ==> DeepKnown(kids.val, ids) && DeepKnownKids(kids.rest, ids)
  }

  lemma {:induction false} NoResourceDeep(kids: Kids, ids: set<string>)
    requires NoResourceKids(kids)
    ensures DeepKnownKids(kids, ids)
  {
    if kids.Kid? {
      if kids.val.Node? { NoResourceDeep(kids.val.kids, ids); }
      NoResourceDeep(kids.rest, ids);
    }
  }

  lemma {:induction false} DeepKnownAll(t: Target, v: Value, ids: set<string>)
    requires DeepKnown(v, ids) && (t == Resources || t == Deployables)
    ensures AllKnown(t, v, ids)
  {
    forall p | Get(v, p).Some? && Hits(t, Get(v, p).value)
      ensures IdOf(Get(v, p).value).Some? && IdOf(Get(v, p).value).value in ids
    {
      DeepKnownAt(v, ids, p);
    }
  }

  lemma {:induction false} DeepKnownAt(v: Value, ids: set<string>, p: Path)
    requires DeepKnown(v, ids) && Get(v, p).Some?
    ensures DeepKnown(Get(v, p).value, ids)
    decreases |p|
  {
    if p != [] {
      DeepKnownLookup(v.kids, ids, p[0]);
      DeepKnownAt(Lookup(v.kids, p[0]).value, ids, p[1..]);
    }
  }

  lemma {:induction false} DeepKnownLookup(kids: Kids, ids: set<string>, key: Key)
    requires DeepKnownKids(kids, ids) && key in Keys(kids)
    ensures DeepKnown(Lookup(kids, key).value, ids)
  {
    if kids.key != key { DeepKnownLookup(kids.rest, ids, key); }
  }
}
