/**
 * PDUs shared by blueprints (src/nfvcl/blueprints_ng/providers/pdu/pdu_provider.py) and their list in
 * the topology (src/nfvcl/models/topology/topology_models.py).
 */
module Pdus {
  import opened Wrappers
  import opened Seqs

  datatype PduType = LINUX | GNB | LWGATEWAY | RU | CUDU | CORE5G

  datatype Pdu = Pdu(name: string, area: int, kind: PduType, instance: string, lockedBy: Option<string>)

  datatype PduError = NotFound | Ambiguous | AlreadyLocked | NotLocked | LockedByAnother | NotInList

  // ------------------------------------------------------------ the PDU lists

  /** Two PDUs are equal when their names are: the first index of that name, or the length. */
  function IndexOf(pdus: seq<Pdu>, name: string): (k: nat)
    ensures k <= |pdus| && (k < |pdus| ==> pdus[k].name == name)
    ensures forall i :: 0 <= i < k ==> pdus[i].name != name
  {
    if pdus == [] || pdus[0].name == name then 0 else 1 + IndexOf(pdus[1..], name)
  }

  ghost predicate UniqueNames(pdus: seq<Pdu>) {
    forall i, j :: 0 <= i < j < |pdus| ==> pdus[i].name != pdus[j].name
  }

  ghost predicate Named(pdus: seq<Pdu>, name: string) {
    exists i :: 0 <= i < |pdus| && pdus[i].name == name
  }

  lemma IndexOfNamed(pdus: seq<Pdu>, name: string)
    ensures IndexOf(pdus, name) < |pdus| <==> Named(pdus, name)
  {
  }

  /** The list with the PDU of the same name replaced. */
  function Updated(pdus: seq<Pdu>, pdu: Pdu): Result<seq<Pdu>, PduError> {
    var k := IndexOf(pdus, pdu.name);
    if k == |pdus| then Err(NotFound) else Ok(pdus[k := pdu])
  }

  /** list.remove: the list without the first PDU of that name. */
  function Dropped(pdus: seq<Pdu>, name: string): seq<Pdu> {
    var k := IndexOf(pdus, name);
    if k == |pdus| then pdus else RemoveAt(pdus, k)
  }

  /** The first PDU of its name is replaced by p. */
  ghost predicate Replaces(before: seq<Pdu>, p: Pdu, after: seq<Pdu>) {
    exists k :: && 0 <= k < |before| && before[k].name == p.name && after == before[k := p]
                && forall i :: 0 <= i < k ==> before[i].name != p.name
  }

  /** The first PDU of that name is taken out. */
  ghost predicate TakesOut(before: seq<Pdu>, name: string, after: seq<Pdu>) {
    exists k :: && 0 <= k < |before| && before[k].name == name && after == before[..k] + before[k + 1..]
                && forall i :: 0 <= i < k ==> before[i].name != name
  }

  lemma UpdatedIs(pdus: seq<Pdu>, p: Pdu)
    ensures match Updated(pdus, p)
            case Ok(ps) => Replaces(pdus, p, ps)
            case Err(e) => e == NotFound && !Named(pdus, p.name)
  {
    var k := IndexOf(pdus, p.name);
    if k < |pdus| { assert pdus[k := p] == pdus[k := p]; }
  }

  lemma DroppedIs(pdus: seq<Pdu>, name: string)
    ensures if Named(pdus, name) then TakesOut(pdus, name, Dropped(pdus, name)) else Dropped(pdus, name) == pdus
  {
    var k := IndexOf(pdus, name);
    if k < |pdus| { assert pdus[k].name == name; }
  }

  lemma DroppedNames(pdus: seq<Pdu>, name: string)
    requires UniqueNames(pdus)
    ensures UniqueNames(Dropped(pdus, name)) && !Named(Dropped(pdus, name), name)
    ensures forall n :: n != name ==> (Named(Dropped(pdus, name), n) <==> Named(pdus, n))
  {
    var k := IndexOf(pdus, name);
    if k < |pdus| {
      RemoveAtIndex(pdus, k);
      forall n | n != name && Named(pdus, n) ensures Named(RemoveAt(pdus, k), n) {
        var i :| 0 <= i < |pdus| && pdus[i].name == n;
        assert RemoveAt(pdus, k)[if i < k then i else i - 1].name == n;
      }
    }
  }

  class PduList {
    var pdus: seq<Pdu>

    constructor (pdus: seq<Pdu>)
      ensures this.pdus == pdus
    {
      this.pdus := pdus;
    }

    method FindPduIndex(name: string) returns (k: nat)
      ensures k == IndexOf(pdus, name)
    {
      k := 0;
      while k < |pdus| && pdus[k].name != name
        invariant k <= |pdus|
        invariant forall i :: 0 <= i < k ==> pdus[i].name != name
      {
        k := k + 1;
      }
    }

    method AddPdu(pdu: Pdu) returns (ok: bool)
      modifies this
      ensures ok <==> !Named(old(pdus), pdu.name)
      ensures pdus == if ok then old(pdus) + [pdu] else old(pdus)
    {
      var k := FindPduIndex(pdu.name);
      ok := k == |pdus|;
      if ok { pdus := pdus + [pdu]; }
    }

    method UpdPdu(pdu: Pdu) returns (res: Result<(), PduError>)
      modifies this
      ensures if Named(old(pdus), pdu.name) then res == Ok(()) && Replaces(old(pdus), pdu, pdus)
              else res == Err(NotFound) && pdus == old(pdus)
      ensures match Updated(old(pdus), pdu)
              case Ok(ps) => res == Ok(()) && pdus == ps
              case Err(e) => res == Err(e) && pdus == old(pdus)
    {
      UpdatedIs(pdus, pdu);
      var k := FindPduIndex(pdu.name);
      if k == |pdus| { return Err(NotFound); }
      pdus := pdus[k := pdu];
      res := Ok(());
    }

    method DelPdu(name: string) returns (res: Result<Pdu, PduError>)
      modifies this
      ensures if Named(old(pdus), name) then res.Ok? && res.value.name == name && TakesOut(old(pdus), name, pdus)
              else res == Err(NotFound) && pdus == old(pdus)
      ensures pdus == Dropped(old(pdus), name)
      ensures var k := IndexOf(old(pdus), name);
              res == if k == |old(pdus)| then Err(NotFound) else Ok(old(pdus)[k])
    {
      DroppedIs(pdus, name);
      var k := FindPduIndex(name);
      if k == |pdus| { return Err(NotFound); }
      res := Ok(pdus[k]);
      pdus := RemoveAt(pdus, k);
    }
  }

  // ----------------------------------------------------------------- searching

  /** One of the filters of find_pdu; an optional one that is absent or empty lets everything through. */
  datatype Criterion =
    | ByArea(area: int)
    | ByType(kind: PduType)
    | ByInstance(i: Option<string>)
    | ByName(n: Option<string>)
  {
    predicate Passes(p: Pdu) {
      match this
      case ByArea(a) => p.area == a
      case ByType(k) => p.kind == k
      case ByInstance(i) => i.Some? && i.value != "" ==> p.instance == i.value
      case ByName(n) => n.Some? && n.value != "" ==> p.name == n.value
    }
  }

  function Filter(pdus: seq<Pdu>, c: Criterion): seq<Pdu> {
    if pdus == [] then [] else (if c.Passes(pdus[0]) then [pdus[0]] else []) + Filter(pdus[1..], c)
  }

  /** The filters of find_pdu, in turn. */
  function Candidates(pdus: seq<Pdu>, area: int, kind: PduType, instance: Option<string>, name: Option<string>)
    : seq<Pdu>
  {
    Filter(Filter(Filter(Filter(pdus, ByArea(area)), ByType(kind)), ByInstance(instance)), ByName(name))
  }

  /** find_pdu: exactly one candidate is wanted. */
  function FoundPdu(pdus: seq<Pdu>, area: int, kind: PduType, instance: Option<string>, name: Option<string>)
    : Result<Pdu, PduError>
  {
    var found := Candidates(pdus, area, kind, instance, name);
    if |found| == 0 then Err(NotFound) else if |found| > 1 then Err(Ambiguous) else Ok(found[0])
  }

  predicate Matches(p: Pdu, area: int, kind: PduType, instance: Option<string>, name: Option<string>) {
    && p.area == area && p.kind == kind
    && (instance.Some? && instance.value != "" ==> p.instance == instance.value)
    && (name.Some? && name.value != "" ==> p.name == name.value)
  }

  lemma FilterCons(p: Pdu, rest: seq<Pdu>, c: Criterion)
    ensures Filter([p] + rest, c) == (if c.Passes(p) then [p] + Filter(rest, c) else Filter(rest, c))
  {
    assert ([p] + rest)[1..] == rest;
  }

  lemma {:induction false} FilterNothing(pdus: seq<Pdu>, c: Criterion)
    requires forall p :: c.Passes(p)
    ensures Filter(pdus, c) == pdus
  {
    if pdus != [] { FilterNothing(pdus[1..], c); }
  }

  /** Filtering in turn is filtering once by Matches. */
  lemma CandidatesCons(pdus: seq<Pdu>, area: int, kind: PduType, instance: Option<string>, name: Option<string>)
    requires pdus != []
    ensures var rest := Candidates(pdus[1..], area, kind, instance, name);
            Candidates(pdus, area, kind, instance, name)
            == if Matches(pdus[0], area, kind, instance, name) then [pdus[0]] + rest else rest
  {
    var p, c1, c2, c3, c4 := pdus[0], ByArea(area), ByType(kind), ByInstance(instance), ByName(name);
    var s1 := Filter(pdus[1..], c1);
    var s2 := Filter(s1, c2);
    var s3 := Filter(s2, c3);
    assert pdus == [p] + pdus[1..];
    FilterCons(p, pdus[1..], c1);
    FilterCons(p, s1, c2);
    FilterCons(p, s2, c3);
    FilterCons(p, s3, c4);
  }

  lemma {:induction false} NoCandidate(pdus: seq<Pdu>, area: int, kind: PduType, instance: Option<string>,
                                       name: Option<string>)
    ensures Candidates(pdus, area, kind, instance, name) == [] <==>
            forall i :: 0 <= i < |pdus| ==> !Matches(pdus[i], area, kind, instance, name)
  {
    if pdus != [] {
      CandidatesCons(pdus, area, kind, instance, name);
      NoCandidate(pdus[1..], area, kind, instance, name);
      assert forall i :: 0 < i < |pdus| ==> pdus[i] == pdus[1..][i - 1];
    }
  }

  lemma {:induction false} OnlyCandidate(pdus: seq<Pdu>, i: int, area: int, kind: PduType, instance: Option<string>,
                                         name: Option<string>)
    requires OnlyMatch(pdus, i, area, kind, instance, name)
    ensures Candidates(pdus, area, kind, instance, name) == [pdus[i]]
  {
    var rest := pdus[1..];
    CandidatesCons(pdus, area, kind, instance, name);
    assert forall j :: 0 <= j < |rest| ==> rest[j] == pdus[j + 1];
    if i == 0 {
      NoCandidate(rest, area, kind, instance, name);
    } else {
      OnlyCandidate(rest, i - 1, area, kind, instance, name);
    }
  }

  lemma {:induction false} OneCandidate(pdus: seq<Pdu>, area: int, kind: PduType, instance: Option<string>,
                                        name: Option<string>)
    requires |Candidates(pdus, area, kind, instance, name)| == 1
    ensures exists i :: OnlyMatch(pdus, i, area, kind, instance, name)
                        && Candidates(pdus, area, kind, instance, name)[0] == pdus[i]
  {
    var rest := pdus[1..];
    CandidatesCons(pdus, area, kind, instance, name);
    assert forall i :: 0 < i < |pdus| ==> pdus[i] == rest[i - 1];
    if Matches(pdus[0], area, kind, instance, name) {
      NoCandidate(rest, area, kind, instance, name);
      assert OnlyMatch(pdus, 0, area, kind, instance, name);
    } else {
      OneCandidate(rest, area, kind, instance, name);
      var i :| OnlyMatch(rest, i, area, kind, instance, name)
               && Candidates(rest, area, kind, instance, name)[0] == rest[i];
      assert OnlyMatch(pdus, i + 1, area, kind, instance, name);
    }
  }

  ghost predicate OnlyMatch(pdus: seq<Pdu>, i: int, area: int, kind: PduType, instance: Option<string>,
                            name: Option<string>) {
    && 0 <= i < |pdus| && Matches(pdus[i], area, kind, instance, name)
    && forall j :: 0 <= j < |pdus| && j != i ==> !Matches(pdus[j], area, kind, instance, name)
  }

  /** A PDU is found iff it is the only one that matches; none and several are told apart. */
  lemma FoundIffOnlyMatch(pdus: seq<Pdu>, area: int, kind: PduType, instance: Option<string>, name: Option<string>)
    ensures match FoundPdu(pdus, area, kind, instance, name)
            case Ok(p) => exists i :: OnlyMatch(pdus, i, area, kind, instance, name) && pdus[i] == p
            case Err(e) =>
              && (forall i :: !OnlyMatch(pdus, i, area, kind, instance, name))
              && (e == NotFound <==> forall i :: 0 <= i < |pdus| ==> !Matches(pdus[i], area, kind, instance, name))
              && (e == NotFound || e == Ambiguous)
  {
    NoCandidate(pdus, area, kind, instance, name);
    if |Candidates(pdus, area, kind, instance, name)| == 1 { OneCandidate(pdus, area, kind, instance, name); }
    forall i | OnlyMatch(pdus, i, area, kind, instance, name)
      ensures |Candidates(pdus, area, kind, instance, name)| == 1
    {
      OnlyCandidate(pdus, i, area, kind, instance, name);
    }
  }

  // ------------------------------------------------------- locking and unlocking

  /** The topology's list and the provider's own list of locked PDUs after a call, and its result. */
  datatype Outcome = Outcome(pdus: seq<Pdu>, held: seq<Pdu>, result: Result<Pdu, PduError>)

  /** The specification of lock_pdu. */
  function Locking(pdus: seq<Pdu>, held: seq<Pdu>, b: string, pdu: Pdu): Outcome {
    if pdu.lockedBy.Some? then Outcome(pdus, held, Err(AlreadyLocked))
    else
      var locked := pdu.(lockedBy := Some(b));
      match Updated(pdus, locked)
      case Ok(ps) => Outcome(ps, held + [locked], Ok(locked))
      case Err(e) => Outcome(pdus, held + [locked], Err(e))
  }

  /** The specification of unlock_pdu. */
  function Unlocking(pdus: seq<Pdu>, held: seq<Pdu>, b: string, pdu: Pdu): Outcome {
    if pdu.lockedBy.None? then Outcome(pdus, held, Err(NotLocked))
    else if pdu.lockedBy != Some(b) then Outcome(pdus, held, Err(LockedByAnother))
    else if !(IndexOf(held, pdu.name) < |held|) then Outcome(pdus, held, Err(NotInList))
    else
      var unlocked := pdu.(lockedBy := None);
      match Updated(pdus, unlocked)
      case Ok(ps) => Outcome(ps, Dropped(held, pdu.name), Ok(unlocked))
      case Err(e) => Outcome(pdus, Dropped(held, pdu.name), Err(e))
  }

  /** The specification of get_pdu_configurator: the instance to configure, for who has locked the PDU. */
  function ConfiguratorFor(b: string, pdu: Pdu): Result<string, PduError> {
    if pdu.lockedBy == Some(b) then Ok(pdu.instance) else Err(LockedByAnother)
  }

  /** final_cleanup over the copied list; a failing unlock is skipped. */
  function CleaningUp(pdus: seq<Pdu>, held: seq<Pdu>, b: string, todo: seq<Pdu>): (seq<Pdu>, seq<Pdu>)
    decreases |todo|
  {
    if todo == [] then (pdus, held)
    else
      var k := IndexOf(pdus, todo[0].name);
      if k == |pdus| then CleaningUp(pdus, held, b, todo[1..])
      else
        var o := Unlocking(pdus, held, b, pdus[k]);
        CleaningUp(o.pdus, o.held, b, todo[1..])
  }

  class PduProvider {
    const blueprintId: string
    const topology: PduList
    var lockedPdus: seq<Pdu>

    constructor (blueprintId: string, topology: PduList, lockedPdus: seq<Pdu>)
      ensures this.blueprintId == blueprintId && this.topology == topology && this.lockedPdus == lockedPdus
    {
      this.blueprintId, this.topology, this.lockedPdus := blueprintId, topology, lockedPdus;
    }

    method FindPdu(area: int, kind: PduType, instance: Option<string>, name: Option<string>)
      returns (res: Result<Pdu, PduError>)
      ensures res == FoundPdu(topology.pdus, area, kind, instance, name)
    {
      var byArea := Filter(topology.pdus, ByArea(area));
      var found := Filter(byArea, ByType(kind));
      if instance.Some? && instance.value != "" { found := Filter(found, ByInstance(instance)); }
      else { FilterNothing(found, ByInstance(instance)); }
      if name.Some? && name.value != "" { found := Filter(found, ByName(name)); }
      else { FilterNothing(found, ByName(name)); }
      if |found| == 0 { return Err(NotFound); }
      if |found| > 1 { return Err(Ambiguous); }
      res := Ok(found[0]);
    }

    method FindByName(name: string) returns (res: Result<Pdu, PduError>)
      ensures var k := IndexOf(topology.pdus, name);
              res == if k == |topology.pdus| then Err(NotFound) else Ok(topology.pdus[k])
    {
      var k := topology.FindPduIndex(name);
      res := if k == |topology.pdus| then Err(NotFound) else Ok(topology.pdus[k]);
    }

    /** Whether the PDU is free is looked up in the copy passed, which then replaces the one in the topology. */
    method LockPdu(pdu: Pdu) returns (res: Result<Pdu, PduError>)
      modifies this, topology
      ensures pdu.lockedBy.Some? ==>
                res == Err(AlreadyLocked) && topology.pdus == old(topology.pdus) && lockedPdus == old(lockedPdus)
      ensures pdu.lockedBy.None? ==>
                && var locked := Pdu(pdu.name, pdu.area, pdu.kind, pdu.instance, Some(blueprintId));
                && lockedPdus == old(lockedPdus) + [locked]
                && if Named(old(topology.pdus), pdu.name)
                   then res == Ok(locked) && Replaces(old(topology.pdus), locked, topology.pdus)
                   else res == Err(NotFound) && topology.pdus == old(topology.pdus)
      ensures Outcome(topology.pdus, lockedPdus, res)
              == Locking(old(topology.pdus), old(lockedPdus), blueprintId, pdu)
    {
      if pdu.lockedBy.Some? { return Err(AlreadyLocked); }
      var locked := pdu.(lockedBy := Some(blueprintId));
      lockedPdus := lockedPdus + [locked];
      var updated := topology.UpdPdu(locked);
      res := match updated case Ok(_) => Ok(locked) case Err(e) => Err(e);
    }

    method UnlockPdu(pdu: Pdu) returns (res: Result<Pdu, PduError>)
      modifies this, topology
      ensures var refusal := if pdu.lockedBy.None? then Some(NotLocked)
                             else if pdu.lockedBy.value != blueprintId then Some(LockedByAnother)
                             else if !Named(old(lockedPdus), pdu.name) then Some(NotInList)
                             else None;
              match refusal
              case Some(e) =>
                res == Err(e) && topology.pdus == old(topology.pdus) && lockedPdus == old(lockedPdus)
              case None =>
                && var free := Pdu(pdu.name, pdu.area, pdu.kind, pdu.instance, None);
                && TakesOut(old(lockedPdus), pdu.name, lockedPdus)
                && if Named(old(topology.pdus), pdu.name)
                   then res == Ok(free) && Replaces(old(topology.pdus), free, topology.pdus)
                   else res == Err(NotFound) && topology.pdus == old(topology.pdus)
      ensures Outcome(topology.pdus, lockedPdus, res)
              == Unlocking(old(topology.pdus), old(lockedPdus), blueprintId, pdu)
    {
      if pdu.lockedBy.None? { return Err(NotLocked); }
      if pdu.lockedBy != Some(blueprintId) { return Err(LockedByAnother); }
      DroppedIs(lockedPdus, pdu.name);
      var k := IndexOf(lockedPdus, pdu.name);
      if k == |lockedPdus| { return Err(NotInList); }
      var unlocked := pdu.(lockedBy := None);
      lockedPdus := RemoveAt(lockedPdus, k);
      var updated := topology.UpdPdu(unlocked);
      res := match updated case Ok(_) => Ok(unlocked) case Err(e) => Err(e);
    }

    method GetPduConfigurator(pdu: Pdu) returns (res: Result<string, PduError>)
      ensures res.Ok? <==> pdu.lockedBy == Some(blueprintId)
      ensures if res.Ok? then res.value == pdu.instance else res.error == LockedByAnother
      ensures res == ConfiguratorFor(blueprintId, pdu)
    {
      if pdu.lockedBy.Some? && pdu.lockedBy.value == blueprintId { return Ok(pdu.instance); }
      res := Err(LockedByAnother);
    }

    method FinalCleanup()
      modifies this, topology
      ensures (topology.pdus, lockedPdus)
              == CleaningUp(old(topology.pdus), old(lockedPdus), blueprintId, old(lockedPdus))
    {
      var todo := lockedPdus;
      var i := 0;
      assert todo[0..] == todo;
      while i < |todo|
        invariant 0 <= i <= |todo|
        invariant CleaningUp(old(topology.pdus), old(lockedPdus), blueprintId, todo)
                  == CleaningUp(topology.pdus, lockedPdus, blueprintId, todo[i..])
      {
        assert todo[i..][1..] == todo[i + 1..];
        var found := FindByName(todo[i].name);
        if found.Ok? { var _ := UnlockPdu(found.value); }
        i := i + 1;
      }
    }
  }

  // ------------------------------------------------ agreement over every run

  /** The topology's list, and what each blueprint's provider holds. */
  datatype World = World(pdus: seq<Pdu>, held: map<string, seq<Pdu>>) {
    function Held(b: string): seq<Pdu> { if b in held then held[b] else [] }
  }

  /** A PDU of the topology is in b's list iff the topology says that b locked it. */
  ghost predicate Agreement(w: World) {
    && UniqueNames(w.pdus)
    && (forall b :: UniqueNames(w.Held(b)))
    && forall b, i :: 0 <= i < |w.pdus| ==> (Named(w.Held(b), w.pdus[i].name) <==> w.pdus[i].lockedBy == Some(b))
  }

  datatype Op =
    | Lock(b: string, name: string)
    | Unlock(b: string, name: string)
    | Cleanup(b: string)
    | Add(pdu: Pdu)
    | Del(name: string)

  /** Each lock and unlock acts on the PDU as the topology has it at that moment. */
  function Step(w: World, op: Op): World {
    match op
    case Lock(b, name) =>
      var k := IndexOf(w.pdus, name);
      if k == |w.pdus| then w
      else
        var o := Locking(w.pdus, w.Held(b), b, w.pdus[k]);
        World(o.pdus, w.held[b := o.held])
    case Unlock(b, name) =>
      var k := IndexOf(w.pdus, name);
      if k == |w.pdus| then w
      else
        var o := Unlocking(w.pdus, w.Held(b), b, w.pdus[k]);
        World(o.pdus, w.held[b := o.held])
    case Cleanup(b) =>
      var (ps, h) := CleaningUp(w.pdus, w.Held(b), b, w.Held(b));
      World(ps, w.held[b := h])
    case Add(pdu) => if IndexOf(w.pdus, pdu.name) < |w.pdus| then w else w.(pdus := w.pdus + [pdu])
    case Del(name) => w.(pdus := Dropped(w.pdus, name))
  }

  function Run(w: World, ops: seq<Op>): World
    decreases |ops|
  {
    if ops == [] then w else Run(Step(w, ops[0]), ops[1..])
  }

  lemma IndexUnique(pdus: seq<Pdu>, i: nat)
    requires UniqueNames(pdus) && i < |pdus|
    ensures IndexOf(pdus, pdus[i].name) == i
  {
    var k := IndexOf(pdus, pdus[i].name);
    assert k <= i;
  }

  /** Replacing one PDU and one provider's list keeps the agreement if the two changes agree. */
  lemma AgreementUpdate(w: World, b: string, k: nat, pdu: Pdu, h: seq<Pdu>)
    requires Agreement(w) && k < |w.pdus| && pdu.name == w.pdus[k].name && UniqueNames(h)
    requires forall n :: n != pdu.name ==> (Named(h, n) <==> Named(w.Held(b), n))
    requires Named(h, pdu.name) <==> pdu.lockedBy == Some(b)
    requires forall c :: c != b ==> (pdu.lockedBy == Some(c) <==> w.pdus[k].lockedBy == Some(c))
    ensures Agreement(World(w.pdus[k := pdu], w.held[b := h]))
  {
    var w' := World(w.pdus[k := pdu], w.held[b := h]);
    assert forall i :: 0 <= i < |w.pdus| ==> w'.pdus[i].name == w.pdus[i].name;
    forall c ensures w'.Held(c) == if c == b then h else w.Held(c) {}
  }

  /** What a lock or unlock of a current PDU does to the agreement. */
  lemma LockKeeps(w: World, b: string, k: nat)
    requires Agreement(w) && k < |w.pdus|
    ensures var o := Locking(w.pdus, w.Held(b), b, w.pdus[k]);
            && Agreement(World(o.pdus, w.held[b := o.held]))
            && (o.result.Ok? <==> w.pdus[k].lockedBy.None?)
            && o.pdus == if o.result.Ok? then w.pdus[k := w.pdus[k].(lockedBy := Some(b))] else w.pdus
  {
    var pdu := w.pdus[k];
    if pdu.lockedBy.None? {
      IndexUnique(w.pdus, k);
      var locked := pdu.(lockedBy := Some(b));
      NamedAppend(w.Held(b), locked);
      AgreementUpdate(w, b, k, locked, w.Held(b) + [locked]);
    } else {
      AgreementUpdate(w, b, k, pdu, w.Held(b));
      assert w.pdus[k := pdu] == w.pdus;
    }
  }

  lemma NamedAppend(held: seq<Pdu>, p: Pdu)
    ensures forall n :: Named(held + [p], n) <==> Named(held, n) || n == p.name
    ensures UniqueNames(held) && !Named(held, p.name) ==> UniqueNames(held + [p])
  {
    var all := held + [p];
    assert all[|held|] == p;
    forall n | Named(held, n) ensures Named(all, n) {
      var i :| 0 <= i < |held| && held[i].name == n;
      assert all[i].name == n;
    }
  }

  lemma UnlockKeeps(w: World, b: string, k: nat)
    requires Agreement(w) && k < |w.pdus|
    ensures var o := Unlocking(w.pdus, w.Held(b), b, w.pdus[k]);
            && Agreement(World(o.pdus, w.held[b := o.held]))
            && (o.result.Ok? <==> w.pdus[k].lockedBy == Some(b))
            && o.pdus == (if o.result.Ok? then w.pdus[k := w.pdus[k].(lockedBy := None)] else w.pdus)
            && o.held == (if o.result.Ok? then Dropped(w.Held(b), w.pdus[k].name) else w.Held(b))
  {
    var pdu := w.pdus[k];
    IndexOfNamed(w.Held(b), pdu.name);
    if pdu.lockedBy == Some(b) {
      IndexUnique(w.pdus, k);
      DroppedNames(w.Held(b), pdu.name);
      AgreementUpdate(w, b, k, pdu.(lockedBy := None), Dropped(w.Held(b), pdu.name));
    } else {
      AgreementUpdate(w, b, k, pdu, w.Held(b));
      assert w.pdus[k := pdu] == w.pdus;
    }
  }

  /** p with b's lock taken off. */
  function Released(p: Pdu, b: string): Pdu {
    if p.lockedBy == Some(b) then p.(lockedBy := None) else p
  }

  ghost predicate AllReleased(before: seq<Pdu>, after: seq<Pdu>, b: string) {
    |after| == |before| && forall k :: 0 <= k < |before| ==> after[k] == Released(before[k], b)
  }

  /** The cleanup takes off all of b's locks and no other, even if some PDU has left the topology. */
  lemma {:induction false} CleanupReleasesAll(w: World, b: string, todo: seq<Pdu>)
    requires Agreement(w)
    requires forall k :: 0 <= k < |w.pdus| && w.pdus[k].lockedBy == Some(b) ==> Named(todo, w.pdus[k].name)
    ensures var (ps, h) := CleaningUp(w.pdus, w.Held(b), b, todo);
            && Agreement(World(ps, w.held[b := h]))
            && AllReleased(w.pdus, ps, b)
    decreases |todo|
  {
    if todo == [] {
      forall k | 0 <= k < |w.pdus| ensures w.pdus[k].lockedBy != Some(b) {
        assert !Named(todo, w.pdus[k].name);
      }
      SameWorld(w, b);
    } else {
      var k := IndexOf(w.pdus, todo[0].name);
      var next := w;
      if k < |w.pdus| { next := CleanupTurn(w, b, k); }
      StillToRelease(w, next, b, todo, k);
      CleanupReleasesAll(next, b, todo[1..]);
    }
  }

  /** A PDU that is not in the topology. */
  ghost function Left(pdus: seq<Pdu>): Pdu -> bool {
    (p: Pdu) => !Named(pdus, p.name)
  }

  /** The cleanup leaves in b's list exactly the PDUs that have left the topology, in their order. */
  lemma CleanupKeepsLeft(w: World, b: string)
    requires Agreement(w)
    ensures Kept(w.Held(b), Left(w.pdus), CleaningUp(w.pdus, w.Held(b), b, w.Held(b)).1)
  {
    KeptWhileCleaning(w, b, w.Held(b), Left(w.pdus));
  }

  lemma {:induction false} KeptWhileCleaning(w: World, b: string, todo: seq<Pdu>, left: Pdu -> bool)
    requires Agreement(w) && forall p :: left(p) <==> !Named(w.pdus, p.name)
    requires forall k :: 0 <= k < |w.pdus| && w.pdus[k].lockedBy == Some(b) ==> Named(todo, w.pdus[k].name)
    ensures Kept(w.Held(b), left, CleaningUp(w.pdus, w.Held(b), b, todo).1)
    decreases |todo|
  {
    if todo == [] {
      forall p | p in w.Held(b) ensures left(p) { HeldIsLocked(w, b, p); }
      AllKept(w.Held(b), left);
    } else {
      var k := IndexOf(w.pdus, todo[0].name);
      var next := w;
      if k < |w.pdus| {
        next := CleanupTurn(w, b, k);
        SameNames(w.pdus, next.pdus);
      }
      StillToRelease(w, next, b, todo, k);
      KeptWhileCleaning(next, b, todo[1..], left);
      if k < |w.pdus| && w.pdus[k].lockedBy == Some(b) {
        UnlockKeeps(w, b, k);
        var name := w.pdus[k].name;
        var j := IndexOf(w.Held(b), name);
        IndexOfNamed(w.Held(b), name);
        KeptRemoved(w.Held(b), j, left, CleaningUp(w.pdus, w.Held(b), b, todo).1);
      }
    }
  }

  lemma HeldIsLocked(w: World, b: string, p: Pdu)
    requires Agreement(w) && p in w.Held(b)
    ensures Named(w.pdus, p.name) ==>
              exists i :: 0 <= i < |w.pdus| && w.pdus[i].name == p.name && w.pdus[i].lockedBy == Some(b)
  {
    var j :| 0 <= j < |w.Held(b)| && w.Held(b)[j] == p;
    if i :| 0 <= i < |w.pdus| && w.pdus[i].name == p.name { assert Named(w.Held(b), w.pdus[i].name); }
  }

  lemma SameNames(a: seq<Pdu>, z: seq<Pdu>)
    requires |a| == |z| && forall i :: 0 <= i < |a| ==> a[i].name == z[i].name
    ensures forall n :: Named(a, n) <==> Named(z, n)
  {
    forall n | Named(a, n) ensures Named(z, n) {
      var i :| 0 <= i < |a| && a[i].name == n;
      assert z[i].name == n;
    }
  }

  lemma SameWorld(w: World, b: string)
    requires Agreement(w)
    ensures Agreement(World(w.pdus, w.held[b := w.Held(b)]))
  {
    var w' := World(w.pdus, w.held[b := w.Held(b)]);
    forall c ensures w'.Held(c) == w.Held(c) {}
  }

  lemma CleanupTurn(w: World, b: string, k: nat) returns (next: World)
    requires Agreement(w) && k < |w.pdus|
    ensures var o := Unlocking(w.pdus, w.Held(b), b, w.pdus[k]);
            next == World(o.pdus, w.held[b := o.held]) && next.Held(b) == o.held
    ensures Agreement(next) && next.pdus == w.pdus[k := Released(w.pdus[k], b)]
    ensures forall h {:trigger next.held[b := h]} :: next.held[b := h] == w.held[b := h]
  {
    UnlockKeeps(w, b, k);
    var o := Unlocking(w.pdus, w.Held(b), b, w.pdus[k]);
    next := World(o.pdus, w.held[b := o.held]);
  }

  lemma StillToRelease(w: World, next: World, b: string, todo: seq<Pdu>, k: nat)
    requires todo != [] && k == IndexOf(w.pdus, todo[0].name) && UniqueNames(w.pdus)
    requires next.pdus == if k < |w.pdus| then w.pdus[k := Released(w.pdus[k], b)] else w.pdus
    requires forall i :: 0 <= i < |w.pdus| && w.pdus[i].lockedBy == Some(b) ==> Named(todo, w.pdus[i].name)
    ensures forall i :: 0 <= i < |next.pdus| && next.pdus[i].lockedBy == Some(b) ==> Named(todo[1..], next.pdus[i].name)
  {
    forall i | 0 <= i < |next.pdus| && next.pdus[i].lockedBy == Some(b)
      ensures Named(todo[1..], next.pdus[i].name)
    {
      var j :| 0 <= j < |todo| && todo[j].name == w.pdus[i].name;
      assert j != 0;
      assert todo[1..][j - 1].name == next.pdus[i].name;
    }
  }

  /** A PDU may join the topology iff its lock agrees with what the providers hold under its name. */
  lemma AddKeepsExactlyWhen(w: World, pdu: Pdu)
    requires Agreement(w) && !Named(w.pdus, pdu.name)
    ensures Agreement(Step(w, Add(pdu))) <==> forall b :: Named(w.Held(b), pdu.name) <==> pdu.lockedBy == Some(b)
  {
    IndexOfNamed(w.pdus, pdu.name);
    NamedAppend(w.pdus, pdu);
    var w' := Step(w, Add(pdu));
    assert w'.pdus[|w.pdus|] == pdu;
    assert forall b :: w'.Held(b) == w.Held(b);
  }

  lemma DelKeeps(w: World, name: string)
    requires Agreement(w)
    ensures Agreement(Step(w, Del(name)))
  {
    DroppedNames(w.pdus, name);
    var w' := Step(w, Del(name));
    forall b, i | 0 <= i < |w'.pdus|
      ensures Named(w'.Held(b), w'.pdus[i].name) <==> w'.pdus[i].lockedBy == Some(b)
    {
      assert w'.pdus[i] in w.pdus;
      var j :| 0 <= j < |w.pdus| && w.pdus[j] == w'.pdus[i];
      assert w'.Held(b) == w.Held(b);
    }
    assert forall b :: w'.Held(b) == w.Held(b);
  }

  /** A PDU that joins comes with the lock that the providers' lists say under its name. */
  ghost predicate Legal(w: World, op: Op) {
    op.Add? && !Named(w.pdus, op.pdu.name) ==>
      forall b :: Named(w.Held(b), op.pdu.name) <==> op.pdu.lockedBy == Some(b)
  }

  /** Every step keeps the agreement, but for a PDU that joins with another lock. */
  lemma StepKeepsAgreement(w: World, op: Op)
    requires Agreement(w)
    ensures Agreement(Step(w, op)) <==> Legal(w, op)
    ensures op.Cleanup? ==>
              && AllReleased(w.pdus, Step(w, op).pdus, op.b)
              && Kept(w.Held(op.b), Left(w.pdus), Step(w, op).Held(op.b))
  {
    match op
    case Lock(b, name) =>
      var k := IndexOf(w.pdus, name);
      if k < |w.pdus| { LockKeeps(w, b, k); }
    case Unlock(b, name) =>
      var k := IndexOf(w.pdus, name);
      if k < |w.pdus| { UnlockKeeps(w, b, k); }
    case Cleanup(b) =>
      CleanupReleasesAll(w, b, w.Held(b));
      CleanupKeepsLeft(w, b);
    case Add(pdu) =>
      IndexOfNamed(w.pdus, pdu.name);
      if !Named(w.pdus, pdu.name) { AddKeepsExactlyWhen(w, pdu); }
    case Del(name) => DelKeeps(w, name);
  }

  ghost predicate LegalRun(w: World, ops: seq<Op>)
    decreases |ops|
  {
    ops == [] || (Legal(w, ops[0]) && LegalRun(Step(w, ops[0]), ops[1..]))
  }

  /** What the agreement means for one PDU of the topology. */
  lemma AgreementMeans(w: World, i: nat)
    requires Agreement(w) && i < |w.pdus|
    ensures forall b, c :: Named(w.Held(b), w.pdus[i].name) && Named(w.Held(c), w.pdus[i].name) ==> b == c
    ensures forall b :: ConfiguratorFor(b, w.pdus[i]).Ok? <==> Named(w.Held(b), w.pdus[i].name)
  {
  }

  lemma {:induction false} RunKeepsAgreement(w: World, ops: seq<Op>)
    requires Agreement(w) && LegalRun(w, ops)
    ensures Agreement(Run(w, ops))
    decreases |ops|
  {
    if ops != [] {
      StepKeepsAgreement(w, ops[0]);
      RunKeepsAgreement(Step(w, ops[0]), ops[1..]);
    }
  }

  /**
   * In every reachable state the providers and the topology agree on who holds what; so a PDU of the
   * topology is held by at most one blueprint. A blueprint gets a configurator for it exactly when its
   * own list names it, hence at most one blueprint does.
   */
  lemma RunsAgree(w: World, ops: seq<Op>)
    requires Agreement(w) && LegalRun(w, ops)
    ensures Agreement(Run(w, ops))
    ensures var after := Run(w, ops);
            forall b, c, i :: 0 <= i < |after.pdus|
                              && Named(after.Held(b), after.pdus[i].name) && Named(after.Held(c), after.pdus[i].name)
                              ==> b == c
    ensures var after := Run(w, ops);
            forall b, i :: 0 <= i < |after.pdus| ==>
                             (ConfiguratorFor(b, after.pdus[i]).Ok? <==> Named(after.Held(b), after.pdus[i].name))
  {
    RunKeepsAgreement(w, ops);
    var after := Run(w, ops);
    forall i | 0 <= i < |after.pdus|
      ensures forall b, c :: Named(after.Held(b), after.pdus[i].name) && Named(after.Held(c), after.pdus[i].name)
                             ==> b == c
      ensures forall b :: ConfiguratorFor(b, after.pdus[i]).Ok? <==> Named(after.Held(b), after.pdus[i].name)
    {
      AgreementMeans(after, i);
    }
  }
}
