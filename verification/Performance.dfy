/**
 * The indexes of operations that performance metrics keep
 * (src/nfvcl/blueprints_ng/lcm/performance_manager.py), as the workers of many blueprints use them
 * (src/nfvcl/blueprints_ng/lcm/blueprint_worker.py). Operation ids are numbers in drawing order.
 */
module Performance {
  import opened Wrappers
  import opened Seqs

  /** The ids alone: per blueprint, over all started operations, and the pending one of each blueprint. */
  datatype Index = Index(lists: map<string, seq<nat>>, started: set<nat>, pending: map<string, nat>, next: nat)

  ghost predicate At(lists: map<string, seq<nat>>, b: string, i: int, id: nat) {
    b in lists && 0 <= i < |lists[b]| && lists[b][i] == id
  }

  ghost predicate Listed(lists: map<string, seq<nat>>, b: string, id: nat) {
    b in lists && id in lists[b]
  }

  /** Every started operation is listed; an id stands in one place; pending ids are their blueprint's. */
  ghost predicate Agree(x: Index) {
    && (forall id :: id in x.started ==> id < x.next && exists b :: Listed(x.lists, b, id))
    && (forall b, id: nat :: Listed(x.lists, b, id) ==> id < x.next)
    && (forall b, c, i, j, id: nat :: At(x.lists, b, i, id) && At(x.lists, c, j, id) ==> b == c && i == j)
    && (forall b :: b in x.pending ==> Listed(x.lists, b, x.pending[b]))
  }

  // ------------------------------------------------------------ what a call leaves

  /** A blueprint that is there already starts anew. */
  function AfterAdd(x: Index, b: string): Index {
    x.(lists := x.lists[b := []])
  }

  /** Blueprints without metrics are passed over. */
  function AfterStart(x: Index, b: string): (Index, Option<nat>) {
    if b !in x.lists then (x, None)
    else
      var lists := x.lists[b := x.lists[b] + [x.next]];
      (Index(lists, x.started + {x.next}, x.pending[b := x.next], x.next + 1), Some(x.next))
  }

  /** How ending an operation goes: it is not listed, its blueprint has nothing pending, or it has. */
  datatype Ended = Skipped | NothingPending | Cleared(blueprint: string)

  ghost predicate EndsAs(x: Index, id: Option<nat>, e: Ended) {
    match e
    case Skipped => id.None? || forall b :: !Listed(x.lists, b, id.value)
    case NothingPending => id.Some? && exists b :: Listed(x.lists, b, id.value) && b !in x.pending
    case Cleared(b) => id.Some? && Listed(x.lists, b, id.value) && b in x.pending
  }

  function AfterEnd(x: Index, e: Ended): Index {
    if e.Cleared? then x.(pending := x.pending - {e.blueprint}) else x
  }

  // --------------------------------------------------------------- the collection

  class Operation {
    const id: nat
    var ended: bool
    var calls: seq<nat>

    constructor (id: nat)
      ensures this.id == id && !ended && calls == []
    {
      this.id := id;
      ended, calls := false, [];
    }
  }

  function Ids(s: seq<Operation>): (out: seq<nat>)
    ensures |out| == |s| && forall i :: 0 <= i < |s| ==> out[i] == s[i].id
  {
    seq(|s|, i requires 0 <= i < |s| => s[i].id)
  }

  function Lists(perf: map<string, seq<Operation>>): map<string, seq<nat>> {
    map b | b in perf :: Ids(perf[b])
  }

  /** Both ways to a started operation lead to the same object. */
  ghost predicate Shared(perf: map<string, seq<Operation>>, operations: map<nat, Operation>) {
    && (forall id :: id in operations ==> operations[id].id == id)
    && (forall b, o :: b in perf && o in perf[b] && o.id in operations ==> operations[o.id] == o)
  }

  class PerformanceManager {
    var perf: map<string, seq<Operation>>
    var pending: map<string, nat>
    var operations: map<nat, Operation>
    var callsEnded: map<nat, bool>
    var next: nat

    constructor ()
      ensures Valid() && perf == map[] && pending == map[] && operations == map[] && callsEnded == map[]
    {
      perf, pending, operations, callsEnded, next := map[], map[], map[], map[], 0;
    }

    ghost function Indexes(): Index
      reads this
    {
      Index(Lists(perf), operations.Keys, pending, next)
    }

    /** The indexes agree and share their objects; calls were drawn before. */
    ghost predicate Valid()
      reads this
    {
      && Agree(Indexes())
      && Shared(perf, operations)
      && forall c :: c in callsEnded ==> c < next
    }

    /** The indexes agree afterwards iff no operation was started for that blueprint. */
    method AddBlueprint(b: string)
      requires Valid()
      modifies this`perf
      ensures Indexes() == AfterAdd(old(Indexes()), b)
      ensures Valid() <==> Untouched(old(Indexes()), b)
    {
      perf := perf[b := []];
      assert Indexes().lists == AfterAdd(old(Indexes()), b).lists;
      AddKeepsExactlyWhen(old(Indexes()), b);
    }

    method StartOperation(b: string) returns (id: Option<nat>)
      requires Valid()
      modifies this`perf, this`operations, this`pending, this`next
      ensures (Indexes(), id) == AfterStart(old(Indexes()), b)
      ensures id.Some? <==> b in old(perf)
      ensures id.Some? ==> id.value in operations && fresh(operations[id.value]) && !operations[id.value].ended
      ensures id.Some? ==> b in perf && perf[b] == old(perf)[b] + [operations[id.value]]
      ensures Valid()
    {
      if b !in perf { return None; }
      var o := new Operation(next);
      Note(b, o);
      id := Some(o.id);
    }

    /** A new operation of a blueprint that is there enters all indexes. */
    method Note(b: string, o: Operation)
      requires Valid() && b in perf && o.id == next
      modifies this`perf, this`operations, this`pending, this`next
      ensures Indexes() == AfterStart(old(Indexes()), b).0
      ensures operations == old(operations)[o.id := o] && perf == old(perf)[b := old(perf)[b] + [o]]
      ensures Valid()
    {
      StartKeeps(Indexes(), b);
      StartShares(perf, operations, b, o, Indexes());
      perf := perf[b := perf[b] + [o]];
      operations := operations[next := o];
      pending := pending[b := next];
      next := next + 1;
    }

    method FindOperation(id: Option<nat>) returns (found: Option<(Operation, string)>)
      requires Valid()
      ensures found.Some? ==> var (o, b) := found.value; id == Some(o.id) && b in perf && o in perf[b]
      ensures found.None? ==> id.None? || forall b :: !Listed(Indexes().lists, b, id.value)
    {
      if id.None? { return None; }
      var todo := perf.Keys;
      while todo != {}
        invariant todo <= perf.Keys
        invariant forall b :: b in perf && b !in todo ==> id.value !in Ids(perf[b])
      {
        ghost var some := SomeMember(todo);
        var b :| b in todo;
        for i := 0 to |perf[b]|
          invariant forall j :: 0 <= j < i ==> perf[b][j].id != id.value
        {
          if perf[b][i].id == id.value { return Some((perf[b][i], b)); }
        }
        todo := todo - {b};
      }
      found := None;
    }

    /** NothingPending stands for a KeyError; the operation is marked before. */
    method EndOperation(id: Option<nat>) returns (e: Ended)
      requires Valid()
      modifies this`pending, set b, o | b in perf && o in perf[b] :: o
      ensures EndsAs(old(Indexes()), id, e) && Indexes() == AfterEnd(old(Indexes()), e)
      ensures forall b, o :: b in perf && o in perf[b] ==>
                               o.ended == (old(o.ended) || id == Some(o.id)) && o.calls == old(o.calls)
      ensures Valid()
    {
      var found := FindOperation(id);
      if found.None? {
        forall b, o | b in perf && o in perf[b] ensures id != Some(o.id) {
          ListedIn(perf, b, o);
          assert Listed(Indexes().lists, b, o.id);
        }
        return Skipped;
      }
      var (o, b) := found.value;
      ListedIn(perf, b, o);
      forall c, p | c in perf && p in perf[c] && p.id == o.id ensures p == o { OneObject(perf, b, o, c, p, next); }
      o.ended := true;
      if b !in pending { return NothingPending; }
      pending := pending - {b};
      e := Cleared(b);
      EndKeeps(old(Indexes()), b);
    }

    /** The call is noted in the operation that both indexes lead to. */
    method StartProviderCall(id: Option<nat>) returns (call: Option<nat>)
      requires Valid()
      modifies this`callsEnded, this`next, operations.Values
      ensures call.Some? <==> id.Some? && id.value in operations
      ensures call.None? ==> callsEnded == old(callsEnded) && next == old(next)
      ensures call.Some? ==> call.value == old(next) && next == old(next) + 1
      ensures call.Some? ==> callsEnded == old(callsEnded)[call.value := false]
      ensures forall o :: o in operations.Values ==>
                            && o.ended == old(o.ended)
                            && o.calls == old(o.calls) + if call.Some? && o.id == id.value then [call.value] else []
      ensures Valid()
    {
      if id.None? || id.value !in operations { return None; }
      LaterAgrees(Indexes());
      OnlyOperation(operations, id.value);
      call := Some(next);
      next := next + 1;
      var o := operations[id.value];
      callsEnded := callsEnded[call.value := false];
      o.calls := o.calls + [call.value];
      assert Indexes() == old(Indexes()).(next := next);
    }

    method EndProviderCall(call: Option<nat>)
      modifies this`callsEnded
      ensures callsEnded == if call.Some? && call.value in old(callsEnded) then old(callsEnded)[call.value := true]
                            else old(callsEnded)
    {
      if call.None? || call.value !in callsEnded { return; }
      callsEnded := callsEnded[call.value := true];
    }
  }

  lemma PlaceOf(lists: map<string, seq<nat>>, b: string, id: nat)
    requires Listed(lists, b, id)
    ensures exists i :: At(lists, b, i, id)
  {
    var i :| 0 <= i < |lists[b]| && lists[b][i] == id;
    assert At(lists, b, i, id);
  }

  lemma ListedIn(perf: map<string, seq<Operation>>, b: string, o: Operation)
    requires b in perf && o in perf[b]
    ensures Listed(Lists(perf), b, o.id)
  {
    var i :| 0 <= i < |perf[b]| && perf[b][i] == o;
    assert Ids(perf[b])[i] == o.id;
  }

  lemma StartShares(perf: map<string, seq<Operation>>, operations: map<nat, Operation>, b: string, o: Operation,
                    x: Index)
    requires b in perf && Shared(perf, operations) && Agree(x) && x.lists == Lists(perf) && o.id == x.next
    ensures b in x.lists && Lists(perf[b := perf[b] + [o]]) == x.lists[b := x.lists[b] + [o.id]]
    ensures Shared(perf[b := perf[b] + [o]], operations[o.id := o])
    ensures operations[o.id := o].Keys == operations.Keys + {o.id}
  {
    assert Ids(perf[b] + [o]) == Ids(perf[b]) + [o.id];
    forall c, p | c in perf && p in perf[c] ensures p.id < o.id { ListedIn(perf, c, p); }
  }

  lemma LaterAgrees(x: Index)
    requires Agree(x)
    ensures Agree(x.(next := x.next + 1))
  {
  }

  lemma OnlyOperation(operations: map<nat, Operation>, id: nat)
    requires id in operations && forall k :: k in operations ==> operations[k].id == k
    ensures operations[id] in operations.Values
    ensures forall p :: p in operations.Values && p.id == id ==> p == operations[id]
  {
  }

  lemma OneObject(perf: map<string, seq<Operation>>, b: string, o: Operation, c: string, p: Operation, next: nat)
    requires b in perf && o in perf[b] && c in perf && p in perf[c] && p.id == o.id
    requires exists x :: Agree(x) && x.lists == Lists(perf)
    ensures p == o
  {
    var x :| Agree(x) && x.lists == Lists(perf);
    var i :| 0 <= i < |perf[b]| && perf[b][i] == o;
    var j :| 0 <= j < |perf[c]| && perf[c][j] == p;
    assert At(x.lists, b, i, o.id) && At(x.lists, c, j, o.id);
  }

  // ------------------------------------------------------------- one call at a time

  /** No started operation is listed for the blueprint, and none is pending. */
  ghost predicate Untouched(x: Index, b: string) {
    b !in x.pending && forall id :: Listed(x.lists, b, id) ==> id !in x.started
  }

  /** Adding a blueprint keeps the indexes in agreement iff none of its operations would get lost. */
  lemma AddKeepsExactlyWhen(x: Index, b: string)
    requires Agree(x)
    ensures Agree(AfterAdd(x, b)) <==> Untouched(x, b)
  {
    var y := AfterAdd(x, b);
    assert forall c, i, id: nat :: At(y.lists, c, i, id) <==> c != b && At(x.lists, c, i, id);
    forall c, id: nat ensures Listed(y.lists, c, id) <==> c != b && Listed(x.lists, c, id) { }
    if Untouched(x, b) {
      forall id | id in x.started ensures exists c :: Listed(y.lists, c, id) {
        var c :| Listed(x.lists, c, id);
        assert Listed(y.lists, c, id);
      }
    } else if b !in x.pending {
      var id :| Listed(x.lists, b, id) && id in x.started;
      PlaceOf(x.lists, b, id);
      var i :| At(x.lists, b, i, id);
      forall c | Listed(x.lists, c, id) ensures c == b {
        PlaceOf(x.lists, c, id);
        var j :| At(x.lists, c, j, id);
      }
      assert forall c :: !Listed(y.lists, c, id);
    }
  }

  lemma StartKeeps(x: Index, b: string)
    requires Agree(x)
    ensures Agree(AfterStart(x, b).0)
  {
    var y := AfterStart(x, b).0;
    if b in x.lists {
      forall c, id: nat ensures Listed(y.lists, c, id) <==> Listed(x.lists, c, id) || (c == b && id == x.next) { }
      assert Listed(y.lists, b, x.next);
      forall id | id in x.started ensures exists c :: Listed(y.lists, c, id) {
        var c :| Listed(x.lists, c, id);
        assert Listed(y.lists, c, id);
      }
      forall c, i, id: nat | At(y.lists, c, i, id)
        ensures if id == x.next then c == b && i == |x.lists[b]| else At(x.lists, c, i, id)
      {
        if c == b && i == |x.lists[b]| { } else {
          assert At(x.lists, c, i, id);
          assert Listed(x.lists, c, id);
        }
      }
    }
  }

  lemma EndKeeps(x: Index, b: string)
    requires Agree(x)
    ensures Agree(x.(pending := x.pending - {b}))
  {
  }

  // --------------------------------------------------------------------- all runs

  /** What the worker of a blueprint does; each has one worker, which handles one message at a time. */
  datatype Event =
    | Add(blueprint: string)
    | Begin(blueprint: string)
    | Finish(blueprint: string)
    | Fail(blueprint: string)

  /** The operation each busy worker started, and the blueprints whose last operation raised. */
  datatype Watch = Watch(index: Index, running: map<string, Option<nat>>, failed: set<string>)

  ghost predicate Enabled(w: Watch, e: Event) {
    match e
    case Add(b) => Untouched(w.index, b) && b !in w.running
    case Begin(b) => b !in w.running
    case Finish(b) => b in w.running
    case Fail(b) => b in w.running
  }

  /** Handlers that raise do not end their operation. */
  ghost predicate Step(w: Watch, e: Event, w': Watch) {
    match e
    case Add(b) => w' == w.(index := AfterAdd(w.index, b))
    case Begin(b) =>
      var (x, id) := AfterStart(w.index, b);
      w' == Watch(x, w.running[b := id], if id.Some? then w.failed - {b} else w.failed)
    case Finish(b) =>
      && b in w.running
      && w'.running == w.running - {b} && w'.failed == w.failed
      && exists how :: EndsAs(w.index, w.running[b], how) && w'.index == AfterEnd(w.index, how)
    case Fail(b) =>
      && b in w.running
      && w' == w.(running := w.running - {b}, failed := if w.running[b].Some? then w.failed + {b} else w.failed)
  }

  /** Pending are the operations that run and those that failed, and each pending id is the right one. */
  ghost predicate Tracked(w: Watch) {
    && Agree(w.index)
    && (forall b :: b in w.running && w.running[b].Some? ==>
                      && b in w.index.pending && w.index.pending[b] == w.running[b].value
                      && b !in w.failed)
    && (forall b :: b in w.index.pending ==> b in w.failed || (b in w.running && w.running[b].Some?))
    && (forall b :: b in w.failed ==> b in w.index.pending)
  }

  ghost predicate Trace(ws: seq<Watch>, es: seq<Event>) {
    && |ws| == |es| + 1
    && (es != [] ==> Enabled(ws[0], es[0]) && Step(ws[0], es[0], ws[1]) && Trace(ws[1..], es[1..]))
  }

  /** Ending a running operation clears the pending entry that it made, and no other. */
  lemma FinishClearsItsOwn(w: Watch, b: string, how: Ended)
    requires Tracked(w) && b in w.running && EndsAs(w.index, w.running[b], how)
    ensures if w.running[b].Some? then how == Cleared(b) && w.index.pending[b] == w.running[b].value else how == Skipped
  {
    if w.running[b].Some? {
      var id := w.running[b].value;
      assert Listed(w.index.lists, b, id);
      PlaceOf(w.index.lists, b, id);
      var i :| At(w.index.lists, b, i, id);
      forall c | Listed(w.index.lists, c, id) ensures c == b {
        PlaceOf(w.index.lists, c, id);
        var j :| At(w.index.lists, c, j, id);
      }
    }
  }

  lemma StepKeepsTracked(w: Watch, e: Event, w': Watch)
    requires Tracked(w) && Enabled(w, e) && Step(w, e, w')
    ensures Tracked(w')
  {
    match e
    case Add(b) => AddKeepsExactlyWhen(w.index, b);
    case Begin(b) => StartKeeps(w.index, b);
    case Finish(b) =>
      var how :| EndsAs(w.index, w.running[b], how) && w'.index == AfterEnd(w.index, how);
      FinishClearsItsOwn(w, b, how);
      EndKeeps(w.index, b);
    case Fail(b) =>
  }

  /** In every state of every run, whatever operations fail. */
  lemma {:induction false} RunsStayTracked(ws: seq<Watch>, es: seq<Event>)
    requires Trace(ws, es) && Tracked(ws[0])
    ensures forall i :: 0 <= i < |ws| ==> Tracked(ws[i])
  {
    if es != [] {
      StepKeepsTracked(ws[0], es[0], ws[1]);
      RunsStayTracked(ws[1..], es[1..]);
      assert forall i :: 0 < i < |ws| ==> ws[i] == ws[1..][i - 1];
    }
  }

  /** Two operations of one blueprint at a time would make ending the second of them raise. */
  lemma OverlapRaises(x: Index, b: string)
    requires Agree(x) && b in x.lists
    ensures var (y, first) := AfterStart(x, b);
            var (z, second) := AfterStart(y, b);
            && EndsAs(z, second, Cleared(b))
            && EndsAs(AfterEnd(z, Cleared(b)), first, NothingPending)
  {
    var (y, first) := AfterStart(x, b);
    var (z, second) := AfterStart(y, b);
    assert z.lists[b] == x.lists[b] + [first.value] + [second.value];
    assert Listed(z.lists, b, first.value) && Listed(z.lists, b, second.value);
  }
}
