/**
 * The calls that bringing the edge areas of a 5G blueprint up to date makes on its child blueprints, the
 * routers and UPFs (src/nfvcl/blueprints_ng/modules/generic_5g/generic_5g.py).
 */
module ChildCalls {
  import opened Wrappers
  import opened Seqs
  import opened Core5g
  import opened EdgeAreas

  /** The networks that a router blueprint is created with. */
  datatype RouterNets = RouterNets(mgt: string, gnb: string, core: string, n3: string, n6: string)

  datatype Child = RouterChild(nets: RouterNets) | UpfChild(upfType: string, config: UpfConfig)

  /** A call on a child blueprint, with its answer if there is one. */
  datatype Event =
    | Created(child: Child, area: int, id: nat)
    | Deleted(id: nat)
    | Updated(id: nat, config: UpfConfig)
    | RouterAsked(id: nat, answer: Option<RouterNet>)
    | UpfsAsked(id: nat, upfs: Option<seq<DeployedUpf>>)
    | Routed(id: nat, cidr: string, nextHop: string)

  /** Nothing but routes since then. */
  ghost predicate OnlyRoutes(before: seq<Event>, now: seq<Event>) {
    before <= now && forall i :: |before| <= i < |now| ==> now[i].Routed?
  }

  // --------------------------------------------------- the router of an area

  /** The recorded router is the one that the area asks for: the external one it names, or a blueprint. */
  ghost predicate RouterFits(area: Area, e: EdgeArea) {
    && e.router.Some?
    && match area.networks.externalRouter
       case Some(net) => e.router.value == Router(None, true, net)
       case None => !e.router.value.external && e.router.value.blueId.Some?
  }

  /** No area before position k has its id. */
  ghost predicate First(areas: seq<Area>, k: nat)
    requires k < |areas|
  {
    forall j :: 0 <= j < k ==> areas[j].id != areas[k].id
  }

  /** The first n configured areas, as far as they were not there before, have the routers that they ask for. */
  ghost predicate RoutersFit(areas: seq<Area>, n: nat, before: Edge, after: Edge) {
    forall k {:trigger First(areas, k)} ::
      0 <= k < n && k < |areas| && First(areas, k) && areas[k].id !in before ==>
        areas[k].id in after && RouterFits(areas[k], after[areas[k].id])
  }

  ghost predicate SameBlueprints(was: EdgeArea, now: EdgeArea) {
    && was.router == now.router && was.upf.Some? == now.upf.Some?
    && (was.upf.Some? ==> was.upf.value.blueId == now.upf.value.blueId)
  }

  /** Areas that were there and still are have the same router and the same UPF blueprint. */
  ghost predicate BlueprintsStay(before: Edge, after: Edge) {
    forall id {:trigger SameBlueprints(before[id], after[id])} ::
      id in before && id in after ==> SameBlueprints(before[id], after[id])
  }

  // ------------------------------------------------------------- the routes

  function RoutesOfDnns(x: nat, dnns: seq<DnnModel>, hop: string): seq<Event> {
    seq(|dnns|, k requires 0 <= k < |dnns| => Routed(x, dnns[k].cidr, hop))
  }

  function RoutesOfSlices(x: nat, served: seq<SliceModel>, hop: string): seq<Event> {
    if served == [] then []
    else RoutesOfSlices(x, served[..|served| - 1], hop) + RoutesOfDnns(x, served[|served| - 1].dnns, hop)
  }

  function RoutesOf(x: nat, upfs: seq<DeployedUpf>): seq<Event> {
    if upfs == [] then []
    else
      var (n, u) := (|upfs| - 1, upfs[|upfs| - 1]);
      RoutesOf(x, upfs[..n]) + RoutesOfSlices(x, u.served, u.n6Ip)
  }

  /** The pool of every network that a UPF of the area serves is routed through that UPF; not on external routers. */
  function Routes(e: EdgeArea): seq<Event> {
    if e.router.None? || e.upf.None? || e.router.value.external then []
    else RoutesOf(if e.router.value.blueId.Some? then e.router.value.blueId.value else 0, e.upf.value.deployed)
  }

  // --------------------------------------------------- all calls of an update

  ghost function OrEmpty(x: Option<string>): string {
    if x.Some? then x.value else ""
  }

  ghost function NetsFor(c: Config, a: Area): RouterNets {
    RouterNets(OrEmpty(c.mgt), OrEmpty(a.networks.gnb), OrEmpty(c.wan), OrEmpty(a.networks.n3), OrEmpty(a.networks.n6))
  }

  /** A new router, unless the area has an external one. */
  ghost function RouterCalls(c: Config, a: Area, r: Router): seq<Event> {
    if r.external || r.blueId.None? then []
    else [Created(RouterChild(NetsFor(c, a)), a.id, r.blueId.value), RouterAsked(r.blueId.value, Some(r.network))]
  }

  ghost function UpfCalls(a: Area, u: Upf): seq<Event> {
    [Created(UpfChild(a.upfType, u.config), a.id, u.blueId), UpfsAsked(u.blueId, Some(u.deployed))]
  }

  /** A UPF that gets a new configuration. */
  ghost function RefreshCalls(was: EdgeArea, now: EdgeArea): seq<Event> {
    if was == now || now.upf.None? then []
    else
      var u := now.upf.value;
      [Updated(u.blueId, u.config), UpfsAsked(u.blueId, Some(u.deployed))]
  }

  ghost function DeployCalls(c: Config, a: Area, now: EdgeArea): seq<Event> {
    if now.router.None? || now.upf.None? then []
    else RouterCalls(c, a, now.router.value) + UpfCalls(a, now.upf.value)
  }

  /** One configured area: deployed if it was not there, else refreshed; then its routes. */
  ghost function AreaCalls(c: Config, a: Area, was: Option<EdgeArea>, now: EdgeArea): seq<Event> {
    (if was.None? then DeployCalls(c, a, now) else RefreshCalls(was.value, now)) + Routes(now)
  }

  function WasAt(edge: Edge, id: int): Option<EdgeArea> {
    if id in edge then Some(edge[id]) else None
  }

  /** What the turn of area k finds: an earlier turn for the same id has brought it up to date. */
  ghost function FoundAt(areas: seq<Area>, before: Edge, after: Edge, k: nat): Option<EdgeArea>
    requires k < |areas|
  {
    if First(areas, k) then WasAt(before, areas[k].id) else WasAt(after, areas[k].id)
  }

  /** The calls for the first n configured areas. */
  ghost function AllCalls(c: Config, before: Edge, after: Edge, n: nat): seq<Event>
    requires n <= |c.areas|
  {
    if n == 0 then []
    else
      var a := c.areas[n - 1];
      AllCalls(c, before, after, n - 1)
      + if a.id in after then AreaCalls(c, a, FoundAt(c.areas, before, after, n - 1), after[a.id]) else []
  }

  ghost function Deletes(ids: seq<nat>): seq<Event> {
    seq(|ids|, i requires 0 <= i < |ids| => Deleted(ids[i]))
  }

  /** The areas that are configured no more, each once, in some order. */
  ghost predicate Leftovers(c: Config, edge: Edge, order: seq<int>) {
    && Distinct(order) && (forall i :: 0 <= i < |order| ==> order[i] in edge)
    && forall x :: x in order <==> x in edge && x !in AreaIds(c.areas)
  }

  /** Exactly these calls were made: for the configured areas in turn, then the deletes for the others. */
  ghost predicate EdgeCalls(c: Config, before: Edge, after: Edge, log: seq<Event>, now: seq<Event>) {
    exists order {:trigger Leftovers(c, before, order)} ::
      && Leftovers(c, before, order)
      && now == log + AllCalls(c, before, after, |c.areas|) + Deletes(OwnedAlong(before, order))
  }

  // -------------------------------------------------------------- the steps

  /** Only the entry of that id matters for its calls. */
  lemma {:induction false} AllCallsSame(c: Config, before: Edge, after: Edge, later: Edge, n: nat)
    requires n <= |c.areas|
    requires forall k :: 0 <= k < n ==> WasAt(after, c.areas[k].id) == WasAt(later, c.areas[k].id)
    ensures AllCalls(c, before, after, n) == AllCalls(c, before, later, n)
  {
    if n > 0 { AllCallsSame(c, before, after, later, n - 1); }
  }

  lemma AllCallsMore(c: Config, before: Edge, middle: Edge, after: Edge, n: nat)
    requires n < |c.areas| && c.areas[n].id in after
    requires forall k :: k in after && k != c.areas[n].id ==> k in middle && after[k] == middle[k]
    requires forall k :: k in middle ==> k in after
    requires First(c.areas, n) ==> WasAt(middle, c.areas[n].id) == WasAt(before, c.areas[n].id)
    requires !First(c.areas, n) ==> after == middle
    ensures AllCalls(c, before, after, n + 1) ==
            AllCalls(c, before, middle, n)
            + AreaCalls(c, c.areas[n], WasAt(middle, c.areas[n].id), after[c.areas[n].id])
  {
    AllCallsSame(c, before, middle, after, n);
  }

  lemma {:induction false} OwnedAlongAppend(edge: Edge, order: seq<int>, x: int)
    requires x in edge && forall i :: 0 <= i < |order| ==> order[i] in edge
    ensures OwnedAlong(edge, order + [x]) == OwnedAlong(edge, order) + Owned(edge[x])
  {
    var all := order + [x];
    if order == [] {
      assert all[1..] == [] && Owned(edge[x]) + [] == [] + Owned(edge[x]);
    } else {
      assert all[1..] == order[1..] + [x];
      OwnedAlongAppend(edge, order[1..], x);
      Associate(Owned(edge[order[0]]), OwnedAlong(edge, order[1..]), Owned(edge[x]));
    }
  }

  lemma DeletesAppend(a: seq<nat>, b: seq<nat>)
    ensures Deletes(a + b) == Deletes(a) + Deletes(b)
  {
  }

  // ------------------------------------------------------- what they amount to

  lemma {:induction false} AllCallsHas(c: Config, before: Edge, after: Edge, n: nat, e: Event)
    requires n <= |c.areas|
    ensures e in AllCalls(c, before, after, n) <==>
            exists k {:trigger FoundAt(c.areas, before, after, k)} ::
              && 0 <= k < n && c.areas[k].id in after
              && e in AreaCalls(c, c.areas[k], FoundAt(c.areas, before, after, k), after[c.areas[k].id])
  {
    hide AreaCalls, First, WasAt;
    if n > 0 {
      AllCallsHas(c, before, after, n - 1, e);
      var f := FoundAt(c.areas, before, after, n - 1);
    }
  }

  /** No routes among these. */
  lemma {:induction false} RoutesAreRoutes(x: nat, upfs: seq<DeployedUpf>)
    ensures forall i :: 0 <= i < |RoutesOf(x, upfs)| ==> RoutesOf(x, upfs)[i].Routed? && RoutesOf(x, upfs)[i].id == x
  {
    if upfs != [] {
      RoutesAreRoutes(x, upfs[..|upfs| - 1]);
      SliceRoutesAreRoutes(x, upfs[|upfs| - 1].served, upfs[|upfs| - 1].n6Ip);
    }
  }

  lemma {:induction false} SliceRoutesAreRoutes(x: nat, served: seq<SliceModel>, hop: string)
    ensures forall i :: 0 <= i < |RoutesOfSlices(x, served, hop)| ==>
                          RoutesOfSlices(x, served, hop)[i].Routed? && RoutesOfSlices(x, served, hop)[i].id == x
  {
    if served != [] { SliceRoutesAreRoutes(x, served[..|served| - 1], hop); }
  }

  lemma {:induction false} RoutesHave(x: nat, upfs: seq<DeployedUpf>, u: DeployedUpf, m: SliceModel, d: DnnModel)
    requires u in upfs && m in u.served && d in m.dnns
    ensures Routed(x, d.cidr, u.n6Ip) in RoutesOf(x, upfs)
  {
    var n := |upfs| - 1;
    if u == upfs[n] {
      SliceRoutesHave(x, u.served, u.n6Ip, m, d);
    } else {
      assert upfs == upfs[..n] + [upfs[n]];
      RoutesHave(x, upfs[..n], u, m, d);
    }
  }

  lemma {:induction false} SliceRoutesHave(x: nat, served: seq<SliceModel>, hop: string, m: SliceModel, d: DnnModel)
    requires m in served && d in m.dnns
    ensures Routed(x, d.cidr, hop) in RoutesOfSlices(x, served, hop)
  {
    var n := |served| - 1;
    if m == served[n] {
      var k :| 0 <= k < |m.dnns| && m.dnns[k] == d;
      assert RoutesOfDnns(x, m.dnns, hop)[k] == Routed(x, d.cidr, hop);
    } else {
      assert served == served[..n] + [served[n]];
      SliceRoutesHave(x, served[..n], hop, m, d);
    }
  }

  /** A router blueprint is created in the turn of the first area of an id that was not there, if it is internal. */
  lemma RouterTurn(c: Config, before: Edge, after: Edge, k: nat, e: Event)
    requires k < |c.areas| && c.areas[k].id in after && e.Created? && e.child.RouterChild?
    ensures var (a, now) := (c.areas[k], after[c.areas[k].id]);
            e in AreaCalls(c, a, FoundAt(c.areas, before, after, k), now) <==>
            && First(c.areas, k) && a.id !in before && Whole(now)
            && !now.router.value.external && now.router.value.blueId.Some?
            && e == Created(RouterChild(NetsFor(c, a)), a.id, now.router.value.blueId.value)
  {
    var now := after[c.areas[k].id];
    if Whole(now) && !now.router.value.external {
      var r := now.router.value;
      RoutesAreRoutes(if r.blueId.Some? then r.blueId.value else 0, now.upf.value.deployed);
    }
  }

  /**
   * A configured area that was not there before: a router blueprint is created for it iff it names no
   * external router, with the networks of the area and the core, and what is recorded is its answer.
   */
  lemma RouterCreatedExactlyWhen(c: Config, before: Edge, after: Edge, k: nat)
    requires k < |c.areas| && First(c.areas, k) && c.areas[k].id !in before
    requires c.areas[k].id in after && Whole(after[c.areas[k].id])
    requires RoutersFit(c.areas, |c.areas|, before, after)
    ensures var (calls, a, e) := (AllCalls(c, before, after, |c.areas|), c.areas[k], after[c.areas[k].id]);
            && ((exists n, x :: Created(RouterChild(n), a.id, x) in calls) <==> a.networks.externalRouter.None?)
            && match a.networks.externalRouter
               case Some(net) => e.router == Some(Router(None, true, net))
               case None =>
                 && e.router.value.blueId.Some?
                 && var x := e.router.value.blueId.value;
                 && var nets := RouterNets(OrEmpty(c.mgt), OrEmpty(a.networks.gnb), OrEmpty(c.wan),
                                           OrEmpty(a.networks.n3), OrEmpty(a.networks.n6));
                 && Created(RouterChild(nets), a.id, x) in calls
                 && RouterAsked(x, Some(e.router.value.network)) in calls
  {
    var (calls, a, e) := (AllCalls(c, before, after, |c.areas|), c.areas[k], after[c.areas[k].id]);
    var f := FoundAt(c.areas, before, after, k);
    assert RouterFits(a, e);
    if a.networks.externalRouter.None? {
      var x := e.router.value.blueId.value;
      var (made, asked) := (Created(RouterChild(NetsFor(c, a)), a.id, x), RouterAsked(x, Some(e.router.value.network)));
      assert RouterCalls(c, a, e.router.value) == [made, asked];
      AllCallsHas(c, before, after, |c.areas|, made);
      AllCallsHas(c, before, after, |c.areas|, asked);
    }
    forall n, x | Created(RouterChild(n), a.id, x) in calls ensures a.networks.externalRouter.None? {
      OnlyItsTurn(c, before, after, k, Created(RouterChild(n), a.id, x));
    }
  }

  lemma OnlyItsTurn(c: Config, before: Edge, after: Edge, k: nat, e: Event)
    requires k < |c.areas| && First(c.areas, k) && c.areas[k].id in after
    requires e.Created? && e.child.RouterChild? && e.area == c.areas[k].id
    requires e in AllCalls(c, before, after, |c.areas|)
    ensures Whole(after[c.areas[k].id]) && !after[c.areas[k].id].router.value.external
  {
    AllCallsHas(c, before, after, |c.areas|, e);
    var j :| && 0 <= j < |c.areas| && c.areas[j].id in after
             && e in AreaCalls(c, c.areas[j], FoundAt(c.areas, before, after, j), after[c.areas[j].id]);
    RouterTurn(c, before, after, j, e);
  }

  /** Such an area gets a UPF blueprint of its type, and what is recorded is that one's configuration and answer. */
  lemma UpfCreated(c: Config, before: Edge, after: Edge, k: nat)
    requires k < |c.areas| && First(c.areas, k) && c.areas[k].id !in before
    requires c.areas[k].id in after && Whole(after[c.areas[k].id])
    ensures var (calls, a, u) := (AllCalls(c, before, after, |c.areas|), c.areas[k], after[c.areas[k].id].upf.value);
            && Created(UpfChild(a.upfType, u.config), a.id, u.blueId) in calls
            && UpfsAsked(u.blueId, Some(u.deployed)) in calls
  {
    var (a, u, f) := (c.areas[k], after[c.areas[k].id].upf.value, FoundAt(c.areas, before, after, k));
    AllCallsHas(c, before, after, |c.areas|, Created(UpfChild(a.upfType, u.config), a.id, u.blueId));
    AllCallsHas(c, before, after, |c.areas|, UpfsAsked(u.blueId, Some(u.deployed)));
  }

  /** An area whose record has changed: its UPF was told the configuration that is recorded now. */
  lemma ChangeIsTold(c: Config, before: Edge, after: Edge, k: nat)
    requires k < |c.areas| && First(c.areas, k) && c.areas[k].id in before
    requires c.areas[k].id in after && Whole(after[c.areas[k].id]) && before[c.areas[k].id] != after[c.areas[k].id]
    ensures var u := after[c.areas[k].id].upf.value;
            Updated(u.blueId, u.config) in AllCalls(c, before, after, |c.areas|)
  {
    var (u, f) := (after[c.areas[k].id].upf.value, FoundAt(c.areas, before, after, k));
    AllCallsHas(c, before, after, |c.areas|, Updated(u.blueId, u.config));
  }

  /** On an internal router the pool of every network that is served is routed through the UPF that serves it. */
  lemma PoolsAreRouted(c: Config, before: Edge, after: Edge, k: nat, u: DeployedUpf, m: SliceModel, d: DnnModel)
    requires k < |c.areas| && c.areas[k].id in after && Whole(after[c.areas[k].id])
    requires var e := after[c.areas[k].id];
             && !e.router.value.external && e.router.value.blueId.Some?
             && u in e.upf.value.deployed && m in u.served && d in m.dnns
    ensures Routed(after[c.areas[k].id].router.value.blueId.value, d.cidr, u.n6Ip)
            in AllCalls(c, before, after, |c.areas|)
  {
    var (e, f) := (after[c.areas[k].id], FoundAt(c.areas, before, after, k));
    RoutesHave(e.router.value.blueId.value, e.upf.value.deployed, u, m, d);
    AllCallsHas(c, before, after, |c.areas|, Routed(e.router.value.blueId.value, d.cidr, u.n6Ip));
  }

  /** Deleted are exactly the blueprints of the areas configured no more. */
  lemma DeletedExactlyWhen(c: Config, edge: Edge, order: seq<int>, x: nat)
    requires Leftovers(c, edge, order)
    ensures Deleted(x) in Deletes(OwnedAlong(edge, order)) <==>
            exists id :: id in edge && id !in AreaIds(c.areas) && x in Owned(edge[id])
  {
    var ids := OwnedAlong(edge, order);
    OwnedAlongHas(edge, order, x);
    if x in ids {
      var i :| 0 <= i < |ids| && ids[i] == x;
      assert Deletes(ids)[i] == Deleted(x);
    }
    if Deleted(x) in Deletes(ids) {
      var i :| 0 <= i < |ids| && Deletes(ids)[i] == Deleted(x);
      assert ids[i] == x;
    }
  }

  /** Where nothing changes there are only routes. */
  lemma {:induction false} QuietCalls(c: Config, edge: Edge, n: nat)
    requires n <= |c.areas| && forall k :: 0 <= k < n ==> c.areas[k].id in edge
    ensures forall i :: 0 <= i < |AllCalls(c, edge, edge, n)| ==> AllCalls(c, edge, edge, n)[i].Routed?
  {
    hide RoutesOf;
    if n > 0 {
      QuietCalls(c, edge, n - 1);
      var e := edge[c.areas[n - 1].id];
      if Whole(e) {
        RoutesAreRoutes(if e.router.value.blueId.Some? then e.router.value.blueId.value else 0, e.upf.value.deployed);
      }
      assert [] + Routes(e) == Routes(e);
    }
  }

  lemma QuietUpdate(c: Config, edge: Edge, log: seq<Event>, now: seq<Event>)
    requires EdgeCalls(c, edge, edge, log, now) && edge.Keys == AreaIds(c.areas)
    ensures OnlyRoutes(log, now)
  {
    var order :| Leftovers(c, edge, order)
                 && now == log + AllCalls(c, edge, edge, |c.areas|) + Deletes(OwnedAlong(edge, order));
    assert forall i :: 0 <= i < |order| ==> order[i] !in order;
    forall k | 0 <= k < |c.areas| ensures c.areas[k].id in edge { assert c.areas[k] in c.areas; }
    QuietCalls(c, edge, |c.areas|);
  }
}
