/**
 * The 5G blueprint: it brings what is deployed in line with its configuration
 * (src/nfvcl/blueprints_ng/modules/generic_5g/generic_5g.py).
 */
module Generic5g {
  import opened Wrappers
  import opened Seqs
  import opened Core5g
  import opened EdgeAreas
  import opened ChildCalls
  import opened Pdus

  /** The blueprint provider: each call may fail, and a new blueprint gets a new id. */
  class BlueprintProvider {
    var next: nat
    var log: seq<Event>

    constructor ()
      ensures log == []
    {
      next, log := 0, [];
    }

    method Create(child: Child, area: int) returns (id: Option<nat>)
      modifies this
      ensures id.Some? ==> id.value == old(next)
      ensures next == old(next) + 1 && log == old(log) + [Created(child, area, old(next))]
    {
      var ok: bool := *;
      id := if ok then Some(next) else None;
      log := log + [Created(child, area, next)];
      next := next + 1;
    }

    method Delete(id: nat) returns (ok: bool)
      modifies this`log
      ensures log == old(log) + [Deleted(id)]
    {
      ok := *;
      log := log + [Deleted(id)];
    }

    method Update(id: nat, config: UpfConfig) returns (ok: bool)
      modifies this`log
      ensures log == old(log) + [Updated(id, config)]
    {
      ok := *;
      log := log + [Updated(id, config)];
    }

    method GetRouterInfo(id: nat) returns (net: Option<RouterNet>)
      modifies this`log
      ensures log == old(log) + [RouterAsked(id, net)]
    {
      net := *;
      log := log + [RouterAsked(id, net)];
    }

    method GetUpfsInfo(id: nat) returns (deployed: Option<seq<DeployedUpf>>)
      modifies this`log
      ensures log == old(log) + [UpfsAsked(id, deployed)]
    {
      deployed := *;
      log := log + [UpfsAsked(id, deployed)];
    }

    method AddRoute(id: nat, cidr: string, nextHop: string) returns (ok: bool)
      modifies this`log
      ensures log == old(log) + [Routed(id, cidr, nextHop)]
    {
      ok := *;
      log := log + [Routed(id, cidr, nextHop)];
    }
  }

  /** Where an update of the edge areas starts from. */
  datatype Start = Start(edge: Edge, children: seq<nat>, log: seq<Event>, converged: bool, inOrder: bool)

  datatype RanArea = RanArea(area: int, pduName: string)

  /** What the gNB behind a PDU is told: its area and slices, a UPF, and the route to the UPFs of its area. */
  datatype GnbCall = GnbCall(
    pduName: string, area: int, slices: seq<AreaSlice>, upfIp: string, routeCidr: string, nextHop: string)

  class Generic5GBlueprint {
    const blueprints: BlueprintProvider
    const pdus: PduProvider
    var config: Config
    var edge: Edge
    var ran: map<int, RanArea>
    var children: seq<nat>
    var nrfIp: Option<string> // None until the core is deployed
    var gnbCalls: seq<GnbCall> // the configurations that gNBs were given
    var pushed: seq<Config> // the configurations that the core was given

    constructor (blueprints: BlueprintProvider, pdus: PduProvider, config: Config)
      ensures this.blueprints == blueprints && this.pdus == pdus && this.config == config
      ensures edge == map[] && ran == map[] && children == [] && nrfIp == None && gnbCalls == [] && pushed == []
    {
      this.blueprints, this.pdus, this.config := blueprints, pdus, config;
      edge, ran, children, nrfIp, gnbCalls, pushed := map[], map[], [], None, [], [];
    }

    /** All children are the routers and UPFs of the areas, and ids still to come are new. */
    ghost predicate InOrder()
      reads this, blueprints
    {
      Accounted(edge, children) && forall x :: x in children ==> x < blueprints.next
    }

    /** Some area was left without a router or a UPF. */
    ghost predicate Blocked()
      reads this
    {
      exists x :: x in edge && !Whole(edge[x])
    }

    // -------------------------------------------------------------- UPF config

    method AppendProfiles(before: seq<Option<Profile>>, slices: seq<AreaSlice>) returns (ps: seq<Option<Profile>>)
      ensures ps == before + ProfilesOfSlices(slices, config.profiles)
    {
      ps := before;
      var j := 0;
      assert slices[0..] == slices;
      while j < |slices|
        invariant 0 <= j <= |slices|
        invariant before + ProfilesOfSlices(slices, config.profiles)
                  == ps + ProfilesOfSlices(slices[j..], config.profiles)
      {
        assert slices[j..][1..] == slices[j + 1..];
        ps := ps + [GetSliceProfile(config.profiles, slices[j].sliceId)];
        j := j + 1;
      }
    }

    method GetSlicesProfilesForArea(areaId: int) returns (ps: seq<Option<Profile>>)
      ensures ps == ProfilesForArea(config.areas, config.profiles, areaId)
    {
      ps := [];
      var areas := config.areas;
      var i := 0;
      assert areas[0..] == areas;
      while i < |areas|
        invariant 0 <= i <= |areas|
        invariant ProfilesForArea(areas, config.profiles, areaId)
                  == ps + ProfilesForArea(areas[i..], config.profiles, areaId)
      {
        ProfilesStep(areas, config.profiles, areaId, i, ps);
        if areas[i].id == areaId {
          ps := AppendProfiles(ps, areas[i].slices);
        }
        i := i + 1;
      }
    }

    /** None when it raises. */
    method CreateUpfConfig(areaId: int) returns (r: Option<UpfConfig>)
      requires areaId in edge
      ensures r == if edge[areaId].router.None? then None
                   else UpfConfigFor(config, areaId, edge[areaId].router.value.network, nrfIp)
      ensures r.Some? <==> edge[areaId].router.Some? && Configurable(config, areaId)
    {
      if edge[areaId].router.Some? { UpfConfigExactlyWhen(config, areaId, edge[areaId].router.value.network, nrfIp); }
      var ps := GetSlicesProfilesForArea(areaId);
      var slices := FromProfiles(ps);
      if slices.None? { return None; }
      var area := GetArea(config, areaId);
      if area.None? || config.mgt.None? || config.wan.None? { return None; }
      var nets := area.value.networks;
      if nets.n3.None? || nets.n6.None? || edge[areaId].router.None? { return None; }
      var net := edge[areaId].router.value.network;
      r := Some(UpfConfig(areaId, config.mgt.value, config.wan.value, nets.n3.value, nets.n6.value,
                          slices.value, net.n3Ip, net.n6Ip, net.gnbCidr, nrfIp));
    }

    /** Its loop over the slice profiles. */
    method FromProfiles(ps: seq<Option<Profile>>) returns (r: Option<seq<SliceModel>>)
      ensures r == SliceModels(ps, config.dataNets)
    {
      var slices: seq<SliceModel> := [];
      var i := 0;
      assert ps[0..] == ps;
      assert SliceModels(ps, config.dataNets).Some? ==>
          slices + SliceModels(ps, config.dataNets).value == SliceModels(ps, config.dataNets).value;
      while i < |ps|
        invariant 0 <= i <= |ps|
        invariant SliceModels(ps, config.dataNets)
                  == match SliceModels(ps[i..], config.dataNets)
                     case Some(rest) => Some(slices + rest)
                     case None => None
      {
        assert ps[i..][1..] == ps[i + 1..];
        if ps[i].None? { return None; }
        var m := FromProfile(ps[i].value, config.dataNets);
        if m.None? { return None; }
        ghost var rest := SliceModels(ps[i + 1..], config.dataNets);
        assert rest.Some? ==> slices + ([m.value] + rest.value) == (slices + [m.value]) + rest.value;
        slices := slices + [m.value];
        i := i + 1;
      }
      assert slices + [] == slices;
      r := Some(slices);
    }

    // ------------------------------------------------------------- edge areas

    /** Registers a child; false when it is there already. */
    method RegisterChild(x: nat) returns (ok: bool)
      modifies this`children
      ensures ok <==> x !in old(children)
      ensures children == if ok then old(children) + [x] else old(children)
    {
      ok := x !in children;
      if ok { children := children + [x]; }
    }

    method DeregisterChild(x: nat) returns (ok: bool)
      modifies this`children
      ensures ok <==> x in old(children)
      ensures children == RemoveFirst(old(children), x)
    {
      ok := x in children;
      children := RemoveFirst(children, x);
    }

    method DeployRouter(areaId: int) returns (r: Option<Router>)
      modifies this`children, blueprints
      ensures r.Some? ==>
                && !r.value.external && r.value.blueId == Some(old(blueprints.next))
                && old(blueprints.next) !in old(children)
                && children == old(children) + [old(blueprints.next)]
                && blueprints.next == old(blueprints.next) + 1
      ensures r.Some? ==>
                && GetArea(config, areaId).Some?
                && blueprints.log == old(blueprints.log) + RouterCalls(config, GetArea(config, areaId).value, r.value)
      ensures r.None? ==> MaybeOneMore(old(children), children, old(blueprints.next))
    {
      var area := GetArea(config, areaId);
      if area.None? || config.mgt.None? || config.wan.None? { return None; }
      var nets := area.value.networks;
      if nets.gnb.None? || nets.n3.None? || nets.n6.None? { return None; }
      var own := RouterNets(config.mgt.value, nets.gnb.value, config.wan.value, nets.n3.value, nets.n6.value);
      var x := blueprints.Create(RouterChild(own), areaId);
      if x.None? { return None; }
      var ok := RegisterChild(x.value);
      if !ok { return None; }
      var net := blueprints.GetRouterInfo(x.value);
      if net.None? { return None; }
      r := Some(Router(x, false, net.value));
    }

    /** What is recorded about the UPF of an area; None when the call fails. */
    method GetUpfsInfo(areaId: int, upfId: nat, current: UpfConfig) returns (r: Option<Upf>)
      requires areaId in edge
      modifies blueprints`log
      ensures r.Some? ==> r.value.blueId == upfId && r.value.config == current
      ensures r.Some? ==> && edge[areaId].router.Some? && r.value.gnbIp == edge[areaId].router.value.network.gnbIp
                          && blueprints.log == old(blueprints.log) + [UpfsAsked(upfId, Some(r.value.deployed))]
    {
      var deployed := blueprints.GetUpfsInfo(upfId);
      if deployed.None? || edge[areaId].router.None? { return None; }
      r := Some(Upf(upfId, edge[areaId].router.value.network.gnbIp, deployed.value, current));
    }

    method DeployUpf(areaId: int, upfType: string) returns (r: Option<Upf>)
      requires areaId in edge
      modifies this`children, blueprints
      ensures r.Some? ==>
                && edge[areaId].router.Some?
                && UpfConfigFor(config, areaId, edge[areaId].router.value.network, nrfIp) == Some(r.value.config)
                && r.value.blueId == old(blueprints.next)
                && old(blueprints.next) !in old(children)
                && children == old(children) + [old(blueprints.next)]
                && blueprints.next == old(blueprints.next) + 1
      ensures r.Some? ==>
                && r.value.gnbIp == edge[areaId].router.value.network.gnbIp
                && blueprints.log == old(blueprints.log)
                   + [Created(UpfChild(upfType, r.value.config), areaId, r.value.blueId),
                      UpfsAsked(r.value.blueId, Some(r.value.deployed))]
      ensures r.None? ==> MaybeOneMore(old(children), children, old(blueprints.next))
    {
      var current := CreateUpfConfig(areaId);
      if current.None? { return None; }
      var x := blueprints.Create(UpfChild(upfType, current.value), areaId);
      if x.None? { return None; }
      var ok := RegisterChild(x.value);
      if !ok { return None; }
      r := GetUpfsInfo(areaId, x.value, current.value);
    }

    /**
     * A configured area that is not deployed yet. After a success its router is the one that it asks
     * for, and exactly the calls for a router, unless it is external, and for a UPF were made.
     */
    method DeployArea(area: Area) returns (ok: bool)
      requires area.id !in edge && GetArea(config, area.id) == Some(area)
      modifies this`edge, this`children, blueprints
      ensures ok ==>
                && area.id in edge && RouterFits(area, edge[area.id])
                && edge[area.id].upf.Some? && edge[area.id].upf.value.gnbIp == edge[area.id].router.value.network.gnbIp
                && blueprints.log == old(blueprints.log) + DeployCalls(config, area, edge[area.id])
      ensures ok ==>
                && edge.Keys == old(edge.Keys) + {area.id}
                && (forall k :: k in old(edge) ==> edge[k] == old(edge)[k])
                && UpToDate(config, area.id, edge[area.id], nrfIp)
      ensures ok && old(InOrder()) ==> InOrder()
      ensures !ok ==> area.id in edge && !Whole(edge[area.id]) && edge == old(edge)[area.id := edge[area.id]]
      ensures old(InOrder()) ==> OffByOne(edge, children)
    {
      ghost var before, kids, first, log := edge, children, blueprints.next, blueprints.log;
      ghost var sound := InOrder();
      ok := PlaceRouter(area);
      ghost var e, second := edge[area.id], blueprints.next;
      if !ok {
        if sound { FailedDeployment(before, kids, area.id, e, children, first); }
        return;
      }
      var upf := DeployUpf(area.id, area.upfType);
      if upf.None? {
        if sound { FailedDeployment(before, kids, area.id, e, children, second); }
        return false;
      }
      edge := edge[area.id := edge[area.id].(upf := upf)];
      Associate(log, RouterCalls(config, area, e.router.value), UpfCalls(area, upf.value));
      assert edge == before[area.id := e.(upf := upf)];
      if sound { DeploymentKeeps(before, kids, area.id, e, upf.value, first); }
    }

    /** The area is entered, and its router deployed unless it is external. */
    method PlaceRouter(area: Area) returns (ok: bool)
      requires area.id !in edge && GetArea(config, area.id) == Some(area)
      modifies this`edge, this`children, blueprints
      ensures area.id in edge && edge == old(edge)[area.id := edge[area.id]]
      ensures edge[area.id].upf.None? && (ok <==> edge[area.id].router.Some?)
      ensures ok ==>
                && var e := edge[area.id];
                && children == old(children) + Owned(e) && blueprints.next == old(blueprints.next) + |Owned(e)|
                && RouterFits(area, e)
                && blueprints.log == old(blueprints.log) + RouterCalls(config, area, e.router.value)
                && forall x :: x in Owned(e) ==> x == old(blueprints.next) && x !in old(children)
      ensures !ok ==> MaybeOneMore(old(children), children, old(blueprints.next))
    {
      edge := edge[area.id := EdgeArea(None, None)];
      var router;
      if area.networks.externalRouter.None? {
        router := DeployRouter(area.id);
        if router.None? { return false; }
      } else {
        router := Some(Router(None, true, area.networks.externalRouter.value));
      }
      edge := edge[area.id := edge[area.id].(router := router)];
      ok := true;
    }

    /** A configured area that is deployed, but may need a new UPF configuration. */
    method RefreshArea(areaId: int) returns (ok: bool)
      requires areaId in edge
      modifies this`edge, blueprints`log
      ensures ok ==>
                && edge.Keys == old(edge.Keys)
                && (forall k :: k in edge && k != areaId ==> edge[k] == old(edge)[k])
                && edge[areaId].router.Some? && edge[areaId].upf.Some?
                && edge[areaId].router == old(edge)[areaId].router
                && UpfConfigFor(config, areaId, edge[areaId].router.value.network, nrfIp)
                   == Some(edge[areaId].upf.value.config)
      ensures ok && old(InOrder()) ==> InOrder()
      ensures ok && UpToDate(config, areaId, old(edge)[areaId], nrfIp) ==>
                edge == old(edge) && blueprints.log == old(blueprints.log)
      ensures ok ==>
                && SameBlueprints(old(edge)[areaId], edge[areaId])
                && blueprints.log == old(blueprints.log) + RefreshCalls(old(edge)[areaId], edge[areaId])
      ensures !ok ==> edge == old(edge)
      ensures !Whole(old(edge)[areaId]) ==> !ok
      ensures old(InOrder()) ==> OffByOne(edge, children)
    {
      ghost var before := edge;
      ok := RefreshUpf(areaId);
      RefreshKeeps(before, children, areaId, edge[areaId]);
      assert edge == before[areaId := edge[areaId]];
    }

    method RefreshUpf(areaId: int) returns (ok: bool)
      requires areaId in edge
      modifies this`edge, blueprints`log
      ensures areaId in edge && edge == old(edge)[areaId := edge[areaId]]
      ensures edge[areaId].router == old(edge)[areaId].router && Owned(edge[areaId]) == Owned(old(edge)[areaId])
      ensures Whole(edge[areaId]) == Whole(old(edge)[areaId])
      ensures ok ==> UpToDate(config, areaId, edge[areaId], nrfIp)
      ensures ok && UpToDate(config, areaId, old(edge)[areaId], nrfIp) ==>
                edge == old(edge) && blueprints.log == old(blueprints.log)
      ensures ok ==> && SameBlueprints(old(edge)[areaId], edge[areaId])
                     && blueprints.log == old(blueprints.log) + RefreshCalls(old(edge)[areaId], edge[areaId])
      ensures !ok ==> edge == old(edge)
    {
      var info := edge[areaId];
      var current := CreateUpfConfig(areaId);
      if current.None? || info.upf.None? { return false; }
      if info.upf.value.config != current.value {
        ok := blueprints.Update(info.upf.value.blueId, current.value);
        if !ok { return; }
        var upf := GetUpfsInfo(areaId, info.upf.value.blueId, current.value);
        if upf.None? { return false; }
        edge := edge[areaId := info.(upf := upf)];
      }
      ok := true;
    }

    /** Routes each served network through the UPF that serves it. */
    method RouteArea(areaId: int) returns (ok: bool)
      requires areaId in edge && edge[areaId].router.Some? && edge[areaId].upf.Some?
      modifies blueprints`log
      ensures ok ==> blueprints.log == old(blueprints.log) + Routes(edge[areaId])
    {
      ghost var before := blueprints.log;
      var router, deployed := edge[areaId].router.value, edge[areaId].upf.value.deployed;
      ghost var x := if router.blueId.Some? then router.blueId.value else 0;
      for i := 0 to |deployed|
        invariant blueprints.log == before + if router.external then [] else RoutesOf(x, deployed[..i])
      {
        ok := RouteUpf(router, deployed[i]);
        if !ok { return; }
        assert deployed[..i + 1][..i] == deployed[..i];
        Associate(before, RoutesOf(x, deployed[..i]), RoutesOfSlices(x, deployed[i].served, deployed[i].n6Ip));
      }
      assert deployed[..|deployed|] == deployed;
      ok := true;
    }

    /** The networks of the slices that one UPF serves. */
    method RouteUpf(router: Router, upf: DeployedUpf) returns (ok: bool)
      modifies blueprints`log
      ensures ok ==>
                var x := if router.blueId.Some? then router.blueId.value else 0;
                blueprints.log == old(blueprints.log)
                                  + if router.external then [] else RoutesOfSlices(x, upf.served, upf.n6Ip)
    {
      ghost var before := blueprints.log;
      ghost var x := if router.blueId.Some? then router.blueId.value else 0;
      var served := upf.served;
      for j := 0 to |served|
        invariant blueprints.log == before + if router.external then [] else RoutesOfSlices(x, served[..j], upf.n6Ip)
      {
        ok := RouteSlice(router, served[j].dnns, upf.n6Ip);
        if !ok { return; }
        assert served[..j + 1][..j] == served[..j];
        Associate(before, RoutesOfSlices(x, served[..j], upf.n6Ip), RoutesOfDnns(x, served[j].dnns, upf.n6Ip));
      }
      assert served[..|served|] == served;
      ok := true;
    }

    /** add_route_to_router for each network of a slice: an external router is left alone. */
    method RouteSlice(router: Router, dnns: seq<DnnModel>, hop: string) returns (ok: bool)
      modifies blueprints`log
      ensures ok ==>
                var x := if router.blueId.Some? then router.blueId.value else 0;
                blueprints.log == old(blueprints.log) + if router.external then [] else RoutesOfDnns(x, dnns, hop)
    {
      ghost var before := blueprints.log;
      ghost var x := if router.blueId.Some? then router.blueId.value else 0;
      for k := 0 to |dnns|
        invariant blueprints.log == before + if router.external then [] else RoutesOfDnns(x, dnns[..k], hop)
      {
        if !router.external {
          if router.blueId.None? { return false; }
          ok := blueprints.AddRoute(router.blueId.value, dnns[k].cidr, hop);
          if !ok { return; }
          assert RoutesOfDnns(x, dnns[..k + 1], hop)
                 == RoutesOfDnns(x, dnns[..k], hop) + [Routed(x, dnns[k].cidr, hop)];
        }
      }
      assert dnns[..|dnns|] == dnns;
      ok := true;
    }

    /** The blueprint is deleted, then deregistered. */
    method DeleteChild(x: nat) returns (ok: bool)
      modifies this`children, blueprints`log
      ensures ok ==> children == RemoveFirst(old(children), x)
      ensures !ok ==> children == old(children)
      ensures blueprints.log == old(blueprints.log) + [Deleted(x)]
    {
      ok := blueprints.Delete(x);
      if ok { ok := DeregisterChild(x); }
    }

    /** A deployed area that is configured no more. */
    method UndeployArea(areaId: int) returns (ok: bool)
      requires areaId in edge
      modifies this`edge, this`children, blueprints`log
      ensures ok ==> edge == old(edge) - {areaId} && Whole(old(edge)[areaId])
      ensures ok ==> blueprints.log == old(blueprints.log) + Deletes(Owned(old(edge)[areaId]))
      ensures ok && old(InOrder()) ==> InOrder()
      ensures !ok ==> edge == old(edge)
      ensures !ok && old(InOrder()) ==> OffByOne(edge, children)
    {
      ghost var before, kids := edge, children;
      if Accounted(before, kids) { UndeployMayMiss(before, kids, areaId); }
      ok := DeleteOwned(edge[areaId]);
      if !ok { return; }
      edge := edge - {areaId};
      if Accounted(before, kids) {
        AccountedShrinks(before, kids, areaId);
        WithoutAllHas(kids, Owned(before[areaId]));
      }
    }

    /** The router, unless external, and the UPF of an area. It may fail after the router. */
    method DeleteOwned(info: EdgeArea) returns (ok: bool)
      modifies this`children, blueprints`log
      ensures ok ==> && Whole(info) && children == WithoutAll(old(children), Owned(info))
                     && blueprints.log == old(blueprints.log) + Deletes(Owned(info))
      ensures !ok ==>
                || children == old(children)
                || (info.router.Some? && !info.router.value.external && info.router.value.blueId.Some?
                    && children == RemoveFirst(old(children), info.router.value.blueId.value))
    {
      ghost var kids, log := children, blueprints.log;
      if info.router.None? { return false; }
      if !info.router.value.external {
        if info.router.value.blueId.None? { return false; }
        ok := DeleteChild(info.router.value.blueId.value);
        if !ok { return; }
      }
      if info.upf.None? { return false; }
      ok := DeleteChild(info.upf.value.blueId);
      if !ok { return; }
      WithoutBoth(kids, Owned(info));
      DeletesBoth(log, Owned(info));
    }

    /** One configured area: deployed or refreshed, then routed. */
    method UpdateArea(area: Area) returns (ok: bool)
      requires area.id !in edge ==> GetArea(config, area.id) == Some(area)
      modifies this`edge, this`children, blueprints
      ensures ok ==>
                && area.id in edge
                && blueprints.log == old(blueprints.log)
                                     + AreaCalls(config, area, WasAt(old(edge), area.id), edge[area.id])
      ensures ok && area.id !in old(edge) ==> RouterFits(area, edge[area.id])
      ensures ok ==> BlueprintsStay(old(edge), edge)
      ensures ok ==>
                && edge.Keys == old(edge.Keys) + {area.id}
                && (forall k :: k in edge && k != area.id ==> edge[k] == old(edge)[k])
                && UpToDate(config, area.id, edge[area.id], nrfIp)
      ensures ok && old(InOrder()) ==> InOrder()
      ensures ok && area.id in old(edge) && UpToDate(config, area.id, old(edge)[area.id], nrfIp) ==>
                edge == old(edge) && children == old(children)
      ensures BrokenStay(old(edge), edge)
      ensures ok && area.id in old(edge) ==> Whole(old(edge)[area.id])
      ensures old(InOrder()) ==> OffByOne(edge, children)
    {
      hide RouterFits, Accounted, OffByOne, Routes, RefreshCalls, DeployCalls;
      ghost var was, log := edge, blueprints.log;
      if area.id !in edge {
        ok := DeployArea(area);
        if !ok { return; }
      } else {
        ok := RefreshArea(area.id);
        if !ok { return; }
      }
      ghost var made := if area.id in was then RefreshCalls(was[area.id], edge[area.id])
                        else DeployCalls(config, area, edge[area.id]);
      assert blueprints.log == log + made;
      ok := RouteArea(area.id);
      Associate(log, made, Routes(edge[area.id]));
    }

    /** The first loop of update_edge_areas. */
    method UpdateConfiguredAreas() returns (ok: bool, ghost start: Start)
      modifies this`edge, this`children, blueprints
      ensures start == old(Start(edge, children, blueprints.log, Converged(config, edge, nrfIp), InOrder()))
      ensures ok ==> TurnedTo(start, |config.areas|)
      ensures BrokenStay(start.edge, edge) && (start.inOrder ==> OffByOne(edge, children))
    {
      hide TurnedTo, BrokenStay, OffByOne;
      start := Start(edge, children, blueprints.log, Converged(config, edge, nrfIp), InOrder());
      FirstTurns();
      var i := 0;
      while i < |config.areas|
        invariant 0 <= i <= |config.areas| && TurnedTo(start, i)
      {
        ok := UpdateNext(start, i);
        if !ok { return; }
        i := i + 1;
      }
      SoFar(start, i);
      ok := true;
    }

    /** The first n configured areas have had their turn. */
    ghost predicate TurnedTo(start: Start, n: nat)
      reads this, blueprints
    {
      && Brought(config, nrfIp, start.edge, edge, n, start.log, blueprints.log)
      && (start.inOrder ==> InOrder())
      && (start.converged ==>
            && Converged(config, edge, nrfIp)
            && edge == start.edge && children == start.children)
    }

    lemma FirstTurns()
      ensures TurnedTo(Start(edge, children, blueprints.log, Converged(config, edge, nrfIp), InOrder()), 0)
    {
      NothingBrought(config, nrfIp, edge, blueprints.log);
    }

    lemma SoFar(start: Start, n: nat)
      requires TurnedTo(start, n)
      ensures BrokenStay(start.edge, edge) && (start.inOrder ==> OffByOne(edge, children))
    {
      if start.inOrder { AccountedIsOff(edge, children); }
    }

    /** One turn of that loop. */
    method UpdateNext(ghost start: Start, n: nat) returns (ok: bool)
      requires n < |config.areas| && TurnedTo(start, n)
      modifies this`edge, this`children, blueprints
      ensures ok ==> TurnedTo(start, n + 1)
      ensures BrokenStay(start.edge, edge) && (start.inOrder ==> OffByOne(edge, children))
    {
      var area := config.areas[n];
      assert area in config.areas;
      ghost var middle, log := edge, blueprints.log;
      NotYetThere(config, middle, n, nrfIp);
      ok := UpdateArea(area);
      BrokenStayOn(start.edge, middle, edge);
      if !ok { return; }
      UpToDateStep(config, middle, edge, n, nrfIp);
      TurnedMore(config, start.edge, middle, edge, n, start.log, log, blueprints.log, nrfIp);
      WholeStep(config, start.edge, middle, n);
    }

    /** The second loop of update_edge_areas, over the areas configured no more in any order. */
    method UndeployLeftovers() returns (ok: bool, ghost order: seq<int>)
      modifies this`edge, this`children, blueprints`log
      ensures ok ==> && Leftovers(config, old(edge), order)
                     && blueprints.log == old(blueprints.log) + Deletes(OwnedAlong(old(edge), order))
      ensures ok ==> edge == old(edge) - (old(edge).Keys - AreaIds(config.areas))
      ensures ok && old(InOrder()) ==> InOrder()
      ensures BrokenStay(old(edge), edge)
      ensures ok ==> forall x :: x in old(edge) && x !in AreaIds(config.areas) ==> Whole(old(edge)[x])
      ensures old(InOrder()) ==> OffByOne(edge, children)
      ensures old(edge).Keys <= AreaIds(config.areas) ==>
                && edge == old(edge) && children == old(children) && blueprints.log == old(blueprints.log)
    {
      ghost var before, log := edge, blueprints.log;
      order := [];
      var todo := edge.Keys - AreaIds(config.areas);
      ghost var all := todo;
      while todo != {}
        invariant todo <= all && edge == before - (all - todo)
        invariant Gone(before, all, todo, order, log, blueprints.log)
        invariant old(InOrder()) ==> InOrder()
        invariant all == {} ==> children == old(children) && blueprints.log == old(blueprints.log)
      {
        ghost var some := SomeMember(todo);
        var x :| x in todo;
        ghost var current := blueprints.log;
        ok := UndeployArea(x);
        if !ok { return; }
        GoneMore(before, all, todo, order, log, current, x);
        order := order + [x];
        todo := todo - {x};
      }
      if Accounted(edge, children) { AccountedIsOff(edge, children); }
      ok := true;
    }

    /**
     * update_edge_areas. When it succeeds, whatever it started from, the deployed areas are the
     * configured ones and every UPF has the configuration computed afresh on record. It keeps the
     * account of the children; and where everything was converged already it only sets routes. It
     * cannot succeed once a deployment has left an area without a router or a UPF, and never mends it.
     * A failure leaves at most one id out of account: a child that no area records, or a router that is
     * recorded but deregistered.
     */
    method UpdateEdgeAreas() returns (ok: bool)
      modifies this`edge, this`children, blueprints
      ensures ok ==> EdgeCalls(config, old(edge), edge, old(blueprints.log), blueprints.log)
      ensures ok ==> RoutersFit(config.areas, |config.areas|, old(edge), edge) && BlueprintsStay(old(edge), edge)
      ensures ok ==> Converged(config, edge, nrfIp)
      ensures ok && old(InOrder()) ==> InOrder()
      ensures ok && old(Converged(config, edge, nrfIp)) ==>
                && edge == old(edge) && children == old(children)
                && OnlyRoutes(old(blueprints.log), blueprints.log)
      ensures BrokenStay(old(edge), edge)
      ensures ok ==> forall x :: x in old(edge) ==> Whole(old(edge)[x])
      ensures old(InOrder()) ==> OffByOne(edge, children)
    {
      hide EdgeCalls, Leftovers, RoutersFit, BlueprintsStay, Turned, AllCalls, OffByOne;
      ghost var start;
      ok, start := UpdateConfiguredAreas();
      if !ok { return; }
      ghost var middle, some, order := edge, blueprints.log, [];
      ok, order := UndeployLeftovers();
      BrokenStayOn(old(edge), middle, edge);
      if !ok { return; }
      AllWhole(config, old(edge), middle);
      ConvergedNow(config, middle, edge, nrfIp);
      AllTurned(config, old(edge), middle, edge, order, old(blueprints.log), some, blueprints.log);
      if start.converged { QuietUpdate(config, old(edge), old(blueprints.log), blueprints.log); }
    }

    // -------------------------------------------------------------- RAN areas

    /** A gNB named by a RAN area stands in that area. */
    ghost predicate RanSound()
      reads this, pdus, pdus.topology
    {
      && UniqueNames(pdus.topology.pdus)
      && NamesInArea(ran, pdus.topology.pdus)
    }

    /** get_gnb_pdus: the gNB of each configured area, locked by this blueprint. */
    method GetGnbPdus() returns (found: Option<seq<Pdu>>)
      requires UniqueNames(pdus.topology.pdus)
      modifies pdus, pdus.topology
      ensures OnlyLocked(old(pdus.topology.pdus), pdus.topology.pdus, pdus.blueprintId)
      ensures found.Some? ==>
                && |found.value| == |config.areas|
                && forall k :: 0 <= k < |config.areas| ==>
                     LockedGnb(pdus.topology.pdus, found.value[k], config.areas[k].id, pdus.blueprintId)
    {
      ghost var before := pdus.topology.pdus;
      var areas := config.areas;
      var out: seq<Pdu> := [];
      var i := 0;
      while i < |areas|
        invariant 0 <= i == |out| <= |areas|
        invariant OnlyLocked(before, pdus.topology.pdus, pdus.blueprintId)
        invariant AllLocked(pdus.topology.pdus, out, areas, pdus.blueprintId)
      {
        ghost var current := pdus.topology.pdus;
        SameNamesUnique(before, current);
        var pdu := GetGnbPdu(areas[i].id);
        OnlyLockedTwice(before, current, pdus.topology.pdus, pdus.blueprintId);
        if pdu.None? { return None; }
        AllLockedMore(current, pdus.topology.pdus, out, pdu.value, areas, pdus.blueprintId);
        out := out + [pdu.value];
        i := i + 1;
      }
      found := Some(out);
    }

    /** The gNB of the area, locked now if it was free. */
    method GetGnbPdu(area: int) returns (found: Option<Pdu>)
      requires UniqueNames(pdus.topology.pdus)
      modifies pdus, pdus.topology
      ensures OnlyLocked(old(pdus.topology.pdus), pdus.topology.pdus, pdus.blueprintId)
      ensures found.Some? ==> LockedGnb(pdus.topology.pdus, found.value, area, pdus.blueprintId)
    {
      ghost var list := pdus.topology.pdus;
      var res := pdus.FindPdu(area, GNB, None, None);
      if res.Err? { return None; }
      FoundIffOnlyMatch(list, area, GNB, None, None);
      ghost var at :| OnlyMatch(list, at, area, GNB, None, None) && list[at] == res.value;
      var pdu := res.value;
      if pdu.lockedBy != Some(pdus.blueprintId) {
        IndexUnique(list, at);
        var locked := pdus.LockPdu(pdu);
        if locked.Err? { return None; }
        pdu := locked.value;
        assert pdus.topology.pdus == list[at := pdu];
      }
      assert pdus.topology.pdus[at] == pdu;
      found := Some(pdu);
    }

    /**
     * get_upfs_for_slice, or None when some area has no UPF: area by area, in some order of the areas,
     * the UPFs that serve the slice as they are listed there.
     */
    method GetUpfsForSlice(sliceId: string) returns (found: Option<seq<DeployedUpf>>, ghost order: seq<int>)
      ensures found.None? <==> exists x :: x in edge && edge[x].upf.None?
      ensures found.Some? ==>
                && Distinct(order) && (forall x :: x in order <==> x in edge)
                && found.value == ServingAlong(edge, order, sliceId)
    {
      var todo := edge.Keys;
      var out: seq<DeployedUpf> := [];
      order := [];
      while todo != {}
        invariant todo <= edge.Keys
        invariant forall x :: x in edge && x !in todo ==> edge[x].upf.Some?
        invariant Distinct(order) && forall x :: x in order <==> x in edge && x !in todo
        invariant out == ServingAlong(edge, order, sliceId)
      {
        ghost var some := SomeMember(todo);
        var x :| x in todo;
        if edge[x].upf.None? { return None, order; }
        var here := ServingIn(edge[x].upf.value.deployed, sliceId);
        assert (order + [x])[..|order|] == order;
        DistinctAppend(order, x);
        order := order + [x];
        out := out + here;
        todo := todo - {x};
      }
      found := Some(out);
    }

    /** The inner loop: the UPFs of one area that serve the slice, in order. */
    method ServingIn(deployed: seq<DeployedUpf>, sliceId: string) returns (out: seq<DeployedUpf>)
      ensures out == Serving(deployed, sliceId)
    {
      out := [];
      for i := 0 to |deployed|
        invariant out == Serving(deployed[..i], sliceId)
      {
        assert deployed[..i + 1][..i] == deployed[..i];
        if Serves(deployed[i], sliceId) { out := out + [deployed[i]]; }
      }
      assert deployed[..|deployed|] == deployed;
    }

    /** Configures the gNB; the configurator may fail. */
    method ConfigureGnb(pdu: Pdu) returns (ok: bool)
      modifies this`gnbCalls
      ensures ok ==> exists call :: gnbCalls == old(gnbCalls) + [call] && CallFits(config, edge, pdu, call)
    {
      var configurator := pdus.GetPduConfigurator(pdu);
      var k := AreaIndex(config.areas, pdu.area);
      if configurator.Err? || k == |config.areas| || config.areas[k].slices == [] { return false; }
      var slices := config.areas[k].slices;
      var upfs, order := GetUpfsForSlice(slices[0].sliceId);
      if upfs.None? || upfs.value == [] { return false; }
      if pdu.area !in edge || edge[pdu.area].upf.None? || edge[pdu.area].upf.value.deployed == [] { return false; }
      var upf := edge[pdu.area].upf.value;
      var call := GnbCall(pdu.name, pdu.area, slices, upfs.value[0].n3Ip, upf.deployed[0].n3Cidr, upf.gnbIp);
      FirstServes(edge, order, slices[0].sliceId);
      assert First(config.areas, k) && CallFits(config, edge, pdu, call);
      gnbCalls := gnbCalls + [call];
      ok := *;
    }

    /** The GNB of an area is configured and the area noted. */
    method AddRanArea(pdu: Pdu, area: int) returns (ok: bool)
      requires LockedGnb(pdus.topology.pdus, pdu, area, pdus.blueprintId) && RanSound()
      modifies this`ran, this`gnbCalls
      ensures RanSound()
      ensures ok ==> exists call :: gnbCalls == old(gnbCalls) + [call] && CallFits(config, edge, pdu, call)
      ensures ok ==> ran == old(ran)[area := RanArea(area, pdu.name)]
      ensures ok ==> GnbOf(ran, pdus.topology.pdus, area, pdus.blueprintId)
      ensures forall a :: GnbOf(old(ran), old(pdus.topology.pdus), a, pdus.blueprintId) ==>
                            GnbOf(ran, pdus.topology.pdus, a, pdus.blueprintId)
      ensures !ok ==> ran == old(ran)
    {
      ok := ConfigureGnb(pdu);
      if !ok { return; }
      RanStep(ran, pdus.topology.pdus, pdu, area, pdus.blueprintId);
      ran := ran[pdu.area := RanArea(pdu.area, pdu.name)];
    }

    /** The first loop of update_gnb_config. */
    method ConfigureGnbs(found: seq<Pdu>) returns (ok: bool)
      requires |found| == |config.areas|
      requires forall k :: 0 <= k < |found| ==>
                 LockedGnb(pdus.topology.pdus, found[k], config.areas[k].id, pdus.blueprintId)
      requires RanSound()
      modifies this`ran, this`gnbCalls
      ensures RanSound()
      ensures ok ==> CallsMade(config, edge, found, |found|, old(gnbCalls), gnbCalls)
      ensures GrownWithin(old(ran), ran, AreaIds(config.areas))
      ensures ok ==> GnbsUpTo(config.areas, |found|, ran, pdus.topology.pdus, pdus.blueprintId)
    {
      ghost var before := ran;
      var i := 0;
      while i < |found|
        invariant 0 <= i <= |found|
        invariant RanSound()
        invariant GrownWithin(before, ran, AreaIds(config.areas))
        invariant GnbsUpTo(config.areas, i, ran, pdus.topology.pdus, pdus.blueprintId)
        invariant CallsMade(config, edge, found, i, old(gnbCalls), gnbCalls)
      {
        assert config.areas[i] in config.areas;
        ghost var (before', calls) := (ran, gnbCalls);
        GrowsWithin(before, ran, AreaIds(config.areas), config.areas[i].id, RanArea(config.areas[i].id, found[i].name));
        ok := AddRanArea(found[i], config.areas[i].id);
        if !ok { return; }
        GnbsStep(config.areas, i, before', ran, pdus.topology.pdus, pdus.blueprintId);
        CallsMore(config, edge, found, i, old(gnbCalls), calls, gnbCalls);
        i := i + 1;
      }
      ok := true;
    }

    /** The second loop of update_gnb_config, over the RAN areas configured no more in any order. */
    method UnlockLeftovers() returns (ok: bool)
      requires RanSound()
      modifies this`ran, pdus, pdus.topology
      ensures RanSound()
      ensures SameButLocks(old(pdus.topology.pdus), pdus.topology.pdus)
      ensures forall k :: 0 <= k < |pdus.topology.pdus| && pdus.topology.pdus[k].area in AreaIds(config.areas) ==>
                pdus.topology.pdus[k] == old(pdus.topology.pdus)[k]
      ensures ok ==> ran == old(ran) - (old(ran).Keys - AreaIds(config.areas))
      ensures ok ==> AllUnlocked(old(ran), old(ran).Keys - AreaIds(config.areas), pdus.topology.pdus)
    {
      ghost var before, list := ran, pdus.topology.pdus;
      var todo := ran.Keys - AreaIds(config.areas);
      ghost var all := todo;
      while todo != {}
        invariant todo <= all && ran == before - (all - todo) && RanSound()
        invariant UnlockedWithin(list, pdus.topology.pdus, all)
        invariant AllUnlocked(before, all - todo, pdus.topology.pdus)
      {
        ghost var some := SomeMember(todo);
        var x :| x in todo;
        ghost var current := pdus.topology.pdus;
        ok := UnlockLeftover(x);
        UnlockedTwice(list, current, pdus.topology.pdus, all, x);
        if !ok { return; }
        AllUnlockedMore(before, all - todo, current, pdus.topology.pdus, x);
        todo := todo - {x};
        assert all - todo == all - (todo + {x}) + {x};
      }
      ok := true;
    }

    /** An area that is configured no more; its PDU is unlocked before it goes. */
    method UnlockLeftover(x: int) returns (ok: bool)
      requires RanSound() && x in ran
      modifies this`ran, pdus, pdus.topology
      ensures RanSound()
      ensures UnlockedWithin(old(pdus.topology.pdus), pdus.topology.pdus, {x})
      ensures ran == if ok then old(ran) - {x} else old(ran)
      ensures ok ==> AllUnlocked(old(ran), {x}, pdus.topology.pdus)
    {
      ghost var list, at := pdus.topology.pdus, IndexOf(pdus.topology.pdus, ran[x].pduName);
      var res := pdus.FindByName(ran[x].pduName);
      if res.Err? { return false; }
      assert list[at].area == x;
      var unlocked := pdus.UnlockPdu(res.value);
      if unlocked.Err? {
        SameNamesUnique(list, pdus.topology.pdus);
        return false;
      }
      assert pdus.topology.pdus == list[at := unlocked.value];
      SameNamesUnique(list, pdus.topology.pdus);
      ran := ran - {x};
      ok := true;
    }

    /**
     * update_gnb_config. When it succeeds the RAN areas are the configured ones, the gNB of each is
     * locked by this blueprint and was configured, and those of the areas removed are unlocked.
     */
    method UpdateGnbConfig() returns (ok: bool)
      requires RanSound()
      modifies this`ran, this`gnbCalls, pdus, pdus.topology
      ensures ok ==> GnbsTold(config, edge, pdus.topology.pdus, pdus.blueprintId, old(gnbCalls), gnbCalls)
      ensures RanSound()
      ensures ok ==> RanConverged(config, ran, pdus.topology.pdus, pdus.blueprintId)
      ensures ok ==> AllUnlocked(old(ran), old(ran).Keys - AreaIds(config.areas), pdus.topology.pdus)
    {
      hide CallsMade, GnbsTold, GnbsUpTo, RanConverged;
      ghost var list := pdus.topology.pdus;
      var found := GetGnbPdus();
      SameNamesUnique(list, pdus.topology.pdus);
      if found.None? { return false; }
      ok := ConfigureGnbs(found.value);
      if !ok { return; }
      ghost var middle, locked := ran, pdus.topology.pdus;
      ok := UnlockLeftovers();
      if !ok { return; }
      StillTold(config, edge, found.value, locked, pdus.topology.pdus, pdus.blueprintId, old(gnbCalls), gnbCalls);
      RanIsConverged(config, middle, ran, locked, pdus.topology.pdus, pdus.blueprintId);
    }

    // ------------------------------------------------------- day-2 operations

    /** Pushes the configuration to the core; it may fail. */
    method UpdateCore() returns (ok: bool)
      modifies this`pushed
      ensures pushed == old(pushed) + [config]
    {
      pushed := pushed + [config];
      ok := *;
    }

    /** What a slice or area operation does once the configuration is changed. */
    method UpdateAll() returns (ok: bool)
      requires RanSound()
      modifies this`edge, this`children, this`ran, this`gnbCalls, this`pushed, blueprints, pdus, pdus.topology
      ensures RanSound()
      ensures ok ==> EdgeCalls(config, old(edge), edge, old(blueprints.log), blueprints.log)
      ensures ok ==> RoutersFit(config.areas, |config.areas|, old(edge), edge) && BlueprintsStay(old(edge), edge)
      ensures ok ==> GnbsTold(config, edge, pdus.topology.pdus, pdus.blueprintId, old(gnbCalls), gnbCalls)
      ensures if ok then pushed == old(pushed) + [config] else pushed == old(pushed) || pushed == old(pushed) + [config]
      ensures pushed != old(pushed) || ok ==>
                Converged(config, edge, nrfIp) && RanConverged(config, ran, pdus.topology.pdus, pdus.blueprintId)
      ensures ok ==> edge.Keys == ran.Keys == AreaIds(config.areas)
      ensures ok ==> AllUnlocked(old(ran), old(ran).Keys - AreaIds(config.areas), pdus.topology.pdus)
      ensures ok && old(InOrder()) ==> InOrder()
      ensures old(InOrder()) ==> OffByOne(edge, children)
      ensures BrokenStay(old(edge), edge) && (old(Blocked()) ==> !ok)
    {
      hide EdgeCalls, RoutersFit, BlueprintsStay, GnbsTold, Converged, RanConverged, AllUnlocked;
      hide Accounted, OffByOne, UniqueNames, NamesInArea;
      ok := UpdateEdgeAreas();
      if ok { ok := UpdateGnbConfig(); }
      if ok {
        SameKeys(config, edge, ran, pdus.topology.pdus, nrfIp, pdus.blueprintId);
        ok := UpdateCore();
      }
    }

    /**
     * A day-2 operation. If it is refused nothing changes, and if it fails the configuration is as
     * before; else the configuration changes as requested and is pushed to the core, which it is only
     * once everything else agrees with it. If a slice or area operation succeeds, the deployed areas, the
     * RAN areas and the configured areas coincide, with exactly the calls that this takes, the gNB of
     * each is configured and locked by this blueprint and those of the areas removed are unlocked; the
     * other operations touch none of these. Once an area has been left without a router or a UPF, no
     * slice or area operation ever succeeds again.
     */
    method DayTwo(op: Day2) returns (ok: bool)
      requires RanSound()
      modifies this`config, this`edge, this`children, this`ran, this`gnbCalls, this`pushed
      modifies blueprints, pdus, pdus.topology
      ensures RanSound()
      ensures ok ==> Changed(old(config), op, config) && pushed == old(pushed) + [config]
      ensures !ok ==> config == old(config)
      ensures pushed != old(pushed) ==>
                && |pushed| == |old(pushed)| + 1 && pushed[..|old(pushed)|] == old(pushed)
                && var next := pushed[|old(pushed)|];
                && Changed(old(config), op, next)
                && (Structural(op) ==> && Converged(next, edge, nrfIp)
                                       && RanConverged(next, ran, pdus.topology.pdus, pdus.blueprintId))
      ensures Refused(old(config), op) ==> !ok && unchanged(this, blueprints, pdus, pdus.topology)
      ensures config == After(old(config), Attempt(op, ok)) && (ok ==> Requested(old(config), op).Ok?)
      ensures ok && Structural(op) ==>
                && Converged(config, edge, nrfIp)
                && RanConverged(config, ran, pdus.topology.pdus, pdus.blueprintId)
                && edge.Keys == ran.Keys == AreaIds(config.areas)
      ensures ok && Structural(op) ==>
                && EdgeCalls(config, old(edge), edge, old(blueprints.log), blueprints.log)
                && RoutersFit(config.areas, |config.areas|, old(edge), edge) && BlueprintsStay(old(edge), edge)
      ensures ok && Structural(op) ==>
                && GnbsTold(config, edge, pdus.topology.pdus, pdus.blueprintId, old(gnbCalls), gnbCalls)
                && AllUnlocked(old(ran), old(ran).Keys - AreaIds(config.areas), pdus.topology.pdus)
      ensures !Structural(op) ==>
                && edge == old(edge) && children == old(children) && ran == old(ran) && gnbCalls == old(gnbCalls)
                && unchanged(blueprints, pdus, pdus.topology)
      ensures ok && old(InOrder()) ==> InOrder()
      ensures old(InOrder()) ==> OffByOne(edge, children)
      ensures old(Blocked()) ==> Blocked() && (ok ==> !Structural(op))
    {
      hide EdgeCalls, RoutersFit, BlueprintsStay, GnbsTold, AllUnlocked, Converged, RanConverged;
      hide Changed, Refused, Requested, BrokenStay, Whole;
      hide Accounted, OffByOne, UniqueNames, NamesInArea;
      ghost var before := edge;
      if Accounted(edge, children) { AccountedIsOff(edge, children); }
      RefusedExactlyWhen(config, op);
      var backup := config;
      var next := Requested(config, op);
      if next.Err? { return false; }
      RequestedIs(config, op);
      config := next.value;
      if Structural(op) {
        ok := UpdateAll();
      } else {
        ok := UpdateCore();
      }
      if !ok { config := backup; }
      StillBlocked(before, edge);
    }
  }

  lemma SameKeys(c: Config, edge: Edge, ran: map<int, RanArea>, list: seq<Pdu>, nrfIp: Option<string>, b: string)
    requires Converged(c, edge, nrfIp) && RanConverged(c, ran, list, b)
    ensures edge.Keys == ran.Keys == AreaIds(c.areas)
  {
  }

  /** The operations after which areas and gNBs are brought up to date. */
  predicate Structural(op: Day2) {
    op.AddSlice? || op.DelSlice? || op.AddTac? || op.DelTac?
  }

  /** The first n configured areas have had their turn: they are up to date, and what was broken still is. */
  ghost predicate Brought(c: Config, nrfIp: Option<string>, before: Edge, now: Edge, n: nat,
                          was: seq<Event>, log: seq<Event>) {
    && n <= |c.areas| && UpToDateUpTo(c, now, n, nrfIp) && WholeUpTo(c, before, n) && BrokenStay(before, now)
    && Turned(c, before, now, n, was, log)
  }

  lemma NothingBrought(c: Config, nrfIp: Option<string>, edge: Edge, log: seq<Event>)
    ensures Brought(c, nrfIp, edge, edge, 0, log, log)
  {
    assert log + [] == log;
  }

  /**
   * After the turns of the first n configured areas: exactly their calls were made, new areas have the
   * routers that they ask for, and no other area has changed.
   */
  ghost predicate Turned(c: Config, before: Edge, now: Edge, n: nat, was: seq<Event>, log: seq<Event>) {
    && n <= |c.areas|
    && log == was + AllCalls(c, before, now, n)
    && RoutersFit(c.areas, n, before, now)
    && BlueprintsStay(before, now)
    && Untouched(c.areas, n, before, now)
  }

  /** No area goes, and those that are not among the first n configured ones are as they were. */
  ghost predicate Untouched(areas: seq<Area>, n: nat, before: Edge, now: Edge) {
    && before.Keys <= now.Keys
    && forall id {:trigger Among(areas, n, id)} ::
         id in now && !Among(areas, n, id) ==> id in before && now[id] == before[id]
  }

  /** One of the first n areas has that id. */
  ghost predicate Among(areas: seq<Area>, n: nat, id: int) {
    exists k :: 0 <= k < n && k < |areas| && areas[k].id == id
  }

  lemma AmongAll(areas: seq<Area>, id: int)
    ensures Among(areas, |areas|, id) <==> id in AreaIds(areas)
  {
    if id in AreaIds(areas) {
      var a :| a in areas && a.id == id;
      var k :| 0 <= k < |areas| && areas[k] == a;
    }
  }

  /** The areas before are there, so one that is not is the first of its id. */
  lemma NotYetThere(c: Config, edge: Edge, n: nat, nrfIp: Option<string>)
    requires n < |c.areas| && UpToDateUpTo(c, edge, n, nrfIp)
    ensures c.areas[n].id !in edge ==> GetArea(c, c.areas[n].id) == Some(c.areas[n]) && First(c.areas, n)
  {
    if c.areas[n].id !in edge {
      forall j | 0 <= j < n ensures c.areas[j].id != c.areas[n].id { assert c.areas[j].id in edge; }
    }
  }

  lemma TurnedMore(c: Config, before: Edge, middle: Edge, now: Edge, n: nat,
                   was: seq<Event>, some: seq<Event>, log: seq<Event>, nrfIp: Option<string>)
    requires Turned(c, before, middle, n, was, some) && n < |c.areas|
    requires UpToDateUpTo(c, middle, n, nrfIp)
    requires c.areas[n].id in now && now.Keys == middle.Keys + {c.areas[n].id}
    requires forall k :: k in now && k != c.areas[n].id ==> now[k] == middle[k]
    requires log == some + AreaCalls(c, c.areas[n], WasAt(middle, c.areas[n].id), now[c.areas[n].id])
    requires c.areas[n].id !in middle ==> RouterFits(c.areas[n], now[c.areas[n].id])
    requires c.areas[n].id in middle && UpToDate(c, c.areas[n].id, middle[c.areas[n].id], nrfIp) ==> now == middle
    requires BlueprintsStay(middle, now)
    ensures Turned(c, before, now, n + 1, was, log)
  {
    if !First(c.areas, n) { SecondTurn(c, middle, n, nrfIp); }
    FirstTurn(c.areas, n, before, middle);
    AreaCallsMore(c, before, middle, now, n, was, some, log);
    RoutersFitMore(c.areas, n, before, middle, now);
    BlueprintsStayOn(before, middle, now);
    UntouchedMore(c.areas, n, before, middle, now);
  }

  /** An id that comes again is up to date. */
  lemma SecondTurn(c: Config, middle: Edge, n: nat, nrfIp: Option<string>)
    requires UpToDateUpTo(c, middle, n, nrfIp) && n < |c.areas| && !First(c.areas, n)
    ensures c.areas[n].id in middle && UpToDate(c, c.areas[n].id, middle[c.areas[n].id], nrfIp)
  {
    var j :| 0 <= j < n && c.areas[j].id == c.areas[n].id;
    assert c.areas[j].id in middle;
  }

  /** One that comes for the first time has not changed so far. */
  lemma FirstTurn(areas: seq<Area>, n: nat, before: Edge, middle: Edge)
    requires Untouched(areas, n, before, middle) && n < |areas|
    ensures First(areas, n) ==> WasAt(middle, areas[n].id) == WasAt(before, areas[n].id)
  {
    if First(areas, n) { assert !Among(areas, n, areas[n].id); }
  }

  lemma AreaCallsMore(c: Config, before: Edge, middle: Edge, now: Edge, n: nat,
                  was: seq<Event>, some: seq<Event>, log: seq<Event>)
    requires n < |c.areas| && some == was + AllCalls(c, before, middle, n)
    requires c.areas[n].id in now && now.Keys == middle.Keys + {c.areas[n].id}
    requires forall k :: k in now && k != c.areas[n].id ==> now[k] == middle[k]
    requires First(c.areas, n) ==> WasAt(middle, c.areas[n].id) == WasAt(before, c.areas[n].id)
    requires !First(c.areas, n) ==> now == middle
    requires log == some + AreaCalls(c, c.areas[n], WasAt(middle, c.areas[n].id), now[c.areas[n].id])
    ensures log == was + AllCalls(c, before, now, n + 1)
  {
    AllCallsMore(c, before, middle, now, n);
    Associate(was, AllCalls(c, before, middle, n),
              AreaCalls(c, c.areas[n], WasAt(middle, c.areas[n].id), now[c.areas[n].id]));
  }

  lemma UntouchedMore(areas: seq<Area>, n: nat, before: Edge, middle: Edge, now: Edge)
    requires Untouched(areas, n, before, middle) && n < |areas|
    requires now.Keys == middle.Keys + {areas[n].id}
    requires forall k :: k in now && k != areas[n].id ==> now[k] == middle[k]
    ensures Untouched(areas, n + 1, before, now)
  {
    forall x | x in now && !Among(areas, n + 1, x) ensures x in before && now[x] == before[x] {
      assert x != areas[n].id && !Among(areas, n, x);
    }
  }

  lemma RoutersFitMore(areas: seq<Area>, n: nat, before: Edge, middle: Edge, now: Edge)
    requires n < |areas| && RoutersFit(areas, n, before, middle)
    requires areas[n].id in now && now.Keys == middle.Keys + {areas[n].id}
    requires forall k :: k in now && k != areas[n].id ==> now[k] == middle[k]
    requires areas[n].id !in middle ==> RouterFits(areas[n], now[areas[n].id])
    requires First(areas, n) && areas[n].id in middle ==> areas[n].id in before
    requires !First(areas, n) ==> now == middle
    ensures RoutersFit(areas, n + 1, before, now)
  {
    forall k | 0 <= k < n + 1 && First(areas, k) && areas[k].id !in before
      ensures areas[k].id in now && RouterFits(areas[k], now[areas[k].id])
    {
      if k < n && areas[k].id == areas[n].id { assert !First(areas, n); }
    }
  }

  lemma BlueprintsStayOn(a: Edge, m: Edge, z: Edge)
    requires BlueprintsStay(a, m) && BlueprintsStay(m, z) && a.Keys <= m.Keys
    ensures BlueprintsStay(a, z)
  {
    forall id | id in a && id in z ensures SameBlueprints(a[id], z[id]) {
      assert SameBlueprints(a[id], m[id]) && SameBlueprints(m[id], z[id]);
    }
  }

  /** Both loops through: the leftovers have not changed before they went. */
  lemma AllTurned(c: Config, before: Edge, middle: Edge, now: Edge, order: seq<int>,
                  was: seq<Event>, some: seq<Event>, log: seq<Event>)
    requires Turned(c, before, middle, |c.areas|, was, some)
    requires Leftovers(c, middle, order) && log == some + Deletes(OwnedAlong(middle, order))
    requires now == middle - (middle.Keys - AreaIds(c.areas))
    ensures EdgeCalls(c, before, now, was, log)
    ensures RoutersFit(c.areas, |c.areas|, before, now) && BlueprintsStay(before, now)
  {
    LeftoversSame(c, before, middle, order);
    forall k | 0 <= k < |c.areas| ensures WasAt(middle, c.areas[k].id) == WasAt(now, c.areas[k].id) {
      assert c.areas[k] in c.areas;
    }
    AllCallsSame(c, before, middle, now, |c.areas|);
    forall k | 0 <= k < |c.areas| && First(c.areas, k) && c.areas[k].id !in before
      ensures c.areas[k].id in now && RouterFits(c.areas[k], now[c.areas[k].id])
    {
      assert WasAt(middle, c.areas[k].id) == WasAt(now, c.areas[k].id);
    }
    forall id | id in before && id in now ensures SameBlueprints(before[id], now[id]) {
      assert SameBlueprints(before[id], middle[id]);
    }
  }

  lemma LeftoversSame(c: Config, before: Edge, middle: Edge, order: seq<int>)
    requires Untouched(c.areas, |c.areas|, before, middle) && Leftovers(c, middle, order)
    ensures Leftovers(c, before, order) && OwnedAlong(before, order) == OwnedAlong(middle, order)
  {
    forall id | id in middle && id !in AreaIds(c.areas) ensures id in before && middle[id] == before[id] {
      AmongAll(c.areas, id);
    }
    OwnedAlongSame(before, middle, order);
  }

  lemma {:induction false} OwnedAlongSame(a: Edge, b: Edge, order: seq<int>)
    requires forall i :: 0 <= i < |order| ==> order[i] in a && order[i] in b && a[order[i]] == b[order[i]]
    ensures OwnedAlong(a, order) == OwnedAlong(b, order)
  {
    if order != [] { OwnedAlongSame(a, b, order[1..]); }
  }

  /** The areas of `all` but not of `todo` went in that order, whole as they were. */
  ghost predicate Gone(before: Edge, all: set<int>, todo: set<int>, order: seq<int>, log: seq<Event>, now: seq<Event>) {
    && all <= before.Keys && todo <= all
    && Distinct(order) && (forall y :: y in order <==> y in all - todo)
    && (forall i :: 0 <= i < |order| ==> order[i] in before)
    && (forall x :: x in all - todo ==> Whole(before[x]))
    && now == log + Deletes(OwnedAlong(before, order))
  }

  lemma GoneMore(before: Edge, all: set<int>, todo: set<int>, order: seq<int>, log: seq<Event>, now: seq<Event>, x: int)
    requires Gone(before, all, todo, order, log, now) && x in todo && Whole(before[x])
    ensures Gone(before, all, todo - {x}, order + [x], log, now + Deletes(Owned(before[x])))
  {
    DeletesMore(log, before, order, x);
    DistinctAppend(order, x);
  }

  lemma DeletesMore(log: seq<Event>, edge: Edge, order: seq<int>, x: int)
    requires x in edge && forall i :: 0 <= i < |order| ==> order[i] in edge
    ensures log + Deletes(OwnedAlong(edge, order + [x])) ==
            log + Deletes(OwnedAlong(edge, order)) + Deletes(Owned(edge[x]))
  {
    OwnedAlongAppend(edge, order, x);
    DeletesAppend(OwnedAlong(edge, order), Owned(edge[x]));
    Associate(log, Deletes(OwnedAlong(edge, order)), Deletes(Owned(edge[x])));
  }

  lemma ProfilesStep(areas: seq<Area>, profiles: seq<Profile>, id: int, i: nat, ps: seq<Option<Profile>>)
    requires i < |areas|
    ensures ps + ProfilesForArea(areas[i..], profiles, id) ==
            (if areas[i].id == id then ps + ProfilesOfSlices(areas[i].slices, profiles) else ps)
            + ProfilesForArea(areas[i + 1..], profiles, id)
  {
    assert areas[i..][1..] == areas[i + 1..];
    var (here, rest) := (ProfilesOfSlices(areas[i].slices, profiles), ProfilesForArea(areas[i + 1..], profiles, id));
    assert ps + (here + rest) == (ps + here) + rest && [] + rest == rest;
  }

  // ------------------------------------------------------------ the gNBs' locks

  predicate Serves(d: DeployedUpf, sliceId: string) {
    exists m :: m in d.served && m.id == sliceId
  }

  function Serving(deployed: seq<DeployedUpf>, sliceId: string): seq<DeployedUpf> {
    if deployed == [] then []
    else
      var (n, d) := (|deployed| - 1, deployed[|deployed| - 1]);
      Serving(deployed[..n], sliceId) + if Serves(d, sliceId) then [d] else []
  }

  ghost function ServingAlong(edge: Edge, order: seq<int>, sliceId: string): seq<DeployedUpf> {
    if order == [] then []
    else
      var (n, x) := (|order| - 1, order[|order| - 1]);
      ServingAlong(edge, order[..n], sliceId)
      + if x in edge && edge[x].upf.Some? then Serving(edge[x].upf.value.deployed, sliceId) else []
  }

  /** So a UPF is found iff it is deployed in some area and serves the slice. */
  lemma {:induction false} FoundIffServes(edge: Edge, order: seq<int>, sliceId: string, d: DeployedUpf)
    ensures d in ServingAlong(edge, order, sliceId) <==>
            exists x :: && x in order && x in edge && edge[x].upf.Some?
                        && d in edge[x].upf.value.deployed && Serves(d, sliceId)
  {
    if order != [] {
      var (n, x) := (|order| - 1, order[|order| - 1]);
      FoundIffServes(edge, order[..n], sliceId, d);
      assert order == order[..n] + [x];
      if x in edge && edge[x].upf.Some? { ServingHas(edge[x].upf.value.deployed, sliceId, d); }
    }
  }

  lemma {:induction false} ServingHas(deployed: seq<DeployedUpf>, sliceId: string, d: DeployedUpf)
    ensures d in Serving(deployed, sliceId) <==> d in deployed && Serves(d, sliceId)
  {
    if deployed != [] {
      var (n, last) := (|deployed| - 1, deployed[|deployed| - 1]);
      ServingHas(deployed[..n], sliceId, d);
      assert deployed == deployed[..n] + [last];
    }
  }

  /** The gNB of the PDU is told its area and slices, a UPF for the first slice, and the route to its own UPFs. */
  ghost predicate CallFits(c: Config, edge: Edge, p: Pdu, call: GnbCall) {
    && call.pduName == p.name && call.area == p.area
    && (exists k :: && 0 <= k < |c.areas| && First(c.areas, k)
                    && c.areas[k].id == p.area && call.slices == c.areas[k].slices)
    && call.slices != [] && (exists x, i :: FirstFor(edge, x, i, call.slices[0].sliceId, call.upfIp))
    && p.area in edge && edge[p.area].upf.Some? && edge[p.area].upf.value.deployed != []
    && call.routeCidr == edge[p.area].upf.value.deployed[0].n3Cidr && call.nextHop == edge[p.area].upf.value.gnbIp
  }

  /** The first UPF of the area x that serves the slice has that address. */
  ghost predicate FirstFor(edge: Edge, x: int, i: int, sliceId: string, n3Ip: string) {
    && x in edge && edge[x].upf.Some?
    && var deployed := edge[x].upf.value.deployed;
    && 0 <= i < |deployed| && Serves(deployed[i], sliceId) && deployed[i].n3Ip == n3Ip
    && forall j :: 0 <= j < i ==> !Serves(deployed[j], sliceId)
  }

  lemma {:induction false} FirstServes(edge: Edge, order: seq<int>, sliceId: string)
    requires ServingAlong(edge, order, sliceId) != []
    ensures exists x, i :: FirstFor(edge, x, i, sliceId, ServingAlong(edge, order, sliceId)[0].n3Ip)
  {
    var (n, x) := (|order| - 1, order[|order| - 1]);
    var before := ServingAlong(edge, order[..n], sliceId);
    if before != [] {
      FirstServes(edge, order[..n], sliceId);
      assert ServingAlong(edge, order, sliceId)[0] == before[0];
    } else {
      assert ServingAlong(edge, order, sliceId) == Serving(edge[x].upf.value.deployed, sliceId);
      var i := FirstServing(edge[x].upf.value.deployed, sliceId);
      assert FirstFor(edge, x, i, sliceId, edge[x].upf.value.deployed[i].n3Ip);
    }
  }

  lemma {:induction false} FirstServing(deployed: seq<DeployedUpf>, sliceId: string) returns (i: nat)
    requires Serving(deployed, sliceId) != []
    ensures i < |deployed| && Serves(deployed[i], sliceId) && Serving(deployed, sliceId)[0] == deployed[i]
    ensures forall j :: 0 <= j < i ==> !Serves(deployed[j], sliceId)
  {
    var n := |deployed| - 1;
    if Serving(deployed[..n], sliceId) != [] {
      i := FirstServing(deployed[..n], sliceId);
    } else {
      i := n;
      forall j | 0 <= j < n ensures !Serves(deployed[j], sliceId) {
        ServingHas(deployed[..n], sliceId, deployed[j]);
        assert deployed[..n][j] == deployed[j];
      }
    }
  }

  /** One call for each of the first n gNBs. */
  ghost predicate CallsMade(c: Config, edge: Edge, found: seq<Pdu>, n: nat, was: seq<GnbCall>, now: seq<GnbCall>) {
    && |now| == |was| + n && was <= now
    && forall k :: 0 <= k < n && k < |found| ==> CallFits(c, edge, found[k], now[|was| + k])
  }

  lemma CallsMore(c: Config, edge: Edge, found: seq<Pdu>, n: nat, was: seq<GnbCall>, some: seq<GnbCall>,
                  now: seq<GnbCall>)
    requires CallsMade(c, edge, found, n, was, some) && n < |found|
    requires exists call :: now == some + [call] && CallFits(c, edge, found[n], call)
    ensures CallsMade(c, edge, found, n + 1, was, now)
  {
  }

  /** One call for each configured area, to a gNB that stands there and is locked by b. */
  ghost predicate GnbsTold(c: Config, edge: Edge, list: seq<Pdu>, b: string, was: seq<GnbCall>, now: seq<GnbCall>) {
    && |now| == |was| + |c.areas| && was <= now
    && forall k :: 0 <= k < |c.areas| ==> ToldGnb(c, edge, list, b, c.areas[k].id, now[|was| + k])
  }

  ghost predicate ToldGnb(c: Config, edge: Edge, list: seq<Pdu>, b: string, area: int, call: GnbCall) {
    exists p :: LockedGnb(list, p, area, b) && CallFits(c, edge, p, call)
  }

  lemma StillTold(c: Config, edge: Edge, found: seq<Pdu>, locked: seq<Pdu>, list: seq<Pdu>, b: string,
                  was: seq<GnbCall>, now: seq<GnbCall>)
    requires |found| == |c.areas| == |now| - |was| && CallsMade(c, edge, found, |found|, was, now)
    requires forall k :: 0 <= k < |found| ==> LockedGnb(locked, found[k], c.areas[k].id, b)
    requires |list| == |locked|
    requires forall i :: 0 <= i < |list| && list[i].area in AreaIds(c.areas) ==> list[i] == locked[i]
    requires SameButLocks(locked, list)
    ensures GnbsTold(c, edge, list, b, was, now)
  {
    hide CallFits;
    forall k | 0 <= k < |c.areas| ensures ToldGnb(c, edge, list, b, c.areas[k].id, now[|was| + k]) {
      assert c.areas[k] in c.areas;
      assert LockedGnb(locked, found[k], c.areas[k].id, b);
      var i :| 0 <= i < |locked| && locked[i] == found[k];
      assert list[i].area == c.areas[k].id && list[i] == found[k];
      assert LockedGnb(list, found[k], c.areas[k].id, b);
      assert CallFits(c, edge, found[k], now[|was| + k]);
    }
  }

  /** The same PDUs, but for who locked them. */
  ghost predicate SameButLocks(a: seq<Pdu>, b: seq<Pdu>) {
    |a| == |b| && forall k :: 0 <= k < |a| ==> b[k] == a[k].(lockedBy := b[k].lockedBy)
  }

  /** Some free PDUs have been locked by b. */
  ghost predicate OnlyLocked(before: seq<Pdu>, now: seq<Pdu>, b: string) {
    && SameButLocks(before, now)
    && forall k :: 0 <= k < |before| ==>
                     now[k] == before[k] || (before[k].lockedBy.None? && now[k].lockedBy == Some(b))
  }

  lemma OnlyLockedTwice(a: seq<Pdu>, m: seq<Pdu>, z: seq<Pdu>, b: string)
    requires OnlyLocked(a, m, b) && OnlyLocked(m, z, b)
    ensures OnlyLocked(a, z, b)
  {
  }

  /** One gNB for each of the first areas. */
  ghost predicate AllLocked(list: seq<Pdu>, out: seq<Pdu>, areas: seq<Area>, b: string) {
    |out| <= |areas| && forall k :: 0 <= k < |out| ==> LockedGnb(list, out[k], areas[k].id, b)
  }

  lemma AllLockedMore(a: seq<Pdu>, z: seq<Pdu>, out: seq<Pdu>, p: Pdu, areas: seq<Area>, b: string)
    requires OnlyLocked(a, z, b) && AllLocked(a, out, areas, b)
    requires |out| < |areas| && LockedGnb(z, p, areas[|out|].id, b)
    ensures AllLocked(z, out + [p], areas, b)
  {
    var more := out + [p];
    forall k | 0 <= k < |more| ensures LockedGnb(z, more[k], areas[k].id, b) {
      if k < |out| {
        assert LockedGnb(a, out[k], areas[k].id, b);
        var i :| 0 <= i < |a| && a[i] == out[k];
        assert z[i] == out[k];
      }
    }
  }

  /** Some PDUs of these areas have been unlocked. */
  ghost predicate UnlockedWithin(before: seq<Pdu>, now: seq<Pdu>, areas: set<int>) {
    && SameButLocks(before, now)
    && forall k :: 0 <= k < |before| ==> now[k] == before[k] || (before[k].area in areas && now[k].lockedBy.None?)
  }

  lemma UnlockedTwice(a: seq<Pdu>, m: seq<Pdu>, z: seq<Pdu>, areas: set<int>, x: int)
    requires UnlockedWithin(a, m, areas) && UnlockedWithin(m, z, {x}) && x in areas
    ensures UnlockedWithin(a, z, areas)
  {
  }

  lemma AllUnlockedMore(ran: map<int, RanArea>, areas: set<int>, a: seq<Pdu>, z: seq<Pdu>, x: int)
    requires areas <= ran.Keys && x in ran && AllUnlocked(ran, areas, a)
    requires UnlockedWithin(a, z, {x}) && AllUnlocked(ran, {x}, z)
    ensures AllUnlocked(ran, areas + {x}, z)
  {
  }

  lemma SameNamesUnique(a: seq<Pdu>, b: seq<Pdu>)
    requires UniqueNames(a) && SameButLocks(a, b)
    ensures UniqueNames(b)
  {
  }

  /** A PDU named by a RAN area stands in that area. */
  ghost predicate NamesInArea(ran: map<int, RanArea>, list: seq<Pdu>) {
    forall x, k :: (x in ran && 0 <= k < |list| && list[k].name == ran[x].pduName) ==> list[k].area == x
  }

  /** The PDUs of these RAN areas, if still in the topology, are unlocked. */
  ghost predicate AllUnlocked(ran: map<int, RanArea>, areas: set<int>, list: seq<Pdu>)
    requires areas <= ran.Keys
  {
    forall x, k :: (x in areas && 0 <= k < |list| && list[k].name == ran[x].pduName) ==> list[k].lockedBy.None?
  }

  /** p is in the topology as it is, the gNB of the area, locked by b. */
  ghost predicate LockedGnb(list: seq<Pdu>, p: Pdu, area: int, b: string) {
    && p.area == area && p.kind == GNB && p.lockedBy == Some(b)
    && exists k :: 0 <= k < |list| && list[k] == p
  }

  /** The RAN area is recorded, and its PDU is the gNB of the area, locked by b. */
  ghost predicate GnbOf(ran: map<int, RanArea>, list: seq<Pdu>, area: int, b: string) {
    && area in ran
    && exists k :: && 0 <= k < |list| && list[k].name == ran[area].pduName
                   && list[k].area == area && list[k].kind == GNB && list[k].lockedBy == Some(b)
  }

  ghost predicate GnbsUpTo(areas: seq<Area>, n: nat, ran: map<int, RanArea>, list: seq<Pdu>, b: string) {
    forall k :: 0 <= k < n && k < |areas| ==> GnbOf(ran, list, areas[k].id, b)
  }

  lemma GnbsStep(areas: seq<Area>, n: nat, before: map<int, RanArea>, after: map<int, RanArea>, list: seq<Pdu>,
                 b: string)
    requires GnbsUpTo(areas, n, before, list, b) && n < |areas| && GnbOf(after, list, areas[n].id, b)
    requires forall a :: GnbOf(before, list, a, b) ==> GnbOf(after, list, a, b)
    ensures GnbsUpTo(areas, n + 1, after, list, b)
  {
  }

  /** Only areas of the given ids were added or changed. */
  ghost predicate GrownWithin(before: map<int, RanArea>, after: map<int, RanArea>, ids: set<int>) {
    && (forall x :: x in before && x !in ids ==> x in after && after[x] == before[x])
    && after.Keys <= before.Keys + ids
  }

  lemma GrowsWithin(before: map<int, RanArea>, ran: map<int, RanArea>, ids: set<int>, id: int, a: RanArea)
    requires GrownWithin(before, ran, ids) && id in ids
    ensures GrownWithin(before, ran[id := a], ids)
  {
  }

  lemma RanStep(ran: map<int, RanArea>, list: seq<Pdu>, p: Pdu, area: int, b: string)
    requires UniqueNames(list) && NamesInArea(ran, list) && LockedGnb(list, p, area, b)
    ensures NamesInArea(ran[area := RanArea(area, p.name)], list)
    ensures GnbOf(ran[area := RanArea(area, p.name)], list, area, b)
    ensures forall a :: GnbOf(ran, list, a, b) ==> GnbOf(ran[area := RanArea(area, p.name)], list, a, b)
  {
    var at :| 0 <= at < |list| && list[at] == p;
    var ran' := ran[area := RanArea(area, p.name)];
    assert list[at].name == ran'[area].pduName;
    forall x, k | x in ran' && 0 <= k < |list| && list[k].name == ran'[x].pduName ensures list[k].area == x {
      if x == area { assert k == at; }
    }
  }

  lemma RanIsConverged(c: Config, middle: map<int, RanArea>, ran: map<int, RanArea>, locked: seq<Pdu>, list: seq<Pdu>,
                       b: string)
    requires GnbsUpTo(c.areas, |c.areas|, middle, locked, b) && ran == middle - (middle.Keys - AreaIds(c.areas))
    requires SameButLocks(locked, list)
    requires forall k :: 0 <= k < |list| && list[k].area in AreaIds(c.areas) ==> list[k] == locked[k]
    ensures RanConverged(c, ran, list, b)
  {
    forall a | a in c.areas ensures a.id in ran && GnbOf(ran, list, a.id, b) {
      var k :| 0 <= k < |c.areas| && c.areas[k] == a;
      assert GnbOf(middle, locked, c.areas[k].id, b);
      assert a.id in AreaIds(c.areas);
    }
  }

  ghost predicate RanConverged(c: Config, ran: map<int, RanArea>, list: seq<Pdu>, b: string) {
    && ran.Keys == AreaIds(c.areas)
    && forall a :: a in c.areas ==> GnbOf(ran, list, a.id, b)
  }

  /** The first n configured areas are deployed and up to date. */
  ghost predicate UpToDateUpTo(c: Config, edge: Edge, n: nat, nrfIp: Option<string>) {
    forall k :: 0 <= k < n && k < |c.areas| ==>
                  c.areas[k].id in edge && UpToDate(c, c.areas[k].id, edge[c.areas[k].id], nrfIp)
  }

  lemma UpToDateStep(c: Config, before: Edge, after: Edge, n: nat, nrfIp: Option<string>)
    requires UpToDateUpTo(c, before, n, nrfIp) && n < |c.areas|
    requires after.Keys == before.Keys + {c.areas[n].id} && UpToDate(c, c.areas[n].id, after[c.areas[n].id], nrfIp)
    requires forall k :: k in after && k != c.areas[n].id ==> after[k] == before[k]
    ensures UpToDateUpTo(c, after, n + 1, nrfIp)
  {
  }

  /** Of the first n configured areas those that were there were whole. */
  ghost predicate WholeUpTo(c: Config, edge: Edge, n: nat) {
    forall k :: 0 <= k < n && k < |c.areas| && c.areas[k].id in edge ==> Whole(edge[c.areas[k].id])
  }

  /** Nothing, or that id, was appended. */
  ghost predicate MaybeOneMore(before: seq<nat>, after: seq<nat>, x: nat) {
    after == before || (after == before + [x] && x !in before)
  }

  lemma FailedDeployment(edge: Edge, kids: seq<nat>, id: int, e: EdgeArea, children: seq<nat>, x: nat)
    requires Accounted(edge, kids) && id !in edge && Distinct(Owned(e)) && forall y :: y in Owned(e) ==> y !in kids
    requires MaybeOneMore(kids + Owned(e), children, x)
    ensures OffByOne(edge[id := e], children)
  {
    var more := if children == kids + Owned(e) then [] else [x];
    assert children == kids + Owned(e) + more;
    DistinctConcat(Owned(e), more);
    FailedDeploymentStrays(edge, kids, id, e, more);
  }

  /** Recording a UPF anew leaves the account as it is. */
  lemma RefreshKeeps(edge: Edge, children: seq<nat>, id: int, e: EdgeArea)
    requires id in edge && Owned(e) == Owned(edge[id]) && (Complete(edge[id]) ==> Complete(e))
    ensures Accounted(edge, children) ==> Accounted(edge[id := e], children) && OffByOne(edge[id := e], children)
  {
    if Accounted(edge, children) {
      AccountedSame(edge, children, id, e);
      AccountedIsOff(edge[id := e], children);
    }
  }

  /** A deployment that succeeds: the router, if there is one, and the UPF are the new children. */
  lemma DeploymentKeeps(edge: Edge, kids: seq<nat>, id: int, e: EdgeArea, upf: Upf, first: nat)
    requires Accounted(edge, kids) && (forall x :: x in kids ==> x < first) && id !in edge
    requires e.router.Some? && (e.router.value.external || e.router.value.blueId.Some?) && e.upf.None?
    requires (forall x :: x in Owned(e) ==> x == first) && upf.blueId == first + |Owned(e)|
    ensures var (now, children) := (edge[id := e.(upf := Some(upf))], kids + Owned(e) + [upf.blueId]);
            Accounted(now, children) && OffByOne(now, children) && forall x :: x in children ==> x <= upf.blueId
  {
    var whole := e.(upf := Some(upf));
    assert Owned(whole) == Owned(e) + [upf.blueId];
    assert kids + Owned(whole) == kids + Owned(e) + [upf.blueId];
    DistinctAppend(Owned(e), upf.blueId);
    AccountedGrows(edge, kids, id, whole, Owned(whole));
    AccountedIsOff(edge[id := whole], kids + Owned(whole));
  }

  /** Before an area is undeployed: what is left if only its router goes, or nothing. */
  lemma UndeployMayMiss(edge: Edge, children: seq<nat>, id: int)
    requires Accounted(edge, children) && id in edge
    ensures OffByOne(edge, children)
    ensures var router := edge[id].router.value;
            !router.external ==> OffByOne(edge, RemoveFirst(children, router.blueId.value))
  {
    AccountedIsOff(edge, children);
    var router := edge[id].router.value;
    if !router.external { FailedRemovalMisses(edge, children, id, router.blueId.value); }
  }

  lemma StillBlocked(before: Edge, after: Edge)
    requires BrokenStay(before, after)
    ensures (exists x :: x in before && !Whole(before[x])) ==> exists x :: x in after && !Whole(after[x])
  {
    if x :| x in before && !Whole(before[x]) { assert x in after && !Whole(after[x]); }
  }

  lemma BrokenStayOn(first: Edge, second: Edge, third: Edge)
    requires BrokenStay(first, second) && BrokenStay(second, third)
    ensures BrokenStay(first, third)
  {
    forall k | k in first && !Whole(first[k]) ensures k in third && third[k] == first[k] {
      assert k in second && second[k] == first[k];
    }
  }

  lemma WholeStep(c: Config, first: Edge, before: Edge, n: nat)
    requires WholeUpTo(c, first, n) && BrokenStay(first, before) && n < |c.areas|
    requires c.areas[n].id in before ==> Whole(before[c.areas[n].id])
    ensures WholeUpTo(c, first, n + 1)
  {
    var id := c.areas[n].id;
    assert id in first ==> Whole(first[id]);
  }

  lemma AllWhole(c: Config, first: Edge, middle: Edge)
    requires WholeUpTo(c, first, |c.areas|) && BrokenStay(first, middle)
    requires forall x :: x in middle && x !in AreaIds(c.areas) ==> Whole(middle[x])
    ensures forall x :: x in first ==> Whole(first[x])
  {
    forall x | x in first ensures Whole(first[x]) {
      if x in AreaIds(c.areas) {
        var a :| a in c.areas && a.id == x;
        var k :| 0 <= k < |c.areas| && c.areas[k] == a;
      } else {
        assert x in middle ==> Whole(middle[x]);
      }
    }
  }

  lemma ConvergedNow(c: Config, before: Edge, after: Edge, nrfIp: Option<string>)
    requires after == before - (before.Keys - AreaIds(c.areas))
    requires forall k :: 0 <= k < |c.areas| ==>
               c.areas[k].id in before && UpToDate(c, c.areas[k].id, before[c.areas[k].id], nrfIp)
    ensures Converged(c, after, nrfIp)
  {
    forall a | a in c.areas ensures a.id in after && UpToDate(c, a.id, after[a.id], nrfIp) {
      var k :| 0 <= k < |c.areas| && c.areas[k] == a;
      assert a.id in AreaIds(c.areas);
    }
    forall x | x in after ensures x in AreaIds(c.areas) && UpToDate(c, x, after[x], nrfIp) {
      var a :| a in c.areas && a.id == x;
    }
  }

  lemma WithoutBoth(s: seq<nat>, xs: seq<nat>)
    requires |xs| == 1 || |xs| == 2
    ensures WithoutAll(s, xs) == if |xs| == 1 then RemoveFirst(s, xs[0]) else RemoveFirst(RemoveFirst(s, xs[0]), xs[1])
  {
    var rest := xs[1..];
    if |xs| == 2 {
      assert rest == [xs[1]] && rest[1..] == [];
      var once := RemoveFirst(s, xs[0]);
      assert WithoutAll(once, rest) == WithoutAll(RemoveFirst(once, xs[1]), rest[1..]);
    }
  }

  lemma DeletesBoth(log: seq<Event>, xs: seq<nat>)
    requires |xs| == 1 || |xs| == 2
    ensures log + Deletes(xs) == if |xs| == 1 then log + [Deleted(xs[0])] else log + [Deleted(xs[0])] + [Deleted(xs[1])]
  {
  }
}
