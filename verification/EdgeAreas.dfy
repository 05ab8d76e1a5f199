/**
 * What a 5G blueprint has deployed in its areas, and the UPF configuration each area should have
 * (src/nfvcl/blueprints_ng/modules/generic_5g/generic_5g.py).
 */
module EdgeAreas {
  import opened Wrappers
  import opened Seqs
  import opened Core5g

  datatype DnnModel = DnnModel(name: string, cidr: string)

  datatype SliceModel = SliceModel(id: string, sliceType: SliceType, dnns: seq<DnnModel>)

  datatype UpfConfig = UpfConfig(
    areaId: int, mgt: string, n4: string, n3: string, n6: string, slices: seq<SliceModel>,
    n3Gateway: string, n6Gateway: string, gnbCidr: string, nrfIp: Option<string>)

  datatype DeployedUpf = DeployedUpf(served: seq<SliceModel>, n3Ip: string, n3Cidr: string, n6Ip: string)

  datatype Upf = Upf(blueId: nat, gnbIp: string, deployed: seq<DeployedUpf>, config: UpfConfig)

  datatype Router = Router(blueId: Option<nat>, external: bool, network: RouterNet)

  datatype EdgeArea = EdgeArea(router: Option<Router>, upf: Option<Upf>)

  type Edge = map<int, EdgeArea>

  // ---------------------------------------------- the configuration of a UPF

  /** SliceModel.from_slice_profile; None when a served network has no pool. */
  function DnnModels(nets: seq<DataNet>, wanted: seq<string>): Option<seq<DnnModel>> {
    if nets == [] then Some([])
    else
      match DnnModels(nets[1..], wanted)
      case None => None
      case Some(rest) =>
        if nets[0].dnn !in wanted then Some(rest)
        else if nets[0].pools == [] then None
        else Some([DnnModel(nets[0].dnn, nets[0].pools[0])] + rest)
  }

  function FromProfile(p: Profile, nets: seq<DataNet>): Option<SliceModel> {
    match DnnModels(nets, p.dnnList)
    case None => None
    case Some(dnns) => Some(SliceModel(p.sliceId, p.sliceType, dnns))
  }

  function ProfilesOfSlices(slices: seq<AreaSlice>, profiles: seq<Profile>): seq<Option<Profile>> {
    if slices == [] then []
    else [GetSliceProfile(profiles, slices[0].sliceId)] + ProfilesOfSlices(slices[1..], profiles)
  }

  /** get_slices_profiles_for_area: the profile, or None, of each slice of each area of that id. */
  function ProfilesForArea(areas: seq<Area>, profiles: seq<Profile>, id: int): seq<Option<Profile>> {
    if areas == [] then []
    else
      (if areas[0].id == id then ProfilesOfSlices(areas[0].slices, profiles) else [])
      + ProfilesForArea(areas[1..], profiles, id)
  }

  /** None when a slice has no profile or a served network has no pool. */
  function SliceModels(ps: seq<Option<Profile>>, nets: seq<DataNet>): Option<seq<SliceModel>> {
    if ps == [] then Some([])
    else if ps[0].None? then None
    else
      match (FromProfile(ps[0].value, nets), SliceModels(ps[1..], nets))
      case (Some(m), Some(rest)) => Some([m] + rest)
      case _ => None
  }

  /** _create_upf_config; None when it raises. */
  function UpfConfigFor(c: Config, id: int, net: RouterNet, nrfIp: Option<string>): Option<UpfConfig> {
    match (SliceModels(ProfilesForArea(c.areas, c.profiles, id), c.dataNets), GetArea(c, id))
    case (Some(slices), Some(area)) =>
      (match (c.mgt, c.wan, area.networks.n3, area.networks.n6)
       case (Some(mgt), Some(wan), Some(n3), Some(n6)) =>
         Some(UpfConfig(id, mgt, wan, n3, n6, slices, net.n3Ip, net.n6Ip, net.gnbCidr, nrfIp))
       case _ => None)
    case _ => None
  }

  /** Every data network that the profile asks for, and that there is, has a pool. */
  predicate Pooled(nets: seq<DataNet>, wanted: seq<string>) {
    forall n :: n in nets && n.dnn in wanted ==> n.pools != []
  }

  /** What the configuration must hold for the UPF of an area to be configured. */
  predicate Configurable(c: Config, id: int) {
    && c.mgt.Some? && c.wan.Some?
    && var area := GetArea(c, id);
    && area.Some? && area.value.networks.n3.Some? && area.value.networks.n6.Some?
    && forall a, s :: a in c.areas && a.id == id && s in a.slices ==>
                        var p := GetSliceProfile(c.profiles, s.sliceId);
                        p.Some? && Pooled(c.dataNets, p.value.dnnList)
  }

  /** The slice with the first pool of each data network that it asks for and that there is. */
  ghost predicate Lists(m: SliceModel, p: Profile, nets: seq<DataNet>) {
    && m.id == p.sliceId && m.sliceType == p.sliceType
    && exists asked :: Kept(nets, AskedBy(p), asked) && FirstPools(asked, m.dnns)
  }

  ghost function AskedBy(p: Profile): DataNet -> bool {
    (n: DataNet) => n.dnn in p.dnnList
  }

  ghost predicate FirstPools(nets: seq<DataNet>, dnns: seq<DnnModel>) {
    && |dnns| == |nets|
    && forall i :: 0 <= i < |nets| ==> nets[i].pools != [] && dnns[i] == DnnModel(nets[i].dnn, nets[i].pools[0])
  }

  lemma DnnModelsAre(nets: seq<DataNet>, p: Profile)
    ensures FromProfile(p, nets).Some? <==> Pooled(nets, p.dnnList)
    ensures FromProfile(p, nets).Some? ==> Lists(FromProfile(p, nets).value, p, nets)
  {
    if FromProfile(p, nets).Some? { var asked := AskedNets(nets, p); }
    WhenPooled(nets, p.dnnList);
  }

  lemma {:induction false} WhenPooled(nets: seq<DataNet>, wanted: seq<string>)
    ensures DnnModels(nets, wanted).Some? <==> Pooled(nets, wanted)
  {
    if nets != [] {
      WhenPooled(nets[1..], wanted);
      assert nets == [nets[0]] + nets[1..];
    }
  }

  lemma {:induction false} AskedNets(nets: seq<DataNet>, p: Profile) returns (asked: seq<DataNet>)
    requires DnnModels(nets, p.dnnList).Some?
    ensures Kept(nets, AskedBy(p), asked) && FirstPools(asked, DnnModels(nets, p.dnnList).value)
  {
    hide Kept;
    if nets == [] {
      KeptNone(AskedBy(p));
      asked := [];
    } else {
      var rest := AskedNets(nets[1..], p);
      KeptCons(nets[0], nets[1..], AskedBy(p), rest);
      assert nets == [nets[0]] + nets[1..];
      asked := if nets[0].dnn in p.dnnList then [nets[0]] + rest else rest;
      assert [] + rest == rest;
    }
  }

  lemma {:induction false} SliceModelsAre(ps: seq<Option<Profile>>, nets: seq<DataNet>)
    ensures SliceModels(ps, nets).Some? <==>
            forall i :: 0 <= i < |ps| ==> ps[i].Some? && Pooled(nets, ps[i].value.dnnList)
    ensures SliceModels(ps, nets).Some? ==>
              && |SliceModels(ps, nets).value| == |ps|
              && forall i :: 0 <= i < |ps| ==> ps[i].Some? && Lists(SliceModels(ps, nets).value[i], ps[i].value, nets)
  {
    if ps != [] {
      var rest := ps[1..];
      SliceModelsAre(rest, nets);
      assert forall i :: 0 < i < |ps| ==> ps[i] == rest[i - 1];
      if ps[0].Some? { DnnModelsAre(nets, ps[0].value); }
    }
  }

  lemma {:induction false} ProfilesOfSlicesAre(slices: seq<AreaSlice>, profiles: seq<Profile>)
    ensures |ProfilesOfSlices(slices, profiles)| == |slices|
    ensures forall i :: 0 <= i < |slices| ==>
                          ProfilesOfSlices(slices, profiles)[i] == GetSliceProfile(profiles, slices[i].sliceId)
  {
    if slices != [] { ProfilesOfSlicesAre(slices[1..], profiles); }
  }

  lemma {:induction false} ProfilesForAreaAre(areas: seq<Area>, profiles: seq<Profile>, id: int)
    ensures forall x :: x in ProfilesForArea(areas, profiles, id) <==>
                        exists a, s :: && a in areas && a.id == id && s in a.slices
                                       && x == GetSliceProfile(profiles, s.sliceId)
  {
    if areas != [] {
      var (a, rest) := (areas[0], areas[1..]);
      var here := if a.id == id then ProfilesOfSlices(a.slices, profiles) else [];
      ProfilesForAreaAre(rest, profiles, id);
      ProfilesOfSlicesAre(a.slices, profiles);
      assert areas == [a] + rest;
      forall x | x in here ensures exists s :: s in a.slices && x == GetSliceProfile(profiles, s.sliceId) {
        var i :| 0 <= i < |here| && here[i] == x;
        assert a.slices[i] in a.slices;
      }
      forall s | a.id == id && s in a.slices ensures GetSliceProfile(profiles, s.sliceId) in here {
        var i :| 0 <= i < |a.slices| && a.slices[i] == s;
        assert here[i] == GetSliceProfile(profiles, s.sliceId);
      }
    }
  }

  /** With distinct area ids it is the slices of that area, one by one. */
  lemma {:induction false} ProfilesOfOneArea(areas: seq<Area>, profiles: seq<Profile>, id: int)
    requires Distinct(IdsOf(areas)) && AreaIndex(areas, id) < |areas|
    ensures ProfilesForArea(areas, profiles, id) == ProfilesOfSlices(areas[AreaIndex(areas, id)].slices, profiles)
  {
    var rest := areas[1..];
    assert IdsOf(areas)[0] == areas[0].id;
    assert IdsOf(areas) == [areas[0].id] + IdsOf(rest);
    DistinctCons(areas[0].id, IdsOf(rest));
    if areas[0].id == id { NoProfiles(rest, profiles, id); } else { ProfilesOfOneArea(rest, profiles, id); }
  }

  lemma {:induction false} NoProfiles(areas: seq<Area>, profiles: seq<Profile>, id: int)
    requires id !in IdsOf(areas)
    ensures ProfilesForArea(areas, profiles, id) == []
  {
    if areas != [] {
      assert IdsOf(areas)[0] == areas[0].id;
      assert IdsOf(areas) == [areas[0].id] + IdsOf(areas[1..]);
      NoProfiles(areas[1..], profiles, id);
    }
  }

  /**
   * A UPF can be configured iff the configuration has its networks and the area, each slice there has
   * a profile, and each data network it asks for has a pool; one that there is not is left out
   * silently. With distinct area ids the slices are listed one by one, in order.
   */
  lemma UpfConfigExactlyWhen(c: Config, id: int, net: RouterNet, nrfIp: Option<string>)
    ensures UpfConfigFor(c, id, net, nrfIp).Some? <==> Configurable(c, id)
    ensures Configurable(c, id) ==>
              var (r, area) := (UpfConfigFor(c, id, net, nrfIp).value, GetArea(c, id).value);
              && r.areaId == id && r.mgt == c.mgt.value && r.n4 == c.wan.value
              && r.n3 == area.networks.n3.value && r.n6 == area.networks.n6.value
              && r.n3Gateway == net.n3Ip && r.n6Gateway == net.n6Ip && r.gnbCidr == net.gnbCidr && r.nrfIp == nrfIp
    ensures Configurable(c, id) && Distinct(IdsOf(c.areas)) ==>
              var (r, slices) := (UpfConfigFor(c, id, net, nrfIp).value, GetArea(c, id).value.slices);
              && |r.slices| == |slices|
              && forall i :: 0 <= i < |slices| ==>
                               && GetSliceProfile(c.profiles, slices[i].sliceId).Some?
                               && Lists(r.slices[i], GetSliceProfile(c.profiles, slices[i].sliceId).value, c.dataNets)
  {
    var ps := ProfilesForArea(c.areas, c.profiles, id);
    ProfilesForAreaAre(c.areas, c.profiles, id);
    SliceModelsAre(ps, c.dataNets);
    if Configurable(c, id) {
      forall i | 0 <= i < |ps| ensures ps[i].Some? && Pooled(c.dataNets, ps[i].value.dnnList) { assert ps[i] in ps; }
      if Distinct(IdsOf(c.areas)) {
        ProfilesOfOneArea(c.areas, c.profiles, id);
        ProfilesOfSlicesAre(GetArea(c, id).value.slices, c.profiles);
      }
    }
    if UpfConfigFor(c, id, net, nrfIp).Some? {
      forall a, s | a in c.areas && a.id == id && s in a.slices
        ensures var p := GetSliceProfile(c.profiles, s.sliceId); p.Some? && Pooled(c.dataNets, p.value.dnnList)
      {
        assert GetSliceProfile(c.profiles, s.sliceId) in ps;
      }
    }
  }

  // --------------------------------------------------------- what is deployed

  ghost predicate Complete(e: EdgeArea) {
    && e.router.Some? && e.upf.Some?
    && (!e.router.value.external ==> e.router.value.blueId.Some?)
  }

  /** The area has a router and a UPF: no deployment of it has failed half way. */
  ghost predicate Whole(e: EdgeArea) { e.router.Some? && e.upf.Some? }

  /** Areas that a failed deployment has left without a router or a UPF are still there, and still so. */
  ghost predicate BrokenStay(before: Edge, after: Edge) {
    forall k {:trigger after[k]} {:trigger before[k]} ::
      k in before && !Whole(before[k]) ==> k in after && after[k] == before[k]
  }

  /** The area has a router and a UPF, with the configuration computed afresh on record. */
  ghost predicate UpToDate(c: Config, id: int, e: EdgeArea, nrfIp: Option<string>) {
    && e.router.Some? && e.upf.Some?
    && UpfConfigFor(c, id, e.router.value.network, nrfIp) == Some(e.upf.value.config)
  }

  /** Deployed areas are the configured ones, all up to date. */
  ghost predicate Converged(c: Config, edge: Edge, nrfIp: Option<string>) {
    && edge.Keys == AreaIds(c.areas)
    && forall id :: id in edge ==> UpToDate(c, id, edge[id], nrfIp)
  }

  /** The child blueprints of an area: its router unless external, and its UPF. */
  function Owned(e: EdgeArea): seq<nat> {
    (if e.router.Some? && !e.router.value.external && e.router.value.blueId.Some?
     then [e.router.value.blueId.value] else [])
    + (if e.upf.Some? then [e.upf.value.blueId] else [])
  }

  /** The children are, each once, the routers and UPFs of the deployed areas. */
  ghost predicate Accounted(edge: Edge, children: seq<nat>) {
    && Distinct(children)
    && (forall id :: id in edge ==> Complete(edge[id]) && Distinct(Owned(edge[id])))
    && (forall id, x :: id in edge && x in Owned(edge[id]) ==> x in children)
    && (forall x :: x in children ==> exists id :: id in edge && x in Owned(edge[id]))
    && forall i, j, x :: i in edge && j in edge && x in Owned(edge[i]) && x in Owned(edge[j]) ==> i == j
  }

  ghost function OwnedAlong(edge: Edge, order: seq<int>): seq<nat>
    requires forall i :: 0 <= i < |order| ==> order[i] in edge
  {
    if order == [] then []
    else Owned(edge[order[0]]) + OwnedAlong(edge, order[1..])
  }

  lemma {:induction false} OwnedAlongHas(edge: Edge, order: seq<int>, x: nat)
    requires forall i :: 0 <= i < |order| ==> order[i] in edge
    ensures x in OwnedAlong(edge, order) <==> exists id :: id in order && x in Owned(edge[id])
  {
    if order != [] {
      var head, rest := order[0], order[1..];
      OwnedAlongHas(edge, rest, x);
      assert order == [head] + rest;
      assert head in order && forall id :: id in order <==> id == head || id in rest;
      if x in OwnedAlong(edge, rest) {
        var id :| id in rest && x in Owned(edge[id]);
        assert id in order;
      }
    }
  }

  lemma {:induction false} OwnedAlongDistinct(edge: Edge, children: seq<nat>, order: seq<int>)
    requires Accounted(edge, children) && Distinct(order)
    requires forall i :: 0 <= i < |order| ==> order[i] in edge
    ensures Distinct(OwnedAlong(edge, order))
  {
    if order != [] {
      var rest := order[1..];
      assert order == [order[0]] + rest;
      DistinctCons(order[0], rest);
      OwnedAlongDistinct(edge, children, rest);
      forall x | x in Owned(edge[order[0]]) ensures x !in OwnedAlong(edge, rest) {
        OwnedAlongHas(edge, rest, x);
      }
      DistinctConcat(Owned(edge[order[0]]), OwnedAlong(edge, rest));
    }
  }

  lemma {:induction false} DistinctSameMultiset(s: seq<nat>, t: seq<nat>)
    requires Distinct(s) && Distinct(t) && forall x :: x in s <==> x in t
    ensures multiset(s) == multiset(t)
  {
    DistinctCounts(s);
    DistinctCounts(t);
    forall x ensures multiset(s)[x] == multiset(t)[x] {
      assert x in s <==> x in multiset(s);
      assert x in t <==> x in multiset(t);
    }
  }

  lemma {:induction false} DistinctCounts(s: seq<nat>)
    requires Distinct(s)
    ensures forall x :: multiset(s)[x] == if x in s then 1 else 0
  {
    if s != [] {
      var n := |s| - 1;
      assert s == s[..n] + [s[n]];
      DistinctAppend(s[..n], s[n]);
      DistinctCounts(s[..n]);
    }
  }

  /** In other words: as multisets, the children are the routers and UPFs of all the areas. */
  lemma AccountedIsMultiset(edge: Edge, children: seq<nat>, order: seq<int>)
    requires Accounted(edge, children) && Distinct(order)
    requires (forall i :: 0 <= i < |order| ==> order[i] in edge) && forall id :: id in edge ==> id in order
    ensures multiset(children) == multiset(OwnedAlong(edge, order))
  {
    OwnedAlongDistinct(edge, children, order);
    forall x ensures x in children <==> x in OwnedAlong(edge, order) { OwnedAlongHas(edge, order, x); }
    DistinctSameMultiset(children, OwnedAlong(edge, order));
  }

  // -------------------------------------- how the account follows the changes

  /** A new area with new children. */
  lemma AccountedGrows(edge: Edge, children: seq<nat>, id: int, e: EdgeArea, more: seq<nat>)
    requires Accounted(edge, children) && id !in edge
    requires Complete(e) && Owned(e) == more && Distinct(more) && forall x :: x in more ==> x !in children
    ensures Accounted(edge[id := e], children + more)
  {
    var edge' := edge[id := e];
    DistinctConcat(children, more);
    forall x | x in children + more ensures exists k :: k in edge' && x in Owned(edge'[k]) {
      if x in children {
        var k :| k in edge && x in Owned(edge[k]);
        assert edge'[k] == edge[k];
      } else {
        assert id in edge' && x in Owned(edge'[id]);
      }
    }
    forall k, x | k in edge' && x in Owned(edge'[k]) ensures x in children + more {}
  }

  /** An area whose UPF is described anew, with the same children. */
  lemma AccountedSame(edge: Edge, children: seq<nat>, id: int, e: EdgeArea)
    requires Accounted(edge, children) && id in edge && Complete(e) && Owned(e) == Owned(edge[id])
    ensures Accounted(edge[id := e], children)
  {
    var edge' := edge[id := e];
    assert forall k :: k in edge' ==> Owned(edge'[k]) == Owned(edge[k]);
    forall x | x in children ensures exists k :: k in edge' && x in Owned(edge'[k]) {
      var k :| k in edge && x in Owned(edge[k]);
      assert k in edge' && x in Owned(edge'[k]);
    }
  }

  function WithoutAll(s: seq<nat>, xs: seq<nat>): seq<nat>
    decreases |xs|
  {
    if xs == [] then s else WithoutAll(RemoveFirst(s, xs[0]), xs[1..])
  }

  lemma {:induction false} WithoutAllHas(s: seq<nat>, xs: seq<nat>)
    requires Distinct(s)
    ensures Distinct(WithoutAll(s, xs)) && forall y :: y in WithoutAll(s, xs) <==> y in s && y !in xs
    decreases |xs|
  {
    if xs != [] {
      RemoveFirstHas(s, xs[0]);
      WithoutAllHas(RemoveFirst(s, xs[0]), xs[1..]);
      assert xs == [xs[0]] + xs[1..];
    }
  }

  /** An area removed together with its children. */
  lemma AccountedShrinks(edge: Edge, children: seq<nat>, id: int)
    requires Accounted(edge, children) && id in edge
    ensures Accounted(edge - {id}, WithoutAll(children, Owned(edge[id])))
  {
    WithoutAllHas(children, Owned(edge[id]));
    var edge', children' := edge - {id}, WithoutAll(children, Owned(edge[id]));
    forall x | x in children' ensures exists k :: k in edge' && x in Owned(edge'[k]) {
      var k :| k in edge && x in Owned(edge[k]);
      assert k != id && edge'[k] == edge[k];
    }
    forall k, x | k in edge' && x in Owned(edge'[k]) ensures x in children' {
      assert edge'[k] == edge[k];
    }
  }

  // ------------------------------------------------------ after a failure half way

  ghost function AllOwned(edge: Edge): set<nat> {
    set id, x | id in edge && x in Owned(edge[id]) :: x
  }

  /**
   * The children are the routers and UPFs of the areas but for the missing ones, and the stray ones,
   * which belong to no area.
   */
  ghost predicate AccountedBut(edge: Edge, children: seq<nat>, stray: set<nat>, missing: set<nat>) {
    && Distinct(children)
    && (forall i, j, x :: i in edge && j in edge && x in Owned(edge[i]) && x in Owned(edge[j]) ==> i == j)
    && (forall x :: x in stray ==> x !in AllOwned(edge))
    && (forall x :: x in missing ==> x in AllOwned(edge))
    && forall x :: x in children <==> x in stray || (x in AllOwned(edge) && x !in missing)
  }

  /** At most one id is out of account, be it stray or missing. */
  ghost predicate OffByOne(edge: Edge, children: seq<nat>) {
    exists stray, missing :: AccountedBut(edge, children, stray, missing) && |stray| + |missing| <= 1
  }

  lemma AccountedIsOff(edge: Edge, children: seq<nat>)
    requires Accounted(edge, children)
    ensures OffByOne(edge, children)
  {
    assert AccountedBut(edge, children, {}, {});
  }

  /** A deployment that failed: what the area records is registered, and maybe one blueprint more. */
  lemma FailedDeploymentStrays(edge: Edge, children: seq<nat>, id: int, e: EdgeArea, more: seq<nat>)
    requires Accounted(edge, children) && id !in edge && |more| <= 1
    requires Distinct(Owned(e) + more) && forall x :: x in Owned(e) + more ==> x !in children
    ensures OffByOne(edge[id := e], children + Owned(e) + more)
  {
    var now := edge[id := e];
    var (mine, all, stray) := (Owned(e), children + Owned(e) + more, set x | x in more);
    assert now[id] == e && forall k :: k in edge ==> now[k] == edge[k];
    DistinctConcat(mine, more);
    DistinctConcat(children, mine);
    DistinctConcat(children + mine, more);
    forall x ensures x in AllOwned(now) <==> x in children || x in mine {
      if x in mine { assert id in now && x in Owned(now[id]); }
      if x in children {
        var k :| k in edge && x in Owned(edge[k]);
        assert k in now && x in Owned(now[k]);
      }
    }
    assert AccountedBut(now, all, stray, {});
    assert |stray| <= 1 by { assert more == [] || (more == [more[0]] && stray == {more[0]}); }
  }

  /** The router of an area is deregistered, but the area is still recorded. */
  lemma FailedRemovalMisses(edge: Edge, children: seq<nat>, id: int, r: nat)
    requires Accounted(edge, children) && id in edge && r in Owned(edge[id])
    ensures OffByOne(edge, RemoveFirst(children, r))
  {
    RemoveFirstHas(children, r);
    assert AccountedBut(edge, RemoveFirst(children, r), {}, {r});
  }
}
