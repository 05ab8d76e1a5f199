/**
 * One UPF virtual machine per data network
 * (src/nfvcl/blueprints_ng/modules/sdcore_upf/sdcore_upf_blueprint.py). Resource ids are numbers in
 * the order in which they are drawn.
 */
module SdcoreUpf {
  import opened Wrappers
  import opened Seqs
  import opened EdgeAreas

  datatype Info = Info(served: seq<SliceModel>, vmId: nat, configuratorId: nat)

  /** The names of the VIM networks of a UPF. */
  datatype Nets = Nets(mgt: string, n4: string, n3: string, n6: string)

  /** Every network that the description of a UPF looks up is one of those its VM is attached to. */
  predicate Covers(attached: Nets, wanted: Nets) {
    {wanted.n4, wanted.n3, wanted.n6} <= {attached.mgt, attached.n4, attached.n3, attached.n6}
  }

  /** The names of the networks of a slice. */
  function NamesOf(s: SliceModel): seq<string> {
    seq(|s.dnns|, i requires 0 <= i < |s.dnns| => s.dnns[i].name)
  }

  /** The names of all networks of the configured slices. */
  function DnnNames(slices: seq<SliceModel>): set<string> {
    set s, d | s in slices && d in s.dnns :: d.name
  }

  /** The slices that list the network, in order. */
  ghost predicate ServedSlices(slices: seq<SliceModel>, dnn: string, served: seq<SliceModel>) {
    Kept(slices, Listing(dnn), served)
  }

  ghost function Listing(dnn: string): SliceModel -> bool {
    (s: SliceModel) => exists d :: d in s.dnns && d.name == dnn
  }

  /** get_dnn_ip_pool while the slices are read: nothing yet, one pool, or two that differ. */
  datatype Pool = NoPool | OnePool(cidr: string) | Conflict

  function Joined(p: Pool, d: DnnModel, dnn: string): Pool {
    if d.name != dnn || p.Conflict? then p
    else if p.NoPool? then OnePool(d.cidr)
    else if p.cidr == d.cidr then p
    else Conflict
  }

  function PoolOfDnns(p: Pool, ds: seq<DnnModel>, dnn: string): Pool
    decreases |ds|
  {
    if ds == [] then p else PoolOfDnns(Joined(p, ds[0], dnn), ds[1..], dnn)
  }

  function PoolOf(p: Pool, slices: seq<SliceModel>, dnn: string): Pool
    decreases |slices|
  {
    if slices == [] then p else PoolOf(PoolOfDnns(p, slices[0].dnns, dnn), slices[1..], dnn)
  }

  ghost predicate Admits(p: Pool, cidr: string) {
    p == NoPool || p == OnePool(cidr)
  }

  lemma {:induction false} PoolOfDnnsIs(p: Pool, ds: seq<DnnModel>, dnn: string, cidr: string)
    ensures Admits(PoolOfDnns(p, ds, dnn), cidr) <==>
            Admits(p, cidr) && forall j :: 0 <= j < |ds| && ds[j].name == dnn ==> ds[j].cidr == cidr
    ensures PoolOfDnns(p, ds, dnn) == NoPool <==> p == NoPool && forall j :: 0 <= j < |ds| ==> ds[j].name != dnn
    decreases |ds|
  {
    if ds != [] {
      PoolOfDnnsIs(Joined(p, ds[0], dnn), ds[1..], dnn, cidr);
      assert forall j :: 0 < j < |ds| ==> ds[j] == ds[1..][j - 1];
    }
  }

  ghost predicate AllPools(slices: seq<SliceModel>, dnn: string, cidr: string) {
    forall i, j :: 0 <= i < |slices| && 0 <= j < |slices[i].dnns| && slices[i].dnns[j].name == dnn ==>
                     slices[i].dnns[j].cidr == cidr
  }

  lemma AllPoolsCons(s: SliceModel, rest: seq<SliceModel>, dnn: string, cidr: string)
    ensures AllPools([s] + rest, dnn, cidr) <==>
            && AllPools(rest, dnn, cidr)
            && forall j :: 0 <= j < |s.dnns| && s.dnns[j].name == dnn ==> s.dnns[j].cidr == cidr
  {
    var all := [s] + rest;
    assert all[0] == s && forall i :: 0 <= i < |rest| ==> all[i + 1] == rest[i];
    if AllPools(all, dnn, cidr) {
      forall i, j | 0 <= i < |rest| && 0 <= j < |rest[i].dnns| && rest[i].dnns[j].name == dnn
        ensures rest[i].dnns[j].cidr == cidr
      {
        assert all[i + 1].dnns[j].name == dnn;
      }
    }
  }

  lemma DnnNamesCons(s: SliceModel, rest: seq<SliceModel>, dnn: string)
    ensures dnn in DnnNames([s] + rest) <==>
            dnn in DnnNames(rest) || exists j :: 0 <= j < |s.dnns| && s.dnns[j].name == dnn
  {
    var all := [s] + rest;
    assert forall t :: t in all <==> t == s || t in rest;
  }

  lemma {:induction false} PoolOfIs(p: Pool, slices: seq<SliceModel>, dnn: string, cidr: string)
    ensures Admits(PoolOf(p, slices, dnn), cidr) <==> Admits(p, cidr) && AllPools(slices, dnn, cidr)
    ensures PoolOf(p, slices, dnn) == NoPool <==> p == NoPool && dnn !in DnnNames(slices)
    decreases |slices|
  {
    if slices != [] {
      var s, rest := slices[0], slices[1..];
      PoolOfDnnsIs(p, s.dnns, dnn, cidr);
      PoolOfIs(PoolOfDnns(p, s.dnns, dnn), rest, dnn, cidr);
      AllPoolsCons(s, rest, dnn, cidr);
      DnnNamesCons(s, rest, dnn);
      assert slices == [s] + rest;
    }
  }

  /** A network has an IP pool iff some slice lists it and all that do give the same one. */
  lemma PoolIsUnanimous(slices: seq<SliceModel>, dnn: string, cidr: string)
    ensures PoolOf(NoPool, slices, dnn) == OnePool(cidr) <==>
            dnn in DnnNames(slices) && AllPools(slices, dnn, cidr)
  {
    PoolOfIs(NoPool, slices, dnn, cidr);
  }

  // --------------------------------------------------------------- the blueprint

  /** How deploying a VM goes: it may fail before or after the maps are written. */
  datatype Deployment = Deployed(info: Info) | Failed | FailedLate

  /** A call to the virtualisation provider. */
  datatype VmCall =
    | CreateVm(vm: nat, dnn: string, nets: Nets)
    | ConfigureVm(configurator: nat, vm: nat, dnn: string, pool: string, n3: string, n6: string)
    | DestroyVm(vm: nat)

  class SdCoreUpfBlueprint {
    var slices: seq<SliceModel> // of the current configuration
    var nets: Nets // of the current configuration
    const createNets: Nets // of the request that created the blueprint
    var upfList: seq<Info>
    var deployed: map<string, Info>
    var vms: map<nat, string> // VM id to the network its name carries
    var configurators: map<nat, string>
    var registered: set<nat>
    var next: nat
    var calls: seq<VmCall>

    constructor (slices: seq<SliceModel>, nets: Nets)
      ensures Consistent() && this.slices == slices && this.nets == createNets == nets && deployed == map[]
    {
      this.slices, this.nets, createNets := slices, nets, nets;
      upfList, deployed, vms, configurators, registered, next, calls := [], map[], map[], map[], {}, 0, [];
    }

    ghost predicate Consistent()
      reads this
    {
      Recorded() && Orphans() == {}
    }

    /** List and maps tell the same, and what they hold is registered. */
    ghost predicate Recorded()
      reads this
    {
      Sound() && Lost() == {}
    }

    /** The list is that of the deployed networks; the maps hold all their ids, and maybe others. */
    ghost predicate Sound()
      reads this
    {
      SoundAs(upfList, deployed, vms, configurators, registered, next)
    }

    /** The ids that the maps hold of no deployed network. */
    ghost function Lost(): set<nat>
      reads this
    {
      Unlisted(deployed, vms, configurators)
    }

    /** What is registered, but in neither map. */
    ghost function Orphans(): set<nat>
      reads this
    {
      registered - vms.Keys - configurators.Keys
    }

    /** The VM of a new UPF has the networks by which it is then described. */
    predicate Describable()
      reads this
    {
      Covers(nets, createNets)
    }

    /** The VM gets a new id when it is registered; in an area without a VIM that fails. */
    method RegisterVm() returns (x: Option<nat>)
      modifies this`registered, this`next
      ensures x.Some? ==> x.value == old(next) && registered == old(registered) + {x.value}
      ensures x.None? ==> registered == old(registered)
      ensures next == old(next) + 1
    {
      var ok: bool := *;
      x := if ok then Some(next) else None;
      if ok { registered := registered + {next}; }
      next := next + 1;
    }

    method RegisterConfigurator() returns (x: nat)
      modifies this`registered, this`next
      ensures x == old(next) && registered == old(registered) + {x} && next == old(next) + 1
    {
      x := next;
      registered := registered + {x};
      next := next + 1;
    }

    /** A call to the virtualisation provider: it may fail. */
    method Provider(call: VmCall) returns (ok: bool)
      modifies this`calls
      ensures calls == old(calls) + [call]
    {
      calls := calls + [call];
      ok := *;
    }

    /** get_slices_for_dnn. */
    method GetSlicesForDnn(dnn: string) returns (served: seq<SliceModel>)
      ensures ServedSlices(slices, dnn, served)
    {
      hide Kept, Listing;
      served := [];
      KeptNone(Listing(dnn));
      for i := 0 to |slices|
        invariant Kept(slices[..i], Listing(dnn), served)
      {
        var s := slices[i];
        KeptSnoc(slices[..i], s, Listing(dnn), served);
        assert slices[..i + 1] == slices[..i] + [s];
        NamesHave(s, dnn);
        if dnn in NamesOf(s) { served := served + [s]; }
      }
      assert slices[..|slices|] == slices;
    }

    method GetDnnIpPool(dnn: string) returns (cidr: Option<string>)
      ensures cidr == match PoolOf(NoPool, slices, dnn) case OnePool(c) => Some(c) case _ => None
    {
      var found: Option<string> := None;
      var i := 0;
      assert slices[0..] == slices;
      while i < |slices|
        invariant 0 <= i <= |slices|
        invariant PoolOf(NoPool, slices, dnn) == PoolOf(AsPool(found), slices[i..], dnn)
      {
        assert slices[i..][1..] == slices[i + 1..];
        var ds := slices[i].dnns;
        ghost var start := AsPool(found);
        var j := 0;
        assert ds[0..] == ds;
        while j < |ds|
          invariant 0 <= j <= |ds|
          invariant PoolOfDnns(start, ds, dnn) == PoolOfDnns(AsPool(found), ds[j..], dnn)
        {
          assert ds[j..][1..] == ds[j + 1..];
          if ds[j].name == dnn {
            if found.None? {
              found := Some(ds[j].cidr);
            } else if found.value != ds[j].cidr {
              ConflictStays(ds[j + 1..], slices[i + 1..], dnn);
              return None;
            }
          }
          j := j + 1;
        }
        i := i + 1;
      }
      cidr := found;
    }

    /**
     * A failure leaves what was registered so far. It comes after the VM and the configurator were
     * written into the maps only if the networks of the request that created the blueprint are not all
     * among the current ones; then there is no success.
     */
    method DeployUpfVm(dnn: string) returns (r: Deployment)
      modifies this`vms, this`configurators, this`registered, this`next, this`calls
      ensures r.Deployed? ==> r.info == Info(r.info.served, old(next), old(next) + 1) && Fresh(slices, dnn, r.info)
      ensures var attached := {nets.mgt, nets.n4, nets.n3, nets.n6};
              && (r.Deployed? ==> {createNets.n4, createNets.n3, createNets.n6} <= attached)
              && (r.FailedLate? ==> !({createNets.n4, createNets.n3, createNets.n6} <= attached))
      ensures !r.Failed? ==> |calls| == |old(calls)| + 2 && old(calls) <= calls
      ensures !r.Failed? ==>
                VmBuilt(slices, nets, dnn, old(next), old(next) + 1, calls[|old(calls)|], calls[|old(calls)| + 1])
      ensures old(calls) <= calls
      ensures !r.Failed? ==>
                && vms == old(vms)[old(next) := dnn] && configurators == old(configurators)[old(next) + 1 := dnn]
                && registered == old(registered) + {old(next), old(next) + 1} && next == old(next) + 2
      ensures r.Failed? ==>
                && vms == old(vms) && configurators == old(configurators)
                && Gained(old(registered), registered, old(next))
      ensures old(next) <= next <= old(next) + 2 && forall x :: x in registered - old(registered) ==> x < next
    {
      var vm := RegisterVm();
      if vm.None? { return Failed; }
      var ok := Provider(CreateVm(vm.value, dnn, nets));
      if !ok { return Failed; }
      var pool := GetDnnIpPool(dnn);
      if pool.None? { return Failed; }
      var configurator := RegisterConfigurator();
      ok := Provider(ConfigureVm(configurator, vm.value, dnn, pool.value, nets.n3, nets.n6));
      PoolIsUnanimous(slices, dnn, pool.value);
      assert registered == old(registered) + {vm.value, configurator};
      if !ok { return Failed; }
      vms := vms[vm.value := dnn];
      configurators := configurators[configurator := dnn];
      if !Describable() { return FailedLate; }
      var served := GetSlicesForDnn(dnn);
      r := Deployed(Info(served, vm.value, configurator));
    }

    /** None when a resource is missing or the provider fails. */
    method UndeployUpfVm(dnn: string) returns (r: Option<Info>)
      requires dnn in deployed
      modifies this`vms, this`configurators, this`registered, this`calls
      ensures r.Some? ==> calls == old(calls) + [DestroyVm(deployed[dnn].vmId)]
      ensures r.Some? ==>
                && r.value == deployed[dnn]
                && vms == old(vms) - {r.value.vmId} && configurators == old(configurators) - {r.value.configuratorId}
                && registered == old(registered) - {r.value.vmId} - {r.value.configuratorId}
      ensures r.None? && old(Sound()) ==>
                vms == old(vms) && configurators == old(configurators) && registered == old(registered)
    {
      assert Sound() ==> deployed[dnn].vmId in vms && deployed[dnn].configuratorId in configurators;
      var info := deployed[dnn];
      if info.vmId !in vms { return None; }
      var ok := Provider(DestroyVm(info.vmId));
      if !ok || info.vmId !in registered { return None; }
      registered := registered - {info.vmId};
      if info.configuratorId !in registered { return None; }
      registered := registered - {info.configuratorId};
      if info.configuratorId !in configurators { return None; }
      vms := vms - {info.vmId};
      configurators := configurators - {info.configuratorId};
      r := Some(info);
    }

    /**
     * A network that has no UPF yet. What a failure leaves is sound; list and maps still tell the same
     * iff it came before the maps were written, which it always does if the UPF can be described.
     */
    method AddDnn(dnn: string) returns (ok: bool)
      requires dnn !in deployed
      modifies this`upfList, this`deployed, this`vms, this`configurators, this`registered, this`next, this`calls
      ensures ok ==> |calls| == |old(calls)| + 2 && old(calls) <= calls
      ensures ok ==> dnn in deployed && deployed == old(deployed)[dnn := deployed[dnn]]
      ensures ok ==> VmBuilt(slices, nets, dnn, deployed[dnn].vmId, deployed[dnn].configuratorId,
                             calls[|old(calls)|], calls[|old(calls)| + 1])
      ensures ok ==> Fresh(slices, dnn, deployed[dnn]) && Describable()
      ensures !ok ==> deployed == old(deployed) && upfList == old(upfList)
      ensures old(Sound()) ==> Sound()
      ensures old(Sound()) && ok ==> Orphans() == old(Orphans()) && Lost() == old(Lost())
      ensures old(Sound()) && !ok ==>
                if vms == old(vms) then Lost() == old(Lost()) && Gained(old(Orphans()), Orphans(), old(next))
                else Lost() == old(Lost()) + {old(next), old(next) + 1} && Orphans() == old(Orphans())
      ensures old(Sound()) && !ok && vms != old(vms) ==> !Describable() && old(next) !in old(Lost())
      ensures old(Recorded()) && !ok ==> (Recorded() <==> vms == old(vms))
    {
      hide Fresh, VmBuilt, SoundAs, Unlisted, Gained;
      ghost var (v, list, maps, ids) := (next, upfList, (vms, configurators), registered);
      ghost var sound := Sound();
      var made := DeployUpfVm(dnn);
      if made.Failed? {
        if sound { NothingMade(list, deployed, maps.0, maps.1, ids, v, registered, next); }
        return false;
      }
      if sound {
        VmMade(list, deployed, maps.0, maps.1, ids, v, dnn, if made.Deployed? then made.info.served else []);
      }
      if made.FailedLate? { return false; }
      upfList := upfList + [made.info];
      deployed := deployed[dnn := made.info];
      ok := true;
    }

    /** A network configured no more. */
    method DropDnn(dnn: string) returns (ok: bool)
      requires dnn in deployed
      modifies this`upfList, this`deployed, this`vms, this`configurators, this`registered, this`calls
      ensures ok ==> deployed == old(deployed) - {dnn} && calls == old(calls) + [DestroyVm(old(deployed)[dnn].vmId)]
      ensures !ok ==> deployed == old(deployed)
      ensures old(Sound()) ==> Sound() && Orphans() == old(Orphans()) && Lost() == old(Lost())
    {
      ghost var sound := Sound();
      if sound { AgreeDrops(upfList, deployed, vms, configurators, dnn); }
      var info := UndeployUpfVm(dnn);
      if info.None? || info.value !in upfList { return false; }
      upfList := RemoveFirst(upfList, info.value);
      deployed := deployed - {dnn};
      ok := true;
    }

    /** The networks named by the configured slices. */
    method DnnsToDeploy() returns (names: seq<string>)
      ensures forall d :: d in names <==> d in DnnNames(slices)
    {
      names := [];
      for i := 0 to |slices|
        invariant forall d :: d in names <==>
                              exists k, j :: 0 <= k < i && 0 <= j < |slices[k].dnns| && slices[k].dnns[j].name == d
      {
        var ds := slices[i].dnns;
        ghost var before := names;
        for j := 0 to |ds|
          invariant forall d :: d in names <==> d in before || exists k :: 0 <= k < j && ds[k].name == d
        {
          names := names + [ds[j].name];
        }
      }
    }

    /** The loop over the networks to deploy, in any order. */
    method DeployMissing(wanted: set<string>) returns (ok: bool, ghost made: seq<string>)
      modifies this`upfList, this`deployed, this`vms, this`configurators, this`registered, this`next, this`calls
      ensures ok ==> Made(slices, nets, old(deployed), deployed, made, old(calls), calls)
      ensures ok ==> deployed.Keys == old(deployed).Keys + wanted
      ensures ok ==> forall d :: d in old(deployed) ==> deployed[d] == old(deployed)[d]
      ensures ok ==> forall d :: d in wanted && d !in old(deployed) ==> Fresh(slices, d, deployed[d])
      ensures ok && !(wanted <= old(deployed).Keys) ==> Describable()
      ensures old(Sound()) ==> Sound() && old(Orphans()) <= Orphans() && old(Lost()) <= Lost()
      ensures old(Sound()) && ok ==> Orphans() == old(Orphans())
      ensures old(Sound()) && (ok || Describable()) ==> Lost() == old(Lost())
    {
      hide Made, Fresh, VmBuilt, SoundAs, Unlisted;
      ghost var (before, was) := (deployed, calls);
      NoneMade(slices, nets, before, was);
      var todo := wanted;
      made := [];
      while todo != {}
        invariant Made(slices, nets, before, deployed, made, was, calls)
        invariant todo <= wanted && deployed.Keys == before.Keys + (wanted - todo)
        invariant forall d :: d in before ==> deployed[d] == before[d]
        invariant forall d :: d in deployed && d !in before ==> Fresh(slices, d, deployed[d])
        invariant old(Sound()) ==> Sound() && Orphans() == old(Orphans()) && Lost() == old(Lost())
        invariant !(wanted - todo <= before.Keys) ==> Describable()
      {
        ghost var some := SomeMember(todo);
        var d :| d in todo;
        if d !in deployed {
          ghost var (current, list) := (calls, deployed);
          ok := AddDnn(d);
          if !ok { return; }
          MadeMore(slices, nets, before, list, deployed, made, was, current, calls, d);
          made := made + [d];
        }
        todo := todo - {d};
      }
      ok := true;
    }

    /** The loop over the networks to undeploy, in any order. */
    method UndeployExtra(wanted: set<string>) returns (ok: bool, ghost gone: seq<string>)
      modifies this`upfList, this`deployed, this`vms, this`configurators, this`registered, this`calls
      ensures ok ==> Gone(old(deployed), old(deployed).Keys - wanted, gone, old(calls), calls)
      ensures ok ==> deployed == old(deployed) - (old(deployed).Keys - wanted)
      ensures old(Sound()) ==> Sound() && Orphans() == old(Orphans()) && Lost() == old(Lost())
    {
      hide SoundAs, Unlisted;
      ghost var (before, was) := (deployed, calls);
      var todo := deployed.Keys - wanted;
      ghost var all := todo;
      gone := [];
      while todo != {}
        invariant Gone(before, all - todo, gone, was, calls)
        invariant todo <= all && deployed == before - (all - todo)
        invariant old(Sound()) ==> Sound() && Orphans() == old(Orphans()) && Lost() == old(Lost())
      {
        ghost var some := SomeMember(todo);
        var d :| d in todo;
        ghost var current := calls;
        ok := DropDnn(d);
        if !ok { return; }
        GoneMore(before, all - todo, gone, was, current, calls, d);
        gone := gone + [d];
        todo := todo - {d};
        assert all - todo == all - (todo + {d}) + {d};
      }
      ok := true;
    }

    /**
     * update_deployments. When it succeeds the networks that have a UPF are those of the configured
     * slices, those that had one keep it, and from a consistent state it leaves a consistent one; a VM was
     * created and configured for each network that is new, and destroyed for each that went. A
     * failure leaves a sound state, and list and maps telling the same if UPFs can be described; what
     * was registered in vain, or written into the maps in vain, is never taken off again.
     */
    method UpdateDeployments() returns (ok: bool)
      modifies this`upfList, this`deployed, this`vms, this`configurators, this`registered, this`next, this`calls
      ensures ok ==> Turnover(slices, nets, old(deployed), deployed, old(calls), calls)
      ensures ok ==> deployed.Keys == DnnNames(slices)
      ensures ok ==> forall d :: d in deployed ==>
                       if d in old(deployed) then deployed[d] == old(deployed)[d] else Fresh(slices, d, deployed[d])
      ensures ok && old(Consistent()) ==> Consistent()
      ensures ok && !(DnnNames(slices) <= old(deployed).Keys) ==> Describable()
      ensures old(Sound()) ==> Sound() && old(Orphans()) <= Orphans() && old(Lost()) <= Lost()
      ensures old(Sound()) && ok ==> Orphans() == old(Orphans()) && Lost() == old(Lost())
      ensures old(Recorded()) && Describable() ==> Recorded()
    {
      var names := DnnsToDeploy();
      var wanted := set d | d in names;
      assert wanted == DnnNames(slices);
      ghost var made, gone, before, was := [], [], deployed, calls;
      ok, made := DeployMissing(wanted);
      if !ok { return; }
      ghost var middle, some := deployed, calls;
      ok, gone := UndeployExtra(wanted);
      if ok { TurnedOver(slices, nets, before, middle, deployed, made, gone, was, some, calls); }
    }

    /**
     * A new configuration, in which every network may be another one. If those of the creating request
     * are no longer all there, no network without a UPF gets one any more.
     */
    method Update(slices: seq<SliceModel>, nets: Nets) returns (ok: bool)
      modifies this
      ensures this.slices == slices && this.nets == nets
      ensures ok ==> deployed.Keys == DnnNames(slices)
      ensures ok ==> Turnover(slices, nets, old(deployed), deployed, old(calls), calls)
      ensures ok && old(Consistent()) ==> Consistent()
      ensures old(Sound()) ==> Sound() && old(Orphans()) <= Orphans() && old(Lost()) <= Lost()
      ensures old(Recorded()) && Covers(nets, createNets) ==> Recorded()
      ensures !Covers(nets, createNets) && !(DnnNames(slices) <= old(deployed).Keys) ==> !ok
    {
      this.slices, this.nets := slices, nets;
      ok := UpdateDeployments();
    }
  }

  /** Nothing, the id v, or v and the next one were added. */
  ghost predicate Gained(before: set<nat>, after: set<nat>, v: nat) {
    after == before || after == before + {v} || after == before + {v, v + 1}
  }

  /** Deployed just now: the pools given for the network agree, and it serves the slices that list it. */
  ghost predicate Fresh(slices: seq<SliceModel>, dnn: string, i: Info) {
    && dnn in DnnNames(slices) && (exists cidr :: AllPools(slices, dnn, cidr))
    && ServedSlices(slices, dnn, i.served)
  }

  lemma NamesHave(s: SliceModel, dnn: string)
    ensures dnn in NamesOf(s) <==> Listing(dnn)(s)
  {
    if d :| d in s.dnns && d.name == dnn {
      var j :| 0 <= j < |s.dnns| && s.dnns[j] == d;
      assert NamesOf(s)[j] == dnn;
    }
  }

  // ------------------------------------------------------ the calls to the provider

  /** A VM on the current networks, configured with the pool that the slices give for the network. */
  ghost predicate VmBuilt(slices: seq<SliceModel>, nets: Nets, dnn: string, vm: nat, configurator: nat,
                          create: VmCall, configure: VmCall) {
    && create == CreateVm(vm, dnn, nets)
    && configure.ConfigureVm? && configure == ConfigureVm(configurator, vm, dnn, configure.pool, nets.n3, nets.n6)
    && dnn in DnnNames(slices) && AllPools(slices, dnn, configure.pool)
  }

  /** The networks that are new, each once, and the two calls for each. */
  ghost predicate Made(slices: seq<SliceModel>, nets: Nets, before: map<string, Info>, after: map<string, Info>,
                       made: seq<string>, was: seq<VmCall>, now: seq<VmCall>) {
    && Distinct(made) && (forall d :: d in made <==> d in after && d !in before)
    && |now| == |was| + 2 * |made| && was <= now
    && forall k :: 0 <= k < |made| ==> BuiltAt(slices, nets, after, made[k], now, |was| + 2 * k)
  }

  ghost predicate BuiltAt(slices: seq<SliceModel>, nets: Nets, after: map<string, Info>, dnn: string,
                          calls: seq<VmCall>, i: nat) {
    && dnn in after && i + 1 < |calls|
    && VmBuilt(slices, nets, dnn, after[dnn].vmId, after[dnn].configuratorId, calls[i], calls[i + 1])
  }

  /** These networks, each once, and the call for each. */
  ghost predicate Gone(before: map<string, Info>, some: set<string>, gone: seq<string>,
                       was: seq<VmCall>, now: seq<VmCall>) {
    && Distinct(gone) && (forall d :: d in gone <==> d in some) && some <= before.Keys
    && |now| == |was| + |gone| && was <= now
    && forall k :: 0 <= k < |gone| ==> gone[k] in before && now[|was| + k] == DestroyVm(before[gone[k]].vmId)
  }

  /** Exactly these calls: for the new networks in some order, then for those that went. */
  ghost predicate Turnover(slices: seq<SliceModel>, nets: Nets, before: map<string, Info>, after: map<string, Info>,
                           was: seq<VmCall>, now: seq<VmCall>) {
    exists made, gone, some, middle ::
      && Made(slices, nets, before, middle, made, was, some)
      && Gone(before, before.Keys - after.Keys, gone, some, now)
      && middle.Keys == before.Keys + after.Keys && forall d :: d in after ==> d in middle && middle[d] == after[d]
  }

  lemma NoneMade(slices: seq<SliceModel>, nets: Nets, before: map<string, Info>, was: seq<VmCall>)
    ensures Made(slices, nets, before, before, [], was, was)
  {
  }

  lemma MadeMore(slices: seq<SliceModel>, nets: Nets, before: map<string, Info>, middle: map<string, Info>,
                 after: map<string, Info>, made: seq<string>, was: seq<VmCall>, some: seq<VmCall>, now: seq<VmCall>,
                 d: string)
    requires Made(slices, nets, before, middle, made, was, some)
    requires d !in middle && d in after && after == middle[d := after[d]] && d !in before
    requires |now| == |some| + 2 && some <= now && BuiltAt(slices, nets, after, d, now, |some|)
    ensures Made(slices, nets, before, after, made + [d], was, now)
  {
    hide VmBuilt;
    DistinctAppend(made, d);
    var more := made + [d];
    forall k | 0 <= k < |more| ensures BuiltAt(slices, nets, after, more[k], now, |was| + 2 * k) {
      if k < |made| {
        assert BuiltAt(slices, nets, middle, made[k], some, |was| + 2 * k);
        assert made[k] in made;
      }
    }
  }

  lemma GoneMore(before: map<string, Info>, part: set<string>, gone: seq<string>, was: seq<VmCall>,
                 some: seq<VmCall>, now: seq<VmCall>, d: string)
    requires Gone(before, part, gone, was, some) && d !in part && d in before
    requires now == some + [DestroyVm(before[d].vmId)]
    ensures Gone(before, part + {d}, gone + [d], was, now)
  {
    DistinctAppend(gone, d);
  }

  lemma TurnedOver(slices: seq<SliceModel>, nets: Nets, before: map<string, Info>, middle: map<string, Info>,
                   after: map<string, Info>, made: seq<string>, gone: seq<string>,
                   was: seq<VmCall>, some: seq<VmCall>, now: seq<VmCall>)
    requires Made(slices, nets, before, middle, made, was, some) && after.Keys == DnnNames(slices)
    requires middle.Keys == before.Keys + after.Keys && forall d :: d in after ==> d in middle && middle[d] == after[d]
    requires Gone(middle, middle.Keys - after.Keys, gone, some, now)
    requires forall d :: d in before ==> middle[d] == before[d]
    ensures Turnover(slices, nets, before, after, was, now)
  {
    hide Made;
    assert middle.Keys - after.Keys == before.Keys - after.Keys;
    forall k | 0 <= k < |gone| ensures gone[k] in before && now[|some| + k] == DestroyVm(before[gone[k]].vmId) {
      assert gone[k] in gone;
    }
    assert Gone(before, before.Keys - after.Keys, gone, some, now);
  }

  /** The list holds the deployed networks, and the maps hold their ids, each id for its network. */
  ghost predicate Agree(list: seq<Info>, deployed: map<string, Info>, vms: map<nat, string>,
                        configurators: map<nat, string>) {
    && Permutes(list, deployed)
    && EachHas(deployed, vms, (i: Info) => i.vmId)
    && EachHas(deployed, configurators, (i: Info) => i.configuratorId)
    && vms.Keys !! configurators.Keys
  }

  ghost predicate EachHas(deployed: map<string, Info>, ids: map<nat, string>, id: Info -> nat) {
    forall d :: d in deployed ==> id(deployed[d]) in ids && ids[id(deployed[d])] == d
  }

  ghost function IdsOf(deployed: map<string, Info>): set<nat> {
    (set d | d in deployed :: deployed[d].vmId) + (set d | d in deployed :: deployed[d].configuratorId)
  }

  ghost function Unlisted(deployed: map<string, Info>, vms: map<nat, string>, configurators: map<nat, string>)
    : set<nat>
  {
    vms.Keys + configurators.Keys - IdsOf(deployed)
  }

  /** The ids in the map are those of the deployed networks, each id for its network. */
  ghost predicate OnePer(deployed: map<string, Info>, ids: map<nat, string>, id: Info -> nat) {
    EachHas(deployed, ids, id) && forall x :: x in ids ==> ids[x] in deployed && id(deployed[ids[x]]) == x
  }

  /** With nothing lost there is exactly one VM and one configurator per network. */
  lemma NothingLostIsOnePer(list: seq<Info>, deployed: map<string, Info>, vms: map<nat, string>,
                            configurators: map<nat, string>)
    requires Agree(list, deployed, vms, configurators)
    ensures Unlisted(deployed, vms, configurators) == {} <==>
            && OnePer(deployed, vms, (i: Info) => i.vmId)
            && OnePer(deployed, configurators, (i: Info) => i.configuratorId)
  {
    var lost := Unlisted(deployed, vms, configurators);
    forall x | x in vms && x !in lost ensures vms[x] in deployed && deployed[vms[x]].vmId == x {
      var d :| d in deployed && (deployed[d].vmId == x || deployed[d].configuratorId == x);
    }
    forall x | x in configurators && x !in lost
      ensures configurators[x] in deployed && deployed[configurators[x]].configuratorId == x
    {
      var d :| d in deployed && (deployed[d].vmId == x || deployed[d].configuratorId == x);
    }
  }

  /** The list and the maps agree, what the maps hold is registered, and all ids were drawn before. */
  ghost predicate SoundAs(list: seq<Info>, deployed: map<string, Info>, vms: map<nat, string>,
                          configurators: map<nat, string>, registered: set<nat>, next: nat) {
    && Agree(list, deployed, vms, configurators)
    && vms.Keys + configurators.Keys <= registered
    && forall x :: x in registered ==> x < next
  }

  /** What was registered stays behind. */
  lemma NothingMade(list: seq<Info>, deployed: map<string, Info>, vms: map<nat, string>,
                    configurators: map<nat, string>, before: set<nat>, v: nat, after: set<nat>, next: nat)
    requires SoundAs(list, deployed, vms, configurators, before, v)
    requires Gained(before, after, v) && v <= next && forall x :: x in after - before ==> x < next
    ensures SoundAs(list, deployed, vms, configurators, after, next)
    ensures Gained(before - vms.Keys - configurators.Keys, after - vms.Keys - configurators.Keys, v)
  {
    var ids := vms.Keys + configurators.Keys;
    assert v !in before;
    assert before - vms.Keys - configurators.Keys == before - ids;
    assert after - vms.Keys - configurators.Keys == (before - ids) + (after - before);
    GainedOnly(before, after, v);
  }

  lemma GainedOnly(before: set<nat>, after: set<nat>, v: nat)
    requires Gained(before, after, v) && forall x :: x in before ==> x < v
    ensures after - before == {} || after - before == {v} || after - before == {v, v + 1}
  {
    if after == before + {v} { assert after - before == {v}; }
    if after == before + {v, v + 1} { assert after - before == {v, v + 1}; }
  }

  /** A VM and a configurator in the maps: lost, unless their network is deployed with them. */
  lemma VmMade(list: seq<Info>, deployed: map<string, Info>, vms: map<nat, string>, configurators: map<nat, string>,
               registered: set<nat>, v: nat, d: string, served: seq<SliceModel>)
    requires SoundAs(list, deployed, vms, configurators, registered, v) && d !in deployed
    ensures var (i, vms', configurators') := (Info(served, v, v + 1), vms[v := d], configurators[v + 1 := d]);
            var now := registered + {v, v + 1};
            && SoundAs(list + [i], deployed[d := i], vms', configurators', now, v + 2)
            && Unlisted(deployed[d := i], vms', configurators') == Unlisted(deployed, vms, configurators)
            && SoundAs(list, deployed, vms', configurators', now, v + 2)
            && Unlisted(deployed, vms', configurators') == Unlisted(deployed, vms, configurators) + {v, v + 1}
            && now - vms'.Keys - configurators'.Keys == registered - vms.Keys - configurators.Keys
    ensures v !in vms && v !in Unlisted(deployed, vms, configurators)
  {
    AgreeAdds(list, deployed, vms, configurators, d, served, v);
    var (vms', configurators') := (vms[v := d], configurators[v + 1 := d]);
    assert vms'.Keys == vms.Keys + {v} && configurators'.Keys == configurators.Keys + {v + 1};
    assert v !in registered && v + 1 !in registered;
    assert registered + {v, v + 1} - vms'.Keys - configurators'.Keys == registered - vms.Keys - configurators.Keys;
  }

  lemma AgreeAdds(list: seq<Info>, deployed: map<string, Info>, vms: map<nat, string>,
                  configurators: map<nat, string>, d: string, served: seq<SliceModel>, v: nat)
    requires Agree(list, deployed, vms, configurators) && d !in deployed
    requires (forall x :: x in vms ==> x < v) && forall x :: x in configurators ==> x < v
    ensures var (i, vms', configurators') := (Info(served, v, v + 1), vms[v := d], configurators[v + 1 := d]);
            && Agree(list + [i], deployed[d := i], vms', configurators')
            && Unlisted(deployed[d := i], vms', configurators') == Unlisted(deployed, vms, configurators)
            && Agree(list, deployed, vms', configurators')
            && Unlisted(deployed, vms', configurators') == Unlisted(deployed, vms, configurators) + {v, v + 1}
  {
    var i := Info(served, v, v + 1);
    assert v !in vms && v !in configurators && v + 1 !in vms && v + 1 !in configurators;
    forall e | e in deployed ensures deployed[e] != i && deployed[e].vmId < v && deployed[e].configuratorId < v {
      assert deployed[e].vmId in vms && deployed[e].configuratorId in configurators;
    }
    PermutesAppend(list, deployed, d, i);
    IdsAdd(deployed, d, i);
  }

  lemma IdsAdd(deployed: map<string, Info>, d: string, i: Info)
    requires d !in deployed
    ensures IdsOf(deployed[d := i]) == IdsOf(deployed) + {i.vmId, i.configuratorId}
  {
    var m := deployed[d := i];
    assert m[d] == i && forall e :: e in deployed ==> m[e] == deployed[e];
  }

  lemma AgreeDrops(list: seq<Info>, deployed: map<string, Info>, vms: map<nat, string>,
                   configurators: map<nat, string>, d: string)
    requires Agree(list, deployed, vms, configurators) && d in deployed
    ensures var i := deployed[d];
            var (vms', configurators') := (vms - {i.vmId}, configurators - {i.configuratorId});
            && Agree(RemoveFirst(list, i), deployed - {d}, vms', configurators')
            && Unlisted(deployed - {d}, vms', configurators') == Unlisted(deployed, vms, configurators)
  {
    PermutesRemove(list, deployed, d);
    var (i, rest) := (deployed[d], deployed - {d});
    IdsAdd(rest, d, i);
    assert rest[d := i] == deployed;
    forall e | e in rest
      ensures rest[e].vmId != i.vmId && rest[e].configuratorId != i.configuratorId
      ensures rest[e].vmId != i.configuratorId && rest[e].configuratorId != i.vmId
    {
      assert rest[e].vmId in vms && rest[e].configuratorId in configurators;
    }
  }

  /** A network of the creating request is gone: no UPF can be described. */
  lemma ChangedNetworkUncovered(n: Nets, n3: string)
    requires n.n3 !in {n.mgt, n.n4, n.n6, n3}
    ensures Covers(n, n) && !Covers(n.(n3 := n3), n)
  {
    assert n.n3 in {n.n4, n.n3, n.n6};
  }

  function AsPool(found: Option<string>): Pool {
    match found case None => NoPool case Some(c) => OnePool(c)
  }

  lemma {:induction false} ConflictStaysInSlice(ds: seq<DnnModel>, dnn: string)
    ensures PoolOfDnns(Conflict, ds, dnn) == Conflict
  {
    if ds != [] { ConflictStaysInSlice(ds[1..], dnn); }
  }

  lemma {:induction false} ConflictStays(ds: seq<DnnModel>, slices: seq<SliceModel>, dnn: string)
    ensures PoolOfDnns(Conflict, ds, dnn) == Conflict
    ensures PoolOf(Conflict, slices, dnn) == Conflict
    decreases |slices|
  {
    ConflictStaysInSlice(ds, dnn);
    if slices != [] { ConflictStays(slices[0].dnns, slices[1..], dnn); }
  }

  // ----------------------------------------------------- a list and a map alike

  /** The list holds the values of the map, each once, and no two keys have the same value. */
  ghost predicate Permutes(list: seq<Info>, m: map<string, Info>) {
    && Distinct(list)
    && (forall x :: x in list <==> x in m.Values)
    && forall d, e :: d in m && e in m && m[d] == m[e] ==> d == e
  }

  lemma PermutesAppend(list: seq<Info>, m: map<string, Info>, d: string, x: Info)
    requires Permutes(list, m) && d !in m && x !in m.Values
    ensures Permutes(list + [x], m[d := x])
  {
    var m' := m[d := x];
    forall y ensures y in list + [x] <==> y in m'.Values {
      if y in m.Values {
        var e :| e in m && m[e] == y;
        assert m'[e] == y;
      }
      assert m'[d] == x;
    }
  }

  lemma PermutesRemove(list: seq<Info>, m: map<string, Info>, d: string)
    requires Permutes(list, m) && d in m
    ensures Permutes(RemoveFirst(list, m[d]), m - {d})
  {
    RemoveFirstHas(list, m[d]);
    var m' := m - {d};
    forall y ensures y in RemoveFirst(list, m[d]) <==> y in m'.Values {
      if y in m.Values && y != m[d] {
        var e :| e in m && m[e] == y;
        assert e in m' && m'[e] == y;
      }
    }
  }
}
