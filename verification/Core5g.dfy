/**
 * The configuration of a 5G blueprint (src/nfvcl/models/blueprint_ng/core5g/common.py) and what the
 * day-2 operations make of it (src/nfvcl/blueprints_ng/modules/generic_5g/generic_5g.py).
 */
module Core5g {
  import opened Wrappers
  import opened Seqs

  datatype SliceType = EMBB | URLLC | MMTC

  datatype DataNet = DataNet(dnn: string, pools: seq<string>)

  datatype Profile = Profile(sliceId: string, sliceType: SliceType, dnnList: seq<string>)

  datatype Subscriber = Subscriber(imsi: string, sliceIds: seq<string>)

  datatype AreaSlice = AreaSlice(sliceType: SliceType, sliceId: string)

  datatype RouterNet = RouterNet(n3Ip: string, n6Ip: string, gnbIp: string, gnbCidr: string)

  datatype Networks = Networks(
    n3: Option<string>, n6: Option<string>, gnb: Option<string>, externalRouter: Option<RouterNet>)

  datatype Area = Area(id: int, upfType: string, networks: Networks, slices: seq<AreaSlice>)

  datatype Config = Config(
    mgt: Option<string>, wan: Option<string>, dataNets: seq<DataNet>,
    profiles: seq<Profile>, subscribers: seq<Subscriber>, areas: seq<Area>)

  // ------------------------------------------------------------------- lookups

  /** The first area of that id, or the length. */
  function AreaIndex(areas: seq<Area>, id: int): (k: nat)
    ensures k <= |areas| && (k < |areas| ==> areas[k].id == id)
    ensures forall i :: 0 <= i < k ==> areas[i].id != id
  {
    if areas == [] || areas[0].id == id then 0 else 1 + AreaIndex(areas[1..], id)
  }

  function GetArea(c: Config, id: int): Option<Area> {
    var k := AreaIndex(c.areas, id);
    if k < |c.areas| then Some(c.areas[k]) else None
  }

  function GetSliceProfile(profiles: seq<Profile>, id: string): (r: Option<Profile>)
    ensures r.Some? ==> r.value in profiles && r.value.sliceId == id
    ensures r.Some? <==> HasProfile(profiles, id)
  {
    if profiles == [] then None
    else if profiles[0].sliceId == id then Some(profiles[0])
    else GetSliceProfile(profiles[1..], id)
  }

  predicate HasProfile(profiles: seq<Profile>, id: string) {
    exists p :: p in profiles && p.sliceId == id
  }

  function AreaIds(areas: seq<Area>): set<int> {
    set a | a in areas :: a.id
  }

  // ------------------------------------------------------------ well-formedness

  predicate NoDuplicate<T(==)>(s: seq<T>) {
    |(set x | x in s)| == |s|
  }

  /** len(set(s)) is the length of s iff nothing occurs twice. */
  lemma NoDuplicateIsDistinct<T>(s: seq<T>)
    ensures NoDuplicate(s) <==> Distinct(s)
    ensures |(set x | x in s)| <= |s|
  {
    if s != [] {
      var n := |s| - 1;
      var t := s[..n];
      NoDuplicateIsDistinct(t);
      assert s == t + [s[n]];
      if s[n] in t {
        assert (set x | x in s) == (set x | x in t);
      } else {
        assert (set x | x in s) == (set x | x in t) + {s[n]};
        assert Distinct(t) ==> Distinct(s);
      }
      assert Distinct(s) ==> Distinct(t);
    }
  }

  /** All DNNs of the slice profiles, in order. */
  function Dnns(profiles: seq<Profile>): seq<string> {
    if profiles == [] then [] else profiles[0].dnnList + Dnns(profiles[1..])
  }

  /** configuration_feasibility_check. */
  predicate Feasible(profiles: seq<Profile>) {
    NoDuplicate(Dnns(profiles))
  }

  function SliceIds(profiles: seq<Profile>): seq<string> {
    seq(|profiles|, i requires 0 <= i < |profiles| => profiles[i].sliceId)
  }

  function Imsis(subscribers: seq<Subscriber>): seq<string> {
    seq(|subscribers|, i requires 0 <= i < |subscribers| => subscribers[i].imsi)
  }

  function IdsOf(areas: seq<Area>): seq<int> {
    seq(|areas|, i requires 0 <= i < |areas| => areas[i].id)
  }

  function IdsOfSlices(slices: seq<AreaSlice>): seq<string> {
    seq(|slices|, i requires 0 <= i < |slices| => slices[i].sliceId)
  }

  /** The slices of an area are distinct and each has a profile. */
  ghost predicate GoodSlices(slices: seq<AreaSlice>, profiles: seq<Profile>) {
    && Distinct(IdsOfSlices(slices))
    && forall i :: 0 <= i < |slices| ==> HasProfile(profiles, slices[i].sliceId)
  }

  ghost predicate WellFormed(c: Config) {
    && Distinct(Dnns(c.profiles))
    && Distinct(SliceIds(c.profiles))
    && Distinct(Imsis(c.subscribers))
    && Distinct(IdsOf(c.areas))
    && forall i :: 0 <= i < |c.areas| ==> GoodSlices(c.areas[i].slices, c.profiles)
  }

  // --------------------------------------------------------- day-2 operations

  datatype Day2 =
    | AddUes(subscriber: Subscriber)
    | DelUes(imsi: string)
    | AddDnn(net: DataNet)
    | DelDnn(dnn: string)
    | AddSlice(profile: Profile, areaIds: seq<int>, oss: bool) // no area ids: absent or empty
    | DelSlice(sliceId: string)
    | AddTac(area: Area)
    | DelTac(areaId: int)

  datatype Refusal =
    | Exists | Missing | SharedDnn | DnnInUse | NoArea | NoSuchArea

  function DropProfiles(profiles: seq<Profile>, id: string): seq<Profile> {
    if profiles == [] then []
    else (if profiles[0].sliceId != id then [profiles[0]] else []) + DropProfiles(profiles[1..], id)
  }

  function DropSlices(slices: seq<AreaSlice>, id: string): seq<AreaSlice> {
    if slices == [] then []
    else (if slices[0].sliceId != id then [slices[0]] else []) + DropSlices(slices[1..], id)
  }

  function DropSubscribers(subs: seq<Subscriber>, imsi: string): seq<Subscriber> {
    if subs == [] then [] else (if subs[0].imsi != imsi then [subs[0]] else []) + DropSubscribers(subs[1..], imsi)
  }

  function DropNets(nets: seq<DataNet>, dnn: string): seq<DataNet> {
    if nets == [] then [] else (if nets[0].dnn != dnn then [nets[0]] else []) + DropNets(nets[1..], dnn)
  }

  function DropAreas(areas: seq<Area>, id: int): seq<Area> {
    if areas == [] then [] else (if areas[0].id != id then [areas[0]] else []) + DropAreas(areas[1..], id)
  }

  function DropFromAreas(areas: seq<Area>, id: string): (out: seq<Area>)
    ensures |out| == |areas|
    ensures forall i :: 0 <= i < |areas| ==> out[i] == areas[i].(slices := DropSlices(areas[i].slices, id))
  {
    if areas == [] then [] else [areas[0].(slices := DropSlices(areas[0].slices, id))] + DropFromAreas(areas[1..], id)
  }

  /** The slice is appended to the first area of each given id. */
  function AddToAreas(areas: seq<Area>, ids: seq<int>, s: AreaSlice): (out: seq<Area>)
    requires forall id :: id in ids ==> AreaIndex(areas, id) < |areas|
    ensures |out| == |areas|
    decreases |ids|
  {
    if ids == [] then areas
    else
      var k := AreaIndex(areas, ids[0]);
      var next := areas[k := areas[k].(slices := areas[k].slices + [s])];
      SameAreaIndex(areas, k, s);
      assert forall id :: id in ids[1..] ==> id in ids;
      AddToAreas(next, ids[1..], s)
  }

  lemma SameAreaIndex(areas: seq<Area>, k: nat, s: AreaSlice)
    requires k < |areas|
    ensures forall id :: AreaIndex(areas[k := areas[k].(slices := areas[k].slices + [s])], id) == AreaIndex(areas, id)
  {
    var next := areas[k := areas[k].(slices := areas[k].slices + [s])];
    forall id ensures AreaIndex(next, id) == AreaIndex(areas, id) {
      SameIdsSameIndex(areas, next, id);
    }
  }

  lemma {:induction false} SameIdsSameIndex(a: seq<Area>, b: seq<Area>, id: int)
    requires |a| == |b| && forall i :: 0 <= i < |a| ==> a[i].id == b[i].id
    ensures AreaIndex(a, id) == AreaIndex(b, id)
  {
    if a != [] && a[0].id != id {
      assert forall i :: 0 <= i < |a| - 1 ==> a[1..][i].id == b[1..][i].id;
      SameIdsSameIndex(a[1..], b[1..], id);
    }
  }

  /** The checks of an operation and the configuration it then tries to deploy. */
  function Requested(c: Config, op: Day2): Result<Config, Refusal> {
    match op
    case AddUes(s) =>
      if exists x :: x in c.subscribers && x.imsi == s.imsi then Err(Exists)
      else if !exists p :: p in c.profiles && p.sliceId in s.sliceIds then Err(Missing)
      else Ok(c.(subscribers := c.subscribers + [s]))
    case DelUes(imsi) =>
      if !exists x :: x in c.subscribers && x.imsi == imsi then Err(Missing)
      else Ok(c.(subscribers := DropSubscribers(c.subscribers, imsi)))
    case AddDnn(net) =>
      if exists n :: n in c.dataNets && n.dnn == net.dnn then Err(Exists)
      else Ok(c.(dataNets := c.dataNets + [net]))
    case DelDnn(dnn) =>
      if !exists n :: n in c.dataNets && n.dnn == dnn then Err(Missing)
      else if exists p :: p in c.profiles && dnn in p.dnnList then Err(DnnInUse)
      else Ok(c.(dataNets := DropNets(c.dataNets, dnn)))
    case AddSlice(p, ids, oss) =>
      if !Feasible(c.profiles + [p]) then Err(SharedDnn)
      else if HasProfile(c.profiles, p.sliceId) then Err(Exists)
      else if oss && ids == [] then Err(NoArea)
      else if exists id :: id in ids && !(AreaIndex(c.areas, id) < |c.areas|) then Err(NoSuchArea)
      else Ok(c.(areas := AddToAreas(c.areas, ids, AreaSlice(p.sliceType, p.sliceId)), profiles := c.profiles + [p]))
    case DelSlice(id) =>
      Ok(c.(areas := DropFromAreas(c.areas, id), profiles := DropProfiles(c.profiles, id)))
    case AddTac(a) =>
      if GetArea(c, a.id).Some? then Err(Exists) else Ok(c.(areas := c.areas + [a]))
    case DelTac(id) =>
      if GetArea(c, id).None? then Err(Missing) else Ok(c.(areas := DropAreas(c.areas, id)))
  }

  // ------------------------------------------------- operations keep it well formed

  /** Dropping profiles drops some DNNs and keeps the order of the others. */
  lemma DropProfilesKeeps(profiles: seq<Profile>, id: string)
    requires Distinct(Dnns(profiles)) && Distinct(SliceIds(profiles))
    ensures Distinct(Dnns(DropProfiles(profiles, id))) && Distinct(SliceIds(DropProfiles(profiles, id)))
  {
    DroppedSliceIds(profiles, id);
    WithoutDistinct(SliceIds(profiles), id);
    DropProfileDnns(profiles, id);
  }

  lemma {:induction false} DropProfileDnns(profiles: seq<Profile>, id: string)
    requires Distinct(Dnns(profiles))
    ensures Distinct(Dnns(DropProfiles(profiles, id)))
    ensures forall d :: d in Dnns(DropProfiles(profiles, id)) ==> d in Dnns(profiles)
  {
    if profiles != [] {
      var p, rest := profiles[0], profiles[1..];
      var kept := DropProfiles(rest, id);
      DistinctConcat(p.dnnList, Dnns(rest));
      DropProfileDnns(rest, id);
      DistinctKept(p.dnnList, Dnns(rest), Dnns(kept));
      if p.sliceId != id {
        assert ([p] + kept)[1..] == kept;
      } else {
        assert [] + kept == kept;
      }
    }
  }

  lemma {:induction false} DroppedSliceIds(profiles: seq<Profile>, id: string)
    ensures SliceIds(DropProfiles(profiles, id)) == Without(SliceIds(profiles), id)
  {
    if profiles != [] {
      DroppedSliceIds(profiles[1..], id);
      assert SliceIds(profiles)[1..] == SliceIds(profiles[1..]);
      assert SliceIds(profiles)[0] == profiles[0].sliceId;
    }
  }

  lemma {:induction false} DroppedIds(slices: seq<AreaSlice>, id: string)
    ensures IdsOfSlices(DropSlices(slices, id)) == Without(IdsOfSlices(slices), id)
  {
    if slices != [] {
      DroppedIds(slices[1..], id);
      assert IdsOfSlices(slices)[1..] == IdsOfSlices(slices[1..]);
      assert IdsOfSlices(slices)[0] == slices[0].sliceId;
    }
  }

  lemma {:induction false} DroppedImsis(subs: seq<Subscriber>, imsi: string)
    ensures Imsis(DropSubscribers(subs, imsi)) == Without(Imsis(subs), imsi)
  {
    if subs != [] {
      DroppedImsis(subs[1..], imsi);
      assert Imsis(subs)[1..] == Imsis(subs[1..]);
      assert Imsis(subs)[0] == subs[0].imsi;
    }
  }

  lemma {:induction false} DroppedAreaIds(areas: seq<Area>, id: int)
    ensures IdsOf(DropAreas(areas, id)) == Without(IdsOf(areas), id)
  {
    if areas != [] {
      DroppedAreaIds(areas[1..], id);
      assert IdsOf(areas)[1..] == IdsOf(areas[1..]);
      assert IdsOf(areas)[0] == areas[0].id;
    }
  }

  lemma {:induction false} DropProfilesHas(profiles: seq<Profile>, id: string, p: Profile)
    ensures p in DropProfiles(profiles, id) <==> p in profiles && p.sliceId != id
  {
    if profiles != [] { DropProfilesHas(profiles[1..], id, p); }
  }

  lemma {:induction false} DropSlicesHas(slices: seq<AreaSlice>, id: string, s: AreaSlice)
    ensures s in DropSlices(slices, id) <==> s in slices && s.sliceId != id
  {
    if slices != [] { DropSlicesHas(slices[1..], id, s); }
  }

  lemma {:induction false} DropAreasHas(areas: seq<Area>, id: int, a: Area)
    ensures a in DropAreas(areas, id) <==> a in areas && a.id != id
  {
    if areas != [] { DropAreasHas(areas[1..], id, a); }
  }

  function Count(ids: seq<int>, id: int): nat {
    if ids == [] then 0 else (if ids[0] == id then 1 else 0) + Count(ids[1..], id)
  }

  lemma {:induction false} CountsMembers(ids: seq<int>)
    ensures forall id :: id in ids <==> Count(ids, id) > 0
  {
    if ids != [] {
      CountsMembers(ids[1..]);
      assert ids == [ids[0]] + ids[1..];
    }
  }

  ghost predicate EachOnce(ids: seq<int>) {
    forall id :: Count(ids, id) <= 1
  }

  lemma EachOnceCons(x: int, rest: seq<int>)
    ensures EachOnce([x] + rest) <==> EachOnce(rest) && Count(rest, x) == 0
  {
    var ids := [x] + rest;
    assert ids[1..] == rest;
    forall id ensures Count(ids, id) == (if x == id then 1 else 0) + Count(rest, id) {}
    if EachOnce(ids) {
      forall id ensures Count(rest, id) <= 1 { assert Count(ids, id) <= 1; }
      assert Count(ids, x) <= 1;
    }
  }

  lemma {:induction false} CountsDistinct(ids: seq<int>)
    ensures Distinct(ids) <==> EachOnce(ids)
  {
    if ids != [] {
      var x, rest := ids[0], ids[1..];
      assert ids == [x] + rest;
      CountsDistinct(rest);
      CountsMembers(rest);
      DistinctCons(x, rest);
      EachOnceCons(x, rest);
    }
  }

  function Copies(s: AreaSlice, n: nat): (out: seq<AreaSlice>)
    ensures |out| == n && forall i :: 0 <= i < n ==> out[i] == s
  {
    if n == 0 then [] else [s] + Copies(s, n - 1)
  }

  /** The first area of each id gets the slice as often as the id is named. */
  lemma {:induction false} AddToAreasEffect(areas: seq<Area>, ids: seq<int>, s: AreaSlice, i: nat)
    requires forall id :: id in ids ==> AreaIndex(areas, id) < |areas|
    requires i < |areas|
    ensures var n := if AreaIndex(areas, areas[i].id) == i then Count(ids, areas[i].id) else 0;
            AddToAreas(areas, ids, s)[i] == areas[i].(slices := areas[i].slices + Copies(s, n))
    decreases |ids|
  {
    if ids == [] {
      assert areas[i].slices + [] == areas[i].slices;
    } else {
      var k := AreaIndex(areas, ids[0]);
      var next := areas[k := areas[k].(slices := areas[k].slices + [s])];
      SameAreaIndex(areas, k, s);
      assert forall id :: id in ids[1..] ==> id in ids;
      AddToAreasEffect(next, ids[1..], s, i);
      var n := Count(ids[1..], areas[i].id);
      if i == k {
        assert areas[k].slices + [s] + Copies(s, n) == areas[k].slices + ([s] + Copies(s, n));
      }
    }
  }

  lemma OnlyOfItsId(areas: seq<Area>, i: nat)
    requires Distinct(IdsOf(areas)) && i < |areas|
    ensures AreaIndex(areas, areas[i].id) == i
  {
    var k := AreaIndex(areas, areas[i].id);
    assert IdsOf(areas)[i] == areas[i].id && IdsOf(areas)[k] == areas[k].id;
  }

  lemma IdsOfSlicesConcat(s: seq<AreaSlice>, t: seq<AreaSlice>)
    ensures IdsOfSlices(s + t) == IdsOfSlices(s) + IdsOfSlices(t)
  {
  }

  /** A new slice joins an area well formed iff it joins it at most once. */
  lemma CopiesGood(slices: seq<AreaSlice>, profiles: seq<Profile>, p: Profile, n: nat)
    requires GoodSlices(slices, profiles) && !HasProfile(profiles, p.sliceId)
    ensures GoodSlices(slices + Copies(AreaSlice(p.sliceType, p.sliceId), n), profiles + [p]) <==> n <= 1
  {
    var s := AreaSlice(p.sliceType, p.sliceId);
    var all := slices + Copies(s, n);
    IdsOfSlicesConcat(slices, Copies(s, n));
    DistinctConcat(IdsOfSlices(slices), IdsOfSlices(Copies(s, n)));
    var copied := IdsOfSlices(Copies(s, n));
    assert forall i :: 0 <= i < n ==> copied[i] == p.sliceId;
    assert forall x :: x in IdsOfSlices(slices) ==> HasProfile(profiles, x);
    if n > 1 { assert copied[0] == copied[1]; }
    forall i | 0 <= i < |all| ensures HasProfile(profiles + [p], all[i].sliceId) {
      ProfilesGrow(profiles, p, all[i].sliceId);
      assert i < |slices| ==> all[i] == slices[i];
      assert i >= |slices| ==> all[i] == s;
    }
  }

  lemma ProfilesGrow(profiles: seq<Profile>, p: Profile, id: string)
    ensures HasProfile(profiles + [p], id) <==> HasProfile(profiles, id) || id == p.sliceId
  {
    assert p in profiles + [p];
    if HasProfile(profiles, id) {
      var q :| q in profiles && q.sliceId == id;
      assert q in profiles + [p];
    }
  }

  lemma {:induction false} DnnsAppend(profiles: seq<Profile>, p: Profile)
    ensures Dnns(profiles + [p]) == Dnns(profiles) + p.dnnList
  {
    if profiles == [] {
      assert [p][1..] == [];
      assert p.dnnList + [] == [] + p.dnnList;
    } else {
      DnnsAppend(profiles[1..], p);
      assert (profiles + [p])[1..] == profiles[1..] + [p];
    }
  }

  /** A profile whose slice id no other has. */
  lemma NewSliceId(profiles: seq<Profile>, p: Profile)
    requires Distinct(SliceIds(profiles)) && forall q :: q in profiles ==> q.sliceId != p.sliceId
    ensures Distinct(SliceIds(profiles + [p])) && p.sliceId !in SliceIds(profiles)
  {
    assert SliceIds(profiles + [p]) == SliceIds(profiles) + [p.sliceId];
    DistinctAppend(SliceIds(profiles), p.sliceId);
    forall i | 0 <= i < |profiles| ensures SliceIds(profiles)[i] != p.sliceId { assert profiles[i] in profiles; }
  }

  /** A slice may be added exactly when no area is named twice. */
  lemma AddSliceExactlyWhen(c: Config, p: Profile, ids: seq<int>, oss: bool)
    requires WellFormed(c) && Requested(c, AddSlice(p, ids, oss)).Ok?
    ensures WellFormed(Requested(c, AddSlice(p, ids, oss)).value) <==> Distinct(ids)
  {
    var s := AreaSlice(p.sliceType, p.sliceId);
    var after := Requested(c, AddSlice(p, ids, oss)).value;
    NoDuplicateIsDistinct(Dnns(after.profiles));
    NewSliceId(c.profiles, p);
    CountsDistinct(ids);
    CountsMembers(ids);
    forall i | 0 <= i < |c.areas|
      ensures after.areas[i].id == c.areas[i].id
      ensures GoodSlices(after.areas[i].slices, after.profiles) <==> Count(ids, c.areas[i].id) <= 1
    {
      AddToAreasEffect(c.areas, ids, s, i);
      OnlyOfItsId(c.areas, i);
      CopiesGood(c.areas[i].slices, c.profiles, p, Count(ids, c.areas[i].id));
    }
    assert IdsOf(after.areas) == IdsOf(c.areas);
    if Distinct(ids) {
      forall i | 0 <= i < |c.areas| ensures GoodSlices(after.areas[i].slices, after.profiles) {
        assert Count(ids, c.areas[i].id) <= 1;
      }
    } else {
      var id :| Count(ids, id) > 1;
      var i := AreaIndex(c.areas, id);
      assert id in ids && !GoodSlices(after.areas[i].slices, after.profiles);
    }
  }

  /** An area may be added exactly when its slices are distinct and have profiles. */
  lemma AddTacExactlyWhen(c: Config, a: Area)
    requires WellFormed(c) && Requested(c, AddTac(a)).Ok?
    ensures WellFormed(Requested(c, AddTac(a)).value) <==> GoodSlices(a.slices, c.profiles)
  {
    var after := Requested(c, AddTac(a)).value;
    assert IdsOf(after.areas) == IdsOf(c.areas) + [a.id];
    assert forall i :: 0 <= i < |c.areas| ==> IdsOf(c.areas)[i] != a.id;
    DistinctAppend(IdsOf(c.areas), a.id);
    assert after.areas[|c.areas|] == a;
    assert forall i :: 0 <= i < |c.areas| ==> after.areas[i] == c.areas[i];
  }

  lemma DelSliceKeeps(c: Config, id: string)
    requires WellFormed(c)
    ensures WellFormed(Requested(c, DelSlice(id)).value)
  {
    var after := Requested(c, DelSlice(id)).value;
    DropProfilesKeeps(c.profiles, id);
    assert IdsOf(after.areas) == IdsOf(c.areas);
    forall i | 0 <= i < |c.areas| ensures GoodSlices(after.areas[i].slices, after.profiles) {
      var slices := c.areas[i].slices;
      DroppedIds(slices, id);
      WithoutDistinct(IdsOfSlices(slices), id);
      forall k | 0 <= k < |after.areas[i].slices|
        ensures HasProfile(after.profiles, after.areas[i].slices[k].sliceId)
      {
        var s := after.areas[i].slices[k];
        DropSlicesHas(slices, id, s);
        var q :| q in c.profiles && q.sliceId == s.sliceId;
        DropProfilesHas(c.profiles, id, q);
      }
    }
  }

  lemma DelTacKeeps(c: Config, id: int)
    requires WellFormed(c)
    ensures WellFormed(c.(areas := DropAreas(c.areas, id)))
  {
    DroppedAreaIds(c.areas, id);
    WithoutDistinct(IdsOf(c.areas), id);
    var after := DropAreas(c.areas, id);
    forall i | 0 <= i < |after| ensures GoodSlices(after[i].slices, c.profiles) {
      DropAreasHas(c.areas, id, after[i]);
    }
  }

  /** What the requester must see to: the code does not check it. */
  ghost predicate Reasonable(c: Config, op: Day2) {
    match op
    case AddSlice(_, ids, _) => Distinct(ids)
    case AddTac(a) => GoodSlices(a.slices, c.profiles)
    case _ => true
  }

  /** An accepted operation keeps the configuration well formed exactly when the request is reasonable. */
  lemma RequestKeepsWellFormed(c: Config, op: Day2)
    requires WellFormed(c) && Requested(c, op).Ok?
    ensures WellFormed(Requested(c, op).value) <==> Reasonable(c, op)
  {
    match op
    case AddUes(s) =>
      assert Imsis(c.subscribers + [s]) == Imsis(c.subscribers) + [s.imsi];
      assert forall i :: 0 <= i < |c.subscribers| ==> c.subscribers[i] in c.subscribers;
      DistinctAppend(Imsis(c.subscribers), s.imsi);
    case DelUes(imsi) =>
      DroppedImsis(c.subscribers, imsi);
      WithoutDistinct(Imsis(c.subscribers), imsi);
    case AddDnn(_) =>
    case DelDnn(_) =>
    case AddSlice(p, ids, oss) => AddSliceExactlyWhen(c, p, ids, oss);
    case DelSlice(id) => DelSliceKeeps(c, id);
    case AddTac(a) => AddTacExactlyWhen(c, a);
    case DelTac(id) => DelTacKeeps(c, id);
  }

  // ------------------------------------------------- what a request means

  /** t is s and n times x behind it. */
  ghost predicate Followed<T>(s: seq<T>, x: T, n: nat, t: seq<T>) {
    |t| == |s| + n && t[..|s|] == s && forall i :: |s| <= i < |t| ==> t[i] == x
  }

  /** The first area of each id gets the slice as often as the id is named; nothing else in it changes. */
  ghost predicate JoinsNamed(was: seq<Area>, ids: seq<int>, s: AreaSlice, now: seq<Area>) {
    && |now| == |was|
    && forall i :: 0 <= i < |was| ==>
                     var n := if exists j :: 0 <= j < i && was[j].id == was[i].id then 0 else multiset(ids)[was[i].id];
                     && now[i] == was[i].(slices := now[i].slices)
                     && Followed(was[i].slices, s, n, now[i].slices)
  }

  /** Every area loses the slices of that id, and nothing else in it changes. */
  ghost predicate LeavesAll(was: seq<Area>, id: string, now: seq<Area>) {
    && |now| == |was|
    && forall i :: 0 <= i < |was| ==>
                     && now[i] == was[i].(slices := now[i].slices)
                     && Kept(was[i].slices, (s: AreaSlice) => s.sliceId != id, now[i].slices)
  }

  /** How an operation changes the configuration from c to d: nothing but what is said here. */
  ghost predicate Changed(c: Config, op: Day2, d: Config) {
    match op
    case AddUes(s) => d == c.(subscribers := c.subscribers + [s])
    case DelUes(imsi) =>
      && d == c.(subscribers := d.subscribers)
      && Kept(c.subscribers, (s: Subscriber) => s.imsi != imsi, d.subscribers)
    case AddDnn(net) => d == c.(dataNets := c.dataNets + [net])
    case DelDnn(dnn) =>
      && d == c.(dataNets := d.dataNets)
      && Kept(c.dataNets, (n: DataNet) => n.dnn != dnn, d.dataNets)
    case AddSlice(p, ids, _) =>
      && d == c.(profiles := c.profiles + [p], areas := d.areas)
      && JoinsNamed(c.areas, ids, AreaSlice(p.sliceType, p.sliceId), d.areas)
    case DelSlice(id) =>
      && d == c.(profiles := d.profiles, areas := d.areas)
      && Kept(c.profiles, (p: Profile) => p.sliceId != id, d.profiles)
      && LeavesAll(c.areas, id, d.areas)
    case AddTac(a) => d == c.(areas := c.areas + [a])
    case DelTac(id) =>
      && d == c.(areas := d.areas)
      && Kept(c.areas, (a: Area) => a.id != id, d.areas)
  }

  /** When an operation is refused. */
  ghost predicate Refused(c: Config, op: Day2) {
    match op
    case AddUes(s) =>
      || (exists x :: x in c.subscribers && x.imsi == s.imsi)
      || (forall p :: p in c.profiles ==> p.sliceId !in s.sliceIds)
    case DelUes(imsi) => forall x :: x in c.subscribers ==> x.imsi != imsi
    case AddDnn(net) => exists n :: n in c.dataNets && n.dnn == net.dnn
    case DelDnn(dnn) =>
      || (forall n :: n in c.dataNets ==> n.dnn != dnn)
      || (exists p :: p in c.profiles && dnn in p.dnnList)
    case AddSlice(p, ids, oss) =>
      || !Distinct(Dnns(c.profiles) + p.dnnList)
      || (exists q :: q in c.profiles && q.sliceId == p.sliceId)
      || (oss && ids == [])
      || (exists id :: id in ids && forall a :: a in c.areas ==> a.id != id)
    case DelSlice(_) => false
    case AddTac(a) => exists x :: x in c.areas && x.id == a.id
    case DelTac(id) => forall x :: x in c.areas ==> x.id != id
  }

  lemma AreaIndexHas(areas: seq<Area>, id: int)
    ensures AreaIndex(areas, id) < |areas| <==> exists a :: a in areas && a.id == id
  {
    if AreaIndex(areas, id) < |areas| { assert areas[AreaIndex(areas, id)] in areas; }
  }

  lemma RefusedExactlyWhen(c: Config, op: Day2)
    ensures Requested(c, op).Err? <==> Refused(c, op)
  {
    hide AreaIndex, AddToAreas, DropFromAreas, Distinct;
    match op
    case AddSlice(p, ids, oss) =>
      NoDuplicateIsDistinct(Dnns(c.profiles + [p]));
      DnnsAppend(c.profiles, p);
      forall id ensures AreaIndex(c.areas, id) < |c.areas| <==> exists a :: a in c.areas && a.id == id {
        AreaIndexHas(c.areas, id);
      }
    case AddTac(a) => AreaIndexHas(c.areas, a.id);
    case DelTac(id) => AreaIndexHas(c.areas, id);
    case _ =>
  }

  /** An operation that is not refused asks for just that change. */
  lemma RequestedIs(c: Config, op: Day2)
    requires Requested(c, op).Ok?
    ensures Changed(c, op, Requested(c, op).value)
  {
    match op
    case DelUes(imsi) => DropSubscribersKept(c.subscribers, imsi);
    case DelDnn(dnn) => DropNetsKept(c.dataNets, dnn);
    case AddSlice(p, ids, _) => JoinsNamedAreas(c.areas, ids, AreaSlice(p.sliceType, p.sliceId));
    case DelSlice(id) =>
      DropProfilesKept(c.profiles, id);
      forall i | 0 <= i < |c.areas|
        ensures Kept(c.areas[i].slices, (s: AreaSlice) => s.sliceId != id, DropSlices(c.areas[i].slices, id))
      {
        DropSlicesKept(c.areas[i].slices, id);
      }
    case DelTac(id) => DropAreasKept(c.areas, id);
    case _ =>
  }

  lemma JoinsNamedAreas(areas: seq<Area>, ids: seq<int>, s: AreaSlice)
    requires forall id :: id in ids ==> AreaIndex(areas, id) < |areas|
    ensures JoinsNamed(areas, ids, s, AddToAreas(areas, ids, s))
  {
    forall i | 0 <= i < |areas|
      ensures var n := if exists j :: 0 <= j < i && areas[j].id == areas[i].id then 0
                       else multiset(ids)[areas[i].id];
              && AddToAreas(areas, ids, s)[i] == areas[i].(slices := AddToAreas(areas, ids, s)[i].slices)
              && Followed(areas[i].slices, s, n, AddToAreas(areas, ids, s)[i].slices)
    {
      AddToAreasEffect(areas, ids, s, i);
      CountIsMultiplicity(ids, areas[i].id);
      assert AreaIndex(areas, areas[i].id) <= i;
    }
  }

  lemma {:induction false} CountIsMultiplicity(ids: seq<int>, id: int)
    ensures Count(ids, id) == multiset(ids)[id]
  {
    if ids != [] {
      CountIsMultiplicity(ids[1..], id);
      assert ids == [ids[0]] + ids[1..];
    }
  }

  lemma {:induction false} DropSubscribersKept(subs: seq<Subscriber>, imsi: string)
    ensures Kept(subs, (s: Subscriber) => s.imsi != imsi, DropSubscribers(subs, imsi))
  {
    var test := (s: Subscriber) => s.imsi != imsi;
    if subs == [] {
      KeptNone(test);
    } else {
      DropSubscribersKept(subs[1..], imsi);
      KeptCons(subs[0], subs[1..], test, DropSubscribers(subs[1..], imsi));
      assert subs == [subs[0]] + subs[1..];
    }
  }

  lemma {:induction false} DropNetsKept(nets: seq<DataNet>, dnn: string)
    ensures Kept(nets, (n: DataNet) => n.dnn != dnn, DropNets(nets, dnn))
  {
    var test := (n: DataNet) => n.dnn != dnn;
    if nets == [] {
      KeptNone(test);
    } else {
      DropNetsKept(nets[1..], dnn);
      KeptCons(nets[0], nets[1..], test, DropNets(nets[1..], dnn));
      assert nets == [nets[0]] + nets[1..];
    }
  }

  lemma {:induction false} DropProfilesKept(profiles: seq<Profile>, id: string)
    ensures Kept(profiles, (p: Profile) => p.sliceId != id, DropProfiles(profiles, id))
  {
    var test := (p: Profile) => p.sliceId != id;
    if profiles == [] {
      KeptNone(test);
    } else {
      DropProfilesKept(profiles[1..], id);
      KeptCons(profiles[0], profiles[1..], test, DropProfiles(profiles[1..], id));
      assert profiles == [profiles[0]] + profiles[1..];
    }
  }

  lemma {:induction false} DropSlicesKept(slices: seq<AreaSlice>, id: string)
    ensures Kept(slices, (s: AreaSlice) => s.sliceId != id, DropSlices(slices, id))
  {
    var test := (s: AreaSlice) => s.sliceId != id;
    if slices == [] {
      KeptNone(test);
    } else {
      DropSlicesKept(slices[1..], id);
      KeptCons(slices[0], slices[1..], test, DropSlices(slices[1..], id));
      assert slices == [slices[0]] + slices[1..];
    }
  }

  lemma {:induction false} DropAreasKept(areas: seq<Area>, id: int)
    ensures Kept(areas, (a: Area) => a.id != id, DropAreas(areas, id))
  {
    var test := (a: Area) => a.id != id;
    if areas == [] {
      KeptNone(test);
    } else {
      DropAreasKept(areas[1..], id);
      KeptCons(areas[0], areas[1..], test, DropAreas(areas[1..], id));
      assert areas == [areas[0]] + areas[1..];
    }
  }

  /** A day-2 request and whether deploying the new configuration succeeded. */
  datatype Attempt = Attempt(op: Day2, deployed: bool)

  /** A refused or failed operation puts the configuration back. */
  function After(c: Config, t: Attempt): Config {
    match Requested(c, t.op)
    case Ok(next) => if t.deployed then next else c
    case Err(_) => c
  }

  function RunAll(c: Config, ts: seq<Attempt>): Config
    decreases |ts|
  {
    if ts == [] then c else RunAll(After(c, ts[0]), ts[1..])
  }

  ghost predicate AllReasonable(c: Config, ts: seq<Attempt>)
    decreases |ts|
  {
    ts == [] || (Reasonable(c, ts[0].op) && AllReasonable(After(c, ts[0]), ts[1..]))
  }

  /** Every run of day-2 operations, failed ones included, keeps the configuration well formed. */
  lemma {:induction false} RunsStayWellFormed(c: Config, ts: seq<Attempt>)
    requires WellFormed(c) && AllReasonable(c, ts)
    ensures WellFormed(RunAll(c, ts))
    decreases |ts|
  {
    if ts != [] {
      if Requested(c, ts[0].op).Ok? { RequestKeepsWellFormed(c, ts[0].op); }
      RunsStayWellFormed(After(c, ts[0]), ts[1..]);
    }
  }
}
