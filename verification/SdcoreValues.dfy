/**
 * The SD-Core values made of a 5G configuration
 * (src/nfvcl/blueprints_ng/modules/sdcore/sdcore_values_model.py): one network slice and one device
 * group per slice profile, and each subscriber in the groups of its slices.
 */
module SdcoreValues {
  import opened Wrappers
  import opened Seqs
  import opened Core5g
  import opened Text

  /** "1000 Mbps" read as a number and a unit in lower case. */
  datatype Rate = Rate(amount: int, unit: string)

  /** A data network; a rate is None when it is missing or cannot be read. */
  datatype Net = Net(dnn: string, dns: string, pools: seq<string>, downlink: Option<Rate>, uplink: Option<Rate>)

  datatype Model = Model(
    plmn: string, nets: seq<Net>, profiles: seq<Profile>, subscribers: seq<Subscriber>, areas: seq<Area>)

  datatype Row = Row(ueIdStart: string, ueIdEnd: string, plmn: string)

  datatype DeviceGroup = DeviceGroup(
    name: string, imsis: seq<string>, dnn: string, dns: string, pool: string,
    downlink: int, uplink: int, unit: string, site: string)

  datatype Gnb = Gnb(name: string, tac: int)

  datatype NetworkSlice = NetworkSlice(
    name: string, sd: string, sst: int, groups: seq<string>, gnbs: seq<Gnb>,
    mcc: string, mnc: string, site: string, upf: string)

  // ------------------------------------------------------------------ sequences

  /** The first position of x, or the length. */
  function IndexOf(s: seq<string>, x: string): (k: nat)
    ensures k <= |s| && (k < |s| ==> s[k] == x)
    ensures forall i :: 0 <= i < k ==> s[i] != x
  {
    if s == [] || s[0] == x then 0 else 1 + IndexOf(s[1..], x)
  }

  function Occurrences(s: seq<string>, x: string): nat {
    if s == [] then 0 else Occurrences(s[..|s| - 1], x) + (if s[|s| - 1] == x then 1 else 0)
  }

  function Repeat<T>(x: T, n: nat): (s: seq<T>)
    ensures |s| == n && forall i :: 0 <= i < n ==> s[i] == x
  {
    seq(n, i => x)
  }

  /** What a loop over the list from position i leaves, when it removes x from the list it reads. */
  function Sweep(s: seq<string>, x: string, i: nat): seq<string>
    decreases |s| - i
  {
    if i >= |s| then s else Sweep(if s[i] == x then RemoveFirst(s, x) else s, x, i + 1)
  }

  /** Two copies of x stand next to one another. */
  predicate Adjacent(s: seq<string>, x: string) {
    |s| >= 2 && (s[0] == s[1] == x || Adjacent(s[1..], x))
  }

  lemma {:induction false} OccurrencesIn(s: seq<string>, x: string)
    ensures x in s <==> Occurrences(s, x) > 0
    ensures Distinct(s) ==> Occurrences(s, x) <= 1
  {
    if s != [] {
      var t := s[..|s| - 1];
      OccurrencesIn(t, x);
      assert s == t + [s[|s| - 1]];
    }
  }

  lemma {:induction false} OccurrencesOfTwo(s: seq<string>, i: nat, j: nat)
    requires i < j < |s| && s[i] == s[j]
    ensures Occurrences(s, s[i]) >= 2
  {
    var t := s[..|s| - 1];
    if j == |s| - 1 { OccurrencesIn(t, s[i]); assert t[i] in t; } else { OccurrencesOfTwo(t, i, j); }
  }

  lemma {:induction false} RemoveFirstAfter(pre: seq<string>, rest: seq<string>, x: string)
    requires x !in pre && rest != [] && rest[0] == x
    ensures RemoveFirst(pre + rest, x) == pre + rest[1..]
  {
    if pre == [] {
      assert pre + rest == rest;
    } else {
      assert (pre + rest)[1..] == pre[1..] + rest;
      RemoveFirstAfter(pre[1..], rest, x);
    }
  }

  /** A copy that the loop has passed over stays, or a later one in its stead. */
  lemma {:induction false} PassedStays(s: seq<string>, x: string, k: nat, i: nat)
    requires k < i && k < |s| && s[k] == x
    ensures x in Sweep(s, x, i)
    decreases |s| - i
  {
    if i < |s| {
      if s[i] == x {
        ShiftedHit(s, x, k, i);
        PassedStays(RemoveFirst(s, x), x, i - 1, i + 1);
      } else {
        PassedStays(s, x, k, i + 1);
      }
    }
  }

  lemma {:induction false} ShiftedHit(s: seq<string>, x: string, k: nat, i: nat)
    requires k < i < |s| && s[k] == s[i] == x
    ensures |RemoveFirst(s, x)| == |s| - 1 && RemoveFirst(s, x)[i - 1] == x
  {
    if s[0] != x { ShiftedHit(s[1..], x, k - 1, i - 1); }
  }

  lemma {:induction false} SweepClean(pre: seq<string>, rest: seq<string>, x: string)
    requires x !in pre && !Adjacent(rest, x)
    ensures Sweep(pre + rest, x, |pre|) == pre + Without(rest, x)
    decreases |rest|
  {
    if rest == [] {
      assert pre + rest == pre + Without(rest, x);
    } else if rest[0] != x {
      SweepKeep(pre, rest, x);
      SweepClean(pre + [rest[0]], rest[1..], x);
      Regroup(pre, rest[0], Without(rest[1..], x));
    } else if |rest| == 1 {
      SweepHit(pre, rest, x);
      assert pre + rest[1..] == pre == pre + Without(rest, x);
    } else {
      SweepClean(pre + [rest[1]], rest[2..], x);
      SweepHitClean(pre, rest, x);
    }
  }

  lemma {:induction false} SweepHitClean(pre: seq<string>, rest: seq<string>, x: string)
    requires x !in pre && |rest| >= 2 && rest[0] == x != rest[1]
    requires Sweep((pre + [rest[1]]) + rest[2..], x, |pre| + 1) == (pre + [rest[1]]) + Without(rest[2..], x)
    ensures Sweep(pre + rest, x, |pre|) == pre + Without(rest, x)
  {
    SweepHit(pre, rest, x);
    WithoutHit(pre, rest, x);
  }

  lemma {:induction false} WithoutHit(pre: seq<string>, rest: seq<string>, x: string)
    requires |rest| >= 2 && rest[0] == x != rest[1]
    ensures pre + rest[1..] == (pre + [rest[1]]) + rest[2..]
    ensures (pre + [rest[1]]) + Without(rest[2..], x) == pre + Without(rest, x)
  {
    SweepPassed(pre, rest, x);
    Regroup(pre, rest[1], Without(rest[2..], x));
    assert Without(rest, x) == Without(rest[1..], x);
  }

  lemma {:induction false} SweepLeft(pre: seq<string>, rest: seq<string>, x: string)
    requires x !in pre && Adjacent(rest, x)
    ensures x in Sweep(pre + rest, x, |pre|)
    decreases |rest|
  {
    if rest[0] != x {
      SweepKeep(pre, rest, x);
      SweepLeft(pre + [rest[0]], rest[1..], x);
    } else {
      SweepHit(pre, rest, x);
      if rest[1] == x {
        assert (pre + rest[1..])[|pre|] == x;
        PassedStays(pre + rest[1..], x, |pre|, |pre| + 1);
      } else {
        SweepPassed(pre, rest, x);
        SweepLeft(pre + [rest[1]], rest[2..], x);
      }
    }
  }

  /** After a hit the loop passes over the next element. */
  lemma SweepPassed(pre: seq<string>, rest: seq<string>, x: string)
    requires |rest| >= 2 && rest[1] != x
    ensures pre + rest[1..] == (pre + [rest[1]]) + rest[2..]
    ensures Adjacent(rest[1..], x) == Adjacent(rest[2..], x)
    ensures Without(rest[1..], x) == [rest[1]] + Without(rest[2..], x)
  {
    assert rest[1..][1..] == rest[2..];
  }

  lemma SweepKeep(pre: seq<string>, rest: seq<string>, x: string)
    requires rest != [] && rest[0] != x
    ensures Sweep(pre + rest, x, |pre|) == Sweep((pre + [rest[0]]) + rest[1..], x, |pre| + 1)
  {
    assert pre + rest == (pre + [rest[0]]) + rest[1..];
  }

  lemma SweepHit(pre: seq<string>, rest: seq<string>, x: string)
    requires x !in pre && rest != [] && rest[0] == x
    ensures Sweep(pre + rest, x, |pre|) == Sweep(pre + rest[1..], x, |pre| + 1)
  {
    RemoveFirstAfter(pre, rest, x);
  }

  /** The loop takes every copy iff no two are neighbours, and then keeps the others in order. */
  lemma SweepIs(s: seq<string>, x: string)
    ensures x in Sweep(s, x, 0) <==> Adjacent(s, x)
    ensures !Adjacent(s, x) ==> Sweep(s, x, 0) == Without(s, x)
  {
    if Adjacent(s, x) { SweepLeft([], s, x); } else { SweepClean([], s, x); }
    assert [] + s == s;
  }

  /** Of n copies at the end of the list the loop leaves half. */
  lemma SweepLeavesHalf(t: seq<string>, x: string, n: nat)
    requires x !in t
    ensures Sweep(t + Repeat(x, n), x, 0) == t + Repeat(x, n / 2)
  {
    SweepUpTo(t, Repeat(x, n), x, 0);
    SweepTail(t, x, n, 0, n / 2, Sweep(t + Repeat(x, n), x, |t|));
  }

  lemma {:induction false} SweepUpTo(t: seq<string>, u: seq<string>, x: string, i: nat)
    requires x !in t && i <= |t|
    ensures Sweep(t + u, x, i) == Sweep(t + u, x, |t|)
    decreases |t| - i
  {
    if i < |t| { SweepUpTo(t, u, x, i + 1); }
  }

  lemma {:induction false} SweepTail(t: seq<string>, x: string, m: nat, j: nat, half: nat, left: seq<string>)
    requires x !in t && j <= m + 1 && 2 * half <= m + j <= 2 * half + 1
    requires left == Sweep(t + Repeat(x, m), x, |t| + j)
    ensures left == t + Repeat(x, half)
    decreases m + 1 - j
  {
    if j < m {
      SweepTailStep(t, x, m, j);
      SweepTail(t, x, m - 1, j + 1, half, left);
    } else {
      SweepEnds(t + Repeat(x, m), x, |t| + j);
    }
  }

  lemma {:induction false} SweepEnds(s: seq<string>, x: string, i: nat)
    requires i >= |s|
    ensures Sweep(s, x, i) == s
  {
  }

  lemma {:induction false} SweepTailStep(t: seq<string>, x: string, m: nat, j: nat)
    requires x !in t && j < m
    ensures Sweep(t + Repeat(x, m), x, |t| + j) == Sweep(t + Repeat(x, m - 1), x, |t| + (j + 1))
  {
    RemoveFirstAfter(t, Repeat(x, m), x);
    assert Repeat(x, m)[1..] == Repeat(x, m - 1);
  }

  // ------------------------------------------------------------------- names

  function SliceName(id: string): string { "slice_" + id }

  function GroupName(id: string): string { "device-group-" + SliceName(id) }

  function SiteName(id: string): string { "site-" + SliceName(id) }

  lemma NamesDiffer(a: string, b: string)
    ensures SliceName(a) == SliceName(b) ==> a == b
    ensures GroupName(a) == GroupName(b) ==> a == b
  {
    assert SliceName(a)[6..] == a && SliceName(b)[6..] == b;
    assert GroupName(a)[13..] == SliceName(a) && GroupName(b)[13..] == SliceName(b);
  }

  function Sds(slices: seq<NetworkSlice>): seq<string> {
    seq(|slices|, i requires 0 <= i < |slices| => slices[i].sd)
  }

  function GroupNames(groups: seq<DeviceGroup>): seq<string> {
    seq(|groups|, i requires 0 <= i < |groups| => groups[i].name)
  }

  function SliceNames(slices: seq<NetworkSlice>): seq<string> {
    seq(|slices|, i requires 0 <= i < |slices| => slices[i].name)
  }

  /** Slices and device groups correspond by position and bear the names of the slice id. */
  ghost predicate PairedLists(groups: seq<DeviceGroup>, slices: seq<NetworkSlice>) {
    && |groups| == |slices|
    && forall i :: 0 <= i < |slices| ==>
                     && slices[i].name == SliceName(slices[i].sd)
                     && slices[i].groups == [GroupName(slices[i].sd)]
                     && groups[i].name == GroupName(slices[i].sd)
  }

  lemma {:induction false} SameIndex(a: seq<string>, x: string, b: seq<string>, y: string)
    requires |a| == |b| && forall i :: 0 <= i < |a| ==> (a[i] == x <==> b[i] == y)
    ensures IndexOf(a, x) == IndexOf(b, y)
  {
    if a != [] {
      assert forall i :: 0 <= i < |a| - 1 ==> a[1..][i] == a[i + 1] && b[1..][i] == b[i + 1];
      SameIndex(a[1..], x, b[1..], y);
    }
  }

  /** Paired lists find the same position by slice id, by slice name and by group name. */
  lemma FoundTogether(groups: seq<DeviceGroup>, slices: seq<NetworkSlice>, id: string)
    requires PairedLists(groups, slices)
    ensures IndexOf(GroupNames(groups), GroupName(id)) == IndexOf(Sds(slices), id)
    ensures IndexOf(SliceNames(slices), SliceName(id)) == IndexOf(Sds(slices), id)
  {
    forall i | 0 <= i < |slices|
      ensures SliceNames(slices)[i] == SliceName(id) <==> Sds(slices)[i] == id
      ensures GroupNames(groups)[i] == GroupName(id) <==> Sds(slices)[i] == id
    {
      NamesDiffer(slices[i].sd, id);
    }
    SameIndex(SliceNames(slices), SliceName(id), Sds(slices), id);
    SameIndex(GroupNames(groups), GroupName(id), Sds(slices), id);
  }

  // ----------------------------------------------------- what a profile becomes

  function NetIndex(nets: seq<Net>, dnn: string): (k: nat)
    ensures k <= |nets| && (k < |nets| ==> nets[k].dnn == dnn)
    ensures forall i :: 0 <= i < k ==> nets[i].dnn != dnn
  {
    if nets == [] || nets[0].dnn == dnn then 0 else 1 + NetIndex(nets[1..], dnn)
  }

  predicate GoodRates(n: Net) {
    && n.downlink.Some? && n.uplink.Some? && n.downlink.value.unit == n.uplink.value.unit
    && n.downlink.value.unit in ["mbps", "gbps", "kbps"]
  }

  /** SD-Core can take the profile: one data network, known, with a pool and rates in one unit. */
  predicate Fits(p: Profile, nets: seq<Net>) {
    && |p.dnnList| == 1
    && var k := NetIndex(nets, p.dnnList[0]);
    && k < |nets| && GoodRates(nets[k]) && nets[k].pools != []
  }

  function Sst(t: SliceType): int {
    match t case EMBB => 1 case URLLC => 2 case MMTC => 3
  }

  function NewSlice(p: Profile, plmn: string, area: Option<int>): NetworkSlice {
    var cut := if |plmn| < 3 then |plmn| else 3;
    NetworkSlice(SliceName(p.sliceId), p.sliceId, Sst(p.sliceType), [GroupName(p.sliceId)],
                 match area { case None => [] case Some(a) => [Gnb("gnb" + Decimal(a), a)] },
                 plmn[..cut], plmn[cut..], SiteName(p.sliceId), "PLACEHOLDER")
  }

  function NewGroup(p: Profile, nets: seq<Net>): DeviceGroup
    requires Fits(p, nets)
  {
    var n := nets[NetIndex(nets, p.dnnList[0])];
    DeviceGroup(GroupName(p.sliceId), [], n.dnn, n.dns, n.pools[0], n.downlink.value.amount, n.uplink.value.amount,
                n.downlink.value.unit, SiteName(p.sliceId))
  }

  ghost predicate FirstNet(nets: seq<Net>, dnn: string, k: int) {
    0 <= k < |nets| && nets[k].dnn == dnn && forall i :: 0 <= i < k ==> nets[i].dnn != dnn
  }

  /** The network slice of a profile: its id, type and names, and the plmn cut after three characters. */
  ghost predicate SliceMeans(p: Profile, plmn: string, s: NetworkSlice) {
    && s.sd == p.sliceId
    && s.sst == (match p.sliceType case EMBB => 1 case URLLC => 2 case MMTC => 3)
    && s.name == "slice_" + p.sliceId && s.site == "site-slice_" + p.sliceId
    && s.groups == ["device-group-slice_" + p.sliceId]
    && plmn == s.mcc + s.mnc && (if |plmn| >= 3 then |s.mcc| == 3 else s.mnc == "")
  }

  /** The device group of a profile: what the first network of its only DNN says, in one known unit. */
  ghost predicate GroupMeans(p: Profile, nets: seq<Net>, g: DeviceGroup) {
    && p.dnnList == [g.dnn] && g.name == "device-group-slice_" + p.sliceId && g.site == "site-slice_" + p.sliceId
    && g.unit in ["mbps", "gbps", "kbps"]
    && exists k :: FirstNet(nets, g.dnn, k) && RatesAndPool(nets[k], g)
  }

  ghost predicate RatesAndPool(n: Net, g: DeviceGroup) {
    && n.downlink == Some(Rate(g.downlink, g.unit)) && n.uplink == Some(Rate(g.uplink, g.unit))
    && n.pools != [] && g.pool == n.pools[0] && g.dns == n.dns
  }

  lemma NewSliceMeans(p: Profile, plmn: string, area: Option<int>)
    ensures var s := NewSlice(p, plmn, area);
            && SliceMeans(p, plmn, s) && s.upf == "PLACEHOLDER"
            && s.gnbs == if area.None? then [] else [Gnb("gnb" + Decimal(area.value), area.value)]
  {
    var s := NewSlice(p, plmn, area);
    assert plmn == s.mcc + s.mnc;
    assert GroupName(p.sliceId) == "device-group-slice_" + p.sliceId;
    assert SiteName(p.sliceId) == "site-slice_" + p.sliceId;
  }

  lemma NewGroupMeans(p: Profile, nets: seq<Net>, imsis: seq<string>)
    requires Fits(p, nets)
    ensures GroupMeans(p, nets, NewGroup(p, nets).(imsis := imsis))
  {
    var (k, g) := (NetIndex(nets, p.dnnList[0]), NewGroup(p, nets).(imsis := imsis));
    assert FirstNet(nets, g.dnn, k) && RatesAndPool(nets[k], g);
    assert GroupName(p.sliceId) == "device-group-slice_" + p.sliceId;
    assert SiteName(p.sliceId) == "site-slice_" + p.sliceId;
  }

  /** A profile fits iff it has a device group. */
  lemma FitsExactlyWhen(p: Profile, nets: seq<Net>)
    ensures Fits(p, nets) <==> exists g :: GroupMeans(p, nets, g)
  {
    if Fits(p, nets) { NewGroupMeans(p, nets, []); }
    forall g | GroupMeans(p, nets, g) ensures Fits(p, nets) {
      var k :| FirstNet(nets, g.dnn, k) && RatesAndPool(nets[k], g);
      assert NetIndex(nets, p.dnnList[0]) == k;
    }
  }

  /** The ids of the areas, once for every entry that carries the slice. */
  function AreasWith(areas: seq<Area>, id: string): seq<int> {
    if areas == [] then []
    else
      var (n, a) := (|areas| - 1, areas[|areas| - 1]);
      AreasWith(areas[..n], id) + Repeat(a.id, Occurrences(IdsOfSlices(a.slices), id))
  }

  /** The only area entry that carries the slice. */
  function OnlyArea(areas: seq<Area>, id: string): Option<int> {
    var ids := AreasWith(areas, id);
    if |ids| == 1 then Some(ids[0]) else None
  }

  /** The IMSIs of a slice: each subscriber as often as it lists the slice, in order. */
  function ImsisOf(subs: seq<Subscriber>, id: string): seq<string> {
    if subs == [] then []
    else Repeat(subs[0].imsi, Occurrences(subs[0].sliceIds, id)) + ImsisOf(subs[1..], id)
  }

  // ------------------------------------------------------------- the translation

  datatype Conf = Conf(rows: seq<Row>, groups: seq<DeviceGroup>, slices: seq<NetworkSlice>)

  ghost predicate AllFit(m: Model) {
    forall i :: 0 <= i < |m.profiles| ==> Fits(m.profiles[i], m.nets)
  }

  ghost predicate AllListed(m: Model) {
    forall i :: 0 <= i < |m.subscribers| ==> Listed(SliceIds(m.profiles), m.subscribers[i].sliceIds)
  }

  ghost predicate Listed(known: seq<string>, ids: seq<string>) {
    forall id :: id in ids ==> id in known
  }

  /** Every profile fits and subscribers list slices that have a profile. */
  ghost predicate Translatable(m: Model) {
    AllFit(m) && AllListed(m)
  }

  function RowOf(imsi: string, plmn: string): Row { Row(imsi, imsi, plmn) }

  function RowsOf(m: Model): seq<Row> {
    seq(|m.subscribers|, i requires 0 <= i < |m.subscribers| => RowOf(m.subscribers[i].imsi, m.plmn))
  }

  function SlicesOf(m: Model): seq<NetworkSlice> {
    seq(|m.profiles|, i requires 0 <= i < |m.profiles| =>
      NewSlice(m.profiles[i], m.plmn, OnlyArea(m.areas, m.profiles[i].sliceId)))
  }

  /** The first profile of a slice id takes its subscribers. */
  ghost function GroupsOf(m: Model): (out: seq<DeviceGroup>)
    requires AllFit(m)
  {
    seq(|m.profiles|, i requires 0 <= i < |m.profiles| =>
      var (p, first) := (m.profiles[i], IndexOf(SliceIds(m.profiles), m.profiles[i].sliceId));
      NewGroup(p, m.nets).(imsis := if first == i then ImsisOf(m.subscribers, p.sliceId) else []))
  }

  ghost function Translate(m: Model): Conf
    requires Translatable(m)
  {
    Conf(RowsOf(m), GroupsOf(m), SlicesOf(m))
  }

  /** The lists made of a configuration: a row per subscriber, and a slice and a group per profile. */
  ghost predicate ListsMean(m: Model, rows: seq<Row>, groups: seq<DeviceGroup>, slices: seq<NetworkSlice>) {
    && |rows| == |m.subscribers| && |groups| == |slices| == |m.profiles|
    && (forall i :: 0 <= i < |rows| ==> rows[i] == Row(m.subscribers[i].imsi, m.subscribers[i].imsi, m.plmn))
    && forall i :: 0 <= i < |m.profiles| ==>
                     && SliceMeans(m.profiles[i], m.plmn, slices[i])
                     && GroupMeans(m.profiles[i], m.nets, groups[i])
  }

  /** There is a translation iff every profile has a group and every id listed by a subscriber a profile. */
  lemma TranslatableExactlyWhen(m: Model)
    ensures Translatable(m) <==>
            && (forall p :: p in m.profiles ==> exists g :: GroupMeans(p, m.nets, g))
            && forall u, id :: u in m.subscribers && id in u.sliceIds ==> id in SliceIds(m.profiles)
  {
    hide Fits, GroupMeans;
    var known := SliceIds(m.profiles);
    assert AllFit(m) <==> forall p :: p in m.profiles ==> exists g :: GroupMeans(p, m.nets, g) by {
      forall p ensures Fits(p, m.nets) <==> exists g :: GroupMeans(p, m.nets, g) { FitsExactlyWhen(p, m.nets); }
      assert AllFit(m) <==> forall p :: p in m.profiles ==> Fits(p, m.nets);
    }
    assert AllListed(m) <==> forall u :: u in m.subscribers ==> Listed(known, u.sliceIds);
  }

  lemma TranslationMeans(m: Model)
    requires Translatable(m)
    ensures ListsMean(m, Translate(m).rows, Translate(m).groups, Translate(m).slices)
  {
    hide SliceMeans, GroupMeans;
    forall i | 0 <= i < |m.profiles|
      ensures SliceMeans(m.profiles[i], m.plmn, SlicesOf(m)[i])
      ensures GroupMeans(m.profiles[i], m.nets, GroupsOf(m)[i])
    {
      NewSliceMeans(m.profiles[i], m.plmn, OnlyArea(m.areas, m.profiles[i].sliceId));
      NewGroupMeans(m.profiles[i], m.nets, GroupsOf(m)[i].imsis);
    }
  }

  // ------------------------------------------------------- what the calls leave

  /** The group at g takes the IMSI once for each of the ids that leads to it. */
  function Share(slices: seq<NetworkSlice>, g: nat, ids: seq<string>): nat
    requires g < |slices|
  {
    if IndexOf(Sds(slices), slices[g].sd) == g then Occurrences(ids, slices[g].sd) else 0
  }

  function Joined(groups: seq<DeviceGroup>, slices: seq<NetworkSlice>, imsi: string, ids: seq<string>): seq<DeviceGroup>
    requires |groups| == |slices|
  {
    seq(|groups|, g requires 0 <= g < |groups| =>
      groups[g].(imsis := groups[g].imsis + Repeat(imsi, Share(slices, g, ids))))
  }

  /** The ids before the first that no slice has. */
  function KnownPrefix(known: seq<string>, ids: seq<string>): (out: seq<string>)
    ensures out == ids <==> Listed(known, ids)
    ensures |out| <= |ids| && out == ids[..|out|] && Listed(known, out)
    ensures |out| < |ids| ==> ids[|out|] !in known
  {
    if ids == [] || ids[0] !in known then []
    else
      assert ids == [ids[0]] + ids[1..];
      [ids[0]] + KnownPrefix(known, ids[1..])
  }

  function AfterAdd(c: Conf, plmn: string, u: Subscriber): Conf
    requires |c.groups| == |c.slices|
  {
    var ids := KnownPrefix(Sds(c.slices), u.sliceIds);
    Conf(c.rows + [RowOf(u.imsi, plmn)], Joined(c.groups, c.slices, u.imsi, ids), c.slices)
  }

  function RowStarts(rows: seq<Row>): seq<string> {
    seq(|rows|, i requires 0 <= i < |rows| => rows[i].ueIdStart)
  }

  function SweptGroups(groups: seq<DeviceGroup>, imsi: string): seq<DeviceGroup> {
    seq(|groups|, g requires 0 <= g < |groups| => groups[g].(imsis := Sweep(groups[g].imsis, imsi, 0)))
  }

  function AfterDelete(c: Conf, imsi: string): Conf
    requires imsi in RowStarts(c.rows)
  {
    Conf(RemoveAt(c.rows, IndexOf(RowStarts(c.rows), imsi)), SweptGroups(c.groups, imsi), c.slices)
  }

  function AfterDeleteSlice(c: Conf, id: string): Conf
    requires |c.groups| == |c.slices| && id in Sds(c.slices)
  {
    var k := IndexOf(Sds(c.slices), id);
    Conf(c.rows, RemoveAt(c.groups, k), RemoveAt(c.slices, k))
  }

  lemma JoinedNone(groups: seq<DeviceGroup>, slices: seq<NetworkSlice>, imsi: string)
    requires |groups| == |slices|
    ensures Joined(groups, slices, imsi, []) == groups
  {
    forall g | 0 <= g < |groups| ensures groups[g].imsis + Repeat(imsi, Share(slices, g, [])) == groups[g].imsis { }
  }

  lemma JoinedStep(groups: seq<DeviceGroup>, slices: seq<NetworkSlice>, imsi: string, ids: seq<string>, i: nat)
    requires |groups| == |slices| && i < |ids| && ids[i] in Sds(slices)
    ensures var (k, before) := (IndexOf(Sds(slices), ids[i]), Joined(groups, slices, imsi, ids[..i]));
            && k < |slices|
            && Joined(groups, slices, imsi, ids[..i + 1]) == before[k := before[k].(imsis := before[k].imsis + [imsi])]
  {
    assert ids[..i + 1][..i] == ids[..i];
    var k := IndexOf(Sds(slices), ids[i]);
    forall g | 0 <= g < |slices|
      ensures Share(slices, g, ids[..i + 1]) == Share(slices, g, ids[..i]) + if g == k then 1 else 0
    {
      assert Sds(slices)[g] == slices[g].sd;
    }
    forall n: nat ensures Repeat(imsi, n + 1) == Repeat(imsi, n) + [imsi] { }
    var (before, after) := (Joined(groups, slices, imsi, ids[..i]), Joined(groups, slices, imsi, ids[..i + 1]));
    forall g | 0 <= g < |slices|
      ensures after[g] == if g == k then before[k].(imsis := before[k].imsis + [imsi]) else before[g]
    {
      var n := Share(slices, g, ids[..i]);
      assert groups[g].imsis + Repeat(imsi, n + 1) == groups[g].imsis + Repeat(imsi, n) + [imsi];
    }
  }

  // ------------------------------------------------------------- the configuration

  class SimAppConfiguration {
    var subscribers: seq<Row>
    var groups: seq<DeviceGroup>
    var slices: seq<NetworkSlice>
    var plmn: string
    var nets: seq<Net>

    constructor ()
      ensures Paired() && State() == Conf([], [], [])
    {
      subscribers, groups, slices, plmn, nets := [], [], [], "", [];
    }

    function State(): Conf
      reads this
    {
      Conf(subscribers, groups, slices)
    }

    ghost predicate Paired()
      reads this
    {
      PairedLists(groups, slices)
    }

    method SetUpfIp(id: string, ip: string)
      modifies this`slices
      ensures var k := IndexOf(Sds(old(slices)), id);
              slices == if k < |old(slices)| then old(slices)[k := old(slices)[k].(upf := ip)] else old(slices)
      ensures old(Paired()) ==> Paired()
    {
      for i := 0 to |slices|
        invariant slices == old(slices) && forall j :: 0 <= j < i ==> slices[j].sd != id
      {
        if slices[i].sd == id {
          assert Sds(slices)[i] == id && IndexOf(Sds(slices), id) == i by {
            assert forall j :: 0 <= j < i ==> Sds(slices)[j] != id;
          }
          slices := slices[i := slices[i].(upf := ip)];
          return;
        }
      }
    }

    /** A slice and a group for the profile are appended; nothing changes when it does not fit. */
    method AddSlice(p: Profile, area: Option<int>) returns (ok: bool)
      modifies this`groups, this`slices
      ensures ok <==> Fits(p, nets)
      ensures ok ==> groups == old(groups) + [NewGroup(p, nets)] && slices == old(slices) + [NewSlice(p, plmn, area)]
      ensures ok ==>
                && |groups| == |old(groups)| + 1 && |slices| == |old(slices)| + 1
                && var (g, s) := (groups[|old(groups)|], slices[|old(slices)|]);
                && GroupMeans(p, nets, g) && g.imsis == [] && SliceMeans(p, plmn, s) && s.upf == "PLACEHOLDER"
                && s.gnbs == if area.None? then [] else [Gnb("gnb" + Decimal(area.value), area.value)]
      ensures !ok ==> State() == old(State())
      ensures old(Paired()) ==> Paired()
    {
      if |p.dnnList| != 1 { return false; }
      var k := NetIndex(nets, p.dnnList[0]);
      if k == |nets| { return false; }
      var net := nets[k];
      if net.downlink.None? || net.uplink.None? || net.downlink.value.unit != net.uplink.value.unit { return false; }
      if net.downlink.value.unit !in ["mbps", "gbps", "kbps"] || net.pools == [] { return false; }
      groups := groups + [NewGroup(p, nets)];
      slices := slices + [NewSlice(p, plmn, area)];
      NewSliceMeans(p, plmn, area);
      NewGroupMeans(p, nets, []);
      ok := true;
    }

    /** The IMSI joins the first group of the first slice of that id. */
    method JoinGroup(imsi: string, id: string) returns (ok: bool)
      requires Paired()
      modifies this`groups
      ensures ok <==> id in Sds(slices)
      ensures ok ==> var k := IndexOf(Sds(slices), id);
                     groups == old(groups)[k := old(groups)[k].(imsis := old(groups)[k].imsis + [imsi])]
      ensures !ok ==> groups == old(groups)
      ensures Paired()
    {
      var k := IndexOf(Sds(slices), id);
      if k == |slices| { return false; }
      assert Sds(slices)[k] == id;
      FoundTogether(groups, slices, id);
      var g := IndexOf(GroupNames(groups), slices[k].groups[0]);
      groups := groups[g := groups[g].(imsis := groups[g].imsis + [imsi])];
      ok := true;
    }

    /** It stops at the first slice id that is not there. */
    method JoinGroups(imsi: string, ids: seq<string>) returns (ok: bool)
      requires Paired()
      modifies this`groups
      ensures groups == Joined(old(groups), slices, imsi, KnownPrefix(Sds(slices), ids))
      ensures ok <==> Listed(Sds(slices), ids)
      ensures Paired()
    {
      ghost var (before, known) := (groups, Sds(slices));
      JoinedNone(groups, slices, imsi);
      assert ids[..0] == [];
      for i := 0 to |ids|
        invariant Paired() && Listed(known, ids[..i])
        invariant groups == Joined(before, slices, imsi, ids[..i])
      {
        PrefixIs(known, ids, i);
        if ids[i] in known { JoinedStep(before, slices, imsi, ids, i); }
        ok := JoinGroup(imsi, ids[i]);
        if !ok { return; }
      }
      assert ids[..|ids|] == ids == KnownPrefix(known, ids);
      ok := true;
    }

    /** It fails at the first slice id that is not there; what was added before stays. */
    method AddSubscriber(u: Subscriber) returns (ok: bool)
      requires Paired()
      modifies this`subscribers, this`groups
      ensures State() == AfterAdd(old(State()), plmn, u)
      ensures ok <==> Listed(Sds(slices), u.sliceIds)
      ensures Paired()
    {
      subscribers := subscribers + [RowOf(u.imsi, plmn)];
      ok := JoinGroups(u.imsi, u.sliceIds);
    }

    /** The list of a group, as it is removed from while it is read. */
    method SweepGroup(g: nat, imsi: string)
      requires g < |groups|
      modifies this`groups
      ensures groups == old(groups)[g := old(groups)[g].(imsis := Sweep(old(groups)[g].imsis, imsi, 0))]
    {
      var i := 0;
      while i < |groups[g].imsis|
        invariant 0 <= i && |groups| == |old(groups)|
        invariant groups == old(groups)[g := old(groups)[g].(imsis := groups[g].imsis)]
        invariant Sweep(groups[g].imsis, imsi, i) == Sweep(old(groups)[g].imsis, imsi, 0)
        decreases |groups[g].imsis| - i
      {
        if groups[g].imsis[i] == imsi {
          groups := groups[g := groups[g].(imsis := RemoveFirst(groups[g].imsis, imsi))];
        }
        i := i + 1;
      }
    }

    /** It fails when no subscriber has that IMSI. */
    method DeleteSubscriber(imsi: string) returns (ok: bool)
      modifies this`subscribers, this`groups
      ensures ok <==> imsi in RowStarts(old(subscribers))
      ensures State() == if ok then AfterDelete(old(State()), imsi) else old(State())
      ensures old(Paired()) ==> Paired()
    {
      var k := IndexOf(RowStarts(subscribers), imsi);
      if k == |subscribers| { return false; }
      assert RowStarts(subscribers)[k] == imsi;
      for g := 0 to |groups|
        invariant |groups| == |old(groups)| && subscribers == old(subscribers)
        invariant forall j :: 0 <= j < g ==> groups[j] == SweptGroups(old(groups), imsi)[j]
        invariant forall j :: g <= j < |groups| ==> groups[j] == old(groups)[j]
      {
        SweepGroup(g, imsi);
      }
      assert groups == SweptGroups(old(groups), imsi);
      subscribers := RemoveAt(subscribers, k);
      ok := true;
    }

    /** It fails when there is no such slice. */
    method DeleteSlice(id: string) returns (ok: bool)
      requires Paired()
      modifies this`groups, this`slices
      ensures ok <==> id in Sds(old(slices))
      ensures State() == if ok then AfterDeleteSlice(old(State()), id) else old(State())
      ensures Paired()
    {
      FoundTogether(groups, slices, id);
      var s := IndexOf(SliceNames(slices), SliceName(id));
      var g := IndexOf(GroupNames(groups), GroupName(id));
      if s == |slices| || g == |groups| { return false; }
      assert Sds(slices)[s] == id;
      slices := RemoveAt(slices, s);
      groups := RemoveAt(groups, g);
      ok := true;
    }

    method AreasWithSlice(areas: seq<Area>, id: string) returns (ids: seq<int>)
      ensures ids == AreasWith(areas, id)
    {
      ids := [];
      for i := 0 to |areas|
        invariant ids == AreasWith(areas[..i], id)
      {
        var a := areas[i];
        ghost var before := ids;
        for j := 0 to |a.slices|
          invariant ids == before + Repeat(a.id, Occurrences(IdsOfSlices(a.slices)[..j], id))
        {
          var entries := IdsOfSlices(a.slices);
          assert entries[..j + 1][..j] == entries[..j];
          if a.slices[j].sliceId == id { ids := ids + [a.id]; }
        }
        assert IdsOfSlices(a.slices)[..|a.slices|] == IdsOfSlices(a.slices);
        assert areas[..i + 1][..i] == areas[..i];
      }
      assert areas[..|areas|] == areas;
    }

    method AddProfile(m: Model, i: nat) returns (ok: bool)
      requires i < |m.profiles| && nets == m.nets && plmn == m.plmn && AllFit(FirstProfiles(m, i))
      requires slices == SlicesOf(FirstProfiles(m, i)) && groups == GroupsOf(FirstProfiles(m, i))
      modifies this`groups, this`slices
      ensures ok ==> AllFit(FirstProfiles(m, i + 1))
      ensures ok ==> slices == SlicesOf(FirstProfiles(m, i + 1)) && groups == GroupsOf(FirstProfiles(m, i + 1))
      ensures !ok ==> !AllFit(m) && slices == old(slices) && groups == old(groups)
    {
      OneMoreProfile(m, i);
      var carrying := AreasWithSlice(m.areas, m.profiles[i].sliceId);
      ok := AddSlice(m.profiles[i], if |carrying| == 1 then Some(carrying[0]) else None);
    }

    method AddSlices(m: Model) returns (ok: bool)
      requires groups == [] && slices == [] && nets == m.nets && plmn == m.plmn
      modifies this`groups, this`slices
      ensures ok <==> AllFit(m)
      ensures ok ==> groups == GroupsOf(m.(subscribers := [])) && slices == SlicesOf(m)
      ensures Paired()
    {
      for i := 0 to |m.profiles|
        invariant AllFit(FirstProfiles(m, i))
        invariant slices == SlicesOf(FirstProfiles(m, i)) && groups == GroupsOf(FirstProfiles(m, i))
      {
        ok := AddProfile(m, i);
        if !ok {
          ArePaired(FirstProfiles(m, i));
          return;
        }
      }
      AllProfiles(m);
      ArePaired(m.(subscribers := []));
      ok := true;
    }

    method AddSubscribers(m: Model) returns (ok: bool)
      requires AllFit(m) && plmn == m.plmn && Paired()
      requires State() == Translate(m.(subscribers := []))
      modifies this`subscribers, this`groups
      ensures ok <==> AllListed(m)
      ensures ok ==> State() == Translate(m)
      ensures Paired()
    {
      assert FirstSubscribers(m, 0) == m.(subscribers := []);
      for i := 0 to |m.subscribers|
        invariant Paired() && AllListed(FirstSubscribers(m, i))
        invariant State() == Translate(FirstSubscribers(m, i))
      {
        ok := AddNext(m, i);
        if !ok { return; }
      }
      assert FirstSubscribers(m, |m.subscribers|) == m;
      ok := true;
    }

    method AddNext(m: Model, i: nat) returns (ok: bool)
      requires AllFit(m) && plmn == m.plmn && Paired() && i < |m.subscribers|
      requires AllListed(FirstSubscribers(m, i)) && State() == Translate(FirstSubscribers(m, i))
      modifies this`subscribers, this`groups
      ensures ok <==> AllListed(FirstSubscribers(m, i + 1))
      ensures ok ==> State() == Translate(FirstSubscribers(m, i + 1))
      ensures !ok ==> !AllListed(m)
      ensures Paired()
    {
      AddOneMore(m, i);
      ok := AddSubscriber(m.subscribers[i]);
    }

    /** The lists are rebuilt from the model; a failure leaves what was built so far. */
    method FromGeneric5gModel(m: Model) returns (ok: bool)
      modifies this
      ensures ok <==> Translatable(m)
      ensures ok ==> State() == Translate(m) && ListsMean(m, subscribers, groups, slices)
      ensures plmn == m.plmn && nets == m.nets && Paired()
    {
      groups, slices, subscribers := [], [], [];
      nets, plmn := m.nets, m.plmn;
      ok := AddSlices(m);
      if ok {
        assert subscribers == RowsOf(m.(subscribers := []));
        ok := AddSubscribers(m);
      }
      if ok { TranslationMeans(m); }
    }
  }

  function FirstProfiles(m: Model, n: nat): Model
    requires n <= |m.profiles|
  {
    m.(profiles := m.profiles[..n], subscribers := [])
  }

  lemma ArePaired(m: Model)
    requires AllFit(m)
    ensures PairedLists(GroupsOf(m), SlicesOf(m))
  {
  }

  lemma AllProfiles(m: Model)
    requires AllFit(FirstProfiles(m, |m.profiles|))
    ensures AllFit(m) && SlicesOf(FirstProfiles(m, |m.profiles|)) == SlicesOf(m)
    ensures GroupsOf(FirstProfiles(m, |m.profiles|)) == GroupsOf(m.(subscribers := []))
  {
    assert FirstProfiles(m, |m.profiles|) == m.(subscribers := []);
  }

  lemma OneMoreProfile(m: Model, i: nat)
    requires i < |m.profiles| && AllFit(FirstProfiles(m, i))
    ensures var (before, after, p) := (FirstProfiles(m, i), FirstProfiles(m, i + 1), m.profiles[i]);
            && (AllFit(m) ==> AllFit(after))
            && (AllFit(after) <==> Fits(p, m.nets))
            && SlicesOf(after) == SlicesOf(before) + [NewSlice(p, m.plmn, OnlyArea(m.areas, p.sliceId))]
            && (AllFit(after) ==> GroupsOf(after) == GroupsOf(before) + [NewGroup(p, m.nets)])
  {
    OneMoreFits(m, i);
    OneMoreSlice(m, i);
    if AllFit(FirstProfiles(m, i + 1)) { OneMoreGroup(m, i); }
  }

  lemma OneMoreFits(m: Model, i: nat)
    requires i < |m.profiles| && AllFit(FirstProfiles(m, i))
    ensures AllFit(m) ==> AllFit(FirstProfiles(m, i + 1))
    ensures AllFit(FirstProfiles(m, i + 1)) <==> Fits(m.profiles[i], m.nets)
  {
    assert FirstProfiles(m, i + 1).profiles[i] == m.profiles[i];
    assert forall j :: 0 <= j < i ==> FirstProfiles(m, i + 1).profiles[j] == FirstProfiles(m, i).profiles[j];
  }

  lemma OneMoreSlice(m: Model, i: nat)
    requires i < |m.profiles|
    ensures SlicesOf(FirstProfiles(m, i + 1)) ==
            SlicesOf(FirstProfiles(m, i)) + [NewSlice(m.profiles[i], m.plmn, OnlyArea(m.areas, m.profiles[i].sliceId))]
  {
  }

  lemma OneMoreGroup(m: Model, i: nat)
    requires i < |m.profiles| && AllFit(FirstProfiles(m, i)) && AllFit(FirstProfiles(m, i + 1))
    ensures Fits(m.profiles[i], m.nets)
    ensures GroupsOf(FirstProfiles(m, i + 1)) == GroupsOf(FirstProfiles(m, i)) + [NewGroup(m.profiles[i], m.nets)]
  {
    assert FirstProfiles(m, i + 1).profiles[i] == m.profiles[i];
  }

  ghost function FirstSubscribers(m: Model, i: nat): Model
    requires i <= |m.subscribers|
  {
    m.(subscribers := m.subscribers[..i])
  }

  lemma AddOneMore(m: Model, i: nat)
    requires AllFit(m) && i < |m.subscribers| && AllListed(FirstSubscribers(m, i))
    ensures var (before, after) := (FirstSubscribers(m, i), FirstSubscribers(m, i + 1));
            var u := m.subscribers[i];
            && Sds(SlicesOf(before)) == SliceIds(m.profiles)
            && (AllListed(after) <==> Listed(SliceIds(m.profiles), u.sliceIds))
            && (AllListed(after) ==> AfterAdd(Translate(before), m.plmn, u) == Translate(after))
  {
    var (before, after) := (FirstSubscribers(m, i), FirstSubscribers(m, i + 1));
    var u := m.subscribers[i];
    assert after.subscribers == before.subscribers + [u];
    assert after.subscribers[i] == u;
    if Listed(SliceIds(m.profiles), u.sliceIds) { AddIsRetranslation(before, u); }
  }

  lemma {:induction false} PrefixIs(known: seq<string>, ids: seq<string>, i: nat)
    requires i < |ids| && Listed(known, ids[..i])
    ensures ids[i] in known ==> Listed(known, ids[..i + 1])
    ensures ids[i] !in known ==> KnownPrefix(known, ids) == ids[..i] && !Listed(known, ids)
  {
    assert ids[..i + 1] == ids[..i] + [ids[i]];
    if i > 0 {
      assert ids[..i] == [ids[0]] + ids[1..][..i - 1];
      PrefixIs(known, ids[1..], i - 1);
    }
  }

  // ------------------------------------------- a call does what a new translation would

  lemma {:induction false} ImsisOfAppend(subs: seq<Subscriber>, u: Subscriber, id: string)
    ensures ImsisOf(subs + [u], id) == ImsisOf(subs, id) + Repeat(u.imsi, Occurrences(u.sliceIds, id))
  {
    if subs == [] {
      assert subs + [u] == [u] && [u][1..] == [];
    } else {
      assert (subs + [u])[1..] == subs[1..] + [u];
      ImsisOfAppend(subs[1..], u, id);
    }
  }

  /** Adding a subscriber gives the translation of the configuration with the subscriber. */
  lemma AddIsRetranslation(m: Model, u: Subscriber)
    requires Translatable(m) && Listed(SliceIds(m.profiles), u.sliceIds)
    ensures Translatable(m.(subscribers := m.subscribers + [u]))
    ensures AfterAdd(Translate(m), m.plmn, u) == Translate(m.(subscribers := m.subscribers + [u]))
  {
    var (c, m') := (Translate(m), m.(subscribers := m.subscribers + [u]));
    assert Sds(c.slices) == SliceIds(m.profiles);
    var a := AfterAdd(c, m.plmn, u);
    GroupsJoined(m, u);
    assert a.rows == RowsOf(m');
  }

  lemma GroupsJoined(m: Model, u: Subscriber)
    requires AllFit(m)
    ensures Joined(GroupsOf(m), SlicesOf(m), u.imsi, u.sliceIds) ==
            GroupsOf(m.(subscribers := m.subscribers + [u]))
  {
    var (was, now) := (Joined(GroupsOf(m), SlicesOf(m), u.imsi, u.sliceIds),
                       GroupsOf(m.(subscribers := m.subscribers + [u])));
    forall i | 0 <= i < |m.profiles| ensures was[i] == now[i] { GroupJoined(m, u, i); }
  }

  lemma GroupJoined(m: Model, u: Subscriber, i: nat)
    requires AllFit(m) && i < |m.profiles|
    ensures Joined(GroupsOf(m), SlicesOf(m), u.imsi, u.sliceIds)[i] ==
            GroupsOf(m.(subscribers := m.subscribers + [u]))[i]
  {
    assert Sds(SlicesOf(m)) == SliceIds(m.profiles);
    ImsisOfAppend(m.subscribers, u, m.profiles[i].sliceId);
  }

  /** Deleting a fresh subscriber just added restores every list iff it names no slice twice. */
  lemma AddThenDelete(c: Conf, plmn: string, u: Subscriber)
    requires PairedLists(c.groups, c.slices) && Listed(Sds(c.slices), u.sliceIds)
    requires u.imsi !in RowStarts(c.rows) && forall g :: 0 <= g < |c.groups| ==> u.imsi !in c.groups[g].imsis
    ensures u.imsi in RowStarts(AfterAdd(c, plmn, u).rows)
    ensures AfterDelete(AfterAdd(c, plmn, u), u.imsi) == c <==> Distinct(u.sliceIds)
  {
    var added := AfterAdd(c, plmn, u);
    assert RowStarts(added.rows)[|c.rows|] == u.imsi;
    var k := IndexOf(RowStarts(added.rows), u.imsi);
    assert forall i :: 0 <= i < |c.rows| ==> RowStarts(added.rows)[i] == RowStarts(c.rows)[i];
    assert k == |c.rows|;
    var end := AfterDelete(added, u.imsi);
    assert end.rows == c.rows;
    forall g | 0 <= g < |c.groups|
      ensures end.groups[g] == c.groups[g] <==> Share(c.slices, g, u.sliceIds) <= 1
    {
      var n := Share(c.slices, g, u.sliceIds);
      SweepLeavesHalf(c.groups[g].imsis, u.imsi, n);
      assert |c.groups[g].imsis + Repeat(u.imsi, n / 2)| == |c.groups[g].imsis| + n / 2;
    }
    SharesAreSingle(c.slices, u.sliceIds);
    if Distinct(u.sliceIds) { assert end.groups == c.groups; }
  }

  /** No group takes an IMSI twice iff the ids, all known, are distinct. */
  lemma SharesAreSingle(slices: seq<NetworkSlice>, ids: seq<string>)
    requires Listed(Sds(slices), ids)
    ensures Distinct(ids) <==> forall g :: 0 <= g < |slices| ==> Share(slices, g, ids) <= 1
  {
    if Distinct(ids) {
      forall g | 0 <= g < |slices| ensures Share(slices, g, ids) <= 1 { OccurrencesIn(ids, slices[g].sd); }
    } else {
      var i, j :| 0 <= i < j < |ids| && ids[i] == ids[j];
      var g := IndexOf(Sds(slices), ids[i]);
      assert ids[i] in Sds(slices);
      assert Sds(slices)[g] == slices[g].sd == ids[i];
      OccurrencesOfTwo(ids, i, j);
      assert Share(slices, g, ids) >= 2;
    }
  }

  lemma {:induction false} WithoutAppend(s: seq<string>, t: seq<string>, x: string)
    ensures Without(s + t, x) == Without(s, x) + Without(t, x)
  {
    if s == [] {
      assert s + t == t;
    } else {
      WithoutAppend(s[1..], t, x);
      WithoutCons(s[0], s[1..] + t, x);
      assert s + t == [s[0]] + (s[1..] + t);
      Associate(if s[0] == x then [] else [s[0]], Without(s[1..], x), Without(t, x));
    }
  }

  lemma {:induction false} WithoutNone(s: seq<string>, x: string)
    requires x !in s
    ensures Without(s, x) == s
  {
    if s != [] { assert forall y :: y in s[1..] ==> y in s; WithoutNone(s[1..], x); }
  }

  lemma {:induction false} WithoutRepeat(y: string, n: nat, x: string)
    ensures Without(Repeat(y, n), x) == if y == x then [] else Repeat(y, n)
  {
    if y != x { WithoutNone(Repeat(y, n), x); }
    else if n > 0 { assert Repeat(y, n)[1..] == Repeat(y, n - 1); WithoutRepeat(y, n - 1, x); }
  }

  /** Dropping the subscribers of an IMSI takes their copies away and nothing else. */
  lemma {:induction false} ImsisOfDropped(subs: seq<Subscriber>, id: string, imsi: string)
    ensures ImsisOf(DropSubscribers(subs, imsi), id) == Without(ImsisOf(subs, id), imsi)
  {
    if subs != [] {
      var (head, rest) := (Repeat(subs[0].imsi, Occurrences(subs[0].sliceIds, id)), DropSubscribers(subs[1..], imsi));
      ImsisOfDropped(subs[1..], id, imsi);
      WithoutAppend(head, ImsisOf(subs[1..], id), imsi);
      WithoutRepeat(subs[0].imsi, |head|, imsi);
      if subs[0].imsi != imsi { assert ([subs[0]] + rest)[1..] == rest; } else { assert [] + rest == rest; }
    }
  }

  lemma {:induction false} NoImsi(subs: seq<Subscriber>, id: string, imsi: string)
    requires imsi !in Imsis(subs)
    ensures imsi !in ImsisOf(subs, id)
  {
    if subs != [] {
      assert Imsis(subs)[0] == subs[0].imsi;
      assert forall y :: y in Imsis(subs[1..]) ==> y in Imsis(subs) by {
        assert Imsis(subs[1..]) == Imsis(subs)[1..];
      }
      NoImsi(subs[1..], id, imsi);
    }
  }

  lemma {:induction false} AdjacentAppend(s: seq<string>, t: seq<string>, x: string)
    requires x !in s || x !in t
    ensures Adjacent(s + t, x) <==> Adjacent(s, x) || Adjacent(t, x)
  {
    if s == [] {
      assert s + t == t;
    } else {
      assert (s + t)[1..] == s[1..] + t;
      AdjacentAppend(s[1..], t, x);
      if |s| >= 2 { assert (s + t)[1] == s[1]; } else { assert s[1..] == []; NotAdjacent(t, x); }
    }
  }

  lemma {:induction false} NotAdjacent(s: seq<string>, x: string)
    ensures x !in s ==> !Adjacent(s, x)
    ensures |s| <= 1 ==> !Adjacent(s, x)
  {
    if |s| >= 2 { NotAdjacent(s[1..], x); }
  }

  lemma AdjacentRepeat(x: string, n: nat, y: string)
    ensures Adjacent(Repeat(x, n), y) <==> n >= 2 && x == y
  {
    NotAdjacent(Repeat(x, n), y);
  }

  /** A subscriber known by its IMSI has two copies side by side iff it names the slice twice. */
  lemma {:induction false} CopiesApart(subs: seq<Subscriber>, k: nat, id: string)
    requires k < |subs| && Distinct(Imsis(subs))
    ensures Adjacent(ImsisOf(subs, id), subs[k].imsi) <==> Occurrences(subs[k].sliceIds, id) >= 2
  {
    var (x, rest) := (subs[k].imsi, subs[1..]);
    var head := Repeat(subs[0].imsi, Occurrences(subs[0].sliceIds, id));
    assert Imsis(rest) == Imsis(subs)[1..];
    assert forall i :: 0 <= i < |subs| ==> Imsis(subs)[i] == subs[i].imsi;
    AdjacentRepeat(subs[0].imsi, |head|, x);
    if k == 0 {
      assert x !in Imsis(rest);
      NoImsi(rest, id, x);
      NotAdjacent(ImsisOf(rest, id), x);
    } else {
      CopiesApart(rest, k - 1, id);
    }
    AdjacentAppend(head, ImsisOf(rest, id), x);
  }

  lemma {:induction false} DropOne(subs: seq<Subscriber>, k: nat)
    requires k < |subs| && Distinct(Imsis(subs))
    ensures DropSubscribers(subs, subs[k].imsi) == RemoveAt(subs, k)
  {
    FirstImsi(subs);
    if k == 0 {
      DropNone(subs[1..], subs[0].imsi);
    } else {
      assert Imsis(subs[1..])[k - 1] == subs[k].imsi;
      DropOne(subs[1..], k - 1);
      RemoveAtTail(subs, k);
    }
  }

  lemma {:induction false} DropNone(subs: seq<Subscriber>, imsi: string)
    requires imsi !in Imsis(subs)
    ensures DropSubscribers(subs, imsi) == subs
  {
    if subs != [] {
      assert Imsis(subs) == [subs[0].imsi] + Imsis(subs[1..]);
      DropNone(subs[1..], imsi);
    }
  }

  /**
   * delete_subscriber gives the translation of the configuration without the subscriber iff the
   * subscriber names no slice twice: otherwise its loop passes over a copy.
   */
  lemma DeleteIsRetranslation(m: Model, k: nat)
    requires Translatable(m) && Distinct(Imsis(m.subscribers)) && k < |m.subscribers|
    ensures var (u, m') := (m.subscribers[k], m.(subscribers := DropSubscribers(m.subscribers, m.subscribers[k].imsi)));
            && u.imsi in RowStarts(Translate(m).rows) && Translatable(m')
            && (AfterDelete(Translate(m), u.imsi) == Translate(m') <==> Distinct(u.sliceIds))
  {
    var (u, m') := (m.subscribers[k], m.(subscribers := DropSubscribers(m.subscribers, m.subscribers[k].imsi)));
    var c := Translate(m);
    DeletedRows(m, k);
    var d := AfterDelete(c, u.imsi);
    assert Sds(c.slices) == SliceIds(m.profiles);
    forall g | 0 <= g < |m.profiles|
      ensures d.groups[g] == GroupsOf(m')[g] <==> Share(c.slices, g, u.sliceIds) <= 1
    {
      GroupSwept(m, k, g, c.groups[g].imsis);
    }
    SharesAreSingle(c.slices, u.sliceIds);
    if Distinct(u.sliceIds) { assert d.groups == GroupsOf(m'); }
  }

  lemma DeletedRows(m: Model, k: nat)
    requires Translatable(m) && Distinct(Imsis(m.subscribers)) && k < |m.subscribers|
    ensures var (u, m') := (m.subscribers[k], m.(subscribers := DropSubscribers(m.subscribers, m.subscribers[k].imsi)));
            && Translatable(m') && u.imsi in RowStarts(RowsOf(m))
            && RemoveAt(RowsOf(m), IndexOf(RowStarts(RowsOf(m)), u.imsi)) == RowsOf(m') && SlicesOf(m) == SlicesOf(m')
  {
    var (subs, u) := (m.subscribers, m.subscribers[k]);
    assert RowStarts(RowsOf(m)) == Imsis(subs);
    assert Imsis(subs)[k] == u.imsi;
    assert IndexOf(Imsis(subs), u.imsi) == k;
    DropOne(subs, k);
    RowsWithout(m, k, m.(subscribers := RemoveAt(subs, k)));
  }

  lemma RowsWithout(m: Model, k: nat, m': Model)
    requires Translatable(m) && k < |m.subscribers| && m' == m.(subscribers := RemoveAt(m.subscribers, k))
    ensures Translatable(m') && RowsOf(m') == RemoveAt(RowsOf(m), k)
  {
    forall i | 0 <= i < |m'.subscribers| ensures Listed(SliceIds(m'.profiles), m'.subscribers[i].sliceIds) {
      assert m'.subscribers[i] == m.subscribers[if i < k then i else i + 1];
    }
  }

  lemma GroupSwept(m: Model, k: nat, g: nat, imsis: seq<string>)
    requires Translatable(m) && Distinct(Imsis(m.subscribers)) && k < |m.subscribers| && g < |m.profiles|
    requires imsis == GroupsOf(m)[g].imsis
    ensures var (u, id) := (m.subscribers[k], m.profiles[g].sliceId);
            var m' := m.(subscribers := DropSubscribers(m.subscribers, u.imsi));
            Sweep(imsis, u.imsi, 0) == GroupsOf(m')[g].imsis <==>
            (IndexOf(SliceIds(m.profiles), id) == g ==> Occurrences(u.sliceIds, id) <= 1)
  {
    var (u, id) := (m.subscribers[k], m.profiles[g].sliceId);
    SweepIs(imsis, u.imsi);
    WithoutHas(imsis, u.imsi, u.imsi);
    if IndexOf(SliceIds(m.profiles), id) == g {
      CopiesApart(m.subscribers, k, id);
      ImsisOfDropped(m.subscribers, id, u.imsi);
    }
  }

  /**
   * With distinct slice ids and IMSIs, an IMSI stands in the group of a slice as often as its
   * subscriber lists the slice, and nobody else stands there.
   */
  lemma SubscriptionKept(m: Model, g: nat, imsi: string)
    requires Translatable(m) && Distinct(SliceIds(m.profiles)) && Distinct(Imsis(m.subscribers)) && g < |m.profiles|
    ensures Translate(m).slices[g].sd == m.profiles[g].sliceId
    ensures Translate(m).slices[g].groups == [Translate(m).groups[g].name]
    ensures var (imsis, id) := (Translate(m).groups[g].imsis, m.profiles[g].sliceId);
            forall k :: 0 <= k < |m.subscribers| && m.subscribers[k].imsi == imsi ==>
                          Occurrences(imsis, imsi) == Occurrences(m.subscribers[k].sliceIds, id)
    ensures imsi !in Imsis(m.subscribers) ==> imsi !in Translate(m).groups[g].imsis
  {
    var id := m.profiles[g].sliceId;
    assert SliceIds(m.profiles)[g] == id;
    assert IndexOf(SliceIds(m.profiles), id) == g;
    if imsi !in Imsis(m.subscribers) { NoImsi(m.subscribers, id, imsi); }
    forall k | 0 <= k < |m.subscribers| && m.subscribers[k].imsi == imsi
      ensures Occurrences(ImsisOf(m.subscribers, id), imsi) == Occurrences(m.subscribers[k].sliceIds, id)
    {
      CopiesCounted(m.subscribers, k, id);
    }
  }

  lemma {:induction false} OccurrencesAppend(s: seq<string>, t: seq<string>, x: string)
    ensures Occurrences(s + t, x) == Occurrences(s, x) + Occurrences(t, x)
  {
    if t == [] {
      assert s + t == s;
    } else {
      assert (s + t)[..|s + t| - 1] == s + t[..|t| - 1];
      OccurrencesAppend(s, t[..|t| - 1], x);
    }
  }

  lemma {:induction false} OccurrencesRepeat(y: string, n: nat, x: string)
    ensures Occurrences(Repeat(y, n), x) == if y == x then n else 0
  {
    if n > 0 {
      assert Repeat(y, n)[..n - 1] == Repeat(y, n - 1);
      OccurrencesRepeat(y, n - 1, x);
    }
  }

  lemma {:induction false} CopiesCounted(subs: seq<Subscriber>, k: nat, id: string)
    requires k < |subs| && Distinct(Imsis(subs))
    ensures Occurrences(ImsisOf(subs, id), subs[k].imsi) == Occurrences(subs[k].sliceIds, id)
  {
    var (x, y, n) := (subs[k].imsi, subs[0].imsi, Occurrences(subs[0].sliceIds, id));
    OccurrencesAppend(Repeat(y, n), ImsisOf(subs[1..], id), x);
    OccurrencesRepeat(y, n, x);
    FirstImsi(subs);
    if k == 0 {
      NoImsi(subs[1..], id, x);
      OccurrencesIn(ImsisOf(subs[1..], id), x);
    } else {
      assert Imsis(subs[1..])[k - 1] == x;
      CopiesCounted(subs[1..], k - 1, id);
    }
  }

  lemma FirstImsi(subs: seq<Subscriber>)
    requires subs != [] && Distinct(Imsis(subs))
    ensures subs[0].imsi !in Imsis(subs[1..]) && Distinct(Imsis(subs[1..]))
  {
    assert Imsis(subs) == [subs[0].imsi] + Imsis(subs[1..]);
    DistinctCons(subs[0].imsi, Imsis(subs[1..]));
  }

  /** A slice has a gNB, that of its area, iff exactly one entry of one area carries it. */
  lemma GnbExactlyWhen(m: Model, g: nat, area: int)
    requires AllFit(m) && g < |m.profiles|
    ensures SlicesOf(m)[g].gnbs == [Gnb("gnb" + Decimal(area), area)] <==>
            exists i, j :: CarriesOnly(m.areas, m.profiles[g].sliceId, i, j) && m.areas[i].id == area
  {
    var id := m.profiles[g].sliceId;
    var ids := AreasWith(m.areas, id);
    forall i, j | CarriesOnly(m.areas, id, i, j) ensures ids == [m.areas[i].id] { OnlyEntry(m.areas, id, i, j); }
    if |ids| == 1 {
      OneEntry(m.areas, id);
      var i, j :| CarriesOnly(m.areas, id, i, j) && m.areas[i].id == ids[0];
      if ids[0] != area {
        assert SlicesOf(m)[g].gnbs == [Gnb("gnb" + Decimal(ids[0]), ids[0])];
      }
    }
  }

  ghost predicate Carries(areas: seq<Area>, id: string, i: int, j: int) {
    0 <= i < |areas| && 0 <= j < |areas[i].slices| && areas[i].slices[j].sliceId == id
  }

  /** The entry j of the area i carries the slice and no other entry does. */
  ghost predicate CarriesOnly(areas: seq<Area>, id: string, i: int, j: int) {
    Carries(areas, id, i, j) && forall k, l :: Carries(areas, id, k, l) ==> k == i && l == j
  }

  ghost predicate OnlyAt(s: seq<string>, x: string, j: int) {
    0 <= j < |s| && s[j] == x && forall l :: 0 <= l < |s| && s[l] == x ==> l == j
  }

  lemma {:induction false} OccursOnce(s: seq<string>, x: string)
    ensures Occurrences(s, x) == 1 <==> exists j :: OnlyAt(s, x, j)
  {
    OccurrencesIn(s, x);
    if j :| OnlyAt(s, x, j) {
      if s[|s| - 1] == x { OccurrencesIn(s[..|s| - 1], x); } else {
        assert OnlyAt(s[..|s| - 1], x, j);
        OccursOnce(s[..|s| - 1], x);
      }
    }
    if Occurrences(s, x) == 1 {
      var j :| 0 <= j < |s| && s[j] == x;
      forall l | 0 <= l < |s| && s[l] == x ensures l == j {
        if l < j { OccurrencesOfTwo(s, l, j); } else if j < l { OccurrencesOfTwo(s, j, l); }
      }
      assert OnlyAt(s, x, j);
    }
  }

  /** An entry is in the last area or in one before. */
  lemma CarriesLast(rest: seq<Area>, a: Area, id: string)
    ensures (forall i, j :: !Carries(rest + [a], id, i, j)) <==>
            (forall i, j :: !Carries(rest, id, i, j)) && id !in IdsOfSlices(a.slices)
  {
    var (areas, n, ids) := (rest + [a], |rest|, IdsOfSlices(a.slices));
    forall i, j ensures Carries(areas, id, i, j) <==>
                        Carries(rest, id, i, j) || (i == n && 0 <= j < |ids| && ids[j] == id)
    {
    }
    if id in ids {
      var l :| 0 <= l < |ids| && ids[l] == id;
      assert Carries(areas, id, n, l);
    }
  }

  lemma {:induction false} NoEntry(areas: seq<Area>, id: string)
    ensures AreasWith(areas, id) == [] <==> forall i, j :: !Carries(areas, id, i, j)
  {
    if areas != [] {
      var (rest, a) := (areas[..|areas| - 1], areas[|areas| - 1]);
      NoEntry(rest, id);
      OccurrencesIn(IdsOfSlices(a.slices), id);
      CarriesLast(rest, a, id);
      assert areas == rest + [a];
    }
  }

  lemma {:induction false} OnlyEntry(areas: seq<Area>, id: string, i: int, j: int)
    requires CarriesOnly(areas, id, i, j)
    ensures AreasWith(areas, id) == [areas[i].id]
  {
    var (n, rest) := (|areas| - 1, areas[..|areas| - 1]);
    var ids := IdsOfSlices(areas[n].slices);
    assert forall k, l :: Carries(rest, id, k, l) ==> Carries(areas, id, k, l);
    assert forall l :: 0 <= l < |ids| && ids[l] == id ==> Carries(areas, id, n, l);
    OccurrencesIn(ids, id);
    if i < n {
      OnlyEntry(rest, id, i, j);
    } else {
      NoEntry(rest, id);
      assert OnlyAt(ids, id, j);
      OccursOnce(ids, id);
    }
  }

  lemma {:induction false} OneEntry(areas: seq<Area>, id: string)
    requires |AreasWith(areas, id)| == 1
    ensures exists i, j :: CarriesOnly(areas, id, i, j) && areas[i].id == AreasWith(areas, id)[0]
  {
    var (n, rest) := (|areas| - 1, areas[..|areas| - 1]);
    var ids := IdsOfSlices(areas[n].slices);
    assert forall i, j :: Carries(areas, id, i, j) <==>
                          Carries(rest, id, i, j) || (i == n && 0 <= j < |ids| && ids[j] == id);
    OccurrencesIn(ids, id);
    if id in ids {
      OccursOnce(ids, id);
      NoEntry(rest, id);
      var j :| OnlyAt(ids, id, j);
      assert CarriesOnly(areas, id, n, j);
    } else {
      OneEntry(rest, id);
      var i, j :| CarriesOnly(rest, id, i, j) && rest[i].id == AreasWith(rest, id)[0];
      assert CarriesOnly(areas, id, i, j);
    }
  }

  // ------------------------------------------------------------- deleting a slice

  lemma {:induction false} OthersKept(ids: seq<string>, id: string, other: string)
    requires id != other
    ensures Occurrences(Without(ids, id), other) == Occurrences(ids, other)
  {
    if ids != [] {
      OthersKept(ids[1..], id, other);
      assert ids == [ids[0]] + ids[1..];
      OccurrencesAppend([ids[0]], ids[1..], other);
      OccurrencesAppend(if ids[0] == id then [] else [ids[0]], Without(ids[1..], id), other);
    }
  }

  lemma {:induction false} OtherAreasKept(areas: seq<Area>, after: seq<Area>, id: string, other: string)
    requires id != other && |after| == |areas|
    requires forall i :: 0 <= i < |areas| ==> after[i] == areas[i].(slices := DropSlices(areas[i].slices, id))
    ensures AreasWith(after, other) == AreasWith(areas, other)
  {
    if areas != [] {
      var n := |areas| - 1;
      OtherAreasKept(areas[..n], after[..n], id, other);
      DroppedIds(areas[n].slices, id);
      OthersKept(IdsOfSlices(areas[n].slices), id, other);
    }
  }

  lemma {:induction false} DropOneProfile(profiles: seq<Profile>, k: nat)
    requires k < |profiles| && Distinct(SliceIds(profiles))
    ensures DropProfiles(profiles, profiles[k].sliceId) == RemoveAt(profiles, k)
  {
    var rest := profiles[1..];
    assert SliceIds(rest) == SliceIds(profiles)[1..];
    assert forall i :: 0 <= i < |profiles| ==> SliceIds(profiles)[i] == profiles[i].sliceId;
    if k == 0 {
      DropNoProfile(rest, profiles[0].sliceId);
    } else {
      DropOneProfile(rest, k - 1);
      assert RemoveAt(profiles, k) == [profiles[0]] + RemoveAt(rest, k - 1);
    }
  }

  lemma {:induction false} DropNoProfile(profiles: seq<Profile>, id: string)
    requires forall i :: 0 <= i < |profiles| ==> profiles[i].sliceId != id
    ensures DropProfiles(profiles, id) == profiles
  {
    if profiles != [] { DropNoProfile(profiles[1..], id); }
  }

  lemma FirstOfDistinct(profiles: seq<Profile>)
    requires Distinct(SliceIds(profiles))
    ensures forall i :: 0 <= i < |profiles| ==> IndexOf(SliceIds(profiles), profiles[i].sliceId) == i
  {
    forall i | 0 <= i < |profiles| ensures IndexOf(SliceIds(profiles), profiles[i].sliceId) == i {
      assert SliceIds(profiles)[i] == profiles[i].sliceId;
    }
  }

  /**
   * delete_slice gives the translation of what the day-2 operation del_slice leaves, when slice ids
   * are distinct and nobody lists the slice; if somebody does there is no such translation.
   */
  lemma DeleteSliceIsRetranslation(m: Model, k: nat)
    requires Translatable(m) && Distinct(SliceIds(m.profiles)) && k < |m.profiles|
    ensures var (c, id) := (Translate(m), m.profiles[k].sliceId);
            var m' := m.(profiles := DropProfiles(m.profiles, id), areas := DropFromAreas(m.areas, id));
            && id in Sds(c.slices)
            && (Translatable(m') <==> forall u :: u in m.subscribers ==> id !in u.sliceIds)
            && (Translatable(m') ==> AfterDeleteSlice(c, id) == Translate(m'))
  {
    var (c, id) := (Translate(m), m.profiles[k].sliceId);
    var m' := m.(profiles := DropProfiles(m.profiles, id), areas := DropFromAreas(m.areas, id));
    assert Sds(c.slices)[k] == id;
    assert Sds(c.slices) == SliceIds(m.profiles);
    FirstOfDistinct(m.profiles);
    DropOneProfile(m.profiles, k);
    OtherProfilesKept(m, id, m');
    ProfileRemoved(m, k, m');
  }

  /** The profiles of m' are served in the same area as before. */
  ghost predicate SameAreas(m: Model, m': Model) {
    forall i :: 0 <= i < |m'.profiles| ==>
                  OnlyArea(m'.areas, m'.profiles[i].sliceId) == OnlyArea(m.areas, m'.profiles[i].sliceId)
  }

  lemma OtherProfilesKept(m: Model, id: string, m': Model)
    requires m' == m.(profiles := DropProfiles(m.profiles, id), areas := DropFromAreas(m.areas, id))
    ensures SameAreas(m, m')
  {
    forall i | 0 <= i < |m'.profiles|
      ensures OnlyArea(m'.areas, m'.profiles[i].sliceId) == OnlyArea(m.areas, m'.profiles[i].sliceId)
    {
      DropProfilesHas(m.profiles, id, m'.profiles[i]);
      OtherAreasKept(m.areas, m'.areas, id, m'.profiles[i].sliceId);
    }
  }

  lemma ProfileRemoved(m: Model, k: nat, m': Model)
    requires Translatable(m) && Distinct(SliceIds(m.profiles)) && k < |m.profiles|
    requires m'.profiles == RemoveAt(m.profiles, k) && m' == m.(profiles := m'.profiles, areas := m'.areas)
    requires SameAreas(m, m')
    ensures SlicesOf(m') == RemoveAt(SlicesOf(m), k)
    ensures Translatable(m') <==> forall u :: u in m.subscribers ==> m.profiles[k].sliceId !in u.sliceIds
    ensures Translatable(m') ==> GroupsOf(m') == RemoveAt(GroupsOf(m), k)
  {
    IdsRemoved(m.profiles, k);
    ListedWithout(m, m', m.profiles[k].sliceId);
    SlicesRemoved(m, k, m');
    if Translatable(m') { GroupsRemoved(m, k, m'); }
  }

  lemma IdsRemoved(profiles: seq<Profile>, k: nat)
    requires Distinct(SliceIds(profiles)) && k < |profiles|
    ensures Distinct(SliceIds(RemoveAt(profiles, k)))
    ensures forall x :: x in SliceIds(RemoveAt(profiles, k)) <==> x in SliceIds(profiles) && x != profiles[k].sliceId
  {
    assert SliceIds(RemoveAt(profiles, k)) == RemoveAt(SliceIds(profiles), k);
    KeptIds(SliceIds(profiles), k);
  }

  lemma RemovedAt<T>(s: seq<T>, k: nat, t: seq<T>)
    requires k < |s| && |t| == |s| - 1 && forall i :: 0 <= i < |t| ==> t[i] == s[if i < k then i else i + 1]
    ensures t == RemoveAt(s, k)
  {
  }

  lemma SlicesRemoved(m: Model, k: nat, m': Model)
    requires k < |m.profiles| && m'.profiles == RemoveAt(m.profiles, k) && m'.plmn == m.plmn
    requires SameAreas(m, m')
    ensures SlicesOf(m') == RemoveAt(SlicesOf(m), k)
  {
    forall i | 0 <= i < |m'.profiles| ensures SlicesOf(m')[i] == SlicesOf(m)[if i < k then i else i + 1] {
      assert m'.profiles[i] == m.profiles[if i < k then i else i + 1];
    }
    RemovedAt(SlicesOf(m), k, SlicesOf(m'));
  }

  lemma GroupKept(m: Model, j: nat, m': Model, i: nat)
    requires AllFit(m) && AllFit(m') && j < |m.profiles| && i < |m'.profiles| && m'.profiles[i] == m.profiles[j]
    requires m'.nets == m.nets && m'.subscribers == m.subscribers
    requires IndexOf(SliceIds(m.profiles), m.profiles[j].sliceId) == j
    requires IndexOf(SliceIds(m'.profiles), m.profiles[j].sliceId) == i
    ensures GroupsOf(m')[i] == GroupsOf(m)[j]
  {
  }

  lemma GroupsRemoved(m: Model, k: nat, m': Model)
    requires AllFit(m) && AllFit(m') && k < |m.profiles| && m'.profiles == RemoveAt(m.profiles, k)
    requires m'.nets == m.nets && m'.subscribers == m.subscribers
    requires Distinct(SliceIds(m.profiles)) && Distinct(SliceIds(m'.profiles))
    ensures GroupsOf(m') == RemoveAt(GroupsOf(m), k)
  {
    FirstOfDistinct(m.profiles);
    FirstOfDistinct(m'.profiles);
    forall i | 0 <= i < |m'.profiles| ensures GroupsOf(m')[i] == GroupsOf(m)[if i < k then i else i + 1] {
      GroupKept(m, if i < k then i else i + 1, m', i);
    }
    RemovedAt(GroupsOf(m), k, GroupsOf(m'));
  }

  lemma KeptIds(ids: seq<string>, k: nat)
    requires k < |ids| && Distinct(ids)
    ensures Distinct(RemoveAt(ids, k)) && forall x :: x in RemoveAt(ids, k) <==> x in ids && x != ids[k]
  {
    forall x | x in ids && x != ids[k] ensures x in RemoveAt(ids, k) {
      var i :| 0 <= i < |ids| && ids[i] == x;
      assert RemoveAt(ids, k)[if i < k then i else i - 1] == x;
    }
  }

  lemma ListedWithout(m: Model, m': Model, id: string)
    requires Translatable(m) && m'.subscribers == m.subscribers && m'.nets == m.nets
    requires forall p :: p in m'.profiles ==> p in m.profiles
    requires forall x :: x in SliceIds(m'.profiles) <==> x in SliceIds(m.profiles) && x != id
    ensures Translatable(m') <==> forall u :: u in m.subscribers ==> id !in u.sliceIds
  {
    assert AllFit(m') by { assert forall i :: 0 <= i < |m'.profiles| ==> m'.profiles[i] in m.profiles; }
    var known := SliceIds(m'.profiles);
    forall i | 0 <= i < |m.subscribers|
      ensures Listed(known, m.subscribers[i].sliceIds) <==> id !in m.subscribers[i].sliceIds
    {
      assert Listed(SliceIds(m.profiles), m.subscribers[i].sliceIds);
    }
  }
}
