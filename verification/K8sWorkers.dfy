/**
 * The workers of a Kubernetes blueprint and the numbers they carry
 * (src/nfvcl/blueprints_ng/modules/k8s/k8s_blueprint.py). Resource ids are numbers in drawing order.
 */
module K8sWorkers {
  import opened Wrappers
  import opened Seqs
  import opened Text

  const Slots: nat := 18

  datatype Vm = Vm(id: nat, name: string)

  datatype Configurator = Configurator(id: nat, vmName: string, number: nat)

  function WorkerName(blueprint: string, number: nat): string {
    blueprint + "-vm-w-" + Digits(number)
  }

  lemma WorkerNamesDiffer(blueprint: string, m: nat, n: nat)
    ensures WorkerName(blueprint, m) == WorkerName(blueprint, n) ==> m == n
  {
    var head := blueprint + "-vm-w-";
    assert WorkerName(blueprint, m)[|head|..] == Digits(m) && WorkerName(blueprint, n)[|head|..] == Digits(n);
    DigitsDiffer(m, n);
  }

  // ------------------------------------------------------------------- the numbers

  /** The first free slot, or the length. */
  function FirstFree(bits: seq<int>): (k: nat)
    ensures k <= |bits| && (k < |bits| ==> bits[k] == 0)
    ensures forall i :: 0 <= i < k ==> bits[i] != 0
  {
    if bits == [] || bits[0] == 0 then 0 else 1 + FirstFree(bits[1..])
  }

  ghost predicate Taken(confs: seq<Configurator>, k: nat) {
    exists i :: 0 <= i < |confs| && confs[i].number == k
  }

  /** A configurator's number is taken, by it alone. Others may be taken, too: they are lost. */
  ghost predicate BitsAgree(bits: seq<int>, confs: seq<Configurator>) {
    && |bits| == Slots
    && (forall k :: 0 <= k < Slots ==> bits[k] == 0 || bits[k] == 1)
    && (forall i :: 0 <= i < |confs| ==> confs[i].number < Slots && bits[confs[i].number] == 1)
    && forall i, j :: 0 <= i < j < |confs| ==> confs[i].number != confs[j].number
  }

  /** The numbers that are taken although no configurator has them. */
  ghost function Lost(bits: seq<int>, confs: seq<Configurator>): set<nat> {
    set k: nat | k < |bits| && bits[k] == 1 && !Taken(confs, k)
  }

  /** Workers have different names, after taken numbers; each configurator belongs to a worker. */
  ghost predicate NamesAgree(blueprint: string, vms: seq<Vm>, confs: seq<Configurator>, bits: seq<int>) {
    && (forall i {:trigger NamedAfter(blueprint, vms[i].name, bits)} :: 0 <= i < |vms| ==>
          NamedAfter(blueprint, vms[i].name, bits))
    && (forall i, j :: 0 <= i < j < |vms| ==> vms[i].name != vms[j].name)
    && forall c {:trigger BelongsTo(blueprint, vms, confs[c])} :: 0 <= c < |confs| ==>
         BelongsTo(blueprint, vms, confs[c])
  }

  ghost predicate NamedAfter(blueprint: string, name: string, bits: seq<int>) {
    exists n :: 0 <= n < |bits| && bits[n] == 1 && name == WorkerName(blueprint, n)
  }

  ghost predicate BelongsTo(blueprint: string, vms: seq<Vm>, c: Configurator) {
    c.vmName == WorkerName(blueprint, c.number) && Names(vms, c.vmName)
  }

  /** Every configurator, and every worker that has one, is registered; all have ids of their own. */
  ghost predicate IdsAgree(vms: seq<Vm>, confs: seq<Configurator>, registered: set<nat>) {
    && (forall i, c :: 0 <= i < |vms| && 0 <= c < |confs| && vms[i].name == confs[c].vmName ==> vms[i].id in registered)
    && (forall i :: 0 <= i < |confs| ==> confs[i].id in registered)
    && (forall i, j :: 0 <= i < j < |vms| ==> vms[i].id != vms[j].id)
    && (forall i, j :: 0 <= i < j < |confs| ==> confs[i].id != confs[j].id)
    && forall i, j :: 0 <= i < |vms| && 0 <= j < |confs| ==> vms[i].id != confs[j].id
  }

  ghost predicate Consistent(blueprint: string, vms: seq<Vm>, confs: seq<Configurator>, bits: seq<int>,
                             registered: set<nat>, next: nat, todo: seq<Configurator>) {
    && NamesAgree(blueprint, vms, confs, bits)
    && BitsAgree(bits, confs)
    && IdsAgree(vms, confs, registered)
    && Below(vms, registered, next)
    && forall c :: c in todo ==> c in confs
  }

  /** All ids were drawn before. */
  ghost predicate Below(vms: seq<Vm>, registered: set<nat>, next: nat) {
    (forall x :: x in registered ==> x < next) && forall i :: 0 <= i < |vms| ==> vms[i].id < next
  }

  /** The number that a worker is named after. */
  lemma NumberBehind(blueprint: string, vms: seq<Vm>, confs: seq<Configurator>, bits: seq<int>, i: nat)
    returns (n: nat)
    requires NamesAgree(blueprint, vms, confs, bits) && i < |vms|
    ensures n < |bits| && bits[n] == 1 && vms[i].name == WorkerName(blueprint, n)
  {
    assert NamedAfter(blueprint, vms[i].name, bits);
    n :| 0 <= n < |bits| && bits[n] == 1 && vms[i].name == WorkerName(blueprint, n);
  }

  /** The worker of a configurator. */
  lemma WorkerOf(blueprint: string, vms: seq<Vm>, confs: seq<Configurator>, bits: seq<int>, c: nat)
    returns (i: nat)
    requires NamesAgree(blueprint, vms, confs, bits) && c < |confs|
    ensures i < |vms| && vms[i].name == confs[c].vmName == WorkerName(blueprint, confs[c].number)
  {
    assert BelongsTo(blueprint, vms, confs[c]);
    i := VmIndex(vms, confs[c].vmName);
  }

  ghost predicate Configured(confs: seq<Configurator>, name: string) {
    exists c :: 0 <= c < |confs| && confs[c].vmName == name
  }

  /** With nothing lost a slot is taken iff a configurator has its number, and every worker has one. */
  lemma NothingLost(blueprint: string, vms: seq<Vm>, confs: seq<Configurator>, bits: seq<int>)
    requires NamesAgree(blueprint, vms, confs, bits) && BitsAgree(bits, confs)
    ensures Lost(bits, confs) == {} <==> forall k :: 0 <= k < Slots ==> (bits[k] == 1 <==> Taken(confs, k))
    ensures Lost(bits, confs) == {} ==> forall i :: 0 <= i < |vms| ==> Configured(confs, vms[i].name)
  {
    forall k: nat | k < Slots ensures bits[k] == 1 <==> Taken(confs, k) || k in Lost(bits, confs) { }
    if Lost(bits, confs) != {} {
      var k :| k in Lost(bits, confs);
      assert bits[k] == 1 && !Taken(confs, k);
    } else {
      forall i | 0 <= i < |vms| ensures Configured(confs, vms[i].name) {
        var n := NumberBehind(blueprint, vms, confs, bits, i);
        assert Taken(confs, n);
        var c :| 0 <= c < |confs| && confs[c].number == n;
        var o := WorkerOf(blueprint, vms, confs, bits, c);
      }
    }
  }

  // ------------------------------------------------------------------- removing

  function WithoutVm(vms: seq<Vm>, name: string): seq<Vm> {
    if vms == [] then [] else (if vms[0].name == name then [] else [vms[0]]) + WithoutVm(vms[1..], name)
  }

  function WithoutConf(confs: seq<Configurator>, name: string): seq<Configurator> {
    if confs == [] then [] else (if confs[0].vmName == name then [] else [confs[0]]) + WithoutConf(confs[1..], name)
  }

  lemma {:induction false} WithoutVmAt(vms: seq<Vm>, k: nat)
    requires k < |vms| && forall i, j :: 0 <= i < j < |vms| ==> vms[i].name != vms[j].name
    ensures WithoutVm(vms, vms[k].name) == RemoveAt(vms, k)
  {
    if k == 0 {
      WithoutVmNone(vms[1..], vms[0].name);
    } else {
      WithoutVmAt(vms[1..], k - 1);
      RemoveAtTail(vms, k);
    }
  }

  lemma {:induction false} WithoutVmNone(vms: seq<Vm>, name: string)
    requires forall i :: 0 <= i < |vms| ==> vms[i].name != name
    ensures WithoutVm(vms, name) == vms
  {
    if vms != [] { WithoutVmNone(vms[1..], name); }
  }

  /** The configurator of that worker, or the length. */
  function ConfIndex(confs: seq<Configurator>, name: string): (c: nat)
    ensures c <= |confs| && (c < |confs| ==> confs[c].vmName == name)
    ensures forall i :: 0 <= i < c ==> confs[i].vmName != name
  {
    if confs == [] || confs[0].vmName == name then 0 else 1 + ConfIndex(confs[1..], name)
  }

  /** What is left of the configurators, the numbers and the registry when a worker goes. */
  function ConfsWithout(confs: seq<Configurator>, name: string): seq<Configurator> {
    var c := ConfIndex(confs, name);
    if c < |confs| then RemoveAt(confs, c) else confs
  }

  function BitsWithout(bits: seq<int>, confs: seq<Configurator>, name: string): seq<int> {
    var c := ConfIndex(confs, name);
    if c < |confs| && confs[c].number < |bits| then bits[confs[c].number := 0] else bits
  }

  function IdsWithout(registered: set<nat>, confs: seq<Configurator>, vm: Vm): set<nat> {
    var c := ConfIndex(confs, vm.name);
    registered - {vm.id} - if c < |confs| then {confs[c].id} else {}
  }

  /** Names and numbers tell the configurators from one another. */
  lemma ConfsApart(blueprint: string, vms: seq<Vm>, confs: seq<Configurator>, bits: seq<int>)
    requires NamesAgree(blueprint, vms, confs, bits) && BitsAgree(bits, confs)
    ensures forall i, j :: 0 <= i < j < |confs| ==> confs[i].vmName != confs[j].vmName
  {
    forall i, j | 0 <= i < j < |confs| ensures confs[i].vmName != confs[j].vmName {
      var a := WorkerOf(blueprint, vms, confs, bits, i);
      var b := WorkerOf(blueprint, vms, confs, bits, j);
      WorkerNamesDiffer(blueprint, confs[i].number, confs[j].number);
    }
  }

  /** The number of a worker that goes was taken; then it is free, and nothing else has changed. */
  lemma RemovalBits(confs: seq<Configurator>, bits: seq<int>, k: nat)
    requires BitsAgree(bits, confs) && k < |confs|
    ensures bits[confs[k].number] == 1
    ensures BitsAgree(bits[confs[k].number := 0], RemoveAt(confs, k))
    ensures Lost(bits[confs[k].number := 0], RemoveAt(confs, k)) == Lost(bits, confs)
  {
    var (after, m) := (RemoveAt(confs, k), confs[k].number);
    assert forall i :: 0 <= i < |after| ==> after[i] == confs[if i < k then i else i + 1];
    forall n: nat ensures Taken(after, n) <==> Taken(confs, n) && n != m {
      if i :| 0 <= i < |confs| && confs[i].number == n && n != m {
        assert after[if i < k then i else i - 1].number == n;
      }
    }
  }

  /** Another name keeps the number that it comes from. */
  lemma StaysNamed(blueprint: string, confs: seq<Configurator>, bits: seq<int>, name: string, n: nat)
    requires n < |bits| && bits[n] == 1 && WorkerName(blueprint, n) != name
    requires var c := ConfIndex(confs, name); c < |confs| ==> name == WorkerName(blueprint, confs[c].number)
    ensures NamedAfter(blueprint, WorkerName(blueprint, n), BitsWithout(bits, confs, name))
  {
    assert BitsWithout(bits, confs, name)[n] == 1;
  }

  lemma NamesStay(vms: seq<Vm>, k: nat, i: nat)
    requires k < |vms| && i < |vms| && i != k
    ensures Names(RemoveAt(vms, k), vms[i].name)
  {
    RemoveAtIndex(vms, k);
    NamesHas(RemoveAt(vms, k), if i < k then i else i - 1);
  }

  /** A configurator that stays was there before, under another name. */
  lemma RestWas(confs: seq<Configurator>, name: string, j: nat) returns (o: nat)
    requires forall i, j :: 0 <= i < j < |confs| ==> confs[i].vmName != confs[j].vmName
    requires j < |ConfsWithout(confs, name)|
    ensures o < |confs| && ConfsWithout(confs, name)[j] == confs[o] && confs[o].vmName != name
  {
    var c := ConfIndex(confs, name);
    if c < |confs| {
      RemoveAtIndex(confs, c);
      o := if j < c then j else j + 1;
    } else {
      o := j;
    }
  }

  lemma RemovalNames(blueprint: string, vms: seq<Vm>, confs: seq<Configurator>, bits: seq<int>, k: nat)
    requires NamesAgree(blueprint, vms, confs, bits) && BitsAgree(bits, confs) && k < |vms|
    ensures var name := vms[k].name;
            NamesAgree(blueprint, RemoveAt(vms, k), ConfsWithout(confs, name), BitsWithout(bits, confs, name))
  {
    RemoveAtIndex(vms, k);
    var name := vms[k].name;
    var (v, rest, left) := (RemoveAt(vms, k), ConfsWithout(confs, name), BitsWithout(bits, confs, name));
    forall i | 0 <= i < |v| ensures NamedAfter(blueprint, v[i].name, left) {
      VmStaysNamed(blueprint, vms, confs, bits, k, if i < k then i else i + 1);
    }
    forall j | 0 <= j < |rest| ensures BelongsTo(blueprint, v, rest[j]) {
      ConfStays(blueprint, vms, confs, bits, k, j);
    }
  }

  lemma VmStaysNamed(blueprint: string, vms: seq<Vm>, confs: seq<Configurator>, bits: seq<int>, k: nat, i: nat)
    requires NamesAgree(blueprint, vms, confs, bits) && k < |vms| && i < |vms| && i != k
    ensures NamedAfter(blueprint, vms[i].name, BitsWithout(bits, confs, vms[k].name))
  {
    var n := NumberBehind(blueprint, vms, confs, bits, i);
    var c := ConfIndex(confs, vms[k].name);
    if c < |confs| { var o := WorkerOf(blueprint, vms, confs, bits, c); }
    StaysNamed(blueprint, confs, bits, vms[k].name, n);
  }

  lemma ConfStays(blueprint: string, vms: seq<Vm>, confs: seq<Configurator>, bits: seq<int>, k: nat, j: nat)
    requires NamesAgree(blueprint, vms, confs, bits) && BitsAgree(bits, confs) && k < |vms|
    requires j < |ConfsWithout(confs, vms[k].name)|
    ensures BelongsTo(blueprint, RemoveAt(vms, k), ConfsWithout(confs, vms[k].name)[j])
  {
    ConfsApart(blueprint, vms, confs, bits);
    var o := RestWas(confs, vms[k].name, j);
    var i := WorkerOf(blueprint, vms, confs, bits, o);
    NamesStay(vms, k, i);
  }

  lemma NamesHas(vms: seq<Vm>, i: nat)
    requires i < |vms|
    ensures Names(vms, vms[i].name)
  {
  }

  lemma VmGone(vms: seq<Vm>, confs: seq<Configurator>, registered: set<nat>, k: nat)
    requires IdsAgree(vms, confs, registered) && k < |vms|
    ensures IdsAgree(RemoveAt(vms, k), confs, registered - {vms[k].id})
    ensures SameRegistered(RemoveAt(vms, k), registered, registered - {vms[k].id})
  {
    RemoveAtIndex(vms, k);
  }

  lemma ConfGone(vms: seq<Vm>, confs: seq<Configurator>, registered: set<nat>, c: nat)
    requires IdsAgree(vms, confs, registered) && c < |confs|
    ensures IdsAgree(vms, RemoveAt(confs, c), registered - {confs[c].id})
    ensures SameRegistered(vms, registered, registered - {confs[c].id})
  {
    RemoveAtIndex(confs, c);
  }

  lemma RemovalIds(vms: seq<Vm>, confs: seq<Configurator>, registered: set<nat>, k: nat)
    requires IdsAgree(vms, confs, registered) && k < |vms|
    ensures IdsAgree(RemoveAt(vms, k), ConfsWithout(confs, vms[k].name), IdsWithout(registered, confs, vms[k]))
    ensures SameRegistered(RemoveAt(vms, k), registered, IdsWithout(registered, confs, vms[k]))
  {
    var (left, c) := (registered - {vms[k].id}, ConfIndex(confs, vms[k].name));
    VmGone(vms, confs, registered, k);
    if c < |confs| { ConfGone(RemoveAt(vms, k), confs, left, c); } else { assert left - {} == left; }
  }

  lemma OwnConfRegistered(vms: seq<Vm>, confs: seq<Configurator>, registered: set<nat>, k: nat)
    requires IdsAgree(vms, confs, registered) && k < |vms|
    ensures var c := ConfIndex(confs, vms[k].name);
            c < |confs| ==> confs[c].id in registered && confs[c].id != vms[k].id
  {
  }

  /** Taking the worker at position k away keeps everything in agreement, and the same numbers lost. */
  lemma RemovalKeeps(blueprint: string, vms: seq<Vm>, confs: seq<Configurator>, bits: seq<int>,
                     registered: set<nat>, next: nat, todo: seq<Configurator>, k: nat)
    requires Consistent(blueprint, vms, confs, bits, registered, next, todo) && k < |vms|
    ensures var name := vms[k].name;
            var (confs', bits') := (ConfsWithout(confs, name), BitsWithout(bits, confs, name));
            && WithoutVm(vms, name) == RemoveAt(vms, k)
            && Consistent(blueprint, RemoveAt(vms, k), confs', bits', IdsWithout(registered, confs, vms[k]), next,
                          WithoutConf(todo, name))
            && Lost(bits', confs') == Lost(bits, confs)
  {
    var (name, c) := (vms[k].name, ConfIndex(confs, vms[k].name));
    WithoutVmAt(vms, k);
    RemovalNames(blueprint, vms, confs, bits, k);
    RemovalIds(vms, confs, registered, k);
    if c < |confs| { RemovalBits(confs, bits, c); }
    WithoutConfIn(todo, confs, name);
    RemoveAtIndex(vms, k);
  }

  // --------------------------------------------------------------------- adding

  /** A worker named after a free number has a name of its own. */
  lemma NewName(blueprint: string, vms: seq<Vm>, confs: seq<Configurator>, bits: seq<int>, k: nat)
    requires NamesAgree(blueprint, vms, confs, bits) && k < |bits| && bits[k] == 0
    ensures forall i :: 0 <= i < |vms| ==> vms[i].name != WorkerName(blueprint, k)
    ensures forall c :: 0 <= c < |confs| ==> confs[c].vmName != WorkerName(blueprint, k)
  {
    forall i | 0 <= i < |vms| ensures vms[i].name != WorkerName(blueprint, k) {
      var n := NumberBehind(blueprint, vms, confs, bits, i);
      WorkerNamesDiffer(blueprint, n, k);
    }
    forall c | 0 <= c < |confs| ensures confs[c].vmName != WorkerName(blueprint, k) {
      var i := WorkerOf(blueprint, vms, confs, bits, c);
    }
  }

  lemma AdditionNames(blueprint: string, vms: seq<Vm>, confs: seq<Configurator>, bits: seq<int>, k: nat, vm: Vm)
    requires NamesAgree(blueprint, vms, confs, bits) && k < |bits| && bits[k] == 0
    requires vm.name == WorkerName(blueprint, k)
    ensures NamesAgree(blueprint, vms + [vm], confs, bits[k := 1])
  {
    NewName(blueprint, vms, confs, bits, k);
    var (now, more) := (bits[k := 1], vms + [vm]);
    forall i | 0 <= i < |more| ensures NamedAfter(blueprint, more[i].name, now) {
      if i < |vms| {
        var n := NumberBehind(blueprint, vms, confs, bits, i);
        assert now[n] == 1;
      } else {
        assert now[k] == 1;
      }
    }
    forall c | 0 <= c < |confs| ensures BelongsTo(blueprint, more, confs[c]) {
      var i := WorkerOf(blueprint, vms, confs, bits, c);
      assert more[i] == vms[i];
      NamesHas(more, i);
    }
  }

  lemma ConfNames(blueprint: string, vms: seq<Vm>, confs: seq<Configurator>, bits: seq<int>, c: Configurator)
    requires NamesAgree(blueprint, vms, confs, bits) && BelongsTo(blueprint, vms, c)
    ensures NamesAgree(blueprint, vms, confs + [c], bits)
  {
    var more := confs + [c];
    forall j | 0 <= j < |more| ensures BelongsTo(blueprint, vms, more[j]) {
      if j < |confs| { assert BelongsTo(blueprint, vms, confs[j]); }
    }
  }

  lemma AdditionBits(confs: seq<Configurator>, bits: seq<int>, k: nat)
    requires BitsAgree(bits, confs) && k < Slots && bits[k] == 0
    ensures BitsAgree(bits[k := 1], confs)
    ensures Lost(bits[k := 1], confs) == Lost(bits, confs) + {k} && k !in Lost(bits, confs)
  {
    assert !Taken(confs, k);
  }

  lemma ConfBits(confs: seq<Configurator>, bits: seq<int>, c: Configurator)
    requires BitsAgree(bits, confs) && c.number in Lost(bits, confs)
    ensures BitsAgree(bits, confs + [c]) && Lost(bits, confs + [c]) == Lost(bits, confs) - {c.number}
  {
    var more := confs + [c];
    assert more[|confs|] == c && forall i :: 0 <= i < |confs| ==> more[i] == confs[i];
    forall n: nat ensures Taken(more, n) <==> Taken(confs, n) || n == c.number {
      if i :| 0 <= i < |confs| && confs[i].number == n { assert more[i].number == n; }
    }
  }

  lemma VmJoins(vms: seq<Vm>, confs: seq<Configurator>, registered: set<nat>, next: nat, vm: Vm)
    requires IdsAgree(vms, confs, registered) && Below(vms, registered, next) && vm.id == next
    requires forall c :: 0 <= c < |confs| ==> confs[c].vmName != vm.name
    ensures IdsAgree(vms + [vm], confs, registered) && IdsAgree(vms + [vm], confs, registered + {next})
  {
    var more := vms + [vm];
    assert more[|vms|] == vm && forall i :: 0 <= i < |vms| ==> more[i] == vms[i];
  }

  lemma ConfJoins(vms: seq<Vm>, confs: seq<Configurator>, registered: set<nat>, next: nat, c: Configurator)
    requires IdsAgree(vms, confs, registered) && Below(vms, registered, next) && c.id == next
    requires forall i :: 0 <= i < |vms| && vms[i].name == c.vmName ==> vms[i].id in registered
    ensures IdsAgree(vms, confs + [c], registered + {next})
  {
    var more := confs + [c];
    assert more[|confs|] == c && forall i :: 0 <= i < |confs| ==> more[i] == confs[i];
  }

  /** An addition that fails keeps everything in agreement, but loses its number. */
  lemma HalfAddition(blueprint: string, vms: seq<Vm>, confs: seq<Configurator>, bits: seq<int>, registered: set<nat>,
                     next: nat, todo: seq<Configurator>, k: nat, vm: Vm)
    requires Consistent(blueprint, vms, confs, bits, registered, next, todo)
    requires k < Slots && bits[k] == 0 && vm == Vm(next, WorkerName(blueprint, k))
    ensures Consistent(blueprint, vms + [vm], confs, bits[k := 1], registered, next + 1, todo)
    ensures Consistent(blueprint, vms + [vm], confs, bits[k := 1], registered + {next}, next + 1, todo)
    ensures Lost(bits[k := 1], confs) == Lost(bits, confs) + {k} && k !in Lost(bits, confs)
  {
    NewName(blueprint, vms, confs, bits, k);
    AdditionNames(blueprint, vms, confs, bits, k, vm);
    AdditionBits(confs, bits, k);
    VmJoins(vms, confs, registered, next, vm);
  }

  /** The configurator takes the lost number. */
  lemma ConfAddition(blueprint: string, vms: seq<Vm>, confs: seq<Configurator>, bits: seq<int>, registered: set<nat>,
                     next: nat, todo: seq<Configurator>, c: Configurator)
    requires Consistent(blueprint, vms, confs, bits, registered, next, todo)
    requires BelongsTo(blueprint, vms, c) && c.id == next && c.number in Lost(bits, confs)
    requires forall i :: 0 <= i < |vms| && vms[i].name == c.vmName ==> vms[i].id in registered
    ensures Consistent(blueprint, vms, confs + [c], bits, registered + {next}, next + 1, todo + [c])
    ensures Lost(bits, confs + [c]) == Lost(bits, confs) - {c.number}
  {
    ConfNames(blueprint, vms, confs, bits, c);
    ConfBits(confs, bits, c);
    ConfJoins(vms, confs, registered, next, c);
  }

  /** An addition keeps everything in agreement, and the same numbers lost. */
  lemma WholeAddition(blueprint: string, vms: seq<Vm>, confs: seq<Configurator>, bits: seq<int>, registered: set<nat>,
                      next: nat, todo: seq<Configurator>, k: nat, vm: Vm, c: Configurator)
    requires Consistent(blueprint, vms, confs, bits, registered, next, todo)
    requires k < Slots && bits[k] == 0 && vm == Vm(next, WorkerName(blueprint, k))
    requires c == Configurator(next + 1, WorkerName(blueprint, k), k)
    ensures Consistent(blueprint, vms + [vm], confs + [c], bits[k := 1], registered + {next} + {next + 1}, next + 2,
                       todo + [c])
    ensures Lost(bits[k := 1], confs + [c]) == Lost(bits, confs)
  {
    HalfAddition(blueprint, vms, confs, bits, registered, next, todo, k, vm);
    NewName(blueprint, vms, confs, bits, k);
    assert (vms + [vm])[|vms|] == vm;
    NamesHas(vms + [vm], |vms|);
    ConfAddition(blueprint, vms + [vm], confs, bits[k := 1], registered + {next}, next + 1, todo, c);
    assert Lost(bits, confs) + {k} - {k} == Lost(bits, confs);
  }

  // ------------------------------------------------------------------- counting

  function FreeSlots(bits: seq<int>): nat {
    if bits == [] then 0 else FreeSlots(bits[1..]) + if bits[0] == 0 then 1 else 0
  }

  lemma {:induction false} FreeSlotsChange(bits: seq<int>, k: nat, v: int)
    requires k < |bits|
    ensures FreeSlots(bits[k := v]) == FreeSlots(bits) + (if v == 0 then 1 else 0) - if bits[k] == 0 then 1 else 0
  {
    if k > 0 {
      assert bits[k := v][1..] == bits[1..][k - 1 := v];
      FreeSlotsChange(bits[1..], k - 1, v);
    } else {
      assert bits[0 := v][1..] == bits[1..];
    }
  }

  /** A slot is free, has a configurator, or is lost. */
  lemma {:induction false} FreeSlotsAre(bits: seq<int>, confs: seq<Configurator>)
    requires BitsAgree(bits, confs)
    ensures FreeSlots(bits) + |confs| + |Lost(bits, confs)| == Slots
    decreases |confs| + |Lost(bits, confs)|
  {
    var lost := Lost(bits, confs);
    if confs != [] {
      var k := |confs| - 1;
      RemovalBits(confs, bits, k);
      assert RemoveAt(confs, k) == confs[..k];
      FreeSlotsAre(bits[confs[k].number := 0], confs[..k]);
      FreeSlotsChange(bits, confs[k].number, 0);
    } else if lost != {} {
      var k :| k in lost;
      var now := bits[k := 0];
      assert Lost(now, confs) == lost - {k};
      FreeSlotsAre(now, confs);
      FreeSlotsChange(bits, k, 0);
    } else {
      forall k: nat | k < Slots ensures bits[k] == 0 { assert k !in lost && !Taken(confs, k); }
      AllFree(bits);
    }
  }

  lemma {:induction false} AllFree(bits: seq<int>)
    requires forall k :: 0 <= k < |bits| ==> bits[k] == 0
    ensures FreeSlots(bits) == |bits|
  {
    if bits != [] { AllFree(bits[1..]); }
  }

  lemma {:induction false} SomeFree(bits: seq<int>)
    ensures FirstFree(bits) == |bits| <==> FreeSlots(bits) == 0
  {
    if bits != [] { SomeFree(bits[1..]); }
  }

  /** Numbers run out exactly when workers and lost numbers fill the slots. */
  lemma FullExactlyWhen(bits: seq<int>, confs: seq<Configurator>)
    requires BitsAgree(bits, confs)
    ensures FirstFree(bits) == Slots <==> |confs| + |Lost(bits, confs)| == Slots
    ensures |confs| + |Lost(bits, confs)| <= Slots
  {
    SomeFree(bits);
    FreeSlotsAre(bits, confs);
  }

  // ---------------------------------------------------------------- the blueprint

  datatype Outcome = Done | Full | ProviderFailed | Unregistered

  /** A call to the virtualisation provider; the controller takes nodes out of the cluster. */
  datatype VmCall =
    | CreateVm(id: nat, name: string)
    | Configure(id: nat)
    | DeleteNodes(names: seq<string>)
    | DestroyVm(id: nat)

  function Creations(vms: seq<Vm>): seq<VmCall> {
    seq(|vms|, i requires 0 <= i < |vms| => CreateVm(vms[i].id, vms[i].name))
  }

  function Runs(confs: seq<Configurator>): seq<VmCall> {
    seq(|confs|, i requires 0 <= i < |confs| => Configure(confs[i].id))
  }

  function Destructions(vms: seq<Vm>): seq<VmCall> {
    seq(|vms|, i requires 0 <= i < |vms| => DestroyVm(vms[i].id))
  }

  class K8sBlueprint {
    const id: string
    var workerNumbers: seq<int>
    var vmWorkers: seq<Vm>
    var configurators: seq<Configurator>
    var toBeExecuted: seq<Configurator>
    var registered: set<nat>
    var next: nat
    var calls: seq<VmCall>

    constructor (id: string)
      ensures this.id == id && Valid() && vmWorkers == [] && LostNumbers() == {}
    {
      this.id := id;
      workerNumbers := seq(Slots, i => 0);
      vmWorkers, configurators, toBeExecuted, registered, next, calls := [], [], [], {}, 0, [];
    }

    ghost predicate Numbered()
      reads this
    {
      NamesAgree(id, vmWorkers, configurators, workerNumbers) && BitsAgree(workerNumbers, configurators)
    }

    ghost predicate Valid()
      reads this
    {
      Consistent(id, vmWorkers, configurators, workerNumbers, registered, next, toBeExecuted)
    }

    ghost function LostNumbers(): set<nat>
      reads this
    {
      Lost(workerNumbers, configurators)
    }

    function MasterName(): string { id + "-vm-k8s-c" }

    /** A call to the virtualisation provider: it may fail. */
    method Provider(call: VmCall) returns (ok: bool)
      modifies this`calls
      ensures calls == old(calls) + [call]
    {
      calls := calls + [call];
      ok := *;
    }

    method ReserveWorkerNumber() returns (k: Option<nat>)
      modifies this`workerNumbers
      ensures var free := FirstFree(old(workerNumbers));
              if free < |old(workerNumbers)| then k == Some(free) && workerNumbers == old(workerNumbers)[free := 1]
              else k == None && workerNumbers == old(workerNumbers)
    {
      for position := 0 to |workerNumbers|
        invariant workerNumbers == old(workerNumbers)
        invariant forall i :: 0 <= i < position ==> workerNumbers[i] != 0
      {
        if workerNumbers[position] == 0 {
          workerNumbers := workerNumbers[position := 1];
          return Some(position);
        }
      }
      k := None;
    }

    /** False when the number was not reserved. */
    method ReleaseWorkerNumber(number: nat) returns (ok: bool)
      requires number < |workerNumbers|
      modifies this`workerNumbers
      ensures ok <==> old(workerNumbers)[number] == 1
      ensures workerNumbers == if ok then old(workerNumbers)[number := 0] else old(workerNumbers)
    {
      ok := workerNumbers[number] == 1;
      if ok { workerNumbers := workerNumbers[number := 0]; }
    }

    /** The worker of that name goes, with its configurator, if any, and its number, which is never found free. */
    method RemoveWorker(name: string, ghost k: nat) returns (removed: seq<Configurator>, released: bool)
      requires Numbered() && k < |vmWorkers| && vmWorkers[k].name == name
      modifies this`workerNumbers, this`vmWorkers, this`configurators, this`toBeExecuted
      ensures released
      ensures var (confs, c) := (old(configurators), ConfIndex(old(configurators), name));
              removed == if c < |confs| then [confs[c]] else []
      ensures vmWorkers == RemoveAt(old(vmWorkers), k) && configurators == ConfsWithout(old(configurators), name)
      ensures workerNumbers == BitsWithout(old(workerNumbers), old(configurators), name)
      ensures toBeExecuted == WithoutConf(old(toBeExecuted), name)
    {
      ghost var (confs, bits, at) := (configurators, workerNumbers, ConfIndex(configurators, name));
      ConfsApart(id, vmWorkers, confs, bits);
      WithoutVmAt(vmWorkers, k);
      if at < |confs| {
        RemovalBits(confs, bits, at);
        RemoveFirstAt(confs, at);
      }
      vmWorkers := WithoutVm(vmWorkers, name);
      removed := [];
      var i := 0;
      while i < |configurators|
        invariant 0 <= i && (i <= at <==> removed == [])
        invariant vmWorkers == RemoveAt(old(vmWorkers), k) && toBeExecuted == old(toBeExecuted)
        invariant removed == [] ==> configurators == confs && workerNumbers == bits
        invariant removed != [] ==> at < |confs| && removed == [confs[at]] && configurators == RemoveAt(confs, at)
        invariant removed != [] ==> workerNumbers == bits[confs[at].number := 0]
        decreases |confs| - i
      {
        var c := configurators[i];
        if c.vmName == name {
          assert i == at;
          released := ReleaseWorkerNumber(c.number);
          if !released { return; }
          configurators := RemoveFirst(configurators, c);
          removed := removed + [c];
        }
        i := i + 1;
      }
      released := true;
      toBeExecuted := WithoutConf(toBeExecuted, name);
    }

    /** It stops at the first that is not registered. */
    method DeregisterAll(confs: seq<Configurator>) returns (ok: bool)
      modifies this`registered
      ensures registered <= old(registered)
      ensures confs == [] ==> ok && registered == old(registered)
      ensures |confs| == 1 ==> ok == (confs[0].id in old(registered)) && registered == old(registered) - {confs[0].id}
    {
      for i := 0 to |confs|
        invariant registered <= old(registered)
        invariant i == 0 ==> registered == old(registered)
        invariant i == 1 ==> confs[0].id in old(registered) && registered == old(registered) - {confs[0].id}
      {
        if confs[i].id !in registered { return false; }
        registered := registered - {confs[i].id};
      }
      ok := true;
    }

    /** It fails without a change when the worker is not registered, or no more. */
    method DestroyWorker(vm: Vm) returns (r: Outcome)
      requires Valid() && (vm in vmWorkers || vm.id !in registered)
      modifies this`workerNumbers, this`vmWorkers, this`configurators, this`toBeExecuted, this`registered, this`calls
      ensures Valid() && !r.Full? && LostNumbers() == old(LostNumbers())
      ensures calls == old(calls) + [DestroyVm(vm.id)]
      ensures r.Unregistered? ==> vm.id !in old(registered)
      ensures r.Done? ==> && vm in old(vmWorkers) && vm.id in old(registered) && vm.id !in registered
                          && vmWorkers == WithoutVm(old(vmWorkers), vm.name)
                          && SameRegistered(vmWorkers, old(registered), registered)
      ensures !r.Done? ==> vmWorkers == old(vmWorkers) && registered == old(registered)
    {
      var ok := Provider(DestroyVm(vm.id));
      if !ok { return ProviderFailed; }
      if vm.id !in registered { return Unregistered; }
      ghost var k :| 0 <= k < |vmWorkers| && vmWorkers[k] == vm;
      RemovalKeeps(id, vmWorkers, configurators, workerNumbers, registered, next, toBeExecuted, k);
      RemovalIds(vmWorkers, configurators, registered, k);
      Undeploy(vm, k);
      r := Done;
    }

    /** A registered worker goes, and with it what belongs to it. */
    method Undeploy(vm: Vm, ghost k: nat)
      requires Numbered() && IdsAgree(vmWorkers, configurators, registered)
      requires k < |vmWorkers| && vmWorkers[k] == vm && vm.id in registered
      modifies this`workerNumbers, this`vmWorkers, this`configurators, this`toBeExecuted, this`registered
      ensures vmWorkers == RemoveAt(old(vmWorkers), k) && configurators == ConfsWithout(old(configurators), vm.name)
      ensures workerNumbers == BitsWithout(old(workerNumbers), old(configurators), vm.name)
      ensures toBeExecuted == WithoutConf(old(toBeExecuted), vm.name)
      ensures registered == IdsWithout(old(registered), old(configurators), vm)
    {
      OwnConfRegistered(vmWorkers, configurators, registered, k);
      registered := registered - {vm.id};
      var removed, released := RemoveWorker(vm.name, k);
      var gone := DeregisterAll(removed);
      assert gone;
    }

    /**
     * A VM gets an id of its own; in an area without a VIM that fails. An id that is never registered
     * stands for none.
     */
    method RegisterVm() returns (ok: bool, x: nat)
      modifies this`registered, this`next
      ensures x == old(next) && next == old(next) + 1
      ensures registered == if ok then old(registered) + {x} else old(registered)
    {
      ok := *;
      x := next;
      if ok { registered := registered + {x}; }
      next := next + 1;
    }

    method RegisterConfigurator() returns (x: nat)
      modifies this`registered, this`next
      ensures x == old(next) && next == old(next) + 1 && registered == old(registered) + {x}
    {
      x := next;
      registered := registered + {x};
      next := next + 1;
    }

    /**
     * One worker with the least free number. When there is none nothing changes. When its registration
     * or the provider fails, the VM stays in the list without a configurator, and its number is lost.
     */
    method DeployWorker() returns (r: Outcome)
      requires Valid()
      modifies this
      ensures Valid()
      ensures calls == old(calls) + if r.Full? || r.Unregistered? then []
                                    else [CreateVm(old(next), WorkerName(id, FirstFree(old(workerNumbers))))]
      ensures r.Full? ==> && vmWorkers == old(vmWorkers) && configurators == old(configurators)
                          && workerNumbers == old(workerNumbers) && |configurators| + |LostNumbers()| == Slots
      ensures !r.Full? ==>
                && FirstFree(old(workerNumbers)) < Slots
                && var k := FirstFree(old(workerNumbers));
                && workerNumbers == old(workerNumbers)[k := 1]
                && vmWorkers == old(vmWorkers) + [Vm(old(next), WorkerName(id, k))]
                && var c := Configurator(old(next) + 1, WorkerName(id, k), k);
                && if r.Done?
                   then && configurators == old(configurators) + [c] && toBeExecuted == old(toBeExecuted) + [c]
                        && LostNumbers() == old(LostNumbers())
                   else && configurators == old(configurators) && toBeExecuted == old(toBeExecuted)
                        && registered == (if r.ProviderFailed? then old(registered) + {old(next)} else old(registered))
                        && LostNumbers() == old(LostNumbers()) + {k} && k !in old(LostNumbers())
    {
      FullExactlyWhen(workerNumbers, configurators);
      var number := ReserveWorkerNumber();
      if number.None? { return Full; }
      r := NumberedWorker(number.value, old(workerNumbers));
    }

    /** The worker of a number that was free before. */
    method NumberedWorker(number: nat, ghost bits: seq<int>) returns (r: Outcome)
      requires Consistent(id, vmWorkers, configurators, bits, registered, next, toBeExecuted)
      requires number < Slots && bits[number] == 0 && workerNumbers == bits[number := 1]
      modifies this`vmWorkers, this`configurators, this`toBeExecuted, this`registered, this`next, this`calls
      ensures Valid() && !r.Full?
      ensures calls == old(calls) + if r.Unregistered? then [] else [CreateVm(old(next), WorkerName(id, number))]
      ensures var (v, name) := (old(next), WorkerName(id, number));
              && vmWorkers == old(vmWorkers) + [Vm(v, name)]
              && if r.Done?
                 then var c := Configurator(v + 1, name, number);
                      configurators == old(configurators) + [c] && toBeExecuted == old(toBeExecuted) + [c]
                 else && configurators == old(configurators) && toBeExecuted == old(toBeExecuted)
                      && registered == if r.ProviderFailed? then old(registered) + {v} else old(registered)
      ensures var lost := Lost(bits, old(configurators));
              if r.Done? then LostNumbers() == lost else LostNumbers() == lost + {number} && number !in lost
    {
      ghost var (v, name) := (next, WorkerName(id, number));
      ghost var (vms, confs, ids, todo) := (vmWorkers, configurators, registered, toBeExecuted);
      r := CreateWorker(number);
      if r.Done? {
        WholeAddition(id, vms, confs, bits, ids, v, todo, number, Vm(v, name), Configurator(v + 1, name, number));
      } else {
        HalfAddition(id, vms, confs, bits, ids, v, todo, number, Vm(v, name));
      }
    }

    method CreateWorker(number: nat) returns (r: Outcome)
      modifies this`vmWorkers, this`configurators, this`toBeExecuted, this`registered, this`next, this`calls
      ensures !r.Full?
      ensures calls == old(calls) + if r.Unregistered? then [] else [CreateVm(old(next), WorkerName(id, number))]
      ensures var (v, name) := (old(next), WorkerName(id, number));
              && vmWorkers == old(vmWorkers) + [Vm(v, name)]
              && if r.Done?
                 then var c := Configurator(v + 1, name, number);
                      && configurators == old(configurators) + [c] && toBeExecuted == old(toBeExecuted) + [c]
                      && registered == old(registered) + {v} + {v + 1} && next == v + 2
                 else && configurators == old(configurators) && toBeExecuted == old(toBeExecuted)
                      && registered == (if r.ProviderFailed? then old(registered) + {v} else old(registered))
                      && next == v + 1
    {
      var name := WorkerName(id, number);
      var ok, vm := RegisterVm();
      vmWorkers := vmWorkers + [Vm(vm, name)];
      if !ok { return Unregistered; }
      ok := Provider(CreateVm(vm, name));
      if !ok { return ProviderFailed; }
      var c := RegisterConfigurator();
      var conf := Configurator(c, name, number);
      configurators := configurators + [conf];
      toBeExecuted := toBeExecuted + [conf];
      r := Done;
    }

    /**
     * The workers of an area, with the least free numbers. It fails for numbers iff too few are left;
     * any other failure loses one number.
     */
    method DeployArea(replicas: nat) returns (r: Outcome)
      requires Valid()
      modifies this
      ensures Valid() && old(vmWorkers) <= vmWorkers
      ensures r.Done? || r.Full? ==> LostNumbers() == old(LostNumbers())
      ensures r.Unregistered? || r.ProviderFailed? ==>
                exists k :: k !in old(LostNumbers()) && LostNumbers() == old(LostNumbers()) + {k}
      ensures r.Done? ==> |vmWorkers| == |old(vmWorkers)| + replicas
      ensures r.Done? ==> calls == old(calls) + Creations(vmWorkers[|old(vmWorkers)|..])
      ensures r.Done? ==> && old(configurators) <= configurators
                          && toBeExecuted == old(toBeExecuted) + configurators[|old(configurators)|..]
      ensures r.Done? ==> |old(configurators)| + replicas == |configurators| <= Slots - |LostNumbers()|
      ensures r.Done? ==>
                Numbers(configurators) == Numbers(old(configurators)) + LeastFree(old(workerNumbers), replicas)
      ensures r.Full? ==> |configurators| + |LostNumbers()| == Slots < |old(configurators)| + |LostNumbers()| + replicas
    {
      hide NamesAgree, IdsAgree, Below, Lost, Creations;
      NoneCreated(vmWorkers, configurators);
      for i := 0 to replicas
        invariant Valid() && Grown(old(vmWorkers), vmWorkers, i) && LostNumbers() == old(LostNumbers())
        invariant |configurators| == |old(configurators)| + i
        invariant NumberedSo(old(configurators), old(workerNumbers), replicas, configurators, workerNumbers, i)
        invariant calls == old(calls) + Creations(vmWorkers[|old(vmWorkers)|..])
        invariant old(configurators) <= configurators
        invariant toBeExecuted == old(toBeExecuted) + configurators[|old(configurators)|..]
      {
        ghost var (vms, confs, bits) := (vmWorkers, configurators, workerNumbers);
        r := DeployWorker();
        if !r.Done? { return; }
        GrownMore(old(vmWorkers), vms, i, vmWorkers[|vms|]);
        OneMoreCreated(vms, |old(vmWorkers)|, vmWorkers[|vms|]);
        NumberedMore(old(configurators), old(workerNumbers), replicas, confs, bits, i, configurators[|confs|]);
      }
      FullExactlyWhen(workerNumbers, configurators);
      r := Done;
    }

    /** The configurators that wait, in order. */
    method ConfigureAll() returns (ok: bool)
      modifies this`calls
      ensures ok ==> calls == old(calls) + Runs(toBeExecuted)
    {
      ok := true;
      for i := 0 to |toBeExecuted|
        invariant calls == old(calls) + Runs(toBeExecuted[..i])
      {
        ok := Provider(Configure(toBeExecuted[i].id));
        if !ok { return; }
        assert Runs(toBeExecuted[..i + 1]) == Runs(toBeExecuted[..i]) + [Configure(toBeExecuted[i].id)];
      }
      assert toBeExecuted[..|toBeExecuted|] == toBeExecuted;
      ok := true;
    }

    /**
     * add_worker: the VMs are created area by area, then the configurators that wait are run, those
     * left from an earlier failure first. Numbers lost stay lost.
     */
    method AddWorker(areas: seq<nat>) returns (r: Outcome)
      requires Valid()
      modifies this
      ensures Valid() && old(vmWorkers) <= vmWorkers && old(LostNumbers()) <= LostNumbers()
      ensures r.Done? || r.Full? ==> LostNumbers() == old(LostNumbers())
      ensures r.Done? ==> toBeExecuted == [] && |vmWorkers| == |old(vmWorkers)| + Total(areas)
      ensures r.Done? ==>
                && old(configurators) <= configurators
                && var waiting := old(toBeExecuted) + configurators[|old(configurators)|..];
                   calls == old(calls) + Creations(vmWorkers[|old(vmWorkers)|..]) + Runs(waiting)
      ensures r.Done? ==> |old(configurators)| + Total(areas) == |configurators| <= Slots - |LostNumbers()|
      ensures r.Full? ==>
                |configurators| + |LostNumbers()| == Slots < |old(configurators)| + |LostNumbers()| + Total(areas)
    {
      assert areas[..0] == [];
      for i := 0 to |areas|
        invariant Valid() && old(vmWorkers) <= vmWorkers && LostNumbers() == old(LostNumbers())
        invariant |vmWorkers| == |old(vmWorkers)| + Total(areas[..i])
        invariant |configurators| == |old(configurators)| + Total(areas[..i])
        invariant calls == old(calls) + Creations(vmWorkers[|old(vmWorkers)|..])
        invariant old(configurators) <= configurators
        invariant toBeExecuted == old(toBeExecuted) + configurators[|old(configurators)|..]
      {
        TotalGrows(areas, i);
        ghost var (vms, confs) := (vmWorkers, configurators);
        r := DeployArea(areas[i]);
        if !r.Done? { return; }
        MoreCreated(old(vmWorkers), vms, vmWorkers);
        Tails(old(configurators), confs, configurators);
        Associate(old(calls), Creations(vms[|old(vmWorkers)|..]), Creations(vmWorkers[|vms|..]));
        Associate(old(toBeExecuted), confs[|old(configurators)|..], configurators[|confs|..]);
      }
      assert areas[..|areas|] == areas;
      FullExactlyWhen(workerNumbers, configurators);
      var ok := ConfigureAll();
      if !ok { return ProviderFailed; }
      toBeExecuted := [];
      r := Done;
    }

    /** The first worker of each name, as far as there is one. */
    method FindTargets(names: seq<string>) returns (targets: seq<Vm>)
      ensures VmNames(targets) == Present(names, vmWorkers)
      ensures forall i :: 0 <= i < |targets| ==> targets[i] in vmWorkers
    {
      targets := [];
      assert names[0..] == names;
      for i := 0 to |names|
        invariant VmNames(targets) + Present(names[i..], vmWorkers) == Present(names, vmWorkers)
        invariant forall j :: 0 <= j < |targets| ==> targets[j] in vmWorkers
      {
        var k := VmIndex(vmWorkers, names[i]);
        PresentStep(names, vmWorkers, i, targets);
        if k < |vmWorkers| { targets := targets + [vmWorkers[k]]; }
      }
    }

    /**
     * del_workers. With one worker or none it does nothing; otherwise the workers named go, and it
     * fails for registration iff one is named twice or never was registered. Failing it leaves the state
     * in agreement. Numbers lost stay lost, even if their workers go.
     */
    method DelWorkers(names: seq<string>) returns (r: Outcome)
      requires Valid()
      modifies this
      ensures Valid() && !r.Full? && LostNumbers() == old(LostNumbers())
      ensures r.Done? ==> if |old(vmWorkers)| <= 1 then vmWorkers == old(vmWorkers) && calls == old(calls)
                          else Kept(old(vmWorkers), NotIn(names), vmWorkers)
                               && TakenDown(old(vmWorkers), names, old(calls), calls)
      ensures r.Done? ==> vmWorkers == AfterDelete(old(vmWorkers), names)
      ensures r.Done? ==> |old(vmWorkers)| <= 1 || Deletable(old(vmWorkers), names, old(registered))
      ensures r.Unregistered? ==> |old(vmWorkers)| > 1 && !Deletable(old(vmWorkers), names, old(registered))
    {
      ghost var was := vmWorkers;
      MasterIsNoWorker(id, vmWorkers, configurators, workerNumbers);
      PresentWithout(names, MasterName(), vmWorkers);
      var nodes := RemoveName(names, MasterName());
      if |vmWorkers| <= 1 { return Done; }
      var targets := FindTargets(nodes);
      ghost var some := calls;
      var ok := Provider(DeleteNodes(VmNames(targets)));
      if !ok { return ProviderFailed; }
      PresentKept(names, was);
      TargetsRegistered(names, was, targets, registered);
      KeptVmsIs(was, names);
      PresentIs(names, was);
      r := DestroyAll(targets);
      if r.Done? { TakenDownNow(was, names, targets, some, calls); }
    }

    /** Each target in turn; a worker that comes a second time is registered no more. */
    method DestroyAll(targets: seq<Vm>) returns (r: Outcome)
      requires Valid() && forall i :: 0 <= i < |targets| ==> targets[i] in vmWorkers
      modifies this
      ensures Valid() && !r.Full? && LostNumbers() == old(LostNumbers())
      ensures r.Done? ==> calls == old(calls) + Destructions(targets)
      ensures r.Done? ==> Distinct(VmNames(targets)) && vmWorkers == KeptVms(old(vmWorkers), VmNames(targets))
      ensures r.Done? ==> AllIn(targets, old(registered))
      ensures r.Unregistered? ==> !Distinct(VmNames(targets)) || !AllIn(targets, old(registered))
    {
      hide Consistent, Progress, KeptVms, Lost, Distinct;
      ghost var (was, all) := (vmWorkers, registered);
      NothingDone(id, vmWorkers, configurators, workerNumbers, registered, next, toBeExecuted, targets);
      for i := 0 to |targets|
        invariant Valid() && LostNumbers() == old(LostNumbers())
        invariant Progress(was, targets, i, vmWorkers, registered, all)
        invariant calls == old(calls) + Destructions(targets[..i])
      {
        ghost var (before, ids) := (vmWorkers, registered);
        TargetThereOrGone(was, targets, i, before, ids, all);
        r := DestroyWorker(targets[i]);
        if !r.Done? { return; }
        TargetGone(was, targets, i, before, ids, registered, all);
        assert Destructions(targets[..i + 1]) == Destructions(targets[..i]) + [DestroyVm(targets[i].id)];
      }
      assert targets[..|targets|] == targets;
      AllDone(was, targets, vmWorkers, registered, all);
      r := Done;
    }
  }

  // ---------------------------------------------------- the calls to the provider

  ghost function NotIn(names: seq<string>): Vm -> bool {
    (v: Vm) => v.name !in names
  }

  ghost function IsWorker(vms: seq<Vm>): string -> bool {
    (n: string) => exists v :: v in vms && v.name == n
  }

  /** The controller drops the named workers, in the order of their names, and then their VMs are destroyed. */
  ghost predicate TakenDown(vms: seq<Vm>, names: seq<string>, was: seq<VmCall>, now: seq<VmCall>) {
    exists targets: seq<Vm> ::
      && Kept(names, IsWorker(vms), VmNames(targets)) && (forall v :: v in targets ==> v in vms)
      && now == was + [DeleteNodes(VmNames(targets))] + Destructions(targets)
  }

  lemma TakenDownNow(vms: seq<Vm>, names: seq<string>, targets: seq<Vm>, was: seq<VmCall>, now: seq<VmCall>)
    requires Kept(names, IsWorker(vms), VmNames(targets)) && forall i :: 0 <= i < |targets| ==> targets[i] in vms
    requires now == was + [DeleteNodes(VmNames(targets))] + Destructions(targets)
    ensures TakenDown(vms, names, was, now)
  {
  }

  lemma {:induction false} KeptVmsIs(vms: seq<Vm>, names: seq<string>)
    ensures Kept(vms, NotIn(names), KeptVms(vms, names))
  {
    if vms == [] {
      KeptNone(NotIn(names));
    } else {
      KeptVmsIs(vms[1..], names);
      KeptCons(vms[0], vms[1..], NotIn(names), KeptVms(vms[1..], names));
      assert vms == [vms[0]] + vms[1..];
    }
  }

  lemma {:induction false} PresentIs(names: seq<string>, vms: seq<Vm>)
    ensures Kept(names, IsWorker(vms), Present(names, vms))
  {
    if names == [] {
      KeptNone(IsWorker(vms));
    } else {
      PresentIs(names[1..], vms);
      KeptCons(names[0], names[1..], IsWorker(vms), Present(names[1..], vms));
      assert names == [names[0]] + names[1..];
    }
  }

  lemma OneMoreCreated(vms: seq<Vm>, n: nat, v: Vm)
    requires n <= |vms|
    ensures Creations((vms + [v])[n..]) == Creations(vms[n..]) + [CreateVm(v.id, v.name)]
  {
  }

  lemma NoneCreated(vms: seq<Vm>, confs: seq<Configurator>)
    ensures Creations(vms[|vms|..]) == [] && confs[|confs|..] == []
  {
  }

  lemma Tails<T>(first: seq<T>, second: seq<T>, third: seq<T>)
    requires first <= second <= third
    ensures third[|first|..] == second[|first|..] + third[|second|..]
  {
  }

  lemma MoreCreated(first: seq<Vm>, second: seq<Vm>, third: seq<Vm>)
    requires first <= second <= third
    ensures Creations(third[|first|..]) == Creations(second[|first|..]) + Creations(third[|second|..])
  {
  }

  // ----------------------------------------------------------------- what is named

  function Numbers(confs: seq<Configurator>): seq<nat> {
    seq(|confs|, i requires 0 <= i < |confs| => confs[i].number)
  }

  ghost predicate Grown(was: seq<Vm>, vms: seq<Vm>, n: nat) {
    |vms| == |was| + n && vms[..|was|] == was
  }

  lemma GrownMore(was: seq<Vm>, vms: seq<Vm>, n: nat, v: Vm)
    requires Grown(was, vms, n)
    ensures Grown(was, vms + [v], n + 1)
  {
  }

  /** After i of n workers the least free numbers were taken, and the rest come next. */
  ghost predicate NumberedSo(was: seq<Configurator>, bits0: seq<int>, n: nat, confs: seq<Configurator>, bits: seq<int>,
                             i: nat) {
    i <= n && Numbers(confs) + LeastFree(bits, n - i) == Numbers(was) + LeastFree(bits0, n)
  }

  lemma {:induction false} NumberedMore(was: seq<Configurator>, bits0: seq<int>, n: nat, confs: seq<Configurator>,
                                        bits: seq<int>, i: nat, c: Configurator)
    requires NumberedSo(was, bits0, n, confs, bits, i) && i < n && c.number == FirstFree(bits) < |bits|
    ensures NumberedSo(was, bits0, n, confs + [c], bits[c.number := 1], i + 1)
  {
    var (before, rest) := (Numbers(confs), LeastFree(bits[c.number := 1], n - (i + 1)));
    NumbersAppend(confs, c);
    LeastFirst(bits, n - i);
    Regroup(before, c.number, rest);
  }

  lemma NumbersAppend(confs: seq<Configurator>, c: Configurator)
    ensures Numbers(confs + [c]) == Numbers(confs) + [c.number]
  {
  }

  lemma LeastFirst(bits: seq<int>, n: nat)
    requires FirstFree(bits) < |bits| && n > 0
    ensures LeastFree(bits, n) == [FirstFree(bits)] + LeastFree(bits[FirstFree(bits) := 1], n - 1)
  {
  }

  /** The n least free numbers, or all that are free. */
  function LeastFree(bits: seq<int>, n: nat): seq<nat>
    decreases n
  {
    var k := FirstFree(bits);
    if n == 0 || k == |bits| then [] else [k] + LeastFree(bits[k := 1], n - 1)
  }

  function Total(areas: seq<nat>): nat {
    if areas == [] then 0 else Total(areas[..|areas| - 1]) + areas[|areas| - 1]
  }

  lemma {:induction false} TotalGrows(areas: seq<nat>, i: nat)
    requires i < |areas|
    ensures Total(areas[..i + 1]) == Total(areas[..i]) + areas[i] <= Total(areas)
    decreases |areas|
  {
    assert areas[..i + 1][..i] == areas[..i];
    if i == |areas| - 1 {
      assert areas[..i + 1] == areas;
    } else {
      var rest := areas[..|areas| - 1];
      TotalGrows(rest, i);
      assert rest[..i + 1] == areas[..i + 1] && rest[..i] == areas[..i];
    }
  }

  function VmIndex(vms: seq<Vm>, name: string): (k: nat)
    ensures k <= |vms| && (k < |vms| ==> vms[k].name == name)
    ensures forall i :: 0 <= i < k ==> vms[i].name != name
  {
    if vms == [] || vms[0].name == name then 0 else 1 + VmIndex(vms[1..], name)
  }

  function VmNames(vms: seq<Vm>): seq<string> {
    seq(|vms|, i requires 0 <= i < |vms| => vms[i].name)
  }

  predicate Names(vms: seq<Vm>, name: string) {
    VmIndex(vms, name) < |vms|
  }

  /** The names that a worker has, in order. */
  function Present(names: seq<string>, vms: seq<Vm>): seq<string> {
    if names == [] then [] else (if Names(vms, names[0]) then [names[0]] else []) + Present(names[1..], vms)
  }

  function RemoveName(names: seq<string>, name: string): seq<string> {
    if names == [] then [] else if names[0] == name then names[1..] else [names[0]] + RemoveName(names[1..], name)
  }

  /** The workers that are not named. */
  function KeptVms(vms: seq<Vm>, names: seq<string>): seq<Vm> {
    if vms == [] then [] else (if vms[0].name in names then [] else [vms[0]]) + KeptVms(vms[1..], names)
  }

  function AfterDelete(vms: seq<Vm>, names: seq<string>): seq<Vm> {
    if |vms| <= 1 then vms else KeptVms(vms, names)
  }

  lemma {:induction false} KeptAllVms(vms: seq<Vm>)
    ensures KeptVms(vms, []) == vms
  {
    if vms != [] { KeptAllVms(vms[1..]); }
  }

  lemma {:induction false} KeptHas(vms: seq<Vm>, names: seq<string>, v: Vm)
    ensures v in KeptVms(vms, names) <==> v in vms && v.name !in names
  {
    if vms != [] { KeptHas(vms[1..], names, v); }
  }

  lemma {:induction false} KeptStep(vms: seq<Vm>, names: seq<string>, n: string)
    ensures WithoutVm(KeptVms(vms, names), n) == KeptVms(vms, names + [n])
  {
    if vms != [] {
      var (v, rest) := (vms[0], KeptVms(vms[1..], names));
      KeptStep(vms[1..], names, n);
      if v.name in names {
        assert [] + rest == rest;
      } else {
        assert ([v] + rest)[1..] == rest;
      }
    }
  }

  ghost predicate AllIn(targets: seq<Vm>, registered: set<nat>) {
    forall i :: 0 <= i < |targets| ==> targets[i].id in registered
  }

  /** No worker is named twice, and those that are named are registered. */
  ghost predicate Deletable(vms: seq<Vm>, names: seq<string>, registered: set<nat>) {
    Distinct(Present(names, vms)) && forall i :: 0 <= i < |vms| && vms[i].name in names ==> vms[i].id in registered
  }

  ghost predicate SameRegistered(vms: seq<Vm>, before: set<nat>, after: set<nat>) {
    after <= before && forall i :: 0 <= i < |vms| ==> (vms[i].id in after <==> vms[i].id in before)
  }

  /** The targets are the named workers. */
  lemma TargetsRegistered(names: seq<string>, vms: seq<Vm>, targets: seq<Vm>, registered: set<nat>)
    requires VmNames(targets) == Present(names, vms) && forall i :: 0 <= i < |targets| ==> targets[i] in vms
    requires forall i, j :: 0 <= i < j < |vms| ==> vms[i].name != vms[j].name
    ensures AllIn(targets, registered) <==>
            forall i :: 0 <= i < |vms| && vms[i].name in names ==> vms[i].id in registered
  {
    forall i | 0 <= i < |targets| ensures targets[i].name in names {
      assert VmNames(targets)[i] == targets[i].name;
      PresentHas(names, vms, targets[i].name);
    }
    forall i | 0 <= i < |vms| && vms[i].name in names ensures vms[i] in targets {
      PresentHas(names, vms, vms[i].name);
      NamesHas(vms, i);
      var j :| 0 <= j < |targets| && VmNames(targets)[j] == vms[i].name;
      var o :| 0 <= o < |vms| && vms[o] == targets[j];
    }
  }

  /** The first i targets are destroyed, all different and registered before, and nothing else is. */
  ghost predicate Progress(was: seq<Vm>, targets: seq<Vm>, i: nat, vms: seq<Vm>, registered: set<nat>, all: set<nat>) {
    && i <= |targets|
    && (forall j :: 0 <= j < |targets| ==> targets[j] in was)
    && (forall j, k :: 0 <= j < k < |was| ==> was[j].name != was[k].name)
    && Distinct(VmNames(targets[..i])) && vms == KeptVms(was, VmNames(targets[..i]))
    && (forall j :: 0 <= j < i ==> targets[j].id !in registered && targets[j].id in all)
    && SameRegistered(vms, all, registered)
  }

  lemma NothingDone(blueprint: string, vms: seq<Vm>, confs: seq<Configurator>, bits: seq<int>, registered: set<nat>,
                    next: nat, todo: seq<Configurator>, targets: seq<Vm>)
    requires Consistent(blueprint, vms, confs, bits, registered, next, todo)
    requires forall i :: 0 <= i < |targets| ==> targets[i] in vms
    ensures Progress(vms, targets, 0, vms, registered, registered)
  {
    KeptAllVms(vms);
    assert VmNames(targets[..0]) == [];
  }

  lemma AllDone(was: seq<Vm>, targets: seq<Vm>, vms: seq<Vm>, registered: set<nat>, all: set<nat>)
    requires Progress(was, targets, |targets|, vms, registered, all)
    ensures Distinct(VmNames(targets)) && vms == KeptVms(was, VmNames(targets)) && AllIn(targets, all)
  {
    assert targets[..|targets|] == targets;
  }

  lemma TargetThereOrGone(was: seq<Vm>, targets: seq<Vm>, i: nat, vms: seq<Vm>, registered: set<nat>, all: set<nat>)
    requires Progress(was, targets, i, vms, registered, all) && i < |targets|
    ensures targets[i] in vms || (targets[i].id !in registered && !Distinct(VmNames(targets)))
    ensures targets[i] in vms ==> (targets[i].id in registered <==> targets[i].id in all)
  {
    KeptHas(was, VmNames(targets[..i]), targets[i]);
    if targets[i].name in VmNames(targets[..i]) {
      var j :| 0 <= j < i && VmNames(targets[..i])[j] == targets[i].name;
      assert targets[j].name == targets[i].name;
      assert VmNames(targets)[j] == VmNames(targets)[i];
      var a :| 0 <= a < |was| && was[a] == targets[i];
      var b :| 0 <= b < |was| && was[b] == targets[j];
      assert a == b;
    } else {
      var a :| 0 <= a < |vms| && vms[a] == targets[i];
    }
  }

  lemma TargetGone(was: seq<Vm>, targets: seq<Vm>, i: nat, vms: seq<Vm>, before: set<nat>, after: set<nat>,
                   all: set<nat>)
    requires Progress(was, targets, i, vms, before, all) && i < |targets| && targets[i] in vms
    requires SameRegistered(WithoutVm(vms, targets[i].name), before, after)
    requires targets[i].id !in after && targets[i].id in before
    ensures Progress(was, targets, i + 1, WithoutVm(vms, targets[i].name), after, all)
  {
    KeptHas(was, VmNames(targets[..i]), targets[i]);
    assert VmNames(targets[..i + 1]) == VmNames(targets[..i]) + [targets[i].name];
    KeptStep(was, VmNames(targets[..i]), targets[i].name);
    var now := WithoutVm(vms, targets[i].name);
    forall j | 0 <= j < |now| ensures now[j].id in after <==> now[j].id in all {
      WithoutVmHas(vms, targets[i].name, now[j]);
      assert now[j] in now;
      var o :| 0 <= o < |vms| && vms[o] == now[j];
    }
  }

  lemma {:induction false} WithoutVmHas(vms: seq<Vm>, name: string, v: Vm)
    ensures v in WithoutVm(vms, name) <==> v in vms && v.name != name
  {
    if vms != [] { WithoutVmHas(vms[1..], name, v); }
  }

  lemma PresentStep(names: seq<string>, vms: seq<Vm>, i: nat, targets: seq<Vm>)
    requires i < |names|
    ensures VmNames(targets) + Present(names[i..], vms) ==
            VmNames(if Names(vms, names[i]) then targets + [vms[VmIndex(vms, names[i])]] else targets)
            + Present(names[i + 1..], vms)
  {
    assert names[i..][1..] == names[i + 1..];
    var rest := Present(names[i + 1..], vms);
    if Names(vms, names[i]) {
      assert VmNames(targets + [vms[VmIndex(vms, names[i])]]) == VmNames(targets) + [names[i]];
      Regroup(VmNames(targets), names[i], rest);
    } else {
      assert [] + rest == rest;
    }
  }

  lemma {:induction false} PresentHas(names: seq<string>, vms: seq<Vm>, n: string)
    ensures n in Present(names, vms) <==> n in names && Names(vms, n)
  {
    if names != [] { PresentHas(names[1..], vms, n); }
  }

  lemma {:induction false} KeptSame(vms: seq<Vm>, a: seq<string>, b: seq<string>)
    requires forall i :: 0 <= i < |vms| ==> (vms[i].name in a <==> vms[i].name in b)
    ensures KeptVms(vms, a) == KeptVms(vms, b)
  {
    if vms != [] { KeptSame(vms[1..], a, b); }
  }

  lemma PresentKept(names: seq<string>, vms: seq<Vm>)
    ensures KeptVms(vms, Present(names, vms)) == KeptVms(vms, names)
  {
    forall i | 0 <= i < |vms| ensures vms[i].name in Present(names, vms) <==> vms[i].name in names {
      PresentHas(names, vms, vms[i].name);
    }
    KeptSame(vms, Present(names, vms), names);
  }

  lemma {:induction false} PresentWithout(names: seq<string>, name: string, vms: seq<Vm>)
    requires !Names(vms, name)
    ensures Present(RemoveName(names, name), vms) == Present(names, vms)
  {
    if names != [] { PresentWithout(names[1..], name, vms); }
  }

  lemma MasterIsNoWorker(blueprint: string, vms: seq<Vm>, confs: seq<Configurator>, bits: seq<int>)
    requires NamesAgree(blueprint, vms, confs, bits)
    ensures !Names(vms, blueprint + "-vm-k8s-c")
  {
    var master := blueprint + "-vm-k8s-c";
    assert master[|blueprint| + 4] == 'k';
    forall i | 0 <= i < |vms| ensures vms[i].name != master {
      var n := NumberBehind(blueprint, vms, confs, bits, i);
      assert vms[i].name[|blueprint| + 4] == 'w';
    }
  }

  /** The promise that a cluster keeps a worker fails exactly when all of two or more are named. */
  lemma {:induction false} NoWorkerLeftExactlyWhen(vms: seq<Vm>, names: seq<string>)
    ensures AfterDelete(vms, names) == [] <==> vms == [] || (|vms| >= 2 && forall v :: v in vms ==> v.name in names)
  {
    var left := KeptVms(vms, names);
    if v :| v in vms && v.name !in names { KeptHas(vms, names, v); }
    if left != [] { KeptHas(vms, names, left[0]); }
  }

  /** Two workers, both named: the cluster is left with its controller alone. */
  lemma BothWorkersGone(a: Vm, b: Vm)
    ensures AfterDelete([a, b], [a.name, b.name]) == []
  {
    NoWorkerLeftExactlyWhen([a, b], [a.name, b.name]);
  }

  /** What a filtered list holds of the configurators is still there. */
  lemma WithoutConfIn(todo: seq<Configurator>, confs: seq<Configurator>, name: string)
    requires forall c :: c in todo ==> c in confs
    ensures forall c :: c in WithoutConf(todo, name) ==> c in ConfsWithout(confs, name)
  {
    var k := ConfIndex(confs, name);
    forall c | c in WithoutConf(todo, name) ensures c in ConfsWithout(confs, name) {
      WithoutConfHas(todo, name, c);
      var i :| 0 <= i < |confs| && confs[i] == c;
      if k < |confs| { assert RemoveAt(confs, k)[if i < k then i else i - 1] == c; }
    }
  }

  lemma {:induction false} WithoutConfHas(confs: seq<Configurator>, name: string, c: Configurator)
    ensures c in WithoutConf(confs, name) <==> c in confs && c.vmName != name
  {
    if confs != [] { WithoutConfHas(confs[1..], name, c); }
  }
}
